/** Small value types shared by every module of the model. */
module Common {

  datatype Option<+T> = None | Some(value: T)

  /** Rust's `Result`: the value of a fallible operation. */
  datatype Result<+T, +E> = Ok(value: T) | Err(error: E)

  /** An unsigned 8-bit integer, the element of a byte buffer (`Bytes`, `Vec<u8>`). */
  newtype byte = x: int | 0 <= x < 0x100

  type Bytes = seq<byte>

  const HASH_BOUND: int := 0x1_0000_0000_0000_0000_0000_0000_0000_0000

  /** The 128-bit digest `hash128` computes (`u128`). */
  newtype Hash128 = x: int | 0 <= x < HASH_BOUND

  /** Concatenation is associative; stated once so that loop proofs need not rediscover it. */
  lemma AppendAssoc<T>(a: seq<T>, b: seq<T>, c: seq<T>)
    ensures (a + b) + c == a + (b + c)
  {
  }
}
