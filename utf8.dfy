/**
 * UTF-8, the byte form in which the file system hands the document text to
 * the compiler (`str::as_bytes`), and the byte offsets in which edits are
 * expressed. Dafny's `char` is a Unicode scalar value, so every string has
 * exactly one encoding.
 */
module Utf8 {
  import opened Common

  /** The scalar value of a character. */
  function CodePoint(c: char): (n: int)
    ensures 0 <= n < 0x11_0000 && !(0xD800 <= n < 0xE000)
  {
    c as int
  }

  /** A continuation byte, `10xxxxxx`. */
  predicate IsContinuation(b: byte) {
    0x80 <= b < 0xC0
  }

  /** The encoding of one character: one to four bytes, shortest form. */
  function EncodeChar(c: char): (b: Bytes)
    ensures 1 <= |b| <= 4
    ensures |b| == 1 <==> CodePoint(c) < 0x80
    ensures |b| == 1 ==> b[0] as int == CodePoint(c)
    ensures forall k :: 1 <= k < |b| ==> IsContinuation(b[k])
  {
    var n := CodePoint(c);
    if n < 0x80 then
      [n as byte]
    else if n < 0x800 then
      [(0xC0 + n / 64) as byte, (0x80 + n % 64) as byte]
    else if n < 0x1_0000 then
      [(0xE0 + n / 4096) as byte, (0x80 + (n / 64) % 64) as byte, (0x80 + n % 64) as byte]
    else
      [(0xF0 + n / 262144) as byte, (0x80 + (n / 4096) % 64) as byte,
       (0x80 + (n / 64) % 64) as byte, (0x80 + n % 64) as byte]
  }

  /** The encoding of a string, character after character. */
  function Encode(s: string): (b: Bytes)
    ensures |b| >= |s|
    ensures s == [] <==> b == []
  {
    if s == [] then [] else EncodeChar(s[0]) + Encode(s[1..])
  }

  /**
   * Reads the first character of a non-empty buffer: the character and the
   * number of bytes it occupies, or None when the buffer does not start with
   * a well-formed shortest-form encoding.
   */
  function DecodeFirst(b: Bytes): (r: Option<(char, nat)>)
    requires |b| > 0
    ensures r.Some? ==> 1 <= r.value.1 <= |b|
  {
    var b0 := b[0] as int;
    if b0 < 0x80 then
      Some((b0 as char, 1))
    else if 0xC2 <= b0 < 0xE0 && |b| >= 2 && IsContinuation(b[1]) then
      var n := (b0 - 0xC0) * 64 + (b[1] as int - 0x80);
      Some((n as char, 2))
    else if 0xE0 <= b0 < 0xF0 && |b| >= 3 && IsContinuation(b[1]) && IsContinuation(b[2]) then
      var n := (b0 - 0xE0) * 4096 + (b[1] as int - 0x80) * 64 + (b[2] as int - 0x80);
      if 0x800 <= n && !(0xD800 <= n < 0xE000) then Some((n as char, 3)) else None
    else if 0xF0 <= b0 < 0xF5 && |b| >= 4
            && IsContinuation(b[1]) && IsContinuation(b[2]) && IsContinuation(b[3]) then
      var n := (b0 - 0xF0) * 262144 + (b[1] as int - 0x80) * 4096
               + (b[2] as int - 0x80) * 64 + (b[3] as int - 0x80);
      if 0x1_0000 <= n < 0x11_0000 then Some((n as char, 4)) else None
    else
      None
  }

  /** The text a buffer encodes, or None when it is not well-formed UTF-8. */
  function Decode(b: Bytes): (r: Option<string>)
    decreases |b|
  {
    if b == [] then Some([])
    else
      match DecodeFirst(b)
      case None => None
      case Some((c, w)) =>
        match Decode(b[w..])
        case None => None
        case Some(rest) => Some([c] + rest)
  }

  /** Reading the first character back from its encoding yields it and its width. */
  lemma DecodeFirstEncodeChar(c: char, rest: Bytes)
    ensures DecodeFirst(EncodeChar(c) + rest) == Some((c, |EncodeChar(c)|))
  {
    var n := CodePoint(c);
    if n < 0x80 {
    } else if n < 0x800 {
      DecodeTwo(c, rest);
    } else if n < 0x1_0000 {
      DecodeThree(c, rest);
    } else {
      DecodeFour(c, rest);
    }
  }

  lemma DecodeTwo(c: char, rest: Bytes)
    requires 0x80 <= CodePoint(c) < 0x800
    ensures DecodeFirst(EncodeChar(c) + rest) == Some((c, 2))
  {
    var n := CodePoint(c);
    var b := EncodeChar(c) + rest;
    var hi, lo := n / 64, n % 64;
    assert n == hi * 64 + lo && 2 <= hi < 32 && 0 <= lo < 64;
    assert b[0] as int == 0xC0 + hi && b[1] as int == 0x80 + lo;
  }

  lemma DecodeThree(c: char, rest: Bytes)
    requires 0x800 <= CodePoint(c) < 0x1_0000
    ensures DecodeFirst(EncodeChar(c) + rest) == Some((c, 3))
  {
    var n := CodePoint(c);
    var b := EncodeChar(c) + rest;
    var q, lo := n / 64, n % 64;
    var hi, mid := q / 64, q % 64;
    assert n == q * 64 + lo && 0 <= lo < 64;
    assert q == hi * 64 + mid && 0 <= mid < 64;
    assert n / 4096 == hi && hi < 16;
    assert b[0] as int == 0xE0 + hi && b[1] as int == 0x80 + mid && b[2] as int == 0x80 + lo;
    assert hi * 4096 + mid * 64 + lo == n;
  }

  lemma DecodeFour(c: char, rest: Bytes)
    requires 0x1_0000 <= CodePoint(c)
    ensures DecodeFirst(EncodeChar(c) + rest) == Some((c, 4))
  {
    var n := CodePoint(c);
    var b := EncodeChar(c) + rest;
    var q, lo := n / 64, n % 64;
    var r, mid := q / 64, q % 64;
    var hi, top := r / 64, r % 64;
    assert n == q * 64 + lo && 0 <= lo < 64;
    assert q == r * 64 + mid && 0 <= mid < 64;
    assert r == hi * 64 + top && 0 <= top < 64;
    assert n / 4096 == r && n / 262144 == hi && hi < 5;
    assert b[0] as int == 0xF0 + hi && b[1] as int == 0x80 + top;
    assert b[2] as int == 0x80 + mid && b[3] as int == 0x80 + lo;
    assert hi * 262144 + top * 4096 + mid * 64 + lo == n;
  }

  /** Decoding the encoding of a string gives the string back. */
  lemma {:induction false} DecodeEncode(s: string)
    ensures Decode(Encode(s)) == Some(s)
  {
    if s != [] {
      var head := EncodeChar(s[0]);
      DecodeFirstEncodeChar(s[0], Encode(s[1..]));
      assert (head + Encode(s[1..]))[|head|..] == Encode(s[1..]);
      DecodeEncode(s[1..]);
      assert [s[0]] + s[1..] == s;
    }
  }

  /** Encoding distributes over concatenation. */
  lemma {:induction false} EncodeAppend(s: string, t: string)
    ensures Encode(s + t) == Encode(s) + Encode(t)
  {
    if s == [] {
      assert s + t == t;
    } else {
      assert (s + t)[0] == s[0] && (s + t)[1..] == s[1..] + t;
      EncodeAppend(s[1..], t);
    }
  }

  /**
   * The character index at which byte offset `off` of the encoding of `s`
   * falls, or None when `off` lies inside a character or past the end.
   */
  function CharIndexAt(s: string, off: nat): (k: Option<nat>)
    ensures k.Some? ==> k.value <= |s| && |Encode(s[..k.value])| == off
    ensures k.Some? ==> off <= |Encode(s)|
    decreases |s|
  {
    if off == 0 then
      assert s[..0] == [];
      Some(0)
    else if s == [] then None
    else
      var w := |EncodeChar(s[0])|;
      if off < w then None
      else
        match CharIndexAt(s[1..], off - w)
        case None => None
        case Some(k) =>
          assert s[..k + 1][0] == s[0] && s[..k + 1][1..] == s[1..][..k];
          Some(k + 1)
  }

  /** Every character boundary is found by CharIndexAt. */
  lemma {:induction false} CharIndexAtBoundary(s: string, k: nat)
    requires k <= |s|
    ensures CharIndexAt(s, |Encode(s[..k])|) == Some(k)
  {
    if k == 0 {
      assert s[..k] == [];
    } else {
      CharIndexAtBoundary(s[1..], k - 1);
      CharIndexAtNext(s, k);
    }
  }

  /** The inductive step of CharIndexAtBoundary. */
  lemma CharIndexAtNext(s: string, k: nat)
    requires 0 < k <= |s|
    requires CharIndexAt(s[1..], |Encode(s[1..][..k - 1])|) == Some(k - 1)
    ensures CharIndexAt(s, |Encode(s[..k])|) == Some(k)
  {
    PrefixEncodingLength(s, k);
    CharIndexAtStep(s, |Encode(s[1..][..k - 1])|, k - 1);
  }

  /** The encoded length of a non-empty prefix: the first character's width plus the rest. */
  lemma PrefixEncodingLength(s: string, k: nat)
    requires 0 < k <= |s|
    ensures |Encode(s[..k])| == |EncodeChar(s[0])| + |Encode(s[1..][..k - 1])|
  {
    assert s[..k][0] == s[0] && s[..k][1..] == s[1..][..k - 1];
  }

  /** CharIndexAt past the first character is CharIndexAt of the rest, shifted by one. */
  lemma CharIndexAtStep(s: string, rest: nat, k: nat)
    requires s != []
    requires CharIndexAt(s[1..], rest) == Some(k)
    ensures CharIndexAt(s, |EncodeChar(s[0])| + rest) == Some(k + 1)
  {
  }

  /** Character boundaries are ordered as their byte offsets are. */
  lemma BoundaryOrder(s: string, i: nat, j: nat)
    requires i <= |s| && j <= |s|
    ensures i <= j <==> |Encode(s[..i])| <= |Encode(s[..j])|
  {
    if i <= j {
      EncodeAppend(s[..i], s[i..j]);
      assert s[..i] + s[i..j] == s[..j];
    } else {
      EncodeAppend(s[..j], s[j..i]);
      assert s[..j] + s[j..i] == s[..i];
    }
  }

  /** Splitting a string at a character splits its encoding at that character's offset. */
  lemma EncodeSplit(s: string, k: nat)
    requires k <= |s|
    ensures Encode(s) == Encode(s[..k]) + Encode(s[k..])
    ensures |Encode(s[..k])| <= |Encode(s)|
  {
    EncodeAppend(s[..k], s[k..]);
    assert s[..k] + s[k..] == s;
  }
}
