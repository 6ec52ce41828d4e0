/**
 * The host-facing engine (src/typst_interface.rs): forwarding setters and
 * the compile-and-export pass, which emits the page count and then the
 * position and SVG text of every page whose hash differs from the one the
 * export cache holds for that position.
 */
module TypstInterface {
  import opened Common
  import Decimal
  import Efs
  import Utf8
  import W = World

  /** A diagnostic the compiler reports for a failed compilation; never inspected here. */
  type SourceError

  /** A host value thrown back as an error; never produced by the export. */
  type JsValue

  /* ---------------- Specification of one export pass ---------------- */

  /** Page `i` is exported: its position is new to the cache or its hash changed. */
  predicate Changed(cache: seq<Hash128>, pages: seq<W.Frame>, hash: W.Frame -> Hash128, i: nat)
    requires i < |pages|
  {
    i >= |cache| || cache[i] != hash(pages[i])
  }

  /** The positions, among the first `n`, of the pages the pass exports, in order. */
  function ChangedPositions(cache: seq<Hash128>, pages: seq<W.Frame>, hash: W.Frame -> Hash128, n: nat)
    : (ps: seq<nat>)
    requires n <= |pages|
    ensures forall k :: 0 <= k < |ps| ==> ps[k] < n && Changed(cache, pages, hash, ps[k])
    ensures forall k, l :: 0 <= k < l < |ps| ==> ps[k] < ps[l]
    ensures forall p :: 0 <= p < n && Changed(cache, pages, hash, p) ==> p in ps
  {
    if n == 0 then []
    else
      ChangedPositions(cache, pages, hash, n - 1)
      + (if Changed(cache, pages, hash, n - 1) then [n - 1] else [])
  }

  /** The output for the first `n` pages: position and SVG text of each exported page. */
  function Emitted(cache: seq<Hash128>, pages: seq<W.Frame>, hash: W.Frame -> Hash128,
                   svg: W.Frame -> string, n: nat): seq<string>
    requires n <= |pages|
  {
    if n == 0 then []
    else
      Emitted(cache, pages, hash, svg, n - 1)
      + (if Changed(cache, pages, hash, n - 1) then [Decimal.FromNat(n - 1), svg(pages[n - 1])] else [])
  }

  /** The export cache once the first `n` pages have been recorded. */
  function CacheAfter(cache: seq<Hash128>, pages: seq<W.Frame>, hash: W.Frame -> Hash128, n: nat)
    : (r: seq<Hash128>)
    requires n <= |pages|
    ensures |r| == if n <= |cache| then |cache| else n
  {
    seq(if n <= |cache| then |cache| else n,
        j requires 0 <= j < (if n <= |cache| then |cache| else n) =>
          if j < n then hash(pages[j]) else cache[j])
  }

  /** The whole output of a successful pass: the page count, then the exported pages. */
  function ExportOutput(cache: seq<Hash128>, pages: seq<W.Frame>, hash: W.Frame -> Hash128,
                        svg: W.Frame -> string): seq<string>
  {
    [Decimal.FromNat(|pages|)] + Emitted(cache, pages, hash, svg, |pages|)
  }

  /* ---------------- Properties of the specification ---------------- */

  /**
   * The output for the first `n` pages is a sequence of pairs, one per
   * exported position in ascending order: the position in decimal, then the
   * SVG text of that page.
   */
  lemma {:induction false} EmittedPairs(cache: seq<Hash128>, pages: seq<W.Frame>,
                                        hash: W.Frame -> Hash128, svg: W.Frame -> string, n: nat)
    requires n <= |pages|
    ensures var ps := ChangedPositions(cache, pages, hash, n);
            var out := Emitted(cache, pages, hash, svg, n);
            |out| == 2 * |ps| &&
            forall k :: 0 <= k < |ps| ==>
              out[2 * k] == Decimal.FromNat(ps[k]) && out[2 * k + 1] == svg(pages[ps[k]])
  {
    if n > 0 {
      EmittedPairs(cache, pages, hash, svg, n - 1);
    }
  }

  /**
   * A successful pass outputs the page count first, then one (position, SVG)
   * pair per exported page in ascending position order.
   */
  lemma ExportOutputShape(cache: seq<Hash128>, pages: seq<W.Frame>,
                          hash: W.Frame -> Hash128, svg: W.Frame -> string)
    ensures var ps := ChangedPositions(cache, pages, hash, |pages|);
            var out := ExportOutput(cache, pages, hash, svg);
            |out| == 1 + 2 * |ps| && out[0] == Decimal.FromNat(|pages|) &&
            forall k :: 0 <= k < |ps| ==>
              out[1 + 2 * k] == Decimal.FromNat(ps[k]) && out[2 + 2 * k] == svg(pages[ps[k]])
  {
    var ps := ChangedPositions(cache, pages, hash, |pages|);
    var e := Emitted(cache, pages, hash, svg, |pages|);
    var out := ExportOutput(cache, pages, hash, svg);
    EmittedPairs(cache, pages, hash, svg, |pages|);
    forall k | 0 <= k < |ps|
      ensures out[1 + 2 * k] == Decimal.FromNat(ps[k]) && out[2 + 2 * k] == svg(pages[ps[k]])
    {
      assert out[1 + 2 * k] == e[2 * k] && out[2 + 2 * k] == e[2 * k + 1];
    }
  }

  /** The host reads the page count and every exported position back from the output. */
  lemma ExportOutputReadsBack(cache: seq<Hash128>, pages: seq<W.Frame>,
                              hash: W.Frame -> Hash128, svg: W.Frame -> string, k: nat)
    requires k < |ChangedPositions(cache, pages, hash, |pages|)|
    ensures var out := ExportOutput(cache, pages, hash, svg);
            1 + 2 * k < |out| &&
            Decimal.Parse(out[0]) == Some(|pages|) &&
            Decimal.Parse(out[1 + 2 * k]) == Some(ChangedPositions(cache, pages, hash, |pages|)[k])
  {
    ExportOutputShape(cache, pages, hash, svg);
    Decimal.ParseFromNat(|pages|);
    Decimal.ParseFromNat(ChangedPositions(cache, pages, hash, |pages|)[k]);
  }

  /** The exported positions are exactly the changed ones. */
  lemma ChangedPositionsExact(cache: seq<Hash128>, pages: seq<W.Frame>, hash: W.Frame -> Hash128, p: nat)
    requires p < |pages|
    ensures p in ChangedPositions(cache, pages, hash, |pages|) <==> Changed(cache, pages, hash, p)
  {
  }

  /**
   * After a pass the cache holds the hash of every page at its position and
   * the old hashes beyond the last page.
   */
  lemma CacheAfterPass(cache: seq<Hash128>, pages: seq<W.Frame>, hash: W.Frame -> Hash128)
    ensures var r := CacheAfter(cache, pages, hash, |pages|);
            |r| >= |pages| &&
            (forall j :: 0 <= j < |pages| ==> r[j] == hash(pages[j])) &&
            (forall j :: |pages| <= j < |cache| ==> r[j] == cache[j])
  {
  }

  /** Recording page `i` takes the cache from step `i` to step `i + 1`; its outcome is "unchanged". */
  lemma CacheStep(cache: seq<Hash128>, pages: seq<W.Frame>, hash: W.Frame -> Hash128, i: nat)
    requires i < |pages|
    ensures W.Hit(CacheAfter(cache, pages, hash, i), i, hash(pages[i])) == !Changed(cache, pages, hash, i)
    ensures W.Record(CacheAfter(cache, pages, hash, i), i, hash(pages[i])) == CacheAfter(cache, pages, hash, i + 1)
  {
    var before := CacheAfter(cache, pages, hash, i);
    var after := W.Record(before, i, hash(pages[i]));
    var want := CacheAfter(cache, pages, hash, i + 1);
    assert |after| == |want|;
    forall j | 0 <= j < |want| ensures after[j] == want[j] {
    }
  }

  /** When no position other than `k` is changed, at most `k` is exported. */
  lemma {:induction false} AtMostOneChanged(cache: seq<Hash128>, pages: seq<W.Frame>,
                                            hash: W.Frame -> Hash128, n: nat, k: nat)
    requires n <= |pages|
    requires forall p :: 0 <= p < n && p != k ==> !Changed(cache, pages, hash, p)
    ensures ChangedPositions(cache, pages, hash, n)
            == if k < n && Changed(cache, pages, hash, k) then [k] else []
  {
    if n > 0 {
      AtMostOneChanged(cache, pages, hash, n - 1, k);
    }
  }

  /** No position is changed against the cache a pass over the same pages leaves behind. */
  lemma {:induction false} SecondPassQuiet(cache: seq<Hash128>, pages: seq<W.Frame>,
                                           hash: W.Frame -> Hash128, svg: W.Frame -> string)
    ensures ChangedPositions(CacheAfter(cache, pages, hash, |pages|), pages, hash, |pages|) == []
    ensures ExportOutput(CacheAfter(cache, pages, hash, |pages|), pages, hash, svg)
            == [Decimal.FromNat(|pages|)]
  {
    var again := CacheAfter(cache, pages, hash, |pages|);
    AtMostOneChanged(again, pages, hash, |pages|, 0);
    EmittedPairs(again, pages, hash, svg, |pages|);
  }

  /**
   * When the page count is unchanged and only page `k` hashes differently
   * from the last pass, the next pass exports page `k` alone.
   */
  lemma OnlyChangedPageExported(cache: seq<Hash128>, pages: seq<W.Frame>, next: seq<W.Frame>,
                                hash: W.Frame -> Hash128, k: nat)
    requires |next| == |pages| && k < |pages|
    requires hash(next[k]) != hash(pages[k])
    requires forall j :: 0 <= j < |pages| && j != k ==> hash(next[j]) == hash(pages[j])
    ensures ChangedPositions(CacheAfter(cache, pages, hash, |pages|), next, hash, |next|) == [k]
  {
    var last := CacheAfter(cache, pages, hash, |pages|);
    AtMostOneChanged(last, next, hash, |next|, k);
  }

  /** Positions the cache has never seen are always exported. */
  lemma NewPositionsExported(cache: seq<Hash128>, pages: seq<W.Frame>, hash: W.Frame -> Hash128, p: nat)
    requires |cache| <= p < |pages|
    ensures p in ChangedPositions(cache, pages, hash, |pages|)
  {
  }

  /* ---------------- The engine ---------------- */

  class Typst {
    const world: W.ElectraWorld

    ghost predicate Valid()
      reads this, world, world.fs
    {
      world.Valid()
    }

    /** An engine over a fresh world. */
    constructor (library: W.Library)
      ensures Valid()
      ensures fresh(world) && fresh(world.fs) && fresh(world.exportCache)
      ensures world.fs.fileSource == None && world.book == [] && world.fonts == []
      ensures world.exportCache.cache == []
    {
      world := new W.ElectraWorld(library);
    }

    /** Forwards to the world. */
    method SetSource(text: string)
      requires Valid()
      modifies world.fs
      ensures Valid()
      ensures world.fs.fileSource == Some(Efs.Source(world.fs.fileId, text))
    {
      world.SetSource(text);
    }

    /** Forwards to the world. */
    method EditSource(start: nat, end: nat, with: string)
      requires Valid()
      requires world.fs.fileSource.Some?
      requires start <= end
      requires Utf8.CharIndexAt(world.fs.fileSource.value.text, start).Some?
      requires Utf8.CharIndexAt(world.fs.fileSource.value.text, end).Some?
      modifies world.fs
      ensures Valid()
      ensures world.fs.fileSource.Some?
      ensures var t := old(world.fs.fileSource.value.text);
              var i := Utf8.CharIndexAt(t, start).value;
              var j := Utf8.CharIndexAt(t, end).value;
              i <= j && world.fs.fileSource.value.text == t[..i] + with + t[j..]
    {
      world.EditSource(start, end, with);
    }

    /** Forwards to the world. */
    method SupplyFonts(buffers: seq<Bytes>, faces: Bytes -> seq<W.Font>)
      requires Valid()
      modifies world
      ensures Valid()
      ensures world.book == old(world.book) + W.Infos(buffers, faces)
      ensures world.fonts == old(world.fonts) + W.Slots(buffers, faces)
    {
      world.SupplyFonts(buffers, faces);
    }

    /**
     * Runs the export pass over the compiler's result `compiled`. On success
     * the output is the page count followed by the (position, SVG) pairs of
     * the pages whose hash is not the cached one, and the cache is brought up
     * to date; on failure the output is empty and the cache is untouched.
     */
    method CompileSvg(compiled: Result<seq<W.Frame>, seq<SourceError>>,
                      hash: W.Frame -> Hash128, svg: W.Frame -> string)
      returns (r: Result<seq<string>, JsValue>)
      modifies world.exportCache
      ensures r.Ok?
      ensures compiled.Err? ==> r.value == [] && world.exportCache.cache == old(world.exportCache.cache)
      ensures compiled.Ok? ==>
                r.value == ExportOutput(old(world.exportCache.cache), compiled.value, hash, svg) &&
                world.exportCache.cache
                == CacheAfter(old(world.exportCache.cache), compiled.value, hash, |compiled.value|)
    {
      var output: seq<string> := [];
      match compiled {
        case Ok(pages) =>
          output := output + [Decimal.FromNat(|pages|)];
          var cache := world.exportCache;
          ghost var before := cache.cache;
          var i := 0;
          while i < |pages|
            invariant 0 <= i <= |pages|
            invariant |cache.cache| >= i
            invariant cache.cache == CacheAfter(before, pages, hash, i)
            invariant output == [Decimal.FromNat(|pages|)] + Emitted(before, pages, hash, svg, i)
          {
            var frame := pages[i];
            CacheStep(before, pages, hash, i);
            ghost var done := Emitted(before, pages, hash, svg, i);
            var cached := cache.IsCached(i, frame, hash);
            if !cached {
              var svgText := svg(frame);
              output := output + [Decimal.FromNat(i)];
              output := output + [svgText];
              AppendAssoc([Decimal.FromNat(|pages|)] + done, [Decimal.FromNat(i)], [svgText]);
              AppendAssoc([Decimal.FromNat(|pages|)], done, [Decimal.FromNat(i), svgText]);
            } else {
              assert done + [] == done;
            }
            i := i + 1;
          }
          r := Ok(output);
        case Err(_) =>
          r := Ok(output);
      }
    }
  }
}
