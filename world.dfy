/**
 * The compiler's world (src/world.rs): the font registry, the per-page
 * export cache and the read-only queries the compiler makes, answered from
 * the single-document file system.
 */
module World {
  import opened Common
  import Efs
  import Utf8

  /** A rendered page, produced by the compiler and never inspected here. */
  type Frame

  /** The standard library definitions the compiler is given; never inspected here. */
  type Library

  /** The metadata of one font face, as the font book stores it. */
  type FontInfo(==)

  /** The parsed tables of a font face; never inspected here. */
  type FontTables

  /** A font face: its metadata (`Font::info`) and everything else about it. */
  datatype Font = Font(info: FontInfo, tables: FontTables)

  /**
   * One registered font face: the buffer it comes from, its index there, and
   * the write-once cell for the font object (None: not yet initialised;
   * Some(None): construction failed; Some(Some(f)): the font).
   */
  datatype FontSlot = FontSlot(buffer: Bytes, index: nat, font: Option<Option<Font>>)

  /* ---------------- Export cache ---------------- */

  /** The stored hash at position `i` exists and equals `h`. */
  predicate Hit(cache: seq<Hash128>, i: nat, h: Hash128) {
    i < |cache| && cache[i] == h
  }

  /**
   * The cache after recording `h` for position `i`: a position past the end
   * appends `h` (at the end, not at `i`); any other position is overwritten.
   */
  function Record(cache: seq<Hash128>, i: nat, h: Hash128): (r: seq<Hash128>)
    ensures i >= |cache| ==> |r| == |cache| + 1 && r[..|cache|] == cache && r[|cache|] == h
    ensures i < |cache| ==> |r| == |cache| && r[i] == h
    ensures i < |cache| ==> forall j :: 0 <= j < |cache| && j != i ==> r[j] == cache[j]
  {
    if i >= |cache| then cache + [h] else cache[i := h]
  }

  /**
   * Recording the same hash twice at a position at most the cache's length
   * makes the second lookup a hit; past the end it is a miss again, since the
   * first append landed at the end rather than at `i`.
   */
  lemma RecordThenHit(cache: seq<Hash128>, i: nat, h: Hash128)
    ensures Hit(Record(cache, i, h), i, h) <==> i <= |cache|
  {
  }

  class ExportCache {
    /** The hashes of the last compilation's pages, by page position. */
    var cache: seq<Hash128>

    /** An empty cache. */
    constructor ()
      ensures cache == []
    {
      cache := [];
    }

    /**
     * Reports whether the page at position `i` hashes to the stored value,
     * and records its hash for the next compilation.
     */
    method IsCached(i: nat, frame: Frame, hash: Frame -> Hash128) returns (cached: bool)
      modifies this
      ensures cached == Hit(old(cache), i, hash(frame))
      ensures cache == Record(old(cache), i, hash(frame))
    {
      var h := hash(frame);
      if i >= |cache| {
        cache := cache + [h];
        return false;
      }
      cached := cache[i] == h;
      cache := cache[i := h];
    }
  }

  /* ---------------- Font registry ---------------- */

  /** Slot `k` holds an initialised font whose metadata is book entry `k`. */
  ghost predicate Aligned(book: seq<FontInfo>, fonts: seq<FontSlot>) {
    |book| == |fonts| &&
    forall k :: 0 <= k < |fonts| ==>
      fonts[k].font.Some? && fonts[k].font.value.Some? && fonts[k].font.value.value.info == book[k]
  }

  /** The slots created for one buffer: one per enumerated face, already initialised. */
  function SlotsFor(buffer: Bytes, faces: Bytes -> seq<Font>): (r: seq<FontSlot>)
    ensures |r| == |faces(buffer)|
    ensures forall i :: 0 <= i < |r| ==>
              r[i].buffer == buffer && r[i].index == i && r[i].font == Some(Some(faces(buffer)[i]))
  {
    var fs := faces(buffer);
    seq(|fs|, i requires 0 <= i < |fs| => FontSlot(buffer, i, Some(Some(fs[i]))))
  }

  /** The book entries for one buffer: the metadata of each enumerated face. */
  function InfosFor(buffer: Bytes, faces: Bytes -> seq<Font>): seq<FontInfo> {
    var fs := faces(buffer);
    seq(|fs|, i requires 0 <= i < |fs| => fs[i].info)
  }

  /** The slots created for a batch of buffers, in order. */
  function Slots(buffers: seq<Bytes>, faces: Bytes -> seq<Font>): seq<FontSlot> {
    if buffers == [] then []
    else Slots(buffers[..|buffers| - 1], faces) + SlotsFor(buffers[|buffers| - 1], faces)
  }

  /** The book entries for a batch of buffers, in order. */
  function Infos(buffers: seq<Bytes>, faces: Bytes -> seq<Font>): seq<FontInfo> {
    if buffers == [] then []
    else Infos(buffers[..|buffers| - 1], faces) + InfosFor(buffers[|buffers| - 1], faces)
  }

  /** The book entries and the slots of a batch are aligned. */
  lemma {:induction false} BatchAligned(buffers: seq<Bytes>, faces: Bytes -> seq<Font>)
    ensures Aligned(Infos(buffers, faces), Slots(buffers, faces))
  {
    if buffers != [] {
      BatchAligned(buffers[..|buffers| - 1], faces);
    }
  }

  /** Appending aligned entries to an aligned registry keeps it aligned. */
  lemma AlignedAppend(b1: seq<FontInfo>, f1: seq<FontSlot>, b2: seq<FontInfo>, f2: seq<FontSlot>)
    requires Aligned(b1, f1) && Aligned(b2, f2)
    ensures Aligned(b1 + b2, f1 + f2)
  {
    forall k | 0 <= k < |f1 + f2|
      ensures (f1 + f2)[k].font.Some? && (f1 + f2)[k].font.value.Some?
              && (f1 + f2)[k].font.value.value.info == (b1 + b2)[k]
    {
      if k >= |f1| {
        assert (f1 + f2)[k] == f2[k - |f1|] && (b1 + b2)[k] == b2[k - |f1|];
      }
    }
  }

  /** Registering a batch after an aligned registry leaves it aligned. */
  lemma SupplyAligned(book: seq<FontInfo>, fonts: seq<FontSlot>, buffers: seq<Bytes>, faces: Bytes -> seq<Font>)
    requires Aligned(book, fonts)
    ensures Aligned(book + Infos(buffers, faces), fonts + Slots(buffers, faces))
  {
    BatchAligned(buffers, faces);
    AlignedAppend(book, fonts, Infos(buffers, faces), Slots(buffers, faces));
  }

  /** Extending a batch by one buffer appends that buffer's entries and slots. */
  lemma BatchPrefix(buffers: seq<Bytes>, faces: Bytes -> seq<Font>, b: nat)
    requires b < |buffers|
    ensures Infos(buffers[..b + 1], faces) == Infos(buffers[..b], faces) + InfosFor(buffers[b], faces)
    ensures Slots(buffers[..b + 1], faces) == Slots(buffers[..b], faces) + SlotsFor(buffers[b], faces)
  {
    assert buffers[..b + 1][..b] == buffers[..b];
  }

  /** The number of faces in a batch of buffers. */
  function FaceCount(buffers: seq<Bytes>, faces: Bytes -> seq<Font>): nat {
    if buffers == [] then 0
    else FaceCount(buffers[..|buffers| - 1], faces) + |faces(buffers[|buffers| - 1])|
  }

  /** A batch contributes exactly one book entry and one slot per face. */
  lemma {:induction false} BatchSize(buffers: seq<Bytes>, faces: Bytes -> seq<Font>)
    ensures |Slots(buffers, faces)| == |Infos(buffers, faces)| == FaceCount(buffers, faces)
  {
    if buffers != [] {
      BatchSize(buffers[..|buffers| - 1], faces);
    }
  }

  /** What a lookup in this cell yields: the stored value, or a fresh construction. */
  function CellValue(slot: FontSlot, newFont: (Bytes, nat) -> Option<Font>): Option<Font> {
    if slot.font.Some? then slot.font.value else newFont(slot.buffer, slot.index)
  }

  /* ---------------- The world ---------------- */

  class ElectraWorld {
    const library: Library
    var book: seq<FontInfo>
    const fs: Efs.FileSystem
    var fonts: seq<FontSlot>
    const exportCache: ExportCache

    ghost predicate Valid()
      reads this, fs
    {
      fs.Valid() && Aligned(book, fonts)
    }

    /** A world with no document, no fonts and an empty export cache. */
    constructor (library: Library)
      ensures Valid()
      ensures fresh(fs) && fresh(exportCache)
      ensures this.library == library
      ensures fs.fileSource == None && fs.fileId == Efs.MAIN_ID
      ensures book == [] && fonts == [] && exportCache.cache == []
    {
      this.library := library;
      book := [];
      fs := new Efs.FileSystem();
      fonts := [];
      exportCache := new ExportCache();
    }

    /** Forwards to the file system. */
    method SetSource(text: string)
      requires Valid()
      modifies fs
      ensures Valid()
      ensures fs.fileSource == Some(Efs.Source(fs.fileId, text))
    {
      fs.SetSource(text);
    }

    /** Forwards to the file system. */
    method EditSource(start: nat, end: nat, with: string)
      requires Valid()
      requires fs.fileSource.Some?
      requires start <= end
      requires Utf8.CharIndexAt(fs.fileSource.value.text, start).Some?
      requires Utf8.CharIndexAt(fs.fileSource.value.text, end).Some?
      modifies fs
      ensures Valid()
      ensures fs.fileSource.Some?
      ensures var t := old(fs.fileSource.value.text);
              var i := Utf8.CharIndexAt(t, start).value;
              var j := Utf8.CharIndexAt(t, end).value;
              i <= j && fs.fileSource.value.text == t[..i] + with + t[j..]
    {
      fs.EditSource(start, end, with);
    }

    /**
     * Registers every face of every buffer: one book entry and one slot per
     * face, appended after the ones already there.
     */
    method SupplyFonts(buffers: seq<Bytes>, faces: Bytes -> seq<Font>)
      requires Valid()
      modifies this
      ensures Valid()
      ensures book == old(book) + Infos(buffers, faces)
      ensures fonts == old(fonts) + Slots(buffers, faces)
    {
      ghost var book0, fonts0 := book, fonts;
      SupplyAligned(book0, fonts0, buffers, faces);
      var b := 0;
      while b < |buffers|
        invariant 0 <= b <= |buffers|
        invariant book == book0 + Infos(buffers[..b], faces)
        invariant fonts == fonts0 + Slots(buffers[..b], faces)
      {
        ghost var doneInfos, doneSlots := Infos(buffers[..b], faces), Slots(buffers[..b], faces);
        AppendFaces(buffers[b], faces);
        BatchPrefix(buffers, faces, b);
        AppendAssoc(book0, doneInfos, InfosFor(buffers[b], faces));
        AppendAssoc(fonts0, doneSlots, SlotsFor(buffers[b], faces));
        b := b + 1;
      }
      assert buffers[..b] == buffers;
    }

    /** The inner loop of SupplyFonts: registers every face of one buffer. */
    method AppendFaces(buffer: Bytes, faces: Bytes -> seq<Font>)
      modifies this
      ensures book == old(book) + InfosFor(buffer, faces)
      ensures fonts == old(fonts) + SlotsFor(buffer, faces)
    {
      var fontsOfBuffer := faces(buffer);
      var i := 0;
      while i < |fontsOfBuffer|
        invariant 0 <= i <= |fontsOfBuffer|
        invariant book == old(book) + InfosFor(buffer, faces)[..i]
        invariant fonts == old(fonts) + SlotsFor(buffer, faces)[..i]
      {
        var font := fontsOfBuffer[i];
        book := book + [font.info];
        fonts := fonts + [FontSlot(buffer, i, Some(Some(font)))];
        assert InfosFor(buffer, faces)[..i + 1] == InfosFor(buffer, faces)[..i] + [font.info];
        assert SlotsFor(buffer, faces)[..i + 1] == SlotsFor(buffer, faces)[..i] + [FontSlot(buffer, i, Some(Some(font)))];
        i := i + 1;
      }
      assert InfosFor(buffer, faces)[..i] == InfosFor(buffer, faces);
      assert SlotsFor(buffer, faces)[..i] == SlotsFor(buffer, faces);
    }

    /**
     * The font of catalog entry `index`: the cell's value when it is set,
     * otherwise a fresh construction, which is then stored for good.
     */
    method Font(index: nat, newFont: (Bytes, nat) -> Option<Font>) returns (r: Option<Font>)
      requires index < |fonts|
      modifies this
      ensures r == CellValue(old(fonts[index]), newFont)
      ensures fonts == old(fonts)[index := old(fonts[index]).(font := Some(r))]
      ensures old(fonts[index].font).Some? ==> fonts == old(fonts)
      ensures book == old(book)
      ensures old(Valid()) ==> Valid() && r.Some? && r.value.info == book[index]
    {
      var slot := fonts[index];
      if slot.font.Some? {
        r := slot.font.value;
        assert slot.(font := Some(r)) == slot;
      } else {
        r := newFont(slot.buffer, slot.index);
        fonts := fonts[index := slot.(font := Some(r))];
      }
    }

    /** No package is ever resolved: the embedding compiles a single file. */
    function Packages(): (r: seq<(Efs.PackageSpec, Option<string>)>)
      ensures |r| == 0
    {
      []
    }

    /** The bytes of the one document, whatever identity is asked for. */
    function File(id: Efs.FileId): (r: Result<Bytes, Efs.FileError>)
      reads this, fs
      requires fs.fileSource.Some?
      ensures r == Ok(Utf8.Encode(fs.fileSource.value.text))
    {
      fs.File(id)
    }

    /** The main document. */
    function Main(): (r: Efs.Source)
      reads this, fs
      requires fs.fileSource.Some?
      requires Valid()
      ensures r.id == fs.fileId && r.text == fs.fileSource.value.text
    {
      fs.CurrentSource()
    }

    /** The one document, whatever identity is asked for. */
    function Source(id: Efs.FileId): (r: Result<Efs.Source, Efs.FileError>)
      reads this, fs
      requires fs.fileSource.Some?
      requires Valid()
      ensures r.Ok? && r.value == Main()
    {
      Ok(fs.CurrentSource())
    }
  }
}
