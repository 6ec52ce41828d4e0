# Verified model of the electratype WebAssembly embedding of the Typst compiler

The embedding gives a host page one editable Typst document (`main.typ`),
accepts font files, runs the Typst compiler and hands back SVG text for the
pages whose rendering changed since the previous compilation. This project
models its three stateful pieces and proves what each promises:

- the single-document file system (`ElectraFileSystem`, module `Efs`): one
  optional `Source` under a fixed `FileId`; every lookup returns that
  document's UTF-8 bytes whatever identity is asked for;
- the world (`ElectraWorld`, module `World`): the font book and the font
  slots, kept index-aligned across every `supply_fonts` call, the write-once
  font cell read by `font(index)`, the per-page export cache, and the
  constant answers given to the compiler (`packages`, `file`, `source`, `main`);
- the engine (`Typst`, module `TypstInterface`): the forwarding setters and
  `compile_svg`, whose loop consults the export cache page by page.

Supporting modules: `Common` (Option, Result, byte, the 128-bit hash type),
`Utf8` (the encoding behind `str::as_bytes`, with its decoder and the
round trip), `Decimal` (`usize::to_string`, with its inverse).

The compiler, the SVG serialiser, `hash128`, `Font::iter` and `Font::new`
are external; they appear as opaque types (`Frame`, `FontInfo`, `Library`,
...) and as function-valued parameters (`hash`, `svg`, `faces`, `newFont`).
The compiler's result is a parameter of `CompileSvg`.

The export pass is specified in closed form. At step `i` of the loop the
cache has at least `i` entries, so a position the cache does not know yet is
appended exactly at `i`. Hence page `i` is exported exactly when
`i >= |old cache|` or the stored hash differs from the page's hash, and the
cache afterwards holds every page's hash at its position and the old hashes
beyond the last page (`ChangedPositions`, `CacheAfter`). `CompileSvg`'s loop
is proved against these, and the lemmas state what they imply (output shape,
a second pass over the same pages exports nothing, a change on one page
exports that page alone).

Where the design description and the code differ, the model follows the
code: a failed compilation yields an empty output (no page count, no
diagnostics) rather than the diagnostics; and `ExportCache::is_cached` is
idempotent only at positions up to the cache's length: at a position past
the end the hash is appended at the end, so a second call at the same
position misses again (`World.RecordThenHit`). `compile_svg` never calls it
that way.

## Model

| member | source | states |
|---|---|---|
| `Utf8.Encode` | src/efs.rs:40-42 | the UTF-8 bytes of a text are at least as many as its characters, and empty only for the empty text |
| `Utf8.EncodeChar` | src/efs.rs:41 | one to four bytes per character, a single byte exactly for ASCII (the code point itself), continuation bytes after the first |
| `Utf8.DecodeEncode` | src/efs.rs:40-42 | decoding the bytes `file` returns gives back exactly the document text |
| `Utf8.DecodeFirstEncodeChar` | src/efs.rs:41 | the first character and its width are read back from its encoding |
| `Utf8.EncodeAppend` | src/efs.rs:41 | the encoding of a concatenation is the concatenation of the encodings |
| `Utf8.EncodeSplit` | src/efs.rs:41 | encoding a text is encoding its prefix, then its suffix, at any character index |
| `Utf8.CharIndexAt` | src/world.rs:67-69 | a byte offset that is found names a character index whose prefix encodes to exactly that many bytes, within the text |
| `Utf8.CharIndexAtBoundary` | src/world.rs:67-69 | every character boundary's byte offset is found, at that character index |
| `Utf8.BoundaryOrder` | src/world.rs:67-69 | character boundaries are ordered exactly as their byte offsets |
| `Decimal.FromNat` | src/typst_interface.rs:48 | the decimal rendering is non-empty, all digits, without a leading zero |
| `Decimal.ToNatFromNat` | src/typst_interface.rs:59 | reading back the rendering of a number gives the number |
| `Decimal.ParseFromNat` | src/typst_interface.rs:48 | parsing the rendering of a number gives the number |
| `Decimal.FromNatInjective` | src/typst_interface.rs:59 | two numbers render equally if and only if they are equal |
| `Efs.FileSystem.constructor` | src/efs.rs:17-27 | a new file system holds no document and has the fixed identity derived from `main.typ` |
| `Efs.FileSystem.SetSource` | src/efs.rs:29-31 | the document becomes the given text under the file system's own identity, whatever was there before |
| `Efs.FileSystem.EditSource` | src/world.rs:67-69 | not defined in efs.rs, contract given abstractly: replacing bytes [start, end), both on character boundaries, splices the UTF-8 bytes and the characters of the text, identity kept |
| `Efs.FileSystem.File` | src/efs.rs:37-43 | with a document set, the lookup always succeeds and its bytes decode to the current text |
| `Efs.FileSystem.CurrentSource` | src/efs.rs:46-48 | with a document set, the document carries the fixed identity and every `file` lookup returns its bytes |
| `Efs.SpliceEncoding` | src/world.rs:67-69 | a character-range replacement is the byte-range replacement of the encodings at the boundary offsets |
| `Efs.FileIgnoresId` | src/efs.rs:37-43 | `file` gives the same answer for any two identities |
| `Efs.SetSourceTwice` | src/efs.rs:29-48 | after setting `a` then `b`, both `file` and `source` reflect `b` only |
| `World.Record` | src/world.rs:168-173 | past the end the hash is appended at the end (old entries kept); otherwise slot `i` gets the hash, the length and every other slot unchanged |
| `World.RecordThenHit` | src/world.rs:165-174 | recording a hash then looking it up at the same position hits if and only if the position was at most the cache's length |
| `World.ExportCache.constructor` | src/world.rs:159-161 | a new cache is empty |
| `World.ExportCache.IsCached` | src/world.rs:165-174 | the answer is "stored hash at `i` exists and equals the frame's hash"; the cache becomes the recorded one |
| `World.SlotsFor` | src/world.rs:78-84 | one slot per enumerated face; slot `i` records the buffer, face index `i` and a cell already holding that face |
| `World.BatchAligned` | src/world.rs:72-87 | the book entries and the slots a batch appends are aligned: entry `k` is the info of the font in slot `k` |
| `World.AlignedAppend` | src/world.rs:72-87 | appending aligned entries after an aligned registry keeps it aligned, earlier entries untouched |
| `World.SupplyAligned` | src/world.rs:72-87 | registering a batch after an aligned registry leaves it aligned |
| `World.BatchSize` | src/world.rs:72-87 | a batch adds exactly one book entry and one slot per enumerated face |
| `World.ElectraWorld.constructor` | src/world.rs:53-61 | a new world has no document, no fonts, an empty book and an empty export cache |
| `World.ElectraWorld.SetSource` | src/world.rs:63-65 | forwards the text to the file system |
| `World.ElectraWorld.EditSource` | src/world.rs:67-69 | forwards the edit to the file system |
| `World.ElectraWorld.SupplyFonts` | src/world.rs:71-88 | the book and the slots grow by the batch's entries after the existing ones, and stay aligned |
| `World.ElectraWorld.AppendFaces` | src/world.rs:78-85 | the inner loop: the book gains the info of each face of one buffer, the slots gain that buffer's slots, in face order |
| `World.ElectraWorld.Font` | src/world.rs:116-121 | requires an index in range; a set cell is returned and left unchanged, an unset one is filled once from its buffer and face index; on a valid world the result is the font whose info is book entry `index` |
| `World.ElectraWorld.Packages` | src/world.rs:124-126 | no package is ever listed |
| `World.ElectraWorld.File` | src/world.rs:108-110 | the bytes of the one document, whatever identity is asked for |
| `World.ElectraWorld.Main` | src/world.rs:112-114 | the main document has the file system's identity and its current text |
| `World.ElectraWorld.Source` | src/world.rs:128-130 | always succeeds with the main document, whatever identity is asked for |
| `TypstInterface.ChangedPositions` | src/typst_interface.rs:51-56 | the exported positions are below the page count, strictly ascending, and include every changed position |
| `TypstInterface.CacheAfter` | src/typst_interface.rs:51-55 | after `n` steps the cache has `max(old length, n)` entries |
| `TypstInterface.EmittedPairs` | src/typst_interface.rs:51-64 | the page output has two entries per exported position: the position in decimal, then that page's SVG |
| `TypstInterface.ExportOutputShape` | src/typst_interface.rs:46-64 | the output is the page count, then the pairs in ascending order; its length is 1 plus twice the number of exported pages |
| `TypstInterface.ExportOutputReadsBack` | src/typst_interface.rs:48-59 | the first entry parses back to the page count and each pair's first entry to its page position |
| `TypstInterface.ChangedPositionsExact` | src/typst_interface.rs:51-56 | a page is exported if and only if its position is new to the cache or its hash differs from the stored one |
| `TypstInterface.CacheAfterPass` | src/typst_interface.rs:51-55 | after a pass slot `j` holds page `j`'s hash for every page, and slots past the last page keep their old values |
| `TypstInterface.CacheStep` | src/typst_interface.rs:51-55 | the cache lookup at step `i` hits exactly when page `i` is unchanged, and recording it gives the cache of step `i + 1` |
| `TypstInterface.AtMostOneChanged` | src/typst_interface.rs:51-56 | when no position but `k` is changed, only `k` can be exported |
| `TypstInterface.SecondPassQuiet` | src/typst_interface.rs:50-56 | compiling the same pages again exports no page and outputs only the page count |
| `TypstInterface.OnlyChangedPageExported` | src/typst_interface.rs:51-56 | with the page count unchanged, a hash change on page `k` alone exports page `k` alone |
| `TypstInterface.NewPositionsExported` | src/typst_interface.rs:51-53 | positions the cache has never seen are always exported |
| `TypstInterface.Typst.constructor` | src/typst_interface.rs:20-24 | a new engine holds a new, empty world |
| `TypstInterface.Typst.SetSource` | src/typst_interface.rs:26-28 | forwards the text to the world |
| `TypstInterface.Typst.EditSource` | src/typst_interface.rs:30-32 | forwards the edit to the world |
| `TypstInterface.Typst.SupplyFonts` | src/typst_interface.rs:34-36 | forwards the font buffers to the world |
| `TypstInterface.Typst.CompileSvg` | src/typst_interface.rs:38-73 | always `Ok`; on a compile error the output is empty and the cache untouched; on success the output and the new cache are the closed-form ones above |

## Left out

- The Typst compiler, `typst::export::svg`, `hash128`, `Font::iter`, `Font::new` and `typst_library::build`: external; they are opaque types and function parameters. Nothing is assumed about hash collisions: cache results are stated in terms of hash equality only.
- `TypstInterface.Typst.CompileSvg`: takes the compiler's result as a parameter, so the compiler's own call to `main()` (which panics before any `set_source`) is not part of its contract.
- JavaScript interop (`Array`, `ArrayBuffer`, `Uint8Array`, `JsValue`, `dyn_into().unwrap()`): inputs and outputs are Dafny sequences; the output array holds strings.
- `comemo` tracking and `Prehashed`, including the `mem::replace` of the book around `supply_fonts`: the book is a plain sequence rebuilt in place.
- `World.ElectraWorld.SupplyFonts`: the face index is kept as an unbounded number; the source's `i as u32` conversion would only differ past 2^32 faces.
- `World.ElectraWorld.SupplyFonts`: the slot's face index is the enumeration position of `Font::iter`, as in the source; whether that equals the face's index in the buffer depends on `Font::iter`, which is not part of this model.
- `Efs.FileSystem.EditSource`: efs.rs does not define `edit_source` (src/world.rs:68 calls it), so its contract is an abstract one following the compiler's byte-range edit; the incremental reparse it would preserve is not modelled. A range off a character boundary or past the end is a precondition (the compiler's edit panics there), not an `OutOfRange` error.
- `FileId` and `VirtualPath` normalisation: the identity is the pair (no package, `main.typ`).
- `ExportCache::new`'s initial capacity of 32: capacity is not observable.
- `library()` and `book()`: plain field reads with nothing to state.
- `today()`: a constant placeholder date built by an external constructor, with commented-out clock code.
- The commented-out `compile_pdf` and the logging imports: not compiled.
