/**
 * The single-document virtual file system (src/efs.rs): one optional source
 * document under one fixed file identity. Every lookup, whatever identity it
 * asks for, is answered with that document.
 */
module Efs {
  import opened Common
  import Utf8

  /** The one virtual path the embedding exposes. */
  const FILE_NAME: string := "main.typ"

  /** A package reference of the compiler; never produced by this file system. */
  type PackageSpec(!new)

  /** The compiler's error for a failed file lookup; never produced by this file system. */
  type FileError(!new)

  /** A file identity: an optional package and a path inside it. */
  datatype FileId = FileId(package: Option<PackageSpec>, path: string)

  /** The identity `new` derives from FILE_NAME, outside any package. */
  const MAIN_ID: FileId := FileId(None, FILE_NAME)

  /** A source document: its identity and its text. */
  datatype Source = Source(id: FileId, text: string)

  class FileSystem {
    var fileSource: Option<Source>
    /** Fixed at construction: no operation assigns it. */
    const fileId: FileId

    /** A stored document always carries the file system's own identity. */
    ghost predicate Valid()
      reads this
    {
      fileSource.Some? ==> fileSource.value.id == fileId
    }

    /** A file system with no document yet, identified by MAIN_ID. */
    constructor ()
      ensures Valid()
      ensures fileSource == None && fileId == MAIN_ID
    {
      fileSource := None;
      fileId := MAIN_ID;
    }

    /** Replaces the whole document, whatever was there before. */
    method SetSource(text: string)
      modifies this
      ensures Valid()
      ensures fileSource == Some(Source(fileId, text))
    {
      fileSource := Some(Source(fileId, text));
    }

    /**
     * Replaces the byte range [start, end) of the document's UTF-8 text by
     * `with`. The range must lie on character boundaries of the current text.
     */
    method EditSource(start: nat, end: nat, with: string)
      requires fileSource.Some?
      requires start <= end
      requires Utf8.CharIndexAt(fileSource.value.text, start).Some?
      requires Utf8.CharIndexAt(fileSource.value.text, end).Some?
      modifies this
      ensures old(Valid()) ==> Valid()
      ensures fileSource.Some? && fileSource.value.id == old(fileSource.value.id)
      ensures Utf8.Encode(fileSource.value.text)
           == Utf8.Encode(old(fileSource.value.text))[..start] + Utf8.Encode(with)
              + Utf8.Encode(old(fileSource.value.text))[end..]
      ensures var t := old(fileSource.value.text);
              var i := Utf8.CharIndexAt(t, start).value;
              var j := Utf8.CharIndexAt(t, end).value;
              i <= j && fileSource.value.text == t[..i] + with + t[j..]
    {
      var t := fileSource.value.text;
      var i := Utf8.CharIndexAt(t, start).value;
      var j := Utf8.CharIndexAt(t, end).value;
      Utf8.BoundaryOrder(t, i, j);
      var edited := t[..i] + with + t[j..];
      SpliceEncoding(t, i, j, with);
      fileSource := Some(fileSource.value.(text := edited));
    }

    /** The current document's text as UTF-8 bytes, for every requested identity. */
    function File(id: FileId): (r: Result<Bytes, FileError>)
      reads this
      requires fileSource.Some?
      ensures r.Ok?
      ensures Utf8.Decode(r.value) == Some(fileSource.value.text)
    {
      Utf8.DecodeEncode(fileSource.value.text);
      Ok(Utf8.Encode(fileSource.value.text))
    }

    /** The current document, the same one every File lookup reads. */
    function CurrentSource(): (r: Source)
      reads this
      requires fileSource.Some?
      requires Valid()
      ensures r.id == fileId
      ensures forall id :: File(id) == Ok(Utf8.Encode(r.text))
    {
      fileSource.value
    }
  }

  /**
   * Replacing characters [i, j) of `t` by `with` replaces bytes
   * [|Encode(t[..i])|, |Encode(t[..j])|) of its encoding by the encoding of `with`.
   */
  lemma SpliceEncoding(t: string, i: nat, j: nat, with: string)
    requires i <= j <= |t|
    ensures |Utf8.Encode(t[..i])| <= |Utf8.Encode(t[..j])| <= |Utf8.Encode(t)|
    ensures var b := Utf8.Encode(t);
            Utf8.Encode(t[..i] + with + t[j..])
            == b[..|Utf8.Encode(t[..i])|] + Utf8.Encode(with) + b[|Utf8.Encode(t[..j])|..]
  {
    var b := Utf8.Encode(t);
    Utf8.BoundaryOrder(t, i, j);
    Utf8.EncodeSplit(t, i);
    Utf8.EncodeSplit(t, j);
    Utf8.EncodeAppend(t[..i] + with, t[j..]);
    Utf8.EncodeAppend(t[..i], with);
    assert b[..|Utf8.Encode(t[..i])|] == Utf8.Encode(t[..i]);
    assert b[|Utf8.Encode(t[..j])|..] == Utf8.Encode(t[j..]);
  }

  /** Lookups ignore the requested identity. */
  lemma FileIgnoresId(fs: FileSystem, a: FileId, b: FileId)
    requires fs.fileSource.Some?
    ensures fs.File(a) == fs.File(b)
  {
  }

  /** After two replacements, lookups see the second text only. */
  method SetSourceTwice(fs: FileSystem, a: string, b: string, id: FileId)
    modifies fs
    ensures fs.fileSource == Some(Source(fs.fileId, b))
    ensures fs.File(id) == Ok(Utf8.Encode(b))
    ensures fs.CurrentSource() == Source(fs.fileId, b)
  {
    fs.SetSource(a);
    fs.SetSource(b);
  }
}
