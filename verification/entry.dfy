/** `storage/entry.go`: entry identifiers and the construction of an entry
    from submitted bytes. The image decoder and re-encoder, MD5 and MIME
    lookup are collaborators the model cannot see; they are bundled in a
    `Codec` value of uninterpreted functions. What remains is the digest
    history: one raw digest, and a second one when re-encoding changed the
    bytes, with the canonical id taken from the last. */
module Storage {
  import opened Results
  import Base
  import Backend

  /** An id paired with the hex digest it spells in base 36. */
  datatype EntryId = EntryId(id: string, hash: string) {

    /** `String()`: the base-36 id, the form entries are addressed by. */
    function String(): (s: string)
      ensures s == id
    {
      id
    }

    /** `tip()`: the first character of the id (a Go panic on an empty id). */
    function Tip(): (t: string)
      requires |id| >= 1
      ensures |t| == 1 && t <= String()
    {
      id[..1]
    }
  }

  /** `NewEntryIdFromHash(hash)`: keeps the digest and sets the id to its
      base-36 spelling; on a conversion error the id is left empty and the
      error is returned alongside. */
  function NewEntryIdFromHash(hash: string): (r: (EntryId, Option<Error>))
    ensures r.0.hash == hash
    ensures r.1.None? <==> Base.Valid(hash, 16)
    ensures r.1.None? ==> Base.Canonical(r.0.id, 36) && Base.Value(r.0.id, 36) == Base.Value(hash, 16)
    ensures r.1.Some? ==> r.0.id == "" && r.1.value == InvalidDigits(hash)
  {
    match Base.BaseConvert(hash, 16, 36)
    case Ok(id) => (EntryId(id, hash), None)
    case Err(e) => (EntryId("", hash), Some(e))
  }

  /** `NewEntryId(id)`: the reverse direction, base 36 to hex. */
  function NewEntryId(id: string): (r: (EntryId, Option<Error>))
    ensures r.0.id == id
    ensures r.1.None? <==> Base.Valid(id, 36)
    ensures r.1.None? ==> Base.Canonical(r.0.hash, 16) && Base.Value(r.0.hash, 16) == Base.Value(id, 36)
    ensures r.1.Some? ==> r.0.hash == "" && r.1.value == InvalidDigits(id)
  {
    match Base.BaseConvert(id, 36, 16)
    case Ok(hash) => (EntryId(id, hash), None)
    case Err(e) => (EntryId(id, ""), Some(e))
  }

  /** A lower-case hex digest without a leading zero survives hex -> id -> hex. */
  lemma EntryIdRoundTrip(hash: string)
    requires Base.Canonical(hash, 16)
    ensures NewEntryIdFromHash(hash).1.None?
    ensures NewEntryId(NewEntryIdFromHash(hash).0.id) == (NewEntryIdFromHash(hash).0, None)
  {
    Base.RoundTrip(hash, 16, 36);
  }

  /** The base-36 id the entry code derives from a digest ("" when it fails). */
  function IdOf(hash: string): string {
    NewEntryIdFromHash(hash).0.id
  }

  /** `uint32(n)`: Go's truncating conversion. */
  function ToUint32(n: nat): (r: nat)
    ensures r < 0x1_0000_0000
    ensures n < 0x1_0000_0000 ==> r == n
    ensures (n - r) % 0x1_0000_0000 == 0
  {
    n % 0x1_0000_0000
  }

  /** The attributes the image collaborator reports (`image.ImageAttr`). */
  datatype ImageAttr = ImageAttr(width: nat, height: nat, quality: nat, format: string, ext: string, size: nat, mime: string)

  /** A decoded image: its attributes and its re-encoded bytes (`Blob`). */
  datatype Image = Image(attr: ImageAttr, blob: Bytes)

  /** The collaborators: the image decoder, the hex MD5 digest (`%x` of
      `md5.Sum`) and `mime.TypeByExtension`. */
  datatype Codec = Codec(open: Bytes -> Result<Image>, md5hex: Bytes -> string, mimeByExt: string -> string)

  datatype Entry = Entry(
    id: EntryId,
    name: string,
    hashes: seq<string>,
    ids: seq<string>,
    meta: ImageAttr,
    size: nat,
    path: string,
    mime: string)

  /** `newPath(ei, ext)`: `xx/yy/rest` of the id followed by the extension.
      Unlike Id2Path there is no guard: an id shorter than 4 characters is a
      slice-bounds panic in Go, hence the precondition. */
  function NewPath(ei: EntryId, ext: string): (p: string)
    requires |ei.id| >= 4
    ensures |p| == |ei.id| + 2 + |ext|
    ensures p[2] == '/' && p[5] == '/'
    ensures Backend.Unshard(p[..|ei.id| + 2]) == ei.id && p[|ei.id| + 2..] == ext
  {
    var r := ei.id;
    var p := r[0..2] + "/" + r[2..4] + "/" + r[4..] + ext;
    assert p[..2] == r[..2] && p[3..5] == r[2..4] && p[6..|r| + 2] == r[4..];
    assert r == r[..2] + r[2..4] + r[4..];
    p
  }

  /** The tip of an id is the first character of its path. */
  lemma TipIsPathPrefix(ei: EntryId, ext: string)
    requires |ei.id| >= 4
    ensures ei.Tip() == NewPath(ei, ext)[..1]
  {
    var p := NewPath(ei, ext);
    var q := p[..|ei.id| + 2];
    assert Backend.Unshard(q) == ei.id;
    assert q[..2] == p[..2];
    assert p[..1] == Backend.Unshard(q)[..1];
  }

  /** For ids of 8 or more characters without a `/`, newPath is the shared
      sharder followed by the extension. */
  lemma NewPathIsId2Path(ei: EntryId, ext: string)
    requires |ei.id| >= Backend.MinIdLength && '/' !in ei.id
    ensures NewPath(ei, ext) == Backend.Id2Path(ei.id) + ext
  {
    var p := NewPath(ei, ext);
    var q := Backend.Id2Path(ei.id) + ext;
    assert |p| == |q|;
    forall i | 0 <= i < |p|
      ensures p[i] == q[i]
    {
      var r := ei.id;
      assert q == r[0..2] + "/" + r[2..4] + "/" + r[4..] + ext;
    }
  }

  /** For ids of 4 to 7 characters the two disagree: Id2Path leaves them
      alone, newPath shards them. */
  lemma NewPathShardsShortIds(ei: EntryId, ext: string)
    requires 4 <= |ei.id| < Backend.MinIdLength
    ensures NewPath(ei, ext) != Backend.Id2Path(ei.id) + ext
  {
  }

  /** The digest history NewEntry records: the raw digest and its id, then,
      only when re-encoding changed the digest, the stored digest and its
      id. `id` and `err` come from the last conversion made. */
  datatype Digests = Digests(hashes: seq<string>, ids: seq<string>, id: EntryId, err: Option<Error>)

  /** The history step, from the raw digest and the stored one. Whatever
      happened to the raw conversion, the id and the error that count are
      those of the stored digest. */
  function History(raw: string, stored: string): (d: Digests)
    ensures |d.hashes| == |d.ids| && 1 <= |d.hashes| <= 2
    ensures d.hashes[0] == raw && d.hashes[|d.hashes| - 1] == stored
    ensures |d.hashes| == 2 <==> stored != raw
    ensures forall i :: 0 <= i < |d.ids| ==> d.ids[i] == IdOf(d.hashes[i])
    ensures (d.id, d.err) == NewEntryIdFromHash(stored)
  {
    var (id1, err1) := NewEntryIdFromHash(raw);
    if stored != raw then
      var (id2, err2) := NewEntryIdFromHash(stored);
      Digests([raw, stored], [id1.String(), id2.String()], id2, err2)
    else
      Digests([raw], [id1.String()], id1, err1)
  }

  /** The steps of NewEntry after the bytes are read and decoded: the
      digest history, the canonical id, size, MIME type and path. `buf` is
      what was read, `decoded` what the decoder made of its input. */
  function Build(buf: Bytes, decoded: Result<Image>, codec: Codec): (r: Result<Entry>)
    ensures decoded.Err? ==> r == Err(decoded.error)
    ensures decoded.Ok? ==>
      var stored := codec.md5hex(decoded.value.blob);
      (r.Ok? <==> Base.Valid(stored, 16) && |IdOf(stored)| >= 4)
    ensures r.Ok? ==> decoded.Ok? && HistoryOk(r.value, buf, decoded.value, codec)
    ensures decoded.Ok? && !Base.Valid(codec.md5hex(decoded.value.blob), 16) ==>
      r == Err(InvalidDigits(codec.md5hex(decoded.value.blob)))
    ensures decoded.Ok? && Base.Valid(codec.md5hex(decoded.value.blob), 16) && |IdOf(codec.md5hex(decoded.value.blob))| < 4 ==>
      r == Err(ShortIdPanic)
  {
    if decoded.Err? then Err(decoded.error)
    else
      var im := decoded.value;
      var data := im.blob;
      var d := History(codec.md5hex(buf), codec.md5hex(data));
      if d.err.Some? then Err(d.err.value)
      else if |d.id.id| < 4 then Err(ShortIdPanic)
      else
        var size := ToUint32(|data|);
        var ext := im.attr.ext;
        var mime := codec.mimeByExt(ext);
        Ok(Entry(d.id, "", d.hashes, d.ids, im.attr.(size := size, mime := mime), size, NewPath(d.id, ext), mime))
  }

  /** The panic `newPath` raises when slicing an id shorter than 4 characters. */
  const ShortIdPanic: Error := Panic("runtime error: slice bounds out of range")

  /** What a built entry promises about its digest history and fields. */
  ghost predicate HistoryOk(e: Entry, buf: Bytes, im: Image, codec: Codec) {
    var raw := codec.md5hex(buf);
    var stored := codec.md5hex(im.blob);
    && |e.hashes| == |e.ids|
    && (|e.hashes| == 1 || |e.hashes| == 2)
    && e.hashes[0] == raw
    && e.hashes[|e.hashes| - 1] == stored
    && (|e.hashes| == 2 <==> stored != raw)
    && (|e.hashes| == 2 ==> e.hashes[0] != e.hashes[1])
    && (forall i :: 0 <= i < |e.ids| ==> e.ids[i] == IdOf(e.hashes[i]))
    && e.id == EntryId(IdOf(stored), stored)
    && e.ids[|e.ids| - 1] == e.id.String()
    && e.size == ToUint32(|im.blob|)
    && e.mime == codec.mimeByExt(im.attr.ext)
    && e.meta == im.attr.(size := e.size, mime := e.mime)
    && |e.id.id| >= 4
    && e.path == NewPath(e.id, im.attr.ext)
    && e.name == ""
  }

  /** The dynamic type of the reader NewEntry is given. A file carries what
      `Seek(0, 0)` would rewind to, its bytes from offset 0, and the seek's
      outcome, which NewEntry ignores: a pipe or terminal cannot seek, and
      the file offset then stays at the end `ReadAll` reached. */
  datatype ReaderKind = OsFile(fromStart: Bytes, seekFault: Option<Error>) | ByteBuffer | OtherReader

  /** A reader: its kind, the bytes `ioutil.ReadAll` returns, and the error
      it returns with them, if any. */
  datatype Reader = Reader(kind: ReaderKind, content: Bytes, readError: Option<Error>)

  /** What the decoder gets to read in each branch of NewEntry: a file is
      rewound to offset 0, or, when it cannot seek, read on from where
      `ReadAll` left it, at the end; a `bytes.Buffer` was drained by
      `ReadAll` and is then `Reset`, which empties it; any other reader's
      bytes are re-wrapped in a fresh buffer. */
  function DecoderInput(rd: Reader): (b: Bytes)
    ensures rd.kind.OtherReader? ==> b == rd.content
    ensures rd.kind.OsFile? && rd.kind.seekFault.None? ==> b == rd.kind.fromStart
    ensures rd.kind.OsFile? && rd.kind.seekFault.Some? ==> b == []
    ensures rd.kind.ByteBuffer? ==> b == []
  {
    match rd.kind
    case OsFile(fromStart, seekFault) => if seekFault.Some? then [] else fromStart
    case ByteBuffer => []
    case OtherReader => rd.content
  }

  /** `NewEntry(r)` as written: a read error or a decode error is returned
      (with the empty entry, here no entry); otherwise the entry is built
      from the bytes read and the image decoded from the reader. */
  function NewEntry(rd: Reader, codec: Codec): (r: Result<Entry>)
    ensures rd.readError.Some? ==> r == Err(rd.readError.value)
    ensures rd.readError.None? && codec.open(DecoderInput(rd)).Err? ==> r == Err(codec.open(DecoderInput(rd)).error)
    ensures rd.readError.None? && codec.open(DecoderInput(rd)).Ok? ==>
      var stored := codec.md5hex(codec.open(DecoderInput(rd)).value.blob);
      (r.Ok? <==> Base.Valid(stored, 16) && |IdOf(stored)| >= 4)
    ensures rd.readError.None? && codec.open(DecoderInput(rd)).Ok? ==>
      var stored := codec.md5hex(codec.open(DecoderInput(rd)).value.blob);
      && (!Base.Valid(stored, 16) ==> r == Err(InvalidDigits(stored)))
      && (Base.Valid(stored, 16) && |IdOf(stored)| < 4 ==> r == Err(ShortIdPanic))
    ensures r.Ok? ==>
      && rd.readError.None?
      && codec.open(DecoderInput(rd)).Ok?
      && HistoryOk(r.value, rd.content, codec.open(DecoderInput(rd)).value, codec)
  {
    if rd.readError.Some? then Err(rd.readError.value)
    else Build(rd.content, codec.open(DecoderInput(rd)), codec)
  }

  /** NewEntry with every reader decoded from the bytes that were read, as
      the generic branch already does. It agrees with NewEntry on generic
      readers, and on files that seek back to exactly the bytes read (a
      file handed over at offset 0). */
  function NewEntryFixed(rd: Reader, codec: Codec): (r: Result<Entry>)
    ensures r == NewEntry(rd.(kind := OtherReader), codec)
    ensures rd.kind.OtherReader? ==> r == NewEntry(rd, codec)
    ensures rd.kind.OsFile? && rd.kind.seekFault.None? && rd.kind.fromStart == rd.content ==> r == NewEntry(rd, codec)
    ensures rd.readError.None? && codec.open(rd.content).Ok? ==>
      var stored := codec.md5hex(codec.open(rd.content).value.blob);
      (r.Ok? <==> Base.Valid(stored, 16) && |IdOf(stored)| >= 4)
    ensures rd.readError.None? && codec.open(rd.content).Ok? ==>
      var stored := codec.md5hex(codec.open(rd.content).value.blob);
      && (!Base.Valid(stored, 16) ==> r == Err(InvalidDigits(stored)))
      && (Base.Valid(stored, 16) && |IdOf(stored)| < 4 ==> r == Err(ShortIdPanic))
    ensures r.Ok? ==> rd.readError.None? && codec.open(rd.content).Ok? && HistoryOk(r.value, rd.content, codec.open(rd.content).value, codec)
  {
    if rd.readError.Some? then Err(rd.readError.value)
    else Build(rd.content, codec.open(rd.content), codec)
  }

  /** As written, a `bytes.Buffer` reader is decoded from no bytes at all:
      with a decoder that rejects empty input (as every image format does),
      NewEntry fails on a buffer whose bytes the fixed version turns into an
      entry. */
  lemma ByteBufferDecodesNothing(content: Bytes, codec: Codec)
    requires codec.open([]).Err?
    requires NewEntryFixed(Reader(ByteBuffer, content, None), codec).Ok?
    ensures NewEntry(Reader(ByteBuffer, content, None), codec) == Err(codec.open([]).error)
    ensures NewEntry(Reader(OtherReader, content, None), codec).Ok?
  {
  }

  /** The same happens to a file that cannot seek (standard input fed from a
      pipe): the ignored seek error leaves the decoder at the end of input. */
  lemma UnseekableFileDecodesNothing(content: Bytes, fromStart: Bytes, seekError: Error, codec: Codec)
    requires codec.open([]).Err?
    requires NewEntryFixed(Reader(OsFile(fromStart, Some(seekError)), content, None), codec).Ok?
    ensures NewEntry(Reader(OsFile(fromStart, Some(seekError)), content, None), codec) == Err(codec.open([]).error)
  {
  }

  /** A file handed over at a later offset is hashed from that offset on but
      decoded from offset 0: the stored image is the whole file's, the raw
      digest only the tail's. */
  lemma FileAtOffsetMixesInputs(rd: Reader, codec: Codec)
    requires rd.kind.OsFile? && rd.kind.seekFault.None? && rd.readError.None?
    requires NewEntry(rd, codec).Ok?
    ensures NewEntry(rd, codec).value.hashes[0] == codec.md5hex(rd.content)
    ensures NewEntry(rd, codec).value.id.hash == codec.md5hex(codec.open(rd.kind.fromStart).value.blob)
  {
  }

  /** The canonical id is always the id of the stored (re-encoded) bytes'
      digest, whether or not re-encoding changed them; so two submissions
      whose re-encodings agree share id, size and path (deduplication). */
  lemma SameStoredBytesSameEntry(buf1: Bytes, buf2: Bytes, im1: Image, im2: Image, codec: Codec)
    requires im1.blob == im2.blob && im1.attr.ext == im2.attr.ext
    requires Build(buf1, Ok(im1), codec).Ok? && Build(buf2, Ok(im2), codec).Ok?
    ensures Build(buf1, Ok(im1), codec).value.id == Build(buf2, Ok(im2), codec).value.id
    ensures Build(buf1, Ok(im1), codec).value.path == Build(buf2, Ok(im2), codec).value.path
    ensures Build(buf1, Ok(im1), codec).value.size == Build(buf2, Ok(im2), codec).value.size
  {
  }

  /** When re-encoding changed the digest, a failure to convert the raw
      digest is overwritten by the later conversion: the entry is built,
      with an empty first id. Real MD5 hex output is always valid hex, so
      this premise arises only from the model's unconstrained digest. */
  lemma RawConversionErrorOverwritten(buf: Bytes, im: Image, codec: Codec)
    requires !Base.Valid(codec.md5hex(buf), 16)
    requires Base.Valid(codec.md5hex(im.blob), 16) && |IdOf(codec.md5hex(im.blob))| >= 4
    ensures Build(buf, Ok(im), codec).Ok?
    ensures Build(buf, Ok(im), codec).value.ids == ["", IdOf(codec.md5hex(im.blob))]
  {
  }
}
