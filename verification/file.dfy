/** `storage/backend/file/file.go`: the local-filesystem wagon. The
    filesystem is a map from file name to contents; the outcome of each OS
    call the model cannot see (directory creation, a file write, JSON
    encoding) is an argument. Directories are not tracked: a successful
    `MkdirAll` changes no file. */
module FileBackend {
  import opened Results
  import Backend
  import Config

  type Fs = map<string, Bytes>

  /** The JSON values a metadata map holds. */
  datatype JsonValue = JString(s: string) | JNumber(n: int)

  type Meta = map<string, JsonValue>

  /** `locWagon`: a wagon rooted at a directory. */
  datatype LocWagon = LocWagon(root: string)

  const EngineName: string := "file"

  const MetaSuffix: string := ".meta"

  /** `path.Join(root, key)` for an already clean root and key. */
  function Join(root: string, key: string): string {
    if root == "" then key else root + "/" + key
  }

  /** The blob file of an id: the sharded key under the root. */
  function BlobName(w: LocWagon, id: string): string {
    Join(w.root, Backend.Id2Path(id))
  }

  /** The metadata sidecar of an id. */
  function MetaName(w: LocWagon, id: string): string {
    BlobName(w, id) + MetaSuffix
  }

  lemma SidecarIsNotBlob(w: LocWagon, id: string)
    ensures MetaName(w, id) != BlobName(w, id)
  {
    assert |MetaName(w, id)| == |BlobName(w, id)| + 5;
  }

  /** `ioutil.WriteFile`: all or nothing (a partial write is not modelled). */
  function WriteFile(fs: Fs, name: string, data: Bytes, fault: Option<Error>): (Fs, Option<Error>) {
    if fault.Some? then (fs, fault) else (fs[name := data], None)
  }

  /** `saveMeta(filename, meta)` as written: encodes the map with `marshal`
      and writes it; when encoding fails it writes nothing and still reports
      success. */
  function SaveMeta(fs: Fs, filename: string, meta: Meta, marshal: Meta -> Result<Bytes>, writeFault: Option<Error>): (r: (Fs, Option<Error>))
    ensures r.1.None? <==> marshal(meta).Err? || writeFault.None?
    ensures r.1.Some? ==> r.1 == writeFault
    ensures marshal(meta).Err? || r.1.Some? ==> r.0 == fs
    ensures marshal(meta).Ok? && r.1.None? ==> r.0.Keys == fs.Keys + {filename} && r.0[filename] == marshal(meta).value
    ensures forall n :: n != filename ==> (n in r.0 <==> n in fs) && (n in fs ==> r.0[n] == fs[n])
  {
    match marshal(meta)
    case Err(_) => (fs, None)
    case Ok(data) => WriteFile(fs, filename, data, writeFault)
  }

  /** saveMeta returning the encoding error instead of nil: success is
      reported exactly when the encoded sidecar was written. */
  function SaveMetaCorrected(fs: Fs, filename: string, meta: Meta, marshal: Meta -> Result<Bytes>, writeFault: Option<Error>): (r: (Fs, Option<Error>))
    ensures r.1.None? <==> marshal(meta).Ok? && writeFault.None?
    ensures r.1.None? ==> r.0.Keys == fs.Keys + {filename} && r.0[filename] == marshal(meta).value
    ensures marshal(meta).Err? ==> r == (fs, Some(marshal(meta).error))
    ensures marshal(meta).Ok? && writeFault.Some? ==> r == (fs, writeFault)
    ensures forall n :: n != filename ==> (n in r.0 <==> n in fs) && (n in fs ==> r.0[n] == fs[n])
  {
    match marshal(meta)
    case Err(e) => (fs, Some(e))
    case Ok(data) => WriteFile(fs, filename, data, writeFault)
  }

  /** As written, a map the encoder rejects is reported as saved although
      no sidecar exists; corrected, the encoding error is returned. */
  lemma MarshalFailureReportedAsSaved(fs: Fs, filename: string, meta: Meta, marshal: Meta -> Result<Bytes>)
    requires marshal(meta).Err? && filename !in fs
    ensures SaveMeta(fs, filename, meta, marshal, None) == (fs, None)
    ensures filename !in SaveMeta(fs, filename, meta, marshal, None).0
    ensures SaveMetaCorrected(fs, filename, meta, marshal, None).1 == Some(marshal(meta).error)
  {
  }

  /** The outcomes of the three OS calls Put makes, in order; `None` is success. */
  datatype PutFaults = PutFaults(mkdir: Option<Error>, writeBlob: Option<Error>, writeMeta: Option<Error>)

  /** What Put returns: the filesystem after it, the `sev` map (`None` for
      nil) and the error. */
  datatype PutResult = PutResult(fs: Fs, sev: Option<Meta>, err: Option<Error>)

  /** The `sev` map of a successful Put. */
  function ServedMeta(id: string, data: Bytes): Meta {
    map["engine" := JString(EngineName), "key" := JString(Backend.Id2Path(id)), "size" := JNumber(|data|)]
  }

  /** `locWagon.Put(id, data, meta)`: creates the directory, writes the blob,
      then the sidecar. A failed step ends Put with that error and a nil
      `sev`; a blob already written stays, there is no rollback. */
  function Put(w: LocWagon, fs: Fs, id: string, data: Bytes, meta: Meta, marshal: Meta -> Result<Bytes>, faults: PutFaults): (r: PutResult)
    ensures r.err.None? <==> faults.mkdir.None? && faults.writeBlob.None? && (marshal(meta).Err? || faults.writeMeta.None?)
    ensures r.sev.Some? <==> r.err.None?
    ensures r.sev.Some? ==> r.sev.value == ServedMeta(id, data)
    ensures faults.mkdir.Some? ==> r.fs == fs && r.err == faults.mkdir
    ensures faults.mkdir.None? && faults.writeBlob.Some? ==> r.fs == fs && r.err == faults.writeBlob
    ensures faults.mkdir.None? && faults.writeBlob.None? ==>
      BlobName(w, id) in r.fs && r.fs[BlobName(w, id)] == data
    ensures faults.mkdir.None? && faults.writeBlob.None? && marshal(meta).Ok? && faults.writeMeta.None? ==>
      MetaName(w, id) in r.fs && r.fs[MetaName(w, id)] == marshal(meta).value
    ensures faults.mkdir.None? && faults.writeBlob.None? && marshal(meta).Ok? && faults.writeMeta.Some? ==>
      r.err == faults.writeMeta
    ensures !(faults.mkdir.None? && faults.writeBlob.None? && marshal(meta).Ok? && faults.writeMeta.None?) ==>
      (MetaName(w, id) in r.fs <==> MetaName(w, id) in fs) && (MetaName(w, id) in fs ==> r.fs[MetaName(w, id)] == fs[MetaName(w, id)])
    ensures forall n :: n != BlobName(w, id) && n != MetaName(w, id) ==>
      (n in r.fs <==> n in fs) && (n in fs ==> r.fs[n] == fs[n])
  {
    var key := Backend.Id2Path(id);
    var name := Join(w.root, key);
    if faults.mkdir.Some? then PutResult(fs, None, faults.mkdir)
    else
      var (fs1, err1) := WriteFile(fs, name, data, faults.writeBlob);
      if err1.Some? then PutResult(fs1, None, err1)
      else
        SidecarIsNotBlob(w, id);
        var (fs2, err2) := SaveMeta(fs1, name + MetaSuffix, meta, marshal, faults.writeMeta);
        if err2.Some? then PutResult(fs2, None, err2)
        else PutResult(fs2, Some(ServedMeta(id, data)), None)
  }

  /** Put with the corrected saveMeta: success now also means the sidecar
      holds the encoded metadata, and an encoding failure is reported. As
      in Put, a failed step returns its error, and a blob already written
      stays. */
  function PutCorrected(w: LocWagon, fs: Fs, id: string, data: Bytes, meta: Meta, marshal: Meta -> Result<Bytes>, faults: PutFaults): (r: PutResult)
    ensures r.err.None? <==> faults.mkdir.None? && faults.writeBlob.None? && marshal(meta).Ok? && faults.writeMeta.None?
    ensures r.sev.Some? <==> r.err.None?
    ensures r.err.None? ==>
      && r.sev.value == ServedMeta(id, data)
      && BlobName(w, id) in r.fs && r.fs[BlobName(w, id)] == data
      && MetaName(w, id) in r.fs && r.fs[MetaName(w, id)] == marshal(meta).value
    ensures faults.mkdir.Some? ==> r.fs == fs && r.err == faults.mkdir
    ensures faults.mkdir.None? && faults.writeBlob.Some? ==> r.fs == fs && r.err == faults.writeBlob
    ensures faults.mkdir.None? && faults.writeBlob.None? ==>
      BlobName(w, id) in r.fs && r.fs[BlobName(w, id)] == data
    ensures faults.mkdir.None? && faults.writeBlob.None? && marshal(meta).Err? ==>
      r.err == Some(marshal(meta).error)
    ensures faults.mkdir.None? && faults.writeBlob.None? && marshal(meta).Ok? && faults.writeMeta.Some? ==>
      r.err == faults.writeMeta
    ensures r.err.Some? ==>
      (MetaName(w, id) in r.fs <==> MetaName(w, id) in fs) && (MetaName(w, id) in fs ==> r.fs[MetaName(w, id)] == fs[MetaName(w, id)])
    ensures forall n :: n != BlobName(w, id) && n != MetaName(w, id) ==>
      (n in r.fs <==> n in fs) && (n in fs ==> r.fs[n] == fs[n])
  {
    var key := Backend.Id2Path(id);
    var name := Join(w.root, key);
    if faults.mkdir.Some? then PutResult(fs, None, faults.mkdir)
    else
      var (fs1, err1) := WriteFile(fs, name, data, faults.writeBlob);
      if err1.Some? then PutResult(fs1, None, err1)
      else
        SidecarIsNotBlob(w, id);
        var (fs2, err2) := SaveMetaCorrected(fs1, name + MetaSuffix, meta, marshal, faults.writeMeta);
        if err2.Some? then PutResult(fs2, None, err2)
        else PutResult(fs2, Some(ServedMeta(id, data)), None)
  }

  /** The correction only matters when encoding fails. */
  lemma PutCorrectedAgrees(w: LocWagon, fs: Fs, id: string, data: Bytes, meta: Meta, marshal: Meta -> Result<Bytes>, faults: PutFaults)
    requires marshal(meta).Ok?
    ensures PutCorrected(w, fs, id, data, meta, marshal, faults) == Put(w, fs, id, data, meta, marshal, faults)
  {
  }

  /** As written, Put reports success and returns its `sev` map although the
      sidecar was never written, when the encoder rejects the metadata. */
  lemma PutReportsUnsavedMeta(w: LocWagon, fs: Fs, id: string, data: Bytes, meta: Meta, marshal: Meta -> Result<Bytes>)
    requires marshal(meta).Err? && MetaName(w, id) !in fs
    ensures Put(w, fs, id, data, meta, marshal, PutFaults(None, None, None)).err.None?
    ensures MetaName(w, id) !in Put(w, fs, id, data, meta, marshal, PutFaults(None, None, None)).fs
    ensures PutCorrected(w, fs, id, data, meta, marshal, PutFaults(None, None, None)).err == Some(marshal(meta).error)
  {
    SidecarIsNotBlob(w, id);
  }

  /** The outcome of an OS call on `name`: the fault the environment
      reports, else the not-exist error for a missing file, else success
      (`os.Stat`, and the lookup `ReadFile` and `Remove` start with). */
  function Stat(fs: Fs, name: string, fault: Option<Error>): (r: Option<Error>)
    ensures fault.Some? ==> r == fault
    ensures fault.None? ==> (r.None? <==> name in fs)
    ensures fault.None? && r.Some? ==> r.value == NotExist(name)
  {
    if fault.Some? then fault else if name in fs then None else Some(NotExist(name))
  }

  /** `locWagon.Get(id)`: the blob's contents, or the not-exist error, or
      the fault `ReadFile` reports. */
  function Get(w: LocWagon, fs: Fs, id: string, readFault: Option<Error>): (r: Result<Bytes>)
    ensures readFault.Some? ==> r == Err(readFault.value)
    ensures readFault.None? ==> (r.Ok? <==> BlobName(w, id) in fs)
    ensures r.Ok? ==> r.value == fs[BlobName(w, id)]
    ensures readFault.None? && r.Err? ==> r.error == NotExist(BlobName(w, id))
  {
    var name := BlobName(w, id);
    match Stat(fs, name, readFault)
    case None => Ok(fs[name])
    case Some(e) => Err(e)
  }

  /** `locWagon.Delete(id)`: removes the blob file only; deleting a missing
      blob is the not-exist error, and a fault `Remove` reports removes
      nothing. */
  function Delete(w: LocWagon, fs: Fs, id: string, removeFault: Option<Error>): (r: (Fs, Option<Error>))
    ensures removeFault.Some? ==> r == (fs, removeFault)
    ensures removeFault.None? ==> r.0 == fs - {BlobName(w, id)}
    ensures removeFault.None? ==> (r.1.None? <==> BlobName(w, id) in fs)
    ensures removeFault.None? && r.1.Some? ==> r.1.value == NotExist(BlobName(w, id))
  {
    var name := BlobName(w, id);
    match Stat(fs, name, removeFault)
    case None => (fs - {name}, None)
    case Some(e) => (fs, Some(e))
  }

  /** `locWagon.Exists(id)` as written: the stat error is passed through and
      the answer is true on every path, because the assignment of false is
      immediately overwritten. */
  function Exists(w: LocWagon, fs: Fs, id: string, statFault: Option<Error>): (r: (bool, Option<Error>))
    ensures r.0
    ensures r.1 == Stat(fs, BlobName(w, id), statFault)
  {
    (true, Stat(fs, BlobName(w, id), statFault))
  }

  /** Exists as its callers expect it: false, with no error, for a missing
      blob; an error only for other stat failures. */
  function ExistsCorrected(w: LocWagon, fs: Fs, id: string, statFault: Option<Error>): (r: (bool, Option<Error>))
    ensures statFault.None? ==> r == (BlobName(w, id) in fs, None)
    ensures r.0 ==> BlobName(w, id) in fs
    ensures r.1.Some? ==> r.1 == statFault && !r.1.value.NotExist?
    ensures statFault.Some? && statFault.value.NotExist? ==> r == (false, None)
    ensures statFault.Some? && !statFault.value.NotExist? ==> r == (false, statFault)
  {
    match Stat(fs, BlobName(w, id), statFault)
    case None => (true, None)
    case Some(e) => if e.NotExist? then (false, None) else (false, Some(e))
  }

  /** A never-written id: as written, Exists claims it exists and returns the
      not-exist error; corrected, it does not exist and there is no error. */
  lemma ExistsNeverWrittenId(w: LocWagon, fs: Fs, id: string)
    requires BlobName(w, id) !in fs
    ensures Exists(w, fs, id, None) == (true, Some(NotExist(BlobName(w, id))))
    ensures ExistsCorrected(w, fs, id, None) == (false, None)
  {
  }

  /** What a successful Put stores is what Get reads back, since both use the
      same sharded name. */
  lemma PutThenGet(w: LocWagon, fs: Fs, id: string, data: Bytes, meta: Meta, marshal: Meta -> Result<Bytes>, faults: PutFaults)
    requires faults.mkdir.None? && faults.writeBlob.None?
    ensures Get(w, Put(w, fs, id, data, meta, marshal, faults).fs, id, None) == Ok(data)
  {
  }

  /** Put, Get, Exists, Delete and Get again on one id, with the corrected
      Put and Exists: the data comes back, Exists says true, and after Delete
      the blob is gone while the sidecar the Put wrote is still there. */
  lemma PutGetDeleteScenario(w: LocWagon, fs: Fs, id: string, data: Bytes, meta: Meta, marshal: Meta -> Result<Bytes>)
    requires marshal(meta).Ok?
    ensures var put := PutCorrected(w, fs, id, data, meta, marshal, PutFaults(None, None, None));
      && put.err.None?
      && Get(w, put.fs, id, None) == Ok(data)
      && ExistsCorrected(w, put.fs, id, None) == (true, None)
      && var (fs', err) := Delete(w, put.fs, id, None);
      && err.None?
      && Get(w, fs', id, None) == Err(NotExist(BlobName(w, id)))
      && MetaName(w, id) in fs' && fs'[MetaName(w, id)] == marshal(meta).value
  {
    SidecarIsNotBlob(w, id);
  }

  /** `init()`: registers the wagon constructor under "file". `dial` stands
      for `locDial`, whose environment probing is not modelled. */
  function Init<W>(engines: Backend.Engines<W>, dial: string -> Result<W>): (r: Result<Backend.Engines<W>>)
    ensures r.Ok? <==> EngineName !in engines
    ensures r.Ok? ==> EngineName in r.value && r.value[EngineName].farm == dial
    ensures r.Ok? ==> r.value.Keys == engines.Keys + {EngineName} && forall k :: k in engines ==> r.value[k] == engines[k]
    ensures r.Err? ==> r.error == Panic("imsto: Register called twice for engine file")
  {
    Backend.RegisterEngine(engines, EngineName, Some(dial))
  }

  /** After init, a roof configured with `engine = file` gets its wagon from
      the file constructor. */
  lemma FileRoofResolves<W>(loaded: Config.Ini, engines: Backend.Engines<W>, dial: string -> Result<W>, roof: string)
    requires Init(engines, dial).Ok?
    requires Config.GetValue(loaded, roof, "engine") == EngineName
    ensures Backend.FarmEngine(loaded, Init(engines, dial).value, roof) == dial(roof)
  {
  }
}
