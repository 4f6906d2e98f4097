# imsto-go storage core in Dafny

A model of the storage core of imsto, an image storage service:

- **Configuration.** This is the layered lookup of `config/config.go`. A key is read from the loaded INI section, then from the loaded `common` section, then from the built-in default `common` section. The value is unquoted, and integers are parsed from it. The module also lists the administrable sections, and builds the thumbnail-prefix table (`loadThumbRoofs`, `ThumbRoof`).
- **Backend registry.** This is `storage/backend/engine.go`:
  - the path sharder `Id2Path`, which turns `abcdefgh` into `ab/cd/efgh`;
  - the write-once table of engine constructors;
  - `FarmEngine`, which binds a roof (a namespace, that is, a config section) to an engine through its `engine` key.
- **Entries.** This is `storage/entry.go`:
  - the entry id, which is the MD5 hex digest re-spelt in base 36, and its inverse;
  - `NewEntry`, which records the digest of the submitted bytes and, when re-encoding changed them, the digest of the stored bytes, then takes the id from the last one;
  - `newPath`.
- **File backend.** This is `storage/backend/file/file.go`: the local-filesystem "wagon", with Put, Get, Exists, Delete, the JSON metadata sidecar, and its registration under `file`.

Files:

| file | module | contents |
|---|---|---|
| `results.dfy` | `Results` | `byte`, `Error`, `Option`, `Result` |
| `text.dfy` | `Text` | `strings.Index`, `Trim`, `TrimLeft`, `TrimRight`, `TrimPrefix`, `ToTitle` |
| `base.dfy` | `Base` | base 2–36 digit strings and `BaseConvert` |
| `config.dfy` | `Config` | `config/config.go` |
| `engine.dfy` | `Backend` | `storage/backend/engine.go` |
| `entry.dfy` | `Storage` | `storage/entry.go` |
| `file.dfy` | `FileBackend` | `storage/backend/file/file.go` |

Package globals become explicit values, and the model passes them in and returns them: the loaded configuration, the `engines` table, `thumbRoofs`, and the filesystem. Code the model cannot see becomes a parameter. This covers the image decoder, MD5, the MIME table, JSON encoding, and the outcome of each OS call. Go's map iteration order becomes an explicit `order` argument, constrained to list every key exactly once.

`BaseConvert` comes from the `calf/base` package, which is not part of this model. It is modelled as exact conversion through a natural number:
- input digits may be either case;
- the empty string, or a digit outside the alphabet, is `InvalidDigits`;
- output is lower-case with no leading zero.

The id is therefore not the digest verbatim: a digest with a leading `0` does not survive hex → id → hex (`Base.LeadingZeroLost`).

Where the code and its evident intent disagree, the model follows the code:
- **FarmEngine with no engine configured.** A roof with no `engine` key is not an error. It inherits the loaded `common` value, or the default `s3` (`Backend.FarmEngineInheritsEngine`). The only error is `invalid engine name: <name>`.
- **Exists.** `Exists` is modelled as written, returning true always. The corrected version is under Findings.
- **Put.** A Put whose metadata encoding fails reports success, as written. This is also under Findings.
- **NewEntry on files.** A file is rewound with `Seek(0, 0)` and the seek's error is ignored. A file that cannot seek is decoded from its end, so from no bytes, and a file handed over at a later offset is hashed from that offset but decoded from offset 0. This is under Findings.

Several other points follow the code as well:
- **Name mismatches.** `file.go` calls `backend.ID2Path` and names `backend.Meta`, but `engine.go` defines `Id2Path` and `JsonKV`. The model treats these as the same function and a string-keyed JSON map.
- **Delete.** The `Wagoner` interface declares `Del` while the wagon defines `Delete`. `FileBackend.Delete` models the wagon's method.
- **Size.** `Entry.Size` is a `uint32`, and the conversion is modelled as truncation modulo 2^32 (`Storage.ToUint32`).
- **Short ids.** An id shorter than 4 characters makes `newPath` panic. `Storage.Build` returns that panic as an error, and `Storage.NewPath` requires 4 characters.
- **Id2Path's guard.** The guard tests `strings.Index(r, "/") > 0`, so an id that begins with `/` is sharded. Sharding it again changes it again (`Backend.LeadingSlashSharded`); all other inputs shard idempotently (`Backend.Id2PathIdempotent`).
- **Short ids in both sharders.** `newPath` shards 4-to-7-character ids that `Id2Path` leaves alone (`Storage.NewPathShardsShortIds`).

## Model

| member | source | states |
|---|---|---|
| Text.IndexOf | storage/backend/engine.go:54 | the index is -1 exactly when the character is absent, and otherwise it is the first occurrence |
| Text.Trim | config/config.go:77 | the result has no trimmed character at either end, and the input is the result with some run of that character on each side |
| Text.TrimSurrounded | config/config.go:165-171 | one slash on either side of a key without slashes at its ends is trimmed off |
| Text.TrimOneLeading | config/config.go:165-166 | one leading slash before a key without slashes at its ends is trimmed off |
| Text.TrimPrefix | config/config.go:154 | when the input starts with the prefix it is the prefix followed by the result, and otherwise the result is the input |
| Text.ToTitle | config/config.go:112 | the result has the input's length, and each character is the title case of the input's character at that position |
| Base.BaseConvert | storage/entry.go:24 | succeeds exactly on non-empty strings of valid digits. The output is the canonical spelling of the same number in the target base, and the error is `InvalidDigits` of the input |
| Base.RoundTrip | storage/entry.go:23-32 | a canonical string converted to another base and back is returned unchanged |
| Base.LeadingZeroLost | storage/entry.go:23-32 | a string with a leading zero never comes back from a round trip |
| Base.CanonicalUnique | storage/entry.go:23-32 | two canonical strings with the same value are equal, so the conversion is fully determined by its contract |
| Backend.Id2Path | storage/backend/engine.go:53-58 | the id is returned unchanged exactly when it is shorter than 8 characters or has a `/` after position 0. Otherwise the result is 2 longer, has `/` at positions 2 and 5, and removing those gives back the id |
| Backend.Id2PathIdempotent | storage/backend/engine.go:53-58 | sharding an id that does not start with `/` twice is the same as sharding it once |
| Backend.LeadingSlashSharded | storage/backend/engine.go:54-57 | an id of 8 or more characters starting with `/` is sharded, and sharding its result changes it again |
| Backend.RegisterEngine | storage/backend/engine.go:33-41 | a nil constructor panics first, then an existing name panics, each with its message. Otherwise exactly the new name is added with its constructor, and every other entry is kept |
| Backend.RegisterWriteOnce | storage/backend/engine.go:37-39 | a name once registered can never be registered again |
| Backend.FarmEngine | storage/backend/engine.go:44-51 | the constructor registered under the roof's configured engine name is called with the roof. A name missing from the table gives `invalid engine name: ` followed by that name, and no constructor is called |
| Backend.FarmEngineUsesConfiguredEntryOnly | storage/backend/engine.go:44-51 | the result depends only on the table entry under the configured name |
| Backend.RegisterPreservesResolution | storage/backend/engine.go:33-51 | registering another engine never changes how a roof that already resolves is resolved |
| Backend.FarmEngineInheritsEngine | storage/backend/engine.go:44-51 | a roof without its own `engine` key uses the loaded `common` value, or else `s3`, and resolves or fails accordingly |
| Storage.EntryId.Tip | storage/entry.go:38-40 | for a non-empty id, the tip is the id's one-character prefix |
| Storage.EntryId.String | storage/entry.go:34-36 | the string form is the base-36 id, not the hash |
| Storage.TipIsPathPrefix | storage/entry.go:38-40 | the tip is the first character of the entry's stored path |
| Storage.NewEntryIdFromHash | storage/entry.go:23-27 | the hash is kept. The id is the canonical base-36 spelling of the hex digest's value, or empty with `InvalidDigits` exactly when the hash is not valid hex |
| Storage.NewEntryId | storage/entry.go:29-32 | the id is kept. The hash is the canonical hex spelling of the id's base-36 value, or empty with `InvalidDigits` exactly when the id is not valid base 36 |
| Storage.EntryIdRoundTrip | storage/entry.go:23-32 | a canonical hex digest gives an id from which NewEntryId rebuilds the same EntryId without error |
| Storage.ToUint32 | storage/entry.go:136 | the size is below 2^32, differs from the length by a multiple of 2^32, and is unchanged when it already fits |
| Storage.NewPath | storage/entry.go:150-155 | the path is 2 plus the extension's length longer than the id, has `/` at positions 2 and 5, gives back the id once those are removed, and ends with the extension |
| Storage.NewPathIsId2Path | storage/entry.go:150-155 | for ids of 8 or more characters without `/`, newPath is Id2Path followed by the extension |
| Storage.NewPathShardsShortIds | storage/entry.go:150-155 | for ids of 4 to 7 characters, newPath and Id2Path disagree |
| Storage.History | storage/entry.go:108-129 | one digest when re-encoding kept the digest, otherwise the raw digest then the stored one, each with its own id. The id and error kept are those of the stored digest |
| Storage.Build | storage/entry.go:101-147 | a decode error is returned unchanged. A decoded image gives an entry exactly when the stored digest is valid hex with an id of at least 4 characters. Otherwise the error is `InvalidDigits` of the stored digest, or the slice-bounds panic of `newPath` for a shorter id. An entry has an empty `Name`, and every history and attribute field is as `HistoryOk` lists |
| Storage.NewEntry | storage/entry.go:70-104 | a read error is returned first, then a decode error. With a decoded image, an entry is returned exactly when the stored digest is valid hex with an id of at least 4 characters, and otherwise the error is `InvalidDigits` of the stored digest or the `newPath` panic. An entry has an empty `Name` and satisfies `HistoryOk` for the bytes read and the image decoded from what each reader kind hands the decoder |
| Storage.DecoderInput | storage/entry.go:84-99 | a file is decoded from its bytes from offset 0, or from nothing when it cannot seek. A `bytes.Buffer` is decoded from nothing, and any other reader from the bytes read |
| Storage.NewEntryFixed | storage/entry.go:84-99 | every reader is decoded from the bytes read, as the generic branch does. The result equals NewEntry's for generic readers and for files rewound to exactly the bytes read. With a decoded image, an entry is returned exactly when the stored digest gives an id of at least 4 characters, the errors otherwise being those of NewEntry, and every entry satisfies `HistoryOk` for the bytes read |
| Storage.ByteBufferDecodesNothing | storage/entry.go:88-91 | with a decoder that rejects empty input, a buffer that the fixed version turns into an entry fails as written |
| Storage.UnseekableFileDecodesNothing | storage/entry.go:84-87 | with a decoder that rejects empty input, a file that cannot seek and that the fixed version turns into an entry fails as written |
| Storage.FileAtOffsetMixesInputs | storage/entry.go:78-121 | for a file read from a later offset, the raw digest is of the bytes read while the id is of the image decoded from offset 0 |
| Storage.SameStoredBytesSameEntry | storage/entry.go:121-145 | two submissions whose re-encoded bytes and extension agree get the same id, path and size |
| Storage.RawConversionErrorOverwritten | storage/entry.go:108-134 | when the digest changed, an invalid raw digest does not stop the entry, which records an empty first id |
| Config.GetValue | config/config.go:62-78 | the value read never begins or ends with a quote |
| Config.GetValueIsLayered | config/config.go:62-78 | GetValue is the unquoted value of the merge default `common` ← loaded `common` ← loaded section, and "" when no layer has the key |
| Config.InheritsCommon | config/config.go:68-69 | a section without the key reads what `common` reads |
| Config.UnquoteIdempotent | config/config.go:77 | unquoting a value already read changes nothing |
| Config.DefaultApplies | config/config.go:14-33 | a key no loaded layer has is read from the built-in default `common` section |
| Config.ParseInt | config/config.go:82 | parses exactly when the text is an optional sign followed by one or more decimal digits and the signed value lies in the 64-bit range. The value is the digits' value, negated after a minus sign |
| Config.ParseIntAccepts | config/config.go:82 | `+5` reads 5, `007` reads 7 and `-0` reads 0 |
| Config.ParseIntRejects | config/config.go:82 | the empty text, a lone `-`, a leading space and an underscore are rejected |
| Config.ParseFormatInt | config/config.go:80-86 | every 64-bit integer written in decimal parses back to itself |
| Config.GetInt | config/config.go:80-86 | the result is the parsed value of the text GetValue reads when it parses, and otherwise 0, including when no layer has the key |
| Config.GetIntReadsFormatted | config/config.go:80-86 | a value spelt as a decimal integer is read back by GetInt |
| Config.DefaultThumbPath | config/config_test.go:35-43 | without overrides, `thumb_path` reads `/thumb` in any section |
| Config.ParseEightyEight | config/config.go:19 | the default `max_quality` text parses to 88 |
| Config.DefaultMaxQuality | config/config_test.go:45-51 | without overrides, `max_quality` reads 88 in any section |
| Config.GetSection | config/config.go:88-94 | a loaded section with keys is returned. Otherwise the result is an empty section, and the loaded configuration gains an empty section under that name |
| Config.GetSectionRegistersName | config/config.go:88-101 | after GetSection, HasSection reports the name, and no value GetValue reads changes |
| Config.GetSectionKeepsSections | config/config.go:88-119 | GetSection adds no administrable section, and every section Sections lists is one HasSection reports |
| Config.EmptySectionsNotAdministrable | config/config.go:104-119 | adding empty sections leaves the administrable sections unchanged |
| Config.HasSection | config/config.go:96-101 | true exactly when the loaded file has the section, even an empty one |
| Config.Sections | config/config.go:104-119 | the keys are exactly the loaded sections other than `common` that have an `administrable` key. Each maps to its `label`, or to its upper-cased name |
| Config.Label | config/config.go:110-113 | the `label` key when the section has one, and otherwise the name with each character title-cased |
| Config.ThumbKey | config/config.go:153-154 | the section's `thumb_path` without its leading slash, if any, and otherwise unchanged |
| Config.InsertFresh | config/config.go:151-163 | there is no clash exactly when the keys are distinct and new, and a reported clash is the first one. The table gains exactly the keys before the clash, or all keys, each mapped to its value, and earlier entries are never changed |
| Config.FirstClashUnique | config/config.go:151-163 | a batch of keys has at most one first clash |
| Config.ClashExtends | config/config.go:151-163 | once a prefix of the keys clashes, every longer prefix clashes too |
| Config.LoadThumbRoofs | config/config.go:151-163 | succeeds exactly when the sections' thumbnail keys are distinct and not yet registered, and then the table gains exactly those keys, each mapped to its section. A failure is the duplicate error for the `thumb_path` of the first clashing section in the visiting order, and the sections visited before it stay registered. Existing entries never change |
| Config.InheritedThumbPathsCollide | config/config.go:151-163 | two administrable sections that both inherit `thumb_path` make loadThumbRoofs fail in every iteration order |
| Config.RepeatedKeyClashes | config/config.go:155-158 | a key that occurs twice among the sections' keys is a clash |
| Config.SameThumbKey | config/config.go:152-154 | two sections that both inherit `thumb_path` compute the same key |
| Config.ThumbRoof | config/config.go:165-171 | the section registered under the slash-trimmed prefix, or "" when that prefix is not registered |
| Config.ThumbRoofFindsKey | config/config.go:165-171 | a key without slashes at its ends finds its section |
| Config.ThumbRoofFindsSlashedKey | config/config.go:165-171 | the key with one slash on each side finds its section too |
| Config.ThumbPathFindsItsSection | config/config.go:151-171 | a section registered under its thumbnail key is found again by ThumbRoof from its own `thumb_path`, when the key has no slash at either end |
| Config.TrailingSlashKeyUnreachable | config/config.go:151-171 | a registered key ending in `/`, as a `thumb_path` ending in `/` produces, is never matched by ThumbRoof |
| FileBackend.SidecarIsNotBlob | storage/backend/file/file.go:74 | the sidecar name differs from the blob name |
| FileBackend.SaveMeta | storage/backend/file/file.go:117-123 | an encoding failure writes nothing and reports success. Otherwise the sidecar holds the encoding, or the write error is returned with nothing changed, and no other file is touched |
| FileBackend.SaveMetaCorrected | storage/backend/file/file.go:117-123 | success is reported exactly when the encoded sidecar was written, and an encoding error is returned |
| FileBackend.MarshalFailureReportedAsSaved | storage/backend/file/file.go:118-120 | an encoder failure is reported as success with no sidecar written, while the corrected version returns the error |
| FileBackend.Put | storage/backend/file/file.go:60-83 | the first failing step's error is returned with a nil `sev`, and a failed directory creation or blob write changes nothing. After the blob write the blob holds the data. A failed sidecar write returns its error and leaves the sidecar as it was. On success `sev` is `engine=file`, the sharded key and the size. Only the blob and sidecar files change |
| FileBackend.PutCorrected | storage/backend/file/file.go:60-83 | success means the blob holds the data and the sidecar holds the encoded metadata. A failed step returns its own error, the encoding error included. A failed directory creation or blob write changes nothing, a blob already written stays, and on any failure the sidecar is as it was |
| FileBackend.PutCorrectedAgrees | storage/backend/file/file.go:74-79 | with a working encoder, the corrected Put is exactly Put |
| FileBackend.PutReportsUnsavedMeta | storage/backend/file/file.go:74-80 | as written, Put succeeds with no sidecar when the encoder fails, while the corrected version fails |
| FileBackend.Stat | storage/backend/file/file.go:44-88 | an OS fault is returned as it is. Otherwise there is no error exactly when the file exists, and the error is not-exist for that name |
| FileBackend.Get | storage/backend/file/file.go:54-58 | an OS fault is returned. Otherwise the result is the blob under the sharded name exactly when it exists, or the not-exist error |
| FileBackend.Delete | storage/backend/file/file.go:85-88 | an OS fault is returned with nothing changed. Otherwise exactly the blob file is removed, and the call succeeds exactly when the blob existed, else returns the not-exist error |
| FileBackend.Exists | storage/backend/file/file.go:44-52 | as written, the answer is always true and the stat error is passed through |
| FileBackend.ExistsCorrected | storage/backend/file/file.go:44-52 | without a fault, the answer is whether the blob exists, with no error. A not-exist fault answers false with no error, and any other fault answers false and is returned. The answer true implies the blob exists |
| FileBackend.ExistsNeverWrittenId | storage/backend/file/file.go:44-52 | for a never-written id, Exists as written answers true with a not-exist error, while the corrected version answers false with no error |
| FileBackend.PutThenGet | storage/backend/file/file.go:54-68 | once the blob is written, Get returns the data |
| FileBackend.PutGetDeleteScenario | storage/backend/file/file.go:44-88 | with the corrected Put and Exists and no OS faults, Put, Get, Exists, Delete and Get on one id give success, the data, true, success and not-exist, and the sidecar survives Delete |
| FileBackend.Init | storage/backend/file/file.go:25-27 | succeeds exactly when `file` is not yet registered, and then adds only that name, with the given constructor, keeping every other engine. Otherwise it panics with the duplicate-registration message |
| FileBackend.FileRoofResolves | storage/backend/file/file.go:25-27 | after init, a roof configured with `engine = file` is served by that constructor |

## Left out

- `Config.Load`, `SetRoot`, `Root` and the package `init`: these read the environment and files. The INI parser (go-ini) is also left out, so a configuration is an already parsed map of sections, and the defaults are a constant map.
- `locDial`, `_check_local_dir` and `_exists_dir` probe environment variables and directories. `locDial` is the `dial` parameter of `FileBackend.Init`.
- Logging: every `log` and `logger()` call.
- `path.Join` and `path.Dir`: `FileBackend.Join` concatenates with `/` and does not clean the path.
- Directories: they are not tracked, so a successful `MkdirAll` changes no file.
- Partial writes are left out: a file write is all-or-nothing.
- `Storage.NewEntry` returns `Err` alone where Go returns the empty entry together with the error.
- `Storage.NewEntry`: `im.Close` is left out.
- `Storage.NewEntry`: the fields `AppId`, `Author`, `imageType` and `sev` are left out, because NewEntry never sets them.
- The image decoder, MD5, `mime.TypeByExtension` and `json.Marshal` are uninterpreted function parameters. The model states nothing about their results; in particular `md5hex` is not constrained to 32 lower-case hex digits.
- `Storage.NewEntryIdFromHash` and `Storage.NewEntryId`: on a conversion error the id (or hash) is taken to be empty, an assumption about `calf/base` like those listed above.
- `Text.ToTitle` maps ASCII letters only. Unicode title-casing is not modelled.
- `Config.GetSection`: the model does not capture a Go panic when nothing was loaded, because a nil map and an empty one are not distinguished.
- `Config.GetSection`: the insertion of `""` into the defaults is not modelled. Nothing reads that section.
- `Config.ParseInt` accepts exactly strconv's base-10 syntax: a sign, then digits. Its error values are folded into `None`, since GetInt discards them.
- `Config.GetValue`: its own contract states only that the result carries no quotes. The full fallback behaviour is `Config.GetValueIsLayered`.
- The `List` operation and other backends (S3 and so on) are not part of the code this model covers.
- `storage/middlewares.go` and `image/read_write.go` are not part of the model.
- `calf/base` is not part of this model. `Base.BaseConvert` is its assumed behaviour (see above).
- Concurrency is left out: the registry and the roof table are values passed between calls.
- Backend.Id2Path: ids are sequences of characters while Go slices bytes. The two agree on ASCII ids, and every entry id is base-36 ASCII.
- Storage.NewPath: the same character-for-byte reading as `Backend.Id2Path`.
- Storage.EntryId.Tip: the same character-for-byte reading; `ei.id[:1]` slices one byte, which is one character of an ASCII id.
- Storage.Build: the size `im.Blob(&size)` reports is taken to be the length of the bytes it returns; `calf/image` is not part of this model.
- `FileBackend.Get`, `FileBackend.Delete` and `FileBackend.Exists`: an OS fault is one `Option<Error>` argument. The model does not say which faults an OS can raise.

## Findings

| source | as written | input that shows it | evidently intended | confidence | as-written member | corrected member |
|---|---|---|---|---|---|---|
| storage/backend/file/file.go:44-52 | `exist = false` on a not-exist error is followed unconditionally by `exist = true` | Exists on an id never written: the answer is true, with the not-exist error | false with no error for a missing blob, and an error only for other stat faults | high, not executed | FileBackend.Exists (witness FileBackend.ExistsNeverWrittenId) | FileBackend.ExistsCorrected |
| storage/entry.go:84-87 | a `*os.File` is rewound with `f.Seek(0, 0)` whose error is ignored | NewEntry on a file that cannot seek (standard input from a pipe) holding a valid image: the decode error for empty input | decode the bytes read, as the generic branch does | medium, not executed | Storage.NewEntry (witnesses Storage.UnseekableFileDecodesNothing, Storage.FileAtOffsetMixesInputs) | Storage.NewEntryFixed |
| storage/entry.go:88-91 | a `*bytes.Buffer` already drained by `ReadAll` is `Reset` and handed to the decoder, which sees no bytes | NewEntry on a `bytes.Buffer` holding a valid image: the decode error for empty input | decode the bytes read, as the generic branch does | medium, not executed | Storage.NewEntry (witness Storage.ByteBufferDecodesNothing) | Storage.NewEntryFixed |
| storage/backend/file/file.go:117-121 | a `json.Marshal` error returns `nil` | Put with metadata the encoder rejects: success and a `sev` map, with no sidecar on disk | return the encoding error | high, not executed | FileBackend.SaveMeta (witnesses FileBackend.MarshalFailureReportedAsSaved, FileBackend.PutReportsUnsavedMeta) | FileBackend.SaveMetaCorrected, FileBackend.PutCorrected |
