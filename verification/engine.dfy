/** `storage/backend/engine.go`: the key sharder every backend uses, and the
    write-once table of engine constructors with the lookup that binds a
    roof (namespace) to an engine through its `engine` config key.

    The package-global `engines` table is passed and returned explicitly.
    An engine instance is of the type parameter `W`, which stands for the
    `Wagoner` interface (Get, Put, Exists, Del). */
module Backend {
  import opened Results
  import Text
  import Config

  const MinIdLength: nat := 8

  /** Removes the two separators a sharded key has at positions 2 and 5. */
  function Unshard(p: string): string
    requires |p| >= 6
  {
    p[..2] + p[3..5] + p[6..]
  }

  /** `Id2Path(r)`: `xx/yy/rest` for an id of at least 8 characters, the id
      itself when it is shorter or when its first `/` is at position 1 or
      later. A `/` at position 0 escapes the guard, so such an id is sharded. */
  function Id2Path(r: string): (p: string)
    ensures p == r <==> |r| < MinIdLength || (r[0] != '/' && '/' in r)
    ensures p != r ==> |p| == |r| + 2 && p[2] == '/' && p[5] == '/' && Unshard(p) == r
  {
    if |r| < MinIdLength || Text.IndexOf(r, '/') > 0 then r
    else
      var p := r[0..2] + "/" + r[2..4] + "/" + r[4..];
      assert p[..2] == r[..2] && p[3..5] == r[2..4] && p[6..] == r[4..];
      assert r == r[..2] + r[2..4] + r[4..];
      p
  }

  /** Sharding ids that do not start with `/` is idempotent: a sharded key
      has a `/` at position 2 and is left alone. */
  lemma Id2PathIdempotent(r: string)
    requires |r| == 0 || r[0] != '/'
    ensures Id2Path(Id2Path(r)) == Id2Path(r)
  {
    var p := Id2Path(r);
    if p != r {
      assert p[0] == r[0] && p[2] == '/';
    }
  }

  /** An id that starts with `/` is sharded however long its other slashes
      are; applied to its own result it shards again. */
  lemma {:induction false} LeadingSlashSharded(r: string)
    requires |r| >= MinIdLength && r[0] == '/'
    ensures Id2Path(r) == r[0..2] + "/" + r[2..4] + "/" + r[4..]
    ensures Id2Path(Id2Path(r)) != Id2Path(r)
  {
    assert Text.IndexOf(r, '/') == 0;
    var p := Id2Path(r);
    assert p[0] == '/';
    assert Text.IndexOf(p, '/') == 0;
  }

  /** A registered engine: its name and its constructor (`FarmFunc`). */
  datatype Engine<W> = Engine(name: string, farm: string -> Result<W>)

  type Engines<W> = map<string, Engine<W>>

  /** `RegisterEngine(name, farm)`, with `None` standing for a nil `farm` and
      the two panics as errors: a nil constructor is refused first, then a
      name already present; otherwise exactly one entry is added. */
  function RegisterEngine<W>(engines: Engines<W>, name: string, farm: Option<string -> Result<W>>): (r: Result<Engines<W>>)
    ensures farm.None? ==> r.Err? && r.error == Panic("imsto: Register engine is nil")
    ensures farm.Some? && name in engines ==>
      r.Err? && r.error == Panic("imsto: Register called twice for engine " + name)
    ensures r.Ok? <==> farm.Some? && name !in engines
    ensures r.Ok? ==> r.value.Keys == engines.Keys + {name}
    ensures r.Ok? ==> r.value[name].name == name && r.value[name].farm == farm.value
    ensures r.Ok? ==> forall k :: k in engines ==> r.value[k] == engines[k]
  {
    if farm.None? then Err(Panic("imsto: Register engine is nil"))
    else if name in engines then Err(Panic("imsto: Register called twice for engine " + name))
    else Ok(engines[name := Engine(name, farm.value)])
  }

  /** Registration is write-once: after a name is registered, registering it
      again fails whatever the constructor. */
  lemma RegisterWriteOnce<W>(engines: Engines<W>, name: string, f: string -> Result<W>, g: Option<string -> Result<W>>)
    requires RegisterEngine(engines, name, Some(f)).Ok?
    ensures RegisterEngine(RegisterEngine(engines, name, Some(f)).value, name, g).Err?
  {
  }

  /** `FarmEngine(roof)`: reads the roof's `engine` value (with the config
      fallbacks) and calls the constructor registered under it with the
      roof, or fails with "invalid engine name: " and that value. */
  function FarmEngine<W>(loaded: Config.Ini, engines: Engines<W>, roof: string): (r: Result<W>)
    ensures Config.GetValue(loaded, roof, "engine") in engines ==>
      r == engines[Config.GetValue(loaded, roof, "engine")].farm(roof)
    ensures Config.GetValue(loaded, roof, "engine") !in engines ==>
      r.Err? && r.error == Failure("invalid engine name: " + Config.GetValue(loaded, roof, "engine"))
  {
    var name := Config.GetValue(loaded, roof, "engine");
    if name in engines then engines[name].farm(roof) else Err(Failure("invalid engine name: " + name))
  }

  /** Resolution depends on nothing in the table but the entry under the
      configured name: no other constructor is consulted. */
  lemma FarmEngineUsesConfiguredEntryOnly<W>(loaded: Config.Ini, e1: Engines<W>, e2: Engines<W>, roof: string)
    requires var name := Config.GetValue(loaded, roof, "engine");
      (name in e1 <==> name in e2) && (name in e1 ==> e1[name].farm == e2[name].farm)
    ensures FarmEngine(loaded, e1, roof) == FarmEngine(loaded, e2, roof)
  {
  }

  /** Registering more engines never changes how a roof that already
      resolves is resolved. */
  lemma RegisterPreservesResolution<W>(loaded: Config.Ini, engines: Engines<W>, name: string, farm: Option<string -> Result<W>>, roof: string)
    requires RegisterEngine(engines, name, farm).Ok?
    requires Config.GetValue(loaded, roof, "engine") in engines
    ensures FarmEngine(loaded, RegisterEngine(engines, name, farm).value, roof) == FarmEngine(loaded, engines, roof)
  {
  }

  /** A roof without an `engine` key of its own is resolved with the loaded
      `common` value, and without that with the default "s3": it is not an
      error by itself. */
  lemma FarmEngineInheritsEngine<W>(loaded: Config.Ini, engines: Engines<W>, roof: string)
    requires "engine" !in Config.SectionOf(loaded, roof)
    ensures "engine" in Config.SectionOf(loaded, Config.CommonSection) ==>
      Config.GetValue(loaded, roof, "engine") == Config.Unquote(loaded[Config.CommonSection]["engine"])
    ensures "engine" !in Config.SectionOf(loaded, Config.CommonSection) ==>
      Config.GetValue(loaded, roof, "engine") == "s3"
    ensures "engine" !in Config.SectionOf(loaded, Config.CommonSection) && "s3" in engines ==>
      FarmEngine(loaded, engines, roof) == engines["s3"].farm(roof)
    ensures "engine" !in Config.SectionOf(loaded, Config.CommonSection) && "s3" !in engines ==>
      FarmEngine(loaded, engines, roof) == Err(Failure("invalid engine name: s3"))
  {
    assert Config.Get(loaded, roof, "engine") == None;
    if "engine" !in Config.SectionOf(loaded, Config.CommonSection) {
      assert Config.DefaultConfig[Config.CommonSection]["engine"] == "s3";
      Config.DefaultApplies(loaded, roof, "engine");
      Text.TrimNoop("s3", '"');
      assert Config.GetValue(loaded, roof, "engine") == "s3";
    } else {
      assert Config.Get(loaded, Config.CommonSection, "engine") == Some(loaded[Config.CommonSection]["engine"]);
    }
  }
}
