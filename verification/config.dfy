/** The layered configuration lookup of `config/config.go`. The INI files are
    already parsed: a configuration is a map from section name to a map from
    key to raw value, as go-ini's `File` is. The loaded file is an explicit
    argument instead of the package global; the built-in defaults are a
    constant. */
module Config {
  import opened Results
  import Text
  import Base

  type Section = map<string, string>

  type Ini = map<string, Section>

  const CommonSection: string := "common"

  /** The built-in defaults as go-ini reads them: one `common` section; the
      `;meta_table_suffix` line is a comment and absent. */
  const DefaultConfig: Ini := map[CommonSection := map[
    "meta_dsn" := "postgres://imsto@localhost/imsto?sslmode=disable",
    "engine" := "s3",
    "bucket_name" := "imsto-demo",
    "max_quality" := "88",
    "max_file_size" := "262114",
    "max_width" := "1600",
    "max_height" := "1600",
    "min_width" := "50",
    "min_height" := "50",
    "thumb_path" := "/thumb",
    "thumb_root" := "/opt/imsto/cache/thumb/",
    "temp_root" := "/tmp/",
    "support_size" := "120,160,400",
    "ticket_table" := "upload_ticket",
    "watermark" := "watermark.png",
    "watermark_opacity" := "20",
    "copyright" := "imsto.net"
  ]]

  /** go-ini's `File.Get(section, name)`. */
  function Get(ini: Ini, section: string, name: string): Option<string> {
    if section in ini && name in ini[section] then Some(ini[section][name]) else None
  }

  /** A section of `ini`, empty when absent. */
  function SectionOf(ini: Ini, section: string): Section {
    if section in ini then ini[section] else map[]
  }

  /** Reference view of the fallback policy: the default `common` section,
      overridden by the loaded `common`, overridden by the loaded section. */
  function Layered(loaded: Ini, section: string): Section {
    SectionOf(DefaultConfig, CommonSection) + SectionOf(loaded, CommonSection) + SectionOf(loaded, section)
  }

  /** `strings.Trim(s, "\"")`. */
  function Unquote(s: string): string {
    Text.Trim(s, '"')
  }

  /** `GetValue(section, name)`: the first hit among the loaded section, the
      loaded `common` section and the default `common` section, with its
      surrounding quote characters removed; the empty string when none has
      the key. */
  function GetValue(loaded: Ini, section: string, name: string): (r: string)
    ensures |r| > 0 ==> r[0] != '"' && r[|r| - 1] != '"'
  {
    match Get(loaded, section, name)
    case Some(s) => Unquote(s)
    case None =>
      match Get(loaded, CommonSection, name)
      case Some(s) => Unquote(s)
      case None =>
        match Get(DefaultConfig, CommonSection, name)
        case Some(s) => Unquote(s)
        case None => ""
  }

  /** GetValue reads the merged view: the value the most specific layer
      gives, unquoted, or "" when no layer has the key. */
  lemma GetValueIsLayered(loaded: Ini, section: string, name: string)
    ensures name !in Layered(loaded, section) ==> GetValue(loaded, section, name) == ""
    ensures name in Layered(loaded, section) ==>
      GetValue(loaded, section, name) == Unquote(Layered(loaded, section)[name])
  {
    var d, c, sec := SectionOf(DefaultConfig, CommonSection), SectionOf(loaded, CommonSection), SectionOf(loaded, section);
    var m := Layered(loaded, section);
    if name in sec {
      assert Get(loaded, section, name) == Some(sec[name]);
      assert m[name] == sec[name];
    } else if name in c {
      assert Get(loaded, CommonSection, name) == Some(c[name]);
      assert m[name] == c[name];
    } else if name in d {
      assert m[name] == d[name];
    } else {
      assert name !in m;
    }
  }

  /** A section that has no key of its own reads exactly what `common` reads. */
  lemma InheritsCommon(loaded: Ini, section: string, name: string)
    requires name !in SectionOf(loaded, section)
    ensures GetValue(loaded, section, name) == GetValue(loaded, CommonSection, name)
  {
  }

  /** Quote stripping is idempotent: a value read back is already stripped. */
  lemma UnquoteIdempotent(s: string)
    ensures Unquote(Unquote(s)) == Unquote(s)
  {
    var t := Unquote(s);
    assert Text.TrimLeft(t, '"') == t;
    assert Text.TrimRight(t, '"') == t;
  }

  const MinInt64: int := -0x8000_0000_0000_0000
  const MaxInt64: int := 0x7fff_ffff_ffff_ffff

  /** Whether `s` starts with a sign character. */
  predicate Signed(s: string) {
    |s| > 0 && (s[0] == '-' || s[0] == '+')
  }

  /** The digits of `s` after an optional sign. */
  function DigitsOf(s: string): string {
    if Signed(s) then s[1..] else s
  }

  /** The number `s` spells: its digits' value, negated after a minus sign. */
  function SignedValue(s: string): int
    requires Base.Valid(DigitsOf(s), 10)
  {
    var m: int := Base.Value(DigitsOf(s), 10);
    if Signed(s) && s[0] == '-' then -m else m
  }

  /** `strconv.ParseInt(s, 10, 64)` with its error folded into `None`: an
      optional sign, then one or more decimal digits, within 64 bits. */
  function ParseInt(s: string): (r: Option<int>)
    ensures r.Some? <==> (Base.Valid(DigitsOf(s), 10) && MinInt64 <= SignedValue(s) <= MaxInt64)
    ensures r.Some? ==> r.value == SignedValue(s) && MinInt64 <= r.value <= MaxInt64
  {
    if !Base.Valid(DigitsOf(s), 10) then None
    else
      var v := SignedValue(s);
      if MinInt64 <= v <= MaxInt64 then Some(v) else None
  }

  /** strconv's base-10 syntax: a plus sign and leading zeros are accepted,
      and "-0" is zero. */
  lemma ParseIntAccepts()
    ensures ParseInt("+5") == Some(5)
    ensures ParseInt("007") == Some(7)
    ensures ParseInt("-0") == Some(0)
  {
    assert DigitsOf("+5") == "5" && "5"[..0] == [];
    assert "007"[..2] == "00" && "00"[..1] == "0" && "0"[..0] == [];
    assert DigitsOf("-0") == "0";
  }

  /** ... and an empty string, a lone sign, a space or an underscore are not. */
  lemma ParseIntRejects()
    ensures ParseInt("") == None
    ensures ParseInt("-") == None
    ensures ParseInt(" 1") == None
    ensures ParseInt("1_0") == None
  {
    assert DigitsOf("-") == [];
    assert !Base.AllDigits(" 1", 10) by { assert Base.DigitValue(" 1"[0]) == -1; }
    assert !Base.AllDigits("1_0", 10) by { assert Base.DigitValue("1_0"[1]) == -1; }
  }

  /** Decimal spelling of an integer, as `strconv.Itoa` writes it. */
  function FormatInt(n: int): string {
    (if n < 0 then "-" else "") + Base.Format(if n < 0 then -n else n, 10)
  }

  /** Every 64-bit integer written in decimal parses back to itself. */
  lemma ParseFormatInt(n: int)
    requires MinInt64 <= n <= MaxInt64
    ensures ParseInt(FormatInt(n)) == Some(n)
  {
    var m := if n < 0 then -n else n;
    var f := Base.Format(m, 10);
    Base.FormatCanonical(m, 10);
    Base.FormatValue(m, 10);
    var s := FormatInt(n);
    if n < 0 {
      assert s == ['-'] + f;
      assert Signed(s) && s[0] == '-';
      assert DigitsOf(s) == f;
    } else {
      assert s == f;
      assert Base.IsLowerDigit(s[0]);
      assert !Signed(s);
    }
    assert SignedValue(s) == n;
  }

  /** `GetInt(section, name)`: the decimal value of `GetValue`, or 0 when that
      is not a 64-bit decimal integer (a missing key reads as ""). */
  function GetInt(loaded: Ini, section: string, name: string): (r: int)
    ensures MinInt64 <= r <= MaxInt64
    ensures ParseInt(GetValue(loaded, section, name)).None? ==> r == 0
    ensures ParseInt(GetValue(loaded, section, name)).Some? ==> r == ParseInt(GetValue(loaded, section, name)).value
    ensures name !in Layered(loaded, section) ==> r == 0
  {
    match ParseInt(GetValue(loaded, section, name))
    case Some(i) => i
    case None => 0
  }

  /** A value written as a decimal integer is read back by GetInt. */
  lemma GetIntReadsFormatted(loaded: Ini, section: string, name: string, n: int)
    requires MinInt64 <= n <= MaxInt64
    requires GetValue(loaded, section, name) == FormatInt(n)
    ensures GetInt(loaded, section, name) == n
  {
    ParseFormatInt(n);
  }

  /** A key no loaded layer has is read from the defaults. */
  lemma DefaultApplies(loaded: Ini, section: string, name: string)
    requires name !in SectionOf(loaded, section) && name !in SectionOf(loaded, CommonSection)
    requires name in DefaultConfig[CommonSection]
    ensures GetValue(loaded, section, name) == Unquote(DefaultConfig[CommonSection][name])
  {
  }

  /** With no loaded override, `thumb_path` reads "/thumb", as the
      package's tests expect. */
  lemma DefaultThumbPath(loaded: Ini, section: string)
    requires "thumb_path" !in SectionOf(loaded, section) && "thumb_path" !in SectionOf(loaded, CommonSection)
    ensures GetValue(loaded, section, "thumb_path") == "/thumb"
  {
    assert DefaultConfig[CommonSection]["thumb_path"] == "/thumb";
    DefaultApplies(loaded, section, "thumb_path");
    Text.TrimNoop("/thumb", '"');
  }

  /** The default `max_quality` text is the integer 88. */
  lemma ParseEightyEight()
    ensures ParseInt("88") == Some(88)
  {
    assert "88"[..1] == "8" && "8"[..0] == "";
  }

  /** With no loaded override, `max_quality` reads 88, as the package's
      tests expect. */
  lemma DefaultMaxQuality(loaded: Ini, section: string)
    requires "max_quality" !in SectionOf(loaded, section) && "max_quality" !in SectionOf(loaded, CommonSection)
    ensures GetInt(loaded, section, "max_quality") == 88
  {
    assert DefaultConfig[CommonSection]["max_quality"] == "88";
    DefaultApplies(loaded, section, "max_quality");
    Text.TrimNoop("88", '"');
    ParseEightyEight();
  }

  /** `GetSection(sname)`: the loaded section when it has at least one key,
      otherwise the defaults' unnamed section, which is empty. go-ini's
      `Section` inserts an empty section under a name it does not find, so
      the loaded configuration is returned too, possibly with `sname` added.
      (The same happens to the defaults' unnamed section, which nothing
      else reads.) */
  function GetSection(loaded: Ini, sname: string): (r: (Section, Ini))
    ensures sname in loaded && |loaded[sname]| > 0 ==> r.0 == loaded[sname]
    ensures !(sname in loaded && |loaded[sname]| > 0) ==> r.0 == map[]
    ensures r.1.Keys == loaded.Keys + {sname}
    ensures forall k :: k in loaded ==> r.1[k] == loaded[k]
    ensures sname !in loaded ==> r.1[sname] == map[]
  {
    if sname in loaded && |loaded[sname]| > 0 then (loaded[sname], loaded)
    else
      var loaded' := if sname in loaded then loaded else loaded[sname := map[]];
      assert loaded'.Keys == loaded.Keys + {sname};
      DefaultsUnnamedEmpty();
      (SectionOf(DefaultConfig, ""), loaded')
  }

  /** The defaults have only the `common` section. */
  lemma DefaultsUnnamedEmpty()
    ensures SectionOf(DefaultConfig, "") == map[]
  {
    assert DefaultConfig.Keys == {CommonSection};
  }

  /** After GetSection, HasSection reports the name whatever it reported
      before, while every value GetValue reads is unchanged. */
  lemma GetSectionRegistersName(loaded: Ini, sname: string, section: string, name: string)
    ensures HasSection(GetSection(loaded, sname).1, sname)
    ensures GetValue(GetSection(loaded, sname).1, section, name) == GetValue(loaded, section, name)
  {
    var l' := GetSection(loaded, sname).1;
    EmptySectionAddsNothing(loaded, l', section, name);
    EmptySectionAddsNothing(loaded, l', CommonSection, name);
    SameLookupsSameValue(loaded, l', section, name);
  }

  /** Adding empty sections changes no lookup. */
  lemma EmptySectionAddsNothing(l1: Ini, l2: Ini, section: string, name: string)
    requires l1.Keys <= l2.Keys
    requires forall k :: k in l1 ==> l2[k] == l1[k]
    requires forall k :: k in l2 && k !in l1 ==> l2[k] == map[]
    ensures Get(l2, section, name) == Get(l1, section, name)
  {
  }

  /** GetSection adds no administrable section, and every administrable
      section is one HasSection reports. */
  lemma GetSectionKeepsSections(loaded: Ini, sname: string)
    ensures Sections(GetSection(loaded, sname).1) == Sections(loaded)
    ensures forall k :: k in Sections(loaded) ==> HasSection(loaded, k)
  {
    var l' := GetSection(loaded, sname).1;
    EmptySectionsNotAdministrable(loaded, l');
  }

  /** Adding empty sections adds no administrable section. */
  lemma EmptySectionsNotAdministrable(l1: Ini, l2: Ini)
    requires l1.Keys <= l2.Keys
    requires forall k :: k in l1 ==> l2[k] == l1[k]
    requires forall k :: k in l2 && k !in l1 ==> l2[k] == map[]
    ensures Sections(l2) == Sections(l1)
  {
    forall k | k in l2
      ensures ("administrable" in l2[k]) <==> (k in l1 && "administrable" in l1[k])
    {
      if k !in l1 {
        assert l2[k] == map[];
      }
    }
  }

  /** GetValue depends on the loaded file only through its two lookups. */
  lemma SameLookupsSameValue(l1: Ini, l2: Ini, section: string, name: string)
    requires Get(l1, section, name) == Get(l2, section, name)
    requires Get(l1, CommonSection, name) == Get(l2, CommonSection, name)
    ensures GetValue(l1, section, name) == GetValue(l2, section, name)
  {
  }

  /** `HasSection(sname)`: whether the loaded file has that section, even an empty one. */
  function HasSection(loaded: Ini, sname: string): (r: bool)
    ensures r <==> sname in loaded.Keys
  {
    sname in loaded
  }

  /** A section's display label: its `label` key, else its name upper-cased. */
  function Label(sec: Section, name: string): (r: string)
    ensures "label" in sec ==> r == sec["label"]
    ensures "label" !in sec ==> |r| == |name| && forall i :: 0 <= i < |name| ==> r[i] == Text.ToTitleChar(name[i])
  {
    if "label" in sec then sec["label"] else Text.ToTitle(name)
  }

  /** `Sections()`: the administrable sections, each with its label. */
  function Sections(loaded: Ini): (r: map<string, string>)
    ensures forall k :: k in r <==> k in loaded && k != CommonSection && "administrable" in loaded[k]
    ensures forall k :: k in r ==> r[k] == Label(loaded[k], k)
    ensures CommonSection !in r
  {
    map k | k in loaded && k != CommonSection && "administrable" in loaded[k] :: Label(loaded[k], k)
  }

  /** The thumbnail key a section registers: its `thumb_path` with one
      leading slash removed. */
  function ThumbKey(loaded: Ini, sec: string): (r: string)
    ensures "/" <= GetValue(loaded, sec, "thumb_path") ==> GetValue(loaded, sec, "thumb_path") == "/" + r
    ensures !("/" <= GetValue(loaded, sec, "thumb_path")) ==> r == GetValue(loaded, sec, "thumb_path")
  {
    Text.TrimPrefix(GetValue(loaded, sec, "thumb_path"), "/")
  }

  /** `order` lists the keys of `m`, each exactly once (Go's map iteration). */
  predicate Enumerates(order: seq<string>, m: map<string, string>) {
    && (forall i :: 0 <= i < |order| ==> order[i] in m)
    && (forall k :: k in m ==> k in order)
    && (forall i, j :: 0 <= i < j < |order| ==> order[i] != order[j])
  }

  /** The thumbnail keys of the sections in `order`, position by position. */
  function ThumbKeys(loaded: Ini, order: seq<string>): (ks: seq<string>)
    ensures |ks| == |order|
    ensures forall i :: 0 <= i < |order| ==> ks[i] == ThumbKey(loaded, order[i])
  {
    seq(|order|, i requires 0 <= i < |order| => ThumbKey(loaded, order[i]))
  }

  /** No two of `ks` are equal, and none is taken in `roofs` already. */
  predicate NoClash(ks: seq<string>, roofs: map<string, string>) {
    && (forall i :: 0 <= i < |ks| ==> ks[i] !in roofs)
    && (forall i, j :: 0 <= i < j < |ks| ==> ks[i] != ks[j])
  }

  function DuplicateError(thumbPath: string): Error {
    Failure("duplicate 'thumb_path=" + thumbPath + "' in config")
  }

  /** Position `i` holds the first key of `ks` that clashes: the keys
      before it neither repeat nor are in `roofs`, and with it they do. */
  predicate FirstClash(ks: seq<string>, roofs: map<string, string>, i: nat) {
    i < |ks| && NoClash(ks[..i], roofs) && !NoClash(ks[..i + 1], roofs)
  }

  /** The keys of `ks` before position `n`. */
  function KeysBefore(ks: seq<string>, n: nat): set<string>
    requires n <= |ks|
  {
    set i | 0 <= i < n :: ks[i]
  }

  /** A batch has at most one first clash, and has one exactly when it clashes. */
  lemma FirstClashUnique(ks: seq<string>, roofs: map<string, string>, i: nat, j: nat)
    requires FirstClash(ks, roofs, i) && FirstClash(ks, roofs, j)
    ensures i == j
  {
    if i < j {
      ClashExtends(ks, roofs, i + 1, j);
    } else if j < i {
      ClashExtends(ks, roofs, j + 1, i);
    }
  }

  /** Once a prefix of a batch clashes, every longer prefix does. */
  lemma ClashExtends(ks: seq<string>, roofs: map<string, string>, n: nat, m: nat)
    requires n <= m <= |ks| && !NoClash(ks[..n], roofs)
    ensures !NoClash(ks[..m], roofs)
  {
    assert ks[..m][..n] == ks[..n];
    if NoClash(ks[..m], roofs) {
      NoClashPrefix(ks[..m], roofs, n);
    }
  }

  /** A prefix of a batch without clashes has none either. */
  lemma NoClashPrefix(ks: seq<string>, roofs: map<string, string>, n: nat)
    requires n <= |ks| && NoClash(ks, roofs)
    ensures NoClash(ks[..n], roofs)
  {
  }

  /** The loop of `loadThumbRoofs`, apart from the config: adds `vals[i]`
      under `keys[i]` for i = 0, 1, ... and stops at the first key the table
      already has, reporting its position. Entries made before that stay. */
  method InsertFresh(keys: seq<string>, vals: seq<string>, table: map<string, string>)
    returns (table': map<string, string>, clash: Option<nat>)
    requires |keys| == |vals|
    ensures clash.None? <==> NoClash(keys, table)
    ensures clash.Some? ==> FirstClash(keys, table, clash.value)
    ensures var n := if clash.Some? then clash.value else |keys|;
      && n <= |keys|
      && table'.Keys == table.Keys + KeysBefore(keys, n)
      && (forall i :: 0 <= i < n ==> table'[keys[i]] == vals[i])
    ensures forall k :: k in table ==> k in table' && table'[k] == table[k]
  {
    table' := table;
    var n := 0;
    while n < |keys|
      invariant 0 <= n <= |keys|
      invariant NoClash(keys[..n], table)
      invariant forall k :: k in table ==> k in table' && table'[k] == table[k]
      invariant forall i :: 0 <= i < n ==> keys[i] in table' && table'[keys[i]] == vals[i]
      invariant table'.Keys == table.Keys + KeysBefore(keys, n)
    {
      var k := keys[n];
      if k in table' {
        var ks := keys[..n + 1];
        assert ks[n] == k;
        if k !in table {
          var i :| 0 <= i < n && keys[i] == k;
          assert ks[i] == ks[n];
        }
        assert !NoClash(ks, table);
        if NoClash(keys, table) {
          NoClashPrefix(keys, table, n + 1);
        }
        return table', Some(n);
      }
      table' := table'[k := vals[n]];
      assert keys[..n + 1] == keys[..n] + [k];
      assert KeysBefore(keys, n + 1) == KeysBefore(keys, n) + {k};
      n := n + 1;
    }
    assert keys[..n] == keys;
    return table', None;
  }

  /** `loadThumbRoofs`: registers every administrable section under its
      thumbnail key in `roofs` (the package's thumbRoofs table), visiting the
      sections in `order`, and fails on the first key already present,
      naming that section's `thumb_path`; the sections visited before it
      stay registered. */
  method LoadThumbRoofs(loaded: Ini, order: seq<string>, roofs: map<string, string>)
    returns (roofs': map<string, string>, err: Option<Error>)
    requires Enumerates(order, Sections(loaded))
    ensures err.None? <==> NoClash(ThumbKeys(loaded, order), roofs)
    ensures err.None? ==> forall i :: 0 <= i < |order| ==>
      ThumbKey(loaded, order[i]) in roofs' && roofs'[ThumbKey(loaded, order[i])] == order[i]
    ensures err.None? ==> roofs'.Keys == roofs.Keys + KeysBefore(ThumbKeys(loaded, order), |order|)
    ensures forall k :: k in roofs ==> k in roofs' && roofs'[k] == roofs[k]
    ensures err.Some? ==> exists i ::
      && 0 <= i < |order|
      && FirstClash(ThumbKeys(loaded, order), roofs, i)
      && err.value == DuplicateError(GetValue(loaded, order[i], "thumb_path"))
      && roofs'.Keys == roofs.Keys + KeysBefore(ThumbKeys(loaded, order), i)
      && (forall j :: 0 <= j < i ==> roofs'[ThumbKeys(loaded, order)[j]] == order[j])
  {
    var keys := ThumbKeys(loaded, order);
    var clash;
    roofs', clash := InsertFresh(keys, order, roofs);
    if clash.Some? {
      var i := clash.value;
      err := Some(DuplicateError(GetValue(loaded, order[i], "thumb_path")));
      assert FirstClash(keys, roofs, i) && roofs'.Keys == roofs.Keys + KeysBefore(keys, i);
      return roofs', err;
    }
    return roofs', None;
  }

  /** Two administrable sections that both inherit `thumb_path` always make
      `loadThumbRoofs` fail, whatever the iteration order. */
  lemma InheritedThumbPathsCollide(loaded: Ini, order: seq<string>, roofs: map<string, string>, a: string, b: string)
    requires Enumerates(order, Sections(loaded))
    requires a in Sections(loaded) && b in Sections(loaded) && a != b
    requires "thumb_path" !in loaded[a] && "thumb_path" !in loaded[b]
    ensures !NoClash(ThumbKeys(loaded, order), roofs)
  {
    var i, j := CollidingPositions(loaded, order, a, b);
    RepeatedKeyClashes(ThumbKeys(loaded, order), roofs, i, j);
  }

  /** Two positions of the enumeration whose sections share a thumbnail key. */
  lemma CollidingPositions(loaded: Ini, order: seq<string>, a: string, b: string) returns (i: nat, j: nat)
    requires Enumerates(order, Sections(loaded))
    requires a in Sections(loaded) && b in Sections(loaded) && a != b
    requires "thumb_path" !in loaded[a] && "thumb_path" !in loaded[b]
    ensures i < j < |order| && ThumbKeys(loaded, order)[i] == ThumbKeys(loaded, order)[j]
  {
    var p := PositionOf(order, Sections(loaded), a);
    var q := PositionOf(order, Sections(loaded), b);
    assert a in loaded && b in loaded;
    SameThumbKey(loaded, a, b);
    var ks := ThumbKeys(loaded, order);
    assert ks[p] == ThumbKey(loaded, a);
    assert ks[q] == ThumbKey(loaded, b);
    if p < q {
      i, j := p, q;
    } else {
      i, j := q, p;
    }
  }

  /** Where an enumeration lists a key. */
  lemma PositionOf(order: seq<string>, m: map<string, string>, k: string) returns (i: nat)
    requires Enumerates(order, m) && k in m
    ensures i < |order| && order[i] == k
  {
    assert k in order;
    i :| 0 <= i < |order| && order[i] == k;
  }

  /** A key that occurs twice in a batch makes the batch clash. */
  lemma RepeatedKeyClashes(ks: seq<string>, roofs: map<string, string>, i: nat, j: nat)
    requires i < j < |ks| && ks[i] == ks[j]
    ensures !NoClash(ks, roofs)
  {
  }

  /** Two sections that both inherit `thumb_path` register the same key. */
  lemma SameThumbKey(loaded: Ini, a: string, b: string)
    requires "thumb_path" !in SectionOf(loaded, a) && "thumb_path" !in SectionOf(loaded, b)
    ensures ThumbKey(loaded, a) == ThumbKey(loaded, b)
  {
    InheritsCommon(loaded, a, "thumb_path");
    InheritsCommon(loaded, b, "thumb_path");
  }

  /** `ThumbRoof(s)`: the section registered under `s` with every leading
      and trailing slash removed, or "" when none is. */
  function ThumbRoof(roofs: map<string, string>, s: string): (r: string)
    ensures r == "" || r in roofs.Values
    ensures Text.Trim(s, '/') !in roofs ==> r == ""
    ensures Text.Trim(s, '/') in roofs ==> r == roofs[Text.Trim(s, '/')]
  {
    var tp := Text.Trim(s, '/');
    if tp in roofs then roofs[tp] else ""
  }

  /** A key without surrounding slashes is found as it is. */
  lemma ThumbRoofFindsKey(roofs: map<string, string>, k: string)
    requires k in roofs
    requires |k| == 0 || (k[0] != '/' && k[|k| - 1] != '/')
    ensures ThumbRoof(roofs, k) == roofs[k]
  {
    Text.TrimNoop(k, '/');
  }

  /** ... and with one slash on either side. */
  lemma ThumbRoofFindsSlashedKey(roofs: map<string, string>, k: string)
    requires k in roofs
    requires |k| == 0 || (k[0] != '/' && k[|k| - 1] != '/')
    ensures ThumbRoof(roofs, "/" + k + "/") == roofs[k]
  {
    Text.TrimSurrounded(k, '/');
  }

  /** After loadThumbRoofs has registered a section under its thumbnail key,
      ThumbRoof maps that section's own `thumb_path` back to it, provided
      the key has no slash at either end. */
  lemma ThumbPathFindsItsSection(loaded: Ini, roofs: map<string, string>, sec: string)
    requires ThumbKey(loaded, sec) in roofs && roofs[ThumbKey(loaded, sec)] == sec
    requires var k := ThumbKey(loaded, sec); |k| == 0 || (k[0] != '/' && k[|k| - 1] != '/')
    ensures ThumbRoof(roofs, GetValue(loaded, sec, "thumb_path")) == sec
  {
    var tp := GetValue(loaded, sec, "thumb_path");
    var k := ThumbKey(loaded, sec);
    if "/" <= tp {
      assert tp == ['/'] + k;
      Text.TrimOneLeading(k, '/');
    } else {
      Text.TrimNoop(k, '/');
    }
  }

  /** A key that ends in a slash is never reached by ThumbRoof, although
      loadThumbRoofs registers such keys for a `thumb_path` ending in `/`. */
  lemma TrailingSlashKeyUnreachable(roofs: map<string, string>, k: string, s: string)
    requires |k| > 0 && k[|k| - 1] == '/'
    ensures Text.Trim(s, '/') != k
  {
  }
}
