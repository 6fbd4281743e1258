/** The Proxmox import helper: disk sizes read as byte counts, fields read
    out of Proxmox `key=value,...` option strings, the largest-disk and tag
    choices that fill a Terraform host block, and the edit that inserts the
    block before the closing bracket of the `.auto.tfvars` host list. */
module ImportProxmox {
  import opened Wrappers
  import opened Text
  import opened Json

  // ---------------------------------------------------------------------
  // Disk sizes

  /** The binary multipliers, 1024 to the first, second, third and fourth power. */
  const KiB: nat := 1024
  const MiB: nat := 1048576
  const GiB: nat := 1073741824
  const TiB: nat := 1099511627776

  lemma BinaryMultipliers()
    ensures MiB == 1024 * KiB && GiB == 1024 * MiB && TiB == 1024 * GiB
  {
  }

  /** The binary multiplier of an (upper-case) unit letter. */
  function UnitOf(c: char): (r: Option<nat>)
    ensures r.Some? ==> r.value >= KiB
  {
    if c == 'T' then Some(TiB)
    else if c == 'G' then Some(GiB)
    else if c == 'M' then Some(MiB)
    else if c == 'K' then Some(KiB)
    else None
  }

  /** `int(float(m))` for an optionally signed run of ASCII digits with
      whitespace around it; `None` where the model reads no number. */
  function Mantissa(m: string): Option<int> {
    var t := Strip(m);
    var signed := |t| > 0 && (t[0] == '+' || t[0] == '-');
    var digits := if signed then t[1..] else t;
    if |digits| > 0 && AllDigits(digits) then
      Some(if signed && t[0] == '-' then -(DecimalValue(digits) as int) else DecimalValue(digits))
    else None
  }

  /** The digits and the sign of a read mantissa are characters of its text. */
  lemma MantissaChars(m: string)
    requires Mantissa(m).Some?
    ensures Mantissa(m).value != 0 ==> exists c :: c in m && IsDigit(c)
    ensures Mantissa(m).value < 0 ==> '-' in m
  {
    var t := Strip(m);
    var signed := |t| > 0 && (t[0] == '+' || t[0] == '-');
    var digits := if signed then t[1..] else t;
    assert digits[0] in t;
    StripWithin(m, digits[0]);
    if signed {
      StripWithin(m, t[0]);
    }
  }

  /** A character of the upper-cased, stripped size that is not an
      upper-case letter is a character of the size as given. */
  lemma SizeCharFrom(size: string, c: char)
    requires c in Strip(Upper(size)) && !('A' <= c <= 'Z')
    ensures c in size
  {
    StripWithin(Upper(size), c);
    UpperWithin(size, c);
  }

  /** A positive multiplier keeps the sign. */
  lemma ScaledSign(m: int, k: int)
    requires k >= 1
    ensures m * k != 0 ==> m != 0
    ensures m * k < 0 ==> m < 0
  {
    if m >= 0 {
      assert m * k >= 0;
    }
  }

  /** `parse_size_to_bytes`: 0 for the empty string; otherwise upper-case
      and strip, scale by the unit letter if there is one, and fall back to 0
      when the number does not parse. A size other than 0 comes from a
      digit of the text, and only a minus sign makes it negative. */
  function ParseSizeToBytes(size: string): (r: int)
    ensures r != 0 ==> exists c :: c in size && IsDigit(c)
    ensures r < 0 ==> '-' in size
  {
    if size == "" then 0
    else
      ScaledFromSize(size);
      Scaled(Strip(Upper(size)))
  }

  /** The number of bytes an upper-cased, stripped size names: the unit
      letter, if any, scales the number before it; 0 when that is no number. */
  function Scaled(t: string): int {
    var scale := if |t| > 0 then UnitOf(t[|t| - 1]) else None;
    var m := Mantissa(if scale.Some? then t[..|t| - 1] else t);
    if m.None? then 0 else m.value * scale.GetOr(1)
  }

  lemma ScaledFromSize(size: string)
    ensures Scaled(Strip(Upper(size))) != 0 ==> exists c :: c in size && IsDigit(c)
    ensures Scaled(Strip(Upper(size))) < 0 ==> '-' in size
  {
    var t := Strip(Upper(size));
    ScaledChars(t);
    if Scaled(t) != 0 {
      var c :| c in t && IsDigit(c);
      SizeCharFrom(size, c);
    }
    if Scaled(t) < 0 {
      SizeCharFrom(size, '-');
    }
  }

  /** A size other than 0 has a digit, and a negative one a minus sign. */
  lemma ScaledChars(t: string)
    ensures Scaled(t) != 0 ==> exists c :: c in t && IsDigit(c)
    ensures Scaled(t) < 0 ==> '-' in t
  {
    var scale := if |t| > 0 then UnitOf(t[|t| - 1]) else None;
    var x := if scale.Some? then t[..|t| - 1] else t;
    var m := Mantissa(x);
    if m.Some? {
      var k := scale.GetOr(1);
      assert Scaled(t) == m.value * k;
      MantissaChars(x);
      ScaledSign(m.value, k);
      if m.value != 0 {
        var c :| c in x && IsDigit(c);
        PrefixChar(x, t, c);
      }
      if m.value < 0 {
        PrefixChar(x, t, '-');
      }
    } else {
      assert Scaled(t) == 0;
    }
  }

  lemma PrefixChar(x: string, t: string, c: char)
    requires x <= t && c in x
    ensures c in t
  {
    var j :| 0 <= j < |x| && x[j] == c;
    assert t[j] == c;
  }

  function DigitChar(d: nat): char
    requires d < 10
  {
    ('0' as int + d) as char
  }

  /** The decimal digits of `n`, as `str(n)` writes them. */
  function DecimalString(n: nat): (r: string)
    ensures |r| >= 1 && AllDigits(r)
    decreases n
  {
    (if n < 10 then "" else DecimalString(n / 10)) + [DigitChar(n % 10)]
  }

  lemma {:induction false} DecimalRoundTrip(n: nat)
    ensures DecimalValue(DecimalString(n)) == n
    decreases n
  {
    var prefix := if n < 10 then "" else DecimalString(n / 10);
    var s := prefix + [DigitChar(n % 10)];
    assert DecimalString(n) == s;
    assert s[..|s| - 1] == prefix;
    assert s[|s| - 1] as int - '0' as int == n % 10;
    if n >= 10 {
      DecimalRoundTrip(n / 10);
    }
  }

  lemma UpperDigits(s: string, c: char)
    requires AllDigits(s)
    ensures Upper(s + [c]) == s + [UpperChar(c)]
  {
  }

  lemma MantissaOfDigits(s: string)
    requires |s| >= 1 && AllDigits(s)
    ensures Mantissa(s) == Some(DecimalValue(s) as int)
  {
    DigitPlain(s[0]);
    DigitPlain(s[|s| - 1]);
    StripFixed(s);
  }

  lemma DigitPlain(c: char)
    requires IsDigit(c)
    ensures !IsSpace(c) && c != '+' && c != '-'
  {
  }

  /** A size written as a number and a unit letter, in either case, reads
      back as the number times the unit's binary multiplier. */
  lemma SizeRoundTrip(n: nat, u: char)
    requires UnitOf(UpperChar(u)).Some?
    ensures ParseSizeToBytes(DecimalString(n) + [u]) == n * UnitOf(UpperChar(u)).value
  {
    var ds := DecimalString(n);
    var t := ds + [UpperChar(u)];
    UpperDigits(ds, u);
    StripFixed(t);
    assert t[..|t| - 1] == ds;
    MantissaOfDigits(ds);
    DecimalRoundTrip(n);
  }

  /** A plain number is a count of bytes. */
  lemma BytesRoundTrip(n: nat)
    ensures ParseSizeToBytes(DecimalString(n)) == n
  {
    var ds := DecimalString(n);
    assert forall i :: 0 <= i < |ds| ==> UpperChar(ds[i]) == ds[i];
    assert Upper(ds) == ds;
    StripFixed(ds);
    assert UnitOf(ds[|ds| - 1]).None?;
    MantissaOfDigits(ds);
    DecimalRoundTrip(n);
  }

  /** The sizes the function's documentation gives, `"100G"` and `"4M"`
      (`DecimalString(100) + "G"` is `"100G"`), and a lower-case unit. */
  lemma SizeExampleGiB()
    ensures ParseSizeToBytes(DecimalString(100) + "G") == 107374182400
  {
    SizeRoundTrip(100, 'G');
  }

  lemma SizeExampleMiB()
    ensures ParseSizeToBytes(DecimalString(4) + "M") == 4194304
  {
    SizeRoundTrip(4, 'M');
  }

  lemma SizeExampleLower()
    ensures ParseSizeToBytes(DecimalString(8) + "g") == 8589934592
  {
    SizeRoundTrip(8, 'g');
  }

  // ---------------------------------------------------------------------
  // Fields of option strings

  /** `s.split(sep)[1].split(",")[0]` behind a `sep in s` test: the text
      after the first `sep`, up to the next `sep` or `,`. */
  function Extract(s: string, sep: string): (r: Option<string>)
    ensures r.Some? <==> Contains(s, sep)
    ensures r.Some? ==> ',' !in r.value
  {
    if Contains(s, sep) then Some(TakeUntil(BeforeFirst(AfterFirst(s, sep), sep), ',')) else None
  }

  /** The field `key` of an option string, read with `key + "="`. */
  function Field(s: string, key: string): Option<string> {
    Extract(s, key + "=")
  }

  /** One setting of a Proxmox option string; a setting without a name is
      the bare leading value (`local-zfs:vm-200-disk-0`). */
  datatype Setting = Setting(name: string, value: string)

  function RenderSetting(e: Setting): string {
    if e.name == "" then e.value else e.name + "=" + e.value
  }

  /** The settings joined with `,`, as Proxmox writes `net0`, `rootfs` or `scsi0`. */
  function OptionString(settings: seq<Setting>): string
    decreases |settings|
  {
    if |settings| == 0 then ""
    else if |settings| == 1 then RenderSetting(settings[0])
    else RenderSetting(settings[0]) + "," + OptionString(settings[1..])
  }

  predicate Plain(w: string) {
    ',' !in w && '=' !in w
  }

  predicate PlainSettings(settings: seq<Setting>)
    decreases |settings|
  {
    |settings| == 0
    || (Plain(settings[0].name) && Plain(settings[0].value) && PlainSettings(settings[1..]))
  }

  /** A substring search for `key=` stops at a named setting whose name ends in `key`. */
  predicate Matches(e: Setting, key: string) {
    e.name != "" && EndsWith(e.name, key)
  }

  /** The value of the first setting that `key=` finds. */
  function FirstMatch(settings: seq<Setting>, key: string): Option<string>
    decreases |settings|
  {
    if |settings| == 0 then None
    else if Matches(settings[0], key) then Some(settings[0].value)
    else FirstMatch(settings[1..], key)
  }

  lemma FindAt(s: string, sep: string, p: nat)
    requires OccursAt(s, sep, p)
    requires forall j :: 0 <= j < p ==> !OccursAt(s, sep, j)
    ensures Find(s, sep) == Some(p)
  {
  }

  lemma OccursShifted(a: string, t: string, sep: string, q: nat)
    ensures OccursAt(a + t, sep, |a| + q) <==> OccursAt(t, sep, q)
  {
    if q + |sep| <= |t| {
      assert (a + t)[|a| + q..|a| + q + |sep|] == t[q..q + |sep|];
    }
  }

  lemma FindNone(s: string, sep: string)
    requires forall j :: 0 <= j ==> !OccursAt(s, sep, j)
    ensures Find(s, sep).None?
  {
  }

  /** With no `sep` starting inside `a`, the search skips `a`. */
  lemma FindSkips(a: string, t: string, sep: string)
    requires forall j :: 0 <= j < |a| ==> !OccursAt(a + t, sep, j)
    ensures Find(t, sep).None? ==> Find(a + t, sep).None?
    ensures Find(t, sep).Some? ==> Find(a + t, sep) == Some(|a| + Find(t, sep).value)
  {
    var s := a + t;
    var r := Find(t, sep);
    if r.None? {
      forall j | 0 <= j
        ensures !OccursAt(s, sep, j)
      {
        if j >= |a| {
          OccursShifted(a, t, sep, j - |a|);
        }
      }
      FindNone(s, sep);
    } else {
      var q := r.value;
      OccursShifted(a, t, sep, q);
      forall j | |a| <= j < |a| + q
        ensures !OccursAt(s, sep, j)
      {
        OccursShifted(a, t, sep, j - |a|);
      }
      FindAt(s, sep, |a| + q);
    }
  }

  lemma ExtractSkips(a: string, t: string, sep: string)
    requires forall j :: 0 <= j < |a| ==> !OccursAt(a + t, sep, j)
    ensures Extract(a + t, sep) == Extract(t, sep)
  {
    FindSkips(a, t, sep);
    if Contains(t, sep) {
      var q := Find(t, sep).value;
      assert Find(a + t, sep) == Some(|a| + q);
      assert (a + t)[|a| + q + |sep|..] == t[q + |sep|..];
      assert AfterFirst(a + t, sep) == AfterFirst(t, sep);
    } else {
      assert !Contains(a + t, sep);
    }
  }

  /** `TakeUntil` stops at the first comma. */
  lemma TakeUntilComma(a: string, b: string)
    requires ',' !in a
    requires b == [] || b[0] == ','
    ensures TakeUntil(a + b, ',') == a
  {
    var s := a + b;
    var r := TakeUntil(s, ',');
    assert forall i :: 0 <= i < |a| ==> s[i] == a[i] && s[i] != ',';
    assert |r| >= |a|;
    assert b != [] ==> s[|a|] == ',';
    assert |r| == |a|;
  }

  /** `key=` cannot start inside a plain value followed by a comma or the end. */
  lemma NoSepInValue(v: string, tail: string, key: string, j: nat)
    requires Plain(v) && Plain(key)
    requires tail == [] || tail[0] == ','
    requires j <= |v|
    ensures !OccursAt(v + tail, key + "=", j)
  {
    var s, sep := v + tail, key + "=";
    var m := j + |key|;
    assert sep[|key|] == '=';
    if j + |sep| <= |s| {
      if m < |v| {
        assert s[j..j + |sep|][|key|] == v[m] && v[m] in v;
      } else if m == |v| {
        assert s[j..j + |sep|][|key|] == tail[0];
      } else {
        assert s[j..j + |sep|][|v| - j] == tail[0];
        assert sep[|v| - j] == key[|v| - j] && key[|v| - j] in key;
      }
    }
  }

  /** `key=` starts inside a named setting only where the name ends in `key`. */
  lemma NoSepInNamed(k: string, v: string, tail: string, key: string, j: nat)
    requires Plain(k) && Plain(v) && Plain(key)
    requires tail == [] || tail[0] == ','
    requires j <= |k| + 1 + |v|
    requires j != |k| - |key| || !EndsWith(k, key)
    ensures !OccursAt(k + "=" + v + tail, key + "=", j)
  {
    var s, sep := k + "=" + v + tail, key + "=";
    var m := j + |key|;
    assert sep[|key|] == '=';
    if j > |k| {
      assert s == (k + "=") + (v + tail);
      OccursShifted(k + "=", v + tail, sep, j - |k| - 1);
      NoSepInValue(v, tail, key, j - |k| - 1);
    } else if j + |sep| <= |s| {
      if m < |k| {
        assert s[j..j + |sep|][|key|] == k[m] && k[m] in k;
      } else if m == |k| {
        assert s[j..m] == k[j..];
        assert s[j..j + |sep|][..|key|] == s[j..m];
      } else {
        assert s[j..j + |sep|][|k| - j] == s[|k|] == '=';
        assert sep[|k| - j] == key[|k| - j] && key[|k| - j] in key;
      }
    }
  }

  /** A named setting whose name ends in `key` is where `key=` is found. */
  lemma FieldOfMatch(k: string, v: string, tail: string, key: string)
    requires Plain(k) && Plain(v) && Plain(key) && EndsWith(k, key)
    requires tail == [] || tail[0] == ','
    ensures Field(k + "=" + v + tail, key) == Some(v)
  {
    AfterNamed(k, v, tail, key);
    ValueUpToNext(v, tail, key);
  }

  /** The first `key=` in a `k=v…` setting whose name ends in `key` is the
      one right after the name. */
  lemma AfterNamed(k: string, v: string, tail: string, key: string)
    requires Plain(k) && Plain(v) && Plain(key) && EndsWith(k, key)
    requires tail == [] || tail[0] == ','
    ensures Contains(k + "=" + v + tail, key + "=")
    ensures AfterFirst(k + "=" + v + tail, key + "=") == v + tail
  {
    var s, sep := k + "=" + v + tail, key + "=";
    var p := |k| - |key|;
    assert s[p..p + |sep|] == k[p..] + "=";
    forall j | 0 <= j < p
      ensures !OccursAt(s, sep, j)
    {
      NoSepInNamed(k, v, tail, key, j);
    }
    FindAt(s, sep, p);
  }

  /** A plain value followed by nothing or by `,` is read up to that comma. */
  lemma ValueUpToNext(v: string, tail: string, key: string)
    requires Plain(v) && Plain(key)
    requires tail == [] || tail[0] == ','
    ensures TakeUntil(BeforeFirst(v + tail, key + "="), ',') == v
  {
    var sep := key + "=";
    var after := v + tail;
    forall j | 0 <= j <= |v|
      ensures !OccursAt(after, sep, j)
    {
      NoSepInValue(v, tail, key, j);
    }
    var r := Find(after, sep);
    if r.None? {
      TakeUntilComma(v, tail);
    } else {
      var q := r.value;
      assert after[..q] == v + tail[..q - |v|];
      TakeUntilComma(v, tail[..q - |v|]);
    }
  }

  /** `key=` does not start inside a setting it does not match. */
  lemma NoSepInSetting(e: Setting, tail: string, key: string, j: nat)
    requires Plain(e.name) && Plain(e.value) && Plain(key) && !Matches(e, key)
    requires tail == [] || tail[0] == ','
    requires j <= |RenderSetting(e)|
    ensures !OccursAt(RenderSetting(e) + tail, key + "=", j)
  {
    if e.name == "" {
      NoSepInValue(e.value, tail, key, j);
    } else {
      NoSepInNamed(e.name, e.value, tail, key, j);
    }
  }

  /** A last setting that does not match leaves the field unread. */
  lemma FieldOfUnmatched(e: Setting, key: string)
    requires Plain(e.name) && Plain(e.value) && Plain(key) && !Matches(e, key)
    ensures Field(RenderSetting(e), key).None?
  {
    var s := RenderSetting(e);
    forall j | 0 <= j
      ensures !OccursAt(s, key + "=", j)
    {
      if j <= |s| {
        NoSepInSetting(e, "", key, j);
        assert s + "" == s;
      }
    }
    FindNone(s, key + "=");
  }

  /** A leading setting that does not match is skipped. */
  lemma FieldSkipsSetting(e: Setting, rest: string, key: string)
    requires Plain(e.name) && Plain(e.value) && Plain(key) && !Matches(e, key)
    ensures Field(RenderSetting(e) + "," + rest, key) == Field(rest, key)
  {
    var a := RenderSetting(e) + ",";
    assert RenderSetting(e) + "," + rest == a + rest;
    forall j | 0 <= j < |a|
      ensures !OccursAt(a + rest, key + "=", j)
    {
      assert a + rest == RenderSetting(e) + ("," + rest);
      NoSepInSetting(e, "," + rest, key, j);
    }
    ExtractSkips(a, rest, key + "=");
  }

  /** Reading field `key` of a well-formed option string gives the value of
      the first setting whose name ends in `key`; with `key == ""` (the MAC
      read, which searches for `=`) that is the first named setting. */
  lemma {:induction false} FieldOfOptionString(settings: seq<Setting>, key: string)
    requires Plain(key) && PlainSettings(settings)
    ensures Field(OptionString(settings), key) == FirstMatch(settings, key)
    decreases |settings|
  {
    if |settings| == 0 {
      assert !OccursAt("", key + "=", 0);
    } else {
      var e := settings[0];
      assert Plain(e.name) && Plain(e.value);
      var tail := if |settings| == 1 then "" else "," + OptionString(settings[1..]);
      assert OptionString(settings) == RenderSetting(e) + tail;
      if Matches(e, key) {
        assert RenderSetting(e) + tail == e.name + "=" + e.value + tail;
        FieldOfMatch(e.name, e.value, tail, key);
      } else if |settings| == 1 {
        FieldOfUnmatched(e, key);
      } else {
        FieldSkipsSetting(e, OptionString(settings[1..]), key);
        FieldOfOptionString(settings[1..], key);
      }
    }
  }

  // ---------------------------------------------------------------------
  // The configuration read from the Proxmox API

  /** The `data` object of the API answer, in the order Python iterates it. */
  type Config = seq<(string, Value)>

  /** `config.get(key)`: the first entry with that key. */
  function Get(config: Config, key: string): (r: Option<Value>)
    ensures r.Some? ==> exists i :: 0 <= i < |config| && config[i] == (key, r.value)
    ensures r.None? ==> forall i :: 0 <= i < |config| ==> config[i].0 != key
    decreases |config|
  {
    if |config| == 0 then None
    else if config[0].0 == key then Some(config[0].1)
    else
      var r := Get(config[1..], key);
      assert r.Some? ==> exists i :: 0 <= i < |config| && config[i] == (key, r.value) by {
        if r.Some? {
          var i :| 0 <= i < |config[1..]| && config[1..][i] == (key, r.value);
          assert config[i + 1] == (key, r.value);
        }
      }
      r
  }

  function GetOr(config: Config, key: string, default: Value): Value {
    Get(config, key).GetOr(default)
  }

  /** Python's `marker in v`: a substring test on a string, an element test
      on a list, a key test on an object; `None` where it raises, on `None`,
      booleans and numbers. */
  function HasMember(v: Value, marker: string): Option<bool> {
    match v
    case Str(s) => Some(Contains(s, marker))
    case Array(items) => Some(Str(marker) in items)
    case Object(fields) => Some(marker in fields)
    case _ => None
  }

  /** An option string read with `config.get(key, "")`, tested with
      `marker in value` for each of `markers` and split on those it holds.
      A string reads as itself. A list or object holding none of the markers
      fails every test and so reads like the empty string; one holding a
      marker reaches `.split`, which it lacks. Any other value fails the
      first test. `None` stands for the exception. */
  function OptionText(config: Config, key: string, markers: seq<string>): (r: Option<string>)
    ensures Get(config, key).None? ==> r == Some("")
    ensures r.None? <==> Get(config, key).Some? && !Get(config, key).value.Str?
                         && exists m :: m in markers && HasMember(Get(config, key).value, m) != Some(false)
  {
    match Get(config, key)
    case None => Some("")
    case Some(v) =>
      if v.Str? then Some(v.s)
      else if forall m :: m in markers ==> HasMember(v, m) == Some(false) then Some("")
      else None
  }

  /** The markers each option string is tested for. */
  const LxcNetMarkers: seq<string> := ["ip=", "gw=", "hwaddr=", "tag="]
  const RootfsMarkers: seq<string> := ["size="]
  const VmNetMarkers: seq<string> := ["=", "tag="]
  const IpconfigMarkers: seq<string> := ["ip=", "gw="]

  /** `config.get("onboot", 0) == 1`; Python's `True == 1` holds as well. */
  predicate OnBoot(config: Config) {
    var v := GetOr(config, "onboot", Int(0));
    v == Int(1) || v == Bool(true)
  }

  // ---------------------------------------------------------------------
  // Tags

  /** The stripped pieces that are not empty, in order. */
  function KeepTags(pieces: seq<string>): (r: seq<string>)
    ensures forall t :: t in r ==> t != "" && Strip(t) == t
    decreases |pieces|
  {
    if |pieces| == 0 then []
    else
      var t := Strip(pieces[0]);
      StripIdempotent(pieces[0]);
      (if t != "" then [t] else []) + KeepTags(pieces[1..])
  }

  /** A character no piece holds is in no kept tag. */
  lemma {:induction false} KeepTagsFree(pieces: seq<string>, c: char)
    requires forall k :: 0 <= k < |pieces| ==> c !in pieces[k]
    ensures forall t :: t in KeepTags(pieces) ==> c !in t
    decreases |pieces|
  {
    if |pieces| > 0 {
      if c in Strip(pieces[0]) {
        StripWithin(pieces[0], c);
      }
      KeepTagsFree(pieces[1..], c);
    }
  }

  function TagSeparator(tags: string): char {
    if ';' in tags then ';' else ','
  }

  /** A tag as the list holds it: not empty, stripped, and free of the
      separator it was split on. */
  predicate ReadTag(t: string, sep: char) {
    t != "" && Strip(t) == t && sep !in t
  }

  /** `[t.strip() for t in tags.split(separator) if t.strip()]`: every tag
      read is clean, and `;` separates whenever the text holds one. */
  function TagList(tags: string): (r: seq<string>)
    ensures forall t :: t in r ==> ReadTag(t, TagSeparator(tags))
    ensures ';' in tags ==> forall t :: t in r ==> ';' !in t
  {
    KeepTagsFree(Split(tags, TagSeparator(tags)), TagSeparator(tags));
    KeepTags(Split(tags, TagSeparator(tags)))
  }

  /** The tag list of the host block: empty for a missing or false value,
      `None` for a true value that is not a string, where `in` or `split`
      raises; every tag listed is clean. */
  function TagsOf(config: Config): (r: Option<seq<string>>)
    ensures r.None? <==> Truthy(GetOr(config, "tags", Str(""))) && !GetOr(config, "tags", Str("")).Str?
    ensures r.Some? ==> forall t :: t in r.value ==> t != "" && Strip(t) == t
  {
    var v := GetOr(config, "tags", Str(""));
    if !Truthy(v) then Some([])
    else if v.Str? then Some(TagList(v.s))
    else None
  }

  /** A missing or false `tags` value gives the empty tag list (the
      `else` branch of `if tags:`). */
  lemma TagsOfFalsy(config: Config)
    requires !Truthy(GetOr(config, "tags", Str("")))
    ensures TagsOf(config) == Some([])
  {
  }

  predicate CleanTag(t: string) {
    t != "" && Strip(t) == t && ';' !in t && ',' !in t
  }

  lemma {:induction false} KeepClean(ts: seq<string>)
    requires forall i :: 0 <= i < |ts| ==> CleanTag(ts[i])
    ensures KeepTags(ts) == ts
    decreases |ts|
  {
    if |ts| > 0 {
      assert CleanTag(ts[0]);
      assert KeepTags(ts) == [ts[0]] + KeepTags(ts[1..]);
      assert forall i :: 0 <= i < |ts[1..]| ==> ts[1..][i] == ts[i + 1];
      KeepClean(ts[1..]);
      assert ts == [ts[0]] + ts[1..];
    }
  }

  lemma {:induction false} JoinFree(ts: seq<string>, sep: char, c: char)
    requires c != sep
    requires forall i :: 0 <= i < |ts| ==> c !in ts[i]
    ensures c !in Join(ts, sep)
    decreases |ts|
  {
    if |ts| > 1 {
      JoinFree(ts[1..], sep, c);
    }
  }

  /** Joining clean tags with `;`, or with `,`, and reading them back gives
      the same tags. */
  lemma TagsRoundTrip(ts: seq<string>, sep: char)
    requires sep == ';' || sep == ','
    requires forall i :: 0 <= i < |ts| ==> CleanTag(ts[i])
    ensures TagList(Join(ts, sep)) == ts
  {
    var s := Join(ts, sep);
    KeepClean(ts);
    if |ts| == 0 {
      assert Split(s, ',') == [""];
    } else {
      var used := TagSeparator(s);
      if sep == ';' && |ts| >= 2 {
        assert s[|ts[0]|] == ';';
        assert used == ';';
      } else if sep == ',' {
        JoinFree(ts, ',', ';');
        assert used == ',';
      } else {
        assert s == ts[0];
        assert used == ',';
        SplitNone(s, ',');
        assert Split(s, used) == ts;
      }
      if used == sep {
        SplitJoin(ts, sep);
      }
    }
  }

  // ---------------------------------------------------------------------
  // Host blocks

  /** The fields of the LXC block `generate_lxc_hcl` writes. An empty `gw`,
      `mac` or `tag` means that line is left out. The constant lines
      (`unprivileged`, `preserve_ssh_key`, `nesting`) are not fields. */
  datatype LxcBlock = LxcBlock(
    hostname: string, vmid: string, ip: string, gw: string, mac: string,
    cores: Value, memory: Value, swap: Value, diskSize: string,
    start: bool, onboot: bool, tag: string, tags: seq<string>)

  /** `generate_lxc_hcl`. The script's `ip_part != "dhcp"` test does not
      change the result: a read `dhcp` leaves `ip` at `dhcp` either way. */
  function GenerateLxc(config: Config, vmid: string, hostname: string): (r: Option<LxcBlock>)
    ensures r.None? <==> OptionText(config, "net0", LxcNetMarkers).None? || OptionText(config, "rootfs", RootfsMarkers).None? || TagsOf(config).None?
  {
    var net0 :- OptionText(config, "net0", LxcNetMarkers);
    var rootfs :- OptionText(config, "rootfs", RootfsMarkers);
    var tags :- TagsOf(config);
    Some(LxcBlock(
      hostname, vmid,
      Field(net0, "ip").GetOr("dhcp"),
      Field(net0, "gw").GetOr(""),
      Field(net0, "hwaddr").GetOr(""),
      GetOr(config, "cores", Int(1)),
      GetOr(config, "memory", Int(512)),
      GetOr(config, "swap", Int(512)),
      Field(rootfs, "size").GetOr("8G"),
      OnBoot(config), OnBoot(config),
      Field(net0, "tag").GetOr(""),
      tags))
  }

  /** `start` and `onboot` both follow `onboot == 1`; a missing `cores`,
      `memory` or `swap` takes the container defaults 1, 512 and 512, and a
      missing `size=` the 8G disk. */
  lemma LxcDefaults(config: Config, vmid: string, hostname: string)
    requires GenerateLxc(config, vmid, hostname).Some?
    ensures var b := GenerateLxc(config, vmid, hostname).value;
      && (b.start <==> OnBoot(config)) && (b.onboot <==> OnBoot(config))
      && (Get(config, "cores").None? ==> b.cores == Int(1))
      && (Get(config, "memory").None? ==> b.memory == Int(512))
      && (Get(config, "swap").None? ==> b.swap == Int(512))
      && (!Contains(OptionText(config, "rootfs", RootfsMarkers).value, "size=") ==> b.diskSize == "8G")
      && (!Contains(OptionText(config, "net0", LxcNetMarkers).value, "ip=") ==> b.ip == "dhcp")
  {
    var net0 := OptionText(config, "net0", LxcNetMarkers).value;
    var rootfs := OptionText(config, "rootfs", RootfsMarkers).value;
    var b := GenerateLxc(config, vmid, hostname).value;
    assert b == LxcBlock(
      hostname, vmid,
      Field(net0, "ip").GetOr("dhcp"),
      Field(net0, "gw").GetOr(""),
      Field(net0, "hwaddr").GetOr(""),
      GetOr(config, "cores", Int(1)),
      GetOr(config, "memory", Int(512)),
      GetOr(config, "swap", Int(512)),
      Field(rootfs, "size").GetOr("8G"),
      OnBoot(config), OnBoot(config),
      Field(net0, "tag").GetOr(""),
      TagsOf(config).value);
    assert "ip" + "=" == "ip=" && "size" + "=" == "size=";
  }

  /** For well-formed `net0` and `rootfs` option strings, each field of the
      LXC block is the value of the setting Proxmox wrote for it. */
  lemma LxcFromSettings(config: Config, net: seq<Setting>, rootfs: seq<Setting>, vmid: string, hostname: string)
    requires PlainSettings(net) && PlainSettings(rootfs)
    requires Get(config, "net0") == Some(Str(OptionString(net)))
    requires Get(config, "rootfs") == Some(Str(OptionString(rootfs)))
    requires TagsOf(config).Some?
    ensures var r := GenerateLxc(config, vmid, hostname);
      && r.Some?
      && r.value.ip == FirstMatch(net, "ip").GetOr("dhcp")
      && r.value.gw == FirstMatch(net, "gw").GetOr("")
      && r.value.mac == FirstMatch(net, "hwaddr").GetOr("")
      && r.value.tag == FirstMatch(net, "tag").GetOr("")
      && r.value.diskSize == FirstMatch(rootfs, "size").GetOr("8G")
  {
    FieldOfOptionString(net, "ip");
    FieldOfOptionString(net, "gw");
    FieldOfOptionString(net, "hwaddr");
    FieldOfOptionString(net, "tag");
    FieldOfOptionString(rootfs, "size");
  }

  /** A list or object `net0` without any of the tested markers reads like
      an empty option string: an LXC block with `ip = "dhcp"` and no `gw`,
      `mac` or `tag` line. */
  lemma LxcContainerNet(config: Config, v: Value, vmid: string, hostname: string)
    requires Get(config, "net0") == Some(v) && (v.Array? || v.Object?)
    requires forall m :: m in LxcNetMarkers ==> HasMember(v, m) == Some(false)
    requires OptionText(config, "rootfs", RootfsMarkers).Some? && TagsOf(config).Some?
    ensures var r := GenerateLxc(config, vmid, hostname);
      && r.Some? && r.value.ip == "dhcp" && r.value.gw == "" && r.value.mac == "" && r.value.tag == ""
  {
    assert OptionText(config, "net0", LxcNetMarkers) == Some("");
  }

  // ---------------------------------------------------------------------
  // Virtual machines

  predicate IsDiskKey(key: string) {
    StartsWith(key, "scsi") || StartsWith(key, "virtio") || StartsWith(key, "sata") || StartsWith(key, "ide")
  }

  /** A disk value survives `"size=" in disk_value` and the split after it:
      a string does, and so does a list or object without a `size=` member;
      any other value raises. */
  predicate DiskReadable(v: Value) {
    v.Str? || HasMember(v, "size=") == Some(false)
  }

  /** Every disk entry of the config survives the loop body. */
  predicate DisksReadable(config: Config) {
    forall i :: 0 <= i < |config| && IsDiskKey(config[i].0) ==> DiskReadable(config[i].1)
  }

  datatype Pick = Pick(size: string, bytes: int)

  /** The size string a config entry offers as a disk, with its size in
      bytes, when it is a disk entry with `size=`. */
  function Offer(entry: (string, Value)): Option<Pick> {
    if IsDiskKey(entry.0) && entry.1.Str? && Contains(entry.1.s, "size=") then
      var size := Extract(entry.1.s, "size=").value;
      Some(Pick(size, ParseSizeToBytes(size)))
    else None
  }

  function Offers(config: Config): (r: seq<Option<Pick>>)
    ensures |r| == |config|
  {
    seq(|config|, i requires 0 <= i < |config| => Offer(config[i]))
  }

  /** What an offer weighs in the comparison: 0 for an entry that offers
      no disk, since the running maximum starts at 0. */
  function Weight(o: Option<Pick>): int {
    if o.Some? then o.value.bytes else 0
  }

  /** `disk_size` and `max_size_bytes` after the loop: an offer replaces
      the current choice only when strictly larger. */
  function Best(offers: seq<Option<Pick>>, default: string): Pick
    decreases |offers|
  {
    if |offers| == 0 then Pick(default, 0)
    else
      var prev := Best(offers[..|offers| - 1], default);
      var o := offers[|offers| - 1];
      if o.Some? && o.value.bytes > prev.bytes then o.value else prev
  }

  /** The offer chosen at index `i`: it is the pick, and every earlier
      offer weighs strictly less. */
  predicate ChosenAt(offers: seq<Option<Pick>>, i: nat, p: Pick) {
    i < |offers| && offers[i] == Some(p)
    && forall j :: 0 <= j < i ==> Weight(offers[j]) < p.bytes
  }

  /** The loop keeps the heaviest disk, the earliest among equals, and
      keeps the default when no disk has a positive size. */
  lemma {:induction false} BestEarliest(offers: seq<Option<Pick>>, default: string)
    ensures var p := Best(offers, default);
      && p.bytes >= 0
      && (forall i :: 0 <= i < |offers| ==> Weight(offers[i]) <= p.bytes)
      && (p.bytes == 0 ==> p.size == default)
      && (p.bytes > 0 ==> exists i :: ChosenAt(offers, i, p))
    decreases |offers|
  {
    if |offers| > 0 {
      var init := offers[..|offers| - 1];
      var prev := Best(init, default);
      var o := offers[|offers| - 1];
      BestEarliest(init, default);
      assert forall i :: 0 <= i < |init| ==> offers[i] == init[i];
      var p := Best(offers, default);
      if o.Some? && o.value.bytes > prev.bytes {
        assert ChosenAt(offers, |offers| - 1, p);
      } else if p.bytes > 0 {
        var i :| ChosenAt(init, i, prev);
        assert ChosenAt(offers, i, p);
      }
    }
  }

  lemma BestStep(offers: seq<Option<Pick>>, i: nat, default: string)
    requires i < |offers|
    ensures var prev := Best(offers[..i], default);
      Best(offers[..i + 1], default)
        == if offers[i].Some? && offers[i].value.bytes > prev.bytes then offers[i].value else prev
  {
    assert offers[..i + 1][..i] == offers[..i];
  }

  lemma DisksReadableStep(config: Config, i: nat)
    requires i < |config|
    ensures DisksReadable(config[..i + 1])
      <==> DisksReadable(config[..i]) && (IsDiskKey(config[i].0) ==> DiskReadable(config[i].1))
  {
    assert forall j :: 0 <= j < i ==> config[..i + 1][j] == config[..i][j];
    assert config[..i + 1][i] == config[i];
  }

  /** The largest-disk loop of `generate_vm_hcl` and
      `generate_windows_vm_hcl`; `None` where reading a disk entry raises. */
  method LargestDisk(config: Config, default: string) returns (r: Option<string>)
    ensures r.None? <==> !DisksReadable(config)
    ensures r.Some? ==> r.value == Best(Offers(config), default).size
  {
    var diskSize := default;
    var maxSizeBytes := 0;
    ghost var offers := Offers(config);
    for i := 0 to |config|
      invariant DisksReadable(config[..i])
      invariant Pick(diskSize, maxSizeBytes) == Best(offers[..i], default)
    {
      BestStep(offers, i, default);
      DisksReadableStep(config, i);
      var (key, value) := config[i];
      if IsDiskKey(key) {
        var hasSize := HasMember(value, "size=");
        if hasSize.None? || (hasSize.value && !value.Str?) {
          assert config[..i + 1] == config[..|config|][..i + 1];
          return None;
        }
        if hasSize.value {
          var sizeStr := Extract(value.s, "size=").value;
          var sizeBytes := ParseSizeToBytes(sizeStr);
          assert offers[i] == Some(Pick(sizeStr, sizeBytes));
          if sizeBytes > maxSizeBytes {
            maxSizeBytes := sizeBytes;
            diskSize := sizeStr;
          }
        } else {
          assert offers[i].None?;
        }
      } else {
        assert offers[i].None?;
      }
    }
    assert offers[..|config|] == offers;
    assert config[..|config|] == config;
    r := Some(diskSize);
  }

  datatype VmKind = LinuxVm | WindowsVm

  /** The defaults that tell `generate_vm_hcl` and `generate_windows_vm_hcl` apart. */
  function DefaultCores(kind: VmKind): int {
    if kind == LinuxVm then 2 else 4
  }

  function DefaultMemory(kind: VmKind): int {
    if kind == LinuxVm then 2048 else 8192
  }

  function DefaultDisk(kind: VmKind): string {
    if kind == LinuxVm then "32G" else "100G"
  }

  /** The fields of the VM block. An empty `mac` or `tag` means that line
      is left out; `gw` is always written. */
  datatype VmBlock = VmBlock(
    hostname: string, vmid: string, ip: string, gw: string, mac: string,
    cores: Value, memory: Value, diskSize: string,
    onboot: bool, start: bool, tags: seq<string>, tag: string)

  /** The MAC address: the text after the first `=` of `net0`, up to the
      next `,` or `=`, upper-cased, kept only when it holds a `:`. A MAC
      read is upper-case, holds a `:` and no `,`, and needs an `=`. */
  function MacOf(net0: string): (r: string)
    ensures r != "" ==> ':' in r && ',' !in r && Upper(r) == r && Contains(net0, "=")
  {
    match Extract(net0, "=")
    case None => ""
    case Some(part) =>
      if ':' in part then
        UpperMac(part);
        Upper(part)
      else ""
  }

  /** Upper-casing keeps the `:` of a MAC and adds no `,`. */
  lemma UpperMac(part: string)
    requires ':' in part
    ensures ':' in Upper(part) && Upper(Upper(part)) == Upper(part)
    ensures ',' !in part ==> ',' !in Upper(part)
  {
    UpperIdempotent(part);
    var j :| 0 <= j < |part| && part[j] == ':';
    assert Upper(part)[j] == ':';
    if ',' in Upper(part) {
      UpperWithin(part, ',');
    }
  }

  /** The fields read from the `ipconfig0` and `net0` option strings. */
  function IpOf(ipconfig0: string): string {
    Field(ipconfig0, "ip").GetOr("dhcp")
  }

  function GwOf(ipconfig0: string): string {
    Field(ipconfig0, "gw").GetOr("10.10.0.1")
  }

  function VlanTagOf(net0: string): string {
    Field(net0, "tag").GetOr("")
  }

  /** The block built from the strings read out of the config. */
  function VmFields(config: Config, vmid: string, hostname: string, kind: VmKind,
                    net0: string, ipconfig0: string, tags: seq<string>): VmBlock {
    VmBlock(
      hostname, vmid, IpOf(ipconfig0), GwOf(ipconfig0), MacOf(net0),
      GetOr(config, "cores", Int(DefaultCores(kind))),
      GetOr(config, "memory", Int(DefaultMemory(kind))),
      Best(Offers(config), DefaultDisk(kind)).size,
      OnBoot(config), OnBoot(config),
      tags, VlanTagOf(net0))
  }

  /** The block a VM's config gives, or `None` where Python raises. */
  function VmBlockOf(config: Config, vmid: string, hostname: string, kind: VmKind): Option<VmBlock> {
    var net0 :- OptionText(config, "net0", VmNetMarkers);
    var ipconfig0 :- OptionText(config, "ipconfig0", IpconfigMarkers);
    var tags :- TagsOf(config);
    if !DisksReadable(config) then None
    else Some(VmFields(config, vmid, hostname, kind, net0, ipconfig0, tags))
  }

  /** `generate_vm_hcl` (Linux) and `generate_windows_vm_hcl` (Windows). */
  method GenerateVm(config: Config, vmid: string, hostname: string, kind: VmKind) returns (r: Option<VmBlock>)
    ensures r == VmBlockOf(config, vmid, hostname, kind)
  {
    var net0 := OptionText(config, "net0", VmNetMarkers);
    var ipconfig0 := OptionText(config, "ipconfig0", IpconfigMarkers);
    if ipconfig0.None? || net0.None? {
      return None;
    }
    var ip, gw := ReadIpconfig(ipconfig0.value);
    var mac, vlanTag := ReadNet(net0.value);
    var diskSize := LargestDisk(config, DefaultDisk(kind));
    var tags := TagsOf(config);
    if diskSize.None? || tags.None? {
      return None;
    }
    r := Some(VmBlock(
      hostname, vmid, ip, gw, mac,
      GetOr(config, "cores", Int(DefaultCores(kind))),
      GetOr(config, "memory", Int(DefaultMemory(kind))),
      diskSize.value,
      OnBoot(config), OnBoot(config),
      tags.value, vlanTag));
    assert r.value == VmFields(config, vmid, hostname, kind, net0.value, ipconfig0.value, tags.value);
  }

  /** The address and gateway steps of the VM generators, on `ipconfig0`. */
  method ReadIpconfig(ipconfig0: string) returns (ip: string, gw: string)
    ensures ip == IpOf(ipconfig0) && gw == GwOf(ipconfig0)
  {
    ip := "dhcp";
    gw := "10.10.0.1";
    assert "ip" + "=" == "ip=" && "gw" + "=" == "gw=";
    if Contains(ipconfig0, "ip=") {
      var ipPart := Field(ipconfig0, "ip").value;
      if ipPart != "dhcp" {
        ip := ipPart;
      }
    }
    if Contains(ipconfig0, "gw=") {
      gw := Field(ipconfig0, "gw").value;
    }
  }

  /** The MAC and VLAN steps of the VM generators, on `net0`. */
  method ReadNet(net0: string) returns (mac: string, vlanTag: string)
    ensures mac == MacOf(net0) && vlanTag == VlanTagOf(net0)
  {
    mac := "";
    vlanTag := "";
    assert "tag" + "=" == "tag=";
    if Contains(net0, "=") {
      var macPart := Extract(net0, "=").value;
      if ':' in macPart {
        mac := Upper(macPart);
      }
    }
    if Contains(net0, "tag=") {
      vlanTag := Field(net0, "tag").value;
    }
  }

  /** The block `VmBlockOf` builds, from the strings it reads. */
  lemma VmBlockFields(config: Config, vmid: string, hostname: string, kind: VmKind)
    requires VmBlockOf(config, vmid, hostname, kind).Some?
    ensures VmBlockOf(config, vmid, hostname, kind).value
      == VmFields(config, vmid, hostname, kind, OptionText(config, "net0", VmNetMarkers).value,
                  OptionText(config, "ipconfig0", IpconfigMarkers).value, TagsOf(config).value)
  {
    var net0 := OptionText(config, "net0", VmNetMarkers);
    var ipconfig0 := OptionText(config, "ipconfig0", IpconfigMarkers);
    var tags := TagsOf(config);
    assert net0.Some? && ipconfig0.Some? && tags.Some? && DisksReadable(config);
  }

  /** A missing `cores` or `memory` takes the Linux defaults 2 and 2048 or
      the Windows defaults 4 and 8192; with no sized disk the disk is 32G or
      100G; `start` and `onboot` both follow `onboot == 1`. */
  lemma VmDefaults(config: Config, vmid: string, hostname: string, kind: VmKind)
    requires VmBlockOf(config, vmid, hostname, kind).Some?
    ensures var b := VmBlockOf(config, vmid, hostname, kind).value;
      && (b.start <==> OnBoot(config)) && (b.onboot <==> OnBoot(config))
      && (Get(config, "cores").None? ==> b.cores == Int(if kind == LinuxVm then 2 else 4))
      && (Get(config, "memory").None? ==> b.memory == Int(if kind == LinuxVm then 2048 else 8192))
      && ((forall i :: 0 <= i < |config| ==> Weight(Offers(config)[i]) <= 0) ==> b.diskSize == (if kind == LinuxVm then "32G" else "100G"))
  {
    VmBlockFields(config, vmid, hostname, kind);
    BestEarliest(Offers(config), DefaultDisk(kind));
  }

  /** When some disk has a positive size, the VM's disk is the first of the
      largest among its `scsi`, `virtio`, `sata` and `ide` entries. */
  lemma VmDisk(config: Config, vmid: string, hostname: string, kind: VmKind)
    requires VmBlockOf(config, vmid, hostname, kind).Some?
    requires exists i :: 0 <= i < |config| && Weight(Offers(config)[i]) > 0
    ensures var p := Best(Offers(config), DefaultDisk(kind));
      && VmBlockOf(config, vmid, hostname, kind).value.diskSize == p.size
      && (forall i :: 0 <= i < |config| ==> Weight(Offers(config)[i]) <= p.bytes)
      && exists i :: ChosenAt(Offers(config), i, p)
  {
    VmBlockFields(config, vmid, hostname, kind);
    BestEarliest(Offers(config), DefaultDisk(kind));
  }

  /** For a well-formed `net0` whose first named setting is the model and
      MAC (`virtio=BC:24:11:AA:BB:CC`), the MAC read is that address, upper-cased. */
  lemma MacFromSettings(net: seq<Setting>, model: string, mac: string)
    requires PlainSettings(net) && |net| > 0 && net[0] == Setting(model, mac) && model != ""
    requires ':' in mac
    ensures MacOf(OptionString(net)) == Upper(mac)
  {
    FieldOfOptionString(net, "");
    assert "" + "=" == "=";
    assert EndsWith(model, "");
  }

  /** The index of the last line before `n` holding a `]`, searching
      from `n - 1` down. */
  function LastBracketBelow(lines: seq<string>, n: nat): (r: Option<nat>)
    requires n <= |lines|
    ensures r.Some? ==> r.value < n && ']' in lines[r.value]
  {
    if n == 0 then None
    else if ']' in lines[n - 1] then Some(n - 1)
    else LastBracketBelow(lines, n - 1)
  }

  /** The index of the last line holding a `]`. */
  function LastBracket(lines: seq<string>): (r: Option<nat>)
    ensures r.Some? ==> r.value < |lines| && ']' in lines[r.value]
  {
    LastBracketBelow(lines, |lines|)
  }

  lemma {:induction false} BelowIsLast(lines: seq<string>, n: nat)
    requires n <= |lines|
    ensures LastBracketBelow(lines, n).Some? ==>
      forall j :: LastBracketBelow(lines, n).value < j < n ==> ']' !in lines[j]
    ensures LastBracketBelow(lines, n).None? ==> forall j :: 0 <= j < n ==> ']' !in lines[j]
    decreases n
  {
    if n > 0 && ']' !in lines[n - 1] {
      BelowIsLast(lines, n - 1);
    }
  }

  /** The line found holds the last `]` of the file; when none is found,
      no line holds one. */
  lemma LastBracketIsLast(lines: seq<string>)
    ensures LastBracket(lines).Some? ==>
      forall j :: LastBracket(lines).value < j < |lines| ==> ']' !in lines[j]
    ensures LastBracket(lines).None? ==> forall j :: 0 <= j < |lines| ==> ']' !in lines[j]
  {
    BelowIsLast(lines, |lines|);
  }

  lemma {:induction false} BelowAt(lines: seq<string>, n: nat, i: nat)
    requires i < n <= |lines| && ']' in lines[i]
    requires forall j :: i < j < n ==> ']' !in lines[j]
    ensures LastBracketBelow(lines, n) == Some(i)
    decreases n
  {
    if i < n - 1 {
      BelowAt(lines, n - 1, i);
    }
  }

  /** The search from the end stops at the last line holding a `]`. */
  lemma LastBracketAt(lines: seq<string>, i: nat)
    requires i < |lines| && ']' in lines[i]
    requires forall j :: i < j < |lines| ==> ']' !in lines[j]
    ensures LastBracket(lines) == Some(i)
  {
    BelowAt(lines, |lines|, i);
  }

  /** A stripped previous line needs a comma unless it is empty or already
      ends the previous item or opens the list. */
  predicate NeedsComma(prev: string) {
    prev != "" && !EndsWith(prev, ",") && !EndsWith(prev, "[")
  }

  /** Whether the bracket line is a one-line empty list `name = []`. */
  predicate EmptyList(line: string) {
    Contains(Strip(line), "[]")
  }

  /** A line that ends an item, with a comma added when it needs one. */
  function Closed(line: string): string {
    if NeedsComma(Strip(line)) then TrimEnd(line) + ",\n" else line
  }

  /** The lines `append_to_file` writes back, or `None` when the file has
      no `]`. For a one-line empty list `name = []` at the last `]`, that
      line becomes `name = [`, then the entry, then a line holding `]`;
      otherwise the entry goes just before the bracket line and the line
      before it is closed. */
  function Appended(lines: seq<string>, content: string): Option<seq<string>> {
    var found := LastBracket(lines);
    if found.None? then None
    else
      var b := found.value;
      var entry := content + "\n";
      if EmptyList(lines[b]) then
        Some(lines[..b] + [BeforeFirst(lines[b], "[]") + "[\n", entry, "]\n"] + lines[b + 1..])
      else if b == 0 then Some([entry] + lines)
      else Some(lines[..b - 1] + [Closed(lines[b - 1]), entry] + lines[b..])
  }

  lemma AppendedEmptyList(lines: seq<string>, content: string, b: nat)
    requires LastBracket(lines) == Some(b) && EmptyList(lines[b])
    ensures Appended(lines, content) ==
      Some(lines[..b] + [BeforeFirst(lines[b], "[]") + "[\n", content + "\n", "]\n"] + lines[b + 1..])
  {
  }

  lemma AppendedList(lines: seq<string>, content: string, b: nat)
    requires LastBracket(lines) == Some(b) && !EmptyList(lines[b])
    ensures b == 0 ==> Appended(lines, content) == Some([content + "\n"] + lines)
    ensures b > 0 ==>
      Appended(lines, content) == Some(lines[..b - 1] + [Closed(lines[b - 1]), content + "\n"] + lines[b..])
  {
  }

  /** `append_to_file`: `None` for a missing file, the lines written back
      otherwise, `Some(None)` standing for the file left alone because it
      has no `]`. */
  method AppendToFile(file: Option<seq<string>>, content: string) returns (written: Option<Option<seq<string>>>)
    ensures file.None? ==> written.None?
    ensures file.Some? ==> written == Some(Appended(file.value, content))
  {
    if file.None? {
      return None;
    }
    var lines := file.value;
    var found := FindLastBracket(lines);
    if found.None? {
      return Some(None);
    }
    var last := found.value;
    var r;
    if Contains(Strip(lines[last]), "[]") {
      r := InsertAtEmptyList(lines, content, last);
    } else {
      r := InsertAtList(lines, content, last);
    }
    return Some(Some(r));
  }

  /** The insertion when the closing line is a single-line empty list. */
  method InsertAtEmptyList(lines: seq<string>, content: string, last: nat) returns (r: seq<string>)
    requires LastBracket(lines) == Some(last) && EmptyList(lines[last])
    ensures Appended(lines, content) == Some(r)
  {
    var split, k := OpenEmptyList(lines, last);
    var closed := CloseLineAbove(split, k);
    r := closed[..k] + [content + "\n"] + closed[k..];
    AppendedEmptyList(lines, content, last);
    UpdateSame(split, k - 1);
    SplitInsert(lines, last, BeforeFirst(lines[last], "[]") + "[\n", "]\n", content + "\n");
  }

  /** The insertion in front of a closing line that ends a non-empty list. */
  method InsertAtList(lines: seq<string>, content: string, last: nat) returns (r: seq<string>)
    requires LastBracket(lines) == Some(last) && !EmptyList(lines[last])
    ensures Appended(lines, content) == Some(r)
  {
    var closed := CloseLineAbove(lines, last);
    r := closed[..last] + [content + "\n"] + closed[last..];
    AppendedList(lines, content, last);
    if last > 0 {
      UpdateInsert(lines, last - 1, Closed(lines[last - 1]), content + "\n");
    } else {
      assert r == [content + "\n"] + lines;
    }
  }

  /** A single-line empty list `[]` is split into an opening line and a
      closing line; the bracket moves one line down and the opening line
      needs no comma. */
  method OpenEmptyList(lines: seq<string>, b: nat) returns (r: seq<string>, k: nat)
    requires b < |lines|
    ensures r == lines[..b] + [BeforeFirst(lines[b], "[]") + "[\n", "]\n"] + lines[b + 1..]
    ensures k == b + 1 && k < |r| && Closed(r[k - 1]) == r[k - 1]
  {
    var prefix := BeforeFirst(lines[b], "[]") + "[\n";
    r := lines[..b] + [prefix, "]\n"] + lines[b + 1..];
    k := b + 1;
    OpenLineEnds(BeforeFirst(lines[b], "[]"));
  }

  /** The scan from the end of the file for the line holding the closing `]`. */
  method FindLastBracket(lines: seq<string>) returns (found: Option<nat>)
    ensures found == LastBracket(lines)
  {
    var i := |lines| - 1;
    while i >= 0
      invariant -1 <= i < |lines|
      invariant forall j :: i < j < |lines| ==> ']' !in lines[j]
    {
      if ']' in lines[i] {
        LastBracketAt(lines, i);
        return Some(i);
      }
      i := i - 1;
    }
    LastBracketIsLast(lines);
    return None;
  }

  /** The line above the insertion point gets a trailing comma when it
      ends an item. */
  method CloseLineAbove(lines: seq<string>, k: nat) returns (r: seq<string>)
    requires k <= |lines|
    ensures k == 0 ==> r == lines
    ensures k > 0 ==> r == lines[k - 1 := Closed(lines[k - 1])]
  {
    r := lines;
    if k > 0 {
      var prev := Strip(lines[k - 1]);
      if prev != "" && !EndsWith(prev, ",") && !EndsWith(prev, "[") {
        r := lines[k - 1 := TrimEnd(lines[k - 1]) + ",\n"];
      } else {
        UpdateSame(lines, k - 1);
      }
    }
  }

  /** A closed line, stripped, is empty or ends in `,` or `[`. */
  lemma ClosedEnds(line: string)
    ensures !NeedsComma(Strip(Closed(line)))
  {
    if NeedsComma(Strip(line)) {
      var w := TrimEnd(line);
      assert w + ",\n" == w + [','] + "\n";
      StripMarkLine(w, ',');
      assert [','] == ",";
    }
  }

  lemma UpdateSame<T>(s: seq<T>, i: nat)
    requires i < |s|
    ensures s[i := s[i]] == s
  {
  }

  /** Closing item `i` and inserting `y` after it. */
  lemma UpdateInsert<T>(s: seq<T>, i: nat, x: T, y: T)
    requires i < |s|
    ensures s[i := x][..i + 1] + [y] + s[i := x][i + 1..] == s[..i] + [x, y] + s[i + 1..]
  {
  }

  /** Splitting item `b` into `p` and `q` and inserting `y` between them. */
  lemma SplitInsert<T>(s: seq<T>, b: nat, p: T, q: T, y: T)
    requires b < |s|
    ensures var split := s[..b] + [p, q] + s[b + 1..];
      split[b := p][..b + 1] + [y] + split[b := p][b + 1..] == s[..b] + [p, y, q] + s[b + 1..]
  {
    var split := s[..b] + [p, q] + s[b + 1..];
    assert split[b := p] == split;
    assert split[..b + 1] == s[..b] + [p];
    assert split[b + 1..] == [q] + s[b + 1..];
  }

  /** A line that opens a list, stripped, ends in `[`. */
  lemma OpenLineEnds(w: string)
    ensures !NeedsComma(Strip(w + "[\n"))
  {
    assert w + "[\n" == w + ['['] + "\n";
    StripMarkLine(w, '[');
    assert ['['] == "[";
  }

  /** The result of appending, read as the lines before the change, the
      changed lines, and the untouched lines after them. */
  lemma Pieces<T>(a: seq<T>, m: seq<T>, rest: seq<T>)
    ensures |a + m + rest| == |a| + |m| + |rest|
    ensures forall i :: 0 <= i < |m| ==> (a + m + rest)[|a| + i] == m[i]
    ensures forall j :: 0 <= j < |rest| ==> (a + m + rest)[|a| + |m| + j] == rest[j]
  {
  }

  /** The lines around the new entry, one lemma per shape of the file:
      the line before it, the bracket line after it, and the lines after
      the bracket, shifted. */
  lemma AroundEmptyList(lines: seq<string>, content: string, b: nat)
    requires LastBracket(lines) == Some(b) && EmptyList(lines[b])
    ensures var r := Appended(lines, content);
      && r.Some? && |r.value| == |lines| + 2
      && r.value[b] == BeforeFirst(lines[b], "[]") + "[\n"
      && r.value[b + 1] == content + "\n"
      && r.value[b + 2] == "]\n"
      && (forall j :: 0 <= j < b ==> r.value[j] == lines[j])
      && forall j :: b < j < |lines| ==> r.value[j + 2] == lines[j]
  {
    var opening := BeforeFirst(lines[b], "[]") + "[\n";
    assert Appended(lines, content) == Some(lines[..b] + [opening, content + "\n", "]\n"] + lines[b + 1..]);
    EmptyListShape(lines, b, opening, content + "\n", "]\n");
  }

  lemma EmptyListShape<T>(lines: seq<T>, b: nat, x: T, y: T, z: T)
    requires b < |lines|
    ensures var r := lines[..b] + [x, y, z] + lines[b + 1..];
      && |r| == |lines| + 2 && r[b] == x && r[b + 1] == y && r[b + 2] == z
      && (forall j :: 0 <= j < b ==> r[j] == lines[j])
      && forall j :: b < j < |lines| ==> r[j + 2] == lines[j]
  {
  }

  lemma AroundList(lines: seq<string>, content: string, b: nat)
    requires LastBracket(lines) == Some(b) && !EmptyList(lines[b]) && b > 0
    ensures var r := Appended(lines, content);
      && r.Some? && |r.value| == |lines| + 1
      && r.value[b - 1] == Closed(lines[b - 1])
      && r.value[b] == content + "\n"
      && (forall j :: 0 <= j < b - 1 ==> r.value[j] == lines[j])
      && forall j :: b <= j < |lines| ==> r.value[j + 1] == lines[j]
  {
    var r := lines[..b - 1] + [Closed(lines[b - 1]), content + "\n"] + lines[b..];
    assert Appended(lines, content) == Some(r);
    ListShape(lines, b, Closed(lines[b - 1]), content + "\n");
  }

  lemma ListShape<T>(lines: seq<T>, b: nat, x: T, y: T)
    requires 0 < b < |lines|
    ensures var r := lines[..b - 1] + [x, y] + lines[b..];
      && |r| == |lines| + 1 && r[b - 1] == x && r[b] == y
      && (forall j :: 0 <= j < b - 1 ==> r[j] == lines[j])
      && forall j :: b <= j < |lines| ==> r[j + 1] == lines[j]
  {
  }

  lemma AroundFront(lines: seq<string>, content: string)
    requires LastBracket(lines) == Some(0) && !EmptyList(lines[0])
    ensures var r := Appended(lines, content);
      && r.Some? && |r.value| == |lines| + 1
      && r.value[0] == content + "\n"
      && forall j :: 0 <= j < |lines| ==> r.value[j + 1] == lines[j]
  {
    assert Appended(lines, content) == Some([content + "\n"] + lines);
  }

  /** The entry before the new one is always closed, so the list stays
      well-formed: stripped, that line is empty or ends in `,` or `[`. */
  lemma AppendedClosesPrevious(lines: seq<string>, content: string)
    requires LastBracket(lines).Some?
    ensures var b := LastBracket(lines).value;
      var r := Appended(lines, content);
      && r.Some?
      && (EmptyList(lines[b]) ==>
            r.value[b + 1] == content + "\n" && !NeedsComma(Strip(r.value[b])))
      && (!EmptyList(lines[b]) && b > 0 ==>
            r.value[b] == content + "\n" && !NeedsComma(Strip(r.value[b - 1])))
      && (!EmptyList(lines[b]) && b == 0 ==> r.value[0] == content + "\n")
  {
    var b := LastBracket(lines).value;
    if EmptyList(lines[b]) {
      ClosesEmptyList(lines, content, b);
    } else if b > 0 {
      ClosesList(lines, content, b);
    } else {
      AroundFront(lines, content);
    }
  }

  lemma ClosesEmptyList(lines: seq<string>, content: string, b: nat)
    requires LastBracket(lines) == Some(b) && EmptyList(lines[b])
    ensures var r := Appended(lines, content);
      r.Some? && r.value[b + 1] == content + "\n" && !NeedsComma(Strip(r.value[b]))
  {
    AroundEmptyList(lines, content, b);
    OpenLineEnds(BeforeFirst(lines[b], "[]"));
  }

  lemma ClosesList(lines: seq<string>, content: string, b: nat)
    requires LastBracket(lines) == Some(b) && !EmptyList(lines[b]) && b > 0
    ensures var r := Appended(lines, content);
      r.Some? && r.value[b] == content + "\n" && !NeedsComma(Strip(r.value[b - 1]))
  {
    AroundList(lines, content, b);
    ClosedEnds(lines[b - 1]);
  }

  /** With an entry that holds no `]`, the closing bracket is still the
      last `]` of the file, right after the entry, so a second import lands
      after the first. One lemma per shape of the file: the bracket at the
      top, on a line after other items, or in a one-line empty list. */
  lemma KeepsBracketFront(lines: seq<string>, content: string)
    requires LastBracket(lines) == Some(0) && !EmptyList(lines[0]) && ']' !in content
    ensures var r := Appended(lines, content);
      r.Some? && LastBracket(r.value) == Some(1)
  {
    AroundFront(lines, content);
    TopLineAbove(lines, content + "\n");
  }

  /** A line put above the file's lines leaves its last `]` one line down. */
  lemma TopLineAbove(lines: seq<string>, top: string)
    requires LastBracket(lines) == Some(0)
    ensures LastBracket([top] + lines) == Some(1)
  {
    var r := [top] + lines;
    assert forall j :: 0 < j < |lines| ==> r[j + 1] == lines[j];
    LastBracketIsLast(lines);
    LastBracketShifted(lines, r, 0, 1);
  }

  lemma KeepsBracketEmptyList(lines: seq<string>, content: string, b: nat)
    requires LastBracket(lines) == Some(b) && EmptyList(lines[b]) && ']' !in content
    ensures Appended(lines, content).Some?
    ensures LastBracket(Appended(lines, content).value) == Some(b + 2)
  {
    AroundEmptyList(lines, content, b);
    ClosingLineBelow(lines, Appended(lines, content).value, b);
  }

  /** A line `]` two lines below the old last `]`, with the old lines
      after it shifted down by two, is the new last `]`. */
  lemma ClosingLineBelow(lines: seq<string>, r: seq<string>, b: nat)
    requires LastBracket(lines) == Some(b)
    requires |r| == |lines| + 2 && r[b + 2] == "]\n"
    requires forall j :: b < j < |lines| ==> r[j + 2] == lines[j]
    ensures LastBracket(r) == Some(b + 2)
  {
    LastBracketIsLast(lines);
    var closing := "]\n";
    assert closing[0] == ']';
    LastBracketShifted(lines, r, b, 2);
  }

  lemma KeepsBracketList(lines: seq<string>, content: string, b: nat)
    requires LastBracket(lines) == Some(b) && !EmptyList(lines[b]) && b > 0 && ']' !in content
    ensures var r := Appended(lines, content);
      r.Some? && LastBracket(r.value) == Some(b + 1)
  {
    AroundList(lines, content, b);
    LastBracketIsLast(lines);
    LastBracketShifted(lines, Appended(lines, content).value, b, 1);
  }

  /** Lines moved down by `d`, below a line holding `]`, keep the last `]`
      where that line is. */
  lemma LastBracketShifted(lines: seq<string>, r: seq<string>, b: nat, d: nat)
    requires b < |lines|
    requires forall j :: b < j < |lines| ==> ']' !in lines[j]
    requires |r| == |lines| + d && ']' in r[b + d]
    requires forall j :: b < j < |lines| ==> r[j + d] == lines[j]
    ensures LastBracket(r) == Some(b + d)
  {
    forall j | b + d < j < |r|
      ensures ']' !in r[j]
    {
      assert r[(j - d) + d] == lines[j - d];
    }
    LastBracketAt(r, b + d);
  }
}
