/** Backoff settings of wait-type steps, "base=30s, multiplier=2, max=10m".
    (internal/beads/molecule.go, parseBackoffConfig) */
module Backoff {
  import opened Text

  /** Intervals are kept as written. */
  datatype Config = Config(base: string, multiplier: int, max: string)

  const DEFAULT := Config("", 2, "")

  /** strconv.Atoi: an optional sign and digits only, within 64 bits. */
  function Atoi(s: string): Option<int> {
    var digits := if s != "" && (s[0] == '-' || s[0] == '+') then s[1..] else s;
    if digits != "" && DigitPrefix(digits) == digits then ScanInt(s) else None
  }

  /** The switch on the key; an unknown key, or a multiplier that is no number, changes nothing. */
  function Assign(c: Config, key: string, value: string): Config {
    if key == "base" then c.(base := value)
    else if key == "multiplier" then if Atoi(value).Some? then c.(multiplier := Atoi(value).value) else c
    else if key == "max" then c.(max := value)
    else c
  }

  /** One comma-separated part; what is no setting changes nothing. */
  function Setting(c: Config, part: string): Config {
    var t := Trim(part);
    var equals := IndexOf(t, '=');
    if equals == -1 then c else Assign(c, Trim(Lower(t[..equals])), Trim(t[equals + 1..]))
  }

  function Settings(parts: seq<string>): Config {
    if parts == [] then DEFAULT else Setting(Settings(parts[..|parts| - 1]), parts[|parts| - 1])
  }

  /** The configuration of a text, none without a base. */
  function Parsed(text: string): Option<Config> {
    var c := Settings(Split(text, ','));
    if c.base == "" then None else Some(c)
  }

  method ParseBackoffConfig(configStr: string) returns (config: Option<Config>)
    ensures config == Parsed(configStr)
  {
    hide Assign, Trim, Lower, IndexOf, Split;
    var cfg := DEFAULT;
    var parts := Split(configStr, ',');
    for i := 0 to |parts|
      invariant cfg == Settings(parts[..i])
    {
      assert parts[..i + 1][..i] == parts[..i];
      var part := Trim(parts[i]);
      if part == "" {
        continue;
      }
      var equals := IndexOf(part, '=');
      if equals == -1 {
        continue;
      }
      cfg := Assign(cfg, Trim(Lower(part[..equals])), Trim(part[equals + 1..]));
    }
    assert parts[..|parts|] == parts;
    if cfg.base == "" {
      return None;
    }
    config := Some(cfg);
  }

  // ---------- The documented form reads back ----------

  predicate SettingKey(key: string) {
    key != "" && forall i | 0 <= i < |key| :: 'a' <= key[i] <= 'z'
  }

  lemma TrimSpaced(space: string, bare: string)
    requires (space == "" || space == " ") && Trimmed(bare)
    ensures Trim(space + bare) == bare
  {
    TrimFixed(bare);
    if space == "" { assert space + bare == bare; } else { assert (space + bare)[1..] == bare; }
  }

  /** A part "key=value", with or without white space in front, assigns the value to the key. */
  lemma SettingReads(c: Config, space: string, key: string, value: string)
    requires (space == "" || space == " ") && SettingKey(key) && Trimmed(value)
    ensures Setting(c, space + (key + ['='] + value)) == Assign(c, key, value)
  {
    var bare := key + ['='] + value;
    BareReads(key, value);
    TrimSpaced(space, bare);
    LowerFixed(key);
    TrimFixed(key);
    TrimFixed(value);
    hide Trim, IndexOf, Lower, Assign, SettingKey, Trimmed;
  }

  lemma BareReads(key: string, value: string)
    requires SettingKey(key) && Trimmed(value)
    ensures var bare := key + ['='] + value;
      Trimmed(bare) && IndexOf(bare, '=') == |key| && bare[..|key|] == key && bare[|key| + 1..] == value
    ensures Trimmed(key) && IsLower(key)
  {
    var bare := key + ['='] + value;
    IndexOfUnique(key, '=', value);
    hide IndexOf;
    assert bare[0] == key[0] && bare[|bare| - 1] == if value == "" then '=' else value[|value| - 1];
  }

  lemma AtoiItoa(n: nat)
    requires n <= MAX_INT64
    ensures Atoi(Itoa(n)) == Some(n) && Trimmed(Itoa(n)) && ',' !in Itoa(n)
  {
    hide Itoa, ScanInt, DigitPrefix;
    DigitPrefixOfDigits(Itoa(n));
    ScanItoa(n);
  }

  /** A configuration written in the documented form parses back to itself: the intervals trimmed and without a comma,
      the base not empty, the multiplier not negative. */
  lemma DocumentedFormReads(base: string, multiplier: nat, max: string)
    requires base != "" && Trimmed(base) && Trimmed(max) && ',' !in base && ',' !in max && multiplier <= MAX_INT64
    ensures Parsed(Written(base, multiplier, max)) == Some(Config(base, multiplier, max))
  {
    var n := Itoa(multiplier);
    AtoiItoa(multiplier);
    var keys, values := ["base", "multiplier", "max"], [base, n, max];
    KeysAreSettings();
    PartsOf("" + (keys[0] + ['='] + base), " " + (keys[1] + ['='] + n), " " + (keys[2] + ['='] + max));
    SettingReads(DEFAULT, "", keys[0], base);
    SettingReads(DEFAULT.(base := base), " ", keys[1], n);
    SettingReads(Config(base, multiplier, ""), " ", keys[2], max);
    assert Assign(DEFAULT, "base", base) == DEFAULT.(base := base);
    assert Assign(DEFAULT.(base := base), "multiplier", n) == Config(base, multiplier, "");
    assert Assign(Config(base, multiplier, ""), "max", max) == Config(base, multiplier, max);
    hide Setting, Assign, Split, Itoa, Atoi, Trimmed;
    ThreeSettings("" + (keys[0] + ['='] + base), " " + (keys[1] + ['='] + n), " " + (keys[2] + ['='] + max));
  }

  /** A base alone: the multiplier is 2 and there is no maximum. */
  lemma BaseAlone(base: string)
    requires base != "" && Trimmed(base) && ',' !in base
    ensures Parsed("base" + ['='] + base) == Some(Config(base, 2, ""))
  {
    var part := "base" + ['='] + base;
    KeysAreSettings();
    SplitWhole(part, ',');
    SettingReads(DEFAULT, "", "base", base);
    assert "" + part == part && [part][..0] == [];
    hide Setting, Split, Trimmed;
    assert Settings([part]) == Setting(Settings([]), part);
  }

  /** A part without "=", with another key, or with a multiplier that is no whole number says nothing; keys may be in
      any case. */
  lemma OthersIgnored(c: Config, key: string, value: string)
    requires '=' !in key && Trimmed(key) && key != "" && Trimmed(value)
    requires Lower(key) != "base" && Lower(key) != "max" && (Lower(key) == "multiplier" ==> Atoi(value).None?)
    ensures Setting(c, key + ['='] + value) == c
    ensures Setting(c, key) == c
  {
    var part := key + ['='] + value;
    IndexOfUnique(key, '=', value);
    TrimFixed(part);
    TrimFixed(key);
    TrimFixed(value);
    LowerTrimmed(key);
    hide Trim, IndexOf, Lower, Atoi;
    assert part[..|key|] == key && part[|key| + 1..] == value;
  }

  lemma LowerTrimmed(s: string)
    requires Trimmed(s)
    ensures Trim(Lower(s)) == Lower(s)
  {
    TrimFixed(Lower(s));
  }

  function Written(base: string, multiplier: nat, max: string): string {
    "" + ("base" + ['='] + base) + [','] + (" " + ("multiplier" + ['='] + Itoa(multiplier)) + [','] + (" " + ("max" + ['='] + max)))
  }

  lemma KeysAreSettings()
    ensures SettingKey("base") && SettingKey("multiplier") && SettingKey("max")
    ensures ',' !in "base" && ',' !in "multiplier" && ',' !in "max"
  {
  }

  lemma ThreeSettings(p: string, q: string, r: string)
    ensures Settings([p, q, r]) == Setting(Setting(Setting(DEFAULT, p), q), r)
  {
    hide Setting;
    assert [p, q, r][..2] == [p, q] && [p, q][..1] == [p] && [p][..0] == [];
    assert Settings([p]) == Setting(Settings([]), p);
    assert Settings([p, q]) == Setting(Settings([p]), q);
    assert Settings([p, q, r]) == Setting(Settings([p, q]), r);
  }

  lemma PartsOf(p: string, q: string, r: string)
    requires ',' !in p && ',' !in q && ',' !in r
    ensures Split(p + [','] + (q + [','] + r), ',') == [p, q, r]
  {
    SplitAppend(p, q + [','] + r, ',');
    SplitAppend(q, r, ',');
    SplitWhole(p, ',');
    SplitWhole(q, ',');
    SplitWhole(r, ',');
    hide Split;
    assert [p] + ([q] + [r]) == [p, q, r];
  }
}
