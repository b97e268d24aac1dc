/**
  The binding table of src/key.rs:56-151: per mode, a map from command name
  to key sequence. `with_defaults` gives the literal Normal-mode table; `new`
  overlays a configuration, rejecting any sequence that is a strict prefix
  of, or has as a strict prefix, a sequence currently bound in that mode;
  `get_help_map` renders a mode's table as strings.

  A configuration is a `HashMap` of `HashMap`s in the source; its iteration
  order is unspecified and the outcome can depend on it, so here it is a
  sequence of entries in whatever order the iteration produced.
 */
module Keybindings {
  import opened Wrappers
  import opened KeyModes
  import opened KeySequences
  import opened Actions

  /** One mode's bindings: command name to key sequence. */
  type ModeTable = map<string, KeySequence>

  /** `KeybindingManager::bindings`. */
  type Table = map<KeyMode, ModeTable>

  /** An entry of a mode's configuration map: sequence string and command name. */
  datatype Binding = Binding(sequence: string, command: string)

  /** An entry of the configuration: a mode name and its bindings. */
  datatype ModeConfig = ModeConfig(mode: string, bindings: seq<Binding>)

  /** `KeybindingConfig::bindings`, in iteration order. */
  type Config = seq<ModeConfig>

  /** The two `Err` strings of `new`: "Unknown mode: …" and "Invalid binding: …". */
  datatype ConfigError =
    | UnknownMode(name: string)
    | InvalidBinding(sequence: KeySequence, command: string)

  /** `with_defaults`: Normal mode only. */
  function WithDefaults(): Table
  {
    map[Normal := DefaultNormal()]
  }

  /** The Normal-mode table of `with_defaults`, written out: each key is the
      action's `to_string()` and each value the `from_str` of the sequence
      string (`DefaultNormalFollowsSource` states this). */
  function DefaultNormal(): ModeTable
  {
    map[
      "scroll-down" := ["j"], "scroll-up" := ["k"],
      "scroll-top" := ["g", "t"], "scroll-bottom" := ["g", "b"],
      "scroll-half-down" := ["C", "-", "d"], "scroll-half-up" := ["C", "-", "u"],
      "go-back" := ["h"], "go-forward" := ["l"],
      "insert-mode" := ["i"], "cmd-mode" := [":"],
      "show-help" := ["?"], "show-url" := ["g", "o"],
      "hard-refresh-url" := ["R"], "soft-refresh-url" := ["r"],
      "copy-url" := ["u", "y"], "paste-url" := ["u", "p"],
      "search-next" := ["n"], "search-prev" := ["N"], "search-mode" := ["/"]
    ]
  }

  /** The antichain invariant of one mode: no bound sequence is a strict prefix of another. */
  ghost predicate PrefixFree(m: ModeTable)
  {
    forall c1, c2 :: c1 in m && c2 in m ==> !IsPrefixOf(m[c1], m[c2])
  }

  ghost predicate AllPrefixFree(t: Table)
  {
    forall mode :: mode in t ==> PrefixFree(t[mode])
  }

  /** The test of src/key.rs:123-130: `s` conflicts with some sequence bound in `m`. */
  predicate ConflictsWithBound(s: KeySequence, m: ModeTable)
  {
    exists c :: c in m && Conflicts(s, m[c])
  }

  /** The inner loop of `new` over one mode's bindings, in iteration order. */
  function InsertAll(m: ModeTable, bs: seq<Binding>): (r: Result<ModeTable, ConfigError>)
    ensures r.Err? ==> r.error.InvalidBinding?
    ensures r.Ok? ==> m.Keys <= r.value.Keys
    decreases |bs|
  {
    if bs == [] then Ok(m)
    else
      var s := FromStr(bs[0].sequence);
      if ConflictsWithBound(s, m) then Err(InvalidBinding(s, bs[0].command))
      else InsertAll(m[bs[0].command := s], bs[1..])
  }

  /** The outer loop of `new` over the configuration's modes, with the mode-name parse as a parameter. */
  function Overlay(t: Table, cfg: Config, parseMode: string -> Option<KeyMode>): Result<Table, ConfigError>
    decreases |cfg|
  {
    if cfg == [] then Ok(t)
    else
      match parseMode(cfg[0].mode)
      case None => Err(UnknownMode(cfg[0].mode))
      case Some(mode) =>
        var base := if mode in t then t[mode] else map[];
        match InsertAll(base, cfg[0].bindings)
        case Err(e) => Err(e)
        case Ok(m) => Overlay(t[mode := m], cfg[1..], parseMode)
  }

  /** What `new` returns for an optional configuration. */
  function Configure(config: Option<Config>, parseMode: string -> Option<KeyMode>): Result<Table, ConfigError>
  {
    if config.None? then Ok(WithDefaults()) else Overlay(WithDefaults(), config.value, parseMode)
  }

  function LowerChar(c: char): (r: char)
    ensures !('A' <= r <= 'Z')
    ensures 'A' <= c <= 'Z' ==> r as int == c as int + 32
    ensures !('A' <= c <= 'Z') ==> r == c
  {
    if 'A' <= c <= 'Z' then (c as int + 32) as char else c
  }

  /** `to_lowercase`, on the ASCII letters: no capital is left, and a string
      without capitals comes back unchanged. */
  function Lower(s: string): (r: string)
    ensures |r| == |s|
    ensures forall i :: 0 <= i < |r| ==> !('A' <= r[i] <= 'Z')
    ensures (forall i :: 0 <= i < |s| ==> !('A' <= s[i] <= 'Z')) ==> r == s
    ensures forall i :: 0 <= i < |s| ==> r[i] == LowerChar(s[i])
  {
    seq(|s|, i requires 0 <= i < |s| => LowerChar(s[i]))
  }

  /** The parse as written at src/key.rs:115: the case-sensitive variant-name
      parse applied to the lowercased name. */
  function ParseModeAsWritten(name: string): Option<KeyMode>
  {
    ParseModeName(Lower(name))
  }

  /** The parse evidently intended: the variant name in any letter case. */
  function ParseModeIgnoringCase(name: string): Option<KeyMode>
  {
    var l := Lower(name);
    if l == "normal" then Some(Normal)
    else if l == "insert" then Some(Insert)
    else if l == "search" then Some(KeyMode.Search)
    else if l == "cmd" then Some(Cmd)
    else None
  }

  /** `HasConflict` checks every command bound in `m`, in an unspecified order,
      as the loop over `mode_map.values()` does. */
  method HasConflict(s: KeySequence, m: ModeTable) returns (found: bool)
    ensures found == ConflictsWithBound(s, m)
  {
    var rest := m.Keys;
    while rest != {}
      invariant rest <= m.Keys
      invariant forall c :: c in m.Keys - rest ==> !Conflicts(s, m[c])
      decreases rest
    {
      var c :| c in rest;
      if Conflicts(s, m[c]) {
        return true;
      }
      rest := rest - {c};
    }
    return false;
  }

  /** `KeybindingManager::new`. */
  method New(config: Option<Config>, parseMode: string -> Option<KeyMode>) returns (r: Result<Table, ConfigError>)
    ensures r == Configure(config, parseMode)
  {
    var manager := WithDefaults();
    if config.None? {
      return Ok(manager);
    }
    var cfg := config.value;
    var i := 0;
    while i < |cfg|
      invariant 0 <= i <= |cfg|
      invariant Overlay(manager, cfg[i..], parseMode) == Overlay(WithDefaults(), cfg, parseMode)
    {
      assert cfg[i..][0] == cfg[i] && cfg[i..][1..] == cfg[i + 1..];
      var mode := parseMode(cfg[i].mode);
      if mode.None? {
        return Err(UnknownMode(cfg[i].mode));
      }
      var modeMap := if mode.value in manager then manager[mode.value] else map[];
      ghost var base := modeMap;
      var bs := cfg[i].bindings;
      var j := 0;
      while j < |bs|
        invariant 0 <= j <= |bs|
        invariant InsertAll(modeMap, bs[j..]) == InsertAll(base, bs)
      {
        assert bs[j..][0] == bs[j] && bs[j..][1..] == bs[j + 1..];
        var s := FromStr(bs[j].sequence);
        var conflict := HasConflict(s, modeMap);
        if conflict {
          return Err(InvalidBinding(s, bs[j].command));
        }
        modeMap := modeMap[bs[j].command := s];
        j := j + 1;
      }
      assert bs[j..] == [];
      manager := manager[mode.value := modeMap];
      i := i + 1;
    }
    assert cfg[i..] == [];
    return Ok(manager);
  }

  /** `get_help_map`: each command with its sequence joined back into a string;
      empty for a mode without bindings. */
  function HelpMap(t: Table, mode: KeyMode): (r: map<string, string>)
    ensures mode !in t ==> r == map[]
    ensures mode in t ==> r.Keys == t[mode].Keys
    ensures forall c :: c in r ==> r[c] == Join(t[mode][c])
  {
    if mode in t then map c | c in t[mode] :: Join(t[mode][c]) else map[]
  }
}
