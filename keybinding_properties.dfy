/**
  What the binding table promises: the default table is an antichain, a
  successful overlay keeps every mode an antichain, a failing one reports
  the first offending entry, and the mode-name parse as written rejects
  every name.
 */
module KeybindingProperties {
  import opened Wrappers
  import opened KeyModes
  import opened KeySequences
  import opened Actions
  import opened Keybindings
  import Sequences

  /** The sequence strings of the default table, parsed. */
  lemma FromStrLiterals()
    ensures FromStr("j") == ["j"] && FromStr("k") == ["k"] && FromStr("h") == ["h"] && FromStr("l") == ["l"]
    ensures FromStr("i") == ["i"] && FromStr(":") == [":"] && FromStr("?") == ["?"] && FromStr("R") == ["R"]
    ensures FromStr("r") == ["r"] && FromStr("n") == ["n"] && FromStr("N") == ["N"] && FromStr("/") == ["/"]
    ensures FromStr("gt") == ["g", "t"] && FromStr("gb") == ["g", "b"] && FromStr("go") == ["g", "o"]
    ensures FromStr("uy") == ["u", "y"] && FromStr("up") == ["u", "p"]
    ensures FromStr("C-d") == ["C", "-", "d"] && FromStr("C-u") == ["C", "-", "u"]
  {
  }
  /** The default Normal table is the one `with_defaults` builds: action names
      (`to_string()`) bound to `from_str` of the literal strings. */
  lemma DefaultNormalFollowsSource()
    ensures DefaultNormal() == map[
      Name(ScrollDown) := FromStr("j"),
      Name(ScrollUp) := FromStr("k"),
      Name(ScrollTop) := FromStr("gt"),
      Name(ScrollBottom) := FromStr("gb"),
      Name(ScrollHalfDown) := FromStr("C-d"),
      Name(ScrollHalfUp) := FromStr("C-u"),
      Name(GoBack) := FromStr("h"),
      Name(GoForward) := FromStr("l"),
      Name(InsertMode) := FromStr("i"),
      Name(CmdMode) := FromStr(":"),
      Name(ShowHelp) := FromStr("?"),
      Name(ShowURL) := FromStr("go"),
      Name(HardRefreshURL) := FromStr("R"),
      Name(SoftRefreshURL) := FromStr("r"),
      Name(CopyURL) := FromStr("uy"),
      Name(PasteURL) := FromStr("up"),
      Name(SearchNext) := FromStr("n"),
      Name(SearchPrev) := FromStr("N"),
      Name(SearchMode) := FromStr("/")
    ]
  {
    FromStrLiterals();
    NameLiterals();
  }

  /** The default Normal table is prefix-free; `g`, `u` and `C` are never bound alone. */
  lemma DefaultsPrefixFree()
    ensures AllPrefixFree(WithDefaults())
    ensures ["g"] !in DefaultNormal().Values && ["u"] !in DefaultNormal().Values
    ensures ["C"] !in DefaultNormal().Values
    ensures WithDefaults().Keys == {Normal}
  {
    var m := DefaultNormal();
    forall c | c in m
      ensures |m[c]| <= 3 && m[c] != []
      ensures |m[c]| == 1 ==> m[c][0] != "g" && m[c][0] != "u" && m[c][0] != "C"
      ensures |m[c]| == 2 ==> m[c][0] == "g" || m[c][0] == "u"
      ensures |m[c]| == 3 ==> m[c][0] == "C"
    {
    }
    forall c1, c2 | c1 in m && c2 in m
      ensures !IsPrefixOf(m[c1], m[c2])
    {
      IsPrefixOfMeaning(m[c1], m[c2]);
    }
  }

  /** One insertion that passed the conflict test keeps a mode prefix-free;
      it replaces only the sequence previously bound to the same command. */
  lemma InsertKeepsPrefixFree(m: ModeTable, c: string, s: KeySequence)
    requires PrefixFree(m)
    requires !ConflictsWithBound(s, m)
    ensures PrefixFree(m[c := s])
  {
    var m' := m[c := s];
    forall c1, c2 | c1 in m' && c2 in m'
      ensures !IsPrefixOf(m'[c1], m'[c2])
    {
      if c1 == c && c2 == c {
        IsPrefixOfStrict(s, s);
      } else if c1 == c {
        assert !Conflicts(s, m[c2]);
      } else if c2 == c {
        assert !Conflicts(s, m[c1]);
      }
    }
  }

  lemma {:induction false} InsertAllKeepsPrefixFree(m: ModeTable, bs: seq<Binding>)
    requires PrefixFree(m)
    requires InsertAll(m, bs).Ok?
    ensures PrefixFree(InsertAll(m, bs).value)
    decreases |bs|
  {
    if bs != [] {
      var s := FromStr(bs[0].sequence);
      InsertKeepsPrefixFree(m, bs[0].command, s);
      InsertAllKeepsPrefixFree(m[bs[0].command := s], bs[1..]);
    }
  }

  /** Whatever the mode parse and the iteration order, a successful overlay of a
      prefix-free table is prefix-free in every mode. */
  lemma {:induction false} OverlayKeepsPrefixFree(t: Table, cfg: Config, parseMode: string -> Option<KeyMode>)
    requires AllPrefixFree(t)
    requires Overlay(t, cfg, parseMode).Ok?
    ensures AllPrefixFree(Overlay(t, cfg, parseMode).value)
    decreases |cfg|
  {
    if cfg != [] {
      var mode := parseMode(cfg[0].mode).value;
      var base := if mode in t then t[mode] else map[];
      assert PrefixFree(base);
      InsertAllKeepsPrefixFree(base, cfg[0].bindings);
      var m := InsertAll(base, cfg[0].bindings).value;
      assert AllPrefixFree(t[mode := m]);
      OverlayKeepsPrefixFree(t[mode := m], cfg[1..], parseMode);
    }
  }

  /** When `new` returns `Ok`, every mode's bindings are pairwise prefix-free. */
  lemma ConfigureOkIsPrefixFree(config: Option<Config>, parseMode: string -> Option<KeyMode>)
    requires Configure(config, parseMode).Ok?
    ensures AllPrefixFree(Configure(config, parseMode).value)
  {
    DefaultsPrefixFree();
    if config.Some? {
      OverlayKeepsPrefixFree(WithDefaults(), config.value, parseMode);
    }
  }

  /** The bindings a mode's configuration sets, the last entry for a command winning. */
  function Overrides(bs: seq<Binding>): map<string, KeySequence>
    decreases |bs|
  {
    if bs == [] then map[]
    else map[bs[0].command := FromStr(bs[0].sequence)] + Overrides(bs[1..])
  }

  /** A successful insertion run is the old table with the configured
      commands rebound: every other command keeps its sequence. */
  lemma {:induction false} InsertAllOkOverrides(m: ModeTable, bs: seq<Binding>)
    requires InsertAll(m, bs).Ok?
    ensures InsertAll(m, bs).value == m + Overrides(bs)
    decreases |bs|
  {
    if bs != [] {
      var c, s := bs[0].command, FromStr(bs[0].sequence);
      assert InsertAll(m, bs) == InsertAll(m[c := s], bs[1..]);
      InsertAllOkOverrides(m[c := s], bs[1..]);
      var o := Overrides(bs[1..]);
      assert Overrides(bs) == map[c := s] + o;
      Sequences.UpdateThenMerge(m, c, s, o);
    }
  }

  /** A failing insertion run stops at the first entry whose sequence conflicts
      with the table built so far, and reports that entry. */
  lemma {:induction false} InsertAllErrIsFirstConflict(m: ModeTable, bs: seq<Binding>)
    requires InsertAll(m, bs).Err?
    ensures exists k :: (0 <= k < |bs| && InsertAll(m, bs[..k]).Ok?
                         && ConflictsWithBound(FromStr(bs[k].sequence), InsertAll(m, bs[..k]).value)
                         && InsertAll(m, bs).error == InvalidBinding(FromStr(bs[k].sequence), bs[k].command))
    decreases |bs|
  {
    var s := FromStr(bs[0].sequence);
    assert bs[..0] == [];
    if !ConflictsWithBound(s, m) {
      var m' := m[bs[0].command := s];
      InsertAllErrIsFirstConflict(m', bs[1..]);
      var k :| 0 <= k < |bs[1..]| && InsertAll(m', bs[1..][..k]).Ok?
        && ConflictsWithBound(FromStr(bs[1..][k].sequence), InsertAll(m', bs[1..][..k]).value)
        && InsertAll(m', bs[1..]).error == InvalidBinding(FromStr(bs[1..][k].sequence), bs[1..][k].command);
      assert bs[..k + 1][0] == bs[0] && bs[..k + 1][1..] == bs[1..][..k];
      assert InsertAll(m, bs[..k + 1]) == InsertAll(m', bs[1..][..k]);
      assert bs[k + 1] == bs[1..][k];
    }
  }

  /** An "Unknown mode" error names a configured mode that did not parse. */
  lemma {:induction false} OverlayUnknownModeIsConfigured(t: Table, cfg: Config, parseMode: string -> Option<KeyMode>)
    requires Overlay(t, cfg, parseMode).Err? && Overlay(t, cfg, parseMode).error.UnknownMode?
    ensures exists i :: (0 <= i < |cfg| && parseMode(cfg[i].mode).None?
                         && cfg[i].mode == Overlay(t, cfg, parseMode).error.name)
    decreases |cfg|
  {
    if parseMode(cfg[0].mode).Some? {
      var mode := parseMode(cfg[0].mode).value;
      var base := if mode in t then t[mode] else map[];
      var m := InsertAll(base, cfg[0].bindings).value;
      OverlayUnknownModeIsConfigured(t[mode := m], cfg[1..], parseMode);
      var i :| 0 <= i < |cfg[1..]| && parseMode(cfg[1..][i].mode).None?
        && cfg[1..][i].mode == Overlay(t[mode := m], cfg[1..], parseMode).error.name;
      assert cfg[i + 1] == cfg[1..][i];
    }
  }

  /** A mode that no configured name parses to keeps its bindings; every parsed
      mode gets an entry, even with no bindings (`entry(mode).or_default()`). */
  lemma {:induction false} OverlayFraming(t: Table, cfg: Config, parseMode: string -> Option<KeyMode>, mode: KeyMode)
    requires Overlay(t, cfg, parseMode).Ok?
    ensures (forall i :: 0 <= i < |cfg| ==> parseMode(cfg[i].mode) != Some(mode)) ==>
      (mode in Overlay(t, cfg, parseMode).value <==> mode in t)
      && (mode in t ==> Overlay(t, cfg, parseMode).value[mode] == t[mode])
    ensures (exists i :: 0 <= i < |cfg| && parseMode(cfg[i].mode) == Some(mode)) ==>
      mode in Overlay(t, cfg, parseMode).value
    decreases |cfg|
  {
    if cfg != [] {
      var mode0 := parseMode(cfg[0].mode).value;
      var base := if mode0 in t then t[mode0] else map[];
      var m := InsertAll(base, cfg[0].bindings).value;
      OverlayFraming(t[mode0 := m], cfg[1..], parseMode, mode);
      if mode0 == mode {
        OverlayKeepsMode(t[mode0 := m], cfg[1..], parseMode, mode);
      }
      if exists i :: 0 <= i < |cfg| && parseMode(cfg[i].mode) == Some(mode) {
        var i :| 0 <= i < |cfg| && parseMode(cfg[i].mode) == Some(mode);
        if i > 0 {
          assert cfg[1..][i - 1] == cfg[i];
        }
      }
      if forall i :: 0 <= i < |cfg| ==> parseMode(cfg[i].mode) != Some(mode) {
        forall i | 0 <= i < |cfg[1..]| ensures parseMode(cfg[1..][i].mode) != Some(mode) {
          assert cfg[1..][i] == cfg[i + 1];
        }
      }
    }
  }

  /** Overlaying never removes a mode. */
  lemma {:induction false} OverlayKeepsMode(t: Table, cfg: Config, parseMode: string -> Option<KeyMode>, mode: KeyMode)
    requires Overlay(t, cfg, parseMode).Ok?
    requires mode in t
    ensures mode in Overlay(t, cfg, parseMode).value
    decreases |cfg|
  {
    if cfg != [] {
      var mode0 := parseMode(cfg[0].mode).value;
      var base := if mode0 in t then t[mode0] else map[];
      var m := InsertAll(base, cfg[0].bindings).value;
      OverlayKeepsMode(t[mode0 := m], cfg[1..], parseMode, mode);
    }
  }

  /** Without a configuration `new` returns the defaults, whatever the parse. */
  lemma NoConfigGivesDefaults(parseMode: string -> Option<KeyMode>)
    ensures Configure(None, parseMode) == Ok(WithDefaults())
    ensures Configure(Some([]), parseMode) == Ok(WithDefaults())
  {
  }

  /** No lowercased name is a variant name, since every variant name starts
      with an upper-case letter. */
  lemma ParseModeAsWrittenRejectsAll(name: string)
    ensures ParseModeAsWritten(name) == None
  {
    var l := Lower(name);
    forall m: KeyMode ensures ModeName(m) != l {
      if |l| > 0 {
        assert l[0] == LowerChar(name[0]);
      }
    }
  }

  /** As written, `new` fails with "Unknown mode" on every non-empty configuration. */
  lemma NewAsWrittenRejectsEveryConfig(cfg: Config)
    requires cfg != []
    ensures Configure(Some(cfg), ParseModeAsWritten) == Err(UnknownMode(cfg[0].mode))
  {
    ParseModeAsWrittenRejectsAll(cfg[0].mode);
  }

  /** The intended parse accepts each variant name in any letter case, and only those. */
  lemma ParseModeIgnoringCaseAcceptsVariantNames(name: string, m: KeyMode)
    ensures Lower(name) == Lower(ModeName(m)) ==> ParseModeIgnoringCase(name) == Some(m)
    ensures ParseModeIgnoringCase(name) == Some(m) ==> Lower(name) == Lower(ModeName(m))
  {
    var n, i, s, c := Lower("Normal"), Lower("Insert"), Lower("Search"), Lower("Cmd");
    assert n == "normal" && i == "insert" && s == "search" && c == "cmd";
  }

  /** With the intended parse, a configuration naming `insert` in lower case
      gives Insert mode its own table and leaves the defaults as they were. */
  lemma IgnoringCaseConfiguresMode()
    ensures Configure(Some([ModeConfig("insert", [Binding("jk", "normal-mode")])]), ParseModeIgnoringCase)
            == Ok(WithDefaults()[Insert := map["normal-mode" := ["j", "k"]]])
  {
    assert Lower("insert") == "insert";
    assert FromStr("jk") == ["j", "k"];
    assert !ConflictsWithBound(["j", "k"], map[]);
  }

  /** With the intended parse, a lowercase mode name is accepted and an unknown one rejected. */
  lemma IgnoringCaseExamples()
    ensures ParseModeIgnoringCase("normal") == Some(Normal)
    ensures ParseModeIgnoringCase("Insert") == Some(Insert)
    ensures ParseModeIgnoringCase("visual") == None
  {
    assert Lower("normal") == "normal";
    assert Lower("Insert") == "insert";
    assert Lower("visual") == "visual";
  }

  /** Facts about the default Normal table that the examples below rely on. */
  lemma DefaultShape()
    ensures forall c :: c in DefaultNormal() ==> 
      (var k := DefaultNormal()[c];
       1 <= |k| <= 3
       && (|k| == 1 ==> k[0] != "g" && k[0] != "u" && k[0] != "C")
       && (|k| >= 2 ==> k[0] == "g" || k[0] == "u" || k[0] == "C")
       && (k[0] == "j" ==> c == "scroll-down"))
  {
  }

  /** The iteration order decides the outcome: rebinding `scroll-down` to `k`
      first frees `j`, so `jj` is then accepted; in the other order `jj`
      conflicts with `j`. */
  lemma OrderDecidesOutcome()
    ensures InsertAll(DefaultNormal(), [Binding("k", "scroll-down"), Binding("jj", "scroll-bottom")]).Ok?
    ensures InsertAll(DefaultNormal(), [Binding("jj", "scroll-bottom"), Binding("k", "scroll-down")])
            == Err(InvalidBinding(["j", "j"], "scroll-bottom"))
  {
    var m := DefaultNormal();
    var m1 := m["scroll-down" := ["k"]];
    DefaultShape();
    assert FromStr("k") == ["k"] && FromStr("jj") == ["j", "j"];
    assert !ConflictsWithBound(["k"], m);
    assert !ConflictsWithBound(["j", "j"], m1);
    assert InsertAll(m1["scroll-bottom" := ["j", "j"]], []).Ok?;
    assert Conflicts(["j", "j"], m["scroll-down"]);
  }

  /** Rebinding a command is also checked against its own old sequence. */
  lemma RebindCheckedAgainstOwnSequence()
    ensures InsertAll(DefaultNormal(), [Binding("jj", "scroll-down")]).Err?
  {
    assert Conflicts(FromStr("jj"), DefaultNormal()["scroll-down"]);
  }

  /** An identical sequence under another command is accepted. */
  lemma EqualSequenceAccepted()
    ensures InsertAll(DefaultNormal(), [Binding("j", "down-again")]) ==
            Ok(DefaultNormal()["down-again" := ["j"]])
  {
    DefaultShape();
    assert FromStr("j") == ["j"];
    assert !ConflictsWithBound(["j"], DefaultNormal());
  }

  /** Binding the empty sequence succeeds exactly when every sequence already
      bound in the mode is empty too: it is a strict prefix of any other. */
  lemma EmptySequenceAcceptedIff(m: ModeTable, c: string)
    ensures InsertAll(m, [Binding("", c)]).Ok? <==> forall d :: d in m ==> m[d] == []
    ensures InsertAll(m, [Binding("", c)]).Ok? ==> InsertAll(m, [Binding("", c)]).value == m[c := []]
  {
    assert FromStr("") == [];
    if forall d :: d in m ==> m[d] == [] {
      assert !ConflictsWithBound([], m);
      assert InsertAll(m, [Binding("", c)]) == InsertAll(m[c := []], []);
    } else {
      var d :| d in m && m[d] != [];
      assert Conflicts([], m[d]);
    }
  }

  /** Two instances: the empty sequence is accepted in an empty mode and
      rejected in the default Normal table. */
  lemma EmptySequenceOnlyAlone()
    ensures InsertAll(map[], [Binding("", "x")]) == Ok(map["x" := []])
    ensures InsertAll(DefaultNormal(), [Binding("", "x")]).Err?
  {
    assert Conflicts([], DefaultNormal()["scroll-down"]);
  }

  /** The help map shows a bound sequence as the string it was parsed from. */
  lemma HelpMapShowsBoundString(t: Table, mode: KeyMode, c: string, s: string)
    requires mode in t && c in t[mode] && t[mode][c] == FromStr(s)
    ensures c in HelpMap(t, mode) && HelpMap(t, mode)[c] == s
  {
    JoinFromStr(s);
  }

  /** On the defaults `scroll-half-down` is shown as "C-d"; Insert mode, which
      has no bindings, has an empty help map. */
  lemma DefaultHelpMap()
    ensures HelpMap(WithDefaults(), Normal)["scroll-half-down"] == "C-d"
    ensures HelpMap(WithDefaults(), Insert) == map[]
  {
    FromStrLiterals();
    HelpMapShowsBoundString(WithDefaults(), Normal, "scroll-half-down", "C-d");
  }
}
