/**
  The four input modes of the key layer (src/key.rs:29-38) and the
  variant-name text the derived `Display` and `FromStr` implementations use.
 */
module KeyModes {
  import opened Wrappers

  datatype KeyMode = Normal | Insert | Search | Cmd

  /** The default mode is `Normal` (the `#[default]` attribute). */
  const DefaultMode: KeyMode := Normal

  /** `Display`: the variant name, unchanged. */
  function ModeName(m: KeyMode): (r: string)
    ensures |r| >= 3 && 'A' <= r[0] <= 'Z'
  {
    match m
    case Normal => "Normal"
    case Insert => "Insert"
    case Search => "Search"
    case Cmd => "Cmd"
  }

  /** The derived `FromStr`: an exact, case-sensitive match of a variant name. */
  function ParseModeName(s: string): (r: Option<KeyMode>)
    ensures r.Some? ==> ModeName(r.value) == s
    ensures r.None? ==> forall m: KeyMode :: ModeName(m) != s
  {
    if s == "Normal" then Some(Normal)
    else if s == "Insert" then Some(Insert)
    else if s == "Search" then Some(Search)
    else if s == "Cmd" then Some(Cmd)
    else
      assert forall m: KeyMode :: ModeName(m) != s;
      None
  }

  lemma {:induction false} ParseModeNameInvertsModeName(m: KeyMode)
    ensures ParseModeName(ModeName(m)) == Some(m)
  {
    match m
    case Normal =>
    case Insert =>
    case Search =>
    case Cmd =>
  }
}
