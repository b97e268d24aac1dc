/**
  The closed command set (src/action.rs:28-55), its kebab-case wire names,
  and `Action::apply` (src/action.rs:57-98) over an abstract application
  state: the key mode plus a log of the state methods the action calls.
 */
module Actions {
  import opened Wrappers
  import opened KeyModes

  datatype Action =
    | GoBack | GoForward
    | ScrollDown | ScrollUp | ScrollTop | ScrollBottom | ScrollHalfUp | ScrollHalfDown
    | ShowHelp | Exit
    | NormalMode | InsertMode | CmdMode | SearchMode
    | ShowURL | ChangeURL(url: string) | HardRefreshURL | SoftRefreshURL | CopyURL | PasteURL
    | Search(needle: string) | SearchNext | SearchPrev

  /** `#[default] NormalMode`. */
  const DefaultAction: Action := NormalMode

  /** The derived `Display` with `serialize_all = "kebab-case"`; payloads are not shown. */
  function Name(a: Action): string
  {
    match a
    case GoBack => "go-back"
    case GoForward => "go-forward"
    case ScrollDown => "scroll-down"
    case ScrollUp => "scroll-up"
    case ScrollTop => "scroll-top"
    case ScrollBottom => "scroll-bottom"
    case ScrollHalfUp => "scroll-half-up"
    case ScrollHalfDown => "scroll-half-down"
    case ShowHelp => "show-help"
    case Exit => "exit"
    case NormalMode => "normal-mode"
    case InsertMode => "insert-mode"
    case CmdMode => "cmd-mode"
    case SearchMode => "search-mode"
    case ShowURL => "show-url"
    case ChangeURL(_) => "change-url"
    case HardRefreshURL => "hard-refresh-url"
    case SoftRefreshURL => "soft-refresh-url"
    case CopyURL => "copy-url"
    case PasteURL => "paste-url"
    case Search(_) => "search"
    case SearchNext => "search-next"
    case SearchPrev => "search-prev"
  }

  /** The derived `FromStr` (`EnumString`, same kebab-case names, case-sensitive);
      a variant with a payload is built with the payload's default, "". */
  function FromName(s: string): Option<Action>
  {
    match s
    case "go-back" => Some(GoBack)
    case "go-forward" => Some(GoForward)
    case "scroll-down" => Some(ScrollDown)
    case "scroll-up" => Some(ScrollUp)
    case "scroll-top" => Some(ScrollTop)
    case "scroll-bottom" => Some(ScrollBottom)
    case "scroll-half-up" => Some(ScrollHalfUp)
    case "scroll-half-down" => Some(ScrollHalfDown)
    case "show-help" => Some(ShowHelp)
    case "exit" => Some(Action.Exit)
    case "normal-mode" => Some(NormalMode)
    case "insert-mode" => Some(InsertMode)
    case "cmd-mode" => Some(CmdMode)
    case "search-mode" => Some(SearchMode)
    case "show-url" => Some(ShowURL)
    case "change-url" => Some(ChangeURL(""))
    case "hard-refresh-url" => Some(HardRefreshURL)
    case "soft-refresh-url" => Some(SoftRefreshURL)
    case "copy-url" => Some(CopyURL)
    case "paste-url" => Some(PasteURL)
    case "search" => Some(Action.Search(""))
    case "search-next" => Some(SearchNext)
    case "search-prev" => Some(SearchPrev)
    case _ => None
  }

  /** The action with its payload, if any, replaced by the default "". */
  function WithoutPayload(a: Action): Action
  {
    match a
    case ChangeURL(_) => ChangeURL("")
    case Search(_) => Action.Search("")
    case _ => a
  }

  /** Parsing a wire name gives back the action, up to its payload. */
  lemma {:induction false} FromNameInvertsName(a: Action)
    ensures FromName(Name(a)) == Some(WithoutPayload(a))
  {
    match a
    case GoBack =>
    case GoForward =>
    case ScrollDown =>
    case ScrollUp =>
    case ScrollTop =>
    case ScrollBottom =>
    case ScrollHalfUp =>
    case ScrollHalfDown =>
    case ShowHelp =>
    case Exit =>
    case NormalMode =>
    case InsertMode =>
    case CmdMode =>
    case SearchMode =>
    case ShowURL =>
    case ChangeURL(_) =>
    case HardRefreshURL =>
    case SoftRefreshURL =>
    case CopyURL =>
    case PasteURL =>
    case Search(_) =>
    case SearchNext =>
    case SearchPrev =>
  }

  /** Distinct variants have distinct wire names. */
  lemma NameInjective(a: Action, b: Action)
    ensures Name(a) == Name(b) <==> WithoutPayload(a) == WithoutPayload(b)
  {
    FromNameInvertsName(a);
    FromNameInvertsName(b);
    if WithoutPayload(a) == WithoutPayload(b) {
      match a
      case ChangeURL(_) =>
      case Search(_) =>
      case _ =>
    }
  }

  /** The names of the payload-free variants, as the source's display test lists some of them. */
  lemma NameLiterals()
    ensures Name(GoBack) == "go-back" && Name(GoForward) == "go-forward"
    ensures Name(ScrollDown) == "scroll-down" && Name(ScrollUp) == "scroll-up"
    ensures Name(ScrollTop) == "scroll-top" && Name(ScrollBottom) == "scroll-bottom"
    ensures Name(ScrollHalfUp) == "scroll-half-up" && Name(ScrollHalfDown) == "scroll-half-down"
    ensures Name(Action.Exit) == "exit" && Name(ShowHelp) == "show-help"
    ensures Name(NormalMode) == "normal-mode" && Name(InsertMode) == "insert-mode"
    ensures Name(CmdMode) == "cmd-mode" && Name(SearchMode) == "search-mode"
    ensures Name(ShowURL) == "show-url" && Name(HardRefreshURL) == "hard-refresh-url"
    ensures Name(SoftRefreshURL) == "soft-refresh-url" && Name(CopyURL) == "copy-url"
    ensures Name(PasteURL) == "paste-url" && Name(SearchNext) == "search-next"
    ensures Name(SearchPrev) == "search-prev" && Name(DefaultAction) == "normal-mode"
  {
  }

  /** The calls `apply` makes on the application state, in order. */
  datatype StateCall =
    | GoBackCall | GoForwardCall
    | ScrollDownCall | ScrollUpCall | ScrollHalfDownCall | ScrollHalfUpCall | ScrollTopCall | ScrollBottomCall
    | SetKeyMode(mode: KeyMode)
    | ShowHelpCall | ShowUrlCall | ChangeUrlCall(url: string) | RefreshUrl(hard: bool)
    | CopyUrlCall | PasteUrlCall
    | SearchCall(needle: string) | SearchNextCall | SearchPrevCall
    | ExitCall

  /** `tao::event_loop::ControlFlow`. */
  datatype ControlFlow = Poll | Wait | WaitUntil(deadline: int) | Exit | ExitWithCode(code: int)

  /** The sequence of state calls each arm of `apply` makes. */
  function CallsOf(a: Action): seq<StateCall>
  {
    match a
    case GoBack => [GoBackCall]
    case GoForward => [GoForwardCall]
    case ScrollDown => [ScrollDownCall]
    case ScrollUp => [ScrollUpCall]
    case ScrollHalfDown => [ScrollHalfDownCall]
    case ScrollHalfUp => [ScrollHalfUpCall]
    case ScrollTop => [ScrollTopCall]
    case ScrollBottom => [ScrollBottomCall]
    case NormalMode => [SetKeyMode(Normal)]
    case InsertMode => [SetKeyMode(Insert)]
    case CmdMode => [SetKeyMode(Cmd)]
    case SearchMode => [SetKeyMode(KeyMode.Search)]
    case ShowHelp => [ShowHelpCall]
    case ShowURL => [SetKeyMode(Insert), ShowUrlCall]
    case ChangeURL(u) => [ChangeUrlCall(u), SetKeyMode(Normal)]
    case HardRefreshURL => [RefreshUrl(true)]
    case SoftRefreshURL => [RefreshUrl(false)]
    case CopyURL => [CopyUrlCall]
    case PasteURL => [PasteUrlCall]
    case Search(n) => [SearchCall(n)]
    case SearchNext => [SearchNextCall]
    case SearchPrev => [SearchPrevCall]
    case Exit => [ExitCall]
  }

  /** The key mode after a run of calls: the last `SetKeyMode`, else unchanged. */
  function ModeAfter(calls: seq<StateCall>, m: KeyMode): (r: KeyMode)
    ensures (forall k :: 0 <= k < |calls| ==> !calls[k].SetKeyMode?) ==> r == m
    ensures forall k :: 0 <= k < |calls| && calls[k].SetKeyMode? && (forall j :: k < j < |calls| ==> !calls[j].SetKeyMode?) ==> r == calls[k].mode
  {
    if calls == [] then m
    else ModeAfter(calls[1..], if calls[0].SetKeyMode? then calls[0].mode else m)
  }

  /** The abstract application state `apply` works on. */
  class State {
    var keyMode: KeyMode
    var calls: seq<StateCall>

    constructor ()
      ensures keyMode == DefaultMode && calls == []
    {
      keyMode := DefaultMode;
      calls := [];
    }

    /** One call of a state method: logged, and `set_key_mode` also switches the mode. */
    method Call(c: StateCall)
      modifies this
      ensures calls == old(calls) + [c]
      ensures keyMode == if c.SetKeyMode? then c.mode else old(keyMode)
    {
      calls := calls + [c];
      if c.SetKeyMode? {
        keyMode := c.mode;
      }
    }
  }

  /** `Action::apply`: each arm makes its state calls; only `Exit` writes the control flow. */
  method Apply(a: Action, state: State, controlFlow: ControlFlow) returns (flow: ControlFlow)
    modifies state
    ensures state.calls == old(state.calls) + CallsOf(a)
    ensures state.keyMode == ModeAfter(CallsOf(a), old(state.keyMode))
    ensures flow == if a.Exit? then ControlFlow.Exit else controlFlow
  {
    flow := controlFlow;
    match a
    case GoBack => state.Call(GoBackCall);
    case GoForward => state.Call(GoForwardCall);
    case ScrollDown => state.Call(ScrollDownCall);
    case ScrollUp => state.Call(ScrollUpCall);
    case ScrollHalfDown => state.Call(ScrollHalfDownCall);
    case ScrollHalfUp => state.Call(ScrollHalfUpCall);
    case ScrollTop => state.Call(ScrollTopCall);
    case ScrollBottom => state.Call(ScrollBottomCall);
    case NormalMode => state.Call(SetKeyMode(Normal));
    case InsertMode => state.Call(SetKeyMode(Insert));
    case CmdMode => state.Call(SetKeyMode(Cmd));
    case SearchMode => state.Call(SetKeyMode(KeyMode.Search));
    case ShowHelp => state.Call(ShowHelpCall);
    case ShowURL =>
      state.Call(SetKeyMode(Insert));
      state.Call(ShowUrlCall);
    case ChangeURL(u) =>
      state.Call(ChangeUrlCall(u));
      state.Call(SetKeyMode(Normal));
    case HardRefreshURL => state.Call(RefreshUrl(true));
    case SoftRefreshURL => state.Call(RefreshUrl(false));
    case CopyURL => state.Call(CopyUrlCall);
    case PasteURL => state.Call(PasteUrlCall);
    case Search(n) => state.Call(SearchCall(n));
    case SearchNext => state.Call(SearchNextCall);
    case SearchPrev => state.Call(SearchPrevCall);
    case Exit =>
      state.Call(ExitCall);
      flow := ControlFlow.Exit;
  }

  /** The four mode actions select their mode, whatever the mode was. */
  lemma ModeActionsSetMode(m: KeyMode)
    ensures ModeAfter(CallsOf(NormalMode), m) == Normal
    ensures ModeAfter(CallsOf(InsertMode), m) == Insert
    ensures ModeAfter(CallsOf(CmdMode), m) == Cmd
    ensures ModeAfter(CallsOf(SearchMode), m) == KeyMode.Search
  {
    assert CallsOf(NormalMode) == [SetKeyMode(Normal)];
    assert CallsOf(InsertMode) == [SetKeyMode(Insert)];
    assert CallsOf(CmdMode) == [SetKeyMode(Cmd)];
    assert CallsOf(SearchMode) == [SetKeyMode(KeyMode.Search)];
  }

  /** `ShowURL` sets Insert before showing the bar; `ChangeURL` changes the URL
      first and then sets Normal. Either way the mode ends as set. */
  lemma UrlActionsSetMode(m: KeyMode, u: string)
    ensures CallsOf(ShowURL) == [SetKeyMode(Insert), ShowUrlCall]
    ensures CallsOf(ChangeURL(u)) == [ChangeUrlCall(u), SetKeyMode(Normal)]
    ensures ModeAfter(CallsOf(ShowURL), m) == Insert
    ensures ModeAfter(CallsOf(ChangeURL(u)), m) == Normal
  {
    var show := CallsOf(ShowURL);
    assert show[1..] == [ShowUrlCall];
    assert ModeAfter(show, m) == ModeAfter([ShowUrlCall], Insert);
  }

  /** Only the mode actions, `ShowURL` and `ChangeURL` touch the key mode. */
  lemma OtherActionsKeepMode(a: Action, m: KeyMode)
    requires !(a.NormalMode? || a.InsertMode? || a.CmdMode? || a.SearchMode? || a.ShowURL? || a.ChangeURL?)
    ensures ModeAfter(CallsOf(a), m) == m
  {
  }

  /** Payloads are passed through unchanged; the refresh flag follows the variant. */
  lemma PayloadsPassThrough(u: string, n: string)
    ensures CallsOf(ChangeURL(u))[0] == ChangeUrlCall(u)
    ensures CallsOf(Action.Search(n)) == [SearchCall(n)]
    ensures CallsOf(HardRefreshURL) == [RefreshUrl(true)]
    ensures CallsOf(SoftRefreshURL) == [RefreshUrl(false)]
  {
  }
}
