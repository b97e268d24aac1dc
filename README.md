# peyvand, modelled in Dafny

peyvand is a keyboard-driven web browser: a Rust host that holds a webview,
plus JavaScript injected into every page. This project models the input
layer and the small stateful pieces around it, and proves what they
promise.

- **Binding table** (`KeySequences`, `Keybindings`, `KeybindingProperties`).
  A key sequence is a list of one-character keys, compared by a strict
  prefix test. `with_defaults` builds the Normal-mode table. `new` overlays
  a configuration. It rejects a sequence that is a strict prefix of a bound
  one, or has a bound one as a strict prefix, and it rebinds by command
  name. `get_help_map` joins each sequence back into a string. The order
  in which the configuration maps are iterated is a parameter.
- **Key trie** (`KeyTries`, `KeyTrieProperties`). This is the `KeyTrie`
  class of the script the host emits. The script inserts each mode's
  (sequence, command) pairs. `processKey` has three outcomes: invalid,
  pending, or a resolved command.
- **Key handler** (`KeyHandlers`, `KeyHandlerProperties`). This is the
  `keydown` listener, with its mode, command-line buffer, search buffer,
  one trie per mode and the messages posted to the host.
- **Draft handler** (`DraftKeys`). This is the older stand-alone listener
  of `src/keybindings.js`.
- **Actions** (`Actions`). The command set, its kebab-case wire names, and
  `Action::apply` over an abstract application state. That state is the
  key mode plus a log of the state methods called.
- **History** (`Histories`). The back/forward URL stack with its index,
  proved against a zipper description of the same history.
- **Cookies** (`Cookies`). The storage policy and the accept predicate.
  Cookies are kept in a `name=value` line file. Rust's `str::lines`,
  `split_once` and `trim` are modelled exactly. The model proves that
  saving and then loading gives back, in order, the name and value of every
  cookie the policy accepts, without its expiry. This holds when the name
  has no `=`, neither name nor value has a line feed, and neither has
  leading or trailing whitespace. A cookie named " a" is saved as " a=v" and
  loads back as "a".
- **Search** (`Search`). The needle is escaped into a literal regular
  expression. Each text node is split into gaps and highlight marks. The
  current-match index cycles through the marks, using JavaScript's `%`.
- **Hints** (`Hints`). Every link gets the upper-case base-36 label of its
  position in the link query result.

The file system, the webview and the DOM are parameters: a `FileState`, a
sequence of cookies, a sequence of text nodes, and a sequence of links with
their sizes. Messages posted to the host are collected in an `outbox`
sequence.

## Model

| member | source | states |
|---|---|---|
| KeyModes.ModeName | src/key.rs:29-38 | a mode is displayed as its variant name, which starts with an upper-case letter |
| KeyModes.ParseModeName | src/key.rs:29-38 | the derived `FromStr` accepts exactly the four variant names, case-sensitively, and rejects every other string |
| KeyModes.ParseModeNameInvertsModeName | src/key.rs:29-38 | parsing a mode's displayed name gives back that mode |
| KeySequences.FromStr | src/key.rs:44-46 | one key per character of the string, in order, each key that one character |
| KeySequences.IsPrefixOfMeaning | src/key.rs:48-53 | `is_prefix_of` holds exactly when the first sequence is strictly shorter and is an initial segment of the second |
| KeySequences.IsPrefixOfStrict | src/key.rs:48-53 | no sequence is a prefix of itself; the relation is asymmetric; the empty sequence is a prefix of exactly the non-empty ones |
| KeySequences.EqualSequencesDoNotConflict | src/key.rs:124 | two equal sequences never conflict |
| KeySequences.JoinFromStr | src/key.rs:147 | joining the keys of `from_str(s)` gives back `s` |
| KeySequences.FromStrInjective | src/key.rs:44-46 | distinct strings parse to distinct key sequences |
| KeySequences.FromStrExamples | src/key.rs:44-46 | "gt" is the two keys g, t, and "C-d" is the three keys C, -, d |
| Actions.Name | src/action.rs:28-55 | defines the derived kebab-case `Display` name of each variant, payloads not shown; `FromNameInvertsName`, `NameInjective` and `NameLiterals` prove its properties |
| Actions.FromName | src/action.rs:28-55 | defines the derived case-sensitive `FromStr` on the same names, payloads set to "", anything else `None`; `FromNameInvertsName` proves it inverts `Name` |
| Actions.FromNameInvertsName | src/action.rs:28-55 | parsing an action's kebab-case name gives back the action; a payload comes back as its default "" |
| Actions.NameInjective | src/action.rs:28-55 | two actions have the same wire name exactly when they are the same variant |
| Actions.NameLiterals | src/action.rs:104-124 | the wire names, including those the display test lists; the default action is displayed as `normal-mode` |
| Actions.ModeAfter | src/action.rs:68-80 | after a run of state calls, the mode is the one the last `set_key_mode` of the run set, wherever it stands; a run without `set_key_mode` keeps the mode |
| Actions.State.Call | src/action.rs:58-96 | a state-method call is logged, and only `set_key_mode` changes the key mode |
| Actions.Apply | src/action.rs:58-96 | `apply` makes exactly the state calls of the action's arm, in order, and leaves the key mode as the last one set; the control flow becomes `Exit` for `Exit` and is untouched otherwise |
| Actions.ModeActionsSetMode | src/action.rs:68-71 | the four mode actions select Normal, Insert, Cmd and Search, whatever the previous mode |
| Actions.UrlActionsSetMode | src/action.rs:73-80 | `ShowURL` sets Insert and then shows the bar; `ChangeURL(u)` changes to `u` and then sets Normal |
| Actions.OtherActionsKeepMode | src/action.rs:58-96 | every action other than the mode and URL ones leaves the key mode unchanged |
| Actions.PayloadsPassThrough | src/action.rs:77-88 | the URL and the needle are passed through unchanged; hard refresh passes `true` and soft refresh passes `false` |
| Keybindings.InsertAll | src/key.rs:120-133 | one mode's loop fails only with an invalid-binding error; when it succeeds, every command bound before is still bound |
| Keybindings.LowerChar | src/key.rs:115 | lowercasing maps A-Z to a-z and leaves every other character unchanged |
| Keybindings.Lower | src/key.rs:115 | the lowercased name has the same length and no capital A-Z left, and a name without capitals comes back unchanged |
| Keybindings.HasConflict | src/key.rs:123-130 | the loop over the bound sequences reports a conflict exactly when the new sequence conflicts with some bound one |
| Keybindings.DefaultNormal | src/key.rs:66-109 | defines the default Normal table, one entry per `normal.insert`; `DefaultNormalFollowsSource`, `DefaultsPrefixFree` and `DefaultShape` prove its properties |
| Keybindings.WithDefaults | src/key.rs:66-109 | defines `with_defaults`: Normal bound to the default table and no other mode; `DefaultsPrefixFree` and `NoConfigGivesDefaults` prove its properties |
| Keybindings.Overlay | src/key.rs:113-137 | defines the loop over the configured modes: parse the name or fail with "Unknown mode", run the binding loop on the mode's entry or an empty one, and stop at the first error; `OverlayKeepsPrefixFree`, `OverlayFraming`, `OverlayKeepsMode` and `OverlayUnknownModeIsConfigured` prove its properties |
| Keybindings.Configure | src/key.rs:110-138 | defines `new`: the defaults without a configuration, else the defaults overlaid; `ConfigureOkIsPrefixFree`, `NoConfigGivesDefaults` and `NewAsWrittenRejectsEveryConfig` prove its properties |
| Keybindings.New | src/key.rs:110-138 | `new` returns the defaults overlaid with the configuration, stopping at the first error |
| Keybindings.HelpMap | src/key.rs:142-151 | the help map has the mode's commands, each with its joined sequence; a mode without bindings gets an empty map |
| KeybindingProperties.FromStrLiterals | src/key.rs:70-105 | the key sequences of the default table's literal strings |
| KeybindingProperties.DefaultNormalFollowsSource | src/key.rs:66-109 | the default Normal table binds each action's display name to `from_str` of its literal |
| KeybindingProperties.DefaultsPrefixFree | src/key.rs:66-109 | the default table has only Normal mode, and it is prefix-free; `g`, `u` and `C` are never bound alone |
| KeybindingProperties.InsertKeepsPrefixFree | src/key.rs:123-132 | an insertion that passed the conflict test keeps a mode prefix-free, including when it replaces a command's old sequence |
| KeybindingProperties.InsertAllKeepsPrefixFree | src/key.rs:120-133 | a successful loop over one mode's bindings keeps the mode prefix-free |
| KeybindingProperties.OverlayKeepsPrefixFree | src/key.rs:113-135 | for any mode parse and any iteration order, a successful overlay keeps every mode prefix-free |
| KeybindingProperties.ConfigureOkIsPrefixFree | src/key.rs:110-138 | whenever `new` returns `Ok`, every mode's bindings are pairwise prefix-free |
| KeybindingProperties.InsertAllOkOverrides | src/key.rs:120-133 | a successful loop gives the old table with the configured commands rebound, the last entry for a command winning; every other command keeps its sequence |
| KeybindingProperties.InsertAllErrIsFirstConflict | src/key.rs:120-130 | a failing loop reports the first entry whose sequence conflicts with the table built so far |
| KeybindingProperties.OverlayUnknownModeIsConfigured | src/key.rs:114-116 | an "Unknown mode" error names a configured mode that did not parse |
| KeybindingProperties.OverlayFraming | src/key.rs:118 | a mode no configured name parses to keeps its bindings; every parsed mode gets an entry, even with no bindings |
| KeybindingProperties.OverlayKeepsMode | src/key.rs:113-135 | overlaying never removes a mode |
| KeybindingProperties.NoConfigGivesDefaults | src/key.rs:110-137 | without a configuration, or with an empty one, `new` returns the defaults |
| KeybindingProperties.ParseModeAsWrittenRejectsAll | src/key.rs:115 | the variant-name parse of a lowercased name fails for every name |
| KeybindingProperties.NewAsWrittenRejectsEveryConfig | src/key.rs:114-116 | as written, `new` fails with "Unknown mode", naming the first configured mode, on every non-empty configuration |
| KeybindingProperties.ParseModeIgnoringCaseAcceptsVariantNames | src/key.rs:115 | the intended parse accepts a name exactly when it equals a variant name up to letter case |
| KeybindingProperties.IgnoringCaseConfiguresMode | src/key.rs:113-137 | with the intended parse, a configuration naming `insert` in lower case creates the Insert table and keeps the defaults |
| KeybindingProperties.IgnoringCaseExamples | src/key.rs:115 | with the intended parse, "normal" and "Insert" are accepted and "visual" is rejected |
| KeybindingProperties.DefaultShape | src/key.rs:66-109 | the default sequences have one to three keys; g, u and C start only the longer ones; only `scroll-down` starts with j |
| KeybindingProperties.OrderDecidesOutcome | src/key.rs:120-132 | rebinding `scroll-down` to `k` before binding `jj` succeeds; in the other order `jj` conflicts with `j` |
| KeybindingProperties.RebindCheckedAgainstOwnSequence | src/key.rs:123-129 | rebinding a command is also checked against that command's own old sequence |
| KeybindingProperties.EqualSequenceAccepted | src/key.rs:124-132 | an identical sequence under another command is accepted |
| KeybindingProperties.EmptySequenceAcceptedIff | src/key.rs:121-132 | binding the empty sequence succeeds exactly when every sequence bound in the mode is empty, and then it binds the command to the empty sequence |
| KeybindingProperties.EmptySequenceOnlyAlone | src/key.rs:121-132 | two instances: the empty sequence is accepted in an empty mode and rejected in the default Normal table |
| KeybindingProperties.HelpMapShowsBoundString | src/key.rs:142-151 | the help map shows a bound sequence as the string it was parsed from |
| KeybindingProperties.DefaultHelpMap | src/key.rs:142-151 | on the defaults, `scroll-half-down` is shown as "C-d"; Insert mode's help map is empty |
| KeyTries.Inserted | src/key.rs:186-193 | `insert` adds the missing nodes along the sequence without a command, sets the command of the last node and changes no other node |
| KeyTries.InsertedWellFormed | src/key.rs:186-193 | insertion keeps the nodes a tree: the root and every node on the path to a node exist |
| KeyTries.Step | src/key.rs:195-208 | `processKey` is invalid exactly when the cursor has no child for the key; a resolved command is that child's non-empty command; pending moves the cursor to the child; every other outcome resets it to the root |
| KeyTries.KeyTrie.constructor | src/key.rs:173-184 | a fresh trie is only a root without a command, with the cursor on it |
| KeyTries.KeyTrie.Insert | src/key.rs:186-193 | the walk leaves the nodes as `Inserted` describes and does not move the cursor |
| KeyTries.KeyTrie.ProcessKey | src/key.rs:195-208 | the new cursor and the outcome are those of `Step`; no node changes |
| KeyTries.KeyTrie.Reset | src/key.rs:210-212 | the cursor goes back to the root |
| KeyTrieProperties.LastCommand | src/key.rs:186-193 | the last command inserted at a path; none exactly when that path was never inserted |
| KeyTrieProperties.BuildNodes | src/key.rs:186-193 | after a run of inserts, a path is a node exactly when it is the root or lies on an inserted sequence |
| KeyTrieProperties.EntryIsNode | src/key.rs:186-193 | every prefix of an inserted sequence is a node |
| KeyTrieProperties.BuildCommand | src/key.rs:186-193 | each node holds the command of the last insert at its path, or none |
| KeyTrieProperties.BuildWellFormed | src/key.rs:186-193 | the emitted trie is a tree |
| KeyTrieProperties.InsertOverwrites | src/key.rs:192 | inserting a sequence again overwrites its command, as if the first insert had not happened |
| KeyTrieProperties.Emit | src/key.rs:226-234 | the emitted pairs are the mode's (sequence, command) pairs, in the map's iteration order |
| KeyTrieProperties.FeedAlongPath | src/key.rs:195-208 | keys along a path of nodes without a command are all pending, and the cursor follows the path |
| KeyTrieProperties.NothingBoundOnTheWay | src/key.rs:226-234 | in the trie of a prefix-free mode, no strict prefix of a bound sequence carries a command |
| KeyTrieProperties.FeedDivergentIsInvalid | src/key.rs:195-208 | keys along node paths are pending up to the first key whose path is not a node, which is invalid and puts the cursor back at the root |
| KeyTrieProperties.FeedLastKey | src/key.rs:195-208 | the last key of a pending path whose node has a command resolves that command and resets the cursor |
| KeyTrieProperties.LastCommandOfBound | src/key.rs:226-234 | the last command inserted at a bound sequence is a command bound to that sequence |
| KeyTrieProperties.PendingAlongBound | src/key.rs:195-234 | every key of a bound sequence except the last leaves the trie pending |
| KeyTrieProperties.BoundIsNode | src/key.rs:186-234 | a bound sequence is a node of the emitted trie, holding a non-empty command |
| KeyTrieProperties.BoundSequenceResolves | src/key.rs:186-234 | typing a bound sequence of a prefix-free mode is pending on every key but the last, which resolves a command bound to that sequence and resets the cursor |
| KeyTrieProperties.BoundSequenceResolvesToItself | src/key.rs:186-234 | when no other command shares the sequence, it resolves to its own command |
| KeyTrieProperties.InsertAllKeepsSingleCharacterKeys | src/key.rs:120-132 | configured bindings keep every key one character long |
| KeyTrieProperties.OverlayKeepsSingleCharacterKeys | src/key.rs:113-135 | an overlay keeps every key of every mode one character long |
| KeyTrieProperties.ConfiguredKeysAreSingleCharacters | src/key.rs:110-138 | every table `new` returns binds only one-character keys |
| KeyTrieProperties.BuildPathsUseBoundKeys | src/key.rs:186-193 | every key on a trie path is a key of some inserted sequence |
| KeyTrieProperties.CtrlChordIsInvalid | src/key.rs:254 | the "C-" + key token of a ctrl chord is never a child in such a trie, so it is invalid and resets the cursor |
| KeyTrieProperties.DefaultHalfPageOwner | src/key.rs:77-80 | only `scroll-half-down` is bound to C, -, d in the default table |
| KeyTrieProperties.DefaultHalfPageIsThreeKeys | src/key.rs:77-80 | in the default trie, C then - then d is pending, pending, then resolves `scroll-half-down` |
| KeyTrieProperties.DefaultGThenXIsInvalid | src/key.rs:72-91 | in the default trie, g is pending and then x is invalid with the cursor back at the root, since no default sequence starts with g, x |
| KeyHandlers.KeyName | src/key.rs:253-254 | a ctrl chord's key name is two characters longer, starts with "C-" and continues with the key; otherwise it is the key itself |
| KeyHandlers.Next | src/key.rs:240-345 | defines one `keydown` event of the listener on a snapshot: Escape outside Normal, the Cmd and Search line editors, or the current mode's trie; `KeyHandler.KeyDown` is proved equal to it, and the `KeyHandlerProperties` lemmas prove its properties |
| KeyHandlers.ModeCommandTarget | src/key.rs:310-334 | exactly the four mode commands switch the displayed mode |
| KeyHandlers.Edit | src/key.rs:265-277 | Backspace drops the last character of a non-empty buffer; a one-character key with neither ctrl nor meta is appended; any other key leaves the buffer unchanged |
| KeyHandlers.ResetIn | src/key.rs:338-339 | the new mode's trie, if there is one, gets its cursor reset; no other trie changes |
| KeyHandlers.EmittedTries | src/key.rs:217-236 | the script creates a trie for every bound mode except Cmd |
| KeyHandlers.NewTrie | src/key.rs:222-234 | a new trie into which the mode's pairs are inserted in iteration order |
| KeyHandlers.Prevented | src/key.rs:240-308 | defines whether one `keydown` event calls `preventDefault`: a leaving Escape, the line editor's keys, or a resolved trie command; `KeyHandler.KeyDown` is proved equal to it, and `PreventedIffPosts`, `LinePreventedIffHandled`, `NoTrieNeverPrevents` and `DefaultPrevention` prove its properties |
| KeyHandlers.LineKeyPrevented | src/key.rs:257-297 | defines the keys the Cmd and Search editors prevent: Enter, Backspace (even on an empty buffer) and a typed character; `LinePreventedIffHandled` proves what that means |
| KeyHandlers.KeyHandler.constructor | src/key.rs:156-236 | the page starts in Normal mode with empty buffers, nothing posted and the emitted tries |
| KeyHandlers.KeyHandler.EmitTries | src/key.rs:217-236 | the loop over the table's modes creates the emitted trie of each mode except Cmd |
| KeyHandlers.KeyHandler.EmitNext | src/key.rs:218-235 | one iteration of that loop adds the trie of one more mode |
| KeyHandlers.KeyHandler.EmitMode | src/key.rs:221-234 | a mode's trie is created and filled with that mode's pairs |
| KeyHandlers.KeyHandler.AddTrie | src/key.rs:222-225 | `window.keyTries[m]` is set to the new trie, and no other trie changes |
| KeyHandlers.KeyHandler.ResetTrie | src/key.rs:247-248 | the mode's trie, if any, gets its cursor reset to the root |
| KeyHandlers.KeyHandler.ProcessKey | src/key.rs:305 | `processKey` on the current mode's trie, leaving the other tries alone |
| KeyHandlers.KeyHandler.KeyDown | src/key.rs:240-345 | the listener changes the page state as the transition function `Next` says, reports whether it called `preventDefault` as `Prevented` says, and never replaces a trie object |
| KeyHandlers.KeyHandler.AnyOtherKey | src/key.rs:253-344 | every key other than a leaving Escape goes to the Cmd branch, the Search branch or the mode's trie, and does nothing (and prevents nothing) in a mode without a trie |
| KeyHandlers.KeyHandler.LineKey | src/key.rs:256-299 | the Cmd and Search branches together; the default is prevented as `LineKeyPrevented` says |
| KeyHandlers.KeyHandler.EscapeKey | src/key.rs:243-251 | Escape outside Normal switches to Normal, posts `normal-mode` and resets the Normal trie |
| KeyHandlers.KeyHandler.CommandLineKey | src/key.rs:256-278 | the Cmd branch: Enter posts the command line and `normal-mode`, clears the buffer and returns to Normal; other keys edit the buffer; Enter, Backspace and a typed character are prevented |
| KeyHandlers.KeyHandler.SearchLineKey | src/key.rs:279-298 | the Search branch: Enter posts the needle and `normal-mode` and returns to Normal, keeping the buffer; other keys edit the buffer; Enter, Backspace and a typed character are prevented |
| KeyHandlers.KeyHandler.TrieModeKey | src/key.rs:300-344 | the trie branch: one `processKey`, then a resolved command is posted and dispatched; the default is prevented exactly when the key resolves a command |
| KeyHandlers.KeyHandler.PostAndResolve | src/key.rs:306-340 | the resolved command is posted, then dispatched |
| KeyHandlers.KeyHandler.Resolve | src/key.rs:310-340 | a mode command switches the mode, clears the buffer of Cmd or Search when entering it, and resets the new mode's trie |
| KeyHandlerProperties.OutboxOnlyGrows | src/key.rs:240-345 | one event posts at most two messages and never withdraws a message |
| KeyHandlerProperties.DispatchKeepsNodes | src/key.rs:310-340 | dispatching a command changes no trie's nodes, and every cursor stays on a node |
| KeyHandlerProperties.TrieKeyKeepsNodes | src/key.rs:302-343 | a key in the trie branch changes no trie's nodes, and every cursor stays on a node |
| KeyHandlerProperties.NodesNeverChange | src/key.rs:240-345 | no event adds, removes or changes a trie's nodes; only cursors move, and they stay on nodes |
| KeyHandlerProperties.EscapeReturnsToNormal | src/key.rs:243-251 | Escape outside Normal mode returns to Normal and posts `normal-mode`, and both buffers are kept |
| KeyHandlerProperties.CommandLineBackspaceUndoesTyping | src/key.rs:265-277 | in Cmd mode, typing a character and then pressing Backspace gives back the same state |
| KeyHandlerProperties.SearchLineBackspaceUndoesTyping | src/key.rs:286-297 | the same holds in Search mode |
| KeyHandlerProperties.ChordsAreNotTyped | src/key.rs:271 | a ctrl or meta chord is never typed into the command line |
| KeyHandlerProperties.TypingAppends | src/key.rs:271-276 | typing text in Cmd mode appends it to the buffer and posts nothing |
| KeyHandlerProperties.CommandLineSubmits | src/key.rs:257-264 | a command line typed from an empty buffer, then Enter, posts `command:` + text then `normal-mode`, empties the buffer and returns to Normal |
| KeyHandlerProperties.SearchSubmitKeepsNeedle | src/key.rs:280-285 | Enter in Search mode posts `search:` + buffer then `normal-mode`, returns to Normal and keeps the buffer |
| KeyHandlerProperties.PreventedIffPosts | src/key.rs:243-308 | outside Cmd and Search, an event prevents the default exactly when it posts a message, so pending and invalid trie keys are left to the page |
| KeyHandlerProperties.LinePreventedIffHandled | src/key.rs:256-299 | in Cmd and Search, an event prevents the default exactly when it is Backspace or changes the page state; chords and untyped keys change nothing and are left to the page |
| KeyHandlerProperties.NoTrieNeverPrevents | src/key.rs:302-303 | in a mode without a trie, such as Insert, every key but a leaving Escape is left to the page and changes nothing |
| KeyHandlerProperties.DefaultPrevention | src/key.rs:302-308 | with the default Normal trie, `g` and then `x` are not prevented, and `:` is |
| KeyHandlerProperties.NextInTrieMode | src/key.rs:300-305 | outside Cmd and Search, an event other than a leaving Escape goes to the mode's trie |
| KeyHandlerProperties.TrieKeyPending | src/key.rs:302-343 | a key the trie does not resolve only moves the cursor |
| KeyHandlerProperties.TrieKeyResolved | src/key.rs:305-340 | a resolved key posts the command, resets the cursor and dispatches the command |
| KeyHandlerProperties.PendingKeysOnlyMoveCursor | src/key.rs:302-343 | while the trie stays pending, keys post nothing and change nothing but the cursor |
| KeyHandlerProperties.ResolvingKeysPostCommand | src/key.rs:302-343 | a run of keys resolved on its last key posts the command once and dispatches it, with the cursor back at the root |
| KeyHandlerProperties.TypingBoundSequencePostsCommand | src/key.rs:217-345 | with the emitted trie, typing a sequence bound in a prefix-free mode posts exactly its command and dispatches it |
| KeyHandlerProperties.CtrlChordPostsNothing | src/key.rs:253-343 | a ctrl chord in a trie mode posts nothing, keeps the mode and sends the cursor back to the root |
| KeyHandlerProperties.DefaultsAreEmittable | src/key.rs:66-109 | no default command or key holds a double quote, backslash, carriage return or line feed, so the default script parses |
| KeyHandlerProperties.AsWrittenEmitsOnlyDefaults | src/key.rs:110-138 | with the mode parse as written, every table `new` returns is the default table, so every script emitted parses |
| KeyHandlerProperties.UnescapedKeyIsAccepted | src/key.rs:227-232 | with the corrected mode parse, a configured backslash key is accepted, giving a table whose emitted script would not parse |
| KeyHandlerProperties.DefaultCommandModeOwner | src/key.rs:88 | only `cmd-mode` is bound to ":" in the default table |
| KeyHandlerProperties.DefaultColonOpensCommandLine | src/key.rs:323-327 | with the default trie, ":" posts `cmd-mode` and enters Cmd mode with an empty command line |
| KeyHandlerProperties.DefaultCommandLineFlow | src/key.rs:240-345 | with the default trie, ":" then a command line then Enter posts `cmd-mode`, `command:` + text and `normal-mode`, and ends in Normal with an empty buffer |
| DraftKeys.Step | src/keybindings.js:5-66 | defines one `keydown` event of the draft listener and whether it prevents the default; `DraftHandler.KeyDown` is proved equal to it, and `EscapeReturnsToNormal`, `NormalModeKeys`, `InsertModeIgnoresKeys` and `CommandModeKeys` prove its properties |
| DraftKeys.NormalMessage | src/keybindings.js:18-35 | exactly h, l, j and k post a message without changing mode |
| DraftKeys.EscapeReturnsToNormal | src/keybindings.js:9-17 | Escape outside Normal returns to Normal, posts `mode-normal` and clears the buffer; in Normal it does nothing |
| DraftKeys.NormalModeKeys | src/keybindings.js:18-47 | h, l, j and k post go-back, go-forward, scroll-down and scroll-up; i enters Insert; ":" enters Command with an empty buffer; every other key is ignored |
| DraftKeys.InsertModeIgnoresKeys | src/keybindings.js:48-53 | Insert mode ignores every key; its inner Escape test is never reached |
| DraftKeys.CommandModeKeys | src/keybindings.js:54-65 | Enter posts the command line and clears it but stays in Command; Backspace is ignored; a one-character key with neither ctrl nor meta is appended |
| DraftKeys.TypingAppends | src/keybindings.js:59-64 | typing text in Command mode appends it and posts nothing |
| DraftKeys.CommandLineFlow | src/keybindings.js:41-58 | ":" then a command line then Enter posts `mode-command` and `command:` + text, and stays in Command with an empty buffer |
| DraftKeys.DraftHandler.constructor | src/keybindings.js:1-4 | the page starts in Normal mode with an empty buffer |
| DraftKeys.DraftHandler.KeyDown | src/keybindings.js:5-66 | the listener changes the state and reports `preventDefault` as the transition function `Step` says |
| Histories.History.constructor | src/history.rs:38-43 | `new(u)` is the one-entry stack [u] at index 0 |
| Histories.History.Default | src/history.rs:28-36 | the default history is the home page alone, at index 0 |
| Histories.History.Push | src/history.rs:45-49 | the entries up to the index are kept, the URL is appended and becomes current, and nothing is left ahead |
| Histories.History.Back | src/history.rs:51-58 | at index 0 nothing changes and `None` is returned; otherwise the index drops by one and the new current entry is returned |
| Histories.History.Forward | src/history.rs:60-67 | at the last entry nothing changes and `None` is returned; otherwise the index rises by one and the new current entry is returned |
| Histories.History.Current | src/history.rs:69-71 | the current entry is on the stack; the index invariant keeps it in bounds |
| Histories.RetreatFailsOnlyAtStart | src/history.rs:51-58 | going back fails exactly at the first entry, and then changes nothing |
| Histories.AdvanceFailsOnlyAtEnd | src/history.rs:60-67 | going forward fails exactly at the last entry, and then changes nothing |
| Histories.NavigationKeepsEntries | src/history.rs:51-67 | back and forward never change the stack, only the index |
| Histories.RetreatThenAdvance | src/history.rs:51-67 | a successful back followed by forward restores the history and returns the page that was left |
| Histories.AdvanceThenRetreat | src/history.rs:51-67 | a successful forward followed by back restores the history and returns the page that was left |
| Histories.RetreatNSteps | src/history.rs:51-58 | going back n times, with n at most the index, keeps the stack, lowers the index by n and shows the entry n places back |
| Histories.RetreatToStart | src/history.rs:51-58 | going back as often as the index says reaches the first entry, and one more back returns `None` and changes nothing |
| Histories.VisitTruncates | src/history.rs:45-49 | a push keeps the entries up to the current one and appends the URL; afterwards forward returns `None` |
| Histories.PushAfterBackDiscardsAhead | src/history.rs:45-58 | push(a), push(b), back(), push(c) leaves [seed, a, c], with c current and nothing ahead |
| Histories.BackThenForward | src/history.rs:51-67 | on the class, a successful back then forward restores the index and returns the page that was left |
| Cookies.ParsePolicy | src/cookie.rs:40-45 | "none" gives None and "session" gives SessionOnly; any other string, or no policy, gives All |
| Cookies.NewManager | src/cookie.rs:39-51 | the manager keeps the file and the parsed policy |
| Cookies.Accept | src/cookie.rs:86-92 | defines `accept`: All keeps every cookie, None none, SessionOnly those without an expiry; `PolicyNoneKeepsNothing` and `LoadedAreSessionCookies` prove its properties |
| Cookies.Lines | src/cookie.rs:57 | defines `str::lines`: split after each line feed, dropping it and a carriage return just before it, with no empty line after a final line feed; `LinesAppend`, `LinesCons` and `LinesOfOneLine` prove its properties |
| Cookies.Trim | src/cookie.rs:59 | defines `str::trim` as `TrimEnd` after `TrimStart`; those two and `TrimIdentity` prove its properties |
| Cookies.IndexOf | src/cookie.rs:58 | the position of the first occurrence, or the length when there is none |
| Cookies.SplitOnce | src/cookie.rs:58 | `split_once` fails exactly when the separator is absent; otherwise it splits at the first one |
| Cookies.TrimStart | src/cookie.rs:59 | the leading whitespace is removed, and no more |
| Cookies.TrimEnd | src/cookie.rs:59 | the trailing whitespace is removed, and no more |
| Cookies.TrimIdentity | src/cookie.rs:59 | `trim` leaves a string unchanged exactly when it is empty or starts and ends with a non-space |
| Cookies.ParseLine | src/cookie.rs:58-59 | a line without `=` is skipped; otherwise the name and the value are the trimmed text on each side of the first `=`, and there is no expiry |
| Cookies.LoadedFromLine | src/cookie.rs:58-62 | a line contributes at most its parsed cookie, and only when the policy accepts that cookie |
| Cookies.LoadCookies | src/cookie.rs:53-70 | with no file, nothing is applied and the result is `Ok`; a missing file is logged and the result is `Ok`; a read error is an error; otherwise the accepted cookies of the file's lines are applied, in order |
| Cookies.ApplyLines | src/cookie.rs:57-64 | the loop applies the accepted cookie of every line that parses, in line order |
| Cookies.SaveCookies | src/cookie.rs:72-84 | with no file, nothing is written; otherwise the content is one `name=value` line per accepted cookie, in the webview's order |
| Cookies.PolicyNoneKeepsNothing | src/cookie.rs:86-92 | under None, nothing is loaded and the content written is empty |
| Cookies.LoadedAreSessionCookies | src/cookie.rs:59-60 | a loaded cookie has no expiry, so SessionOnly loads exactly what All loads |
| Cookies.LinesAppend | src/cookie.rs:57 | text that is empty or ends in a line feed splits into lines on its own |
| Cookies.LinesCons | src/cookie.rs:57 | a line without a line feed, then a line feed, is the first line minus any carriage return |
| Cookies.SavedEndsWithLineFeed | src/cookie.rs:78 | saved content is empty or ends with a line feed |
| Cookies.LinesOfOneLine | src/cookie.rs:57 | a single line ending in a line feed, with no carriage return before it, is read as that line |
| Cookies.SplitAtFirstEquals | src/cookie.rs:58 | `name=value` splits back into the name and the value when the name has no `=` |
| Cookies.LineReadsBack | src/cookie.rs:57-59 | the line written for a storable cookie reads back as that cookie without its expiry |
| Cookies.LoadedFromSavedLine | src/cookie.rs:58-62 | the saved line of an accepted storable cookie loads as that cookie without its expiry |
| Cookies.SaveThenLoadOneMore | src/cookie.rs:57-79 | one more accepted cookie saved gives one more cookie loaded |
| Cookies.SaveThenLoad | src/cookie.rs:57-79 | saving and then loading gives back, in order, the name and value of every accepted cookie whose name has no `=`, whose name and value have no line feed, and which have nothing around them for `trim` to remove |
| Search.EscapeRegExp | src/search.rs:41-43 | escaping never shortens the needle and keeps the empty needle empty |
| Search.EscapeIsLiteral | src/search.rs:41-43 | the escaped needle is a pattern of literal atoms only, and it stands for the needle itself |
| Search.EscapeLength | src/search.rs:41-43 | escaping adds exactly one backslash for each special character: full stop, star, plus, question mark, caret, dollar, braces, parentheses, vertical bar, brackets and backslash |
| Search.GapBefore | src/search.rs:95-99 | at most one gap before a match, and only when some text was skipped |
| Search.GapBeforeConcat | src/search.rs:95-99 | the gap before a match holds exactly the text since the previous match |
| Search.SplitFromConcat | src/search.rs:89-111 | the pieces from any scan point concatenate to the rest of the text |
| Search.SplitFromMarksMatch | src/search.rs:94-107 | every mark is an occurrence of the needle, ignoring case |
| Search.SplitFromGapsSeparated | src/search.rs:94-111 | gaps are never empty and two gaps are never adjacent |
| Search.SplitFromLeftmost | src/search.rs:94-111 | no match of the needle starts inside a gap: matches are taken left to right, without overlap |
| Search.SplitProperties | src/search.rs:89-114 | a node's pieces concatenate to its text, every mark is an occurrence of the needle, gaps are non-empty and never adjacent, and no occurrence starts inside a gap |
| Search.SplitText | src/search.rs:89-114 | the replace callback's loop over one text node emits exactly the split of that node |
| Search.MarksOfMatch | src/search.rs:86-118 | every mark collected from the page is an occurrence of the needle |
| Search.JsRem | src/search.rs:132-133 | JavaScript `%`: for a non-negative dividend the Euclidean remainder; for a negative one a remainder that is not positive and leaves a multiple of the divisor; always smaller in magnitude than the divisor |
| Search.MovesStayInRange | src/search.rs:132-149 | from an index in range, or from -1, next and previous both land in range |
| Search.NextWraps | src/search.rs:132-133 | next steps forward, wraps from the last match to the first, and goes from -1 to 0 |
| Search.PrevWraps | src/search.rs:147-149 | previous steps back and wraps from the first match to the last; from -1 it lands on the second-to-last, or on the only one |
| Search.NextPrevInverse | src/search.rs:132-149 | for an index in range, next then previous, or previous then next, gives back the index |
| Search.SearchState.constructor | src/search.rs:23-26 | no matches and index -1 |
| Search.SearchState.ClearHighlights | src/search.rs:37-38 | clears the matches and sets the index to -1 |
| Search.SearchState.SearchHighlight | src/search.rs:45-124 | clears; an empty needle or a missing root stops there; otherwise the matches are the marks of every text node, in document order, and the index is -1 |
| Search.SearchState.SearchNext | src/search.rs:125-138 | without matches nothing changes; otherwise the index moves to the next match, wrapping |
| Search.SearchState.SearchPrev | src/search.rs:140-154 | without matches nothing changes; otherwise the index moves to the previous match, wrapping |
| Hints.DigitChar | src/hint.rs:39 | a base-36 digit is 0-9 or a-z |
| Hints.ToBase36 | src/hint.rs:39 | `toString(36)` has at least one digit, every character a base-36 digit, and no leading zero |
| Hints.ToUpper | src/hint.rs:47 | the upper-cased label has the same length and no lower-case a-z left, and a label without lower-case letters comes back unchanged |
| Hints.DigitRoundTrip | src/hint.rs:39-47 | an upper-cased digit reads back as its value |
| Hints.LabelRoundTrip | src/hint.rs:39-47 | a label reads back as the position it was made from |
| Hints.LabelInjective | src/hint.rs:39-47 | different positions get different labels |
| Hints.HintsFor | src/hint.rs:38-62 | there is at most one hint per link |
| Hints.VisiblePositions | src/hint.rs:43 | the positions of the visible links, strictly increasing |
| Hints.HintsArePositioned | src/hint.rs:38-62 | the hints are the visible links in query order, each labelled with its own position in the query result, including the skipped links |
| Hints.VisibleLinksAreHinted | src/hint.rs:43 | a link gets a hint exactly when its width and height are not both zero |
| Hints.HintLabelsDistinct | src/hint.rs:38-62 | no two hints share a label |
| Hints.HintState.constructor | src/hint.rs:24-28 | inactive, no hints and an empty buffer |
| Hints.HintState.ClearHints | src/hint.rs:65-70 | no hints, inactive, and an empty buffer |
| Hints.HintState.ShowHints | src/hint.rs:30-63 | after clearing, active with an empty buffer, and the hints are exactly `HintsFor` of the query result |

## Left out

- The DOM and drawing are not modelled: hint elements and their position,
  highlight marks and their colours, `scrollIntoView`, the status bar and
  `updateStatus`, and the help overlay. The model keeps only the state these
  functions update.
- The JavaScript text that `export_full_js` builds is not modelled. The
  model gives the meaning of the emitted trie and listener instead.
- KeyHandlers.EmittedTries and KeyHandlers.KeyHandler.constructor give every
  table its tries, so they hold only for `Emittable` tables: no command or
  key contains a double quote, backslash, carriage return or line feed.
  src/key.rs:227-232 writes keys and commands between double quotes without
  escaping. So any other table yields a script that does not parse, and then
  the page has no `keyTries` and no listener. The model does not represent
  that failure. `UnescapedKeyIsAccepted` shows that the corrected mode parse
  lets such a key through. `AsWrittenEmitsOnlyDefaults` and
  `DefaultsAreEmittable` show that with the parse as written only the
  defaults are emitted, and they parse.
- Search.SearchState.SearchHighlight: the tree walker's `acceptNode` filter
  and the pre-filter `n.nodeValue.match(re)` are not modelled. The accepted
  text nodes are a parameter, and a node without a match contributes no
  mark either way. Whether the page has a root is the `hasRoot` parameter.
- Search.EqualIgnoringCase folds ASCII letters only, not the full Unicode
  case folding of the regular expression's `i` flag.
- KeyHandlers.Next and KeyHandlers.KeyHandler.KeyDown do not model
  `e.stopPropagation()` (src/key.rs:241). It is called on every event, so it
  carries no information; `preventDefault` is modelled by `Prevented`.
- KeyHandlers.Edit, KeyHandlers.Next and DraftKeys.Step count string lengths
  in characters, not UTF-16 code units. So `key.length === 1`
  (src/key.rs:270, 290 and src/keybindings.js:59) and `slice(0, -1)`
  (src/key.rs:266, 286) act on whole characters, where JavaScript would see two
  code units for a character outside the Basic Multilingual Plane. Search.Split
  counts positions in characters the same way.
- Keybindings.Lower lowercases ASCII letters only. Rust's `to_lowercase` is
  Unicode-wide, but the only names that matter here are ASCII.
- Hints.Link: the bounding rectangle's width and height are `real`, not
  IEEE doubles; only the test that both are zero is used.
- Hints.ToUpper is applied only to base-36 numerals, so it upper-cases a-z
  and nothing else.
- Cookies.SaveCookies and Cookies.LoadCookies do not model errors from the
  webview calls (`cookies()`, `set_cookie`) or from `std::fs::write`. A
  failed read is the `Unreadable` file state. The file system is the
  `FileState` parameter, and the cookies the webview holds are a sequence.
- Cookies.Cookie keeps only a cookie's name, value and whether it has an
  expiry. Its domain, path and other attributes are not modelled.
- Keybindings.ConfigError.InvalidBinding keeps the offending sequence and
  command. It does not keep the conflicting bound sequence that the message
  also prints, because which one is found depends on the map's iteration
  order. `InsertAllErrIsFirstConflict` proves that some such sequence
  exists.
- The iteration order of every `HashMap` (configuration modes, bindings,
  the emitted trie's pairs) is a parameter, not a fixed order.
- src/app.rs (the event loop, the mutex-guarded state and the message
  hand-off), src/state.rs (window and webview plumbing, and the state
  methods `apply` calls), and the argument, signal, agent, URL-bar and
  status-bar files are not part of this model. `apply`'s state methods are
  logged as calls rather than carried out.
- Histories.History.Back and Histories.History.Forward return the URL by
  value rather than as a borrowed `&str`.

## Findings

| source | as written | input that shows it | evidently intended | confidence | as-written member | corrected member |
|---|---|---|---|---|---|---|
| src/key.rs:115 | the mode name is lowercased and then parsed by the derived, case-sensitive `FromStr`, whose only accepted names are `Normal`, `Insert`, `Search` and `Cmd` | a configuration with a mode named `Normal` (or `normal`): `new` returns `Err("Unknown mode: Normal")` | mode names accepted in any letter case | not executed | KeybindingProperties.NewAsWrittenRejectsEveryConfig | KeybindingProperties.ParseModeIgnoringCaseAcceptsVariantNames |
