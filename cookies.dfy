/*
  The cookie manager: a storage policy parsed from the command line, the
  predicate deciding which cookies are kept, and the plain-text cookie file,
  one `name=value` line per cookie.

  The webview and the file system are parameters: the cookies the webview
  holds are a sequence in its iteration order, and the state of the cookie
  file is a `FileState` value.  Loading returns the cookies it would hand to
  the webview, saving returns the text it would write.
*/
module Cookies {
  import Wrappers
  import Sequences

  datatype CookiePolicy = All | None | SessionOnly

  /** Only whether a cookie has an expiry matters here, not its value. */
  type Expiry = int

  datatype Cookie = Cookie(name: string, value: string, expires: Wrappers.Option<Expiry>)

  datatype CookieManager = CookieManager(file: Wrappers.Option<string>, policy: CookiePolicy)

  /** What the configured cookie path holds when it is read. */
  datatype FileState = Missing | Unreadable | Contents(data: string)

  /** `CookieManager::new`: the policy names are matched exactly; anything else,
      or no policy at all, keeps every cookie. */
  function ParsePolicy(policy: Wrappers.Option<string>): (r: CookiePolicy)
    ensures r == None <==> policy == Wrappers.Some("none")
    ensures r == SessionOnly <==> policy == Wrappers.Some("session")
    ensures r == All <==> policy !in {Wrappers.Some("none"), Wrappers.Some("session")}
  {
    match policy
    case Some("all") => All
    case Some("none") => None
    case Some("session") => SessionOnly
    case _ => All
  }

  function NewManager(file: Wrappers.Option<string>, policy: Wrappers.Option<string>): (m: CookieManager)
    ensures m.file == file && m.policy == ParsePolicy(policy)
  {
    CookieManager(file, ParsePolicy(policy))
  }

  /** Whether a cookie is loaded into or saved from the webview. */
  predicate Accept(policy: CookiePolicy, c: Cookie)
  {
    match policy
    case All => true
    case None => false
    case SessionOnly => c.expires.None?
  }

  // ---------------------------------------------------------------------
  // Text helpers: Rust's `str::lines`, `str::split_once` and `str::trim`.

  /** The position of the first `c` in `s`, or |s| when there is none. */
  function IndexOf(s: string, c: char): (r: nat)
    ensures r <= |s|
    ensures forall k :: 0 <= k < r ==> s[k] != c
    ensures r < |s| ==> s[r] == c
  {
    if s == [] then 0
    else if s[0] == c then 0
    else 1 + IndexOf(s[1..], c)
  }

  function StripCarriageReturn(line: string): (r: string)
    ensures r == line || (line == r + "\r")
  {
    if line != [] && line[|line| - 1] == '\r' then line[..|line| - 1] else line
  }

  /** `str::lines`: split after each line feed, dropping it and a carriage return
      just before it; a final line without a line feed is kept as it is, and a
      final line feed does not start an empty line. */
  function Lines(data: string): (r: seq<string>)
    decreases |data|
  {
    if data == [] then []
    else
      var i := IndexOf(data, '\n');
      if i == |data| then [data]
      else [StripCarriageReturn(data[..i])] + Lines(data[i + 1..])
  }

  /** `str::split_once('=')`: the text on either side of the first `=`. */
  function SplitOnce(line: string, separator: char): (r: Wrappers.Option<(string, string)>)
    ensures r.None? <==> separator !in line
    ensures r.Some? ==> line == r.value.0 + [separator] + r.value.1 && separator !in r.value.0
  {
    var i := IndexOf(line, separator);
    if i == |line| then Wrappers.None
    else
      assert line == line[..i] + [separator] + line[i + 1..];
      Wrappers.Some((line[..i], line[i + 1..]))
  }

  /** Unicode `White_Space`, the test `char::is_whitespace` makes. */
  predicate IsWhitespace(c: char)
  {
    ('\t' <= c <= '\r') || c == ' ' || c == '\U{0085}' || c == '\U{00A0}' || c == '\U{1680}'
    || ('\U{2000}' <= c <= '\U{200A}') || c == '\U{2028}' || c == '\U{2029}'
    || c == '\U{202F}' || c == '\U{205F}' || c == '\U{3000}'
  }

  function TrimStart(s: string): (r: string)
    ensures |r| <= |s| && r == s[|s| - |r|..]
    ensures forall k :: 0 <= k < |s| - |r| ==> IsWhitespace(s[k])
    ensures r == [] || !IsWhitespace(r[0])
  {
    if s != [] && IsWhitespace(s[0]) then TrimStart(s[1..]) else s
  }

  function TrimEnd(s: string): (r: string)
    ensures |r| <= |s| && r == s[..|r|]
    ensures forall k :: |r| <= k < |s| ==> IsWhitespace(s[k])
    ensures r == [] || !IsWhitespace(r[|r| - 1])
  {
    if s != [] && IsWhitespace(s[|s| - 1]) then TrimEnd(s[..|s| - 1]) else s
  }

  /** `str::trim`: whitespace removed from both ends. */
  function Trim(s: string): string {
    TrimEnd(TrimStart(s))
  }

  /** A string `trim` leaves alone: it is empty or starts and ends with a non-space. */
  predicate Trimmed(s: string) {
    s == [] || (!IsWhitespace(s[0]) && !IsWhitespace(s[|s| - 1]))
  }

  lemma TrimIdentity(s: string)
    ensures Trim(s) == s <==> Trimmed(s)
  {
    if Trimmed(s) && s != [] {
      assert TrimStart(s) == s;
    }
  }

  // ---------------------------------------------------------------------
  // The cookie file format.

  /** One line of the cookie file, as `load_cookies` reads it: split at the
      first `=`, both sides trimmed; a line with no `=` is skipped.  A cookie
      made this way carries no expiry. */
  function ParseLine(line: string): (r: Wrappers.Option<Cookie>)
    ensures r.None? <==> '=' !in line
    ensures r.Some? ==> r.value.expires.None?
    ensures r.Some? ==>
              exists k :: 0 <= k < |line| && line[k] == '=' && '=' !in line[..k] &&
                          r.value.name == Trim(line[..k]) && r.value.value == Trim(line[k + 1..])
  {
    match SplitOnce(line, '=')
    case None => Wrappers.None
    case Some((name, value)) =>
      var k := |name|;
      assert line[..k] == name && line[k + 1..] == value;
      Wrappers.Some(Cookie(Trim(name), Trim(value), Wrappers.None))
  }

  /** The cookies loading hands to the webview, in line order. */
  function Loaded(policy: CookiePolicy, lines: seq<string>): (r: seq<Cookie>)
    ensures |r| <= |lines|
  {
    if lines == [] then []
    else
      var n := |lines| - 1;
      Loaded(policy, lines[..n]) + LoadedFromLine(policy, lines[n])
  }

  /** What one line contributes: its cookie when the line parses and the cookie is accepted. */
  function LoadedFromLine(policy: CookiePolicy, line: string): (r: seq<Cookie>)
    ensures |r| <= 1
    ensures r != [] ==> ParseLine(line) == Wrappers.Some(r[0]) && Accept(policy, r[0])
  {
    var parsed := ParseLine(line);
    if parsed.Some? && Accept(policy, parsed.value) then [parsed.value] else []
  }

  /** The line `save_cookies` writes for one cookie. */
  function Line(c: Cookie): string {
    c.name + "=" + c.value + "\n"
  }

  /** The content `save_cookies` writes for the webview's cookies. */
  function Saved(policy: CookiePolicy, cookies: seq<Cookie>): string
  {
    if cookies == [] then ""
    else
      var n := |cookies| - 1;
      Saved(policy, cookies[..n]) + if Accept(policy, cookies[n]) then Line(cookies[n]) else ""
  }

  /** The accepted cookies, in order. */
  function Accepted(policy: CookiePolicy, cookies: seq<Cookie>): (r: seq<Cookie>)
    ensures forall c :: c in r ==> c in cookies && Accept(policy, c)
  {
    if cookies == [] then []
    else
      var n := |cookies| - 1;
      Accepted(policy, cookies[..n]) + if Accept(policy, cookies[n]) then [cookies[n]] else []
  }

  /** A cookie as it comes back from the file: same name and value, no expiry. */
  function WithoutExpiry(cookies: seq<Cookie>): (r: seq<Cookie>)
    ensures |r| == |cookies|
    ensures forall i :: 0 <= i < |r| ==> r[i] == Cookie(cookies[i].name, cookies[i].value, Wrappers.None)
  {
    if cookies == [] then []
    else
      var n := |cookies| - 1;
      WithoutExpiry(cookies[..n]) + [Cookie(cookies[n].name, cookies[n].value, Wrappers.None)]
  }

  lemma WithoutExpiryAppend(cookies: seq<Cookie>, c: Cookie)
    ensures WithoutExpiry(cookies + [c]) == WithoutExpiry(cookies) + [Cookie(c.name, c.value, Wrappers.None)]
  {
    assert (cookies + [c])[..|cookies|] == cookies;
  }

  /** A cookie whose line reads back as itself: no `=` in the name, no line
      feed anywhere, nothing for `trim` to remove. */
  predicate Storable(c: Cookie) {
    '=' !in c.name && '\n' !in c.name && '\n' !in c.value && Trimmed(c.name) && Trimmed(c.value)
  }

  // ---------------------------------------------------------------------
  // Load and save.

  /** `load_cookies`: with no file configured nothing happens; a missing file
      is logged and still succeeds; a read error is an error; otherwise every
      accepted line is applied, in order.
      Returns the cookies applied, whether "Path not found" was logged, and
      whether the result is `Ok`. */
  method LoadCookies(m: CookieManager, file: FileState) returns (applied: seq<Cookie>, logged: bool, ok: bool)
    ensures m.file.None? ==> applied == [] && !logged && ok
    ensures m.file.Some? && file.Missing? ==> applied == [] && logged && ok
    ensures m.file.Some? && file.Unreadable? ==> applied == [] && !logged && !ok
    ensures m.file.Some? && file.Contents? ==> applied == Loaded(m.policy, Lines(file.data)) && !logged && ok
  {
    applied, logged, ok := [], false, true;
    if m.file.Some? {
      match file
      case Missing =>
        logged := true;
      case Unreadable =>
        ok := false;
      case Contents(data) =>
        applied := ApplyLines(m.policy, Lines(data));
    }
  }

  /** The loop over the lines of the cookie file: each line that parses into an
      accepted cookie is applied, in order. */
  method ApplyLines(policy: CookiePolicy, lines: seq<string>) returns (applied: seq<Cookie>)
    ensures applied == Loaded(policy, lines)
  {
    applied := [];
    var i := 0;
    while i < |lines|
      invariant 0 <= i <= |lines|
      invariant applied == Loaded(policy, lines[..i])
    {
      LoadedPrefix(policy, lines, i);
      var parsed := ParseLine(lines[i]);
      if parsed.Some? && Accept(policy, parsed.value) {
        applied := applied + [parsed.value];
      }
      i := i + 1;
    }
    assert lines[..i] == lines;
  }

  /** `save_cookies`: with no file configured nothing is written; otherwise the
      text written holds one line per accepted cookie, in the webview's order. */
  method SaveCookies(m: CookieManager, cookies: seq<Cookie>) returns (written: Wrappers.Option<string>)
    ensures m.file.None? ==> written.None?
    ensures m.file.Some? ==> written == Wrappers.Some(Saved(m.policy, cookies))
  {
    written := Wrappers.None;
    if m.file.Some? {
      var content := "";
      var i := 0;
      while i < |cookies|
        invariant 0 <= i <= |cookies|
        invariant content == Saved(m.policy, cookies[..i])
      {
        assert cookies[..i + 1][..i] == cookies[..i];
        if Accept(m.policy, cookies[i]) {
          content := content + Line(cookies[i]);
        }
        i := i + 1;
      }
      assert cookies[..i] == cookies;
      written := Wrappers.Some(content);
    }
  }

  // ---------------------------------------------------------------------
  // Properties.

  /** Under `None` nothing is loaded and an empty file is written. */
  lemma {:induction false} PolicyNoneKeepsNothing(lines: seq<string>, cookies: seq<Cookie>)
    ensures Loaded(None, lines) == []
    ensures Saved(None, cookies) == ""
    decreases |lines| + |cookies|
  {
    if lines != [] {
      PolicyNoneKeepsNothing(lines[..|lines| - 1], cookies);
    }
    if cookies != [] {
      PolicyNoneKeepsNothing(lines, cookies[..|cookies| - 1]);
    }
  }

  /** A loaded cookie never has an expiry, so `SessionOnly` loads exactly what `All` loads. */
  lemma {:induction false} LoadedAreSessionCookies(lines: seq<string>)
    ensures forall c :: c in Loaded(All, lines) ==> c.expires.None?
    ensures Loaded(SessionOnly, lines) == Loaded(All, lines)
  {
    if lines != [] {
      LoadedAreSessionCookies(lines[..|lines| - 1]);
    }
  }

  lemma {:induction false} IndexOfAppend(a: string, b: string, c: char)
    ensures IndexOf(a, c) < |a| ==> IndexOf(a + b, c) == IndexOf(a, c)
    ensures c !in a ==> IndexOf(a + b, c) == |a| + IndexOf(b, c)
  {
    if a != [] {
      assert (a + b)[1..] == a[1..] + b;
      IndexOfAppend(a[1..], b, c);
    } else {
      assert a + b == b;
    }
  }

  /** Text that is empty or ends with a line feed splits into lines on its own. */
  lemma {:induction false} LinesAppend(a: string, b: string)
    requires a == [] || a[|a| - 1] == '\n'
    ensures Lines(a + b) == Lines(a) + Lines(b)
    decreases |a|, 1
  {
    if a == [] {
      assert a + b == b;
    } else {
      LinesAppendFirstLine(a, b);
    }
  }

  /** The non-empty case of `LinesAppend`: the first line of `a` is the first line of `a + b`. */
  lemma {:induction false} LinesAppendFirstLine(a: string, b: string)
    requires a != [] && a[|a| - 1] == '\n'
    ensures Lines(a + b) == Lines(a) + Lines(b)
    decreases |a|, 0
  {
    var i := IndexOf(a, '\n');
    SplitAtLineFeed(a, b, i);
    var x, tail := a[..i], a[i + 1..];
    var first := StripCarriageReturn(x);
    assert Lines(a) == [first] + Lines(tail) by {
      LinesCons(x, tail);
    }
    assert Lines(a + b) == [first] + Lines(tail + b) by {
      LinesCons(x, tail + b);
    }
    LinesAppend(tail, b);
    Sequences.AppendAssoc([first], Lines(tail), Lines(b));
  }

  /** Text ending in a line feed, cut at its first line feed. */
  lemma SplitAtLineFeed(a: string, b: string, i: nat)
    requires a != [] && a[|a| - 1] == '\n' && i == IndexOf(a, '\n')
    ensures i < |a| && '\n' !in a[..i]
    ensures a == a[..i] + "\n" + a[i + 1..]
    ensures a + b == a[..i] + "\n" + (a[i + 1..] + b)
    ensures a[i + 1..] == [] || a[i + 1..][|a[i + 1..]| - 1] == '\n'
  {
    assert a == a[..i] + [a[i]] + a[i + 1..];
  }

  /** A line without a line feed, then a line feed, then the rest. */
  lemma LinesCons(x: string, rest: string)
    requires '\n' !in x
    ensures Lines(x + "\n" + rest) == [StripCarriageReturn(x)] + Lines(rest)
  {
    var data := x + "\n" + rest;
    IndexOfAppend(x, "\n" + rest, '\n');
    assert data == x + ("\n" + rest);
    assert data[..|x|] == x && data[|x| + 1..] == rest;
  }

  lemma {:induction false} SavedEndsWithLineFeed(policy: CookiePolicy, cookies: seq<Cookie>)
    ensures Saved(policy, cookies) == [] || Saved(policy, cookies)[|Saved(policy, cookies)| - 1] == '\n'
  {
    if cookies != [] {
      SavedEndsWithLineFeed(policy, cookies[..|cookies| - 1]);
    }
  }

  /** A single line, ended by a line feed, with no carriage return before it. */
  lemma LinesOfOneLine(text: string)
    requires '\n' !in text && (text == [] || text[|text| - 1] != '\r')
    ensures Lines(text + "\n") == [text]
  {
    LinesCons(text, "");
    assert text + "\n" + "" == text + "\n";
    assert StripCarriageReturn(text) == text;
  }

  /** `name=value` splits back into its name and value when the name has no `=`. */
  lemma SplitAtFirstEquals(name: string, value: string)
    requires '=' !in name
    ensures SplitOnce(name + "=" + value, '=') == Wrappers.Some((name, value))
  {
    var text := name + "=" + value;
    assert IndexOf(text, '=') == |name| by {
      IndexOfAppend(name, "=" + value, '=');
      assert text == name + ("=" + value);
    }
    assert text[..|name|] == name && text[|name| + 1..] == value;
  }

  /** The line written for a storable cookie reads back as that cookie without its expiry. */
  lemma LineReadsBack(c: Cookie)
    requires Storable(c)
    ensures Lines(Line(c)) == [c.name + "=" + c.value]
    ensures ParseLine(c.name + "=" + c.value) == Wrappers.Some(Cookie(c.name, c.value, Wrappers.None))
  {
    var text := c.name + "=" + c.value;
    assert text[|text| - 1] != '\r' by {
      if c.value == [] {
        assert text[|text| - 1] == '=';
      } else {
        assert text[|text| - 1] == c.value[|c.value| - 1];
      }
    }
    assert '\n' !in text by {
      assert forall k :: 0 <= k < |text| ==> text[k] in c.name || text[k] == '=' || text[k] in c.value;
    }
    LinesOfOneLine(text);
    SplitAtFirstEquals(c.name, c.value);
    TrimIdentity(c.name);
    TrimIdentity(c.value);
  }

  /** A saved file with one more line holds one more line. */
  lemma SavedOneMoreLine(policy: CookiePolicy, pre: seq<Cookie>, last: Cookie)
    requires Storable(last)
    ensures Lines(Saved(policy, pre) + Line(last)) == Lines(Saved(policy, pre)) + [last.name + "=" + last.value]
  {
    SavedEndsWithLineFeed(policy, pre);
    LinesAppend(Saved(policy, pre), Line(last));
    LineReadsBack(last);
  }

  /** Loading one more line adds what that line contributes. */
  lemma LoadedOneMoreLine(policy: CookiePolicy, lines: seq<string>, line: string)
    ensures Loaded(policy, lines + [line]) == Loaded(policy, lines) + LoadedFromLine(policy, line)
  {
    assert (lines + [line])[..|lines|] == lines;
  }

  /** Loading one line further into the file. */
  lemma LoadedPrefix(policy: CookiePolicy, lines: seq<string>, i: nat)
    requires i < |lines|
    ensures Loaded(policy, lines[..i + 1]) == Loaded(policy, lines[..i]) + LoadedFromLine(policy, lines[i])
  {
    assert lines[..i + 1][..i] == lines[..i];
  }

  /** The line of an accepted storable cookie loads as that cookie without its expiry. */
  lemma LoadedFromSavedLine(policy: CookiePolicy, last: Cookie)
    requires Storable(last) && Accept(policy, last)
    ensures LoadedFromLine(policy, last.name + "=" + last.value) == [Cookie(last.name, last.value, Wrappers.None)]
  {
    LineReadsBack(last);
  }

  /** The inductive step of `SaveThenLoad`: one more accepted cookie adds one more line. */
  lemma SaveThenLoadOneMore(policy: CookiePolicy, pre: seq<Cookie>, last: Cookie)
    requires Storable(last) && Accept(policy, last)
    requires Loaded(policy, Lines(Saved(policy, pre))) == WithoutExpiry(Accepted(policy, pre))
    ensures Loaded(policy, Lines(Saved(policy, pre) + Line(last))) == WithoutExpiry(Accepted(policy, pre) + [last])
  {
    var lines := Lines(Saved(policy, pre));
    var text := last.name + "=" + last.value;
    SavedOneMoreLine(policy, pre, last);
    LoadedOneMoreLine(policy, lines, text);
    LoadedFromSavedLine(policy, last);
    WithoutExpiryAppend(Accepted(policy, pre), last);
  }

  /** Saving and loading again recovers, in order, the name and value of every
      accepted cookie whose line reads back unchanged. */
  lemma {:induction false} SaveThenLoad(policy: CookiePolicy, cookies: seq<Cookie>)
    requires forall c :: c in cookies && Accept(policy, c) ==> Storable(c)
    ensures Loaded(policy, Lines(Saved(policy, cookies))) == WithoutExpiry(Accepted(policy, cookies))
  {
    if cookies != [] {
      var n := |cookies| - 1;
      var pre, last := cookies[..n], cookies[n];
      assert forall c :: c in pre ==> c in cookies;
      SaveThenLoad(policy, pre);
      if Accept(policy, last) {
        assert Accepted(policy, cookies) == Accepted(policy, pre) + [last];
        SaveThenLoadOneMore(policy, pre, last);
      } else {
        assert Saved(policy, cookies) == Saved(policy, pre);
      }
    }
  }
}
