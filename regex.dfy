/** The part of Python's `re` module the generator uses: `re.sub` with the
    fixed patterns of generator.py. Each pattern is matched by a hand-written
    scanner that makes the choice Python's backtracking engine makes (leftmost
    start, greedy or lazy repetition as written, `.` never matching a newline). */
module Regex {
  import opened Text

  /** How many characters a match at the start of a text consumed, and the
      text of its capture groups 1 and 2 (empty when the pattern has none). */
  datatype Match = Match(len: nat, g1: string, g2: string)

  /** A compiled pattern: the match it makes at the very start of a text, if
      any. None of the generator's patterns matches the empty string, so a
      match consumes at least one character. */
  type Matcher = f: string -> Option<Match> | forall s :: f(s).Some? ==> 0 < f(s).value.len <= |s|
    witness (s: string) => None

  /** A piece of a replacement string: literal text, or the group reference `\1` or `\2`. */
  datatype Piece = Lit(text: string) | Group1 | Group2

  /** The replacement string with its group references filled in from `m`. */
  function Expand(repl: seq<Piece>, m: Match): string {
    if repl == [] then ""
    else
      (match repl[0]
        case Lit(t) => t
        case Group1 => m.g1
        case Group2 => m.g2)
      + Expand(repl[1..], m)
  }

  /** Index of the first `c` in `s`: where `[^c]*` followed by `c` stops. */
  function IndexOf(s: string, c: char): (r: Option<nat>)
    ensures r.Some? ==> r.value < |s| && s[r.value] == c && c !in s[..(r.value)]
    ensures r.None? ==> c !in s
    decreases |s|
  {
    if s == [] then None
    else if s[0] == c then Some(0)
    else match IndexOf(s[1..], c)
      case Some(k) => assert s[..k + 1] == [s[0]] + s[1..][..k]; Some(k + 1)
      case None => None
  }

  /** The first `c` is at `k` when `c` is there and nowhere before. */
  lemma IndexOfAt(s: string, c: char, k: nat)
    requires k < |s| && s[k] == c && c !in s[..k]
    ensures IndexOf(s, c) == Some(k)
  {
    assert s[..k + 1][k] == c;
  }

  /** How far the lazy `(.*?)` runs before `x` can follow: the first place
      where `x` starts, provided no newline comes before it. */
  function ShortestUntil(s: string, x: string): (r: Option<nat>)
    ensures r.Some? ==> r.value + |x| <= |s| && s[r.value..(r.value + |x|)] == x
    ensures r.Some? ==> '\n' !in s[..(r.value)]
    ensures r.Some? ==> forall j | 0 <= j < r.value :: !StartsWith(s[j..], x)
    decreases |s|
  {
    if StartsWith(s, x) then Some(0)
    else if s == [] || s[0] == '\n' then None
    else match ShortestUntil(s[1..], x)
      case Some(k) =>
        ShortestUntilStep(s, x, k);
        Some(k + 1)
      case None => None
  }

  /** One character that neither starts `x` nor is a newline moves the lazy
      scan's stopping place one further. */
  lemma ShortestUntilStep(s: string, x: string, k: nat)
    requires s != [] && s[0] != '\n' && !StartsWith(s, x)
    requires k + |x| <= |s| - 1 && s[1..][k..k + |x|] == x
    requires '\n' !in s[1..][..k]
    requires forall j | 0 <= j < k :: !StartsWith(s[1..][j..], x)
    ensures k + 1 + |x| <= |s| && s[k + 1..k + 1 + |x|] == x
    ensures '\n' !in s[..k + 1]
    ensures forall j | 0 <= j < k + 1 :: !StartsWith(s[j..], x)
  {
    assert s[k + 1..k + 1 + |x|] == s[1..][k..k + |x|];
    assert s[..k + 1] == [s[0]] + s[1..][..k];
    forall j | 0 <= j < k + 1 ensures !StartsWith(s[j..], x) {
      if j > 0 {
        assert s[j..] == s[1..][j - 1..];
      }
    }
  }

  /** Where `x` occurs with no newline before it, the lazy scan stops there
      or earlier. */
  lemma {:induction false} ShortestUntilFinds(s: string, x: string, j: nat)
    requires j + |x| <= |s| && s[j..j + |x|] == x && '\n' !in s[..j]
    ensures ShortestUntil(s, x).Some? && ShortestUntil(s, x).value <= j
    decreases j
  {
    if !StartsWith(s, x) {
      assert j > 0;
      assert s[0] == s[..j][0];
      assert s[1..][j - 1..j - 1 + |x|] == s[j..j + |x|];
      assert s[1..][..j - 1] == s[1..j];
      assert forall c :: c in s[1..j] ==> c in s[..j];
      ShortestUntilFinds(s[1..], x, j - 1);
    }
  }

  /** The lazy scan stops exactly at `k` when `x` starts there, no newline
      comes before it, and `x` starts nowhere earlier. */
  lemma ShortestUntilAt(t: string, x: string, k: nat)
    requires k + |x| <= |t| && t[k..k + |x|] == x && '\n' !in t[..k]
    requires forall j | 0 <= j < k :: !StartsWith(t[j..], x)
    ensures ShortestUntil(t, x) == Some(k)
  {
    ShortestUntilFinds(t, x, k);
    var v := ShortestUntil(t, x).value;
    assert StartsWith(t[v..], x) by {
      assert t[v..][..|x|] == t[v..v + |x|];
    }
  }

  /** Two or more newlines, as many as there are. */
  function MatchNewlineRun(s: string): (r: Option<Match>)
    ensures r.Some? ==> 2 <= r.value.len <= |s|
    ensures r.Some? ==> forall i | 0 <= i < r.value.len :: s[i] == '\n'
    ensures r.Some? && r.value.len < |s| ==> s[r.value.len] != '\n'
    ensures r.None? ==> |s| < 2 || s[0] != '\n' || s[1] != '\n'
  {
    var n := |s| - |TrimLeft(s, {'\n'})|;
    if n >= 2 then Some(Match(n, "", "")) else None
  }

  /** `**`, the shortest text without a newline, `**`; group 1 is that text. */
  function MatchBold(s: string): (r: Option<Match>)
    ensures r.Some? ==> 4 <= r.value.len <= |s|
    ensures r.Some? ==> s[..(r.value.len)] == "**" + r.value.g1 + "**" && '\n' !in r.value.g1
    ensures r.Some? ==> forall j | 2 <= j < 2 + |r.value.g1| :: !StartsWith(s[j..], "**")
    ensures r.Some? ==> r.value.g2 == ""
  {
    if !StartsWith(s, "**") then None
    else match ShortestUntil(s[2..], "**")
      case None => None
      case Some(k) =>
        BoldAt(s, k);
        Some(Match(k + 4, s[2..k + 2], ""))
  }

  lemma BoldAt(s: string, k: nat)
    requires StartsWith(s, "**") && ShortestUntil(s[2..], "**") == Some(k)
    ensures k + 4 <= |s| && s[..k + 4] == "**" + s[2..k + 2] + "**" && '\n' !in s[2..k + 2]
    ensures forall j | 2 <= j < k + 2 :: !StartsWith(s[j..], "**")
  {
    forall j | 2 <= j < k + 2 ensures !StartsWith(s[j..], "**") {
      assert s[2..][j - 2..] == s[j..];
    }
    var g := s[2..k + 2];
    assert s[2..][..k] == g;
    assert s[k + 2..k + 4] == s[2..][k..k + 2];
    assert s[..2] == "**";
    assert s[..k + 4] == s[..2] + g + s[k + 2..k + 4];
  }

  /** `*`, the shortest text without a newline, `*`; group 1 is that text. */
  function MatchItalic(s: string): (r: Option<Match>)
    ensures r.Some? ==> 2 <= r.value.len <= |s|
    ensures r.Some? ==> s[..(r.value.len)] == "*" + r.value.g1 + "*" && '\n' !in r.value.g1 && '*' !in r.value.g1
    ensures r.Some? ==> r.value.g2 == ""
  {
    if !StartsWith(s, "*") then None
    else match ShortestUntil(s[1..], "*")
      case None => None
      case Some(k) =>
        ItalicAt(s, k);
        Some(Match(k + 2, s[1..k + 1], ""))
  }

  lemma ItalicAt(s: string, k: nat)
    requires StartsWith(s, "*") && ShortestUntil(s[1..], "*") == Some(k)
    ensures k + 2 <= |s| && s[..k + 2] == "*" + s[1..k + 1] + "*"
    ensures '\n' !in s[1..k + 1] && '*' !in s[1..k + 1]
  {
    var t := s[1..];
    var g := s[1..k + 1];
    assert t[..k] == g;
    assert s[k + 1] == t[k..k + 1][0];
    assert s[..1] == "*";
    assert s[..k + 2] == s[..1] + g + [s[k + 1]];
    forall j | 0 <= j < k ensures g[j] != '*' {
      var x := t[j..];
      assert x[..1] == [x[0]];
      assert g[j] == x[0];
    }
  }

  /** Where `**` opens `s` and closes again on the same line, the bold
      pattern matches, and its group stops at that close or earlier. */
  lemma BoldFound(s: string, k: nat)
    requires StartsWith(s, "**") && k + 4 <= |s| && s[k + 2..k + 4] == "**" && '\n' !in s[2..k + 2]
    ensures MatchBold(s).Some? && |MatchBold(s).value.g1| <= k
  {
    assert s[2..][k..k + 2] == s[k + 2..k + 4];
    assert s[2..][..k] == s[2..k + 2];
    ShortestUntilFinds(s[2..], "**", k);
  }

  /** Where `*` opens `s` and the text up to the next `*` holds no newline,
      the italic pattern matches exactly up to that `*`. */
  lemma ItalicFound(s: string, k: nat)
    requires k + 2 <= |s| && s[0] == '*' && s[k + 1] == '*'
    requires '\n' !in s[1..k + 1] && '*' !in s[1..k + 1]
    ensures MatchItalic(s) == Some(Match(k + 2, s[1..k + 1], ""))
  {
    var t := s[1..];
    assert s[..1] == "*";
    assert t[k..k + 1] == "*";
    assert t[..k] == s[1..k + 1];
    forall j | 0 <= j < k ensures !StartsWith(t[j..], "*") {
      assert t[j..][..1] == [s[1..k + 1][j]];
    }
    ShortestUntilAt(t, "*", k);
  }

  /** The part both link patterns share: `[`, the text up to the first `]`,
      then `(`. Returns the index of that `]`. */
  function LinkTextEnd(s: string): (r: Option<nat>)
    ensures r.Some? ==> 1 <= r.value && r.value + 2 <= |s|
    ensures r.Some? ==> s[0] == '[' && s[r.value] == ']' && s[r.value + 1] == '(' && ']' !in s[1..(r.value)]
  {
    if s == [] || s[0] != '[' then None
    else match IndexOf(s[1..], ']')
      case None => None
      case Some(k) => if k + 2 < |s| && s[k + 2] == '(' then Some(k + 1) else None
  }

  /** The literal tail of the internal-link pattern at `t[j..]`:
      `/index`, one character other than a newline (the unescaped `.`), `md)`. */
  predicate IndexTailAt(t: string, j: nat) {
    j + 10 <= |t| && t[j..j + 6] == "/index" && t[j + 6] != '\n' && t[j + 7..j + 10] == "md)"
  }

  /** The greatest `j <= i` at which `IndexTailAt` holds: where the greedy
      `[^)]*` group, backtracking from its longest run, first lets the tail match. */
  function LastIndexTail(t: string, i: nat): (r: Option<nat>)
    requires i <= |t|
    ensures r.Some? ==> r.value <= i && IndexTailAt(t, r.value)
  {
    if IndexTailAt(t, i) then Some(i)
    else if i == 0 then None
    else LastIndexTail(t, i - 1)
  }

  /** The backtracking search finds the tail at the greatest place up to
      `i` where one starts, and nothing when there is none. */
  lemma {:induction false} LastIndexTailIsLast(t: string, i: nat)
    requires i <= |t|
    ensures var r := LastIndexTail(t, i);
      (r.Some? ==> IndexTailAt(t, r.value) && forall j | r.value < j <= i :: !IndexTailAt(t, j)) &&
      (r.None? ==> forall j | 0 <= j <= i :: !IndexTailAt(t, j))
  {
    if !IndexTailAt(t, i) && i > 0 {
      LastIndexTailIsLast(t, i - 1);
    }
  }

  /** How far the path of an internal link may reach: up to the first `)`,
      or the whole rest of the line when there is none. */
  function PathLimit(rest: string): (n: nat)
    ensures n <= |rest| && ')' !in rest[..(n)]
    ensures n < |rest| ==> rest[n] == ')'
  {
    match IndexOf(rest, ')') case Some(k) => k case None => |rest|
  }

  /** `[text](path/index.md)` with the dot matching any character but a newline;
      group 1 is the text, group 2 the path. */
  function MatchInternalLink(s: string): (r: Option<Match>)
    ensures r.Some? ==> 13 <= r.value.len <= |s|
  {
    match LinkTextEnd(s)
    case None => None
    case Some(b) =>
      var rest := s[b + 2..];
      match LastIndexTail(rest, PathLimit(rest))
      case None => None
      case Some(i) => Some(Match(b + 2 + i + 10, s[1..b], rest[..i]))
  }

  /** Where the parts of an internal-link match lie: `[`, the text, `](`,
      the path, and the ten characters of the tail. */
  lemma InternalLinkShape(s: string)
    requires MatchInternalLink(s).Some?
    ensures var m := MatchInternalLink(s).value;
      s[0] == '[' && m.len == |m.g1| + |m.g2| + 13 &&
      s[1..|m.g1| + 1] == m.g1 && s[|m.g1| + 1..|m.g1| + 3] == "](" &&
      s[|m.g1| + 3..|m.g1| + 3 + |m.g2|] == m.g2 && IndexTailAt(s[|m.g1| + 3..], |m.g2|) &&
      ']' !in m.g1 && ')' !in m.g2
  {
    var b := LinkTextEnd(s).value;
    var rest := s[b + 2..];
    var i := LastIndexTail(rest, PathLimit(rest)).value;
    PrefixAvoids(rest, PathLimit(rest), i, ')');
    var m := MatchInternalLink(s).value;
    assert m == Match(b + 2 + i + 10, s[1..b], rest[..i]);
    assert s[b..b + 2] == "](" by {
      assert s[b] == ']' && s[b + 1] == '(';
    }
    assert rest[..i] == s[b + 2..b + 2 + i];
  }

  /** The internal-link match read off its three scans. */
  lemma InternalLinkFrom(s: string, b: nat, k: nat)
    requires LinkTextEnd(s) == Some(b)
    requires PathLimit(s[b + 2..]) == k
    ensures LastIndexTail(s[b + 2..], k).Some? ==>
      var i := LastIndexTail(s[b + 2..], k).value;
      MatchInternalLink(s) == Some(Match(b + 2 + i + 10, s[1..b], s[b + 2..][..i]))
    ensures LastIndexTail(s[b + 2..], k).None? ==> MatchInternalLink(s).None?
  {
  }

  /** `[text](url)` with no `]` in the text and no `)` in the url. */
  function MatchExternalLink(s: string): (r: Option<Match>)
    ensures r.Some? ==> 4 <= r.value.len <= |s|
  {
    match LinkTextEnd(s)
    case None => None
    case Some(b) =>
      match IndexOf(s[b + 2..], ')')
      case None => None
      case Some(k) => Some(Match(b + 2 + k + 1, s[1..b], s[b + 2..b + 2 + k]))
  }

  /** Where the parts of an external-link match lie: `[`, the text, `](`,
      the url, `)`. */
  lemma ExternalLinkShape(s: string)
    requires MatchExternalLink(s).Some?
    ensures var m := MatchExternalLink(s).value;
      s[0] == '[' && m.len == |m.g1| + |m.g2| + 4 &&
      s[1..|m.g1| + 1] == m.g1 && s[|m.g1| + 1..|m.g1| + 3] == "](" &&
      s[|m.g1| + 3..|m.g1| + 3 + |m.g2|] == m.g2 && s[m.len - 1] == ')' &&
      ']' !in m.g1 && ')' !in m.g2
  {
    var b := LinkTextEnd(s).value;
    var k := IndexOf(s[b + 2..], ')').value;
    assert s[b + 2..][..k] == s[b + 2..b + 2 + k];
  }

  /** The external-link match read off its two scans. */
  lemma ExternalLinkFrom(s: string, b: nat, k: nat)
    requires LinkTextEnd(s) == Some(b)
    requires IndexOf(s[b + 2..], ')') == Some(k)
    ensures MatchExternalLink(s) == Some(Match(b + 2 + k + 1, s[1..b], s[b + 2..b + 2 + k]))
  {
  }

  /** The shared part of both link patterns is found where `s` starts
      with `[`, a `]`-free text, `](`. */
  lemma LinkTextAt(s: string, b: nat)
    requires 1 <= b && b + 1 < |s|
    requires s[0] == '[' && ']' !in s[1..b] && s[b] == ']' && s[b + 1] == '('
    ensures LinkTextEnd(s) == Some(b)
  {
    assert s[1..][..b - 1] == s[1..b];
    IndexOfAt(s[1..], ']', b - 1);
  }

  /** Where `s` starts with `[`, a `]`-free text, `](`, a path up to which
      no `)` comes, and the `/index.md)` tail, the internal-link pattern
      matches. */
  lemma InternalLinkFound(s: string, b: nat, i: nat)
    requires 1 <= b && b + 1 < |s|
    requires s[0] == '[' && ']' !in s[1..b] && s[b] == ']' && s[b + 1] == '('
    requires IndexTailAt(s[b + 2..], i) && ')' !in s[b + 2..][..i]
    ensures MatchInternalLink(s).Some?
  {
    LinkTextAt(s, b);
    var rest := s[b + 2..];
    var n := PathLimit(rest);
    assert forall j | 0 <= j < i :: rest[j] != ')' by {
      assert forall j | 0 <= j < i :: rest[..i][j] == rest[j];
    }
    assert i <= n;
    LastIndexTailIsLast(rest, n);
    InternalLinkFrom(s, b, n);
  }

  /** Where `s` starts with `[`, a `]`-free text, `](`, a `)`-free url and
      `)`, the external-link pattern matches exactly that, with the text and
      the url as its groups. */
  lemma ExternalLinkFound(s: string, b: nat, k: nat)
    requires 1 <= b && b + 2 + k < |s|
    requires s[0] == '[' && ']' !in s[1..b] && s[b] == ']' && s[b + 1] == '('
    requires ')' !in s[b + 2..b + 2 + k] && s[b + 2 + k] == ')'
    ensures MatchExternalLink(s) == Some(Match(b + 3 + k, s[1..b], s[b + 2..b + 2 + k]))
  {
    LinkTextAt(s, b);
    assert s[b + 2..][..k] == s[b + 2..b + 2 + k];
    IndexOfAt(s[b + 2..], ')', k);
    ExternalLinkFrom(s, b, k);
  }

  /** The start of an opening `h1` tag, the closing `h1` tag, and the
      character that ends a tag. */
  const H1Start: string := "<h1"
  const H1End: string := "</h1>"
  const TagEnd: char := '>'

  /** Where an `h1` element sits at the start of `s`: the opening tag's first
      `>` is at `q`, and the first closing tag after it starts at `e`, with
      no newline in between. */
  predicate Heading1Span(s: string, q: nat, e: nat) {
    StartsWith(s, H1Start) && 3 <= q < e && e + 5 <= |s| &&
    s[q] == TagEnd && TagEnd !in s[3..q] &&
    s[e..e + 5] == H1End && '\n' !in s[q + 1..e] &&
    forall j | q < j < e :: !StartsWith(s[j..], H1End)
  }

  /** The start of an `h1` tag, anything up to the first end of a tag, then
      the shortest single-line text before the closing `h1` tag. */
  function MatchHeading1(s: string): (r: Option<Match>)
    ensures r.Some? ==> 9 <= r.value.len <= |s|
    ensures r.Some? ==> exists q: nat, e: nat :: Heading1Span(s, q, e) && r.value.len == e + 5
  {
    if !StartsWith(s, H1Start) then None
    else match IndexOf(s[3..], TagEnd)
      case None => None
      case Some(q) =>
        match ShortestUntil(s[q + 4..], H1End)
        case None => None
        case Some(k) =>
          Heading1Parts(s, q, k, s[q + 4..]);
          Some(Match(q + 4 + k + 5, "", ""))
  }

  /** The heading's span read off the facts its two scans establish. */
  lemma Heading1Parts(s: string, q: nat, k: nat, t: string)
    requires StartsWith(s, H1Start)
    requires q < |s[3..]| && s[3..][q] == TagEnd && TagEnd !in s[3..][..q]
    requires q + 4 <= |s| && t == s[q + 4..] && k + 5 <= |t|
    requires t[k..k + 5] == H1End && '\n' !in t[..k]
    requires forall j | 0 <= j < k :: !StartsWith(t[j..], H1End)
    ensures Heading1Span(s, q + 3, q + 4 + k)
  {
    assert s[3..][..q] == s[3..q + 3];
    assert t[k..k + 5] == s[q + 4 + k..q + 4 + k + 5];
    assert t[..k] == s[q + 4..q + 4 + k];
    forall j | q + 3 < j < q + 4 + k ensures !StartsWith(s[j..], H1End) {
      assert t[j - q - 4..] == s[j..];
    }
  }

  /** Where an `h1` element sits at the start of `s`, the heading pattern
      matches exactly up to the end of its closing tag. */
  lemma Heading1Found(s: string, q: nat, e: nat)
    requires Heading1Span(s, q, e)
    ensures MatchHeading1(s) == Some(Match(e + 5, "", ""))
  {
    assert s[3..][..q - 3] == s[3..q];
    IndexOfAt(s[3..], TagEnd, q - 3);
    var t := s[q + 1..];
    assert t[e - q - 1..e - q + 4] == s[e..e + 5];
    assert t[..e - q - 1] == s[q + 1..e];
    forall j | 0 <= j < e - q - 1 ensures !StartsWith(t[j..], H1End) {
      assert t[j..] == s[q + 1 + j..];
    }
    ShortestUntilAt(t, H1End, e - q - 1);
    Heading1At(s, q - 3, e - q - 1);
  }

  /** The heading match read off its two scans. */
  lemma Heading1At(s: string, q: nat, k: nat)
    requires |s| >= 3 && s[..3] == H1Start
    requires IndexOf(s[3..], TagEnd) == Some(q)
    requires ShortestUntil(s[q + 4..], H1End) == Some(k)
    ensures MatchHeading1(s) == Some(Match(q + 4 + k + 5, "", ""))
  {
    assert StartsWith(s, H1Start);
  }

  /** The two-character delimiters of a template placeholder. */
  const PlaceholderOpen: string := ['{', '{']
  const PlaceholderClose: string := ['}', '}']

  /** Where `name`'s placeholder sits at the start of `s`: the opening
      delimiter, a maximal whitespace run up to `i`, the name, a whitespace
      run up to `j`, the closing delimiter. */
  predicate PlaceholderSpan(s: string, name: string, i: nat, j: nat) {
    2 <= i && i + |name| <= j && j + 2 <= |s| &&
    s[..2] == PlaceholderOpen && AllWhitespace(s[2..i]) && s[i] !in Whitespace &&
    s[i..i + |name|] == name && AllWhitespace(s[i + |name|..j]) && s[j..j + 2] == PlaceholderClose
  }

  /** The opening delimiter, optional whitespace, `name`, optional whitespace,
      the closing delimiter. The name is
      spliced into the pattern as literal text; the whitespace runs are
      maximal, which is the match the engine makes when `name` does not
      begin with whitespace. */
  function MatchPlaceholder(s: string, name: string): (r: Option<Match>)
    ensures r.Some? ==> 4 + |name| <= r.value.len <= |s|
    ensures r.Some? ==> exists i: nat, j: nat :: PlaceholderSpan(s, name, i, j) && r.value.len == j + 2
  {
    if !StartsWith(s, PlaceholderOpen) then None
    else
      var i := SkipSpaces(s, 2);
      if !StartsWith(s[i..], name) then None
      else
        var j := SkipSpaces(s, i + |name|);
        if !StartsWith(s[j..], PlaceholderClose) then None
        else
          PlaceholderParts(s, name, i, j);
          Some(Match(j + 2, "", ""))
  }

  /** The placeholder's span read off the facts its scans establish. */
  lemma PlaceholderParts(s: string, name: string, i: nat, j: nat)
    requires StartsWith(s, PlaceholderOpen) && 2 <= i <= |s|
    requires forall m | 2 <= m < i :: s[m] in Whitespace
    requires i < |s| ==> s[i] !in Whitespace
    requires StartsWith(s[i..], name) && i + |name| <= j <= |s|
    requires forall m | i + |name| <= m < j :: s[m] in Whitespace
    requires StartsWith(s[j..], PlaceholderClose)
    ensures PlaceholderSpan(s, name, i, j)
  {
    assert s[i..][..|name|] == s[i..i + |name|];
    assert s[j..][..2] == s[j..j + 2];
    assert forall m | 0 <= m < i - 2 :: s[2..i][m] == s[m + 2];
    var w := s[i + |name|..j];
    assert forall m | 0 <= m < |w| :: w[m] == s[m + i + |name|];
  }

  /** Where `name`'s placeholder sits at the start of `s`, the placeholder
      pattern matches exactly up to the end of its closing delimiter. */
  lemma PlaceholderFound(s: string, name: string, i: nat, j: nat)
    requires PlaceholderSpan(s, name, i, j)
    ensures MatchPlaceholder(s, name) == Some(Match(j + 2, "", ""))
  {
    assert forall m | 2 <= m < i :: s[m] == s[2..i][m - 2];
    SkipSpacesTo(s, 2, i);
    assert forall m | i + |name| <= m < j :: s[m] == s[i + |name|..j][m - i - |name|];
    assert s[j] == s[j..j + 2][0];
    BracesNotWhitespace();
    SkipSpacesTo(s, i + |name|, j);
    PlaceholderAt(s, name, i, j);
  }

  /** Where the whitespace run starting at `k` ends (`\s*`, taken whole). */
  function SkipSpaces(s: string, k: nat): (r: nat)
    requires k <= |s|
    ensures k <= r <= |s|
    ensures forall m | k <= m < r :: s[m] in Whitespace
    ensures r < |s| ==> s[r] !in Whitespace
    decreases |s| - k
  {
    if k < |s| && s[k] in Whitespace then SkipSpaces(s, k + 1) else k
  }

  /** The run from `k` ends at `i` when everything in between is whitespace
      and `s[i]` is not. */
  lemma {:induction false} SkipSpacesTo(s: string, k: nat, i: nat)
    requires k <= i <= |s|
    requires forall m | k <= m < i :: s[m] in Whitespace
    requires i == |s| || s[i] !in Whitespace
    ensures SkipSpaces(s, k) == i
    decreases i - k
  {
    if k < i {
      SkipSpacesTo(s, k + 1, i);
    }
  }

  /** The placeholder match read off its parts: the opening delimiter, whitespace up to `i`,
      the name, whitespace up to `j`, and the closing delimiter. */
  lemma PlaceholderAt(s: string, name: string, i: nat, j: nat)
    requires 2 <= i && i + |name| <= j && j + 2 <= |s|
    requires s[..2] == PlaceholderOpen && s[i..i + |name|] == name && s[j..j + 2] == PlaceholderClose
    requires SkipSpaces(s, 2) == i && SkipSpaces(s, i + |name|) == j
    ensures MatchPlaceholder(s, name) == Some(Match(j + 2, "", ""))
  {
    assert StartsWith(s[i..], name) by {
      assert s[i..][..|name|] == name;
    }
    assert StartsWith(s[j..], PlaceholderClose) by {
      assert s[j..][..2] == PlaceholderClose;
    }
  }

  /** `![`, the text up to the first `]`, then `]`; group 1 is that text. */
  function MatchAltText(s: string): (r: Option<Match>)
    ensures r.Some? ==> 3 <= r.value.len <= |s|
    ensures r.Some? ==> s[..(r.value.len)] == "![" + r.value.g1 + "]" && ']' !in r.value.g1
  {
    if !StartsWith(s, "![") then None
    else match IndexOf(s[2..], ']')
      case None => None
      case Some(k) => Some(Match(k + 3, s[2..k + 2], ""))
  }

  /** `(`, the text up to the first `)`, then `)`; group 1 is that text. */
  function MatchParenText(s: string): (r: Option<Match>)
    ensures r.Some? ==> 2 <= r.value.len <= |s|
    ensures r.Some? ==> s[..(r.value.len)] == "(" + r.value.g1 + ")" && ')' !in r.value.g1
  {
    if s == [] || s[0] != '(' then None
    else match IndexOf(s[1..], ')')
      case None => None
      case Some(k) => Some(Match(k + 2, s[1..k + 1], ""))
  }

  /** The placeholder pattern for one name, as a matcher. */
  function PlaceholderPattern(name: string): Matcher {
    s => MatchPlaceholder(s, name)
  }

  /** Python's `re.sub(p, repl, s)`: scanning left to right, every match is
      replaced and scanning resumes after it; where nothing matches, one
      character is kept. No pattern here matches the empty string. */
  function Sub(p: Matcher, repl: seq<Piece>, s: string): string
    decreases |s|
  {
    if s == [] then ""
    else match p(s)
      case Some(m) => Expand(repl, m) + Sub(p, repl, s[m.len..])
      case None => [s[0]] + Sub(p, repl, s[1..])
  }

  /** Python's `re.search(p, s)`: the match at the leftmost position where
      `p` matches. */
  function Search(p: Matcher, s: string): Option<Match>
    decreases |s|
  {
    if p(s).Some? then p(s)
    else if s == [] then None
    else Search(p, s[1..])
  }

  /** The search's result is a match at some position of the text, and it
      finds nothing only when no position has one. */
  lemma {:induction false} SearchSomewhere(p: Matcher, s: string)
    ensures Search(p, s).Some? ==> exists i | 0 <= i <= |s| :: p(s[i..]) == Search(p, s)
    ensures Search(p, s).None? ==> forall i | 0 <= i <= |s| :: p(s[i..]).None?
    decreases |s|
  {
    assert s[0..] == s;
    if p(s).None? && s != [] {
      SearchSomewhere(p, s[1..]);
      assert forall j | 0 <= j <= |s| - 1 :: s[1..][j..] == s[j + 1..];
      assert forall i | 1 <= i <= |s| :: s[i..] == s[1..][i - 1..];
    }
  }

  /** `p` matches nowhere in `s`. */
  predicate NoMatch(p: Matcher, s: string) {
    forall i | 0 <= i < |s| :: p(s[i..]).None?
  }

  /** Where the pattern matches at the start, the match is replaced and
      scanning resumes after it. */
  lemma SubStep(p: Matcher, repl: seq<Piece>, s: string, m: Match)
    requires p(s) == Some(m)
    ensures Sub(p, repl, s) == Expand(repl, m) + Sub(p, repl, s[m.len..])
  {
  }

  /** A match that covers the whole text is replaced as a whole. */
  lemma SubWholeMatch(p: Matcher, repl: seq<Piece>, s: string, m: Match)
    requires p(s) == Some(m) && m.len == |s|
    ensures Sub(p, repl, s) == Expand(repl, m)
  {
    assert s[m.len..] == [];
    assert Sub(p, repl, s) == Expand(repl, m) + "";
  }

  /** A text whose first character starts no match, and whose rest `re.sub`
      leaves alone, is left alone as a whole. */
  lemma SubKeepsWhole(p: Matcher, repl: seq<Piece>, s: string, rest: string)
    requires s != [] && p(s).None? && s[1..] == rest && Sub(p, repl, rest) == rest
    ensures Sub(p, repl, s) == s
  {
    assert [s[0]] + s[1..] == s;
  }

  /** A stretch where no match starts is copied unchanged, whatever follows. */
  lemma {:induction false} SubSkip(p: Matcher, repl: seq<Piece>, s: string, j: nat, k: nat)
    requires j <= k <= |s|
    requires forall i | j <= i < k :: p(s[i..]).None?
    ensures Sub(p, repl, s[j..]) == s[j..k] + Sub(p, repl, s[k..])
    decreases k - j
  {
    if j < k {
      SubSkip(p, repl, s, j + 1, k);
      SubCopiesAt(p, repl, s, j);
      ConsSlice(s, j, k, Sub(p, repl, s[k..]));
    } else {
      assert s[j..k] == [];
    }
  }

  lemma SubCopiesAt(p: Matcher, repl: seq<Piece>, s: string, j: nat)
    requires j < |s| && p(s[j..]).None?
    ensures Sub(p, repl, s[j..]) == [s[j]] + Sub(p, repl, s[j + 1..])
  {
    assert s[j..][1..] == s[j + 1..];
  }

  lemma ConsSlice(s: string, j: nat, k: nat, rest: string)
    requires j < k <= |s|
    ensures [s[j]] + (s[j + 1..k] + rest) == s[j..k] + rest
  {
    assert [s[j]] + s[j + 1..k] == s[j..k];
  }

  /** Where the pattern matches nowhere, `re.sub` returns the text unchanged. */
  lemma SubNoMatch(p: Matcher, repl: seq<Piece>, s: string)
    requires NoMatch(p, s)
    ensures Sub(p, repl, s) == s
  {
    SubSkip(p, repl, s, 0, |s|);
    assert s[0..] == s && s[0..|s|] == s;
  }

  /** Deleting matches never lengthens the text. */
  lemma {:induction false} DeleteShrinks(p: Matcher, s: string)
    ensures |Sub(p, [], s)| <= |s|
    decreases |s|
  {
    if s != [] {
      match p(s)
      case Some(m) => DeleteShrinks(p, s[m.len..]);
      case None => DeleteShrinks(p, s[1..]);
    }
  }

  /** Deleting every match leaves the text unchanged exactly when the pattern
      matches nowhere in it. */
  lemma DeleteIdentityIff(p: Matcher, s: string)
    ensures Sub(p, [], s) == s <==> NoMatch(p, s)
  {
    if NoMatch(p, s) {
      SubNoMatch(p, [], s);
    } else {
      DeleteChanges(p, s);
    }
  }

  lemma {:induction false} DeleteChanges(p: Matcher, s: string)
    requires !NoMatch(p, s)
    ensures Sub(p, [], s) != s
    decreases |s|
  {
    assert s != [];
    match p(s)
    case Some(m) =>
      DeleteShrinks(p, s[m.len..]);
    case None =>
      assert s[0..] == s;
      assert !NoMatch(p, s[1..]) by {
        var i :| 0 <= i < |s| && p(s[i..]).Some?;
        assert i > 0;
        assert s[1..][i - 1..] == s[i..];
      }
      DeleteChanges(p, s[1..]);
      assert Sub(p, [], s) == [s[0]] + Sub(p, [], s[1..]);
  }

  /** The search finds the match at the first position where one starts. */
  lemma {:induction false} SearchFindsFirst(p: Matcher, s: string, j: nat, k: nat)
    requires j <= k <= |s|
    requires forall i | j <= i < k :: p(s[i..]).None?
    requires p(s[k..]).Some?
    ensures Search(p, s[j..]) == p(s[k..])
    decreases k - j
  {
    if j < k {
      assert s[j..][1..] == s[j + 1..];
      SearchFindsFirst(p, s, j + 1, k);
    }
  }

  /** `p` never puts `c` into a capture group unless the matched text holds it. */
  ghost predicate GroupsAvoid(p: Matcher, c: char) {
    forall s :: c !in s && p(s).Some? ==> c !in p(s).value.g1 && c !in p(s).value.g2
  }

  /** No literal part of the replacement holds `c`. */
  predicate LitsAvoid(repl: seq<Piece>, c: char) {
    forall k | 0 <= k < |repl| :: repl[k].Lit? ==> c !in repl[k].text
  }

  /** `re.sub` introduces a character only through the literal parts of the
      replacement. */
  lemma {:induction false} SubAvoids(p: Matcher, repl: seq<Piece>, s: string, c: char)
    requires c !in s
    requires LitsAvoid(repl, c)
    requires GroupsAvoid(p, c)
    ensures c !in Sub(p, repl, s)
    decreases |s|
  {
    if s != [] {
      match p(s)
      case Some(m) =>
        ExpandAvoids(repl, m, c);
        assert c !in s[m.len..] by { assert forall i | 0 <= i < |s[m.len..]| :: s[m.len..][i] == s[m.len + i]; }
        SubAvoids(p, repl, s[m.len..], c);
      case None =>
        SubAvoids(p, repl, s[1..], c);
    }
  }

  lemma {:induction false} ExpandAvoids(repl: seq<Piece>, m: Match, c: char)
    requires LitsAvoid(repl, c)
    requires c !in m.g1 && c !in m.g2
    ensures c !in Expand(repl, m)
    decreases |repl|
  {
    if repl != [] {
      ExpandAvoids(repl[1..], m, c);
    }
  }
}
