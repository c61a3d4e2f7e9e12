/** The string operations of Python that the generator relies on:
    `str.isspace`, `str.strip`, `str.split`, `str.join`, `str.count`,
    `str.startswith`, sequence repetition and integer formatting. */
module Text {

  datatype Option<+T> = None | Some(value: T)

  /** The characters Python's `str.isspace` accepts (CPython's
      `Py_UNICODE_ISSPACE`); the regular-expression class `\s` on a `str`
      pattern matches exactly these too. */
  const Whitespace: set<char> := {
    '\t', '\n', '\U{0B}', '\U{0C}', '\r', '\U{1C}', '\U{1D}', '\U{1E}', '\U{1F}', ' ',
    '\U{85}', '\U{A0}', '\U{1680}',
    '\U{2000}', '\U{2001}', '\U{2002}', '\U{2003}', '\U{2004}', '\U{2005}',
    '\U{2006}', '\U{2007}', '\U{2008}', '\U{2009}', '\U{200A}',
    '\U{2028}', '\U{2029}', '\U{202F}', '\U{205F}', '\U{3000}'
  }

  /** The braces of a placeholder are not whitespace. */
  lemma BracesNotWhitespace()
    ensures '{' !in Whitespace && '}' !in Whitespace
  {
  }

  predicate StartsWith(s: string, prefix: string) {
    |prefix| <= |s| && s[..|prefix|] == prefix
  }

  /** Every character of `w` is whitespace. */
  predicate AllWhitespace(w: string) {
    forall i | 0 <= i < |w| :: w[i] in Whitespace
  }

  /** No two consecutive characters of `s` are both `c`. */
  predicate NoAdjacent(s: string, c: char) {
    forall i | 0 <= i < |s| - 1 :: !(s[i] == c && s[i + 1] == c)
  }

  /** `s` with its leading characters from `cs` removed. */
  function TrimLeft(s: string, cs: set<char>): (r: string)
    ensures |r| <= |s| && r == s[|s| - |r|..]
    ensures forall i | 0 <= i < |s| - |r| :: s[i] in cs
    ensures r != [] ==> r[0] !in cs
    decreases |s|
  {
    if s != [] && s[0] in cs then TrimLeft(s[1..], cs) else s
  }

  /** Concatenation is associative. */
  lemma AppendAssoc(a: string, b: string, c: string)
    ensures a + b + c == a + (b + c)
  {
  }

  /** Trimming a run of `cs` off the front of a text that then starts with
      a character outside `cs` leaves exactly that text. */
  lemma {:induction false} TrimLeftRun(w: string, rest: string, cs: set<char>)
    requires forall i | 0 <= i < |w| :: w[i] in cs
    requires rest == [] || rest[0] !in cs
    ensures TrimLeft(w + rest, cs) == rest
    decreases |w|
  {
    if w == [] {
      assert w + rest == rest;
    } else {
      assert (w + rest)[1..] == w[1..] + rest;
      TrimLeftRun(w[1..], rest, cs);
    }
  }

  /** `s` with its trailing characters from `cs` removed. */
  function TrimRight(s: string, cs: set<char>): (r: string)
    ensures |r| <= |s| && r == s[..|r|]
    ensures forall i | |r| <= i < |s| :: s[i] in cs
    ensures r != [] ==> r[|r| - 1] !in cs
    decreases |s|
  {
    if s != [] && s[|s| - 1] in cs then TrimRight(s[..|s| - 1], cs) else s
  }

  /** `r` is the piece of `s` from `lo` on, and everything of `s` before and
      after that piece is in `cs`. */
  predicate StripsTo(s: string, cs: set<char>, lo: nat, r: string) {
    lo + |r| <= |s| && s[lo..lo + |r|] == r &&
    (forall i | 0 <= i < lo :: s[i] in cs) &&
    (forall i | lo + |r| <= i < |s| :: s[i] in cs)
  }

  /** Python's `s.strip(chars)`; `s.strip()` is `Strip(s, Whitespace)`:
      the text with a leading and a trailing run of `cs` removed. */
  function Strip(s: string, cs: set<char>): (r: string)
    ensures r != [] ==> r[0] !in cs && r[|r| - 1] !in cs
    ensures r == [] <==> forall i | 0 <= i < |s| :: s[i] in cs
  {
    TrimRight(TrimLeft(s, cs), cs)
  }

  /** The stripped text is a piece of the original with only characters of
      `cs` before and after it; with the ends `Strip` promises, both runs
      are as long as they go. */
  lemma StripIsPiece(s: string, cs: set<char>)
    ensures exists lo: nat :: StripsTo(s, cs, lo, Strip(s, cs))
  {
    var l := TrimLeft(s, cs);
    var r := TrimRight(l, cs);
    assert r == Strip(s, cs);
    var lo := |s| - |l|;
    assert l == s[lo..] && r == l[..|r|];
    assert s[lo..lo + |r|] == r;
    assert forall i | lo + |r| <= i < |s| :: s[i] == l[i - lo] && l[i - lo] in cs;
    assert StripsTo(s, cs, lo, r);
  }

  /** A piece of a text without two adjacent `c` has none either. */
  lemma NoAdjacentSlice(s: string, c: char, lo: nat, hi: nat)
    requires lo <= hi <= |s|
    requires NoAdjacent(s, c)
    ensures NoAdjacent(s[lo..hi], c)
  {
    var t := s[lo..hi];
    forall i | 0 <= i < |t| - 1 ensures !(t[i] == c && t[i + 1] == c) {
      assert t[i] == s[lo + i] && t[i + 1] == s[lo + i + 1];
    }
  }

  /** Stripping keeps a contiguous piece of the text, so it cannot create
      two adjacent copies of a character. */
  lemma StripKeepsNoAdjacent(s: string, cs: set<char>, c: char)
    requires NoAdjacent(s, c)
    ensures NoAdjacent(Strip(s, cs), c)
  {
    var l := TrimLeft(s, cs);
    NoAdjacentSlice(s, c, |s| - |l|, |s|);
    var r := TrimRight(l, cs);
    NoAdjacentSlice(l, c, 0, |r|);
  }

  /** A character missing from a text is missing from every piece of it. */
  lemma NotInSlice(s: string, lo: nat, hi: nat, c: char)
    requires lo <= hi <= |s| && c !in s
    ensures c !in s[lo..hi]
  {
    assert forall i | 0 <= i < hi - lo :: s[lo..hi][i] == s[lo + i];
  }

  /** A prefix of a text that avoids `c` avoids it too. */
  lemma PrefixAvoids(s: string, k: nat, i: nat, c: char)
    requires i <= k <= |s| && c !in s[..k]
    ensures c !in s[..i]
  {
    assert s[..i] == s[..k][..i];
    assert forall j | 0 <= j < i :: s[..i][j] == s[..k][j];
  }

  /** Stripping never brings in a character. */
  lemma StripAvoids(s: string, cs: set<char>, c: char)
    requires c !in s
    ensures c !in Strip(s, cs)
  {
    var l := TrimLeft(s, cs);
    NotInSlice(s, |s| - |l|, |s|, c);
    NotInSlice(l, 0, |TrimRight(l, cs)|, c);
  }

  /** Python's `s.count(c)` for a one-character `c`. */
  function Count(s: string, c: char): (n: nat)
    ensures n <= |s|
    ensures n == 0 <==> c !in s
    decreases |s|
  {
    if s == [] then 0
    else (if s[0] == c then 1 else 0) + Count(s[1..], c)
  }

  /** Counting distributes over concatenation. */
  lemma {:induction false} CountAppend(a: string, b: string, c: char)
    ensures Count(a + b, c) == Count(a, c) + Count(b, c)
    decreases |a|
  {
    if a != [] {
      assert (a + b)[1..] == a[1..] + b;
      CountAppend(a[1..], b, c);
    } else {
      assert a + b == b;
    }
  }

  /** Python's `s.split(sep)` for a one-character separator: always at least
      one piece, and no piece contains the separator. */
  function Split(s: string, sep: char): (r: seq<string>)
    ensures |r| == Count(s, sep) + 1
    ensures forall k | 0 <= k < |r| :: sep !in r[k]
    decreases |s|
  {
    if s == [] then [""]
    else
      var rest := Split(s[1..], sep);
      if s[0] == sep then [""] + rest
      else [[s[0]] + rest[0]] + rest[1..]
  }

  /** Python's `sep.join(xs)` for a one-character separator. */
  function Join(xs: seq<string>, sep: char): string
    decreases |xs|
  {
    if xs == [] then ""
    else if |xs| == 1 then xs[0]
    else xs[0] + [sep] + Join(xs[1..], sep)
  }

  /** Joining the pieces of a split gives back the original text. */
  lemma {:induction false} JoinSplit(s: string, sep: char)
    ensures Join(Split(s, sep), sep) == s
    decreases |s|
  {
    if s != [] {
      var rest := Split(s[1..], sep);
      JoinSplit(s[1..], sep);
      assert [s[0]] + s[1..] == s;
      if s[0] == sep {
        assert Split(s, sep) == [""] + rest;
        JoinCons("", rest, sep);
      } else {
        assert Split(s, sep) == [[s[0]] + rest[0]] + rest[1..];
        JoinPrepend(s[0], rest, sep);
      }
    }
  }

  /** Putting a character in front of the first piece puts it in front of
      the joined text. */
  lemma JoinPrepend(c: char, xs: seq<string>, sep: char)
    requires xs != []
    ensures Join([[c] + xs[0]] + xs[1..], sep) == [c] + Join(xs, sep)
  {
    var first := [c] + xs[0];
    if |xs| == 1 {
      assert [first] + xs[1..] == [first];
    } else {
      JoinCons(first, xs[1..], sep);
      JoinCons(xs[0], xs[1..], sep);
      assert [xs[0]] + xs[1..] == xs;
    }
  }

  /** Joining a piece in front of a non-empty list puts one separator
      between them. */
  lemma JoinCons(x: string, xs: seq<string>, sep: char)
    requires xs != []
    ensures Join([x] + xs, sep) == x + [sep] + Join(xs, sep)
  {
    assert ([x] + xs)[1..] == xs;
  }

  lemma {:induction false} SplitWithoutSep(x: string, sep: char)
    requires sep !in x
    ensures Split(x, sep) == [x]
    decreases |x|
  {
    if x != [] {
      SplitWithoutSep(x[1..], sep);
      assert [x[0]] + x[1..] == x;
    }
  }

  lemma {:induction false} SplitAfterPiece(x: string, sep: char, t: string)
    requires sep !in x
    ensures Split(x + [sep] + t, sep) == [x] + Split(t, sep)
    decreases |x|
  {
    var s := x + [sep] + t;
    if x == [] {
      assert s[1..] == t;
    } else {
      assert s[1..] == x[1..] + [sep] + t;
      SplitAfterPiece(x[1..], sep, t);
      assert [x[0]] + x[1..] == x;
    }
  }

  /** Splitting a join of separator-free pieces gives back the pieces. */
  lemma {:induction false} SplitJoin(xs: seq<string>, sep: char)
    requires |xs| >= 1
    requires forall k | 0 <= k < |xs| :: sep !in xs[k]
    ensures Split(Join(xs, sep), sep) == xs
    decreases |xs|
  {
    if |xs| == 1 {
      SplitWithoutSep(xs[0], sep);
    } else {
      SplitJoin(xs[1..], sep);
      SplitAfterPiece(xs[0], sep, Join(xs[1..], sep));
      assert [xs[0]] + xs[1..] == xs;
    }
  }

  /** Splitting a non-empty text that neither starts nor ends with the
      separator and never holds two separators in a row gives no empty piece. */
  lemma {:induction false} SplitPiecesNonEmpty(s: string, sep: char)
    requires s != [] && s[0] != sep && s[|s| - 1] != sep
    requires NoAdjacent(s, sep)
    ensures forall k | 0 <= k < |Split(s, sep)| :: Split(s, sep)[k] != []
    decreases |s|
  {
    if |s| > 1 {
      var t := s[1..];
      NoAdjacentSlice(s, sep, 1, |s|);
      if s[1] == sep {
        var u := s[2..];
        NoAdjacentSlice(s, sep, 2, |s|);
        SplitPiecesNonEmpty(u, sep);
        assert t == [] + [sep] + u;
        SplitAfterPiece([], sep, u);
      } else {
        SplitPiecesNonEmpty(t, sep);
      }
    }
  }

  /** Python's `n * s` for a string `s` and a natural `n`: `n` copies of
      `s`, one after the other, so the text starts with `s` and repeats
      with period `|s|`. */
  function Repeat(s: string, n: nat): (r: string)
    ensures |r| == n * |s|
    ensures n > 0 ==> |s| <= |r| && r[..|s|] == s
    ensures forall i | |s| <= i < |r| :: r[i] == r[i - |s|]
  {
    if n == 0 then ""
    else
      var rest := Repeat(s, n - 1);
      var r := s + rest;
      assert forall i | |s| <= i < |r| :: r[i] == rest[i - |s|];
      r
  }

  function DigitChar(d: nat): (c: char)
    requires d < 10
    ensures '0' <= c <= '9'
  {
    ['0', '1', '2', '3', '4', '5', '6', '7', '8', '9'][d]
  }

  /** The decimal digits Python's `str(n)` (or an f-string) writes for `n`. */
  function NatToString(n: nat): (r: string)
    ensures r != []
    ensures forall i | 0 <= i < |r| :: '0' <= r[i] <= '9'
    ensures (r[0] == '0') == (n == 0)
  {
    if n < 10 then [DigitChar(n)] else NatToString(n / 10) + [DigitChar(n % 10)]
  }

  /** The value of a string of decimal digits. */
  function DigitsValue(s: string): nat
    requires forall i | 0 <= i < |s| :: '0' <= s[i] <= '9'
  {
    if s == [] then 0 else 10 * DigitsValue(s[..|s| - 1]) + (s[|s| - 1] as int - '0' as int)
  }

  lemma {:induction false} DigitsValueOfNatToString(n: nat)
    ensures DigitsValue(NatToString(n)) == n
  {
    if n >= 10 {
      DigitsValueOfNatToString(n / 10);
      var r := NatToString(n);
      assert r[..|r| - 1] == NatToString(n / 10);
    }
  }
}
