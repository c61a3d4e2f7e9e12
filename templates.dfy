/** The template filler of generator.py (`fill_template`): every entry of
    the replacement mapping, in insertion order, replaces each placeholder
    `{{ NAME }}` (whitespace inside the braces optional) with its value.
    The template text is a parameter instead of a file. */
module Templates {
  import opened Text
  import opened Regex

  /** One entry of a replacement mapping: a placeholder name and its value. */
  type Entry = (string, string)

  /** One pass of the filler: `re.sub` with the placeholder pattern for
      `name` and the literal `value`. */
  function Substitute(t: string, name: string, value: string): string {
    Sub(PlaceholderPattern(name), [Lit(value)], t)
  }

  /** The filled template: the entries applied in order, each pass working
      on the output of the one before. */
  function Fill(t: string, entries: seq<Entry>): string
    decreases |entries|
  {
    if entries == [] then t
    else
      var e := entries[|entries| - 1];
      Substitute(Fill(t, entries[..|entries| - 1]), e.0, e.1)
  }

  /** The filler's loop: the template text reassigned once per entry. */
  method FillTemplate(template: string, entries: seq<Entry>) returns (content: string)
    ensures content == Fill(template, entries)
  {
    content := template;
    for i := 0 to |entries|
      invariant content == Fill(template, entries[..i])
    {
      var (name, value) := entries[i];
      assert entries[..i + 1][..i] == entries[..i];
      content := Substitute(content, name, value);
    }
    assert entries[..|entries|] == entries;
  }

  /** Without two adjacent `{`, no placeholder can start anywhere, so a
      pass changes nothing. */
  lemma SubstituteWithoutOpening(t: string, name: string, value: string)
    requires NoAdjacent(t, '{')
    ensures Substitute(t, name, value) == t
  {
    forall i | 0 <= i < |t| ensures MatchPlaceholder(t[i..], name).None? {
      assert !StartsWith(t[i..], "{{") by {
        if i + 1 < |t| {
          assert t[i..][..2] == [t[i], t[i + 1]];
        }
      }
    }
    SubNoMatch(PlaceholderPattern(name), [Lit(value)], t);
  }

  /** A template without `{{` comes out of the filler unchanged, whatever
      the mapping. */
  lemma {:induction false} FillWithoutOpening(t: string, entries: seq<Entry>)
    requires NoAdjacent(t, '{')
    ensures Fill(t, entries) == t
    decreases |entries|
  {
    if entries != [] {
      var e := entries[|entries| - 1];
      FillWithoutOpening(t, entries[..|entries| - 1]);
      SubstituteWithoutOpening(t, e.0, e.1);
    }
  }

  /** Text before a placeholder that holds no `{{` is copied through by a
      pass: no match can start inside it, nor on a last `{` of it. */
  lemma SubstituteSkipsPrefix(pre: string, rest: string, name: string, value: string)
    requires NoAdjacent(pre, '{')
    requires |rest| >= 2 && rest[0] == '{' && rest[1] == '{'
    requires name != [] && name[0] != '{'
    ensures Substitute(pre + rest, name, value) == pre + Substitute(rest, name, value)
  {
    var s := pre + rest;
    forall i | 0 <= i < |pre| ensures MatchPlaceholder(s[i..], name).None? {
      var x := s[i..];
      assert x[0] == pre[i] && x[1] == s[i + 1];
      if i + 1 < |pre| {
        NoOpeningNoMatch(x, name);
      } else if pre[i] == '{' {
        assert x[2] == '{';
        ThirdBraceNoMatch(x, name);
      } else {
        NoOpeningNoMatch(x, name);
      }
    }
    SubSkip(PlaceholderPattern(name), [Lit(value)], s, 0, |pre|);
    assert s[0..] == s && s[0..|pre|] == pre && s[|pre|..] == rest;
  }

  /** `{{{` starts no placeholder for a name that does not start with `{`:
      the scan reads the third brace where the name should begin. */
  lemma ThirdBraceNoMatch(x: string, name: string)
    requires |x| >= 3 && x[0] == '{' && x[1] == '{' && x[2] == '{'
    requires name != [] && name[0] != '{'
    ensures MatchPlaceholder(x, name).None?
  {
    BracesNotWhitespace();
    SkipSpacesTo(x, 2, 2);
    assert x[2..][0] == '{';
  }

  /** A placeholder for `name`, with any whitespace runs inside the braces,
      is replaced by the value wherever it stands, once the text before it
      holds no `{{`; the pass then goes on after it. */
  lemma PlaceholderReplaced(pre: string, w1: string, name: string, w2: string, post: string, value: string)
    requires NoAdjacent(pre, '{')
    requires AllWhitespace(w1) && AllWhitespace(w2) && PlainName(name)
    ensures Substitute(pre + "{{" + w1 + name + w2 + "}}" + post, name, value) ==
      pre + value + Substitute(post, name, value)
  {
    var rest := "{{" + w1 + name + w2 + "}}" + post;
    PlaceholderSplit(pre, w1, name, w2, post);
    SubstituteSkipsPrefix(pre, rest, name, value);
    ReplacedAtStart(rest, w1, name, w2, post, value);
  }

  /** A placeholder for `name` at the start of the text is replaced. */
  lemma ReplacedAtStart(rest: string, w1: string, name: string, w2: string, post: string, value: string)
    requires rest == "{{" + w1 + name + w2 + "}}" + post
    requires AllWhitespace(w1) && AllWhitespace(w2) && PlainName(name)
    ensures Substitute(rest, name, value) == value + Substitute(post, name, value)
  {
    var repl := [Lit(value)];
    var m := Match(|w1| + |name| + |w2| + 4, "", "");
    PlaceholderMatchesAt(rest, w1, name, w2, post);
    SubStep(PlaceholderPattern(name), repl, rest, m);
    assert rest[m.len..] == post;
    assert Expand(repl, m) == value by {
      assert repl[1..] == [];
    }
  }

  /** A placeholder after some text, read as that text and the placeholder
      followed by the rest. */
  lemma PlaceholderSplit(pre: string, w1: string, n: string, w2: string, post: string)
    ensures pre + "{{" + w1 + n + w2 + "}}" + post == pre + ("{{" + w1 + n + w2 + "}}" + post)
    ensures ("{{" + w1 + n + w2 + "}}" + post)[0] == '{'
    ensures ("{{" + w1 + n + w2 + "}}" + post)[1] == '{'
  {
  }

  /** The placeholder pattern matches a placeholder for `name` as a whole,
      whatever follows it. */
  lemma PlaceholderMatchesAt(s: string, w1: string, name: string, w2: string, post: string)
    requires s == "{{" + w1 + name + w2 + "}}" + post
    requires AllWhitespace(w1) && AllWhitespace(w2)
    requires name != [] && name[0] !in Whitespace
    ensures MatchPlaceholder(s, name) == Some(Match(|w1| + |name| + |w2| + 4, "", ""))
  {
    PlaceholderSpanIn(s, w1, name, w2, post);
    PlaceholderFound(s, name, 2 + |w1|, 2 + |w1| + |name| + |w2|);
  }

  /** A placeholder's text read as the span the placeholder pattern takes. */
  lemma PlaceholderSpanIn(s: string, w1: string, name: string, w2: string, post: string)
    requires s == "{{" + w1 + name + w2 + "}}" + post
    requires AllWhitespace(w1) && AllWhitespace(w2)
    requires name != [] && name[0] !in Whitespace
    ensures PlaceholderSpan(s, name, 2 + |w1|, 2 + |w1| + |name| + |w2|)
  {
    PlaceholderSlices(s, w1, name, w2, post);
  }

  /** Where the braces, the whitespace runs and the name sit in a
      placeholder's text. */
  lemma PlaceholderSlices(s: string, w1: string, name: string, w2: string, post: string)
    requires s == "{{" + w1 + name + w2 + "}}" + post && name != []
    ensures var i := 2 + |w1|; var j := i + |name| + |w2|;
      j + 2 <= |s| && s[..2] == "{{" && s[2..i] == w1 && s[i..i + |name|] == name &&
      s[i] == name[0] && s[i + |name|..j] == w2 && s[j..j + 2] == "}}"
  {
    var i := 2 + |w1|;
    var j := i + |name| + |w2|;
    assert forall m | 0 <= m < |w1| :: s[2 + m] == w1[m];
    assert forall m | 0 <= m < |name| :: s[i + m] == name[m];
    assert forall m | 0 <= m < |w2| :: s[i + |name| + m] == w2[m];
    assert s[j] == '}' && s[j + 1] == '}';
  }

  /** A name the placeholder pattern cannot confuse with another: non-empty,
      no whitespace and no braces. */
  predicate PlainName(n: string) {
    n != [] && forall i | 0 <= i < |n| :: n[i] !in Whitespace && n[i] != '{' && n[i] != '}'
  }

  /** A placeholder whose name is not the one being filled is kept as
      literal text wherever it stands, once the text before it holds no
      `{{`; the pass then goes on after it. */
  lemma OtherPlaceholderKept(pre: string, w1: string, n: string, w2: string, post: string,
                             name: string, value: string)
    requires NoAdjacent(pre, '{')
    requires AllWhitespace(w1) && AllWhitespace(w2) && PlainName(n)
    requires PlainName(name) && name != n
    ensures Substitute(pre + "{{" + w1 + n + w2 + "}}" + post, name, value) ==
      pre + "{{" + w1 + n + w2 + "}}" + Substitute(post, name, value)
  {
    var ph := "{{" + w1 + n + w2 + "}}";
    var rest := ph + post;
    PlaceholderSplit(pre, w1, n, w2, post);
    SubstituteSkipsPrefix(pre, rest, name, value);
    KeptAtStart(w1, n, w2, post, name, value);
    PlaceholderSplit(pre, w1, n, w2, Substitute(post, name, value));
  }

  /** A placeholder for another name at the start of the text is copied. */
  lemma KeptAtStart(w1: string, n: string, w2: string, post: string, name: string, value: string)
    requires AllWhitespace(w1) && AllWhitespace(w2) && PlainName(n)
    requires PlainName(name) && name != n
    ensures Substitute("{{" + w1 + n + w2 + "}}" + post, name, value) ==
      "{{" + w1 + n + w2 + "}}" + Substitute(post, name, value)
  {
    var ph := "{{" + w1 + n + w2 + "}}";
    var rest := ph + post;
    OtherNameFails(rest, w1, n, w2, post, name);
    NoOpeningInside(rest, w1, n, w2, post);
    forall i | 0 <= i < |ph| ensures MatchPlaceholder(rest[i..], name).None? {
      if i == 0 {
        assert rest[0..] == rest;
      } else {
        assert rest[i..][0] == rest[i];
        if i + 1 < |rest| {
          assert rest[i..][1] == rest[i + 1];
        }
        NoOpeningNoMatch(rest[i..], name);
      }
    }
    SubSkip(PlaceholderPattern(name), [Lit(value)], rest, 0, |ph|);
    assert rest[0..] == rest && rest[0..|ph|] == ph && rest[|ph|..] == post;
  }

  /** No placeholder starts where the text does not start with `{{`. */
  lemma NoOpeningNoMatch(x: string, name: string)
    requires |x| < 2 || x[0] != '{' || x[1] != '{'
    ensures MatchPlaceholder(x, name).None?
  {
    if 2 <= |x| {
      assert x[..2][0] == x[0] && x[..2][1] == x[1];
    }
  }

  /** After its opening `{{`, a placeholder holds no `{`. */
  lemma NoOpeningInside(s: string, w1: string, n: string, w2: string, post: string)
    requires s == "{{" + w1 + n + w2 + "}}" + post
    requires AllWhitespace(w1) && AllWhitespace(w2) && PlainName(n)
    ensures forall m | 2 <= m < |"{{" + w1 + n + w2 + "}}"| :: s[m] != '{'
  {
    BracesNotWhitespace();
    assert forall m | 0 <= m < |w1| :: s[2 + m] == w1[m];
    assert forall m | 0 <= m < |n| :: s[2 + |w1| + m] == n[m];
    assert forall m | 0 <= m < |w2| :: s[2 + |w1| + |n| + m] == w2[m];
  }

  /** Scanning a placeholder for another name fails at its first character:
      the name read after the opening whitespace is a different one. */
  lemma OtherNameFails(s: string, w1: string, n: string, w2: string, post: string, name: string)
    requires s == "{{" + w1 + n + w2 + "}}" + post
    requires AllWhitespace(w1) && AllWhitespace(w2) && PlainName(n)
    requires PlainName(name) && name != n
    ensures MatchPlaceholder(s, name).None?
  {
    var i := 2 + |w1|;
    PlaceholderSlices(s, w1, n, w2, post);
    assert forall m | 2 <= m < i :: s[m] == w1[m - 2];
    // After the name comes whitespace or the closing brace, never a name character.
    assert s[i + |n|] in Whitespace || s[i + |n|] == '}' by {
      if w2 != [] {
        assert s[i + |n|] == w2[0];
      }
    }
    OtherNameScan(s, i, n, name);
  }

  /** The scan for `name` fails on `{{`, whitespace, and then a different
      plain name `n` followed by whitespace or a closing brace. */
  lemma OtherNameScan(s: string, i: nat, n: string, name: string)
    requires 2 <= i && i + |n| < |s| && s[..2] == "{{"
    requires forall m | 2 <= m < i :: s[m] in Whitespace
    requires s[i..i + |n|] == n
    requires s[i + |n|] in Whitespace || s[i + |n|] == '}'
    requires PlainName(n) && PlainName(name) && name != n
    ensures MatchPlaceholder(s, name).None?
  {
    assert s[i] == s[i..i + |n|][0];
    SkipSpacesTo(s, 2, i);
    if StartsWith(s[i..], name) {
      OtherNameStops(s, i, n, name);
    }
  }

  /** Where another plain name is read in place of `n`, the scan stops on a
      character of `n` instead of the closing brace. */
  lemma OtherNameStops(s: string, i: nat, n: string, name: string)
    requires i + |n| < |s| && s[i..i + |n|] == n
    requires s[i + |n|] in Whitespace || s[i + |n|] == '}'
    requires PlainName(n) && PlainName(name) && name != n && StartsWith(s[i..], name)
    ensures i + |name| < |s| && SkipSpaces(s, i + |name|) == i + |name|
    ensures !StartsWith(s[i + |name|..], PlaceholderClose)
  {
    assert forall m | 0 <= m < |name| :: s[i + m] == name[m] by {
      assert s[i..][..|name|] == name;
    }
    assert forall m | 0 <= m < |n| :: s[i + m] == n[m];
    assert s[i..][|n|] == s[i + |n|];
    NameEndsBefore(s[i..], name, |n|);
    assert name == n[..|name|];
    var k := i + |name|;
    assert s[k] == n[|name|];
    SkipSpacesTo(s, k, k);
    assert s[k..][0] == n[|name|];
  }

  /** A name read at the start of `t` ends before any whitespace or closing
      brace of `t`. */
  lemma NameEndsBefore(t: string, name: string, k: nat)
    requires PlainName(name) && StartsWith(t, name)
    requires k < |t| && (t[k] in Whitespace || t[k] == '}')
    ensures |name| <= k
  {
  }

  /** A placeholder none of the mapping's names refers to survives the
      whole fill, and so does the text before it when that holds no `{{`. */
  lemma {:induction false} UnknownPlaceholderKept(pre: string, w1: string, n: string, w2: string,
                                                  post: string, entries: seq<Entry>)
    requires NoAdjacent(pre, '{')
    requires AllWhitespace(w1) && AllWhitespace(w2) && PlainName(n)
    requires forall k | 0 <= k < |entries| :: PlainName(entries[k].0) && entries[k].0 != n
    ensures Fill(pre + "{{" + w1 + n + w2 + "}}" + post, entries) ==
      pre + "{{" + w1 + n + w2 + "}}" + Fill(post, entries)
    decreases |entries|
  {
    if entries != [] {
      var init := entries[..|entries| - 1];
      var e := entries[|entries| - 1];
      assert forall k | 0 <= k < |init| :: init[k] == entries[k];
      UnknownPlaceholderKept(pre, w1, n, w2, post, init);
      OtherPlaceholderKept(pre, w1, n, w2, Fill(post, init), e.0, e.1);
    }
  }

  /** Later entries rescan what earlier entries inserted: a value that is
      itself a placeholder for a later name is filled in turn. */
  lemma FillRescans(a: string, b: string, value: string)
    requires PlainName(a) && PlainName(b)
    ensures Fill("{{" + a + "}}", [(a, "{{" + b + "}}"), (b, value)]) == value
  {
    var t := "{{" + a + "}}";
    var first := (a, "{{" + b + "}}");
    assert [first, (b, value)] == [first] + [(b, value)];
    assert [first] == [] + [first];
    var mid := Fill(t, [first]);
    assert mid == "{{" + b + "}}" by {
      FillLast(t, [], first);
      BarePlaceholderReplaced(a, "{{" + b + "}}");
    }
    FillLast(t, [first], (b, value));
    BarePlaceholderReplaced(b, value);
  }

  /** The placeholder `{{name}}` alone is replaced by the value. */
  lemma BarePlaceholderReplaced(name: string, value: string)
    requires PlainName(name)
    ensures Substitute("{{" + name + "}}", name, value) == value
  {
    assert "" + "{{" + "" + name + "" + "}}" + "" == "{{" + name + "}}";
    PlaceholderReplaced("", "", name, "", "", value);
    assert "" + value + Substitute("", name, value) == value;
  }

  /** One more entry is one more pass over the filled text. */
  lemma FillLast(t: string, entries: seq<Entry>, e: Entry)
    ensures Fill(t, entries + [e]) == Substitute(Fill(t, entries), e.0, e.1)
  {
    assert (entries + [e])[..|entries|] == entries;
  }
}
