/** Page assembly in generator.py: the trail of folders a Markdown file sits
    in, the rules for the special pages (the home page drops its `<h1>`, the
    games and websites pages get one postcard per record), the values of the
    page template's placeholders, and the whole pipeline from Markdown text
    to page text (`generate_html_from_md_file` without its file access). */
module Pages {
  import opened Text
  import opened Regex
  import opened Blocks
  import opened Templates

  /** What the page title is followed by below the root, exactly as the
      source spells it: the characters U+00E2 U+20AC U+201D between two
      spaces (the UTF-8 bytes of an em dash read as single characters). */
  const TitleSeparator: string := " \U{E2}\U{20AC}\U{201D} "

  /** What generator.py reads from files: the page and postcard templates
      and the records of the games and websites lists, each record a
      mapping from placeholder names to values, in the file's order. */
  datatype Sources = Sources(
    pageTemplate: string,
    postcard: string,
    games: seq<seq<Entry>>,
    websites: seq<seq<Entry>>)

  // ---------------------------------------------------------------------
  // The trail

  /** The folders between the top folder and the file:
      `input_path.split("/")[1:-1]`, which is empty when the path has fewer
      than three parts. */
  function Trail(path: string): (r: seq<string>)
    ensures |r| == if Count(path, '/') < 2 then 0 else Count(path, '/') - 1
    ensures forall k | 0 <= k < |r| :: '/' !in r[k]
  {
    var parts := Split(path, '/');
    if |parts| <= 2 then [] else parts[1..|parts| - 1]
  }

  /** The trail of `root/d1/.../dn/file` is `d1, ..., dn`. */
  lemma TrailOfPath(root: string, dirs: seq<string>, file: string)
    requires '/' !in root && '/' !in file
    requires forall k | 0 <= k < |dirs| :: '/' !in dirs[k]
    ensures Trail(Join([root] + dirs + [file], '/')) == dirs
  {
    var parts := [root] + dirs + [file];
    PartsWithoutSlash(root, dirs, file);
    SplitJoin(parts, '/');
    assert parts[1..|parts| - 1] == dirs;
  }

  lemma PartsWithoutSlash(root: string, dirs: seq<string>, file: string)
    requires '/' !in root && '/' !in file
    requires forall k | 0 <= k < |dirs| :: '/' !in dirs[k]
    ensures forall k | 0 <= k < |[root] + dirs + [file]| :: '/' !in ([root] + dirs + [file])[k]
  {
    var parts := [root] + dirs + [file];
    forall k | 0 <= k < |parts| ensures '/' !in parts[k] {
      if 0 < k <= |dirs| {
        assert parts[k] == dirs[k - 1];
      }
    }
  }

  // ---------------------------------------------------------------------
  // Special pages

  /** The home page's rule: every `<h1 ...>...</h1>` on one line is deleted. */
  function StripHeadings(content: string): (r: string)
    ensures |r| <= |content|
    ensures r == content <==> NoMatch(MatchHeading1, content)
  {
    DeleteShrinks(MatchHeading1, content);
    DeleteIdentityIff(MatchHeading1, content);
    Sub(MatchHeading1, [], content)
  }

  /** The postcard template filled once per record, in record order. */
  function Postcards(postcard: string, records: seq<seq<Entry>>): string
    decreases |records|
  {
    if records == [] then ""
    else Postcards(postcard, records[..|records| - 1]) + Fill(postcard, records[|records| - 1])
  }

  /** The postcard loop: the content grows by one filled postcard per record. */
  method AppendPostcards(content: string, postcard: string, records: seq<seq<Entry>>) returns (r: string)
    ensures r == content + Postcards(postcard, records)
  {
    r := content;
    for i := 0 to |records|
      invariant r == content + Postcards(postcard, records[..i])
    {
      var filled := FillTemplate(postcard, records[i]);
      PostcardsStep(content, postcard, records, i);
      r := r + filled;
    }
    assert records[..|records|] == records;
  }

  lemma PostcardsStep(content: string, postcard: string, records: seq<seq<Entry>>, i: nat)
    requires i < |records|
    ensures content + Postcards(postcard, records[..i + 1]) ==
      content + Postcards(postcard, records[..i]) + Fill(postcard, records[i])
  {
    assert records[..i + 1][..i] == records[..i];
  }

  /** The special-page rules, chosen by the exact trail. */
  function SpecialPageRules(content: string, trail: seq<string>, src: Sources): string {
    if trail == [] then StripHeadings(content)
    else if trail == ["games"] then content + Postcards(src.postcard, src.games)
    else if trail == ["websites"] then content + Postcards(src.postcard, src.websites)
    else content
  }

  method ApplySpecialPageRules(content: string, trail: seq<string>, src: Sources) returns (r: string)
    ensures r == SpecialPageRules(content, trail, src)
  {
    r := content;
    if trail == [] {
      r := Sub(MatchHeading1, [], r);
    } else if trail == ["games"] {
      r := AppendPostcards(r, src.postcard, src.games);
    } else if trail == ["websites"] {
      r := AppendPostcards(r, src.postcard, src.websites);
    }
  }

  /** What each rule does to the content: the home page only loses text,
      and is unchanged exactly when it holds no `<h1>` span; the games and
      websites pages keep the content as a prefix and add the postcards;
      every other page is unchanged. */
  lemma SpecialPageRulesEffect(content: string, trail: seq<string>, src: Sources)
    ensures var r := SpecialPageRules(content, trail, src);
      (trail == [] ==> |r| <= |content| && (r == content <==> NoMatch(MatchHeading1, content))) &&
      (trail == ["games"] ==> r[..|content|] == content && r[|content|..] == Postcards(src.postcard, src.games)) &&
      (trail == ["websites"] ==> r[..|content|] == content && r[|content|..] == Postcards(src.postcard, src.websites)) &&
      (trail != [] && trail != ["games"] && trail != ["websites"] ==> r == content)
  {
  }

  /** Postcards for a list made of two parts are the postcards of the first
      part followed by those of the second. */
  lemma {:induction false} PostcardsAppend(postcard: string, a: seq<seq<Entry>>, b: seq<seq<Entry>>)
    ensures Postcards(postcard, a + b) == Postcards(postcard, a) + Postcards(postcard, b)
    decreases |b|
  {
    if b == [] {
      assert a + b == a;
    } else {
      var init := b[..|b| - 1];
      var last := b[|b| - 1];
      assert (a + b)[..|a + b| - 1] == a + init;
      assert (a + b)[|a + b| - 1] == last;
      PostcardsAppend(postcard, a, init);
      AppendAssoc(Postcards(postcard, a), Postcards(postcard, init), Fill(postcard, last));
    }
  }

  /** One record gives exactly one filled postcard. */
  lemma PostcardsOne(postcard: string, rec: seq<Entry>)
    ensures Postcards(postcard, [rec]) == Fill(postcard, rec)
  {
    assert [rec][..0] == [];
  }

  /** On the home page an `h1` element whose text `t` holds no newline and
      no earlier `</h1>` is deleted together with nothing else. */
  lemma StripHeadingsDropsTitle(t: string, rest: string)
    requires '\n' !in t
    requires forall j | 0 <= j < |t| :: !StartsWith((t + H1End)[j..], H1End)
    ensures StripHeadings("<h1>" + t + "</h1>" + rest) == StripHeadings(rest)
  {
    TitleStripped("<h1>" + t + "</h1>" + rest, t, rest);
  }

  lemma TitleStripped(s: string, t: string, rest: string)
    requires s == "<h1>" + t + "</h1>" + rest
    requires '\n' !in t
    requires forall j | 0 <= j < |t| :: !StartsWith((t + H1End)[j..], H1End)
    ensures StripHeadings(s) == StripHeadings(rest)
  {
    TitleHeadingSpan(s, t, rest);
    Heading1Found(s, 3, 4 + |t|);
    var m := Match(|t| + 9, "", "");
    SubStep(MatchHeading1, [], s, m);
    assert s[m.len..] == rest;
    assert Expand([], m) == "";
  }

  /** The element `<h1>t</h1>` opening `s` spans `s[..|t| + 9]`. */
  lemma TitleHeadingSpan(s: string, t: string, rest: string)
    requires s == "<h1>" + t + "</h1>" + rest
    requires '\n' !in t
    requires forall j | 0 <= j < |t| :: !StartsWith((t + H1End)[j..], H1End)
    ensures Heading1Span(s, 3, 4 + |t|)
  {
    var u := t + H1End;
    assert s == "<h1>" + u + rest;
    assert s[..3] == H1Start;
    assert s[3] == TagEnd && s[3..3] == [];
    assert s[4 + |t|..9 + |t|] == H1End;
    assert s[4..4 + |t|] == t;
    forall j | 3 < j < 4 + |t|
      ensures !StartsWith(s[j..], H1End)
    {
      var k := j - 4;
      assert !StartsWith(u[k..], H1End);
      assert s[j..][..5] == u[k..][..5];
    }
  }

  // ---------------------------------------------------------------------
  // Placeholder values

  /** `"/" + "/".join(trail)`, or nothing at the root. */
  function CanonicalPath(trail: seq<string>): string {
    if |trail| > 0 then "/" + Join(trail, '/') else ""
  }

  /** The page template's mapping, in insertion order: the article
      verbatim; at the root an empty canonical path, relative prefix and
      title; below it a canonical path starting with `/`, `../` once per
      folder and the title followed by the separator. */
  function PlaceholderReplacements(article: string, title: string, trail: seq<string>): (r: seq<Entry>)
    ensures |r| == 4
    ensures r[0] == ("ARTICLE_CONTENT", article)
    ensures r[1].0 == "CANONICAL_PATH" && r[2].0 == "REL" && r[3].0 == "PAGE_TITLE"
    ensures trail == [] <==> r[1].1 == ""
    ensures trail != [] ==> r[1].1[0] == '/'
    ensures |r[2].1| == 3 * |trail|
    ensures trail != [] ==> r[2].1[..3] == "../"
    ensures forall i | 3 <= i < |r[2].1| :: r[2].1[i] == r[2].1[i - 3]
    ensures r[3].1 == if trail == [] then "" else title + TitleSeparator
  {
    [("ARTICLE_CONTENT", article),
     ("CANONICAL_PATH", CanonicalPath(trail)),
     ("REL", Repeat("../", |trail|)),
     ("PAGE_TITLE", if |trail| > 0 then title + TitleSeparator else "")]
  }

  /** Splitting the canonical path after its leading `/` gives the trail back. */
  lemma CanonicalPathRoundTrip(trail: seq<string>)
    requires trail != []
    requires forall k | 0 <= k < |trail| :: '/' !in trail[k]
    ensures CanonicalPath(trail)[0] == '/'
    ensures Split(CanonicalPath(trail)[1..], '/') == trail
  {
    assert CanonicalPath(trail)[1..] == Join(trail, '/');
    SplitJoin(trail, '/');
  }

  // ---------------------------------------------------------------------
  // The whole page

  /** The page for Markdown text `md` found at `path`; `None` when the
      converter fails for want of a level-1 heading. */
  function Page(md: string, path: string, src: Sources): Option<string> {
    match Convert(md)
    case None => None
    case Some(c) =>
      var trail := Trail(path);
      var article := SpecialPageRules(c.html, trail, src);
      Some(Fill(src.pageTemplate, PlaceholderReplacements(article, c.title, trail)))
  }

  /** The pipeline of one file: convert, apply the special-page rules, fill
      the page template. */
  method GenerateHtmlFromMdFile(md: string, path: string, src: Sources) returns (r: Option<string>)
    ensures r == Page(md, path, src)
  {
    var converted := ConvertMarkdownToHtml(md);
    if converted.None? {
      return None;
    }
    var trail := Trail(path);
    var article := ApplySpecialPageRules(converted.value.html, trail, src);
    var entries := PlaceholderReplacements(article, converted.value.title, trail);
    var page := FillTemplate(src.pageTemplate, entries);
    r := Some(page);
  }

  /** A page fails exactly when its Markdown has no title line. */
  lemma PageFailsIff(md: string, path: string, src: Sources)
    ensures Page(md, path, src).None? <==> forall k | 0 <= k < |Lines(md)| :: !IsTitleLine(Lines(md)[k])
  {
    ConvertFailsIff(md);
  }

  /** A page template without `{{` is the page, whatever the Markdown,
      once the Markdown has a title. */
  lemma PlainTemplatePage(md: string, path: string, src: Sources)
    requires NoAdjacent(src.pageTemplate, '{')
    requires Convert(md).Some?
    ensures Page(md, path, src) == Some(src.pageTemplate)
  {
    var c := Convert(md).value;
    var trail := Trail(path);
    FillWithoutOpening(src.pageTemplate, PlaceholderReplacements(SpecialPageRules(c.html, trail, src), c.title, trail));
  }
}
