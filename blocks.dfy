/** The block converter of generator.py (`convert_markdown_to_html`): the
    text is normalised and cut into lines, every line is classified as a
    heading, an image or a paragraph and rendered as one HTML fragment, and
    the last level-1 heading gives the page title. Paragraphs go through the
    inline span rewriter (bold, italic, internal link, external link). */
module Blocks {
  import opened Text
  import opened Regex

  /** A classified line of markup. */
  datatype Block =
    | Heading(level: nat, text: string)
    | Image(alt: string, src: string)
    | Paragraph(text: string)

  /** What the converter returns: the HTML fragment and the page title. */
  datatype Converted = Converted(html: string, title: string)

  /** The characters `str.strip("# ")` removes from a heading line. */
  const HeadingMarks: set<char> := {'#', ' '}

  const BoldRepl: seq<Piece> := [Lit("<b>"), Group1, Lit("</b>")]
  const ItalicRepl: seq<Piece> := [Lit("<i>"), Group1, Lit("</i>")]
  const InternalLinkRepl: seq<Piece> := [Lit("<a href=\""), Group2, Lit("\">"), Group1, Lit("</a>")]
  const ExternalLinkRepl: seq<Piece> := [Lit("<a href=\""), Group2, Lit("\" target=\"_blank\">"), Group1, Lit("</a>")]

  // ---------------------------------------------------------------------
  // Normalisation and line splitting

  /** Every run of two or more newlines becomes one newline. */
  function CollapseNewlines(md: string): string {
    Sub(MatchNewlineRun, [Lit("\n")], md)
  }

  /** The lines the converter walks: collapsed, stripped of surrounding
      whitespace, split on newlines. */
  function Lines(md: string): seq<string> {
    Split(Strip(CollapseNewlines(md), Whitespace), '\n')
  }

  /** There is always at least one line, and no line holds a newline. */
  lemma LinesShape(md: string)
    ensures |Lines(md)| >= 1
    ensures forall k | 0 <= k < |Lines(md)| :: '\n' !in Lines(md)[k]
  {
  }

  lemma {:induction false} CollapseStartsAlike(s: string)
    requires s != []
    ensures CollapseNewlines(s) != [] && CollapseNewlines(s)[0] == s[0]
  {
    assert s[0..] == s;
  }

  /** After collapsing, no two newlines are adjacent. */
  lemma {:induction false} CollapseNoAdjacent(s: string)
    ensures NoAdjacent(CollapseNewlines(s), '\n')
    decreases |s|
  {
    if s != [] {
      var r := CollapseNewlines(s);
      match MatchNewlineRun(s)
      case Some(m) =>
        var t := s[m.len..];
        CollapseNoAdjacent(t);
        assert Expand([Lit("\n")], m) == "\n" by { assert [Lit("\n")][1..] == []; }
        assert r == "\n" + CollapseNewlines(t);
        if t != [] {
          CollapseStartsAlike(t);
          assert t[0] == s[m.len];
        }
      case None =>
        var t := s[1..];
        CollapseNoAdjacent(t);
        assert r == [s[0]] + CollapseNewlines(t);
        if t != [] {
          CollapseStartsAlike(t);
        }
    }
  }

  /** Collapsing changes nothing exactly when no two newlines are adjacent. */
  lemma CollapseIdentityIff(s: string)
    ensures CollapseNewlines(s) == s <==> NoAdjacent(s, '\n')
  {
    CollapseNoAdjacent(s);
    if NoAdjacent(s, '\n') {
      forall i | 0 <= i < |s| ensures MatchNewlineRun(s[i..]).None? {
        if i + 1 < |s| {
          assert s[i..][0] == s[i] && s[i..][1] == s[i + 1];
        }
      }
      SubNoMatch(MatchNewlineRun, [Lit("\n")], s);
    }
  }

  /** Unless the whole stripped text is empty, no line is empty; if it is,
      there is exactly one line and it is empty. */
  lemma LinesNonEmpty(md: string)
    ensures Strip(CollapseNewlines(md), Whitespace) != [] ==>
      forall k | 0 <= k < |Lines(md)| :: Lines(md)[k] != []
    ensures Strip(CollapseNewlines(md), Whitespace) == [] ==> Lines(md) == [""]
  {
    var c := CollapseNewlines(md);
    CollapseNoAdjacent(md);
    var t := Strip(c, Whitespace);
    StripKeepsNoAdjacent(c, Whitespace, '\n');
    if t != [] {
      SplitPiecesNonEmpty(t, '\n');
    }
  }

  // ---------------------------------------------------------------------
  // Classification and rendering

  /** The image test `re.match(r'!\[.*\]\(.*\)', line)`: `![` at the start,
      then the first `](` that no newline precedes, then a `)` that no
      newline precedes. Taking the first `](` loses nothing: a `)` after a
      later one is also after the first (see `ImageLineIff`). */
  predicate IsImageLine(line: string) {
    StartsWith(line, "![") &&
    match ShortestUntil(line[2..], "](")
    case None => false
    case Some(a) => ShortestUntil(line[a + 4..], ")").Some?
  }

  /** What the pattern accepts, read off the regular expression: `![`, any
      text, `](`, any text, `)`, where neither text crosses a newline. */
  ghost predicate ImagePatternMatches(line: string) {
    StartsWith(line, "![") &&
    exists i, k | 2 <= i < |line| && i + 2 <= k < |line| ::
      line[i] == ']' && line[i + 1] == '(' && line[k] == ')' &&
      '\n' !in line[2..i] && '\n' !in line[i + 2..k]
  }

  /** The image test accepts exactly the lines the pattern matches. */
  lemma ImageLineIff(line: string)
    ensures IsImageLine(line) <==> ImagePatternMatches(line)
  {
    if IsImageLine(line) {
      ImageLineMatches(line);
    }
    if ImagePatternMatches(line) {
      ImageMatchAccepted(line);
    }
  }

  lemma ImageLineMatches(line: string)
    requires IsImageLine(line)
    ensures ImagePatternMatches(line)
  {
    var a := ShortestUntil(line[2..], "](").value;
    var b := ShortestUntil(line[a + 4..], ")").value;
    var i, k := a + 2, a + 4 + b;
    assert line[i] == line[2..][a..a + 2][0] && line[i + 1] == line[2..][a..a + 2][1];
    assert line[k] == line[a + 4..][b..b + 1][0];
    assert line[2..i] == line[2..][..a];
    assert line[i + 2..k] == line[a + 4..][..b];
  }

  lemma ImageMatchAccepted(line: string)
    requires ImagePatternMatches(line)
    ensures IsImageLine(line)
  {
    var i, k :| 2 <= i < |line| && i + 2 <= k < |line| &&
      line[i] == ']' && line[i + 1] == '(' && line[k] == ')' &&
      '\n' !in line[2..i] && '\n' !in line[i + 2..k];
    ImageAcceptedAt(line, i, k);
  }

  lemma ImageAcceptedAt(line: string, i: nat, k: nat)
    requires StartsWith(line, "![")
    requires 2 <= i < |line| && i + 2 <= k < |line|
    requires line[i] == ']' && line[i + 1] == '(' && line[k] == ')'
    requires '\n' !in line[2..i] && '\n' !in line[i + 2..k]
    ensures IsImageLine(line)
  {
    assert line[2..][i - 2..i] == "](";
    assert line[2..][..i - 2] == line[2..i];
    ShortestUntilFinds(line[2..], "](", i - 2);
    var a := ShortestUntil(line[2..], "](").value;
    var t := line[a + 4..];
    assert t[k - a - 4..k - a - 3] == ")";
    NoNewlineAcross(line, a + 4, i, k);
    assert t[..k - a - 4] == line[a + 4..k];
    ShortestUntilFinds(t, ")", k - a - 4);
  }

  /** A stretch made of a newline-free tail of one text, `](`, and a
      newline-free text holds no newline. */
  lemma NoNewlineAcross(line: string, lo: nat, i: nat, k: nat)
    requires 2 <= i && 2 <= lo <= i + 2 <= k <= |line|
    requires line[i] == ']' && line[i + 1] == '('
    requires '\n' !in line[2..i] && '\n' !in line[i + 2..k]
    ensures '\n' !in line[lo..k]
  {
    forall j | 0 <= j < k - lo ensures line[lo..k][j] != '\n' {
      assert line[lo..k][j] == line[lo + j];
      if lo + j < i {
        assert line[lo + j] == line[2..i][lo + j - 2];
      } else if lo + j >= i + 2 {
        assert line[lo + j] == line[i + 2..k][lo + j - i - 2];
      }
    }
  }

  /** The alt text of an image line: `re.search` finds `![` at the start
      and the alt text runs to the first `]` after it. */
  function ImageAlt(line: string): (alt: string)
    requires IsImageLine(line)
    ensures |alt| + 3 <= |line| && line[..|alt| + 3] == "![" + alt + "]" && ']' !in alt
  {
    assert MatchAltText(line).Some? by {
      var a := ShortestUntil(line[2..], "](").value;
      assert line[2..][a] == line[2..][a..a + 2][0];
    }
    assert line[0..] == line;
    Search(MatchAltText, line).value.g1
  }

  /** The image source of an image line: the text from the line's first `(`
      to the first `)` after it. */
  function ImageSrc(line: string): string
    requires IsImageLine(line)
  {
    ImageSrcExists(line);
    Search(MatchParenText, line).value.g1
  }

  /** The image source sits between the line's first `(` and the next `)`. */
  lemma ImageSrcShape(line: string)
    requires IsImageLine(line)
    ensures IndexOf(line, '(').Some?
    ensures var src := ImageSrc(line);
      var p := IndexOf(line, '(').value;
      p + |src| + 2 <= |line| && line[p + 1..p + 1 + |src|] == src &&
      line[p + 1 + |src|] == ')' && ')' !in src
  {
    ImageSrcExists(line);
  }

  lemma ImageSrcExists(line: string)
    requires IsImageLine(line)
    ensures Search(MatchParenText, line).Some? && IndexOf(line, '(').Some?
    ensures var src := Search(MatchParenText, line).value.g1;
      var p := IndexOf(line, '(').value;
      p + |src| + 2 <= |line| && line[p + 1..p + 1 + |src|] == src &&
      line[p + 1 + |src|] == ')' && ')' !in src
  {
    var a := ShortestUntil(line[2..], "](").value;
    var b := ShortestUntil(line[a + 4..], ")").value;
    assert line[a + 3] == line[2..][a..a + 2][1];
    assert line[a + 4 + b] == line[a + 4..][b..b + 1][0];
    ImageSrcFound(line, a + 3, a + 4 + b);
  }

  lemma ImageSrcFound(line: string, q: nat, k: nat)
    requires q < k < |line| && line[q] == '(' && line[k] == ')'
    ensures Search(MatchParenText, line).Some? && IndexOf(line, '(').Some?
    ensures var src := Search(MatchParenText, line).value.g1;
      var p := IndexOf(line, '(').value;
      p + |src| + 2 <= |line| && line[p + 1..p + 1 + |src|] == src &&
      line[p + 1 + |src|] == ')' && ')' !in src
  {
    var p := FirstParenBefore(line, q);
    ParenTextAt(line, p, k);
    var m := ParenSearch(line, p);
    ParenTextShape(line, p, m);
  }

  /** A `(...)` match at `p` holds a `)`-free text from `p + 1` to a `)`. */
  lemma ParenTextShape(line: string, p: nat, m: Match)
    requires p <= |line| && MatchParenText(line[p..]) == Some(m)
    ensures p + |m.g1| + 2 <= |line| && line[p + 1..p + 1 + |m.g1|] == m.g1 &&
      line[p + 1 + |m.g1|] == ')' && ')' !in m.g1
  {
    var w := line[p..][..m.len];
    assert w == "(" + m.g1 + ")";
    assert forall j | 0 <= j < |m.g1| :: line[p + 1 + j] == w[j + 1] == m.g1[j];
    assert line[p + 1 + |m.g1|] == w[|m.g1| + 1];
    assert line[p + 1..p + 1 + |m.g1|] == m.g1;
  }

  lemma FirstParenBefore(line: string, q: nat) returns (p: nat)
    requires q < |line| && line[q] == '('
    ensures IndexOf(line, '(') == Some(p) && p <= q
  {
    p := IndexOf(line, '(').value;
  }

  lemma ParenTextAt(line: string, p: nat, k: nat)
    requires p < k < |line| && line[p] == '(' && line[k] == ')'
    ensures MatchParenText(line[p..]).Some?
  {
    assert line[p..][0] == '(' && line[p..][1..] == line[p + 1..];
    assert line[p + 1..][k - p - 1] == ')';
  }

  /** The search for `(...)` stops at the first `(` when a `)` follows it. */
  lemma ParenSearch(line: string, p: nat) returns (m: Match)
    requires IndexOf(line, '(') == Some(p)
    requires MatchParenText(line[p..]).Some?
    ensures Search(MatchParenText, line) == Some(m) && MatchParenText(line[p..]) == Some(m)
  {
    m := MatchParenText(line[p..]).value;
    forall j | 0 <= j < p ensures MatchParenText(line[j..]).None? {
      assert line[j..][0] == line[j] == line[..p][j];
    }
    SearchFindsFirst(MatchParenText, line, 0, p);
    assert line[0..] == line;
  }

  /** Which kind of block a line is, in the converter's priority order:
      a heading when it starts `# `, else an image when the image pattern
      matches, else a paragraph holding the line as it is. */
  function Classify(line: string): (r: Block)
    ensures r.Heading? <==> StartsWith(line, "# ")
    ensures r.Image? <==> !StartsWith(line, "# ") && IsImageLine(line)
    ensures r.Heading? ==> 1 <= r.level
    ensures r.Heading? && r.text != [] ==>
      r.text[0] !in HeadingMarks && r.text[|r.text| - 1] !in HeadingMarks
    ensures r.Paragraph? ==> r.text == line
  {
    if StartsWith(line, "# ") then
      assert line[0] == line[..2][0] == '#';
      Heading(Count(line, '#'), Strip(line, HeadingMarks))
    else if IsImageLine(line) then
      Image(ImageAlt(line), ImageSrc(line))
    else
      Paragraph(line)
  }

  /** `**text**` becomes `<b>text</b>`. */
  function BoldPass(t: string): string { Sub(MatchBold, BoldRepl, t) }

  /** `*text*` becomes `<i>text</i>`. */
  function ItalicPass(t: string): string { Sub(MatchItalic, ItalicRepl, t) }

  /** `[text](path/index.md)` becomes a same-site link to `path`. */
  function InternalLinkPass(t: string): string { Sub(MatchInternalLink, InternalLinkRepl, t) }

  /** `[text](url)` becomes a link that opens in a new tab. */
  function ExternalLinkPass(t: string): string { Sub(MatchExternalLink, ExternalLinkRepl, t) }

  /** The inline span rewriter: bold, then italic, then internal links, then
      external links, each pass seeing the output of the one before. */
  function Spans(text: string): string {
    ExternalLinkPass(InternalLinkPass(ItalicPass(BoldPass(text))))
  }

  /** The HTML fragment of one block. */
  function Render(b: Block): string {
    match b
    case Heading(n, t) => "<h" + NatToString(n) + ">" + t + "</h" + NatToString(n) + ">"
    case Image(alt, src) => "<img class=\"landscape-image\" src=\"" + src + "\" alt=\"" + alt + "\">"
    case Paragraph(t) => "<p>" + Spans(t) + "</p>"
  }

  /** A line that sets the title: a heading whose line holds exactly one `#`. */
  predicate IsTitleLine(line: string) {
    StartsWith(line, "# ") && Count(line, '#') == 1
  }

  /** The fragments of the lines, one per line, in order. */
  function Fragments(lines: seq<string>): seq<string> {
    MapLines(Fragment, lines)
  }

  /** The HTML fragment of one line. */
  function Fragment(line: string): string {
    Render(Classify(line))
  }

  /** `f` applied to every line, in order. */
  function MapLines(f: string -> string, lines: seq<string>): seq<string> {
    if lines == [] then []
    else MapLines(f, lines[..|lines| - 1]) + [f(lines[|lines| - 1])]
  }

  /** The title the converter ends with: every title line overwrites it. */
  function Title(lines: seq<string>): Option<string> {
    if lines == [] then None
    else if IsTitleLine(lines[|lines| - 1]) then Some(Strip(lines[|lines| - 1], HeadingMarks))
    else Title(lines[..|lines| - 1])
  }

  lemma FragmentsStep(lines: seq<string>, i: nat)
    requires i < |lines|
    ensures Fragments(lines[..i + 1]) == Fragments(lines[..i]) + [Fragment(lines[i])]
  {
    assert lines[..i + 1][..i] == lines[..i];
  }

  lemma TitleStep(lines: seq<string>, i: nat)
    requires i < |lines|
    ensures Title(lines[..i + 1]) ==
      if IsTitleLine(lines[i]) then Some(Strip(lines[i], HeadingMarks)) else Title(lines[..i])
  {
    assert lines[..i + 1][..i] == lines[..i];
  }

  /** The converter as a whole; `None` where the source fails because no
      level-1 heading ever bound the title. */
  function Convert(md: string): Option<Converted> {
    var lines := Lines(md);
    match Title(lines)
    case None => None
    case Some(t) => Some(Converted(Join(Fragments(lines), '\n'), t))
  }

  /** The converter's loop: one fragment appended per line, the title
      overwritten by every level-1 heading. */
  method ConvertMarkdownToHtml(md: string) returns (r: Option<Converted>)
    ensures r == Convert(md)
  {
    var blocks := Lines(md);
    assert blocks[..|blocks|] == blocks;
    var elements: seq<string> := [];
    var title: Option<string> := None;
    for i := 0 to |blocks|
      invariant elements == Fragments(blocks[..i])
      invariant title == Title(blocks[..i])
    {
      var block := blocks[i];
      var element: string;
      if StartsWith(block, "# ") {
        var level := Count(block, '#');
        var text := Strip(block, HeadingMarks);
        if level == 1 {
          title := Some(text);
        }
        element := "<h" + NatToString(level) + ">" + text + "</h" + NatToString(level) + ">";
        HeadingFragment(block);
        assert element == Fragment(block);
      } else if IsImageLine(block) {
        var alt := ImageAlt(block);
        var src := ImageSrc(block);
        element := "<img class=\"landscape-image\" src=\"" + src + "\" alt=\"" + alt + "\">";
        ImageFragment(block);
        assert element == Fragment(block);
      } else {
        var text := BoldPass(block);
        text := ItalicPass(text);
        text := InternalLinkPass(text);
        text := ExternalLinkPass(text);
        element := "<p>" + text + "</p>";
        ParagraphFragment(block);
        assert element == Fragment(block);
      }
      FragmentsStep(blocks, i);
      TitleStep(blocks, i);
      elements := elements + [element];
    }
    if title.Some? {
      r := Some(Converted(Join(elements, '\n'), title.value));
    } else {
      r := None;
    }
  }

  lemma HeadingFragment(line: string)
    requires StartsWith(line, "# ")
    ensures var n := NatToString(Count(line, '#'));
      Fragment(line) == "<h" + n + ">" + Strip(line, HeadingMarks) + "</h" + n + ">"
  {
  }

  lemma ImageFragment(line: string)
    requires !StartsWith(line, "# ") && IsImageLine(line)
    ensures Fragment(line) ==
      "<img class=\"landscape-image\" src=\"" + ImageSrc(line) + "\" alt=\"" + ImageAlt(line) + "\">"
  {
  }

  lemma ParagraphFragment(line: string)
    requires !StartsWith(line, "# ") && !IsImageLine(line)
    ensures Fragment(line) == "<p>" + ExternalLinkPass(InternalLinkPass(ItalicPass(BoldPass(line)))) + "</p>"
  {
  }

  // ---------------------------------------------------------------------
  // The inline spans

  /** Each span pass needs its mark to change anything: `*` for bold and
      italic, `[` for the links. */
  lemma BoldPassNeedsStar(text: string)
    requires '*' !in text
    ensures BoldPass(text) == text
  {
    forall i | 0 <= i < |text| ensures MatchBold(text[i..]).None? {
      if MatchBold(text[i..]).Some? {
        BoldAnchored(text[i..]);
      }
    }
    SubNoMatch(MatchBold, BoldRepl, text);
  }

  lemma ItalicPassNeedsStar(text: string)
    requires '*' !in text
    ensures ItalicPass(text) == text
  {
    forall i | 0 <= i < |text| ensures MatchItalic(text[i..]).None? {
      if MatchItalic(text[i..]).Some? {
        ItalicAnchored(text[i..]);
      }
    }
    SubNoMatch(MatchItalic, ItalicRepl, text);
  }

  lemma InternalLinkPassNeedsBracket(text: string)
    requires '[' !in text
    ensures InternalLinkPass(text) == text
  {
    forall i | 0 <= i < |text| ensures MatchInternalLink(text[i..]).None? {
      if MatchInternalLink(text[i..]).Some? {
        InternalLinkAnchored(text[i..]);
      }
    }
    SubNoMatch(MatchInternalLink, InternalLinkRepl, text);
  }

  lemma ExternalLinkPassNeedsBracket(text: string)
    requires '[' !in text
    ensures ExternalLinkPass(text) == text
  {
    forall i | 0 <= i < |text| ensures MatchExternalLink(text[i..]).None? {
      if MatchExternalLink(text[i..]).Some? {
        ExternalLinkAnchored(text[i..]);
      }
    }
    SubNoMatch(MatchExternalLink, ExternalLinkRepl, text);
  }

  /** Where each pattern's matches begin. */
  lemma BoldAnchored(s: string)
    requires MatchBold(s).Some?
    ensures s[0] == '*'
  {
    assert s[..MatchBold(s).value.len][0] == '*';
  }

  lemma ItalicAnchored(s: string)
    requires MatchItalic(s).Some?
    ensures s[0] == '*'
  {
    assert s[..MatchItalic(s).value.len][0] == '*';
  }

  lemma InternalLinkAnchored(s: string)
    requires MatchInternalLink(s).Some?
    ensures s[0] == '['
  {
    InternalLinkShape(s);
    assert s[..MatchInternalLink(s).value.len][0] == '[';
  }

  lemma ExternalLinkAnchored(s: string)
    requires MatchExternalLink(s).Some?
    ensures s[0] == '['
  {
    ExternalLinkShape(s);
    assert s[..MatchExternalLink(s).value.len][0] == '[';
  }

  /** Text without `*` or `[` passes through the span rewriter unchanged. */
  lemma SpansKeepPlain(text: string)
    requires '*' !in text && '[' !in text
    ensures Spans(text) == text
  {
    BoldPassNeedsStar(text);
    ItalicPassNeedsStar(text);
    InternalLinkPassNeedsBracket(text);
    ExternalLinkPassNeedsBracket(text);
  }

  /** A line that is not a heading and holds neither `*` nor `[` becomes a
      paragraph holding the line verbatim. */
  lemma PlainParagraph(line: string)
    requires !StartsWith(line, "# ") && '*' !in line && '[' !in line
    ensures Render(Classify(line)) == "<p>" + line + "</p>"
  {
    assert !StartsWith(line, "![") by {
      if |line| >= 2 {
        assert line[1] in line;
      }
    }
    assert Classify(line) == Paragraph(line);
    SpansKeepPlain(line);
  }

  /** A pass whose pattern matches the whole text replaces it as a whole. */
  lemma BoldPassOnWholeMatch(s: string, m: Match)
    requires MatchBold(s) == Some(m) && m.len == |s|
    ensures BoldPass(s) == "<b>" + m.g1 + "</b>"
  {
    SubWholeMatch(MatchBold, BoldRepl, s, m);
    ExpandBold(m);
  }

  lemma InternalPassOnWholeMatch(s: string, m: Match)
    requires MatchInternalLink(s) == Some(m) && m.len == |s|
    ensures InternalLinkPass(s) == "<a href=\"" + m.g2 + "\">" + m.g1 + "</a>"
  {
    SubWholeMatch(MatchInternalLink, InternalLinkRepl, s, m);
    ExpandInternalLink(m);
  }

  lemma ExternalPassOnWholeMatch(s: string, m: Match)
    requires MatchExternalLink(s) == Some(m) && m.len == |s|
    ensures ExternalLinkPass(s) == "<a href=\"" + m.g2 + "\" target=\"_blank\">" + m.g1 + "</a>"
  {
    SubWholeMatch(MatchExternalLink, ExternalLinkRepl, s, m);
    ExpandExternalLink(m);
  }

  /** The replacement strings with their group references filled in. */
  lemma ExpandBold(m: Match)
    ensures Expand(BoldRepl, m) == "<b>" + m.g1 + "</b>"
  {
    var r := BoldRepl;
    assert Expand(r[3..], m) == "";
    assert Expand(r[2..], m) == "</b>";
    assert Expand(r[1..], m) == m.g1 + "</b>";
  }

  lemma ExpandItalic(m: Match)
    ensures Expand(ItalicRepl, m) == "<i>" + m.g1 + "</i>"
  {
    var r := ItalicRepl;
    assert Expand(r[3..], m) == "";
    assert Expand(r[2..], m) == "</i>";
    assert Expand(r[1..], m) == m.g1 + "</i>";
  }

  lemma ExpandInternalLink(m: Match)
    ensures Expand(InternalLinkRepl, m) == "<a href=\"" + m.g2 + "\">" + m.g1 + "</a>"
  {
    var r := InternalLinkRepl;
    assert Expand(r[5..], m) == "";
    assert Expand(r[4..], m) == "</a>";
    assert Expand(r[3..], m) == m.g1 + "</a>";
    assert Expand(r[2..], m) == "\">" + m.g1 + "</a>";
    assert Expand(r[1..], m) == m.g2 + "\">" + m.g1 + "</a>";
  }

  lemma ExpandExternalLink(m: Match)
    ensures Expand(ExternalLinkRepl, m) == "<a href=\"" + m.g2 + "\" target=\"_blank\">" + m.g1 + "</a>"
  {
    var r := ExternalLinkRepl;
    assert Expand(r[5..], m) == "";
    assert Expand(r[4..], m) == "</a>";
    assert Expand(r[3..], m) == m.g1 + "</a>";
    assert Expand(r[2..], m) == "\" target=\"_blank\">" + m.g1 + "</a>";
    assert Expand(r[1..], m) == m.g2 + "\" target=\"_blank\">" + m.g1 + "</a>";
  }

  /** `**x**` on its own becomes `<b>x</b>` when `x` holds no `*`, no `[`
      and no newline. */
  lemma BoldSpan(x: string)
    requires '*' !in x && '[' !in x && '\n' !in x
    ensures Spans("**" + x + "**") == "<b>" + x + "</b>"
  {
    var b := "<b>" + x + "</b>";
    calc {
      Spans("**" + x + "**");
      ExternalLinkPass(InternalLinkPass(ItalicPass(BoldPass("**" + x + "**"))));
      { BoldPassWhole(x); }
      ExternalLinkPass(InternalLinkPass(ItalicPass(b)));
      { ItalicPassNeedsStar(b); }
      ExternalLinkPass(InternalLinkPass(b));
      { InternalLinkPassNeedsBracket(b); }
      ExternalLinkPass(b);
      { ExternalLinkPassNeedsBracket(b); }
      b;
    }
  }

  lemma BoldPassWhole(x: string)
    requires '*' !in x && '\n' !in x
    ensures BoldPass("**" + x + "**") == "<b>" + x + "</b>"
  {
    BoldMatchWhole(x);
    BoldPassOnWholeMatch("**" + x + "**", Match(|x| + 4, x, ""));
  }

  lemma BoldMatchWhole(x: string)
    requires '*' !in x && '\n' !in x
    ensures MatchBold("**" + x + "**") == Some(Match(|x| + 4, x, ""))
  {
    var s := "**" + x + "**";
    var t := x + "**";
    assert StartsWith(s, "**") by {
      assert s[..2] == "**";
    }
    assert s[2..] == t;
    assert t == x + "**" + "";
    MarkScan(x, "**", "");
    var k := |x|;
    assert s[2..k + 2] == x;
  }

  /** The lazy scan for a mark starting with `*` over `x`, the mark and
      anything after stops at the end of a `*`-free `x`. */
  lemma MarkScan(x: string, mark: string, tail: string)
    requires mark != [] && mark[0] == '*' && '*' !in x && '\n' !in x
    ensures ShortestUntil(x + mark + tail, mark) == Some(|x|)
  {
    var t := x + mark + tail;
    assert t[|x|..|x| + |mark|] == mark && t[..|x|] == x;
    ShortestUntilFinds(t, mark, |x|);
    var v := ShortestUntil(t, mark).value;
    assert t[v] == t[v..v + |mark|][0];
    assert forall j | 0 <= j < |x| :: t[j] == x[j] && x[j] in x;
  }

  /** `***x***` does not become one span: the bold pass takes `***x**`
      (its lazy text is `*x`), the italic pass then pairs the leftover `*`
      with the one before `x`, and the tags interleave. */
  lemma TripleStarInterleaves(x: string)
    requires x != [] && '*' !in x && '[' !in x && '\n' !in x
    ensures Spans("***" + x + "***") == "<b>" + "<i>" + x + "</b>" + "</i>"
  {
    TripleStarBold(x);
    TripleStarItalic(x);
    var r := "<b>" + "<i>" + x + "</b>" + "</i>";
    assert '[' !in r by {
      assert '[' !in "<b>" && '[' !in "<i>" && '[' !in "</b>" && '[' !in "</i>";
    }
    InternalLinkPassNeedsBracket(r);
    ExternalLinkPassNeedsBracket(r);
  }

  /** The bold pass over `***x***`: one match of length `|x| + 5`, then a
      lone `*` that is kept. */
  lemma TripleStarBold(x: string)
    requires x != [] && '*' !in x && '\n' !in x
    ensures BoldPass("***" + x + "***") == "<b>" + ("*" + x) + "</b>" + "*"
  {
    var s := "***" + x + "***";
    var m := Match(|x| + 5, "*" + x, "");
    TripleStarBoldMatch(x);
    SubStep(MatchBold, BoldRepl, s, m);
    assert s[m.len..] == "*";
    LoneStarKept();
    ExpandBold(m);
  }

  lemma LoneStarKept()
    ensures BoldPass("*") == "*"
  {
    assert MatchBold("*").None?;
    assert "*"[1..] == "";
  }

  lemma TripleStarBoldMatch(x: string)
    requires x != [] && '*' !in x && '\n' !in x
    ensures MatchBold("***" + x + "***") == Some(Match(|x| + 5, "*" + x, ""))
  {
    var s := "***" + x + "***";
    var t := "*" + x + "***";
    assert s[..2] == "**" && s[2..] == t;
    StarThenScan(x);
    assert s[2..|x| + 3] == "*" + x;
  }

  /** The lazy scan for `**` over `*x***` skips the lone leading `*`. */
  lemma StarThenScan(x: string)
    requires x != [] && '*' !in x && '\n' !in x
    ensures ShortestUntil("*" + x + "***", "**") == Some(|x| + 1)
  {
    var t := "*" + x + "***";
    assert !StartsWith(t, "**") by {
      assert t[..2][1] == x[0] && x[0] in x;
    }
    assert t[0] == '*';
    assert t[1..] == x + "**" + "*";
    MarkScan(x, "**", "*");
  }

  /** The italic pass copies a `*`-free prefix and carries on after it. */
  lemma ItalicPassAfterPlain(pre: string, rest: string)
    requires '*' !in pre
    ensures ItalicPass(pre + rest) == pre + ItalicPass(rest)
  {
    var s := pre + rest;
    forall i | 0 <= i < |pre| ensures MatchItalic(s[i..]).None? {
      assert s[i..][..1] == [pre[i]] && pre[i] in pre;
    }
    SubSkip(MatchItalic, ItalicRepl, s, 0, |pre|);
    assert s[0..] == s && s[0..|pre|] == pre && s[|pre|..] == rest;
  }

  /** The italic pass over what the bold pass left: `<b>` is kept, and the
      rest is one match whose text is `x</b>`. */
  lemma TripleStarItalic(x: string)
    requires x != [] && '*' !in x && '\n' !in x
    ensures ItalicPass("<b>" + ("*" + x) + "</b>" + "*") == "<b>" + "<i>" + x + "</b>" + "</i>"
  {
    var rest := "*" + x + "</b>" + "*";
    assert '*' !in "<b>";
    Regroup("<b>", "*", x, "</b>", "*");
    ItalicPassAfterPlain("<b>", rest);
    var m := Match(|x| + 6, x + "</b>", "");
    TripleStarItalicMatch(x);
    SubWholeMatch(MatchItalic, ItalicRepl, rest, m);
    ExpandItalic(m);
    Regroup("<b>", "<i>", x, "</b>", "</i>");
  }

  /** Concatenation regrouped, for the two shapes used above. */
  lemma Regroup(a: string, b: string, c: string, d: string, e: string)
    ensures a + (b + c) + d + e == a + (b + c + d + e)
    ensures a + (b + (c + d) + e) == a + b + c + d + e
  {
  }

  lemma TripleStarItalicMatch(x: string)
    requires '*' !in x && '\n' !in x
    ensures MatchItalic("*" + x + "</b>" + "*") == Some(Match(|x| + 6, x + "</b>", ""))
  {
    var s := "*" + x + "</b>" + "*";
    var g := x + "</b>";
    assert '*' !in g && '\n' !in g by {
      assert '*' !in "</b>" && '\n' !in "</b>";
    }
    assert s[..1] == "*" && s[1..] == g + "*" + "";
    MarkScan(g, "*", "");
    assert s[1..|g| + 1] == g;
  }

  /** Link text and targets the lemmas below speak about: no span marks,
      no brackets, no closing parenthesis and no newline. */
  predicate LinkSafe(x: string) {
    '*' !in x && '[' !in x && ']' !in x && ')' !in x && '\n' !in x
  }

  /** A link target the internal-link pattern accepts: it ends in `/index`,
      any one character but a newline, and `md`. */
  predicate IsIndexPath(u: string) {
    |u| >= 9 && u[|u| - 9..|u| - 3] == "/index" && u[|u| - 3] != '\n' && u[|u| - 2..] == "md"
  }

  /** A lone link `[t](u)` becomes a same-site link to the directory when `u`
      ends in `/index.md` (or `/index` + any character + `md`, since the dot
      in the pattern is unescaped), and otherwise a link that opens in a new
      tab. */
  lemma LinkSpan(t: string, u: string)
    requires LinkSafe(t) && LinkSafe(u)
    ensures Spans("[" + t + "](" + u + ")") ==
      if IsIndexPath(u) then "<a href=\"" + u[..|u| - 9] + "\">" + t + "</a>"
      else "<a href=\"" + u + "\" target=\"_blank\">" + t + "</a>"
  {
    if IsIndexPath(u) {
      IndexLinkSpan(t, u);
    } else {
      PlainLinkSpan(t, u);
    }
  }

  /** Without a `*` the bold and italic passes have nothing to do. */
  lemma SpansWithoutStar(s: string)
    requires '*' !in s
    ensures Spans(s) == ExternalLinkPass(InternalLinkPass(s))
  {
    BoldPassNeedsStar(s);
    ItalicPassNeedsStar(s);
  }

  lemma IndexLinkSpan(t: string, u: string)
    requires LinkSafe(t) && LinkSafe(u) && IsIndexPath(u)
    ensures Spans("[" + t + "](" + u + ")") == "<a href=\"" + u[..|u| - 9] + "\">" + t + "</a>"
  {
    var s := "[" + t + "](" + u + ")";
    assert '*' !in s;
    SpansWithoutStar(s);
    InternalLinkWhole(t, u);
    var d := u[..|u| - 9];
    assert '[' !in d by {
      assert forall i | 0 <= i < |d| :: d[i] == u[i] && u[i] in u;
    }
    AnchorWithoutBracket(d, t);
    ExternalLinkPassNeedsBracket("<a href=\"" + d + "\">" + t + "</a>");
  }

  lemma AnchorWithoutBracket(d: string, t: string)
    requires '[' !in d && '[' !in t
    ensures '[' !in "<a href=\"" + d + "\">" + t + "</a>"
  {
  }

  lemma PlainLinkSpan(t: string, u: string)
    requires LinkSafe(t) && LinkSafe(u) && !IsIndexPath(u)
    ensures Spans("[" + t + "](" + u + ")") == "<a href=\"" + u + "\" target=\"_blank\">" + t + "</a>"
  {
    var s := "[" + t + "](" + u + ")";
    assert '*' !in s;
    SpansWithoutStar(s);
    InternalLinkSkipsPlain(t, u);
    ExternalLinkWhole(t, u);
  }

  /** In `[t](rest)` the link text ends at the `]` after `t`. */
  lemma LinkTextEndAfter(t: string, rest: string)
    requires ']' !in t
    ensures LinkTextEnd("[" + t + "](" + rest) == Some(|t| + 1)
  {
    var s := "[" + t + "](" + rest;
    assert s[1..] == t + "](" + rest;
    assert s[1..][..|t|] == t;
    IndexOfAt(s[1..], ']', |t|);
    assert s[|t| + 2] == '(';
  }

  /** The whole of `[t](u)` is an external-link match. */
  lemma ExternalMatchWhole(t: string, u: string)
    requires LinkSafe(t) && LinkSafe(u)
    ensures MatchExternalLink("[" + t + "](" + u + ")") == Some(Match(|t| + |u| + 4, t, u))
  {
    var s := "[" + t + "](" + u + ")";
    var rest := u + ")";
    var b := |t| + 1;
    LinkScans(t, u);
    ExternalLinkFrom(s, b, |u|);
    LinkParts(t, u);
  }

  /** Where the text and the url sit in `[t](u)`. */
  lemma LinkParts(t: string, u: string)
    ensures var s := "[" + t + "](" + u + ")";
      s[1..|t| + 1] == t && s[|t| + 3..|t| + 3 + |u|] == u
  {
    var s := "[" + t + "](" + u + ")";
    assert forall j | 0 <= j < |t| :: s[1..|t| + 1][j] == t[j];
    assert forall j | 0 <= j < |u| :: s[|t| + 3..|t| + 3 + |u|][j] == u[j];
  }

  /** The scans both link patterns make over `[t](u)`: the text ends after
      `t` and the first `)` after `(` is the last character. */
  lemma LinkScans(t: string, u: string)
    requires LinkSafe(t) && LinkSafe(u)
    ensures var s := "[" + t + "](" + u + ")";
      LinkTextEnd(s) == Some(|t| + 1) && s[|t| + 3..] == u + ")" &&
      IndexOf(u + ")", ')') == Some(|u|)
  {
    var s := "[" + t + "](" + u + ")";
    var rest := u + ")";
    LinkTextEndAfter(t, rest);
    assert "[" + t + "](" + rest == s;
    assert s[|t| + 3..] == rest;
    CloseParenAtEnd(u);
  }

  lemma CloseParenAtEnd(u: string)
    requires ')' !in u
    ensures IndexOf(u + ")", ')') == Some(|u|)
  {
    assert (u + ")")[..|u|] == u;
    IndexOfAt(u + ")", ')', |u|);
  }

  lemma ExternalLinkWhole(t: string, u: string)
    requires LinkSafe(t) && LinkSafe(u)
    ensures ExternalLinkPass("[" + t + "](" + u + ")") == "<a href=\"" + u + "\" target=\"_blank\">" + t + "</a>"
  {
    ExternalMatchWhole(t, u);
    ExternalPassOnWholeMatch("[" + t + "](" + u + ")", Match(|t| + |u| + 4, t, u));
  }

  /** The internal-link tail of `u)` can only start nine characters before
      the end of `u`, and starts there exactly when `u` is an index path. */
  lemma IndexTailOnlyAtEnd(u: string, i: nat)
    requires ')' !in u && i <= |u|
    ensures IndexTailAt(u + ")", i) <==> i + 9 == |u| && IsIndexPath(u)
  {
    var rest := u + ")";
    assert forall j | 0 <= j < |u| :: rest[j] == u[j] && u[j] in u;
    if IndexTailAt(rest, i) {
      assert rest[i + 7..i + 10][2] == rest[i + 9] == ')';
    }
    if i + 9 == |u| {
      assert rest[i..i + 6] == u[|u| - 9..|u| - 3];
      assert rest[i + 6] == u[|u| - 3];
      var md := rest[i + 7..i + 10];
      assert md == u[|u| - 2..] + ")";
      assert IsIndexPath(u) ==> md == "md)";
      assert md == "md)" ==> u[|u| - 2..] == md[..2] == "md";
    }
  }

  /** The whole of `[t](u)` is an internal-link match when `u` is an index path. */
  lemma InternalMatchWhole(t: string, u: string)
    requires LinkSafe(t) && LinkSafe(u) && IsIndexPath(u)
    ensures MatchInternalLink("[" + t + "](" + u + ")") == Some(Match(|t| + |u| + 4, t, u[..|u| - 9]))
  {
    var s := "[" + t + "](" + u + ")";
    var rest := u + ")";
    LinkScans(t, u);
    LastIndexTailAtEnd(u);
    assert PathLimit(s[|t| + 3..]) == |u|;
    InternalLinkFrom(s, |t| + 1, |u|);
    assert s[1..|t| + 1] == t;
    assert rest[..|u| - 9] == u[..|u| - 9];
  }

  /** Backtracking from the `)` of `u)` finds the tail exactly when `u` is
      an index path, nine characters before the end. */
  lemma LastIndexTailAtEnd(u: string)
    requires ')' !in u
    ensures IsIndexPath(u) ==> LastIndexTail(u + ")", |u|) == Some(|u| - 9)
    ensures !IsIndexPath(u) ==> LastIndexTail(u + ")", |u|).None?
  {
    var rest := u + ")";
    var r := LastIndexTail(rest, |u|);
    LastIndexTailIsLast(rest, |u|);
    if IsIndexPath(u) {
      IndexTailOnlyAtEnd(u, |u| - 9);
    }
    if r.Some? {
      IndexTailOnlyAtEnd(u, r.value);
    }
  }

  lemma InternalLinkWhole(t: string, u: string)
    requires LinkSafe(t) && LinkSafe(u) && IsIndexPath(u)
    ensures InternalLinkPass("[" + t + "](" + u + ")") == "<a href=\"" + u[..|u| - 9] + "\">" + t + "</a>"
  {
    InternalMatchWhole(t, u);
    InternalPassOnWholeMatch("[" + t + "](" + u + ")", Match(|t| + |u| + 4, t, u[..|u| - 9]));
  }

  /** When `u` is not an index path, no internal link starts at `[t](u)`. */
  lemma InternalMatchFails(t: string, u: string)
    requires LinkSafe(t) && LinkSafe(u) && !IsIndexPath(u)
    ensures MatchInternalLink("[" + t + "](" + u + ")").None?
  {
    LinkScans(t, u);
    LastIndexTailAtEnd(u);
    var s := "[" + t + "](" + u + ")";
    assert PathLimit(s[|t| + 3..]) == |u|;
    InternalLinkFrom(s, |t| + 1, |u|);
  }

  /** ... and so the internal-link pass leaves `[t](u)` alone. */
  lemma InternalLinkSkipsPlain(t: string, u: string)
    requires LinkSafe(t) && LinkSafe(u) && !IsIndexPath(u)
    ensures InternalLinkPass("[" + t + "](" + u + ")") == "[" + t + "](" + u + ")"
  {
    var s := "[" + t + "](" + u + ")";
    InternalMatchFails(t, u);
    var tail := t + "](" + u + ")";
    assert s[1..] == tail;
    BracketFreeTail(t, u);
    InternalLinkPassSkipsFirst(s);
  }

  lemma InternalLinkPassSkipsFirst(s: string)
    requires s != [] && MatchInternalLink(s).None? && '[' !in s[1..]
    ensures InternalLinkPass(s) == s
  {
    InternalLinkPassNeedsBracket(s[1..]);
    SubKeepsWhole(MatchInternalLink, InternalLinkRepl, s, s[1..]);
  }

  lemma BracketFreeTail(t: string, u: string)
    requires '[' !in t && '[' !in u
    ensures '[' !in t + "](" + u + ")"
  {
    assert '[' !in "](" && '[' !in ")";
  }

  // ---------------------------------------------------------------------
  // One fragment per line

  lemma BoldGroupsAvoid(c: char)
    ensures GroupsAvoid(MatchBold, c)
  {
    forall s | c !in s && MatchBold(s).Some?
      ensures c !in MatchBold(s).value.g1 && c !in MatchBold(s).value.g2
    {
      var m := MatchBold(s).value;
      NotInSlice(s, 2, |m.g1| + 2, c);
      assert s[2..|m.g1| + 2] == s[..m.len][2..|m.g1| + 2];
    }
  }

  lemma ItalicGroupsAvoid(c: char)
    ensures GroupsAvoid(MatchItalic, c)
  {
    forall s | c !in s && MatchItalic(s).Some?
      ensures c !in MatchItalic(s).value.g1 && c !in MatchItalic(s).value.g2
    {
      var m := MatchItalic(s).value;
      NotInSlice(s, 1, |m.g1| + 1, c);
      assert s[1..|m.g1| + 1] == s[..m.len][1..|m.g1| + 1];
    }
  }

  lemma InternalLinkGroupsAvoid(c: char)
    ensures GroupsAvoid(MatchInternalLink, c)
  {
    forall s | c !in s && MatchInternalLink(s).Some?
      ensures c !in MatchInternalLink(s).value.g1 && c !in MatchInternalLink(s).value.g2
    {
      var m := MatchInternalLink(s).value;
      InternalLinkShape(s);
      NotInSlice(s, 1, |m.g1| + 1, c);
      NotInSlice(s, |m.g1| + 3, |m.g1| + 3 + |m.g2|, c);
    }
  }

  lemma ExternalLinkGroupsAvoid(c: char)
    ensures GroupsAvoid(MatchExternalLink, c)
  {
    forall s | c !in s && MatchExternalLink(s).Some?
      ensures c !in MatchExternalLink(s).value.g1 && c !in MatchExternalLink(s).value.g2
    {
      var m := MatchExternalLink(s).value;
      ExternalLinkShape(s);
      NotInSlice(s, 1, |m.g1| + 1, c);
      NotInSlice(s, |m.g1| + 3, |m.g1| + 3 + |m.g2|, c);
    }
  }

  lemma BoldPassAvoids(t: string)
    requires '\n' !in t
    ensures '\n' !in BoldPass(t)
  {
    BoldGroupsAvoid('\n');
    assert '\n' !in "<b>" && '\n' !in "</b>";
    assert LitsAvoid(BoldRepl, '\n');
    SubAvoids(MatchBold, BoldRepl, t, '\n');
  }

  lemma ItalicPassAvoids(t: string)
    requires '\n' !in t
    ensures '\n' !in ItalicPass(t)
  {
    ItalicGroupsAvoid('\n');
    assert '\n' !in "<i>" && '\n' !in "</i>";
    assert LitsAvoid(ItalicRepl, '\n');
    SubAvoids(MatchItalic, ItalicRepl, t, '\n');
  }

  lemma InternalLinkPassAvoids(t: string)
    requires '\n' !in t
    ensures '\n' !in InternalLinkPass(t)
  {
    InternalLinkGroupsAvoid('\n');
    assert '\n' !in "<a href=\"" && '\n' !in "\">" && '\n' !in "</a>";
    assert LitsAvoid(InternalLinkRepl, '\n');
    SubAvoids(MatchInternalLink, InternalLinkRepl, t, '\n');
  }

  lemma ExternalLinkPassAvoids(t: string)
    requires '\n' !in t
    ensures '\n' !in ExternalLinkPass(t)
  {
    ExternalLinkGroupsAvoid('\n');
    ExternalLinkReplAvoids();
    SubAvoids(MatchExternalLink, ExternalLinkRepl, t, '\n');
  }

  lemma ExternalLinkReplAvoids()
    ensures LitsAvoid(ExternalLinkRepl, '\n')
  {
    assert '\n' !in "<a href=\"" && '\n' !in "\" target=\"_blank\">" && '\n' !in "</a>";
  }

  /** The span rewriter never brings in a newline: its replacements hold
      none, and every group is a piece of the text. */
  lemma SpansKeepOneLine(text: string)
    requires '\n' !in text
    ensures '\n' !in Spans(text)
  {
    BoldPassAvoids(text);
    ItalicPassAvoids(BoldPass(text));
    InternalLinkPassAvoids(ItalicPass(BoldPass(text)));
    ExternalLinkPassAvoids(InternalLinkPass(ItalicPass(BoldPass(text))));
  }

  lemma HeadingKeepsOneLine(line: string)
    requires '\n' !in line
    ensures '\n' !in Render(Heading(Count(line, '#'), Strip(line, HeadingMarks)))
  {
    var t := Strip(line, HeadingMarks);
    StripAvoids(line, HeadingMarks, '\n');
    var d := NatToString(Count(line, '#'));
    assert '\n' !in d by {
      assert forall i | 0 <= i < |d| :: '0' <= d[i] <= '9';
    }
    assert Render(Heading(Count(line, '#'), t)) == "<h" + d + ">" + t + "</h" + d + ">";
    assert '\n' !in "<h" && '\n' !in ">" && '\n' !in "</h";
  }

  lemma ImageKeepsOneLine(line: string)
    requires '\n' !in line && IsImageLine(line)
    ensures '\n' !in Render(Image(ImageAlt(line), ImageSrc(line)))
  {
    var alt := ImageAlt(line);
    var src := ImageSrc(line);
    assert '\n' !in alt by {
      NotInSlice(line, 2, |alt| + 2, '\n');
      assert line[2..|alt| + 2] == line[..|alt| + 3][2..|alt| + 2];
    }
    assert '\n' !in src by {
      ImageSrcShape(line);
      var p := IndexOf(line, '(').value;
      NotInSlice(line, p + 1, p + 1 + |src|, '\n');
    }
    ImageTagKeepsOneLine(alt, src);
  }

  lemma ImageTagKeepsOneLine(alt: string, src: string)
    requires '\n' !in alt && '\n' !in src
    ensures '\n' !in Render(Image(alt, src))
  {
    assert Render(Image(alt, src)) == "<img class=\"landscape-image\" src=\"" + src + "\" alt=\"" + alt + "\">";
    assert '\n' !in "<img class=\"landscape-image\" src=\"" && '\n' !in "\" alt=\"" && '\n' !in "\">";
  }

  /** A line without a newline renders to a fragment without one. */
  lemma RenderKeepsOneLine(line: string)
    requires '\n' !in line
    ensures '\n' !in Fragment(line)
  {
    if StartsWith(line, "# ") {
      HeadingKeepsOneLine(line);
    } else if IsImageLine(line) {
      ImageKeepsOneLine(line);
    } else {
      SpansKeepOneLine(line);
    }
  }

  /** Mapping keeps the length and puts `f` of the `k`-th line at `k`. */
  lemma {:induction false} MapLinesAt(f: string -> string, lines: seq<string>)
    ensures |MapLines(f, lines)| == |lines|
    ensures forall k | 0 <= k < |lines| :: MapLines(f, lines)[k] == f(lines[k])
    decreases |lines|
  {
    if lines != [] {
      var init := lines[..|lines| - 1];
      MapLinesAt(f, init);
      assert forall k | 0 <= k < |init| :: init[k] == lines[k];
    }
  }

  /** The fragments line up with the lines: the `k`-th fragment renders the
      `k`-th line. */
  lemma FragmentsAt(lines: seq<string>)
    ensures |Fragments(lines)| == |lines|
    ensures forall k | 0 <= k < |lines| :: Fragments(lines)[k] == Fragment(lines[k])
  {
    MapLinesAt(Fragment, lines);
  }

  /** The page's HTML has one line per line of markup: splitting it at the
      newlines the converter joined with gives back every fragment. */
  lemma ConvertLineByLine(md: string, c: Converted)
    requires Convert(md) == Some(c)
    ensures Split(c.html, '\n') == Fragments(Lines(md))
    ensures |Split(c.html, '\n')| == |Lines(md)|
  {
    var lines := Lines(md);
    LinesShape(md);
    FragmentsAt(lines);
    forall k | 0 <= k < |lines| ensures '\n' !in Fragments(lines)[k] {
      RenderKeepsOneLine(lines[k]);
    }
    SplitJoin(Fragments(lines), '\n');
  }

  // ---------------------------------------------------------------------
  // The title

  /** There is no title exactly when no line is a title line. */
  lemma {:induction false} TitleNoneIff(lines: seq<string>)
    ensures Title(lines).None? <==> forall k | 0 <= k < |lines| :: !IsTitleLine(lines[k])
    decreases |lines|
  {
    if lines != [] {
      var init := lines[..|lines| - 1];
      TitleNoneIff(init);
      assert forall k | 0 <= k < |init| :: init[k] == lines[k];
    }
  }

  /** The title comes from the last title line. */
  lemma {:induction false} TitleIsLast(lines: seq<string>, k: nat)
    requires k < |lines| && IsTitleLine(lines[k])
    requires forall j | k < j < |lines| :: !IsTitleLine(lines[j])
    ensures Title(lines) == Some(Strip(lines[k], HeadingMarks))
    decreases |lines|
  {
    if k < |lines| - 1 {
      var init := lines[..|lines| - 1];
      assert forall j | 0 <= j < |init| :: init[j] == lines[j];
      TitleIsLast(init, k);
    }
  }

  /** The converter fails exactly when no line of the normalised text is a
      title line. */
  lemma ConvertFailsIff(md: string)
    ensures Convert(md).None? <==> forall k | 0 <= k < |Lines(md)| :: !IsTitleLine(Lines(md)[k])
  {
    TitleNoneIff(Lines(md));
  }

  // ---------------------------------------------------------------------
  // Headings

  /** A title line renders as an `h1` holding the stripped line. */
  lemma TitleLineRender(line: string)
    requires IsTitleLine(line)
    ensures Fragment(line) == "<h1>" + Strip(line, HeadingMarks) + "</h1>"
  {
    HeadingFragment(line);
    assert NatToString(1) == "1";
    assert "<h" + "1" + ">" == "<h1>" && "</h" + "1" + ">" == "</h1>";
  }

  /** The level counts every `#` on the line, not just the leading ones: a
      heading whose text holds a `#` (`# C# tips`) is of level two or more,
      and so never sets the title. */
  lemma MarkInTextRaisesLevel(x: string)
    requires '#' in x
    ensures Classify("# " + x).Heading? && Classify("# " + x).level >= 2
    ensures !IsTitleLine("# " + x)
  {
    var line := "# " + x;
    assert line[..2] == "# ";
    CountAppend("# ", x, '#');
    assert Count("# ", '#') == 1 by {
      assert "# "[1..] == " " && " "[1..] == "";
    }
  }

  /** A line starting `##` is never a heading: it becomes a paragraph. */
  lemma DoubleMarkIsParagraph(line: string)
    requires StartsWith(line, "##")
    ensures Classify(line) == Paragraph(line)
  {
    assert line[..2][1] == '#';
    assert line[..2][0] == '#';
  }
}
