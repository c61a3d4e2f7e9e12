# A verified model of the Markdown page generator

`generator.py` turns a tree of Markdown files into HTML pages for a personal
website. This project models its core in Dafny and proves properties of that
model:

- **the block converter** (`convert_markdown_to_html`): runs of newlines are
  collapsed to one, the text is stripped and cut into lines, and every line becomes
  one HTML fragment — a heading, a landscape image or a paragraph. The last
  level-1 heading gives the page title. Paragraphs go through four inline
  passes in order: bold, italic, same-site links to `.../index.md`, and
  links that open in a new tab;
- **the template filler** (`fill_template`): every entry of the replacement
  mapping, in insertion order, rewrites each `{{ NAME }}` in the template;
- **the special-page rules** (`apply_special_page_rules`): the home page loses
  its `<h1>` element, and the games and websites pages get one filled postcard
  per record;
- **the page-template values** (`determine_placeholder_replacements`): the
  article, the canonical path, the relative prefix and the page title;
- **the pipeline of one file** (`generate_html_from_md_file`): convert, apply
  the special-page rules, fill the page template.

Python's `re.sub` and `re.search` are modelled once, generically (module
`Regex`), over a `Matcher`: a function giving the match a pattern makes at the
start of a text. Each fixed pattern of the generator has a hand-written
scanner. The scanner makes the choice Python's backtracking engine makes: the
leftmost start, greedy or lazy repetition as written, and `.` never matching a
newline. File contents, the templates and the JSON records are parameters
(`Pages.Sources`), not files.

Modules, in dependency order:

- `Text`: Python string operations — `strip`, `split`, `join`, `count`,
  repetition, decimal formatting.
- `Regex`: substitution and search, plus the pattern scanners.
- `Blocks`: the converter.
- `Templates`: the filler.
- `Pages`: trail, special pages, placeholder values and the whole page.

Four behaviours of the code that a reader may not expect are proved as
lemmas:

- **The title is the last level-1 heading.** Every title line overwrites it (`Blocks.TitleIsLast`).
- **The heading level counts every `#` on the line**, including those in
  the heading text. So `# C# tips` is an `h2` and never sets the title
  (`Blocks.MarkInTextRaisesLevel`). A line starting `##` is not a heading at
  all: it has no `# ` prefix (`Blocks.DoubleMarkIsParagraph`).
- **`***x***` gives interleaved tags.** It renders as `<b><i>x</b></i>` (`Blocks.TripleStarInterleaves`).
- **Filling rescans earlier insertions.** A value that is itself a
  placeholder for a later entry gets filled in turn (`Templates.FillRescans`).

A document with no level-1 heading has no title. Python then fails at the
return statement with an unbound variable. The model returns `None` for that
document, and `None` for its page.

## Model

| member | source | states |
|---|---|---|
| Blocks.ConvertMarkdownToHtml | generator.py:19-53 | the converter's loop (one fragment appended per line, the title overwritten by each level-1 heading) computes exactly `Convert(md)`; `None` when no title was ever bound |
| Blocks.LinesShape | generator.py:23-25 | the collapsed, stripped text always splits into at least one line, and no line holds a newline |
| Blocks.CollapseNoAdjacent | generator.py:23 | after `\n{2,}` is replaced by `\n`, no two newlines are adjacent |
| Blocks.CollapseIdentityIff | generator.py:23 | collapsing leaves the text unchanged exactly when it has no two adjacent newlines |
| Blocks.LinesNonEmpty | generator.py:23-25 | if the stripped text is non-empty, no line is empty; if it is empty, the only line is `""` |
| Blocks.Classify | generator.py:29-51 | a line is a heading exactly when it starts `# `, an image exactly when it does not and the image test holds, and otherwise a paragraph holding the line as it is; a heading has level at least one and its text neither starts nor ends with `#` or a space |
| Blocks.ImageLineIff | generator.py:36 | the image test holds exactly when the line is `![`, newline-free text, `](`, newline-free text, `)` in the way the pattern reads, for some split points |
| Blocks.ImageAlt | generator.py:37 | the alt text is what lies between the leading `![` and the first `]`, and holds no `]` |
| Blocks.ImageSrcShape | generator.py:38 | the image source lies between the line's first `(` and the next `)`, and holds no `)` |
| Blocks.HeadingFragment | generator.py:29-35 | a line starting `# ` renders as `<hN>text</hN>`, N its count of `#` in decimal and text the line stripped of `#` and spaces |
| Blocks.ImageFragment | generator.py:36-40 | an image line renders as the `landscape-image` tag with its source and alt text |
| Blocks.ParagraphFragment | generator.py:41-51 | any other line renders as `<p>` around the line after the bold, italic, internal-link and external-link passes, in that order |
| Blocks.SpansKeepPlain | generator.py:42-49 | text without `*` and `[` passes through all four inline passes unchanged |
| Blocks.PlainParagraph | generator.py:41-51 | a non-heading line without `*` and `[` becomes `<p>line</p>` verbatim |
| Blocks.BoldPassNeedsStar | generator.py:42 | the bold pass changes nothing in text without `*` |
| Blocks.ItalicPassNeedsStar | generator.py:43 | the italic pass changes nothing in text without `*` |
| Blocks.InternalLinkPassNeedsBracket | generator.py:46 | the internal-link pass changes nothing in text without `[` |
| Blocks.ExternalLinkPassNeedsBracket | generator.py:49 | the external-link pass changes nothing in text without `[` |
| Blocks.BoldSpan | generator.py:42-49 | `**x**` alone (x without `*`, `[` or newline) becomes `<b>x</b>` after all four passes |
| Blocks.TripleStarInterleaves | generator.py:42-49 | `***x***` (x non-empty, without `*`, `[` or newline) becomes `<b><i>x</b></i>` |
| Blocks.ItalicPassAfterPlain | generator.py:43 | the italic pass copies a `*`-free prefix and continues on the rest |
| Blocks.LinkSpan | generator.py:44-49 | a lone `[t](u)` becomes a same-site link to `u` minus its `/index.md` tail when `u` ends in `/index` + any non-newline character + `md`, and otherwise a link opening in a new tab |
| Blocks.InternalLinkSkipsPlain | generator.py:46 | the internal-link pass leaves `[t](u)` alone when `u` is not an index path |
| Blocks.IndexTailOnlyAtEnd | generator.py:46 | in `u)`, the `/index.md)` tail can only start nine characters before the end of `u`, and does exactly when `u` is an index path |
| Blocks.ExternalMatchWhole | generator.py:49 | the external-link pattern matches the whole of `[t](u)` with groups `t` and `u` |
| Blocks.SpansKeepOneLine | generator.py:42-49 | the inline passes never bring a newline into a line |
| Blocks.RenderKeepsOneLine | generator.py:29-51 | a line without a newline renders to a fragment without one |
| Blocks.FragmentsAt | generator.py:28-51 | there is one fragment per line, in order, and the k-th fragment renders the k-th line |
| Blocks.ConvertLineByLine | generator.py:53 | splitting the converter's HTML at newlines gives back exactly the per-line fragments, one per markup line |
| Blocks.TitleNoneIff | generator.py:29-33 | there is no title exactly when no line is a title line (starts `# ` and holds exactly one `#`) |
| Blocks.TitleIsLast | generator.py:29-33 | the title is the stripped text of the last title line |
| Blocks.ConvertFailsIff | generator.py:19-53 | the converter fails exactly when no normalised line is a title line |
| Blocks.TitleLineRender | generator.py:29-35 | a title line renders as `<h1>` around its stripped text |
| Blocks.MarkInTextRaisesLevel | generator.py:30 | `# ` + text holding a `#` is a heading of level two or more, and not a title line |
| Blocks.DoubleMarkIsParagraph | generator.py:29 | a line starting `##` is classified as a paragraph |
| Templates.FillTemplate | generator.py:69-80 | the loop over the entries, in order, computes `Fill(template, entries)`: one placeholder pass per entry, each on the output of the one before |
| Templates.PlaceholderReplaced | generator.py:77-78 | wherever it stands after text without `{{`, `{{` + whitespace + name + whitespace + `}}` is replaced by the value, the text before it is kept, and the pass goes on with the text after it |
| Templates.OtherPlaceholderKept | generator.py:78 | a placeholder for a different plain name, with any whitespace inside its braces, is kept as literal text wherever it stands after text without `{{`, and the pass goes on with the text after it |
| Templates.UnknownPlaceholderKept | generator.py:77-78 | a placeholder, with any whitespace inside its braces, that no entry names survives the whole fill together with the text before it (when that holds no `{{`); the text after it is filled as on its own |
| Templates.FillWithoutOpening | generator.py:77-78 | a template without `{{` comes out unchanged, whatever the mapping |
| Templates.FillRescans | generator.py:77-78 | with entries `a -> {{b}}` then `b -> v`, `{{a}}` fills to `v`: later entries see what earlier ones inserted |
| Pages.Trail | generator.py:137 | the trail has one folder name per `/` after the first, none when the path has fewer than two `/`, and no folder name holds a `/` |
| Pages.TrailOfPath | generator.py:137 | the trail of `root/d1/.../dn/file` is `d1, ..., dn` |
| Pages.AppendPostcards | generator.py:95-97 | the postcard loop leaves the content followed by one filled postcard per record, in record order |
| Pages.ApplySpecialPageRules | generator.py:82-105 | the rules, chosen by the exact trail, compute `SpecialPageRules` |
| Pages.StripHeadings | generator.py:90-91 | deleting the `<h1>` spans never lengthens the home page, and leaves it unchanged exactly when no span starts anywhere in it |
| Pages.SpecialPageRulesEffect | generator.py:90-105 | the home page only shrinks, and is unchanged exactly when it has no `<h1 ...>...</h1>`; the games and websites pages keep the content as a prefix, followed by the postcards; every other page is unchanged |
| Pages.StripHeadingsDropsTitle | generator.py:91 | on the home page, an `<h1>t</h1>` element at the front, with no newline in `t` and no `</h1>` before its own close, is deleted and the rest of the page is stripped as if it were alone |
| Pages.PostcardsAppend | generator.py:95-103 | the postcards of a concatenated record list are the postcards of each part, concatenated |
| Pages.PostcardsOne | generator.py:95-97 | one record yields exactly one filled postcard |
| Pages.PlaceholderReplacements | generator.py:107-118 | four entries in insertion order: the article verbatim; at the root an empty canonical path, relative prefix and title; below the root a path starting with `/`, a relative prefix of three characters per folder that starts `../` and repeats every three characters, and the title followed by the separator |
| Pages.CanonicalPathRoundTrip | generator.py:114 | splitting the canonical path after its leading `/` gives the trail back |
| Pages.GenerateHtmlFromMdFile | generator.py:129-143 | the pipeline of one file computes `Page(md, path, src)`: convert, apply the rules for the trail, fill the page template |
| Pages.PageFailsIff | generator.py:129-143 | a page fails exactly when its Markdown has no title line |
| Pages.PlainTemplatePage | generator.py:140-141 | a page template without `{{` is the page itself, once the Markdown has a title |
| Regex.SubNoMatch | generator.py:23 | where the pattern matches nowhere, `re.sub` returns the text unchanged |
| Regex.SubSkip | generator.py:42-49 | a stretch where no match starts is copied through unchanged, whatever follows it |
| Regex.SubWholeMatch | generator.py:42-49 | a match covering the whole text is replaced as a whole |
| Regex.SubAvoids | generator.py:42-49 | `re.sub` brings in a character only through the replacement's literal parts or the matched groups |
| Regex.DeleteShrinks | generator.py:91 | deleting every match never lengthens the text |
| Regex.DeleteIdentityIff | generator.py:91 | deleting every match leaves the text unchanged exactly when the pattern matches nowhere |
| Regex.SearchFindsFirst | generator.py:37-38 | `re.search` returns the match at the first position where one starts |
| Regex.SearchSomewhere | generator.py:37-38 | a search result is the match at some position of the text, and the search comes back empty only when no position has a match |
| Regex.MatchNewlineRun | generator.py:23 | `\n{2,}` matches the whole maximal newline run at the start, when it has two or more newlines |
| Regex.MatchBold | generator.py:42 | a bold match is `**`, a newline-free text, `**`, with that text as group 1, and `**` starts nowhere inside the text: the lazy group takes the first close |
| Regex.BoldFound | generator.py:42 | where `**` opens the text and `**` closes again with no newline between, the bold pattern matches, and its group ends at that close or earlier |
| Regex.MatchItalic | generator.py:43 | an italic match is `*`, a text without newline or `*`, `*`, and that text is group 1 |
| Regex.ItalicFound | generator.py:43 | where `*` opens the text and the next `*` follows with no newline between, the italic pattern matches exactly up to that `*`, with the text between as group 1 |
| Regex.ShortestUntil | generator.py:42-43 | the lazy `(.*?)` stops at the first place the closing mark starts, and crosses no newline |
| Regex.ShortestUntilFinds | generator.py:42-43 | where the mark occurs with no newline before it, the lazy scan stops there or earlier |
| Regex.ShortestUntilAt | generator.py:42-43 | the lazy scan stops exactly at the first place the closing mark starts, when no newline comes before it |
| Regex.InternalLinkShape | generator.py:46 | an internal-link match is `[`, a `]`-free text, `](`, a `)`-free path, then `/index`, one character other than a newline, `md)`, with text and path as the groups |
| Regex.MatchInternalLink | generator.py:46 | an internal-link match is at least thirteen characters long and lies within the text |
| Regex.InternalLinkFound | generator.py:46 | where the text starts `[`, a `]`-free text, `](`, then a path with no `)` followed by the `/index.md)` tail, the internal-link pattern matches |
| Regex.LastIndexTailIsLast | generator.py:46 | the greedy path group backtracks to the last place up to the first `)` where the `/index.md)` tail starts, and finds nothing when there is none |
| Regex.ExternalLinkShape | generator.py:49 | an external-link match is `[`, a `]`-free text, `](`, a `)`-free url, `)`, with text and url as the groups |
| Regex.MatchExternalLink | generator.py:49 | an external-link match is at least four characters long and lies within the text |
| Regex.ExternalLinkFound | generator.py:49 | where the text starts `[`, a `]`-free text, `](`, a `)`-free url, `)`, the external-link pattern matches exactly that, with text and url as the groups |
| Regex.MatchHeading1 | generator.py:91 | a heading match is `<h1`, a text up to the first `>`, a newline-free text in which `</h1>` does not start, and `</h1>` |
| Regex.Heading1Found | generator.py:91 | where an `h1` element of that shape opens the text, the heading pattern matches exactly up to the end of its closing tag |
| Regex.MatchPlaceholder | generator.py:78 | a placeholder match is `{{`, a whitespace run that stops on a non-whitespace character, the name, a whitespace run, `}}` |
| Regex.PlaceholderFound | generator.py:78 | where a placeholder for the name, with whitespace runs inside its braces, opens the text, the placeholder pattern matches exactly up to its `}}` |
| Regex.SkipSpaces | generator.py:78 | `\s*` takes the whole whitespace run: everything it passes is whitespace and it stops on a non-whitespace character or the end |
| Regex.MatchAltText | generator.py:37 | the alt-text match is `![`, a `]`-free text, `]`, with that text as group 1 |
| Regex.MatchParenText | generator.py:38 | the source match is `(`, a `)`-free text, `)`, with that text as group 1 |
| Text.Strip | generator.py:25 | the stripped text neither starts nor ends with a stripped character, and is empty exactly when every character is one |
| Text.StripIsPiece | generator.py:25 | the stripped text is a piece of the original with only stripped characters before and after it |
| Text.StripKeepsNoAdjacent | generator.py:25 | stripping cannot create two adjacent copies of a character |
| Text.Count | generator.py:30 | the count is at most the length, and zero exactly when the character is absent |
| Text.CountAppend | generator.py:30 | counting distributes over concatenation |
| Text.Split | generator.py:25 | a split has one more piece than the text has separators, and no piece holds the separator |
| Text.JoinSplit | generator.py:25 | joining the pieces of a split gives the text back |
| Text.SplitJoin | generator.py:53 | splitting a join of separator-free pieces gives the pieces back |
| Text.SplitPiecesNonEmpty | generator.py:25 | a text that neither starts nor ends with the separator, and never has two in a row, splits into non-empty pieces |
| Text.Repeat | generator.py:115 | `n * s` has `n` times the length of `s`, starts with `s` when `n > 0`, and repeats with period `\|s\|` |
| Text.NatToString | generator.py:35 | the heading level is written as decimal digits with no leading zero |
| Text.DigitsValueOfNatToString | generator.py:35 | reading the written digits back gives the level |

## Left out

- File access: `load_content`, `load_json_data` and `write_html_content` are not modelled. The Markdown text, the two templates and the JSON records are parameters (`Pages.Sources`), and the page is returned.
- `generate_html_from_folder` and the path constants are not modelled: they walk directories, create folders and name files, with no logic beyond that.
- `scripts/main.js` is not part of this model. It is browser-side behaviour.
- JSON records are modelled as ordered lists of string pairs. Non-string values are not modelled: Python would fail on them in `re.sub`. Duplicate keys are not modelled either: a dictionary keeps one entry per key, and the model assumes the keys are distinct.
- Replacement values are inserted literally. Python's `re.sub` also interprets backslash escapes and group references in a replacement string; values containing `\` are not modelled.
- Placeholder names are spliced into the pattern as literal text. Names holding regular-expression metacharacters are not modelled, and neither are names beginning with whitespace (where backtracking into `\s*` could matter). The four page-template names and plain record keys are covered.
- The `PAGE_TITLE` separator is kept as the exact characters the source holds (U+00E2 U+20AC U+201D between two spaces); how it is encoded when the page is written is not modelled.
- Python's exception on a document without a level-1 heading is modelled as `None` for the document and for its page.
- Templates.PlaceholderReplaced: states the replacement only when the text before the placeholder holds no `{{`. Earlier placeholders are covered by applying the placeholder lemmas from left to right.
- Templates.OtherPlaceholderKept: states the same limit, for a placeholder of another name.
- Templates.UnknownPlaceholderKept: states the same limit, for a placeholder no entry names.
- Regex.InternalLinkFound: states only that the internal-link pattern matches. Where its groups lie follows from `Regex.InternalLinkShape` and `Regex.LastIndexTailIsLast`.
- Regex.BoldFound: states that the bold group ends at the given close or earlier. `Regex.MatchBold` states that it ends at the first close.
- Blocks.BoldSpan, Blocks.LinkSpan, Blocks.TripleStarInterleaves: describe one span standing alone on a line, with text free of `*`, `[`, `]`, `)` and newlines. Spans mixed with other text follow from `Regex.SubSkip` and the per-pass lemmas, but are not stated as separate lemmas.
