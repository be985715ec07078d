# Markdown to Confluence storage format, modelled in Dafny

This project models the text transformer of the `markdown-to-confluence`
skill: the `MarkdownToConfluence` class that turns Markdown into
Confluence storage format (XHTML with `ac:` macros). The model covers the
block scanner `convert` and its handlers:
- fenced code blocks become a `code` macro with a CDATA body;
- headings;
- horizontal rules;
- flat lists;
- blockquotes;
- pipe tables;
- paragraphs.

It also covers the inline formatter, which makes one escape-or-not decision and
then applies eight rewrites, and the assembler, which joins the blocks,
collapses newline runs and strips the output.

The modules follow the program:
- `Text`: string primitives (`strip`, `split`, `join`, ASCII classes).
- `Inline`: `_convert_inline`, with each `re.sub` rule hand-coded as a
  leftmost, shortest-span rewrite.
- `InlineExamples`: the formatter's observable behaviour on families of inputs.
- `Cdata`: the `]]>` splitting of code bodies.
- `Lines`: the per-line tests the scanner and the handlers use.
- `CodeBlocks`, `LineBlocks` (headings, paragraphs), `Lists`, `Quotes`,
  `Tables`: the handlers. The looping handlers are methods proved against
  specification functions.
- `Assembly`: the join, newline collapse and strip.
- `Converter`: the scanner (`Convert`), specified by `Scan`.

`convert` does not always terminate. A line such as `- ` passes the
scanner's list test, but the list handler consumes nothing there. `Scan`
therefore returns `Hangs(i)` for the line at which the source would repeat
the same pass forever. `Convert` returns that outcome instead of looping.

Two behaviours of the code are worth stating plainly:
- A fence is closed by any line whose stripped form starts with three
  backticks, a labelled one included, not only by a bare fence.
- `convert` does not return on a bare list marker (see Findings).

## Model

Each row names the member whose contract states the property.

| member | source | states |
|---|---|---|
| Text.Strip | plugins/markdown-to-confluence/skills/markdown-to-confluence/scripts/md_to_confluence.py:42 | `str.strip()`: the result is the slice between the leading and the trailing whitespace, begins and ends with a non-whitespace character, and is empty exactly when the input is blank |
| Text.Split | plugins/markdown-to-confluence/skills/markdown-to-confluence/scripts/md_to_confluence.py:34 | `split('\n')`: one piece more than there are separators, no piece holds the separator, and joining the pieces with it gives back the input |
| Text.BlankSplit | plugins/markdown-to-confluence/skills/markdown-to-confluence/scripts/md_to_confluence.py:34 | splitting blank text gives blank lines only |
| Text.SplitJoin | plugins/markdown-to-confluence/skills/markdown-to-confluence/scripts/md_to_confluence.py:188 | pieces without the separator, joined by it and closed by it, split back into the pieces and one final empty piece |
| Inline.Escape | plugins/markdown-to-confluence/skills/markdown-to-confluence/scripts/md_to_confluence.py:228 | `html.escape`: no raw `<`, `>`, `"` or `'` remains, and text without special characters is left unchanged |
| Inline.UnescapeEscape | plugins/markdown-to-confluence/skills/markdown-to-confluence/scripts/md_to_confluence.py:228 | escaping loses nothing: decoding the five entities gives back the input |
| Inline.Prepare | plugins/markdown-to-confluence/skills/markdown-to-confluence/scripts/md_to_confluence.py:227-228 | the escape decision: without a `<` followed by an ASCII letter the text is escaped (it decodes to the input and holds no `<`), otherwise it is left exactly as it is |
| Inline.FindClose | plugins/markdown-to-confluence/skills/markdown-to-confluence/scripts/md_to_confluence.py:231 | the lazy `.+?` search: the end found is the first position where the closing delimiter (and word boundary) occurs, with no newline before it; none found means no such position exists |
| Inline.SpanAt | plugins/markdown-to-confluence/skills/markdown-to-confluence/scripts/md_to_confluence.py:231-242 | a span rule matches at `i` exactly when `open`, a non-empty newline-free content and `close` start there, and the match found has the shortest content |
| Inline.BracketAt | plugins/markdown-to-confluence/skills/markdown-to-confluence/scripts/md_to_confluence.py:246-253 | the link and image pattern at a position matches exactly when `[`, the first `]` after it (at least the minimum text length away), `(` right after that and the first `)` after it (a non-empty target between) are there; the positions returned are those, and `None` means no such shape exists |
| Inline.SpanMatch | plugins/markdown-to-confluence/skills/markdown-to-confluence/scripts/md_to_confluence.py:231-242 | a span rule matches at a position exactly when a span of open delimiter, newline-free content and close delimiter starts there; the match replaces the span with the shortest content by that content wrapped in the rule's tag |
| Inline.LinkMatch | plugins/markdown-to-confluence/skills/markdown-to-confluence/scripts/md_to_confluence.py:245-249 | the link rule matches exactly when the bracket shape with a non-empty text starts at the position, and replaces it by `<a href="target">text</a>` |
| Inline.ImageMatch | plugins/markdown-to-confluence/skills/markdown-to-confluence/scripts/md_to_confluence.py:251-256 | the image rule matches exactly when `!` and the bracket shape (text possibly empty) start at the position, and replaces it by `<ac:image><ri:url ri:value="target" /></ac:image>`, dropping the text |
| Inline.RewriteSkip | plugins/markdown-to-confluence/skills/markdown-to-confluence/scripts/md_to_confluence.py:231-256 | positions where the rule cannot start are copied unchanged |
| Inline.RewriteUntouched | plugins/markdown-to-confluence/skills/markdown-to-confluence/scripts/md_to_confluence.py:231-256 | text without the rule's key character passes a rewrite unchanged |
| Inline.ConvertInlineChain | plugins/markdown-to-confluence/skills/markdown-to-confluence/scripts/md_to_confluence.py:223-258 | the formatter is the escape decision followed by the eight rewrites in the source's order: `**`, `__`, `*`, bounded `_`, `~~`, backtick, link, image |
| Inline.LaterRulesUntouched | plugins/markdown-to-confluence/skills/markdown-to-confluence/scripts/md_to_confluence.py:236-256 | without `_`, `~`, backtick or `[` the last five rewrites change nothing |
| Inline.PlainTextUnchanged | plugins/markdown-to-confluence/skills/markdown-to-confluence/scripts/md_to_confluence.py:223-258 | text holding none of `*`, `_`, `~`, the backtick, `[`, `&`, `<`, `>`, `"` and `'` comes out unchanged |
| Inline.SpanHit | plugins/markdown-to-confluence/skills/markdown-to-confluence/scripts/md_to_confluence.py:231-242 | a span whose content ends at the first closing delimiter is replaced by the content wrapped in the rule's tag |
| Inline.PrepareUnchanged | plugins/markdown-to-confluence/skills/markdown-to-confluence/scripts/md_to_confluence.py:227-228 | text without HTML special characters is not altered by the escape step |
| Inline.NoTagStart | plugins/markdown-to-confluence/skills/markdown-to-confluence/scripts/md_to_confluence.py:227 | text without `<` never looks like embedded markup |
| InlineExamples.BoldHit | plugins/markdown-to-confluence/skills/markdown-to-confluence/scripts/md_to_confluence.py:231 | `**x**` at the start of the text is a bold match ending after its closing stars |
| InlineExamples.BoldSkip | plugins/markdown-to-confluence/skills/markdown-to-confluence/scripts/md_to_confluence.py:231 | a single-star span after the bold one is not touched by the bold rule |
| InlineExamples.BoldStage | plugins/markdown-to-confluence/skills/markdown-to-confluence/scripts/md_to_confluence.py:231 | the bold rule turns `**x**` followed by `mid*y*` into `<strong>x</strong>` followed by the untouched rest |
| InlineExamples.ItalicHit | plugins/markdown-to-confluence/skills/markdown-to-confluence/scripts/md_to_confluence.py:235 | a single-star span matches as italic |
| InlineExamples.ItalicStage | plugins/markdown-to-confluence/skills/markdown-to-confluence/scripts/md_to_confluence.py:235 | the italic rule leaves the bold output in front and wraps the star span in `<em>` |
| InlineExamples.BoldFront | plugins/markdown-to-confluence/skills/markdown-to-confluence/scripts/md_to_confluence.py:227-232 | escaping and both bold rules turn the text into the strong part followed by the star span |
| InlineExamples.ItalicBack | plugins/markdown-to-confluence/skills/markdown-to-confluence/scripts/md_to_confluence.py:235-256 | the italic rule and the later rules turn the rest into `<em>y</em>` |
| InlineExamples.BoldThenItalic | plugins/markdown-to-confluence/skills/markdown-to-confluence/scripts/md_to_confluence.py:223-258 | `**x**` then plain text then `*y*` converts to `<strong>x</strong>`, the text, `<em>y</em>`: bold runs before italic, so the stars of the bold span are not taken for italics |
| InlineExamples.OnlyBracketRules | plugins/markdown-to-confluence/skills/markdown-to-confluence/scripts/md_to_confluence.py:223-249 | for text without special characters, stars, underscores, tildes or backticks only the link and image rules act |
| InlineExamples.LinkBracket | plugins/markdown-to-confluence/skills/markdown-to-confluence/scripts/md_to_confluence.py:245-249 | in `![a](u)` the link pattern matches from the `[` |
| InlineExamples.LinkStage | plugins/markdown-to-confluence/skills/markdown-to-confluence/scripts/md_to_confluence.py:245-249 | the link rule turns `![a](u)` into `!` and an anchor |
| InlineExamples.ImageWithAltBecomesLink | plugins/markdown-to-confluence/skills/markdown-to-confluence/scripts/md_to_confluence.py:245-256 | `![a](u)` with a non-empty alt converts to `!<a href="u">a</a>`: the link rule consumes it before the image rule runs |
| InlineExamples.ImageBracket | plugins/markdown-to-confluence/skills/markdown-to-confluence/scripts/md_to_confluence.py:246-253 | for `![](u)` the link pattern (non-empty text) does not match, the image pattern (empty alt allowed) does |
| InlineExamples.EmptyAltLinkStage | plugins/markdown-to-confluence/skills/markdown-to-confluence/scripts/md_to_confluence.py:245-249 | `![](u)` passes the link rule unchanged |
| InlineExamples.EmptyAltImage | plugins/markdown-to-confluence/skills/markdown-to-confluence/scripts/md_to_confluence.py:245-256 | `![](u)` converts to the `ac:image` element with `u` as its URL |
| Cdata.Esc | plugins/markdown-to-confluence/skills/markdown-to-confluence/scripts/md_to_confluence.py:106 | the replacement of `]]>`: never shorter than the input and starting with the same character |
| Cdata.UnsplitEsc | plugins/markdown-to-confluence/skills/markdown-to-confluence/scripts/md_to_confluence.py:106 | round trip: deleting the inserted `]]><![CDATA[` markers restores the original body |
| Cdata.EscReopened | plugins/markdown-to-confluence/skills/markdown-to-confluence/scripts/md_to_confluence.py:106-110 | in the escaped body every `]]>` is immediately followed by `<![CDATA[`, so the section is never closed early |
| Lines.SpacedTail | plugins/markdown-to-confluence/skills/markdown-to-confluence/scripts/md_to_confluence.py:117 | `\s+(.+)$` on the rest of a line: it matches exactly when there is a whitespace character and at least one more character; the captured text is a non-empty suffix, preceded only by whitespace, starting with a non-whitespace character unless it is a single character |
| Lines.HeadingMatch | plugins/markdown-to-confluence/skills/markdown-to-confluence/scripts/md_to_confluence.py:117 | a match has a level from 1 to 6 made of that many `#`, followed by the `\s+(.+)$` tail |
| Lines.HeadingMatchShape | plugins/markdown-to-confluence/skills/markdown-to-confluence/scripts/md_to_confluence.py:117 | the heading pattern accepts a line exactly when it has the shape: n hashes for some n from 1 to 6, whitespace, then more text; the level is that n |
| Lines.MarkerEnd | plugins/markdown-to-confluence/skills/markdown-to-confluence/scripts/md_to_confluence.py:60 | a marker found after the indentation is one of `-`, `*`, `+`, or a run of digits closed by `.` |
| Lines.MarkerEndShape | plugins/markdown-to-confluence/skills/markdown-to-confluence/scripts/md_to_confluence.py:60 | the marker shape at a position is unique when it exists and is the one found; `None` means there is no marker there |
| Lines.ListItem | plugins/markdown-to-confluence/skills/markdown-to-confluence/scripts/md_to_confluence.py:132-148 | a line is a full item exactly when a marker follows the indentation and `\s+(.+)$` matches after it; the item text is what that capture holds, and the item is ordered exactly when its marker starts with a digit |
| Lines.ListShape | plugins/markdown-to-confluence/skills/markdown-to-confluence/scripts/md_to_confluence.py:60 | the list-start test accepts exactly the lines made of whitespace, a marker and a whitespace character, and the item test exactly those with at least one more character after that, whatever the split of the leading whitespace |
| Lines.BareMarkerShape | plugins/markdown-to-confluence/skills/markdown-to-confluence/scripts/md_to_confluence.py:60 | the lines that pass the list-start test without being items are exactly a marker followed by one whitespace character and nothing else |
| Lines.QuoteText | plugins/markdown-to-confluence/skills/markdown-to-confluence/scripts/md_to_confluence.py:165 | a quote line loses its `>` and, when the next character is whitespace, that character too (greedy `\s?`); any other line is unchanged |
| Lines.DelimRowShape | plugins/markdown-to-confluence/skills/markdown-to-confluence/scripts/md_to_confluence.py:72 | the delimiter-row test accepts a line exactly when it decomposes as whitespace, an optional pipe, one or more of `[\s:-]`, then a pipe |
| Lines.DelimShapeFound | plugins/markdown-to-confluence/skills/markdown-to-confluence/scripts/md_to_confluence.py:72 | every such decomposition is accepted, including the ones that need the regex to backtrack |
| Lines.DelimRowHasBar | plugins/markdown-to-confluence/skills/markdown-to-confluence/scripts/md_to_confluence.py:72 | a delimiter row contains a pipe |
| CodeBlocks.FenceAfter | plugins/markdown-to-confluence/skills/markdown-to-confluence/scripts/md_to_confluence.py:98 | the first fence line at or after a position, or the end of input |
| CodeBlocks.Language | plugins/markdown-to-confluence/skills/markdown-to-confluence/scripts/md_to_confluence.py:94-95 | the stripped text after the first three characters of the stripped opener, or `none` when that is empty |
| CodeBlocks.CodeEnd | plugins/markdown-to-confluence/skills/markdown-to-confluence/scripts/md_to_confluence.py:113 | the index returned is one past the first later line whose stripped form starts with three backticks, or the end of input when there is none |
| CodeBlocks.ProcessCodeBlock | plugins/markdown-to-confluence/skills/markdown-to-confluence/scripts/md_to_confluence.py:92-113 | returns that index and the `code` macro holding the escaped language and the escaped body, which is the lines in between joined by newlines |
| CodeBlocks.CodeMacroBody | plugins/markdown-to-confluence/skills/markdown-to-confluence/scripts/md_to_confluence.py:104-111 | the macro's CDATA section holds a body in which every `]]>` reopens a section, and deleting the reopening markers gives back the code lines |
| Lines.HeadingCapture | plugins/markdown-to-confluence/skills/markdown-to-confluence/scripts/md_to_confluence.py:117 | on a line of n hashes (1 to 6), whitespace and text, the heading pattern captures level n and the text after the whole whitespace run, or the last character when only whitespace follows the hashes |
| LineBlocks.HeadingLevel | plugins/markdown-to-confluence/skills/markdown-to-confluence/scripts/md_to_confluence.py:115-120 | a line with n hashes (1 to 6), whitespace and text renders as `<hn>` around the formatted text after the hashes and the whole whitespace run; when only whitespace follows the hashes, the last whitespace character is the text |
| LineBlocks.HeadingRaw | plugins/markdown-to-confluence/skills/markdown-to-confluence/scripts/md_to_confluence.py:122 | any other line is returned as it is, neither wrapped nor escaped |
| LineBlocks.SevenHashesRaw | plugins/markdown-to-confluence/skills/markdown-to-confluence/scripts/md_to_confluence.py:117-122 | a line starting with seven or more `#` is returned unchanged |
| LineBlocks.ParagraphPlain | plugins/markdown-to-confluence/skills/markdown-to-confluence/scripts/md_to_confluence.py:218-221 | plain text is wrapped in `<p>` unchanged |
| Lists.ContinueEnd | plugins/markdown-to-confluence/skills/markdown-to-confluence/scripts/md_to_confluence.py:130-141 | the first line that neither is an item nor is a non-blank line that does not start like an item |
| Lists.Entries | plugins/markdown-to-confluence/skills/markdown-to-confluence/scripts/md_to_confluence.py:155 | one `<li>` per item, in order |
| Lists.ProcessList | plugins/markdown-to-confluence/skills/markdown-to-confluence/scripts/md_to_confluence.py:124-156 | returns the end of the list and `<kind>`, the `<li>` lines and `</kind>`; the items are built line by line, a full item adding its formatted text and a continuation line extending the last item |
| Lists.ItemsFollowLines | plugins/markdown-to-confluence/skills/markdown-to-confluence/scripts/md_to_confluence.py:132-151 | a list gives one entry per item line, in order, each starting with the formatted text of that line |
| Lists.ItemsBetweenRun | plugins/markdown-to-confluence/skills/markdown-to-confluence/scripts/md_to_confluence.py:130-151 | the items the handler builds line by line are the items of the run of list lines, built in input order |
| Lists.KindOfFirst | plugins/markdown-to-confluence/skills/markdown-to-confluence/scripts/md_to_confluence.py:146-148 | the kind is `ol` exactly when the first item's marker starts with a digit, and otherwise `ul`; later markers play no part |
| Lists.ListStops | plugins/markdown-to-confluence/skills/markdown-to-confluence/scripts/md_to_confluence.py:135-141 | a started list consumes at least one line and ends at the end of input, at a blank line, or at a line that starts like an item without being one |
| Lists.MarkupLinesContinue | plugins/markdown-to-confluence/skills/markdown-to-confluence/scripts/md_to_confluence.py:135-139 | headings, fences and rules inside a list are appended to the previous item as plain text |
| Quotes.QuoteEnd | plugins/markdown-to-confluence/skills/markdown-to-confluence/scripts/md_to_confluence.py:163 | the end of the maximal run of lines starting with `>` |
| Quotes.ProcessBlockquote | plugins/markdown-to-confluence/skills/markdown-to-confluence/scripts/md_to_confluence.py:158-172 | returns the end of the run and one blockquote paragraph formatting the texts joined by spaces |
| Quotes.QuoteProgress | plugins/markdown-to-confluence/skills/markdown-to-confluence/scripts/md_to_confluence.py:163-167 | when the first line is a quote line the handler consumes at least one line, and the run has one text per consumed line |
| Quotes.QuoteTwoLines | plugins/markdown-to-confluence/skills/markdown-to-confluence/scripts/md_to_confluence.py:163-170 | two quote lines are formatted once, as one line joined by a single space; `> ` loses only its first space, so indentation after it is kept |
| Tables.TableEnd | plugins/markdown-to-confluence/skills/markdown-to-confluence/scripts/md_to_confluence.py:180-182 | the end of the run of lines holding a pipe |
| Tables.CellText | plugins/markdown-to-confluence/skills/markdown-to-confluence/scripts/md_to_confluence.py:188 | a line holding a pipe has one cell fewer than it has pipe characters, a line without one has none; cell k is the stripped text between the (k+1)-th and (k+2)-th pipe, i.e. the (k+1)-th piece of the split |
| Tables.CellsRoundTrip | plugins/markdown-to-confluence/skills/markdown-to-confluence/scripts/md_to_confluence.py:188 | a row written as `|`, cells separated by `|`, and `|` parses back into exactly those cells when they hold no pipe and no surrounding whitespace |
| Tables.ParseTable | plugins/markdown-to-confluence/skills/markdown-to-confluence/scripts/md_to_confluence.py:188-196 | the header comes from the first line and each body row from one line from the third on; the delimiter row is dropped |
| Tables.BodyRows | plugins/markdown-to-confluence/skills/markdown-to-confluence/scripts/md_to_confluence.py:193-196 | one row per line from the third on, in order, each the cells of its line |
| Tables.RenderRow | plugins/markdown-to-confluence/skills/markdown-to-confluence/scripts/md_to_confluence.py:202-212 | one `<tr>` with one cell line per cell, in order |
| Tables.RenderTable | plugins/markdown-to-confluence/skills/markdown-to-confluence/scripts/md_to_confluence.py:199-214 | the table: the header row of `th` cells, then one row of `td` cells per body row |
| Tables.RenderRows | plugins/markdown-to-confluence/skills/markdown-to-confluence/scripts/md_to_confluence.py:208-212 | the body rows, one `<tr>` of `td` cells per row, in order |
| Tables.ProcessTable | plugins/markdown-to-confluence/skills/markdown-to-confluence/scripts/md_to_confluence.py:174-216 | returns the end of the run and the table, or the first line itself when the run has fewer than two lines |
| Tables.TriggeredTableHasTwoLines | plugins/markdown-to-confluence/skills/markdown-to-confluence/scripts/md_to_confluence.py:72 | when the scanner starts a table the run has at least two lines, so the single-line fallback is never taken |
| Tables.TableShape | plugins/markdown-to-confluence/skills/markdown-to-confluence/scripts/md_to_confluence.py:188-196 | there are run length minus two body rows, and every row has one cell fewer than its line has pipe characters |
| Assembly.CollapseLead | plugins/markdown-to-confluence/skills/markdown-to-confluence/scripts/md_to_confluence.py:89 | the collapsed text starts with as many newlines as the input, but at most two |
| Assembly.CollapseNoRun3 | plugins/markdown-to-confluence/skills/markdown-to-confluence/scripts/md_to_confluence.py:89 | after the collapse no three newlines follow each other |
| Assembly.CollapseKeeps | plugins/markdown-to-confluence/skills/markdown-to-confluence/scripts/md_to_confluence.py:89 | text without three newlines in a row is not changed by the collapse |
| Assembly.CollapseIdempotent | plugins/markdown-to-confluence/skills/markdown-to-confluence/scripts/md_to_confluence.py:89 | collapsing twice is collapsing once |
| Assembly.StripNoRun3 | plugins/markdown-to-confluence/skills/markdown-to-confluence/scripts/md_to_confluence.py:90 | stripping keeps the text free of three newlines in a row |
| Assembly.OutputNoRun3 | plugins/markdown-to-confluence/skills/markdown-to-confluence/scripts/md_to_confluence.py:88-90 | the output never holds three newlines in a row |
| Assembly.CollapsePrefix | plugins/markdown-to-confluence/skills/markdown-to-confluence/scripts/md_to_confluence.py:89 | a prefix without newlines passes the collapse unchanged |
| Assembly.CodeBodyBlankLines | plugins/markdown-to-confluence/skills/markdown-to-confluence/scripts/md_to_confluence.py:89 | the collapse reaches into code bodies: two empty code lines between two code lines become one |
| Converter.Step | plugins/markdown-to-confluence/skills/markdown-to-confluence/scripts/md_to_confluence.py:38-85 | one pass of the loop: the next index never moves back and stays within the input; it stays put exactly when the list handler gets a line that is not a full item; every block except the blank line renders a non-empty text |
| Converter.FenceStep | plugins/markdown-to-confluence/skills/markdown-to-confluence/scripts/md_to_confluence.py:41-45 | a line whose stripped form starts with three backticks goes to the code block handler, whatever follows |
| Converter.HashStep | plugins/markdown-to-confluence/skills/markdown-to-confluence/scripts/md_to_confluence.py:47-51 | any other line starting with `#` becomes one heading block and the scan moves on by one line |
| Converter.RuleStep | plugins/markdown-to-confluence/skills/markdown-to-confluence/scripts/md_to_confluence.py:53-57 | a line that fails the fence and `#` tests and passes the rule test becomes `<hr />` and the scan moves on by one line |
| Converter.ListStep | plugins/markdown-to-confluence/skills/markdown-to-confluence/scripts/md_to_confluence.py:59-63 | a line that fails the fence, `#` and rule tests and passes the list test goes to the list handler, which decides where the scan continues |
| Converter.QuoteStep | plugins/markdown-to-confluence/skills/markdown-to-confluence/scripts/md_to_confluence.py:65-69 | a line that fails the fence, `#`, rule and list tests and starts with `>` goes to the blockquote handler |
| Converter.TableStep | plugins/markdown-to-confluence/skills/markdown-to-confluence/scripts/md_to_confluence.py:71-75 | a line that fails the fence, `#`, rule, list and quote tests, holds `|` and has a delimiter row under it goes to the table handler |
| Converter.TextStep | plugins/markdown-to-confluence/skills/markdown-to-confluence/scripts/md_to_confluence.py:77-79 | a non-blank line that fails all the earlier tests becomes one paragraph and the scan moves on by one line |
| Converter.BlankStep | plugins/markdown-to-confluence/skills/markdown-to-confluence/scripts/md_to_confluence.py:80-85 | a blank line (which fails every earlier test) renders nothing and the scan moves on by one line |
| Converter.Stalls | plugins/markdown-to-confluence/skills/markdown-to-confluence/scripts/md_to_confluence.py:59-63 | a pass that does not move the scan forward happens only under the source's list test, at a bare marker line |
| Converter.ProcessLine | plugins/markdown-to-confluence/skills/markdown-to-confluence/scripts/md_to_confluence.py:38-85 | the handler tests tried in the source's order (fence, `#`, rule, list start, `>`, table with lookahead, text, blank), with the handler methods called |
| Converter.Convert | plugins/markdown-to-confluence/skills/markdown-to-confluence/scripts/md_to_confluence.py:24-90 | the scanner loop, with the result list and the final join, collapse and strip; it returns what `Scan` specifies, and the line at which the source would loop forever |
| Converter.EmitSpaced | plugins/markdown-to-confluence/skills/markdown-to-confluence/scripts/md_to_confluence.py:80-83 | appending a non-empty block, or an empty entry only after a non-empty one, keeps the result list spaced |
| Converter.ScanSpaced | plugins/markdown-to-confluence/skills/markdown-to-confluence/scripts/md_to_confluence.py:78-83 | the result list never starts with an empty entry and never holds two in a row |
| Converter.ScanHangs | plugins/markdown-to-confluence/skills/markdown-to-confluence/scripts/md_to_confluence.py:38-85 | the loop stops advancing only with the source's list test, and only at a bare marker line |
| Converter.NoBareMarkerEnds | plugins/markdown-to-confluence/skills/markdown-to-confluence/scripts/md_to_confluence.py:38-85 | an input without a bare marker line always converts |
| Converter.CorrectedEnds | plugins/markdown-to-confluence/skills/markdown-to-confluence/scripts/md_to_confluence.py:60 | with the list test replaced by the full item test, every input converts |
| Converter.ClassifyAgrees | plugins/markdown-to-confluence/skills/markdown-to-confluence/scripts/md_to_confluence.py:60 | the two list tests pick the same handler except where the source's test picks the list handler for a line that is not an item |
| Converter.CorrectedAgrees | plugins/markdown-to-confluence/skills/markdown-to-confluence/scripts/md_to_confluence.py:60 | wherever the source's loop ends, the corrected loop gives the same result |
| Converter.DashSpace | plugins/markdown-to-confluence/skills/markdown-to-confluence/scripts/md_to_confluence.py:60 | the input `- ` hangs the source at line 0; the corrected converter returns `<p>- </p>` |
| Converter.BlankScan | plugins/markdown-to-confluence/skills/markdown-to-confluence/scripts/md_to_confluence.py:78-83 | blank lines add nothing to an empty result list |
| Converter.BlankOnly | plugins/markdown-to-confluence/skills/markdown-to-confluence/scripts/md_to_confluence.py:34-90 | an input of whitespace only converts to the empty string |
| Converter.OutputSpacing | plugins/markdown-to-confluence/skills/markdown-to-confluence/scripts/md_to_confluence.py:88-90 | the converted output never holds three newlines in a row |

## Left out

- `main` (argument handling, file reading and writing, printing, exit codes) is input and output around the converter and is not modelled.
- The instance fields `in_code_block`, `code_language`, `in_list` and `list_stack`, and the list item indentation, are set but never read; they are not modelled.
- `\s`, `\w`, `\b`, `\d`, `str.isdigit` and `str.strip` use ASCII character classes. Whitespace is space, tab, newline, carriage return, `\x0b`, `\x0c` and `\x1c` to `\x1f`. Python's Unicode classes are wider.
- Python's regular expression engine is not modelled. Each pattern is hand-coded as a scan. The scans are related to the shapes the patterns accept by `Lines.HeadingMatchShape` and `Lines.HeadingCapture` (headings), `Lines.MarkerEndShape` and `Lines.ListShape` (list markers and items), `Lines.BareMarkerShape`, `Lines.DelimRowShape` (delimiter rows), `Lines.SpacedTail` (`\s+(.+)$`), `Inline.SpanAt` and `Inline.SpanMatch` (spans), and `Inline.BracketAt`, `Inline.LinkMatch` and `Inline.ImageMatch` (links and images).
- `html.escape` is modelled as its five-character map with quoting on.
- `Converter.Convert`: where the source loops forever (a bare list marker), the model returns `Hangs` with the line instead of running without end; growth of the result list in that loop is not modelled.
- `Lists.ItemsFollowLines` says each entry starts with its item's formatted text. What follows in the entry, the continuation lines, is stated one line at a time by `Lists.ProcessList` and not as a whole-list lemma.
- `Cdata.Esc`: its own contract only bounds length and the first character. Its meaning is stated by `Cdata.UnsplitEsc` and `Cdata.EscReopened`.
- `Tables.RenderRow`, `Tables.RenderRows` and `Tables.RenderTable` are the rendering loops of `_process_table`, moved into methods of their own; the cells of a row, and the body rows, are rendered into a string of their own that is then appended, rather than appended to the table text one piece at a time.

## Findings

| source | as written | input that shows it | evidently intended | confidence | as-written member | corrected member |
|---|---|---|---|---|---|---|
| plugins/markdown-to-confluence/skills/markdown-to-confluence/scripts/md_to_confluence.py:60 | the scanner starts a list on the item-start test (marker and whitespace), but the list handler only accepts full items (marker, whitespace, text); on a line that is only a marker and one whitespace character the handler consumes nothing and `convert` repeats the same pass forever | the one-line input `- ` (also `1. `, or such a line anywhere outside a code block) | the list test is the full item test, so such a line falls through to the later tests (here a paragraph) and `convert` returns | high; not executed | Converter.DashSpace | Converter.CorrectedEnds |

`Converter.ScanHangs` shows that a bare marker line is the only way the
source hangs. `Converter.CorrectedAgrees` shows that the correction
changes nothing on the inputs where the source terminates.
`Converter.Scan` and `Converter.Converted` take the list test as a
parameter, so the spacing and blank-input lemmas hold for both versions.
