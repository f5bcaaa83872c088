# Text-to-paragraph converter of the rich text editor

The editor component keeps the user's text in a buffer. On every change it
converts the text to HTML paragraphs: `convertToHtml` splits the text on
`'\n'`, trims each line, drops the lines that are empty after trimming,
wraps each remaining line in `<p>…</p>` and joins the results with `'\n'`.
When the whole text trims to nothing, an early exit returns `''`. Beside the
converter sits the `paragraphCount` figure. It counts the `'\n'`-separated
pieces whose trim is non-empty, and is 0 for blank text. The footer shows
`content.length`, `paragraphCount` and `htmlOutput.length`.

The project models these operations as pure functions over `string`:

- `seqs.dfy` (`Seqs`) holds `Map`, `Filter` and `Join`, shaped like
  JavaScript's array methods.
- `text.dfy` (`Text`) holds `Trim`, which removes ECMAScript's WhiteSpace
  and LineTerminator code points (`IsWs`), and `Split` on a one-character
  separator.
- `rich_text_editor.dfy` (`RichTextEditor`) holds `ConvertToHtml` and
  `ParagraphCount`. They are written as the chain in the component: early
  exit, split, trim, filter with `Boolean`, wrap, join. `Blocks` names the
  paragraph bodies, and `Render` names the wrap-and-join step.
- `paragraph_lemmas.dfy` (`ParagraphLemmas`) proves the converter's
  properties:
  - the early exit agrees with the general path;
  - paragraphs follow the lines in order, verbatim;
  - no paragraph is empty or untrimmed;
  - the counter equals the number of paragraphs;
  - whitespace-only lines change nothing;
  - conversion distributes over concatenation at a line boundary.
- `html_reader.dfy` (`HtmlReader`) is an inverse of the converter.
  `ParseParagraphs` reads `<p>…</p>` lines back into paragraph bodies, and
  returns `None` (from the module's own `Option` type) for markup of
  another shape. Reading the converter's output returns exactly its
  paragraphs.
- `one_pass.dfy` (`OnePass`) is an independent, single-scan formulation of
  the converter. It is proved equal to the chain on every input.
- `status_bar.dfy` (`StatusBar`) holds the footer figures. Lengths are
  counted in UTF-16 code units, as JavaScript's `length` counts them.

The converter has no heading-marker rule, no HTML-fragment handling and no
escaping: every surviving line goes into its paragraph verbatim.

## Model

| member | source | states |
|---|---|---|
| Text.Trim | src/components/RichTextEditor.js:90 | the trimmed line neither starts nor ends with an ECMAScript whitespace or line-terminator code point, and it is empty exactly when the line is all whitespace |
| Text.TrimSlice | src/components/RichTextEditor.js:90 | the trimmed line is a contiguous slice of the line, with only whitespace before and after it |
| Text.TrimUnique | src/components/RichTextEditor.js:90 | any slice with whitespace on both sides and non-whitespace at both of its ends is what trim returns |
| Text.TrimIdempotent | src/components/RichTextEditor.js:90 | trimming a trimmed line changes nothing |
| Text.SplitCount | src/components/RichTextEditor.js:89 | `split('\n')` of a text with n separators gives n + 1 pieces |
| Text.JoinSplit | src/components/RichTextEditor.js:89 | joining the pieces with the separator gives back the text |
| Text.SplitJoin | src/components/RichTextEditor.js:89 | splitting a join of separator-free parts gives back the parts |
| Text.SplitConcat | src/components/RichTextEditor.js:89 | the pieces of `a + '\n' + b` are the pieces of `a` followed by those of `b`, so a leading or trailing separator yields an empty piece |
| Seqs.FilterIndices | src/components/RichTextEditor.js:91 | filter keeps exactly the elements that satisfy its predicate, at strictly increasing positions, and drops nothing that satisfies it |
| ParagraphLemmas.BlankIffNoBlocks | src/components/RichTextEditor.js:87-91 | the text is whitespace only exactly when no line survives trim and filter |
| ParagraphLemmas.EarlyExitIsRedundant | src/components/RichTextEditor.js:87-93 | the early exit returns what the split/trim/filter/wrap/join path returns anyway, and the output is `''` exactly when the input is whitespace only |
| ParagraphLemmas.BlocksFollowLines | src/components/RichTextEditor.js:89-91 | paragraph k is the trim of line idx[k], the idx[k] strictly increase, and every line with a non-empty trim has its paragraph: no reordering, no deduplication |
| ParagraphLemmas.BlocksAreTrimmedNonEmpty | src/components/RichTextEditor.js:90-92 | every paragraph body is non-empty and equals its own trim, has no whitespace at either end, and contains no `'\n'` |
| ParagraphLemmas.WrapShape | src/components/RichTextEditor.js:92 | the template puts the body verbatim between `<p>` and `</p>`, adds seven characters, and adds no line break |
| ParagraphLemmas.SingleLineVerbatim | src/components/RichTextEditor.js:92 | a single line converts to `<p>` + its trim + `</p>` with every character, `<` and `>` included, copied unescaped; a blank line converts to `''` |
| ParagraphLemmas.CountMatchesParagraphs | src/components/RichTextEditor.js:111 | `paragraphCount` equals the number of emitted paragraphs, so the output is `''` exactly when the count is 0 |
| ParagraphLemmas.OutputEnds | src/components/RichTextEditor.js:92-93 | non-empty output starts with `<` and ends with `>`, so it never begins or ends with `'\n'` |
| ParagraphLemmas.OutputLinesAreParagraphs | src/components/RichTextEditor.js:92-93 | the output's `'\n'`-separated lines are exactly the wrapped paragraphs, one per surviving line, and none is `<p></p>` |
| ParagraphLemmas.BlocksIgnoreBlankLine | src/components/RichTextEditor.js:89-91 | a whitespace-only line between two line breaks contributes no paragraph |
| ParagraphLemmas.BlankLineIgnored | src/components/RichTextEditor.js:89-91 | inserting or removing a whitespace-only line between two lines changes neither the output nor `paragraphCount` |
| ParagraphLemmas.BlankFirstLineIgnored | src/components/RichTextEditor.js:89-91 | a whitespace-only first line changes neither the output nor `paragraphCount` |
| ParagraphLemmas.BlankLastLineIgnored | src/components/RichTextEditor.js:89-91 | a whitespace-only last line changes neither the output nor `paragraphCount` |
| ParagraphLemmas.BlocksConcat | src/components/RichTextEditor.js:89-91 | when `a` ends with `'\n'`, the paragraphs of `a + b` are those of `a` followed by those of `b` |
| ParagraphLemmas.ConvertConcat | src/components/RichTextEditor.js:88-93 | when `a` ends with `'\n'`, the output for `a + b` is the `'\n'`-join of the outputs for `a` and `b` with empty ones omitted, and the counts add |
| HtmlReader.ReadBack | src/components/RichTextEditor.js:88-93 | reading the output back as `<p>…</p>` lines gives exactly the trimmed non-empty lines, in order |
| OnePass.ConvertInOnePass | src/components/RichTextEditor.js:86-94 | a single scan that emits a paragraph at each line break produces the same output as the converter, early exit included |
| StatusBar.Utf16Length | src/components/RichTextEditor.js:258 | `content.length` counts UTF-16 code units: between the number of code points and twice that, and exactly the number of code points when none is above U+FFFF |
| StatusBar.Utf16LengthCounts | src/components/RichTextEditor.js:258 | `content.length` is the number of code points plus one for every code point above U+FFFF (the second half of its surrogate pair) |
| StatusBar.Utf16LengthIsCodePoints | src/components/RichTextEditor.js:258 | `content.length` equals the number of code points exactly when no code point is above U+FFFF |
| StatusBar.RenderLength | src/components/RichTextEditor.js:260 | the markup of n ≥ 1 paragraphs has length Σ(body length + 7) + (n − 1) |
| StatusBar.Footer | src/components/RichTextEditor.js:258-260 | the characters figure is the number of code points plus one per code point above U+FFFF (so exactly the number of code points for text without such code points), the paragraph figure is the number of paragraphs, the HTML length is 0 exactly when that figure is 0, and otherwise it is Σ(body length + 7) + (n − 1) |

## Left out

- React state and hooks (`useState`, `useRef`), the view-mode and language toggles and the label tables (src/components/RichTextEditor.js:5-84, 106-108): presentation state and static strings.
- `copyToClipboard` (src/components/RichTextEditor.js:100-104): an asynchronous browser clipboard call followed by an alert, which is foreign I/O.
- All JSX, the preview rendering through `dangerouslySetInnerHTML`, and the layout checks (src/components/RichTextEditor.js:112-293), apart from the three footer figures: UI and browser concerns.
- src/App.js: composition only, with no logic.
- Heading markers, HTML-fragment parsing, bold preservation and escaping: src/components/RichTextEditor.js:86-94 has none of them.
- JavaScript strings can hold lone surrogates, which Dafny's `char` cannot represent. The model's strings are sequences of Unicode scalar values. `Utf16Length` counts a code point above U+FFFF as the two units of its surrogate pair.
- `IsWs` follows the WhiteSpace and LineTerminator sets of current ECMAScript (Unicode 6.3 and later, so U+180E is not whitespace). Engines built on older Unicode tables may differ on that one code point.
