# A Dafny model of the line-oriented Markdown converter

The repository converts Markdown to HTML with a small hand-written converter. It has two copies:
- the plain-script class `SimpleMarkdownParser` (`markdown-editor/parser.js`);
- the Angular service `MarkdownParserService` (`markdown-editor/angular/markdown-parser.service.ts`).

The two copies differ in exactly two places:
- only the plain-script class reads a colour directive on a blockquote's first line;
- the plain-script class writes an extra space before the `>` of the checkbox `<input>` in ordered lists.

The model is one converter parameterised by a `Dialect`. `Html.Classic` and `Html.Service` instantiate it for the two copies.

The converter has three parts: a block scanner, its sub-parsers, and an inline formatter. The modules follow its structure.

- `Text`: JavaScript's `trim`, `split('\n')`, `join` and `repeat` on `seq<char>`. The white-space set is that of JavaScript's `\s` and `trim`: the Unicode white space plus the line terminators.
- `Patterns`: every regular expression of the converter, written as a hand-coded matcher. Each matcher has a lemma that states:
  - which splits of the input the expression accepts;
  - which split JavaScript's greedy-then-backtrack search returns (`\s+(.+)$` gives `\s+` as many characters as it can while `(.+)$` still matches; `.` refuses `\n`, `\r`, U+2028 and U+2029).
- `Lines`: `Lex` runs every test of the scanner and of the sub-parsers on one line. The tests are the trim, the fixed classification order, the two item patterns with their checkbox, the `>` strip and the colour directive.
- `Blocks`: the scanner `parse` and its sub-parsers `parseOrderedList`, `parseUnorderedList` and `parseBlockquote`, as pure recursive functions. Each sub-parser returns its result and the index of the first line it did not consume.
- `Inline`: `parseInline`, a fixed pipeline of five global lazy substitutions `D(.+?)D`. Each one is modelled as a left-to-right scan: where `D` opens and a closing `D` follows at least one character later, the text up to the earliest such closing `D` is wrapped in the tag; everywhere else one character is copied.
- `Html`: rendering of the blocks, and `Parse`, the converter's result.
- `Cursor`: the source's imperative shape. One cursor runs over the lines, and the list and blockquote parsers each step it back once before returning. `Cursor.ParseMarkdown` is proved to compute `Html.Parse`.
- `Examples`: a few concrete lines worked through the model.
- `Options` and `Seqs`: the optional match result, and applying a function to every element of a sequence.

## Non-termination

The scanner decides that a line starts a list with `^\d+\.\s+` or `^[-*]\s+`. The list parser then requires `(.+)$` of the same line.

If `\r`, U+2028 or U+2029 occurs after the first non-white-space character that follows the marker, the item pattern fails (a terminator before it is taken by `\s+`) and the parser consumes nothing. Its `currentIndex--` then puts the scanner back on the same line, and the source loops for ever, pushing another empty list fragment on every turn.

The model does not exclude such input. `Parse` returns `Hangs(line)` in that case, and two lemmas pin it down:
- `Html.HangsOnStrayBreak` states that the line in question holds such a terminator;
- `Html.NeverHangs` states that input whose only line terminator is `\n` always yields HTML.

## Where the code and its evident intent differ

The model follows the code in both cases.

- **Empty input.** One might expect empty input to give an empty string. The code returns `<br>`, because splitting the empty string yields one empty line, and a blank line is written as `<br>` (`Html.EmptyIsBreak`).
- **Checkbox case.** The checkbox code lower-cases the captured marker before comparing it with `x` (markdown-editor/parser.js:136 and :192), which suggests an upper-case `X` was meant to count as checked. The pattern's class `[x ]` never lets `X` through, so `[X] a` stays literal text (`Examples.UpperCaseXIsNoBox`).

## Model

| member | source | states |
|---|---|---|
| Text.TrimSpec | markdown-editor/parser.js:23 | `trim` yields the empty string exactly for an all-white-space line. Otherwise it yields a contiguous slice that starts and ends with a non-space, with only white space cut on either side. |
| Text.JoinSplit | markdown-editor/parser.js:14 | Joining the pieces of `split('\n')` with `\n` gives back the input: no character is lost or added by the split. |
| Text.SplitJoin | markdown-editor/parser.js:14 | Splitting the `\n`-join of newline-free lines gives back exactly those lines. |
| Text.SplitNoLineBreak | markdown-editor/parser.js:14 | When `\n` is the input's only line terminator, no line after the split holds any terminator. |
| Patterns.BackOffSpec | markdown-editor/parser.js:128 | Backtracking a greedy `\s+` of `m` characters returns the longest valid split of at most `m`. It returns none exactly when no split up to `m` is valid. |
| Patterns.GreedySplitSpec | markdown-editor/parser.js:49 | `\s+(.+)$` at a position succeeds exactly when some valid split exists. The split returned is valid, and no valid split gives `\s+` more characters. |
| Patterns.MatchHeadingSpec | markdown-editor/parser.js:49-56 | `^(#{1,4})\s+(.+)$` matches exactly when some split exists. The level is then the whole run of `#`, and the text follows the greediest split. |
| Patterns.OrderedItemSpec | markdown-editor/parser.js:128-130 | `^(\d+)\.\s+(.+)$` matches exactly when some split after the digits and the dot exists. It then captures the text after the greediest split (the number is dropped), and a match implies the scanner's ordered-list test. |
| Patterns.UnorderedItemSpec | markdown-editor/parser.js:184-186 | `^[-*]\s+(.+)$` matches exactly when some split after the marker exists. It then captures the text after the greediest split, and a match implies the scanner's unordered-list test. |
| Patterns.StartIsItem | markdown-editor/parser.js:74 | On a trimmed line free of line terminators, the scanner's list-start tests imply the list parsers' item patterns. |
| Patterns.MatchCheckboxSpec | markdown-editor/parser.js:134-138 | The checkbox pattern matches exactly on `[x]` or `[ ]` followed by white space and non-empty text. The box is checked exactly when the marker is `x`, and the text follows the greediest split. |
| Patterns.StripQuoteMarkerSpec | markdown-editor/parser.js:234 | `replace(/^>\s*/, '')` removes a `>` only when it is the raw line's first character. It then also removes all white space after it; otherwise the line is kept whole. |
| Patterns.HexDirectiveSpec | markdown-editor/parser.js:239-243 | The hex directive matches exactly when `#`, six hexadecimal digits, white space and non-empty text follow one another. It yields the colour and the text after the greediest split. |
| Patterns.VarDirectiveSpec | markdown-editor/parser.js:246-250 | The custom-property directive matches exactly when `--`, one or more name characters, white space and text follow one another. The name is the whole run of name characters. |
| Lines.ClassifyPriority | markdown-editor/parser.js:26-96 | A trimmed line gets the kind of the first test it passes, in the order blank, rule, heading, `>`, ordered, unordered. It is text when it passes none. |
| Lines.ClassifyHeading | markdown-editor/parser.js:49-57 | A heading's level is its run of one to four `#`, and its text is what follows the greediest white-space split. |
| Lines.DirectiveSpec | markdown-editor/parser.js:237-253 | No colour is recorded exactly when neither directive matches, and then the content is kept whole. A hex directive alone gives its colour and the text after it; a custom-property directive alone gives `var(--name)` and the text after it. A recorded colour is `#` plus six hexadecimal digits, or `var(--name)`. |
| Lines.VarOverridesHex | markdown-editor/parser.js:246-250 | The custom-property form, tried on what the hex form left, overrides the hex colour and its text. |
| Lines.LexConsistent | markdown-editor/parser.js:26-57 | A line is classified blank exactly when it trims to nothing, and a heading's level is one to four. |
| Lines.QuotedIsQuoteLine | markdown-editor/parser.js:233 | The blockquote parser's `>` test agrees with the scanner's: no line that passes an earlier test starts with `>`. |
| Lines.StartHasItem | markdown-editor/parser.js:128 | A line that the scanner takes for a list start, and whose trimmed text holds no line terminator, matches that list parser's item pattern. |
| Lines.StuckNeedsBreak | markdown-editor/parser.js:165 | A list start rejected by its own item pattern holds a line terminator other than `\n` in its trimmed text. |
| Blocks.ListFrom | markdown-editor/parser.js:117-157 | The list parser's loop stops at the end of input or at the first line that is neither blank nor an item. |
| Blocks.ListConsumes | markdown-editor/parser.js:117-157 | Every line the list parser consumes is blank or matches its item pattern. |
| Blocks.ListItemCount | markdown-editor/parser.js:127-152 | Each non-blank line consumed becomes exactly one item. |
| Blocks.ListBlankCount | markdown-editor/parser.js:120-163 | Each blank line consumed is counted exactly once: in the gap of the next item, or among the trailing blank lines. |
| Blocks.SkipBlanks | markdown-editor/parser.js:120-125 | Blank lines inside a list only add to the pending gap. |
| Blocks.ListItemAfterBlanks | markdown-editor/parser.js:143-150 | An item after `g` blank lines carries a gap of exactly `g`, and the counter starts again from zero after it. |
| Blocks.ListEndAfterBlanks | markdown-editor/parser.js:155-163 | Blank lines at the end of a list are its trailing count, and the list ends after them. |
| Blocks.FirstItemHasNoGap | markdown-editor/parser.js:115-150 | A list that starts at an item line consumes it, and its first item has gap zero. |
| Blocks.QuoteRest | markdown-editor/parser.js:230-263 | The blockquote parser's loop stops at the end of input or at the first line that is neither blank nor starts with `>` once trimmed, never before the line it started on. |
| Blocks.QuoteRestConsumes | markdown-editor/parser.js:230-263 | Every line the blockquote parser consumes is blank or starts with `>` once trimmed. |
| Blocks.QuoteRestContents | markdown-editor/parser.js:233-259 | The blockquote's lines after the first are exactly the consumed `>` lines with their markers stripped, in order. Blank lines contribute nothing. |
| Blocks.QuoteFrom | markdown-editor/parser.js:225-265 | The blockquote parser always consumes its first line. It stops at the end of input or at a line that is neither blank nor a `>` line. |
| Blocks.QuoteFromSpec | markdown-editor/parser.js:230-263 | A blockquote holds its first line, with the directive taken off when the dialect reads directives; without directives it has no colour. The remaining lines are the stripped `>` lines consumed after the first. |
| Blocks.Step | markdown-editor/parser.js:26-93 | A block started by a non-text line consumes at least that line. There is no block only where the list parser's item pattern rejects the list start. |
| Blocks.ScanFrom | markdown-editor/parser.js:20-103 | The scan gets stuck only at a list start whose item pattern fails. |
| Blocks.ParagraphRun | markdown-editor/parser.js:95-97 | A run of text lines only appends their trimmed texts to the buffered paragraph. |
| Blocks.ScanWellFormed | markdown-editor/parser.js:20-103 | Every finished scan yields well-formed blocks: non-empty paragraphs of non-empty lines that never follow each other, headings of level one to four, lists whose first item has no gap, and blockquotes with at least one line. |
| Blocks.ScanUncoloured | markdown-editor/angular/markdown-parser.service.ts:217-237 | Without colour directives no blockquote gets a colour. |
| Html.SpacingClass | markdown-editor/parser.js:144-147 | An item gets no spacing class exactly when fewer than two blank lines precede it. |
| Html.SpacingSteps | markdown-editor/parser.js:145-147 | Two blank lines give `spacing-medium`, three give `spacing-large`, and four or more give `spacing-xlarge`, each exactly. |
| Html.BoxMarkupDialects | markdown-editor/angular/markdown-parser.service.ts:126-131 | The two copies write the same checkbox markup, except in ordered lists, where the plain-script class adds one space before the closing `> `. |
| Html.FlushFragments | markdown-editor/parser.js:101-103 | The buffered paragraph gives one `<p>` fragment of its lines joined by one space and formatted once, or nothing when the buffer is empty. |
| Html.BlankLineBreak | markdown-editor/parser.js:26-34 | A blank line at the top level flushes the paragraph, writes exactly one `<br>`, and the scan goes on with the next line. |
| Html.EmptyIsBreak | markdown-editor/parser.js:14 | Empty input gives `<br>`. |
| Html.NeverHangs | markdown-editor/parser.js:165 | When `\n` is the input's only line terminator, the converter always returns HTML. |
| Html.HangsOnStrayBreak | markdown-editor/parser.js:113-165 | Where the converter loops, the line's trimmed text holds a line terminator other than `\n`. |
| Html.ParseWellFormed | markdown-editor/parser.js:13-106 | The blocks behind every HTML result are well-formed (see `Blocks.ScanWellFormed`). |
| Html.FirstItemUnspaced | markdown-editor/parser.js:149 | The first item of every list is written as a bare `<li>`, without a spacing class. |
| Html.ServiceUncoloured | markdown-editor/angular/markdown-parser.service.ts:236 | The Angular service never writes a style on a blockquote. |
| Inline.FindCloseSpec | markdown-editor/parser.js:274 | The lazy group `(.+?)D` closes at the earliest delimiter that leaves at least one character of content free of line terminators. There is none exactly when no such delimiter exists. |
| Inline.ReplaceUnchanged | markdown-editor/parser.js:274-282 | A pass whose delimiter never occurs leaves the text unchanged. |
| Inline.ReplaceWrap | markdown-editor/parser.js:274 | A single span `D c D`, with `c` free of line terminators and of the delimiter's first character, becomes `<tag>c</tag>`. |
| Inline.ReplaceCopies | markdown-editor/parser.js:274-282 | Each global substitution copies unchanged all text before the first position where its delimiter occurs. |
| Inline.ReplaceEarliest | markdown-editor/parser.js:274-282 | At an occurrence of the delimiter, the lazy group `(.+?)` ends at the EARLIEST closing delimiter that leaves non-empty content without line terminators. The content is wrapped in the tag and the substitution resumes after that closing delimiter. |
| Inline.EarliestFound | markdown-editor/parser.js:274-282 | The search for a closing delimiter returns exactly the earliest position where the lazy group can close. |
| Inline.ReplaceNoClose | markdown-editor/parser.js:274-282 | Where no closing delimiter can end a group, the substitution copies one character and moves on, whether or not a delimiter opens there. |
| Inline.SpanUntouched | markdown-editor/parser.js:274-278 | A doubled-marker pass leaves a single-marker span alone, so `*a*` reaches the italic pass intact. |
| Inline.PlainPasses | markdown-editor/parser.js:274-282 | Each of the five passes leaves text with no `*`, `_` or `~` alone. |
| Inline.FormatPlain | markdown-editor/parser.js:272-285 | Text with no `*`, `_` or `~` comes out of the formatter unchanged. |
| Inline.FormatBoldStars | markdown-editor/parser.js:274 | `**c**` becomes exactly `<strong>c</strong>`, for non-empty `c` free of `*`, `_`, `~` and line terminators. |
| Inline.FormatBoldUnderscores | markdown-editor/parser.js:275 | `__c__` becomes exactly `<strong>c</strong>`, for non-empty `c` free of `*`, `_`, `~` and line terminators. |
| Inline.FormatItalicStar | markdown-editor/parser.js:278 | `*c*` becomes exactly `<em>c</em>`, for non-empty `c` free of `*`, `_`, `~` and line terminators. |
| Inline.FormatItalicUnderscore | markdown-editor/parser.js:279 | `_c_` becomes exactly `<em>c</em>`, for non-empty `c` free of `*`, `_`, `~` and line terminators. |
| Inline.FormatStrike | markdown-editor/parser.js:282 | `~~c~~` becomes exactly `<del>c</del>`, for non-empty `c` free of `*`, `_`, `~` and line terminators. |
| Cursor.ParseList | markdown-editor/parser.js:113-167 | The list parser's HTML is the rendering of `Blocks.ListFrom`'s items and trailing blank lines. Its cursor is left one before the first line not consumed. |
| Cursor.CloseList | markdown-editor/parser.js:159-163 | After the loop, the list element around the items' fragments plus one `<br>` line per trailing blank line is the list's rendering. |
| Cursor.ParseBlockquote | markdown-editor/parser.js:225-270 | The blockquote parser's HTML is the rendering of `Blocks.QuoteFrom`'s colour and lines. Its cursor is left one before the first line not consumed. |
| Cursor.ParseBlock | markdown-editor/parser.js:37-93 | The scanner's handling of a non-text line gives the fragment of the block `Blocks.Step` finds. The cursor stays before the line exactly when the list parser consumed nothing. |
| Cursor.EmitBlock | markdown-editor/parser.js:64-81 | The paragraph is flushed before the block's fragment is pushed, and the scan resumes at the first line the sub-parser did not consume. |
| Cursor.Flushed | markdown-editor/parser.js:101-103 | Pushing the buffered paragraph, if any, appends that paragraph's fragment. |
| Cursor.ScanLines | markdown-editor/parser.js:20-105 | The scanner's cursor loop computes the rendering of `Blocks.ScanFrom`. |
| Cursor.ParseMarkdown | markdown-editor/parser.js:13-106 | `parse` computes `Html.Parse`: HTML for every input on which it returns, `Hangs` where it loops. |
| Examples.SpacedHyphensAreAList | markdown-editor/parser.js:38-93 | `- - -` is no rule but an unordered list start. |
| Examples.FiveHashesAreText | markdown-editor/parser.js:49 | `##### x` is text, not a heading. |
| Examples.UpperCaseXIsNoBox | markdown-editor/parser.js:134 | `[X] a` has no checkbox; `[x] a` is a checked box with text `a`. |
| Examples.CarriageReturnStuck | markdown-editor/parser.js:128 | `1. a\rb` passes the scanner's ordered-list test, but the item pattern rejects it. |
| Examples.CarriageReturnAfterMarker | markdown-editor/parser.js:128 | `1.\r a` matches the item pattern with text `a`: a carriage return straight after the marker is taken as white space. |
| Examples.HexColorLine | markdown-editor/parser.js:239-244 | The first blockquote line `#ff00ff hello` records the colour `#ff00ff` and keeps `hello` as its content. |

## Left out

- The editor around the converter is not part of this model: the DOM handling of `markdown-editor/script.js` and the Angular component `markdown-editor.component.ts` (events, clipboard, local storage, debouncing, sanitizer bypass). It is user-interface glue with no computed result.
- `grid-layout/js/index.js` and `mobile-navigation/script.js` toggle CSS classes and ARIA attributes only.
- The global instance `window.markdownParser` and the unused `parseLine` stub, which returns `null`, are not modelled. `parse` is modelled as a pure function of its input.
- Mutable parser state (`this.lines`, `this.currentIndex`) is modelled as parameters and results. The `Cursor` methods keep the cursor as a local variable.
- Only the converter's own regular expressions are modelled, each hand-coded. There is no general regular-expression engine.
- Strings are sequences of characters. JavaScript's UTF-16 code units and surrogate pairs are not distinguished, and the white-space set is fixed as that of ECMAScript's `\s` and `trim`.
- HTML escaping: the converter escapes nothing, and neither does the model.
- Blocks.Step: the converse of "no block implies a stuck list start" is stated only for non-blank lines. A lexed blank line is never a list start (`Lines.LexConsistent`), so nothing is lost for lines produced by `Lines.Lex`.
- Inline.FormatBoldStars: stated for a span whose content is non-empty and holds no `*`, `_`, `~` or line terminator. Nested or overlapping spans (`*a_b_c*` gives `<em>a<em>b</em>c</em>`) follow from `Inline.Replace`'s definition but are not stated, nor is content such as `a*b` that the source would still wrap.
- Inline.FormatBoldUnderscores: the same restriction as `Inline.FormatBoldStars`; `__a*b__`, which the source wraps as `<strong>a*b</strong>`, is not covered.
- Inline.FormatItalicStar: the same restriction as `Inline.FormatBoldStars`; content holding `_` or `~` is not covered.
- Inline.FormatItalicUnderscore: the same restriction as `Inline.FormatBoldStars`; content holding `*` or `~` is not covered.
- Inline.FormatStrike: the same restriction as `Inline.FormatBoldStars`; content holding `*` or `_` is not covered.
