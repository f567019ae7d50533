/** Rendering the scanned blocks to HTML, and `parse` itself: split on `\n`, scan, render each
    block to one fragment and join the fragments with `\n`. */
module Html {
  import opened Options
  import opened Seqs
  import opened Chars
  import opened Text
  import opened Inline
  import opened Lines
  import opened Blocks

  /** The plain-script converter: colour directives, and an ordered-list checkbox that ends in a
      space before `>`. */
  const Classic := Dialect(true, " > ", "> ")

  /** The Angular service: no colour directives, the same checkbox in both kinds of list. */
  const Service := Dialect(false, "> ", "> ")

  /** The class attribute that spaces an item by the blank lines before it. */
  function SpacingClass(gap: nat): (r: string)
    ensures r == "" <==> gap < 2
  {
    if gap >= 4 then " class=\"spacing-xlarge\""
    else if gap >= 3 then " class=\"spacing-large\""
    else if gap >= 2 then " class=\"spacing-medium\""
    else ""
  }

  /** More blank lines never give less space: the classes rise with the gap and stay at the
      largest from four blank lines on. */
  lemma SpacingSteps(gap: nat)
    ensures gap == 2 <==> SpacingClass(gap) == " class=\"spacing-medium\""
    ensures gap == 3 <==> SpacingClass(gap) == " class=\"spacing-large\""
    ensures gap >= 4 <==> SpacingClass(gap) == " class=\"spacing-xlarge\""
  {
  }

  function BoxEnd(d: Dialect, kind: ListKind): string {
    match kind
    case Ordered => d.orderedBoxEnd
    case Unordered => d.unorderedBoxEnd
  }

  /** The `<input>` element of a checkbox item, placed in front of the item's text. */
  function BoxMarkup(d: Dialect, kind: ListKind, box: Checkbox): string {
    match box
    case NoBox => ""
    case Box(checked) => "<input type=\"checkbox\" " + (if checked then "checked" else "") + BoxEnd(d, kind)
  }

  /** The two variants write the same checkbox markup except in ordered lists, where the
      plain-script converter has one more space before the closing `>`. */
  lemma BoxMarkupDialects(kind: ListKind, box: Checkbox)
    ensures kind == Unordered || box == NoBox ==> BoxMarkup(Classic, kind, box) == BoxMarkup(Service, kind, box)
    ensures kind == Ordered && box.Box? ==>
              var s := BoxMarkup(Service, kind, box);
              BoxMarkup(Classic, kind, box) == s[..|s| - 2] + " " + s[|s| - 2..]
  {
  }

  function RenderItem(d: Dialect, kind: ListKind, it: Item): string {
    "<li" + SpacingClass(it.gap) + ">" + BoxMarkup(d, kind, it.box) + Format(it.text) + "</li>"
  }

  function RenderItems(d: Dialect, kind: ListKind, items: seq<Item>): (r: seq<string>)
    ensures |r| == |items|
    ensures forall k :: 0 <= k < |items| ==> r[k] == RenderItem(d, kind, items[k])
  {
    seq(|items|, k requires 0 <= k < |items| => RenderItem(d, kind, items[k]))
  }

  lemma RenderItemsSnoc(d: Dialect, kind: ListKind, items: seq<Item>, item: Item)
    ensures RenderItems(d, kind, items + [item]) == RenderItems(d, kind, items) + [RenderItem(d, kind, item)]
  {
  }

  function ListTag(kind: ListKind): string {
    match kind
    case Ordered => "ol"
    case Unordered => "ul"
  }

  /** A list's trailing blank lines, each written as `<br>` on a line of its own. */
  function TrailingBreaks(n: nat): string {
    if n > 0 then "\n" + Repeat("<br>\n", n) else ""
  }

  function FormatAll(lines: seq<string>): (r: seq<string>)
    ensures |r| == |lines|
    ensures forall k :: 0 <= k < |lines| ==> r[k] == Format(lines[k])
  {
    seq(|lines|, k requires 0 <= k < |lines| => Format(lines[k]))
  }

  lemma FormatAllSnoc(lines: seq<string>, line: string)
    ensures FormatAll(lines + [line]) == FormatAll(lines) + [Format(line)]
  {
  }

  /** The style attribute of a blockquote with a recorded colour. */
  function QuoteStyle(color: Option<string>): string {
    match color
    case Some(c) => " style=\"border-left-color: " + c + ";\""
    case None => ""
  }

  /** The decimal digits of `n`. */
  function Decimal(n: nat): (r: string)
    ensures r != []
    ensures forall k :: 0 <= k < |r| ==> IsDigit(r[k])
  {
    if n < 10 then [('0' as int + n) as char] else Decimal(n / 10) + Decimal(n % 10)
  }

  function RenderBlock(d: Dialect, b: Block): string {
    match b
    case Blank => "<br>"
    case Rule => "<hr>"
    case Heading(n, text) => "<h" + Decimal(n) + ">" + Format(text) + "</h" + Decimal(n) + ">"
    case Paragraph(lines) => "<p>" + Format(Join(lines, " ")) + "</p>"
    case Quote(color, lines) =>
      "<blockquote" + QuoteStyle(color) + ">\n" + Join(FormatAll(lines), "<br>\n") + "\n</blockquote>"
    case List(kind, items, trailing) => ListMarkup(ListTag(kind), RenderItems(d, kind, items), TrailingBreaks(trailing))
  }

  /** The markup of a list: the list element around the items' fragments, one per line, then
      `breaks`. */
  function ListMarkup(tag: string, parts: seq<string>, breaks: string): string {
    "<" + tag + ">\n" + Join(parts, "\n") + "\n</" + tag + ">" + breaks
  }

  /** A list's fragment: its markup followed by one `<br>` line per trailing blank line. */
  lemma RenderList(d: Dialect, kind: ListKind, items: seq<Item>, trailing: nat, parts: seq<string>, breaks: string)
    requires parts == RenderItems(d, kind, items)
    requires breaks == if trailing > 0 then "\n" + Repeat("<br>\n", trailing) else ""
    ensures RenderBlock(d, List(kind, items, trailing)) == ListMarkup(ListTag(kind), parts, breaks)
  {
  }

  /** A blockquote's fragment: its formatted lines separated by breaks, with the colour style. */
  lemma RenderQuote(d: Dialect, color: Option<string>, lines: seq<string>)
    ensures RenderBlock(d, Quote(color, lines))
         == "<blockquote" + QuoteStyle(color) + ">\n" + Join(FormatAll(lines), "<br>\n") + "\n</blockquote>"
  {
  }

  /** One HTML fragment per block, in order. */
  function Fragments(d: Dialect, bs: seq<Block>): seq<string> {
    Map(BlockRenderer(d), bs)
  }

  /** `RenderBlock` for one dialect, as a function value. */
  function BlockRenderer(d: Dialect): Block -> string {
    (b: Block) => RenderBlock(d, b)
  }

  lemma FragmentsAppend(d: Dialect, a: seq<Block>, b: seq<Block>)
    ensures Fragments(d, a + b) == Fragments(d, a) + Fragments(d, b)
  {
    MapAppend(BlockRenderer(d), a, b);
  }

  /** A paragraph's lines are joined by one space and formatted once. */
  lemma RenderParagraph(d: Dialect, para: seq<string>)
    ensures RenderBlock(d, Paragraph(para)) == "<p>" + Format(Join(para, " ")) + "</p>"
  {
  }

  /** The buffered paragraph's fragment, if there is one. */
  lemma FlushFragments(d: Dialect, para: seq<string>)
    ensures Fragments(d, Flush(para)) == if |para| > 0 then ["<p>" + Format(Join(para, " ")) + "</p>"] else []
  {
    if |para| > 0 {
      MapSingle(BlockRenderer(d), Paragraph(para));
      RenderParagraph(d, para);
    }
  }

  /** What `parse` does with a markdown text: return HTML, or loop for ever with the cursor at a
      line (counted from zero) that the scanner takes for a list start but the list parser
      does not take for an item. */
  datatype Outcome = Html(text: string) | Hangs(line: nat)

  function Render(d: Dialect, scan: Scan): Outcome {
    match scan
    case Blocks(bs) => Html(Join(Fragments(d, bs), "\n"))
    case Stuck(k) => Hangs(k)
  }

  function Parse(d: Dialect, markdown: string): Outcome {
    Render(d, ScanFrom(d, LexAll(Split(markdown)), 0, []))
  }

  function ParseClassic(markdown: string): Outcome {
    Parse(Classic, markdown)
  }

  function ParseService(markdown: string): Outcome {
    Parse(Service, markdown)
  }

  /** Empty input is one empty line, which is written as a line break. */
  lemma EmptyIsBreak(d: Dialect)
    ensures Parse(d, "") == Html("<br>")
  {
    var ls := LexAll(Split(""));
    assert Split("") == [""];
    LexAllAt([""], 0);
    TrimSpec("");
    assert ls[0].kind == BlankLine;
    ScanEnd(d, ls, []);
    assert ScanFrom(d, ls, 0, []) == Blocks([Blank]);
    assert Fragments(d, [Blank]) == ["<br>"];
  }

  /** A blank line outside lists and blockquotes flushes the buffered paragraph and writes one
      line break, and the scan goes on with the next line. */
  lemma BlankLineBreak(d: Dialect, ls: seq<Line>, i: nat, para: seq<string>)
    requires i < |ls| && Consistent(ls[i]) && ls[i].Blank()
    ensures ScanFrom(d, ls, i, para) == Then(Flush(para) + [Blank], ScanFrom(d, ls, i + 1, []))
    ensures RenderBlock(d, Blank) == "<br>"
  {
    ScanBlockStep(d, ls, i, para);
  }

  /** The converter loops only on a line holding a line terminator other than `\n`: when `\n`
      is the only one in the input, `parse` always returns. */
  lemma NeverHangs(d: Dialect, markdown: string)
    requires OnlyNewlines(markdown)
    ensures Parse(d, markdown).Html?
  {
    if Parse(d, markdown).Hangs? {
      var k := Parse(d, markdown).line;
      HangsOnStrayBreak(d, markdown);
      SplitNoLineBreak(markdown);
      TrimNoLineBreak(Split(markdown)[k]);
      assert false;
    }
  }

  /** Where the converter loops, the line's trimmed text holds a line terminator other than
      `\n`. */
  lemma HangsOnStrayBreak(d: Dialect, markdown: string)
    requires Parse(d, markdown).Hangs?
    ensures var k := Parse(d, markdown).line;
            k < |Split(markdown)| && !NoLineBreak(Trim(Split(markdown)[k]))
  {
    var raws := Split(markdown);
    var ls := LexAll(raws);
    var scan := ScanFrom(d, ls, 0, []);
    assert scan.Stuck? && scan.line == Parse(d, markdown).line;
    var k := scan.line;
    assert StuckAt(ls, k);
    LexAllAt(raws, k);
    StuckNeedsBreak(raws[k]);
  }

  /** The blocks behind every HTML result are well-formed: in particular no list item renders
      a spacing class on the first item of its list, and paragraphs never follow each other. */
  lemma ParseWellFormed(d: Dialect, markdown: string)
    ensures var scan := ScanFrom(d, LexAll(Split(markdown)), 0, []);
            scan.Blocks? ==> WellFormed(scan.blocks)
  {
    var ls := LexAll(Split(markdown));
    forall k | 0 <= k < |ls|
      ensures Consistent(ls[k])
    {
      LexAllAt(Split(markdown), k);
      LexConsistent(Split(markdown)[k]);
    }
    ScanWellFormed(d, ls, 0, []);
  }

  /** The first item of every list is written without a spacing class. */
  lemma FirstItemUnspaced(d: Dialect, b: Block)
    requires b.List? && WellFormedBlock(b)
    ensures RenderItems(d, b.kind, b.items)[0][..4] == "<li>"
  {
    ItemOpens(d, b.kind, b.items[0]);
  }

  /** An item without spacing class opens with a bare `<li>`. */
  lemma ItemOpens(d: Dialect, kind: ListKind, it: Item)
    requires it.gap < 2
    ensures RenderItem(d, kind, it)[..4] == "<li>"
  {
    var open := "<li" + SpacingClass(it.gap) + ">";
    assert open == "<li>";
    var s := RenderItem(d, kind, it);
    assert s == open + BoxMarkup(d, kind, it.box) + Format(it.text) + "</li>";
    assert s[..4] == open;
  }

  /** The Angular service never writes a colour style on a blockquote. */
  lemma ServiceUncoloured(markdown: string)
    ensures var scan := ScanFrom(Service, LexAll(Split(markdown)), 0, []);
            scan.Blocks? ==> Uncoloured(scan.blocks)
  {
    ScanUncoloured(Service, LexAll(Split(markdown)), 0, []);
  }
}
