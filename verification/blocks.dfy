/** The block scanner `parse` and its sub-parsers `parseOrderedList`, `parseUnorderedList` and
    `parseBlockquote`, as pure functions over the lexed lines of the input. Each sub-parser
    returns what it collected together with the index of the first line it did not consume,
    which is where the source's cursor points after its final step back and the scanner's
    step forward. The scanner produces a sequence of blocks; rendering them to HTML is a
    separate step (module `Html`). */
module Blocks {
  import opened Options
  import opened Lines

  /** The two variants of the converter differ only in the blockquote colour directive and in
      the bytes that close a checkbox's `<input>` tag. */
  datatype Dialect = Dialect(colorDirectives: bool, orderedBoxEnd: string, unorderedBoxEnd: string)

  /** A list item: the blank lines since the previous item, the checkbox, the raw text. */
  datatype Item = Item(gap: nat, box: Checkbox, text: string)

  /** Number of blank lines among `ls[i..j]`. */
  function Blanks(ls: seq<Line>, i: nat, j: nat): nat
    requires i <= j <= |ls|
    decreases j - i
  {
    if i == j then 0 else (if ls[i].Blank() then 1 else 0) + Blanks(ls, i + 1, j)
  }

  function GapSum(items: seq<Item>): nat {
    if items == [] then 0 else items[0].gap + GapSum(items[1..])
  }

  /** What a list parser returns: the items, the blank lines after the last one, and the index of
      the first line it did not consume. */
  datatype ListRun = ListRun(items: seq<Item>, trailing: nat, next: nat)

  /** The list parser's loop from line `i` on, `gap` blank lines having been counted since the
      last item (or since the list began). It stops at the end of input or at the first line
      that is neither blank nor an item; what it consumed and how it counted is stated by
      `ListConsumes`, `ListItemCount` and `ListBlankCount`. */
  function ListFrom(kind: ListKind, ls: seq<Line>, i: nat, gap: nat): (r: ListRun)
    requires i <= |ls|
    ensures i <= r.next <= |ls|
    ensures r.next < |ls| ==> !ls[r.next].Blank() && ls[r.next].ItemOf(kind).None?
    decreases |ls| - i
  {
    if i == |ls| then ListRun([], gap, i)
    else if ls[i].Blank() then ListFrom(kind, ls, i + 1, gap + 1)
    else match ls[i].ItemOf(kind)
      case Some(e) =>
        var rest := ListFrom(kind, ls, i + 1, 0);
        var items := [Item(gap, e.box, e.text)] + rest.items;
        assert items[1..] == rest.items;
        ListRun(items, rest.trailing, rest.next)
      case None => ListRun([], gap, i)
  }

  /** Every line the list parser consumes is blank or an item. */
  lemma {:induction false} ListConsumes(kind: ListKind, ls: seq<Line>, i: nat, gap: nat)
    requires i <= |ls|
    ensures forall k :: i <= k < ListFrom(kind, ls, i, gap).next ==> ls[k].Blank() || ls[k].ItemOf(kind).Some?
    decreases |ls| - i
  {
    if i < |ls| && (ls[i].Blank() || ls[i].ItemOf(kind).Some?) {
      ListConsumes(kind, ls, i + 1, if ls[i].Blank() then gap + 1 else 0);
    }
  }

  /** Each non-blank line consumed becomes exactly one item. */
  lemma {:induction false} ListItemCount(kind: ListKind, ls: seq<Line>, i: nat, gap: nat)
    requires i <= |ls|
    ensures var r := ListFrom(kind, ls, i, gap);
            |r.items| + Blanks(ls, i, r.next) == r.next - i
    decreases |ls| - i
  {
    if i < |ls| && (ls[i].Blank() || ls[i].ItemOf(kind).Some?) {
      ListItemCount(kind, ls, i + 1, if ls[i].Blank() then gap + 1 else 0);
    }
  }

  /** Each blank line consumed is counted once: in the gap of the item after it, or among the
      trailing blank lines. */
  lemma {:induction false} ListBlankCount(kind: ListKind, ls: seq<Line>, i: nat, gap: nat)
    requires i <= |ls|
    ensures var r := ListFrom(kind, ls, i, gap);
            GapSum(r.items) + r.trailing == gap + Blanks(ls, i, r.next)
    decreases |ls| - i
  {
    var r := ListFrom(kind, ls, i, gap);
    if i < |ls| && ls[i].Blank() {
      ListBlankCount(kind, ls, i + 1, gap + 1);
    } else if i < |ls| && ls[i].ItemOf(kind).Some? {
      ListBlankCount(kind, ls, i + 1, 0);
      assert r.items[1..] == ListFrom(kind, ls, i + 1, 0).items;
    }
  }

  /** One step of the list parser's loop on a blank line. */
  lemma ListBlankStep(kind: ListKind, ls: seq<Line>, i: nat, gap: nat)
    requires i < |ls| && ls[i].Blank()
    ensures ListFrom(kind, ls, i, gap) == ListFrom(kind, ls, i + 1, gap + 1)
  {
  }

  /** One step of the list parser's loop on an item line: the item takes the pending gap. */
  lemma ListItemStep(kind: ListKind, ls: seq<Line>, i: nat, gap: nat, found: seq<Item>)
    requires i < |ls| && !ls[i].Blank() && ls[i].ItemOf(kind).Some?
    ensures var e := ls[i].ItemOf(kind).value;
            var r := ListFrom(kind, ls, i, gap);
            var rest := ListFrom(kind, ls, i + 1, 0);
            && found + r.items == (found + [Item(gap, e.box, e.text)]) + rest.items
            && r.trailing == rest.trailing && r.next == rest.next
  {
  }

  /** The list parser's loop ends at the end of input or at a line that is neither blank nor an
      item, with the pending gap as the trailing blank lines. */
  lemma ListStop(kind: ListKind, ls: seq<Line>, i: nat, gap: nat)
    requires i <= |ls|
    requires i < |ls| ==> !ls[i].Blank() && ls[i].ItemOf(kind).None?
    ensures ListFrom(kind, ls, i, gap) == ListRun([], gap, i)
  {
  }

  /** Blank lines inside a list only add to the pending gap. */
  lemma {:induction false} SkipBlanks(kind: ListKind, ls: seq<Line>, i: nat, gap: nat, g: nat)
    requires i + g <= |ls|
    requires forall k :: i <= k < i + g ==> ls[k].Blank()
    ensures ListFrom(kind, ls, i, gap) == ListFrom(kind, ls, i + g, gap + g)
    decreases g
  {
    if g > 0 {
      SkipBlanks(kind, ls, i + 1, gap + 1, g - 1);
    }
  }

  /** `g` blank lines and then an item line: the item's gap counts exactly those `g` lines, and
      the rest of the list is parsed afresh after the item. */
  lemma ListItemAfterBlanks(kind: ListKind, ls: seq<Line>, i: nat, gap: nat, g: nat)
    requires i + g < |ls|
    requires forall k :: i <= k < i + g ==> ls[k].Blank()
    requires !ls[i + g].Blank() && ls[i + g].ItemOf(kind).Some?
    ensures var e := ls[i + g].ItemOf(kind).value;
            var rest := ListFrom(kind, ls, i + g + 1, 0);
            ListFrom(kind, ls, i, gap) == ListRun([Item(gap + g, e.box, e.text)] + rest.items, rest.trailing, rest.next)
  {
    SkipBlanks(kind, ls, i, gap, g);
  }

  /** `g` blank lines and then the end of input or a line that is not an item: the list ends
      there, and those `g` lines are its trailing blank lines. */
  lemma ListEndAfterBlanks(kind: ListKind, ls: seq<Line>, i: nat, gap: nat, g: nat)
    requires i + g <= |ls|
    requires forall k :: i <= k < i + g ==> ls[k].Blank()
    requires i + g < |ls| ==> !ls[i + g].Blank() && ls[i + g].ItemOf(kind).None?
    ensures ListFrom(kind, ls, i, gap) == ListRun([], gap + g, i + g)
  {
    SkipBlanks(kind, ls, i, gap, g);
  }

  /** A list starts at an item line, so it consumes that line and its first item has no gap. */
  lemma FirstItemHasNoGap(kind: ListKind, ls: seq<Line>, i: nat)
    requires i < |ls| && !ls[i].Blank() && ls[i].ItemOf(kind).Some?
    ensures ListFrom(kind, ls, i, 0).next > i
    ensures |ListFrom(kind, ls, i, 0).items| >= 1
    ensures ListFrom(kind, ls, i, 0).items[0].gap == 0
  {
  }

  /** The content lines that a blockquote makes of `ls`: each `>` line with its marker removed;
      blank lines contribute nothing. */
  function QuoteContents(ls: seq<Line>): seq<string> {
    if ls == [] then []
    else (if ls[0].Quoted() then [ls[0].stripped] else []) + QuoteContents(ls[1..])
  }

  /** The blockquote parser's loop: `(content lines, next line)`. It consumes `>` lines and blank
      lines and stops at the first other line (`QuoteRestConsumes`). */
  function QuoteRest(ls: seq<Line>, i: nat): (r: (seq<string>, nat))
    requires i <= |ls|
    ensures i <= r.1 <= |ls|
    ensures r.1 < |ls| ==> !ls[r.1].Blank() && !ls[r.1].Quoted()
    decreases |ls| - i
  {
    if i == |ls| then ([], i)
    else if ls[i].Quoted() then
      var rest := QuoteRest(ls, i + 1);
      ([ls[i].stripped] + rest.0, rest.1)
    else if ls[i].Blank() then QuoteRest(ls, i + 1)
    else ([], i)
  }

  lemma {:induction false} QuoteRestConsumes(ls: seq<Line>, i: nat)
    requires i <= |ls|
    ensures forall k :: i <= k < QuoteRest(ls, i).1 ==> ls[k].Blank() || ls[k].Quoted()
    decreases |ls| - i
  {
    if i < |ls| && (ls[i].Quoted() || ls[i].Blank()) {
      QuoteRestConsumes(ls, i + 1);
    }
  }

  /** The blockquote parser's first step: the first line, with or without its directive. */
  lemma QuoteFirstStep(directives: bool, ls: seq<Line>, i: nat)
    requires i < |ls|
    ensures var rest := QuoteRest(ls, i + 1);
            QuoteFrom(directives, ls, i)
            == if directives then QuoteRun(ls[i].directive.0, [ls[i].directive.1] + rest.0, rest.1)
               else QuoteRun(None, [ls[i].stripped] + rest.0, rest.1)
  {
  }

  /** One step of the blockquote parser's loop on a `>` line. */
  lemma QuoteQuotedStep(ls: seq<Line>, i: nat, before: seq<string>)
    requires i < |ls| && ls[i].Quoted()
    ensures before + QuoteRest(ls, i).0 == (before + [ls[i].stripped]) + QuoteRest(ls, i + 1).0
    ensures QuoteRest(ls, i).1 == QuoteRest(ls, i + 1).1
  {
  }

  /** One step of the blockquote parser's loop on a blank line. */
  lemma QuoteBlankStep(ls: seq<Line>, i: nat)
    requires i < |ls| && ls[i].Blank()
    ensures QuoteRest(ls, i) == QuoteRest(ls, i + 1)
  {
  }

  /** The blockquote parser's loop ends at the end of input or at a line that is neither blank
      nor a `>` line. */
  lemma QuoteStop(ls: seq<Line>, i: nat)
    requires i <= |ls|
    requires i < |ls| ==> !ls[i].Blank() && !ls[i].Quoted()
    ensures QuoteRest(ls, i) == ([], i)
  {
  }

  /** The contents collected by the loop are exactly the marker-stripped `>` lines it consumed,
      in order: blank lines inside or after a blockquote produce nothing. */
  lemma {:induction false} QuoteRestContents(ls: seq<Line>, i: nat)
    requires i <= |ls|
    ensures QuoteRest(ls, i).0 == QuoteContents(ls[i..QuoteRest(ls, i).1])
    decreases |ls| - i
  {
    var r := QuoteRest(ls, i);
    if i < |ls| && (ls[i].Quoted() || ls[i].Blank()) {
      QuoteRestContents(ls, i + 1);
      assert ls[i..r.1][1..] == ls[i + 1..r.1];
    }
  }

  /** What the blockquote parser returns. */
  datatype QuoteRun = QuoteRun(color: Option<string>, lines: seq<string>, next: nat)

  /** The blockquote parser. The scanner calls it on a line whose trimmed form starts with `>`,
      which it consumes as the first content line; the colour directive, when the dialect has
      one, is looked for on that line only. What it collects is stated by `QuoteFromSpec`. */
  function QuoteFrom(directives: bool, ls: seq<Line>, i: nat): (r: QuoteRun)
    requires i < |ls|
    ensures i < r.next <= |ls|
    ensures r.next < |ls| ==> !ls[r.next].Blank() && !ls[r.next].Quoted()
  {
    var (color, first) := if directives then ls[i].directive else (None, ls[i].stripped);
    var (more, next) := QuoteRest(ls, i + 1);
    QuoteRun(color, [first] + more, next)
  }

  /** A blockquote holds its first line, with the directive taken off when the dialect has
      directives, and then exactly the marker-stripped `>` lines among the blank and `>` lines
      that follow it. */
  lemma QuoteFromSpec(directives: bool, ls: seq<Line>, i: nat)
    requires i < |ls|
    ensures var r := QuoteFrom(directives, ls, i);
            && (forall k :: i < k < r.next ==> ls[k].Blank() || ls[k].Quoted())
            && |r.lines| >= 1
            && r.lines[1..] == QuoteContents(ls[i + 1..r.next])
            && (directives ==> (r.color, r.lines[0]) == ls[i].directive)
            && (!directives ==> r.color.None? && r.lines[0] == ls[i].stripped)
  {
    QuoteRestConsumes(ls, i + 1);
    QuoteRestContents(ls, i + 1);
    var r := QuoteFrom(directives, ls, i);
    assert r.lines[1..] == QuoteRest(ls, i + 1).0;
  }

  /** A block of the output, before rendering. Text is kept raw: inline formatting is part of
      rendering. */
  datatype Block =
    | Blank
    | Rule
    | Heading(level: nat, text: string)
    | Paragraph(lines: seq<string>)
    | Quote(color: Option<string>, lines: seq<string>)
    | List(kind: ListKind, items: seq<Item>, trailing: nat)

  /** The scanner's result: the blocks, or the index of the line on which the source's scanner
      loops for ever (see `StuckAt`). */
  datatype Scan = Blocks(blocks: seq<Block>) | Stuck(line: nat)

  /** A list start line that the list parser's own item pattern rejects: the parser consumes
      nothing, its final step back lands the scanner on the same line, and the scanner calls
      the same parser again, for ever. Only a line terminator other than `\n` inside the
      line can cause this (`Lines.StartHasItem`). */
  predicate StuckAt(ls: seq<Line>, k: nat)
    requires k < |ls|
  {
    ls[k].kind.ListLine? && ls[k].ItemOf(ls[k].kind.kind).None?
  }

  /** The buffered paragraph lines, as zero or one block. */
  function Flush(para: seq<string>): seq<Block> {
    if para == [] then [] else [Paragraph(para)]
  }

  /** `done` followed by the result of the rest of the scan. */
  function Then(done: seq<Block>, rest: Scan): Scan {
    match rest
    case Blocks(bs) => Blocks(done + bs)
    case Stuck(k) => Stuck(k)
  }

  lemma ThenThen(a: seq<Block>, b: seq<Block>, rest: Scan)
    ensures Then(a, Then(b, rest)) == Then(a + b, rest)
  {
    if rest.Blocks? {
      assert a + (b + rest.blocks) == (a + b) + rest.blocks;
    }
  }

  /** The block that starts at line `i`, which is not a text line, and the line after it; `None`
      where the list parser consumes nothing (`StuckAt`). */
  function Step(d: Dialect, ls: seq<Line>, i: nat): (r: Option<(Block, nat)>)
    requires i < |ls| && !ls[i].kind.TextLine?
    ensures r.Some? ==> i < r.value.1 <= |ls|
    ensures r.None? ==> StuckAt(ls, i)
    ensures StuckAt(ls, i) && !ls[i].Blank() ==> r.None?
  {
    match ls[i].kind
    case BlankLine => Some((Blank, i + 1))
    case RuleLine => Some((Rule, i + 1))
    case HeadingLine(n, text) => Some((Heading(n, text), i + 1))
    case QuoteLine =>
      var q := QuoteFrom(d.colorDirectives, ls, i);
      Some((Quote(q.color, q.lines), q.next))
    case ListLine(kind) =>
      var l := ListFrom(kind, ls, i, 0);
      if l.next == i then None else Some((List(kind, l.items, l.trailing), l.next))
  }

  /** The scanner's loop from line `i` on, with the trimmed text lines `para` buffered: a text
      line joins the buffer; any other line flushes the buffer as a paragraph and adds the block
      it starts. A scan that does not finish stops at a line where the source loops for ever. */
  function ScanFrom(d: Dialect, ls: seq<Line>, i: nat, para: seq<string>): (r: Scan)
    requires i <= |ls|
    ensures r.Stuck? ==> i <= r.line < |ls| && StuckAt(ls, r.line)
    decreases |ls| - i
  {
    if i == |ls| then Blocks(Flush(para))
    else if ls[i].kind.TextLine? then ScanFrom(d, ls, i + 1, para + [ls[i].trimmed])
    else match Step(d, ls, i)
      case Some((b, next)) => Then(Flush(para) + [b], ScanFrom(d, ls, next, []))
      case None => Stuck(i)
  }

  /** The scanner's step on a text line. */
  lemma ScanTextStep(d: Dialect, ls: seq<Line>, i: nat, para: seq<string>)
    requires i < |ls| && ls[i].kind.TextLine?
    ensures ScanFrom(d, ls, i, para) == ScanFrom(d, ls, i + 1, para + [ls[i].trimmed])
  {
  }

  /** The scanner's step on a line that starts a block. */
  lemma ScanBlockStep(d: Dialect, ls: seq<Line>, i: nat, para: seq<string>)
    requires i < |ls| && !ls[i].kind.TextLine? && Step(d, ls, i).Some?
    ensures ScanFrom(d, ls, i, para)
            == Then(Flush(para) + [Step(d, ls, i).value.0], ScanFrom(d, ls, Step(d, ls, i).value.1, []))
  {
  }

  /** The scanner's step on a line where it would loop. */
  lemma ScanStuckStep(d: Dialect, ls: seq<Line>, i: nat, para: seq<string>)
    requires i < |ls| && !ls[i].kind.TextLine? && Step(d, ls, i).None?
    ensures ScanFrom(d, ls, i, para) == Stuck(i)
  {
  }

  /** At the end of input the buffered text is flushed. */
  lemma ScanEnd(d: Dialect, ls: seq<Line>, para: seq<string>)
    ensures ScanFrom(d, ls, |ls|, para) == Blocks(Flush(para))
  {
  }

  /** The block-level shape the scanner guarantees: headings of level one to four; paragraphs,
      blockquotes and lists that are never empty; no empty paragraph line; a list whose first
      item has no spacing gap; and never two paragraphs in a row, since a paragraph only ends
      at a line that starts some other block (or at the end of input). */
  predicate WellFormedBlock(b: Block) {
    match b
    case Heading(n, _) => 1 <= n <= 4
    case Paragraph(lines) => lines != [] && forall k :: 0 <= k < |lines| ==> lines[k] != []
    case Quote(_, lines) => lines != []
    case List(_, items, _) => items != [] && items[0].gap == 0
    case _ => true
  }

  predicate WellFormed(bs: seq<Block>) {
    forall k :: 0 <= k < |bs| ==>
      WellFormedBlock(bs[k]) && (k + 1 < |bs| ==> !(bs[k].Paragraph? && bs[k + 1].Paragraph?))
  }

  /** No blockquote carries a colour. */
  predicate Uncoloured(bs: seq<Block>) {
    forall k :: 0 <= k < |bs| ==> bs[k].Quote? ==> bs[k].color.None?
  }

  lemma FlushThenWellFormed(para: seq<string>, b: Block, rest: seq<Block>)
    requires forall k :: 0 <= k < |para| ==> para[k] != []
    requires WellFormedBlock(b) && !b.Paragraph?
    requires WellFormed(rest)
    ensures WellFormed(Flush(para) + [b] + rest)
  {
    var bs := Flush(para) + [b] + rest;
    var f := |Flush(para)|;
    assert forall k :: f < k < |bs| ==> bs[k] == rest[k - f - 1];
  }

  /** The block a consistent line starts is well-formed and is not a paragraph. */
  lemma StepWellFormed(d: Dialect, ls: seq<Line>, i: nat)
    requires i < |ls| && !ls[i].kind.TextLine? && Consistent(ls[i])
    requires Step(d, ls, i).Some?
    ensures WellFormedBlock(Step(d, ls, i).value.0) && !Step(d, ls, i).value.0.Paragraph?
  {
    match ls[i].kind
    case QuoteLine =>
      QuoteFromSpec(d.colorDirectives, ls, i);
    case ListLine(kind) =>
      FirstItemHasNoGap(kind, ls, i);
    case _ =>
  }

  /** Every scan that finishes, from any buffered paragraph text, yields well-formed blocks. */
  lemma {:induction false} ScanWellFormed(d: Dialect, ls: seq<Line>, i: nat, para: seq<string>)
    requires i <= |ls|
    requires forall k :: i <= k < |ls| ==> Consistent(ls[k])
    requires forall k :: 0 <= k < |para| ==> para[k] != []
    ensures ScanFrom(d, ls, i, para).Blocks? ==> WellFormed(ScanFrom(d, ls, i, para).blocks)
    decreases |ls| - i
  {
    if i < |ls| {
      if ls[i].kind.TextLine? {
        ScanWellFormed(d, ls, i + 1, para + [ls[i].trimmed]);
      } else if Step(d, ls, i).Some? {
        var (b, next) := Step(d, ls, i).value;
        StepWellFormed(d, ls, i);
        ScanWellFormed(d, ls, next, []);
        if ScanFrom(d, ls, next, []).Blocks? {
          FlushThenWellFormed(para, b, ScanFrom(d, ls, next, []).blocks);
        }
      }
    }
  }

  /** Without colour directives no blockquote gets a colour. */
  lemma {:induction false} ScanUncoloured(d: Dialect, ls: seq<Line>, i: nat, para: seq<string>)
    requires i <= |ls|
    requires !d.colorDirectives
    ensures ScanFrom(d, ls, i, para).Blocks? ==> Uncoloured(ScanFrom(d, ls, i, para).blocks)
    decreases |ls| - i
  {
    if i < |ls| {
      if ls[i].kind.TextLine? {
        ScanUncoloured(d, ls, i + 1, para + [ls[i].trimmed]);
      } else if Step(d, ls, i).Some? {
        var (b, next) := Step(d, ls, i).value;
        if ls[i].kind == QuoteLine {
          QuoteFromSpec(d.colorDirectives, ls, i);
        }
        ScanUncoloured(d, ls, next, []);
        var r := ScanFrom(d, ls, i, para);
        assert r.Blocks? ==> r.blocks == Flush(para) + [b] + ScanFrom(d, ls, next, []).blocks;
      }
    }
  }

  /** The trimmed texts of `ls`, in order. */
  function Texts(ls: seq<Line>): seq<string> {
    if ls == [] then [] else [ls[0].trimmed] + Texts(ls[1..])
  }

  /** A run of text lines only adds their trimmed texts to the buffered paragraph: consecutive
      text lines become one paragraph. */
  lemma {:induction false} ParagraphRun(d: Dialect, ls: seq<Line>, i: nat, j: nat, para: seq<string>)
    requires i <= j <= |ls|
    requires forall k :: i <= k < j ==> ls[k].kind == TextLine
    ensures ScanFrom(d, ls, i, para) == ScanFrom(d, ls, j, para + Texts(ls[i..j]))
    decreases j - i
  {
    if i == j {
      assert para + Texts(ls[i..j]) == para;
    } else {
      ParagraphRun(d, ls, i + 1, j, para + [ls[i].trimmed]);
      assert ls[i..j][1..] == ls[i + 1..j];
      assert para + Texts(ls[i..j]) == para + [ls[i].trimmed] + Texts(ls[i + 1..j]);
    }
  }
}
