/** The converter as its source writes it: one cursor over the lines, advanced by the scanner
    and by the list and blockquote parsers, each of which steps back once before returning so
    that the scanner's own step forward lands on the first line they did not consume. The
    methods push HTML fragments as they go and are proved to compute `Html.Parse`. */
module Cursor {
  import opened Options
  import opened Text
  import opened Inline
  import opened Lines
  import opened Blocks
  import opened Html

  /** The items found so far, in front of what the list parser's loop finds from here on. */
  function Glue(found: seq<Item>, rest: ListRun): ListRun {
    ListRun(found + rest.items, rest.trailing, rest.next)
  }

  /** The lines collected so far, in front of what the blockquote parser's loop collects from
      here on. */
  function Gather(color: Option<string>, contents: seq<string>, rest: (seq<string>, nat)): QuoteRun {
    QuoteRun(color, contents + rest.0, rest.1)
  }

  /** `parseOrderedList` and `parseUnorderedList`, started on line `start`: the list's HTML and
      the cursor after the final step back, one before the first line not consumed. */
  method ParseList(d: Dialect, kind: ListKind, lines: seq<Line>, start: nat) returns (html: string, cursor: int)
    requires start <= |lines|
    ensures var l := ListFrom(kind, lines, start, 0);
            && cursor == l.next - 1
            && html == RenderBlock(d, List(kind, l.items, l.trailing))
  {
    var items: seq<string> := [];
    ghost var found: seq<Item> := [];
    var emptyLineCount: nat := 0;
    var index := start;
    while index < |lines|
      invariant start <= index <= |lines|
      invariant items == RenderItems(d, kind, found)
      invariant ListFrom(kind, lines, start, 0) == Glue(found, ListFrom(kind, lines, index, emptyLineCount))
      decreases |lines| - index
    {
      if lines[index].Blank() {
        ListBlankStep(kind, lines, index, emptyLineCount);
        emptyLineCount := emptyLineCount + 1;
        index := index + 1;
        continue;
      }
      var entry := lines[index].ItemOf(kind);
      if entry.None? {
        break;
      }
      var item := Item(emptyLineCount, entry.value.box, entry.value.text);
      ListItemStep(kind, lines, index, emptyLineCount, found);
      RenderItemsSnoc(d, kind, found, item);
      items := items + [RenderItem(d, kind, item)];
      found := found + [item];
      emptyLineCount := 0;
      index := index + 1;
    }
    html := CloseList(d, kind, lines, start, items, found, emptyLineCount, index);
    cursor := index - 1;
  }

  /** The list parser's end, once its loop has stopped at `index`: the list element around the
      items' fragments, then one `<br>` per trailing blank line. */
  method CloseList(d: Dialect, kind: ListKind, lines: seq<Line>, start: nat, items: seq<string>,
                   ghost found: seq<Item>, emptyLineCount: nat, index: nat) returns (html: string)
    requires start <= index <= |lines|
    requires index < |lines| ==> !lines[index].Blank() && lines[index].ItemOf(kind).None?
    requires items == RenderItems(d, kind, found)
    requires ListFrom(kind, lines, start, 0) == Glue(found, ListFrom(kind, lines, index, emptyLineCount))
    ensures var l := ListFrom(kind, lines, start, 0);
            && index == l.next
            && html == RenderBlock(d, List(kind, l.items, l.trailing))
  {
    ListStop(kind, lines, index, emptyLineCount);
    assert found + [] == found;
    ghost var l := ListFrom(kind, lines, start, 0);
    assert l.items == found && l.trailing == emptyLineCount && l.next == index;
    var breaks := "";
    if emptyLineCount > 0 {
      breaks := "\n" + Repeat("<br>\n", emptyLineCount);
    }
    assert breaks == TrailingBreaks(emptyLineCount);
    html := ListMarkup(ListTag(kind), items, breaks);
    RenderList(d, kind, found, emptyLineCount, items, breaks);
  }

  /** `parseBlockquote`, started on a `>` line: the blockquote's HTML and the cursor after the
      final step back. The colour directive is read on the first line only. */
  method ParseBlockquote(d: Dialect, lines: seq<Line>, start: nat) returns (html: string, cursor: int)
    requires start < |lines| && lines[start].Quoted()
    ensures var q := QuoteFrom(d.colorDirectives, lines, start);
            && cursor == q.next - 1
            && html == RenderBlock(d, Quote(q.color, q.lines))
  {
    var formatted: seq<string> := [];
    ghost var contents: seq<string> := [];
    var borderColor: Option<string> := None;
    var firstLine := true;
    var index := start;
    while index < |lines|
      invariant start <= index <= |lines|
      invariant firstLine <==> index == start
      invariant firstLine ==> contents == [] && borderColor.None?
      invariant formatted == FormatAll(contents)
      invariant !firstLine ==> QuoteFrom(d.colorDirectives, lines, start) == Gather(borderColor, contents, QuoteRest(lines, index))
      decreases |lines| - index
    {
      if lines[index].Quoted() {
        var content := lines[index].stripped;
        if firstLine {
          if d.colorDirectives {
            borderColor := lines[index].directive.0;
            content := lines[index].directive.1;
          }
          firstLine := false;
          QuoteFirstStep(d.colorDirectives, lines, index);
          assert contents + [content] == [content];
        } else {
          QuoteQuotedStep(lines, index, contents);
        }
        FormatAllSnoc(contents, content);
        formatted := formatted + [Format(content)];
        contents := contents + [content];
        index := index + 1;
      } else if lines[index].Blank() {
        QuoteBlankStep(lines, index);
        index := index + 1;
      } else {
        break;
      }
    }
    QuoteStop(lines, index);
    assert contents + [] == contents;
    ghost var q := QuoteFrom(d.colorDirectives, lines, start);
    assert q.color == borderColor && q.lines == contents && q.next == index;
    html := "<blockquote" + QuoteStyle(borderColor) + ">\n" + Join(formatted, "<br>\n") + "\n</blockquote>";
    RenderQuote(d, borderColor, contents);
    cursor := index - 1;
  }

  /** The scanner's handling of a line that is not text: the fragment of the block it starts
      and the cursor before the scanner's step forward. A cursor that does not move past `index`
      is the list parser having consumed nothing. */
  method ParseBlock(d: Dialect, lines: seq<Line>, index: nat) returns (fragment: string, cursor: int)
    requires index < |lines| && !lines[index].kind.TextLine?
    requires lines[index].kind == QuoteLine ==> lines[index].Quoted()
    ensures Step(d, lines, index).None? <==> cursor + 1 == index
    ensures Step(d, lines, index).Some? ==>
              && cursor + 1 == Step(d, lines, index).value.1
              && fragment == RenderBlock(d, Step(d, lines, index).value.0)
  {
    match lines[index].kind {
      case BlankLine =>
        fragment, cursor := "<br>", index;
      case RuleLine =>
        fragment, cursor := "<hr>", index;
      case HeadingLine(n, text) =>
        fragment := "<h" + Decimal(n) + ">" + Format(text) + "</h" + Decimal(n) + ">";
        cursor := index;
      case QuoteLine =>
        fragment, cursor := ParseBlockquote(d, lines, index);
      case ListLine(kind) =>
        fragment, cursor := ParseList(d, kind, lines, index);
    }
  }

  /** `parse`: the scanner's loop over the lines of `markdown`, pushing one HTML fragment per
      block and buffering text lines for the current paragraph. When a list parser consumes
      nothing the cursor comes back to the same line with an empty buffer, so the control state
      repeats: the source pushes another empty list fragment on every turn and never returns.
      The method reports that state instead. */
  method ParseMarkdown(d: Dialect, markdown: string) returns (out: Outcome)
    ensures out == Parse(d, markdown)
  {
    var raws := Split(markdown);
    var lines := LexAll(raws);
    forall k | 0 <= k < |lines|
      ensures lines[k].kind == QuoteLine ==> lines[k].Quoted()
    {
      LexAllAt(raws, k);
      QuotedIsQuoteLine(raws[k]);
    }
    out := ScanLines(d, lines);
  }

  /** The scanner's loop over lexed lines. */
  method ScanLines(d: Dialect, lines: seq<Line>) returns (out: Outcome)
    requires forall k :: 0 <= k < |lines| ==> lines[k].kind == QuoteLine ==> lines[k].Quoted()
    ensures out == Render(d, ScanFrom(d, lines, 0, []))
  {
    var html: seq<string> := [];
    ghost var done: seq<Block> := [];
    var paragraphLines: seq<string> := [];
    var index := 0;
    while index < |lines|
      invariant 0 <= index <= |lines|
      invariant html == Fragments(d, done)
      invariant ScanFrom(d, lines, 0, []) == Then(done, ScanFrom(d, lines, index, paragraphLines))
      decreases |lines| - index
    {
      var line := lines[index];
      if line.kind.TextLine? {
        ScanTextStep(d, lines, index, paragraphLines);
        paragraphLines := paragraphLines + [line.trimmed];
        index := index + 1;
        continue;
      }
      var cursor;
      html, done, cursor := EmitBlock(d, lines, index, html, done, paragraphLines);
      if cursor + 1 == index {
        return Hangs(index);
      }
      paragraphLines := [];
      index := cursor + 1;
    }
    ScanEnd(d, lines, paragraphLines);
    html := Flushed(d, html, done, paragraphLines);
    done := done + Flush(paragraphLines);
    out := Html(Join(html, "\n"));
  }

  /** The scanner's handling of a line that starts a block: the buffered paragraph's fragment,
      then the block's. The cursor comes back as `index - 1` exactly when the scanner is stuck. */
  method EmitBlock(d: Dialect, lines: seq<Line>, index: nat, html: seq<string>, ghost done: seq<Block>,
                   paragraphLines: seq<string>)
    returns (out: seq<string>, ghost after: seq<Block>, cursor: int)
    requires index < |lines| && !lines[index].kind.TextLine?
    requires lines[index].kind == QuoteLine ==> lines[index].Quoted()
    requires html == Fragments(d, done)
    ensures cursor + 1 == index ==> ScanFrom(d, lines, index, paragraphLines) == Stuck(index)
    ensures cursor + 1 != index ==>
              && index < cursor + 1 <= |lines|
              && out == Fragments(d, after)
              && Then(done, ScanFrom(d, lines, index, paragraphLines)) == Then(after, ScanFrom(d, lines, cursor + 1, []))
  {
    out := Flushed(d, html, done, paragraphLines);
    var fragment;
    fragment, cursor := ParseBlock(d, lines, index);
    if cursor + 1 == index {
      ScanStuckStep(d, lines, index, paragraphLines);
      after := done;
      return;
    }
    ghost var (block, next) := Step(d, lines, index).value;
    ScanBlockStep(d, lines, index, paragraphLines);
    ThenThen(done, Flush(paragraphLines) + [block], ScanFrom(d, lines, next, []));
    assert done + (Flush(paragraphLines) + [block]) == done + Flush(paragraphLines) + [block];
    FragmentsAppend(d, done + Flush(paragraphLines), [block]);
    out := out + [fragment];
    after := done + Flush(paragraphLines) + [block];
  }

  /** The scanner's flush of its buffer: when text lines are pending, one paragraph fragment of
      them joined by spaces and formatted; otherwise nothing. */
  method Flushed(d: Dialect, html: seq<string>, ghost done: seq<Block>, paragraphLines: seq<string>) returns (r: seq<string>)
    requires html == Fragments(d, done)
    ensures r == Fragments(d, done + Flush(paragraphLines))
  {
    r := html;
    if |paragraphLines| > 0 {
      r := r + ["<p>" + Format(Join(paragraphLines, " ")) + "</p>"];
    }
    FragmentsAppend(d, done, Flush(paragraphLines));
    FlushFragments(d, paragraphLines);
  }
}
