/** Concrete lines and texts, worked through the model. */
module Examples {
  import opened Options
  import opened Chars
  import opened Text
  import opened Patterns
  import opened Lines

  /** `- - -` is no rule (the rule pattern allows hyphens only) but starts an unordered list. */
  lemma SpacedHyphensAreAList()
    ensures Classify("- - -") == ListLine(Unordered)
  {
    assert !IsRule("- - -") by { assert "- - -"[1] == ' '; }
  }

  /** Five `#` are no heading: the level group takes at most four and the next character must
      be white space. */
  lemma FiveHashesAreText()
    ensures Classify("##### x") == TextLine
  {
    var t := "##### x";
    RunExact(t, 0, 5, IsHash);
    RunExact(t, 0, 0, IsDigit);
  }

  /** The checkbox pattern takes a lower-case `x` only. */
  lemma UpperCaseXIsNoBox()
    ensures MatchCheckbox("[X] a").None?
    ensures MatchCheckbox("[x] a") == Some((true, "a"))
  {
  }

  /** A carriage return inside an ordered item: the scanner's start test passes, but the item
      pattern's `.` refuses the `\r`, so the list parser takes nothing and the converter loops
      on that line (`Blocks.StuckAt`). */
  lemma CarriageReturnStuck()
    ensures Classify("1. a\rb") == ListLine(Ordered)
    ensures OrderedItem("1. a\rb").None?
  {
    var t := "1. a\rb";
    RunExact(t, 0, 0, IsHash);
    RunExact(t, 0, 1, IsDigit);
    RunExact(t, 2, 1, IsSpace);
    assert t[4] == '\r';
    assert BackOff(t, 2, 1) == BackOff(t, 2, 0);
  }

  /** A blockquote's first line `#ff00ff hello` (after its `>`) records the hex colour and keeps
      `hello` as the content. */
  lemma HexColorLine()
    ensures Directive("#ff00ff hello") == (Some("#ff00ff"), "hello")
  {
    var c := "#ff00ff hello";
    assert forall i :: 1 <= i < 7 ==> IsHexDigit(c[i]);
    RunExact(c, 7, 1, IsSpace);
    assert forall i :: 8 <= i < |c| ==> !IsLineBreak(c[i]);
    assert GreedySplit(c, 7) == Some(1);
    assert c[..7] == "#ff00ff" && c[8..] == "hello";
    assert HexDirective(c) == Some(("#ff00ff", "hello"));
    assert VarDirective("hello").None?;
  }

  /** A carriage return right after the marker is white space to `\s+`, so the item pattern
      still matches and the list parser takes the line. */
  lemma CarriageReturnAfterMarker()
    ensures OrderedItem("1.\r a") == Some("a")
  {
    var t := "1.\r a";
    RunExact(t, 0, 1, IsDigit);
    RunExact(t, 2, 2, IsSpace);
    assert t[4..] == "a";
  }
}
