/** One line of input as the converter's tests see it. The scanner and its sub-parsers test the
    same line again and again (`trim()`, the heading, list and checkbox patterns, the `>` test);
    `Lex` runs every such test once and the parsers read its verdicts. */
module Lines {
  import opened Options
  import opened Seqs
  import opened Chars
  import opened Text
  import opened Patterns

  datatype ListKind = Ordered | Unordered

  /** What the scanner makes of a trimmed line, by its fixed order of tests. */
  datatype LineKind =
    | BlankLine
    | RuleLine
    | HeadingLine(level: nat, text: string)
    | QuoteLine
    | ListLine(kind: ListKind)
    | TextLine

  function Classify(t: string): LineKind {
    if t == [] then BlankLine
    else if IsRule(t) then RuleLine
    else match MatchHeading(t)
      case Some((n, text)) => HeadingLine(n, text)
      case None =>
        if t[0] == '>' then QuoteLine
        else if IsOrderedStart(t) then ListLine(Ordered)
        else if IsUnorderedStart(t) then ListLine(Unordered)
        else TextLine
  }

  /** The six tests of the scanner, in the order it tries them. */
  datatype Test = BlankTest | RuleTest | HeadingTest | QuoteTest | OrderedTest | UnorderedTest

  const Tests: seq<Test> := [BlankTest, RuleTest, HeadingTest, QuoteTest, OrderedTest, UnorderedTest]

  /** The regular expression (or string test) of `test` matches the trimmed line `t`. */
  ghost predicate Passes(test: Test, t: string) {
    match test
    case BlankTest => t == []
    case RuleTest => |t| >= 3 && forall i :: 0 <= i < |t| ==> t[i] == '-'
    case HeadingTest => exists n: nat, m: nat :: HeadingSplit(t, n, m)
    case QuoteTest => |t| > 0 && t[0] == '>'
    case OrderedTest => IsOrderedStart(t)
    case UnorderedTest => IsUnorderedStart(t)
  }

  /** The position in `Tests` of the test that yields `k`; a text line comes after all of them. */
  function Rank(k: LineKind): nat {
    match k
    case BlankLine => 0
    case RuleLine => 1
    case HeadingLine(_, _) => 2
    case QuoteLine => 3
    case ListLine(Ordered) => 4
    case ListLine(Unordered) => 5
    case TextLine => 6
  }

  /** A line is given the kind of the FIRST test it passes, and is text when it passes none. */
  lemma ClassifyPriority(t: string)
    ensures Rank(Classify(t)) <= |Tests|
    ensures Rank(Classify(t)) < |Tests| ==> Passes(Tests[Rank(Classify(t))], t)
    ensures forall j :: 0 <= j < Rank(Classify(t)) ==> !Passes(Tests[j], t)
  {
    var k := Classify(t);
    MatchHeadingSpec(t);
    if k.HeadingLine? {
      var m :| HeadingSplit(t, k.level, m) && Greediest(t, k.level, m) && k.text == t[k.level + m..];
      assert Passes(HeadingTest, t);
    }
    forall j | 0 <= j < Rank(k)
      ensures !Passes(Tests[j], t)
    {
      if j == 0 {
        assert t != [];
      } else if j == 1 {
        assert !IsRule(t);
      } else if j == 2 {
        assert MatchHeading(t).None?;
      } else if j == 3 {
        assert t[0] != '>';
      } else if j == 4 {
        assert !IsOrderedStart(t);
      }
    }
  }

  /** A heading's level is its run of one to four `#`, and its text what follows the greediest
      white-space split. */
  lemma ClassifyHeading(t: string)
    requires Classify(t).HeadingLine?
    ensures 1 <= Classify(t).level <= 4
    ensures forall i :: 0 <= i < Classify(t).level ==> t[i] == '#'
    ensures exists m: nat :: SpaceSplit(t, Classify(t).level, m) && Greediest(t, Classify(t).level, m)
                             && Classify(t).text == t[Classify(t).level + m..]
  {
    MatchHeadingSpec(t);
  }

  /** A checkbox in front of an item's text. */
  datatype Checkbox = NoBox | Box(checked: bool)

  /** What a list parser takes from an item line: the checkbox, if any, and the text. */
  datatype Entry = Entry(box: Checkbox, text: string)

  /** The entry for the text `content` captured by an item pattern: the checkbox pattern, when it
      matches, takes the marker off. */
  function MakeEntry(content: string): Entry {
    match MatchCheckbox(content)
    case Some((checked, text)) => Entry(Box(checked), text)
    case None => Entry(NoBox, content)
  }

  function EntryOf(captured: Option<string>): Option<Entry> {
    match captured
    case Some(content) => Some(MakeEntry(content))
    case None => None
  }

  /** The verdicts of every test on one line. `quoted` is the blockquote parser's test, which is
      the scanner's `>` test without the earlier ones; `stripped` is the raw line after
      the `>` marker is removed; `directive` is the colour directive tried on `stripped`. */
  datatype Line = Line(
    raw: string,
    trimmed: string,
    kind: LineKind,
    ordered: Option<Entry>,
    unordered: Option<Entry>,
    stripped: string,
    directive: (Option<string>, string))
  {
    predicate Blank() { trimmed == [] }

    predicate Quoted() { trimmed != [] && trimmed[0] == '>' }

    /** The item pattern of the parser for lists of `k`. */
    function ItemOf(k: ListKind): Option<Entry> {
      match k
      case Ordered => ordered
      case Unordered => unordered
    }
  }

  /** A colour recorded from `#` and six hexadecimal digits. */
  predicate IsHexColor(c: string) {
    |c| == 7 && c[0] == '#' && forall i :: 1 <= i < 7 ==> IsHexDigit(c[i])
  }

  /** A colour recorded from a custom property: `var(--name)`. */
  predicate IsVarColor(c: string) {
    && |c| >= 8 && c[..6] == "var(--" && c[|c| - 1] == ')'
    && forall i :: 6 <= i < |c| - 1 ==> IsNameChar(c[i])
  }

  /** The colour directive of a blockquote's first line: the hex form is tried on the content,
      then the custom-property form on what is left, so the second overrides the first. Returns
      the recorded colour, if any, and the remaining content. */
  function Directive(content: string): (Option<string>, string) {
    var (hex, rest) :=
      match HexDirective(content)
      case Some((color, text)) => (Some(color), text)
      case None => (None, content);
    match VarDirective(rest)
    case Some((name, text)) => (Some("var(" + name + ")"), text)
    case None => (hex, rest)
  }

  /** No colour is recorded exactly when neither form matches, and then the content is kept
      whole; a form that matches alone gives its own colour and its own remaining text; a
      recorded colour is a hex colour or a custom-property reference. */
  lemma DirectiveSpec(content: string)
    ensures var r := Directive(content);
            && (r.0.None? <==> HexDirective(content).None? && VarDirective(content).None?)
            && (r.0.None? ==> r.1 == content)
            && (r.0.Some? ==> IsHexColor(r.0.value) || IsVarColor(r.0.value))
    ensures HexDirective(content).Some? && VarDirective(HexDirective(content).value.1).None? ==>
              Directive(content) == (Some(HexDirective(content).value.0), HexDirective(content).value.1)
    ensures HexDirective(content).None? && VarDirective(content).Some? ==>
              Directive(content) == (Some("var(" + VarDirective(content).value.0 + ")"), VarDirective(content).value.1)
  {
    var rest := if HexDirective(content).Some? then HexDirective(content).value.1 else content;
    if HexDirective(content).Some? {
      HexColorOf(content);
    }
    if VarDirective(rest).Some? {
      VarColorOf(rest);
    }
  }

  lemma HexColorOf(content: string)
    requires HexDirective(content).Some?
    ensures IsHexColor(HexDirective(content).value.0)
  {
    HexDirectiveSpec(content);
  }

  lemma VarColorOf(content: string)
    requires VarDirective(content).Some?
    ensures IsVarColor("var(" + VarDirective(content).value.0 + ")")
  {
    VarNameShape(content);
    var name := VarDirective(content).value.0;
    var c := "var(" + name + ")";
    assert c[..6] == "var(" + name[..2];
    assert forall i :: 6 <= i < |c| - 1 ==> c[i] == name[i - 4];
  }

  /** A custom-property directive after a hex one wins: its colour and text are kept. */
  lemma VarOverridesHex(content: string, hex: string, rest: string, name: string, text: string)
    requires HexDirective(content) == Some((hex, rest))
    requires VarDirective(rest) == Some((name, text))
    ensures Directive(content) == (Some("var(" + name + ")"), text)
  {
  }

  /** Runs every test on `raw`. */
  function Lex(raw: string): Line {
    var t := Trim(raw);
    var stripped := StripQuoteMarker(raw);
    Line(raw, t, Classify(t), EntryOf(OrderedItem(t)), EntryOf(UnorderedItem(t)), stripped, Directive(stripped))
  }

  /** Every line lexed, in order (`LexAllAt`). */
  function LexAll(raws: seq<string>): (ls: seq<Line>)
    ensures |ls| == |raws|
  {
    Map(Lex, raws)
  }

  lemma LexAllAt(raws: seq<string>, k: nat)
    requires k < |raws|
    ensures LexAll(raws)[k] == Lex(raws[k])
  {
    MapAt(Lex, raws, k);
  }

  /** What the scanner relies on in a line's verdicts: the kind is `BlankLine` exactly for a
      line that trims to nothing, and a heading's level is one to four. */
  predicate Consistent(l: Line) {
    && (l.kind == BlankLine <==> l.Blank())
    && (l.kind.HeadingLine? ==> 1 <= l.kind.level <= 4)
  }

  lemma LexConsistent(raw: string)
    ensures Consistent(Lex(raw))
  {
    if Lex(raw).kind.HeadingLine? {
      ClassifyHeading(Lex(raw).trimmed);
    }
  }

  /** The scanner's `>` test and the blockquote parser's agree: no line that passes the earlier
      tests starts with `>`. */
  lemma QuotedIsQuoteLine(raw: string)
    ensures Lex(raw).Quoted() <==> Lex(raw).kind == QuoteLine
  {
    var t := Trim(raw);
    if t != [] && t[0] == '>' {
      MatchHeadingSpec(t);
    }
  }

  /** A list start whose item pattern fails holds a line terminator other than `\n`: on lines
      free of them the scanner's start tests and the list parsers' item patterns agree. */
  lemma StartHasItem(raw: string)
    requires NoLineBreak(Trim(raw))
    ensures Lex(raw).kind == ListLine(Ordered) ==> Lex(raw).ordered.Some?
    ensures Lex(raw).kind == ListLine(Unordered) ==> Lex(raw).unordered.Some?
  {
    var t := Trim(raw);
    TrimSpec(raw);
    if t != [] {
      StartIsItem(t);
    }
  }

  /** The contrapositive, read from a line's verdicts: a list start without an item holds a line
      terminator other than `\n` in its trimmed text. */
  lemma StuckNeedsBreak(raw: string)
    requires Lex(raw).kind.ListLine? && Lex(raw).ItemOf(Lex(raw).kind.kind).None?
    ensures !NoLineBreak(Trim(raw))
  {
    if NoLineBreak(Trim(raw)) {
      StartHasItem(raw);
    }
  }
}
