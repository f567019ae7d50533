/** Hand-coded versions of the converter's regular expressions. Each matcher states, as its
    contract, which splits of its input the regular expression accepts and which one JavaScript's
    greedy-then-backtrack search returns. */
module Patterns {
  import opened Options
  import opened Chars
  import opened Text

  /** One way for `\s+(.+)$` to match `t` from index `k`: `m >= 1` white-space characters, then a
      non-empty remainder that runs to the end and holds no line terminator. */
  ghost predicate SpaceSplit(t: string, k: nat, m: nat) {
    && 1 <= m && k + m < |t|
    && (forall i :: k <= i < k + m ==> IsSpace(t[i]))
    && (forall i :: k + m <= i < |t| ==> !IsLineBreak(t[i]))
  }

  /** No split of `t` at `k` gives `\s+` more than `m` characters: the greedy choice. */
  ghost predicate Greediest(t: string, k: nat, m: nat) {
    forall m': nat :: m < m' ==> !SpaceSplit(t, k, m')
  }

  /** Backtracking of a greedy `\s+` that consumed `m` characters: give characters back until
      `(.+)$` can match the rest. */
  function BackOff(t: string, k: nat, m: nat): (r: Option<nat>)
    requires k + m <= |t|
    ensures r.Some? ==> 1 <= r.value <= m && k + r.value < |t|
    decreases m
  {
    if m == 0 then None
    else if k + m < |t| && forall i :: k + m <= i < |t| ==> !IsLineBreak(t[i]) then Some(m)
    else BackOff(t, k, m - 1)
  }

  /** Backing off finds the longest valid split of at most `m` characters, if there is one. */
  lemma {:induction false} BackOffSpec(t: string, k: nat, m: nat)
    requires k + m <= |t|
    requires forall i :: k <= i < k + m ==> IsSpace(t[i])
    ensures BackOff(t, k, m).Some? ==> BackOff(t, k, m).value <= m && SpaceSplit(t, k, BackOff(t, k, m).value)
    ensures BackOff(t, k, m).Some? ==> forall m': nat :: BackOff(t, k, m).value < m' <= m ==> !SpaceSplit(t, k, m')
    ensures BackOff(t, k, m).None? ==> forall m': nat :: m' <= m ==> !SpaceSplit(t, k, m')
    decreases m
  {
    if m > 0 && !(k + m < |t| && forall i :: k + m <= i < |t| ==> !IsLineBreak(t[i])) {
      BackOffSpec(t, k, m - 1);
    }
  }

  /** `\s+(.+)$` anchored at `k`: the number of white-space characters JavaScript gives `\s+`,
      or `None` when the pattern fails there. What it returns is stated by `GreedySplitSpec`. */
  function GreedySplit(t: string, k: nat): (r: Option<nat>)
    requires k <= |t|
    ensures r.Some? ==> 1 <= r.value && k + r.value < |t|
  {
    BackOff(t, k, RunFrom(t, k, IsSpace))
  }

  /** The split JavaScript chooses is the one giving `\s+` the most characters while leaving a
      valid remainder; there is none exactly when no split is valid. */
  lemma GreedySplitSpec(t: string, k: nat)
    requires k <= |t|
    ensures GreedySplit(t, k).Some? ==> SpaceSplit(t, k, GreedySplit(t, k).value) && Greediest(t, k, GreedySplit(t, k).value)
    ensures GreedySplit(t, k).None? ==> forall m: nat :: !SpaceSplit(t, k, m)
  {
    var w := RunFrom(t, k, IsSpace);
    BackOffSpec(t, k, w);
    assert forall m: nat :: w < m ==> !SpaceSplit(t, k, m) by {
      forall m: nat | w < m && SpaceSplit(t, k, m)
        ensures false
      {
      }
    }
  }

  /** On a line that ends in a non-space character and holds no line terminator, one white-space
      character at `k` is enough for `\s+(.+)$` to match. */
  lemma GreedySplitOnTrimmed(t: string, k: nat)
    requires k < |t| && IsSpace(t[k])
    requires !IsSpace(t[|t| - 1]) && NoLineBreak(t)
    ensures GreedySplit(t, k).Some?
  {
    GreedySplitSpec(t, k);
    assert SpaceSplit(t, k, 1);
  }

  /** `/^---+$/`: three or more hyphens and nothing else. */
  predicate IsRule(t: string) {
    |t| >= 3 && forall i :: 0 <= i < |t| ==> t[i] == '-'
  }

  /** One way for `/^(#{1,4})\s+(.+)$/` to match: `n` hashes, then a `\s+(.+)$` split. */
  ghost predicate HeadingSplit(t: string, n: nat, m: nat) {
    1 <= n <= 4 && n <= |t| && (forall i :: 0 <= i < n ==> t[i] == '#') && SpaceSplit(t, n, m)
  }

  /** `/^(#{1,4})\s+(.+)$/`; returns the level (length of the `#` group) and the heading text.
      What it matches is stated by `MatchHeadingSpec`. */
  function MatchHeading(t: string): Option<(nat, string)> {
    var h := RunFrom(t, 0, IsHash);
    if 1 <= h <= 4 then
      match GreedySplit(t, h)
      case Some(m) => Some((h, t[h + m..]))
      case None => None
    else None
  }

  /** The heading pattern matches exactly when some split exists; the level is then the whole
      run of `#` (so `##### x` is no heading) and the text follows the greediest split. */
  lemma MatchHeadingSpec(t: string)
    ensures MatchHeading(t).None? <==> forall n: nat, m: nat :: !HeadingSplit(t, n, m)
    ensures MatchHeading(t).Some? ==>
              exists m: nat :: && HeadingSplit(t, MatchHeading(t).value.0, m) && Greediest(t, MatchHeading(t).value.0, m)
                               && MatchHeading(t).value.1 == t[MatchHeading(t).value.0 + m..]
  {
    var h := RunFrom(t, 0, IsHash);
    if MatchHeading(t).Some? {
      GreedySplitSpec(t, h);
      assert HeadingSplit(t, h, GreedySplit(t, h).value);
    } else {
      MatchHeadingNone(t);
    }
  }

  lemma MatchHeadingNone(t: string)
    requires MatchHeading(t).None?
    ensures forall n: nat, m: nat :: !HeadingSplit(t, n, m)
  {
    forall n: nat, m: nat | HeadingSplit(t, n, m)
      ensures false
    {
      RunExact(t, 0, n, IsHash);
      GreedySplitSpec(t, n);
    }
  }

  /** `/^\d+\.\s+/.test(t)`: the scanner's test for the first line of an ordered list. */
  predicate IsOrderedStart(t: string) {
    var d := RunFrom(t, 0, IsDigit);
    1 <= d && d + 1 < |t| && t[d] == '.' && IsSpace(t[d + 1])
  }

  /** `/^[-*]\s+/.test(t)`: the scanner's test for the first line of an unordered list. */
  predicate IsUnorderedStart(t: string) {
    |t| >= 2 && (t[0] == '-' || t[0] == '*') && IsSpace(t[1])
  }

  /** One way for `/^(\d+)\.\s+(.+)$/` to match: digits up to the dot at `d`, then a split. */
  ghost predicate OrderedSplit(t: string, d: nat, m: nat) {
    1 <= d < |t| && (forall i :: 0 <= i < d ==> IsDigit(t[i])) && t[d] == '.' && SpaceSplit(t, d + 1, m)
  }

  /** `/^(\d+)\.\s+(.+)$/`, the ordered list parser's item pattern; returns the item text (the
      number is discarded). What it matches is stated by `OrderedItemSpec`. */
  function OrderedItem(t: string): Option<string> {
    var d := RunFrom(t, 0, IsDigit);
    if 1 <= d < |t| && t[d] == '.' then
      match GreedySplit(t, d + 1)
      case Some(m) => Some(t[d + 1 + m..])
      case None => None
    else None
  }

  /** The ordered item pattern matches exactly when some split exists, and then captures the
      text after the greediest one; a match implies the scanner's start test. */
  lemma OrderedItemSpec(t: string)
    ensures OrderedItem(t).None? <==> forall d: nat, m: nat :: !OrderedSplit(t, d, m)
    ensures OrderedItem(t).Some? ==> exists d: nat, m: nat :: && OrderedSplit(t, d, m) && Greediest(t, d + 1, m)
                                                              && OrderedItem(t).value == t[d + 1 + m..]
    ensures OrderedItem(t).Some? ==> IsOrderedStart(t)
  {
    if OrderedItem(t).Some? {
      OrderedItemSome(t);
    } else {
      OrderedItemNone(t);
    }
  }

  lemma OrderedItemSome(t: string)
    requires OrderedItem(t).Some?
    ensures exists d: nat, m: nat :: && OrderedSplit(t, d, m) && Greediest(t, d + 1, m)
                                     && OrderedItem(t).value == t[d + 1 + m..]
    ensures IsOrderedStart(t)
  {
    var d := RunFrom(t, 0, IsDigit);
    assert 1 <= d < |t| && t[d] == '.';
    var m := GreedySplit(t, d + 1).value;
    assert OrderedItem(t).value == t[d + 1 + m..];
    GreedySplitSpec(t, d + 1);
    assert OrderedSplit(t, d, m);
  }

  lemma OrderedItemNone(t: string)
    requires OrderedItem(t).None?
    ensures forall d: nat, m: nat :: !OrderedSplit(t, d, m)
  {
    forall d: nat, m: nat | OrderedSplit(t, d, m)
      ensures false
    {
      RunExact(t, 0, d, IsDigit);
      GreedySplitSpec(t, d + 1);
    }
  }

  /** One way for `/^[-*]\s+(.+)$/` to match. */
  ghost predicate UnorderedSplit(t: string, m: nat) {
    1 <= |t| && (t[0] == '-' || t[0] == '*') && SpaceSplit(t, 1, m)
  }

  /** `/^[-*]\s+(.+)$/`, the unordered list parser's item pattern; returns the item text. What it
      matches is stated by `UnorderedItemSpec`. */
  function UnorderedItem(t: string): Option<string> {
    if 1 <= |t| && (t[0] == '-' || t[0] == '*') then
      match GreedySplit(t, 1)
      case Some(m) => Some(t[1 + m..])
      case None => None
    else None
  }

  lemma UnorderedItemSpec(t: string)
    ensures UnorderedItem(t).None? <==> forall m: nat :: !UnorderedSplit(t, m)
    ensures UnorderedItem(t).Some? ==> exists m: nat :: && UnorderedSplit(t, m) && Greediest(t, 1, m)
                                                       && UnorderedItem(t).value == t[1 + m..]
    ensures UnorderedItem(t).Some? ==> IsUnorderedStart(t)
  {
    if 1 <= |t| && (t[0] == '-' || t[0] == '*') {
      GreedySplitSpec(t, 1);
      match GreedySplit(t, 1)
      case Some(m) =>
        assert UnorderedSplit(t, m);
      case None =>
    }
  }

  /** On a trimmed line free of line terminators, the scanner's start tests and the list parsers'
      item patterns agree. */
  lemma StartIsItem(t: string)
    requires t != [] && !IsSpace(t[|t| - 1]) && NoLineBreak(t)
    ensures IsOrderedStart(t) ==> OrderedItem(t).Some?
    ensures IsUnorderedStart(t) ==> UnorderedItem(t).Some?
  {
    if IsOrderedStart(t) {
      var d := RunFrom(t, 0, IsDigit);
      GreedySplitOnTrimmed(t, d + 1);
    }
    if IsUnorderedStart(t) {
      GreedySplitOnTrimmed(t, 1);
    }
  }

  /** `/^\[([x ])\]\s+(.+)$/` on an item's text: `Some((checked, text))`. What it matches is
      stated by `MatchCheckboxSpec`. */
  function MatchCheckbox(c: string): Option<(bool, string)> {
    if |c| >= 3 && c[0] == '[' && (c[1] == 'x' || c[1] == ' ') && c[2] == ']' then
      match GreedySplit(c, 3)
      case Some(m) => Some((c[1] == 'x', c[3 + m..]))
      case None => None
    else None
  }

  /** A checkbox is `[x]` or `[ ]` (lower-case `x` only) followed by white space and text; it is
      checked iff the marker is `x`, and its text follows the greediest split. */
  lemma MatchCheckboxSpec(c: string)
    ensures MatchCheckbox(c).Some? <==> && |c| >= 3 && c[0] == '[' && (c[1] == 'x' || c[1] == ' ') && c[2] == ']'
                                        && exists m: nat :: SpaceSplit(c, 3, m)
    ensures MatchCheckbox(c).Some? ==> (MatchCheckbox(c).value.0 <==> c[1] == 'x')
    ensures MatchCheckbox(c).Some? ==>
              exists m: nat :: SpaceSplit(c, 3, m) && Greediest(c, 3, m) && MatchCheckbox(c).value.1 == c[3 + m..]
  {
    if |c| >= 3 {
      GreedySplitSpec(c, 3);
    }
  }

  /** `line.replace` with the pattern `^>\s*` and an empty replacement: drops a `>` that is the
      raw line's first character, together with the white space after it; a line that does not
      start with `>` is returned unchanged. */
  function StripQuoteMarker(line: string): string {
    if |line| > 0 && line[0] == '>' then line[1 + RunFrom(line, 1, IsSpace)..] else line
  }

  lemma StripQuoteMarkerSpec(line: string)
    ensures var r := StripQuoteMarker(line);
            && (|line| > 0 && line[0] == '>' ==>
                  exists n: nat :: && 1 <= n <= |line| && r == line[n..] && AllSpace(line[1..n])
                                   && (r == [] || !IsSpace(r[0])))
            && ((|line| == 0 || line[0] != '>') ==> r == line)
  {
    if |line| > 0 && line[0] == '>' {
      var n := 1 + RunFrom(line, 1, IsSpace);
      assert AllSpace(line[1..n]);
    }
  }

  /** One way for `/^#([0-9a-fA-F]{6})\s+(.+)$/` to match. */
  ghost predicate HexSplit(c: string, m: nat) {
    |c| >= 7 && c[0] == '#' && (forall i :: 1 <= i < 7 ==> IsHexDigit(c[i])) && SpaceSplit(c, 7, m)
  }

  /** `/^#([0-9a-fA-F]{6})\s+(.+)$/`: `Some((color, text))` with `color` the `#` and six digits.
      What it matches is stated by `HexDirectiveSpec`. */
  function HexDirective(c: string): Option<(string, string)> {
    if |c| >= 7 && c[0] == '#' && (forall i :: 1 <= i < 7 ==> IsHexDigit(c[i])) then
      match GreedySplit(c, 7)
      case Some(m) => Some((c[..7], c[7 + m..]))
      case None => None
    else None
  }

  lemma HexDirectiveSpec(c: string)
    ensures HexDirective(c).None? <==> forall m: nat :: !HexSplit(c, m)
    ensures HexDirective(c).Some? ==>
              exists m: nat :: HexSplit(c, m) && Greediest(c, 7, m) && HexDirective(c).value == (c[..7], c[7 + m..])
  {
    if |c| >= 7 && c[0] == '#' && (forall i :: 1 <= i < 7 ==> IsHexDigit(c[i])) {
      GreedySplitSpec(c, 7);
      match GreedySplit(c, 7)
      case Some(m) =>
        assert HexSplit(c, m);
      case None =>
    }
  }

  /** One way for `/^(--[\w-]+)\s+(.+)$/` to match: a name of `n` characters, then a split. */
  ghost predicate VarSplit(c: string, n: nat, m: nat) {
    && 3 <= n <= |c| && c[0] == '-' && c[1] == '-'
    && (forall i :: 2 <= i < n ==> IsNameChar(c[i]))
    && SpaceSplit(c, n, m)
  }

  /** `/^(--[\w-]+)\s+(.+)$/`: `Some((name, text))` with `name` the custom property, `--` included.
      What it matches is stated by `VarDirectiveSpec`. */
  function VarDirective(c: string): Option<(string, string)> {
    if |c| >= 2 && c[0] == '-' && c[1] == '-' then
      var n := 2 + RunFrom(c, 2, IsNameChar);
      if n >= 3 then
        match GreedySplit(c, n)
        case Some(m) => Some((c[..n], c[n + m..]))
        case None => None
      else None
    else None
  }

  /** The name a custom-property directive captures: `--` and at least one name character. */
  lemma VarNameShape(c: string)
    requires VarDirective(c).Some?
    ensures var name := VarDirective(c).value.0;
            && |name| >= 3 && name[0] == '-' && name[1] == '-'
            && forall i :: 2 <= i < |name| ==> IsNameChar(name[i])
  {
  }

  lemma VarDirectiveSpec(c: string)
    ensures VarDirective(c).None? <==> forall n: nat, m: nat :: !VarSplit(c, n, m)
    ensures VarDirective(c).Some? ==>
              exists n: nat, m: nat :: && VarSplit(c, n, m) && Greediest(c, n, m)
                                       && VarDirective(c).value == (c[..n], c[n + m..])
  {
    if VarDirective(c).Some? {
      var n := 2 + RunFrom(c, 2, IsNameChar);
      GreedySplitSpec(c, n);
      assert VarSplit(c, n, GreedySplit(c, n).value);
    } else {
      VarDirectiveNone(c);
    }
  }

  lemma VarDirectiveNone(c: string)
    requires VarDirective(c).None?
    ensures forall n: nat, m: nat :: !VarSplit(c, n, m)
  {
    forall n: nat, m: nat | VarSplit(c, n, m)
      ensures false
    {
      RunExact(c, 2, n - 2, IsNameChar);
      GreedySplitSpec(c, n);
    }
  }
}
