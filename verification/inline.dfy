/** The inline formatter `parseInline`: five global, non-greedy delimiter substitutions
    (`**`, `__`, `*`, `_`, `~~`) applied one after the other. */
module Inline {
  import opened Options
  import opened Chars
  import opened Text

  /** `d` occurs in `s` starting at index `k`. */
  predicate HasAt(s: string, k: nat, d: string) {
    k + |d| <= |s| && s[k..k + |d|] == d
  }

  ghost predicate NoOccurrence(s: string, d: string) {
    forall k: nat :: !HasAt(s, k, d)
  }

  ghost predicate Lacks(s: string, c: char) {
    forall i :: 0 <= i < |s| ==> s[i] != c
  }

  /** Text that none of the five passes can touch: no `*`, `_` or `~`. */
  ghost predicate Plain(s: string) {
    Lacks(s, '*') && Lacks(s, '_') && Lacks(s, '~')
  }

  /** A delimiter at `k` can close the group `(.+?)` whose content starts at `a`: the content is
      at least one character long and, like JavaScript's `.`, holds no line terminator. */
  ghost predicate ClosesAt(s: string, a: nat, d: string, k: nat) {
    a < k && HasAt(s, k, d) && forall i :: a <= i < k ==> !IsLineBreak(s[i])
  }

  /** The lazy search of `(.+?)D`, from candidate end `k` on: the earliest closing delimiter
      (`FindCloseSpec`). */
  function FindClose(s: string, a: nat, d: string, k: nat): (r: Option<nat>)
    requires a < k <= |s|
    ensures r.Some? ==> k <= r.value && r.value + |d| <= |s|
    decreases |s| - k
  {
    if IsLineBreak(s[k - 1]) then None
    else if HasAt(s, k, d) then Some(k)
    else if k == |s| then None
    else FindClose(s, a, d, k + 1)
  }

  lemma {:induction false} FindCloseSpec(s: string, a: nat, d: string, k: nat)
    requires a < k <= |s|
    requires forall i :: a <= i < k - 1 ==> !IsLineBreak(s[i])
    ensures var r := FindClose(s, a, d, k);
            && (r.Some? ==> ClosesAt(s, a, d, r.value))
            && (r.Some? ==> forall j: nat :: k <= j < r.value ==> !ClosesAt(s, a, d, j))
            && (r.None? ==> forall j: nat :: k <= j ==> !ClosesAt(s, a, d, j))
    decreases |s| - k
  {
    if !IsLineBreak(s[k - 1]) && !HasAt(s, k, d) && k < |s| {
      FindCloseSpec(s, a, d, k + 1);
    }
  }

  lemma NoOccurrenceTail(s: string, d: string)
    requires s != []
    ensures NoOccurrence(s, d) ==> NoOccurrence(s[1..], d)
  {
    if NoOccurrence(s, d) {
      forall k: nat | HasAt(s[1..], k, d) ensures false {
        assert s[1..][k..k + |d|] == s[k + 1..k + 1 + |d|];
        assert HasAt(s, k + 1, d);
      }
    }
  }

  function Open(tag: string): string {
    "<" + tag + ">"
  }

  function Close(tag: string): string {
    "</" + tag + ">"
  }

  /** The replacement `<tag>$1</tag>`. */
  function Tagged(tag: string, content: string): string {
    Open(tag) + content + Close(tag)
  }

  /** JavaScript's `s.replace(/D(.+?)D/g, '<tag>$1</tag>')` for a delimiter `D`: at each position
      where `D` opens and a closing `D` is found, the enclosed text is wrapped in `tag` and the scan
      resumes after the closing delimiter; elsewhere one character is copied. Text in which `D`
      never occurs comes back unchanged (`ReplaceUnchanged`). */
  function Replace(s: string, d: string, tag: string): string
    requires |d| > 0
    decreases |s|
  {
    if s == [] then []
    else if HasAt(s, 0, d) && |d| < |s| then
      match FindClose(s, |d|, d, |d| + 1)
      case Some(j) => Tagged(tag, s[|d|..j]) + Replace(s[j + |d|..], d, tag)
      case None => [s[0]] + Replace(s[1..], d, tag)
    else
      [s[0]] + Replace(s[1..], d, tag)
  }

  /** The fixed pipeline of `parseInline`: bold (`**`, then `__`), italic (`*`, then `_`),
      strikethrough (`~~`). */
  function Format(s: string): string
  {
    var bold := Replace(Replace(s, "**", "strong"), "__", "strong");
    var italic := Replace(Replace(bold, "*", "em"), "_", "em");
    Replace(italic, "~~", "del")
  }

  /** A pass whose delimiter never occurs leaves the text unchanged. */
  lemma {:induction false} ReplaceUnchanged(s: string, d: string, tag: string)
    requires |d| > 0 && NoOccurrence(s, d)
    ensures Replace(s, d, tag) == s
    decreases |s|
  {
    if s != [] {
      assert !HasAt(s, 0, d);
      NoOccurrenceTail(s, d);
      ReplaceUnchanged(s[1..], d, tag);
    }
  }

  /** Text in front of the first occurrence of the delimiter is copied as it is. */
  lemma {:induction false} ReplaceCopies(s: string, p: nat, d: string, tag: string)
    requires |d| > 0 && p <= |s|
    requires forall k :: 0 <= k < p ==> !HasAt(s, k, d)
    ensures Replace(s, d, tag) == s[..p] + Replace(s[p..], d, tag)
    decreases p
  {
    if p == 0 {
      assert s[..0] + Replace(s[0..], d, tag) == Replace(s, d, tag);
    } else {
      NoneBeforeTail(s, p, d);
      ReplaceCopies(s[1..], p - 1, d, tag);
      CopyStep(s, p, d, tag);
    }
  }

  lemma CopyStep(s: string, p: nat, d: string, tag: string)
    requires |d| > 0 && 0 < p <= |s| && !HasAt(s, 0, d)
    requires Replace(s[1..], d, tag) == s[1..][..p - 1] + Replace(s[1..][p - 1..], d, tag)
    ensures Replace(s, d, tag) == s[..p] + Replace(s[p..], d, tag)
  {
    ReplaceCopiesOne(s, d, tag);
    assert s[1..][p - 1..] == s[p..];
    PrefixStep(s, p, Replace(s, d, tag), Replace(s[1..], d, tag), Replace(s[p..], d, tag));
  }

  /** A character in front of a prefix of the tail is the prefix one longer. */
  lemma PrefixStep(s: string, p: nat, r: string, x: string, y: string)
    requires 0 < p <= |s|
    requires r == [s[0]] + x && x == s[1..][..p - 1] + y
    ensures r == s[..p] + y
  {
    assert [s[0]] + s[1..][..p - 1] == s[..p];
  }

  /** Where no delimiter opens, the pass copies one character. */
  lemma ReplaceCopiesOne(s: string, d: string, tag: string)
    requires |d| > 0 && s != [] && !HasAt(s, 0, d)
    ensures Replace(s, d, tag) == [s[0]] + Replace(s[1..], d, tag)
  {
  }

  lemma NoneBeforeTail(s: string, p: nat, d: string)
    requires 0 < p <= |s|
    requires forall k :: 0 <= k < p ==> !HasAt(s, k, d)
    ensures forall k :: 0 <= k < p - 1 ==> !HasAt(s[1..], k, d)
  {
    forall k | 0 <= k < p - 1
      ensures !HasAt(s[1..], k, d)
    {
      assert !HasAt(s, k + 1, d);
      HasAtTail(s, k, d);
    }
  }

  /** An occurrence in the tail of `s` is one in `s`, a position further on. */
  lemma HasAtTail(s: string, k: nat, d: string)
    requires s != []
    ensures HasAt(s[1..], k, d) <==> HasAt(s, k + 1, d)
  {
    if k + |d| <= |s[1..]| {
      assert s[1..][k..k + |d|] == s[k + 1..k + 1 + |d|];
    }
  }

  /** At an occurrence of the delimiter, the pass wraps the text up to the EARLIEST position
      where a closing delimiter can end the lazy group, and carries on after that delimiter. */
  lemma ReplaceEarliest(s: string, d: string, tag: string, j: nat)
    requires |d| > 0 && HasAt(s, 0, d)
    requires ClosesAt(s, |d|, d, j)
    requires forall i: nat :: i < j ==> !ClosesAt(s, |d|, d, i)
    ensures j + |d| <= |s|
    ensures Replace(s, d, tag) == Tagged(tag, s[|d|..j]) + Replace(s[j + |d|..], d, tag)
  {
    assert |d| < |s|;
    EarliestFound(s, d, j);
  }

  /** The lazy search finds exactly the earliest position where the group can close. */
  lemma EarliestFound(s: string, d: string, j: nat)
    requires |d| < |s|
    requires ClosesAt(s, |d|, d, j)
    requires forall i: nat :: i < j ==> !ClosesAt(s, |d|, d, i)
    ensures FindClose(s, |d|, d, |d| + 1) == Some(j)
  {
    FindCloseSpec(s, |d|, d, |d| + 1);
    EarliestUnique(s, d, j, FindClose(s, |d|, d, |d| + 1));
  }

  /** A search result that closes the group, with no closing position before it, is the
      earliest closing position `j`. */
  lemma EarliestUnique(s: string, d: string, j: nat, r: Option<nat>)
    requires ClosesAt(s, |d|, d, j)
    requires forall i: nat :: i < j ==> !ClosesAt(s, |d|, d, i)
    requires r.Some? ==> ClosesAt(s, |d|, d, r.value)
    requires r.Some? ==> forall i: nat :: |d| + 1 <= i < r.value ==> !ClosesAt(s, |d|, d, i)
    requires r.None? ==> forall i: nat :: |d| + 1 <= i ==> !ClosesAt(s, |d|, d, i)
    ensures r == Some(j)
  {
  }

  /** Where no closing delimiter can end a group, one character is copied and the pass moves on,
      whether or not a delimiter opens there. */
  lemma ReplaceNoClose(s: string, d: string, tag: string)
    requires |d| > 0 && s != []
    requires forall j: nat :: !ClosesAt(s, |d|, d, j)
    ensures Replace(s, d, tag) == [s[0]] + Replace(s[1..], d, tag)
  {
    if HasAt(s, 0, d) && |d| < |s| {
      FindCloseSpec(s, |d|, d, |d| + 1);
    }
  }

  /** Text with no `*`, `_` or `~` is returned unchanged by the formatter. */
  lemma FormatPlain(s: string)
    requires Plain(s)
    ensures Format(s) == s
  {
    PlainPasses(s);
  }

  /** A delimiter whose first character does not occur cannot occur. */
  lemma LacksNoOccurrence(s: string, d: string)
    requires |d| > 0 && Lacks(s, d[0])
    ensures NoOccurrence(s, d)
  {
    forall k: nat | HasAt(s, k, d) ensures false {
    }
  }

  /** A doubled marker cannot occur in a single-marker span `m c m` whose inside lacks the marker. */
  lemma NoDoubleInSpan(m: string, x: string)
    requires |m| == 1 && x != [] && Lacks(x, m[0])
    ensures NoOccurrence(m + x + m, m + m)
  {
    var s := m + x + m;
    forall k: nat ensures !HasAt(s, k, m + m) {
      if k + 2 <= |s| {
        assert s[k..k + 2] == [s[k], s[k + 1]];
        if k == 0 {
          assert s[1] == x[0];
        } else {
          assert s[k] == x[k - 1];
        }
      }
    }
  }

  /** The delimiter after `c` in `d c d` closes the span that starts after the first one. */
  lemma SpanCloses(c: string, d: string)
    requires |d| > 0 && c != [] && NoLineBreak(c)
    ensures ClosesAt(d + c + d, |d|, d, |d| + |c|)
  {
    var s := d + c + d;
    var e := |d| + |c|;
    assert s[e..e + |d|] == d;
    forall i | |d| <= i < e ensures !IsLineBreak(s[i]) {
      assert s[i] == c[i - |d|];
    }
  }

  /** No delimiter starts inside `c` when `c` lacks the delimiter's first character. */
  lemma NoCloseInside(c: string, d: string)
    requires |d| > 0 && Lacks(c, d[0])
    ensures forall j: nat :: |d| < j < |d| + |c| ==> !HasAt(d + c + d, j, d)
  {
    var s := d + c + d;
    forall j: nat | |d| < j < |d| + |c| ensures !HasAt(s, j, d) {
      assert s[j] == c[j - |d|];
    }
  }

  /** In `d c d`, with `c` free of the delimiter character and of line terminators, the lazy
      search finds the closing delimiter right after `c`. */
  lemma WrapCloses(c: string, d: string)
    requires |d| > 0 && c != [] && NoLineBreak(c) && Lacks(c, d[0])
    ensures FindClose(d + c + d, |d|, d, |d| + 1) == Some(|d| + |c|)
  {
    var s := d + c + d;
    var e := |d| + |c|;
    SpanCloses(c, d);
    NoCloseInside(c, d);
    FindCloseSpec(s, |d|, d, |d| + 1);
  }

  /** One step of the pass at a delimiter whose closing delimiter ends the text. */
  lemma ReplaceWhole(s: string, d: string, tag: string, e: nat)
    requires |d| > 0 && HasAt(s, 0, d) && |d| < |s|
    requires FindClose(s, |d|, d, |d| + 1) == Some(e) && e + |d| == |s|
    ensures Replace(s, d, tag) == Tagged(tag, s[|d|..e])
  {
    assert s[e + |d|..] == [];
  }

  /** A single delimited span whose content is free of the delimiter character and of line
      terminators is wrapped in `tag`, delimiters removed, and nothing else changes. */
  lemma ReplaceWrap(c: string, d: string, tag: string)
    requires |d| > 0 && c != [] && NoLineBreak(c) && Lacks(c, d[0])
    ensures Replace(d + c + d, d, tag) == Tagged(tag, c)
  {
    var s := d + c + d;
    var e := |d| + |c|;
    WrapCloses(c, d);
    assert s[..|d|] == d;
    assert s[|d|..e] == c;
    ReplaceWhole(s, d, tag, e);
  }

  /** A pass whose delimiter's first character does not occur changes nothing. */
  lemma Untouched(s: string, d: string, tag: string)
    requires |d| > 0 && Lacks(s, d[0])
    ensures Replace(s, d, tag) == s
  {
    LacksNoOccurrence(s, d);
    ReplaceUnchanged(s, d, tag);
  }

  /** A doubled-marker pass leaves a single-marker span alone. */
  lemma SpanUntouched(m: string, c: string, tag: string)
    requires |m| == 1 && c != [] && Lacks(c, m[0])
    ensures Replace(m + c + m, m + m, tag) == m + c + m
  {
    NoDoubleInSpan(m, c);
    ReplaceUnchanged(m + c + m, m + m, tag);
  }

  /** A pass whose delimiter character occurs neither in a span's markers nor in its content
      leaves the span alone. */
  lemma SpanSkipped(m: string, c: string, d: string, tag: string)
    requires |d| > 0 && Lacks(m, d[0]) && Lacks(c, d[0])
    ensures Replace(m + c + m, d, tag) == m + c + m
  {
    SpanLacks(m, c, d[0]);
    Untouched(m + c + m, d, tag);
  }

  /** `Format` is the five passes in order. */
  lemma FormatChain(s: string, b1: string, b2: string, i1: string, i2: string, r: string)
    requires Replace(s, "**", "strong") == b1 && Replace(b1, "__", "strong") == b2
    requires Replace(b2, "*", "em") == i1 && Replace(i1, "_", "em") == i2
    requires Replace(i2, "~~", "del") == r
    ensures Format(s) == r
  {
  }

  /** A span keeps out a character that neither its markers nor its content hold. */
  lemma SpanLacks(m: string, c: string, x: char)
    requires Lacks(m, x) && Lacks(c, x)
    ensures Lacks(m + c + m, x)
  {
  }

  /** Wrapping plain text in a tag keeps it plain. */
  lemma TaggedPlain(tag: string, c: string)
    requires Plain(tag) && Plain(c)
    ensures Plain(Tagged(tag, c))
  {
  }

  lemma StrongTag(c: string)
    ensures Tagged("strong", c) == "<strong>" + c + "</strong>"
  {
    assert Open("strong") == "<strong>";
    assert Close("strong") == "</strong>";
  }

  lemma EmTag(c: string)
    ensures Tagged("em", c) == "<em>" + c + "</em>"
  {
    assert Open("em") == "<em>";
    assert Close("em") == "</em>";
  }

  lemma DelTag(c: string)
    ensures Tagged("del", c) == "<del>" + c + "</del>"
  {
    assert Open("del") == "<del>";
    assert Close("del") == "</del>";
  }

  /** `**text**` becomes `<strong>text</strong>`, and the italic pass that follows does not see
      leftover asterisks. */
  lemma FormatBoldStars(c: string)
    requires c != [] && NoLineBreak(c) && Plain(c)
    ensures Format("**" + c + "**") == "<strong>" + c + "</strong>"
  {
    var s := "**" + c + "**";
    var t := Tagged("strong", c);
    ReplaceWrap(c, "**", "strong");
    TaggedPlain("strong", c);
    PlainPasses(t);
    FormatChain(s, t, t, t, t, t);
    StrongTag(c);
  }

  /** `__text__` becomes `<strong>text</strong>`. */
  lemma FormatBoldUnderscores(c: string)
    requires c != [] && NoLineBreak(c) && Plain(c)
    ensures Format("__" + c + "__") == "<strong>" + c + "</strong>"
  {
    var s := "__" + c + "__";
    var t := Tagged("strong", c);
    SpanSkipped("__", c, "**", "strong");
    ReplaceWrap(c, "__", "strong");
    TaggedPlain("strong", c);
    PlainPasses(t);
    FormatChain(s, s, t, t, t, t);
    StrongTag(c);
  }

  /** `*text*` becomes `<em>text</em>`. */
  lemma FormatItalicStar(c: string)
    requires c != [] && NoLineBreak(c) && Plain(c)
    ensures Format("*" + c + "*") == "<em>" + c + "</em>"
  {
    var s := "*" + c + "*";
    var t := Tagged("em", c);
    SpanUntouched("*", c, "strong");
    assert "*" + "*" == "**";
    SpanSkipped("*", c, "__", "strong");
    ReplaceWrap(c, "*", "em");
    TaggedPlain("em", c);
    PlainPasses(t);
    FormatChain(s, s, s, t, t, t);
    EmTag(c);
  }

  /** `_text_` becomes `<em>text</em>`. */
  lemma FormatItalicUnderscore(c: string)
    requires c != [] && NoLineBreak(c) && Plain(c)
    ensures Format("_" + c + "_") == "<em>" + c + "</em>"
  {
    var s := "_" + c + "_";
    var t := Tagged("em", c);
    SpanSkipped("_", c, "**", "strong");
    SpanUntouched("_", c, "strong");
    assert "_" + "_" == "__";
    SpanSkipped("_", c, "*", "em");
    ReplaceWrap(c, "_", "em");
    TaggedPlain("em", c);
    PlainPasses(t);
    FormatChain(s, s, s, s, t, t);
    EmTag(c);
  }

  /** `~~text~~` becomes `<del>text</del>`. */
  lemma FormatStrike(c: string)
    requires c != [] && NoLineBreak(c) && Plain(c)
    ensures Format("~~" + c + "~~") == "<del>" + c + "</del>"
  {
    var s := "~~" + c + "~~";
    SpanLacks("~~", c, '*');
    SpanLacks("~~", c, '_');
    Untouched(s, "**", "strong");
    Untouched(s, "__", "strong");
    Untouched(s, "*", "em");
    Untouched(s, "_", "em");
    ReplaceWrap(c, "~~", "del");
    FormatChain(s, s, s, s, s, Tagged("del", c));
    DelTag(c);
  }

  /** Each of the five passes leaves plain text alone. */
  lemma PlainPasses(w: string)
    requires Plain(w)
    ensures Replace(w, "**", "strong") == w && Replace(w, "__", "strong") == w
    ensures Replace(w, "*", "em") == w && Replace(w, "_", "em") == w && Replace(w, "~~", "del") == w
  {
    Untouched(w, "**", "strong");
    Untouched(w, "__", "strong");
    Untouched(w, "*", "em");
    Untouched(w, "_", "em");
    Untouched(w, "~~", "del");
  }
}
