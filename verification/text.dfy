/** String building blocks: character runs, `trim`, `split('\n')`, `join` and `repeat`. */
module Text {
  import opened Chars

  predicate AllSpace(s: string) {
    forall i :: 0 <= i < |s| ==> IsSpace(s[i])
  }

  predicate NoLineBreak(s: string) {
    forall i :: 0 <= i < |s| ==> !IsLineBreak(s[i])
  }

  /** Length of the maximal run of characters satisfying `p` that starts at index `k`:
      what a greedy `p+` or `p*` consumes before any backtracking. */
  function RunFrom(s: string, k: nat, p: char -> bool): (n: nat)
    requires k <= |s|
    ensures k + n <= |s|
    ensures forall i :: k <= i < k + n ==> p(s[i])
    ensures k + n == |s| || !p(s[k + n])
    decreases |s| - k
  {
    if k < |s| && p(s[k]) then 1 + RunFrom(s, k + 1, p) else 0
  }

  /** A run is determined by where it stops: `n` characters satisfying `p` followed by one that
      does not (or the end) is exactly the maximal run. */
  lemma RunExact(s: string, k: nat, n: nat, p: char -> bool)
    requires k + n <= |s|
    requires forall i :: k <= i < k + n ==> p(s[i])
    requires k + n == |s| || !p(s[k + n])
    ensures RunFrom(s, k, p) == n
  {
  }

  /** `s` without its leading white space. */
  function TrimStart(s: string): string {
    if s != [] && IsSpace(s[0]) then TrimStart(s[1..]) else s
  }

  /** `s` without its trailing white space. */
  function TrimEnd(s: string): string {
    if s != [] && IsSpace(s[|s| - 1]) then TrimEnd(s[..|s| - 1]) else s
  }

  /** JavaScript's `String.prototype.trim`: white space removed at both ends. Its properties
      are stated by `TrimSpec`, which callers invoke where they need them. */
  function Trim(s: string): string {
    TrimEnd(TrimStart(s))
  }

  lemma {:induction false} TrimStartSpec(s: string)
    ensures |TrimStart(s)| <= |s|
    ensures TrimStart(s) == s[|s| - |TrimStart(s)|..]
    ensures AllSpace(s[..|s| - |TrimStart(s)|])
    ensures TrimStart(s) == [] || !IsSpace(TrimStart(s)[0])
  {
    if s != [] && IsSpace(s[0]) {
      TrimStartSpec(s[1..]);
      var n := |s| - |TrimStart(s)|;
      assert s[1..][..n - 1] == s[1..n];
    }
  }

  lemma {:induction false} TrimEndSpec(s: string)
    ensures |TrimEnd(s)| <= |s|
    ensures TrimEnd(s) == s[..|TrimEnd(s)|]
    ensures AllSpace(s[|TrimEnd(s)|..])
    ensures TrimEnd(s) == [] || !IsSpace(TrimEnd(s)[|TrimEnd(s)| - 1])
  {
    if s != [] && IsSpace(s[|s| - 1]) {
      var u := s[..|s| - 1];
      TrimEndSpec(u);
      var n := |TrimEnd(s)|;
      assert u[n..] + [s[|s| - 1]] == s[n..];
    }
  }

  /** `trim()` returns the slice of `s` between its leading and its trailing white space; the
      result is empty exactly for an all-white-space `s`, and otherwise begins and ends with a
      character that is not white space. */
  lemma TrimSpec(s: string)
    ensures Trim(s) == [] <==> AllSpace(s)
    ensures Trim(s) != [] ==> !IsSpace(Trim(s)[0]) && !IsSpace(Trim(s)[|Trim(s)| - 1])
    ensures exists a :: 0 <= a <= |s| - |Trim(s)| && Trim(s) == s[a..a + |Trim(s)|]
                        && AllSpace(s[..a]) && AllSpace(s[a + |Trim(s)|..])
  {
    var u := TrimStart(s);
    var r := Trim(s);
    TrimStartSpec(s);
    TrimEndSpec(u);
    var a := |s| - |u|;
    assert r == s[a..a + |r|];
    assert s[a + |r|..] == u[|r|..];
    if r == [] {
      assert s == s[..a] + u;
    }
  }

  /** JavaScript's `s.split('\n')`: always at least one piece, none containing a newline. */
  function Split(s: string): (r: seq<string>)
    ensures |r| >= 1
    ensures forall k :: 0 <= k < |r| ==> '\n' !in r[k]
    decreases |s|
  {
    if s == [] then [[]]
    else
      var rest := Split(s[1..]);
      if s[0] == '\n' then [[]] + rest
      else [[s[0]] + rest[0]] + rest[1..]
  }

  /** JavaScript's `parts.join(sep)`. */
  function Join(parts: seq<string>, sep: string): string
    decreases |parts|
  {
    if |parts| == 0 then []
    else if |parts| == 1 then parts[0]
    else parts[0] + sep + Join(parts[1..], sep)
  }

  /** JavaScript's `s.repeat(n)`. */
  function Repeat(s: string, n: nat): (r: string)
    ensures |r| == n * |s|
  {
    if n == 0 then [] else s + Repeat(s, n - 1)
  }

  /** Joining the pieces of a split with `\n` gives back the input. */
  lemma {:induction false} JoinSplit(s: string)
    ensures Join(Split(s), "\n") == s
    decreases |s|
  {
    if s != [] {
      var rest := Split(s[1..]);
      JoinSplit(s[1..]);
      if s[0] == '\n' {
        assert Split(s) == [[]] + rest;
        assert ([[]] + rest)[1..] == rest;
      } else {
        var head := [s[0]] + rest[0];
        assert Split(s) == [head] + rest[1..];
        if |rest| == 1 {
          assert Join(rest, "\n") == rest[0];
        } else {
          assert Join(rest, "\n") == rest[0] + "\n" + Join(rest[1..], "\n");
          assert ([head] + rest[1..])[1..] == rest[1..];
        }
      }
    }
  }

  /** Splitting a line without newline gives that one line. */
  lemma {:induction false} SplitSingle(x: string)
    requires '\n' !in x
    ensures Split(x) == [x]
    decreases |x|
  {
    if x != [] {
      SplitSingle(x[1..]);
      assert [x[0]] + x[1..] == x;
    }
  }

  /** A newline after a newline-free line `x` starts a new piece. */
  lemma {:induction false} SplitCons(x: string, y: string)
    requires '\n' !in x
    ensures Split(x + "\n" + y) == [x] + Split(y)
    decreases |x|
  {
    if x == [] {
      assert x + "\n" + y == "\n" + y;
      assert ("\n" + y)[1..] == y;
    } else {
      var s := x + "\n" + y;
      assert s[0] == x[0];
      assert s[1..] == x[1..] + "\n" + y;
      SplitCons(x[1..], y);
      assert [x[0]] + x[1..] == x;
    }
  }

  /** Splitting the newline-join of newline-free lines gives back the lines. */
  lemma {:induction false} SplitJoin(lines: seq<string>)
    requires |lines| >= 1
    requires forall k :: 0 <= k < |lines| ==> '\n' !in lines[k]
    ensures Split(Join(lines, "\n")) == lines
    decreases |lines|
  {
    if |lines| == 1 {
      SplitSingle(lines[0]);
    } else {
      SplitJoin(lines[1..]);
      SplitCons(lines[0], Join(lines[1..], "\n"));
      assert [lines[0]] + lines[1..] == lines;
    }
  }

  /** `\n` is the only line terminator in `s`: no `\r`, U+2028 or U+2029. */
  predicate OnlyNewlines(s: string) {
    forall i :: 0 <= i < |s| ==> IsLineBreak(s[i]) ==> s[i] == '\n'
  }

  /** When `\n` is the only line terminator of `s`, the pieces of its split hold none. */
  lemma {:induction false} SplitNoLineBreak(s: string)
    requires OnlyNewlines(s)
    ensures forall k :: 0 <= k < |Split(s)| ==> NoLineBreak(Split(s)[k])
    decreases |s|
  {
    if s != [] {
      SplitNoLineBreak(s[1..]);
    }
  }

  /** `trim()` keeps a slice of its input, so it adds no line terminator. */
  lemma TrimNoLineBreak(s: string)
    requires NoLineBreak(s)
    ensures NoLineBreak(Trim(s))
  {
    TrimSpec(s);
  }
}
