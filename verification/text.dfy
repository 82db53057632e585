/** Small facts about strings (sequences of characters) shared by the
    connection-string parser and the page renderers. */
module Text {

  /** `sub` occurs somewhere inside `s`. */
  ghost predicate Contains(s: string, sub: string)
  {
    exists i :: OccursAt(s, sub, i)
  }

  /** `sub` occurs in `s` starting at index `i`. */
  predicate OccursAt(s: string, sub: string, i: int)
  {
    0 <= i <= |s| - |sub| && s[i..i + |sub|] == sub
  }

  /** The end of the run of characters other than `stop` that begins at
      index `j`: the first index at or after `j` holding `stop`, or the end
      of the string when there is none. This is what a greedy `[^stop]*`
      consumes. */
  function RunEnd(s: string, j: nat, stop: char): (e: nat)
    requires j <= |s|
    ensures j <= e <= |s|
    ensures forall k :: j <= k < e ==> s[k] != stop
    ensures e == |s| || s[e] == stop
    decreases |s| - j
  {
    if j == |s| || s[j] == stop then j else RunEnd(s, j + 1, stop)
  }

  /** The three properties above pin the run end down: any index with them
      is the one `RunEnd` returns. */
  lemma RunEndUnique(s: string, j: nat, stop: char, e: nat)
    requires j <= e <= |s|
    requires forall k :: j <= k < e ==> s[k] != stop
    requires e == |s| || s[e] == stop
    ensures RunEnd(s, j, stop) == e
  {
  }

  /** The run end only looks at the characters up to the first `stop`, so
      appending anything after a `stop` leaves it where it was, and
      prepending shifts it. */
  lemma RunEndInPrefix(a: string, b: string, j: nat, stop: char)
    requires j <= |a|
    ensures RunEnd(a + [stop] + b, j, stop) == RunEnd(a, j, stop)
  {
    var s := a + [stop] + b;
    var e := RunEnd(a, j, stop);
    assert forall k :: j <= k < e ==> s[k] == a[k];
    RunEndUnique(s, j, stop, e);
  }

  lemma RunEndAfterPrefix(a: string, b: string, j: nat, stop: char)
    requires j <= |b|
    ensures RunEnd(a + b, |a| + j, stop) == |a| + RunEnd(b, j, stop)
  {
    var s := a + b;
    var e := RunEnd(b, j, stop);
    assert forall k :: |a| + j <= k < |a| + e ==> s[k] == b[k - |a|];
    RunEndUnique(s, |a| + j, stop, |a| + e);
  }

  /** A string that lacks one of the characters of a piece cannot contain
      the piece. */
  lemma AbsentCharExcludes(s: string, sub: string, k: nat)
    requires k < |sub|
    requires sub[k] !in s
    ensures !Contains(s, sub)
  {
    forall i | 0 <= i
      ensures !OccursAt(s, sub, i)
    {
      OccurrenceHasChar(s, sub, i, k);
    }
  }

  lemma OccurrenceHasChar(s: string, sub: string, i: int, k: nat)
    requires k < |sub|
    ensures OccursAt(s, sub, i) ==> sub[k] in s
  {
    if OccursAt(s, sub, i) {
      assert s[i + k] == sub[k];
    }
  }

  /** Whatever is concatenated around a piece, the result contains it. */
  lemma ContainsMiddle(a: string, sub: string, b: string)
    ensures Contains(a + sub + b, sub)
  {
    var s := a + sub + b;
    assert OccursAt(s, sub, |a|);
  }

  /** A string built as `x + (m + (y + z))` starts with `x` and contains `y`. */
  lemma PrefixAndMiddle(x: string, m: string, y: string, z: string)
    ensures x <= x + (m + (y + z))
    ensures Contains(x + (m + (y + z)), y)
  {
    assert x + (m + (y + z)) == (x + m) + y + z;
    ContainsMiddle(x + m, y, z);
  }

  /** Cutting a concatenation where its first part ends. */
  lemma SplitAt(a: string, b: string)
    ensures a <= a + b
    ensures (a + b)[..|a|] == a
    ensures (a + b)[|a|..] == b
  {
  }

  lemma Associate(a: string, b: string, c: string)
    ensures (a + b) + c == a + (b + c)
  {
  }

  /** A slice lying in the second part of a concatenation. */
  lemma SliceInSecond(a: string, b: string, x: nat, y: nat)
    requires x <= y <= |b|
    ensures (a + b)[|a| + x..|a| + y] == b[x..y]
  {
  }

  /** A slice lying in the first part of a concatenation. */
  lemma SliceInFirst(a: string, b: string, x: nat, y: nat)
    requires x <= y <= |a|
    ensures (a + b)[x..y] == a[x..y]
  {
  }

}
