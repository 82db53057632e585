/** Field extraction from an Azure storage connection string, as the server
    does it when a custom endpoint is configured (index.js lines 16-17): the
    first capture group of the regex `/Key=([^;]+)/`.

    The regular expression has no flags, so ECMAScript's RegExp matching
    (section 22.2 of ECMA-262) tries the start positions 0, 1, 2, ... in
    order and reports the first at which the literal `Key=` is followed by at
    least one character other than `;`; the greedy `[^;]+` then takes every
    such character up to the next `;` or the end of the string. There is
    nothing after the group, so no backtracking ever shortens the capture.
    A string with no such position makes `match` return null, and indexing
    null with `[1]` throws a TypeError: that outcome is `None`. */
module ConnectionString {
  import opened Options
  import opened Text

  /** The only character that ends a field value. */
  const Separator: char := ';'

  /** The literal part of the pattern: the key followed by `=`. */
  function Pattern(key: string): string
  {
    key + "="
  }

  /** The regex can match with its first character at index `i`: the literal
      `p` is there and the next character exists and is not `;`. */
  predicate MatchesAt(p: string, s: string, i: int)
  {
    0 <= i && i + |p| < |s| && s[i..i + |p|] == p && s[i + |p|] != Separator
  }

  /** `i` is the position the regex engine reports: a match, and no earlier one. */
  ghost predicate Leftmost(p: string, s: string, i: int)
  {
    MatchesAt(p, s, i) && forall k :: 0 <= k < i ==> !MatchesAt(p, s, k)
  }

  /** Declarative reading of the capture group: at index `i` the string holds
      `p` and then `v`, `v` is a non-empty run of non-`;` characters, and the
      run cannot be extended (the string ends or a `;` follows). */
  ghost predicate CapturedAt(p: string, s: string, i: int, v: string)
  {
    && 0 <= i
    && i + |p| + |v| <= |s|
    && s[i..i + |p| + |v|] == p + v
    && v != []
    && Separator !in v
    && (i + |p| + |v| == |s| || s[i + |p| + |v|] == Separator)
  }

  /** The engine's scan: the first start position at or after `from` where
      the regex matches. */
  function FirstMatchFrom(p: string, s: string, from: nat): (r: Option<nat>)
    ensures r.Some? ==> from <= r.value && MatchesAt(p, s, r.value)
    ensures r.Some? ==> forall k :: from <= k < r.value ==> !MatchesAt(p, s, k)
    ensures r.None? ==> forall k :: from <= k ==> !MatchesAt(p, s, k)
    decreases |s| - from
  {
    if from + |p| >= |s| then None
    else if MatchesAt(p, s, from) then Some(from)
    else FirstMatchFrom(p, s, from + 1)
  }

  /** The value captured for `key`, with `None` for the TypeError thrown
      when there is no match. */
  function Extract(key: string, s: string): (r: Option<string>)
    ensures r.Some? ==> r.value != [] && Separator !in r.value
  {
    var p := Pattern(key);
    match FirstMatchFrom(p, s, 0)
    case None => None
    case Some(i) =>
      var start := i + |p|;
      var end := RunEnd(s, start, Separator);
      assert s[start] in s[start..end];
      Some(s[start..end])
  }

  /** Extraction fails (the TypeError) exactly when the key never occurs
      followed by a value character: absent, or present only with empty
      values. */
  lemma ExtractFailsIffNoMatch(key: string, s: string)
    ensures Extract(key, s).None? <==> forall i :: 0 <= i ==> !MatchesAt(Pattern(key), s, i)
  {
  }

  /** The scan finds exactly the leftmost match. */
  lemma FirstMatchIsLeftmost(p: string, s: string, i: int)
    requires Leftmost(p, s, i)
    ensures FirstMatchFrom(p, s, 0) == Some(i)
  {
    var r := FirstMatchFrom(p, s, 0);
    assert r.Some? by {
      assert MatchesAt(p, s, i);
    }
    assert !(r.value < i);
    assert !(i < r.value) by {
      assert MatchesAt(p, s, i);
    }
  }

  /** Once the leftmost match is known, the extracted value is the maximal
      non-`;` run after it. */
  lemma ExtractAtLeftmost(key: string, s: string, i: int)
    requires Leftmost(Pattern(key), s, i)
    ensures Extract(key, s) == Some(s[i + |Pattern(key)|..RunEnd(s, i + |Pattern(key)|, Separator)])
  {
    FirstMatchIsLeftmost(Pattern(key), s, i);
  }

  /** The capture at a given match position is unique. */
  lemma CaptureUnique(p: string, s: string, i: int, v: string)
    requires CapturedAt(p, s, i, v)
    ensures v == s[i + |p|..RunEnd(s, i + |p|, Separator)]
  {
    var start := i + |p|;
    assert s[start..start + |v|] == v by {
      assert s[i..i + |p| + |v|][|p|..] == v;
    }
    forall k | start <= k < start + |v|
      ensures s[k] != Separator
    {
      assert s[k] == v[k - start];
    }
    RunEndUnique(s, start, Separator, start + |v|);
  }

  /** Full characterisation of extraction, both directions: it yields `v`
      exactly when the leftmost match of `key=` is followed by the maximal
      non-empty `;`-free run `v`. */
  lemma {:induction false} ExtractSpec(key: string, s: string, v: string)
    ensures Extract(key, s) == Some(v) <==> exists i :: Leftmost(Pattern(key), s, i) && CapturedAt(Pattern(key), s, i, v)
  {
    var p := Pattern(key);
    if Extract(key, s) == Some(v) {
      var i := FirstMatchFrom(p, s, 0).value;
      var end := RunEnd(s, i + |p|, Separator);
      assert v == s[i + |p|..end];
      assert s[i..i + |p| + |v|] == s[i..i + |p|] + v;
      assert Leftmost(p, s, i);
      assert CapturedAt(p, s, i, v);
    }
    if exists i :: Leftmost(p, s, i) && CapturedAt(p, s, i, v) {
      var i :| Leftmost(p, s, i) && CapturedAt(p, s, i, v);
      ExtractAtLeftmost(key, s, i);
      CaptureUnique(p, s, i, v);
    }
  }

  /** A field `key=v` is found when no earlier position matches: the value
      is taken whole, `=` characters (base64 padding) included, since only
      `;` ends it. */
  lemma ExtractFindsField(key: string, pre: string, v: string, post: string)
    requires v != [] && Separator !in v
    requires post == [] || post[0] == Separator
    requires forall k :: 0 <= k < |pre| ==> !MatchesAt(Pattern(key), pre + Pattern(key) + v + post, k)
    ensures Extract(key, pre + Pattern(key) + v + post) == Some(v)
  {
    var p := Pattern(key);
    var s := pre + p + v + post;
    var i := |pre|;
    assert s[i..i + |p| + |v|] == p + v;
    assert s[i + |p|] == v[0];
    assert MatchesAt(p, s, i);
    assert CapturedAt(p, s, i, v);
    ExtractSpec(key, s, v);
  }

  /** Matches of a `;`-free pattern never straddle a `;`: in `a;b` they are
      the matches of `a` and, shifted, those of `b`. */
  lemma MatchInFirst(p: string, a: string, b: string, i: int)
    requires Separator !in p
    requires 0 <= i <= |a|
    ensures MatchesAt(p, a + [Separator] + b, i) <==> MatchesAt(p, a, i)
  {
    var s := a + [Separator] + b;
    if i + |p| < |a| {
      assert s[i..i + |p|] == a[i..i + |p|];
    } else {
      assert !MatchesAt(p, s, i) by {
        if |a| < i + |p| < |s| {
          assert s[i..i + |p|][|a| - i] == Separator;
        }
      }
    }
  }

  lemma MatchInSecond(p: string, a: string, b: string, j: int)
    requires 0 <= j
    ensures MatchesAt(p, a + [Separator] + b, |a| + 1 + j) <==> MatchesAt(p, b, j)
  {
    var s := a + [Separator] + b;
    var i := |a| + 1 + j;
    if i + |p| < |s| {
      assert s[i..i + |p|] == b[j..j + |p|];
    }
  }

  /** Extraction from `a;b` for a key without `;`: the value from `a` when
      `a` has one, otherwise the value from `b`. The fields of a connection
      string are scanned left to right and each is self-contained. */
  lemma ExtractSplit(key: string, a: string, b: string)
    requires Separator !in key
    ensures Extract(key, a + [Separator] + b) == if Extract(key, a).Some? then Extract(key, a) else Extract(key, b)
  {
    var p := Pattern(key);
    assert Separator !in p by {
      assert p == key + ['='];
    }
    if FirstMatchFrom(p, a, 0).Some? {
      ExtractSplitFirst(key, a, b, FirstMatchFrom(p, a, 0).value);
    } else if FirstMatchFrom(p, b, 0).Some? {
      ExtractSplitSecond(key, a, b, FirstMatchFrom(p, b, 0).value);
    } else {
      ExtractSplitNeither(key, a, b);
    }
  }

  /** No match of `a;b` lies before `|a| + 1` when `a` has none. */
  lemma NoMatchInFirst(p: string, a: string, b: string, k: int)
    requires Separator !in p
    requires FirstMatchFrom(p, a, 0).None?
    requires 0 <= k <= |a|
    ensures !MatchesAt(p, a + [Separator] + b, k)
  {
    MatchInFirst(p, a, b, k);
  }

  lemma ExtractSplitFirst(key: string, a: string, b: string, i: nat)
    requires Separator !in Pattern(key)
    requires FirstMatchFrom(Pattern(key), a, 0) == Some(i)
    ensures Extract(key, a + [Separator] + b) == Extract(key, a)
  {
    var p := Pattern(key);
    var s := a + [Separator] + b;
    forall k | 0 <= k <= i
      ensures MatchesAt(p, s, k) <==> MatchesAt(p, a, k)
    {
      MatchInFirst(p, a, b, k);
    }
    assert Leftmost(p, s, i);
    ExtractAtLeftmost(key, s, i);
    var e := RunEnd(a, i + |p|, Separator);
    RunEndInPrefix(a, b, i + |p|, Separator);
    SliceInFirst(a, [Separator] + b, i + |p|, e);
    assert s == a + ([Separator] + b);
  }

  lemma ExtractSplitSecond(key: string, a: string, b: string, j: nat)
    requires Separator !in Pattern(key)
    requires FirstMatchFrom(Pattern(key), a, 0).None?
    requires FirstMatchFrom(Pattern(key), b, 0) == Some(j)
    ensures Extract(key, a + [Separator] + b) == Extract(key, b)
  {
    LeftmostInSecond(Pattern(key), a, b, j);
    assert Leftmost(Pattern(key), b, j);
    ExtractShifted(key, a + [Separator], b, j);
  }

  /** Extraction is unaffected by a prefix that holds no earlier match. */
  lemma ExtractShifted(key: string, a: string, b: string, j: nat)
    requires Leftmost(Pattern(key), a + b, |a| + j)
    requires Leftmost(Pattern(key), b, j)
    ensures Extract(key, a + b) == Extract(key, b)
  {
    var p := Pattern(key);
    var bStart := j + |p|;
    ExtractAtLeftmost(key, a + b, |a| + j);
    ExtractAtLeftmost(key, b, j);
    var e := RunEnd(b, bStart, Separator);
    RunEndAfterPrefix(a, b, bStart, Separator);
    SliceInSecond(a, b, bStart, e);
  }

  /** When only `b` has a match, the leftmost match of `a;b` is `b`'s, shifted. */
  lemma LeftmostInSecond(p: string, a: string, b: string, j: nat)
    requires Separator !in p
    requires FirstMatchFrom(p, a, 0).None?
    requires FirstMatchFrom(p, b, 0) == Some(j)
    ensures Leftmost(p, a + [Separator] + b, |a| + 1 + j)
  {
    var s := a + [Separator] + b;
    forall k | 0 <= k < |a| + 1 + j
      ensures !MatchesAt(p, s, k)
    {
      NoMatchInSplit(p, a, b, k);
    }
    MatchInSecond(p, a, b, j);
  }

  lemma ExtractSplitNeither(key: string, a: string, b: string)
    requires Separator !in Pattern(key)
    requires FirstMatchFrom(Pattern(key), a, 0).None?
    requires FirstMatchFrom(Pattern(key), b, 0).None?
    ensures Extract(key, a + [Separator] + b).None?
  {
    var p := Pattern(key);
    var s := a + [Separator] + b;
    forall k | 0 <= k
      ensures !MatchesAt(p, s, k)
    {
      NoMatchInSplit(p, a, b, k);
    }
  }

  /** A position of `a;b` matches only inside `b`, and then only where `b`
      itself matches, when `a` has no match. */
  lemma NoMatchInSplit(p: string, a: string, b: string, k: int)
    requires Separator !in p
    requires FirstMatchFrom(p, a, 0).None?
    requires 0 <= k
    requires k > |a| ==> !MatchesAt(p, b, k - |a| - 1)
    ensures !MatchesAt(p, a + [Separator] + b, k)
  {
    if k <= |a| {
      NoMatchInFirst(p, a, b, k);
    } else {
      MatchInSecond(p, a, b, k - |a| - 1);
    }
  }

  /** A key one of whose characters (or `=`) is missing from the string
      cannot be extracted: the load-time TypeError. */
  lemma AbsentCharNoMatch(key: string, s: string, k: nat)
    requires k < |Pattern(key)|
    requires Pattern(key)[k] !in s
    ensures Extract(key, s).None?
  {
    // A match at `i` is in particular an occurrence of the pattern at `i`.
    AbsentCharExcludes(s, Pattern(key), k);
    forall i | 0 <= i
      ensures !MatchesAt(Pattern(key), s, i)
    {
      assert !OccursAt(s, Pattern(key), i);
    }
    ExtractFailsIffNoMatch(key, s);
  }

  /** The fields of a connection string written out with `;` between them. */
  function Join(fields: seq<string>): string
  {
    if |fields| <= 1 then (if fields == [] then [] else fields[0])
    else fields[0] + [Separator] + Join(fields[1..])
  }

  /** The value extracted from the first field that yields one. */
  function FirstFound(key: string, fields: seq<string>): Option<string>
  {
    if fields == [] then None
    else if Extract(key, fields[0]).Some? then Extract(key, fields[0])
    else FirstFound(key, fields[1..])
  }

  /** Extracting from the joined string is extracting field by field, first
      field first: no match or value ever crosses a field boundary. */
  lemma {:induction false} ExtractJoin(key: string, fields: seq<string>)
    requires Separator !in key
    ensures Extract(key, Join(fields)) == FirstFound(key, fields)
    decreases |fields|
  {
    if |fields| > 1 {
      ExtractSplit(key, fields[0], Join(fields[1..]));
      ExtractJoin(key, fields[1..]);
    } else if fields == [] {
      assert FirstMatchFrom(Pattern(key), [], 0).None?;
    }
  }

  /** Every field that yields a value yields the same one. */
  ghost predicate AgreeOn(key: string, fields: seq<string>)
  {
    forall i, j :: 0 <= i < |fields| && 0 <= j < |fields| && Extract(key, fields[i]).Some? && Extract(key, fields[j]).Some?
      ==> Extract(key, fields[i]) == Extract(key, fields[j])
  }

  /** What the first successful field yields is what some field yields, and
      a field that yields a value guarantees a result. */
  lemma {:induction false} FirstFoundIsSomeField(key: string, fields: seq<string>)
    ensures FirstFound(key, fields).Some? ==> exists i :: 0 <= i < |fields| && Extract(key, fields[i]) == FirstFound(key, fields)
    ensures FirstFound(key, fields).None? ==> forall i :: 0 <= i < |fields| ==> Extract(key, fields[i]).None?
    decreases |fields|
  {
    if fields != [] && Extract(key, fields[0]).None? {
      FirstFoundIsSomeField(key, fields[1..]);
      if FirstFound(key, fields[1..]).Some? {
        var i :| 0 <= i < |fields[1..]| && Extract(key, fields[1..][i]) == FirstFound(key, fields[1..]);
        assert Extract(key, fields[i + 1]) == FirstFound(key, fields);
      } else {
        forall i | 0 <= i < |fields|
          ensures Extract(key, fields[i]).None?
        {
          if i > 0 {
            assert fields[i] == fields[1..][i - 1];
          }
        }
      }
    } else if fields != [] {
      assert Extract(key, fields[0]) == FirstFound(key, fields);
    }
  }

  /** A rearrangement keeps some field that yields a value, if there was one. */
  lemma FoundSurvivesReordering(key: string, fields: seq<string>, reordered: seq<string>)
    requires multiset(fields) == multiset(reordered)
    ensures FirstFound(key, fields).Some? ==> FirstFound(key, reordered).Some?
  {
    FirstFoundIsSomeField(key, fields);
    FirstFoundIsSomeField(key, reordered);
    if FirstFound(key, fields).Some? {
      var i :| 0 <= i < |fields| && Extract(key, fields[i]) == FirstFound(key, fields);
      assert fields[i] in multiset(reordered);
      var i' :| 0 <= i' < |reordered| && reordered[i'] == fields[i];
      assert Extract(key, reordered[i']).Some?;
    }
  }

  /** Field order does not matter: any rearrangement of the fields yields
      the same value, provided the fields that carry the key agree on it
      (in particular when only one field carries it). */
  lemma FieldOrderIrrelevant(key: string, fields: seq<string>, reordered: seq<string>)
    requires Separator !in key
    requires multiset(fields) == multiset(reordered)
    requires AgreeOn(key, fields)
    ensures Extract(key, Join(fields)) == Extract(key, Join(reordered))
  {
    ExtractJoin(key, fields);
    ExtractJoin(key, reordered);
    FoundSurvivesReordering(key, fields, reordered);
    FoundSurvivesReordering(key, reordered, fields);
    if FirstFound(key, fields).Some? {
      FirstFoundIsSomeField(key, fields);
      FirstFoundIsSomeField(key, reordered);
      var i :| 0 <= i < |fields| && Extract(key, fields[i]) == FirstFound(key, fields);
      var j :| 0 <= j < |reordered| && Extract(key, reordered[j]) == FirstFound(key, reordered);
      assert reordered[j] in multiset(fields);
      var j' :| 0 <= j' < |fields| && fields[j'] == reordered[j];
      assert Extract(key, fields[i]) == Extract(key, fields[j']);
    }
  }

  /** An empty value does not stop the scan: the regex needs at least one
      value character, so it moves on to the next occurrence of the key. */
  lemma EmptyValueSkipped(key: string, v: string)
    requires Separator !in key
    requires v != [] && Separator !in v
    ensures Extract(key, Pattern(key) + [Separator] + Pattern(key) + v) == Some(v)
  {
    var p := Pattern(key);
    var b := p + v;
    assert b == [] + p + v + [];
    ExtractFindsField(key, [], v, []);
    assert Extract(key, p).None? by {
      assert FirstMatchFrom(p, p, 0).None?;
    }
    ExtractSplit(key, p, b);
    assert p + [Separator] + p + v == p + [Separator] + b;
  }

  /** A key present only with an empty value is a failure, like an absent one. */
  lemma OnlyEmptyValueFails(key: string, rest: string)
    requires Separator !in key
    requires Extract(key, rest).None?
    ensures Extract(key, Pattern(key) + [Separator] + rest).None?
  {
    ExtractSplit(key, Pattern(key), rest);
  }

  /** The pattern is not anchored to a field start, so a longer key name
      ending in the key is matched too (`XAccountKey=` for `AccountKey`). */
  lemma LongerKeyNameMatches(key: string, c: char, v: string, post: string)
    requires c != Pattern(key)[0]
    requires v != [] && Separator !in v
    requires post == [] || post[0] == Separator
    ensures Extract(key, [c] + Pattern(key) + v + post) == Some(v)
  {
    var s := [c] + Pattern(key) + v + post;
    assert !MatchesAt(Pattern(key), s, 0) by {
      assert s[0..|Pattern(key)|][0] == c;
    }
    ExtractFindsField(key, [c], v, post);
  }

}
