/** The string facilities the synchronizer borrows from Go's standard library:
    the order of `<` on strings (and so of `sort.Strings`), an insertion sort
    standing for the library sorts, `strings.ReplaceAll`, and ASCII
    `strings.ToLower`. */
module Strings {

  // ---------------------------------------------------------------------------
  // Order
  // ---------------------------------------------------------------------------

  /** Go's `a < b` on strings: lexicographic on bytes. A Dafny `char` is a
      Unicode scalar value, and UTF-8 encoding preserves code-point order, so
      lexicographic order on characters is the same order. */
  predicate Less(a: string, b: string)
    decreases |a|
  {
    if |a| == 0 then |b| > 0
    else if |b| == 0 then false
    else if a[0] != b[0] then a[0] < b[0]
    else Less(a[1..], b[1..])
  }

  predicate LessEq(a: string, b: string) {
    a == b || Less(a, b)
  }

  lemma {:induction false} LessIrreflexive(a: string)
    ensures !Less(a, a)
    decreases |a|
  {
    if |a| > 0 {
      LessIrreflexive(a[1..]);
    }
  }

  lemma {:induction false} LessAsymmetric(a: string, b: string)
    requires Less(a, b)
    ensures !Less(b, a)
    decreases |a|
  {
    if |a| > 0 && |b| > 0 && a[0] == b[0] {
      LessAsymmetric(a[1..], b[1..]);
    }
  }

  lemma {:induction false} LessTransitive(a: string, b: string, c: string)
    requires Less(a, b) && Less(b, c)
    ensures Less(a, c)
    decreases |a|
  {
    if |a| > 0 && a[0] == b[0] && b[0] == c[0] {
      LessTransitive(a[1..], b[1..], c[1..]);
    }
  }

  lemma {:induction false} LessTotal(a: string, b: string)
    ensures a == b || Less(a, b) || Less(b, a)
    decreases |a|
  {
    if |a| > 0 && |b| > 0 && a[0] == b[0] {
      LessTotal(a[1..], b[1..]);
      if a[1..] == b[1..] {
        assert a == [a[0]] + a[1..] && b == [b[0]] + b[1..];
      }
    }
  }

  lemma LessEqTransitive(a: string, b: string, c: string)
    requires LessEq(a, b) && LessEq(b, c)
    ensures LessEq(a, c)
  {
    if a != b && b != c {
      LessTransitive(a, b, c);
    }
  }

  // ---------------------------------------------------------------------------
  // Sorting and distinctness
  // ---------------------------------------------------------------------------

  /** The identity on strings, the sort key of `sort.Strings`. */
  function Identity(s: string): string {
    s
  }

  /** `s` is in non-decreasing order of `key`. */
  ghost predicate SortedBy<T>(s: seq<T>, key: T -> string) {
    forall i, j :: 0 <= i < j < |s| ==> LessEq(key(s[i]), key(s[j]))
  }

  /** `s` is in strictly increasing order of `key`. */
  ghost predicate StrictlySortedBy<T>(s: seq<T>, key: T -> string) {
    forall i, j :: 0 <= i < j < |s| ==> Less(key(s[i]), key(s[j]))
  }

  /** No two elements of `s` share a key. */
  ghost predicate DistinctBy<T>(s: seq<T>, key: T -> string) {
    forall i, j :: 0 <= i < j < |s| ==> key(s[i]) != key(s[j])
  }

  lemma InsertHeadSorted<T>(x: T, s: seq<T>, key: T -> string)
    requires SortedBy(s, key) && |s| > 0 && LessEq(key(x), key(s[0]))
    ensures SortedBy([x] + s, key)
  {
    var r := [x] + s;
    forall i, j | 0 <= i < j < |r|
      ensures LessEq(key(r[i]), key(r[j]))
    {
      if i == 0 && j > 1 {
        LessEqTransitive(key(x), key(s[0]), key(s[j - 1]));
      }
    }
  }

  lemma InsertStepSorted<T>(x: T, s: seq<T>, t: seq<T>, key: T -> string)
    requires SortedBy(s, key) && |s| > 0 && !LessEq(key(x), key(s[0]))
    requires SortedBy(t, key) && multiset(t) == multiset(s[1..]) + multiset{x}
    ensures SortedBy([s[0]] + t, key)
  {
    LessTotal(key(x), key(s[0]));
    var r := [s[0]] + t;
    forall i, j | 0 <= i < j < |r|
      ensures LessEq(key(r[i]), key(r[j]))
    {
      if i == 0 {
        var y := t[j - 1];
        assert y in multiset(t);
        if y != x {
          assert y in multiset(s[1..]);
          var k :| 0 <= k < |s[1..]| && s[1..][k] == y;
          assert s[k + 1] == y;
        }
      }
    }
  }

  /** One insertion-sort step: put `x` into the sorted `s`. */
  function InsertBy<T(==)>(x: T, s: seq<T>, key: T -> string): (r: seq<T>)
    requires SortedBy(s, key)
    ensures SortedBy(r, key)
    ensures multiset(r) == multiset(s) + multiset{x}
    decreases |s|
  {
    if |s| == 0 then [x]
    else if LessEq(key(x), key(s[0])) then
      InsertHeadSorted(x, s, key);
      [x] + s
    else
      var t := InsertBy(x, s[1..], key);
      InsertStepSorted(x, s, t, key);
      assert s == [s[0]] + s[1..];
      [s[0]] + t
  }

  /** A sort by `key`; it stands for `sort.Strings` and for the server-side
      sort of a query. The result is ordered and a permutation of the input. */
  function SortBy<T(==)>(s: seq<T>, key: T -> string): (r: seq<T>)
    ensures SortedBy(r, key)
    ensures multiset(r) == multiset(s)
    decreases |s|
  {
    if |s| == 0 then []
    else
      assert s == [s[0]] + s[1..];
      InsertBy(s[0], SortBy(s[1..], key), key)
  }

  /** Repeat-free sequences hold each value at most once. */
  lemma {:induction false} DistinctMultiplicity<T>(s: seq<T>, key: T -> string)
    requires DistinctBy(s, key)
    ensures forall x :: multiset(s)[x] <= 1
    decreases |s|
  {
    if |s| > 0 {
      var tail := s[1..];
      assert DistinctBy(tail, key) by {
        forall i, j | 0 <= i < j < |tail|
          ensures key(tail[i]) != key(tail[j])
        {
          assert tail[i] == s[i + 1] && tail[j] == s[j + 1];
        }
      }
      DistinctMultiplicity(tail, key);
      assert s == [s[0]] + tail;
      forall k | 0 <= k < |tail|
        ensures tail[k] != s[0]
      {
        assert tail[k] == s[k + 1];
      }
      assert multiset(s) == multiset{s[0]} + multiset(tail);
    }
  }

  lemma MultiplicityDistinct<T>(s: seq<T>)
    requires forall x :: multiset(s)[x] <= 1
    ensures forall i, j :: 0 <= i < j < |s| ==> s[i] != s[j]
  {
    forall i, j | 0 <= i < j < |s|
      ensures s[i] != s[j]
    {
      RepeatCounted(s, i, j);
    }
  }

  lemma RepeatCounted<T>(s: seq<T>, i: int, j: int)
    requires 0 <= i < j < |s|
    ensures s[i] == s[j] ==> multiset(s)[s[i]] >= 2
  {
    var v := s[i];
    assert s == s[..j] + s[j..];
    assert s[..j][i] == v;
    assert multiset(s) == multiset(s[..j]) + multiset(s[j..]);
    assert multiset(s[..j])[v] >= 1;
    assert s[j..][0] == s[j];
  }

  /** Reordering keeps keys distinct. */
  lemma PermutationKeepsDistinct<T>(a: seq<T>, b: seq<T>, key: T -> string)
    requires multiset(a) == multiset(b) && DistinctBy(a, key)
    ensures DistinctBy(b, key)
  {
    DistinctMultiplicity(a, key);
    MultiplicityDistinct(b);
    forall i, j | 0 <= i < j < |b|
      ensures key(b[i]) != key(b[j])
    {
      assert b[i] in multiset(a) && b[j] in multiset(a);
      var p :| 0 <= p < |a| && a[p] == b[i];
      var q :| 0 <= q < |a| && a[q] == b[j];
      assert p != q;
    }
  }

  /** A sequence sorted by distinct keys is strictly sorted. */
  lemma SortedDistinctIsStrict<T>(s: seq<T>, key: T -> string)
    requires SortedBy(s, key) && DistinctBy(s, key)
    ensures StrictlySortedBy(s, key)
  {
  }

  lemma SameMembersSameEmptiness<T>(a: seq<T>, b: seq<T>)
    requires forall x :: x in a <==> x in b
    ensures |a| == 0 <==> |b| == 0
  {
    if |a| > 0 {
      assert a[0] in b;
    }
    if |b| > 0 {
      assert b[0] in a;
    }
  }

  /** A set of strings has exactly one strictly increasing enumeration. */
  lemma {:induction false} StrictlySortedUnique(a: seq<string>, b: seq<string>)
    requires StrictlySortedBy(a, Identity) && StrictlySortedBy(b, Identity)
    requires forall x :: x in a <==> x in b
    ensures a == b
    decreases |a|
  {
    SameMembersSameEmptiness(a, b);
    if |a| > 0 {
      SortedHeadsEqual(a, b);
      SortedTail(a);
      SortedTail(b);
      SortedTailsSameMembers(a, b);
      StrictlySortedUnique(a[1..], b[1..]);
      assert a == [a[0]] + a[1..] && b == [b[0]] + b[1..];
    }
  }

  /** Two strictly sorted enumerations of the same members start alike:
      both start at the least member. */
  lemma SortedHeadsEqual(a: seq<string>, b: seq<string>)
    requires StrictlySortedBy(a, Identity) && StrictlySortedBy(b, Identity)
    requires forall x :: x in a <==> x in b
    requires |a| > 0 && |b| > 0
    ensures a[0] == b[0]
  {
    assert a[0] in a;
    var j :| 0 <= j < |b| && b[j] == a[0];
    assert b[0] in b;
    var i :| 0 <= i < |a| && a[i] == b[0];
    if a[0] != b[0] {
      assert Less(a[0], a[i]) && Less(b[0], b[j]);
      LessAsymmetric(a[0], b[0]);
    }
  }

  lemma SortedTail(a: seq<string>)
    requires StrictlySortedBy(a, Identity) && |a| > 0
    ensures StrictlySortedBy(a[1..], Identity)
  {
    var a' := a[1..];
    forall p, q | 0 <= p < q < |a'|
      ensures Less(Identity(a'[p]), Identity(a'[q]))
    {
      assert a'[p] == a[p + 1] && a'[q] == a[q + 1];
    }
  }

  /** Removing the common least member leaves the same members. */
  lemma SortedTailsSameMembers(a: seq<string>, b: seq<string>)
    requires StrictlySortedBy(a, Identity) && StrictlySortedBy(b, Identity)
    requires forall x :: x in a <==> x in b
    requires |a| > 0 && |b| > 0 && a[0] == b[0]
    ensures forall x :: x in a[1..] <==> x in b[1..]
  {
    forall x | x in a[1..]
      ensures x in b[1..]
    {
      TailMember(a, b, x);
    }
    forall x | x in b[1..]
      ensures x in a[1..]
    {
      TailMember(b, a, x);
    }
  }

  lemma TailMember(a: seq<string>, b: seq<string>, x: string)
    requires StrictlySortedBy(a, Identity) && StrictlySortedBy(b, Identity)
    requires forall y :: y in a <==> y in b
    requires |a| > 0 && |b| > 0 && a[0] == b[0]
    requires x in a[1..]
    ensures x in b[1..]
  {
    var p :| 0 <= p < |a[1..]| && a[1..][p] == x;
    assert Less(a[0], a[p + 1]);
    LessIrreflexive(x);
    assert x in b && x != b[0];
    var q :| 0 <= q < |b| && b[q] == x;
    assert b[1..][q - 1] == x;
  }

  // ---------------------------------------------------------------------------
  // strings.ReplaceAll
  // ---------------------------------------------------------------------------

  /** `sub` occurs somewhere in `s`. */
  ghost predicate Contains(s: string, sub: string) {
    exists i :: OccursAt(s, sub, i)
  }

  /** `sub` occurs in `s` starting at index `i`. */
  ghost predicate OccursAt(s: string, sub: string, i: int) {
    0 <= i && i + |sub| <= |s| && s[i..i + |sub|] == sub
  }

  /** Go's `strings.ReplaceAll(s, pat, repl)` for a non-empty `pat`: one
      left-to-right pass that replaces each leftmost non-overlapping
      occurrence of `pat`; the text put in is never scanned again. */
  function ReplaceAll(s: string, pat: string, repl: string): (r: string)
    requires |pat| > 0
    ensures |repl| == |pat| ==> |r| == |s|
    ensures Count(s, pat) == 0 ==> r == s
    decreases |s|
  {
    if |s| < |pat| then s
    else if s[..|pat|] == pat then repl + ReplaceAll(s[|pat|..], pat, repl)
    else [s[0]] + ReplaceAll(s[1..], pat, repl)
  }

  /** The number of occurrences `ReplaceAll` replaces. */
  function Count(s: string, pat: string): nat
    requires |pat| > 0
    decreases |s|
  {
    if |s| < |pat| then 0
    else if s[..|pat|] == pat then 1 + Count(s[|pat|..], pat)
    else Count(s[1..], pat)
  }

  /** Each replacement changes the length by `|repl| - |pat|`. */
  lemma {:induction false} ReplaceAllLength(s: string, pat: string, repl: string)
    requires |pat| > 0
    ensures |ReplaceAll(s, pat, repl)| == |s| + Count(s, pat) * (|repl| - |pat|)
    decreases |s|
  {
    var d := |repl| - |pat|;
    if |s| < |pat| {
      assert Count(s, pat) == 0;
    } else if s[..|pat|] == pat {
      var rest := s[|pat|..];
      var tail := ReplaceAll(rest, pat, repl);
      ReplaceAllLength(rest, pat, repl);
      assert ReplaceAll(s, pat, repl) == repl + tail;
      assert Count(s, pat) == 1 + Count(rest, pat);
      OneMore(|tail|, |rest|, Count(rest, pat), d);
    } else {
      var rest := s[1..];
      ReplaceAllLength(rest, pat, repl);
      assert Count(s, pat) == Count(rest, pat);
      assert ReplaceAll(s, pat, repl) == [s[0]] + ReplaceAll(rest, pat, repl);
    }
  }

  lemma OneMore(x: int, base: int, c: int, d: int)
    requires x == base + c * d
    ensures x + d == base + (1 + c) * d
  {
  }

  /** A prefix free of the first character of `pat` holds no occurrence
      of `pat`, so the pass copies it unchanged. */
  lemma {:induction false} ReplaceAllSkip(a: string, b: string, pat: string, repl: string)
    requires |pat| > 0 && pat[0] !in a
    ensures ReplaceAll(a + b, pat, repl) == a + ReplaceAll(b, pat, repl)
    decreases |a|
  {
    if |a| == 0 {
      assert a + b == b;
    } else {
      var s := a + b;
      if |s| < |pat| {
        assert ReplaceAll(b, pat, repl) == b;
      } else {
        assert s[..|pat|][0] == a[0];
        assert s[..|pat|] != pat;
        assert ReplaceAll(s, pat, repl) == [s[0]] + ReplaceAll(s[1..], pat, repl);
        assert s[1..] == a[1..] + b;
        ReplaceAllSkip(a[1..], b, pat, repl);
        assert a == [a[0]] + a[1..];
      }
    }
  }

  /** Nothing is replaced exactly when `pat` does not occur. */
  lemma {:induction false} CountZeroIffAbsent(s: string, pat: string)
    requires |pat| > 0
    ensures Count(s, pat) == 0 <==> !Contains(s, pat)
    decreases |s|
  {
    if |s| < |pat| {
      assert Count(s, pat) == 0;
      forall i | OccursAt(s, pat, i)
        ensures false
      {
      }
    } else if s[..|pat|] == pat {
      assert Count(s, pat) > 0;
      assert OccursAt(s, pat, 0);
    } else {
      assert Count(s, pat) == Count(s[1..], pat);
      CountZeroIffAbsent(s[1..], pat);
      ContainsShift(s, pat);
    }
  }

  /** Past a non-matching first position, `s` contains `sub` exactly when
      its tail does. */
  lemma ContainsShift(s: string, sub: string)
    requires |s| >= |sub| > 0 && s[..|sub|] != sub
    ensures Contains(s, sub) <==> Contains(s[1..], sub)
  {
    forall i | OccursAt(s, sub, i)
      ensures OccursAt(s[1..], sub, i - 1)
    {
      assert i != 0;
      assert s[1..][i - 1..i - 1 + |sub|] == s[i..i + |sub|];
    }
    forall i | OccursAt(s[1..], sub, i)
      ensures OccursAt(s, sub, i + 1)
    {
      assert s[i + 1..i + 1 + |sub|] == s[1..][i..i + |sub|];
    }
  }

  /** Without an occurrence of `pat`, `ReplaceAll` returns its input. */
  lemma {:induction false} ReplaceAllAbsent(s: string, pat: string, repl: string)
    requires |pat| > 0 && Count(s, pat) == 0
    ensures ReplaceAll(s, pat, repl) == s
    decreases |s|
  {
    if |s| >= |pat| {
      ReplaceAllAbsent(s[1..], pat, repl);
      assert s == [s[0]] + s[1..];
    }
  }

  /** When `pat` and `repl` differ in length, the input comes back unchanged
      if and only if `pat` does not occur in it. */
  lemma ReplaceAllIdentity(s: string, pat: string, repl: string)
    requires |pat| > 0 && |repl| != |pat|
    ensures ReplaceAll(s, pat, repl) == s <==> !Contains(s, pat)
  {
    CountZeroIffAbsent(s, pat);
    ReplaceAllLength(s, pat, repl);
    var c, d := Count(s, pat), |repl| - |pat|;
    if c == 0 {
      ReplaceAllAbsent(s, pat, repl);
    } else {
      NonZeroProduct(c, d);
    }
  }

  lemma NonZeroProduct(c: nat, d: int)
    requires c > 0 && d != 0
    ensures c * d != 0
  {
    if d > 0 {
      assert c * d >= d;
    } else {
      assert c * d <= d;
    }
  }

  /** Replacing one character, character by character: an independent
      definition of `ReplaceAll` for a one-character `pat`. */
  function ReplaceChar(s: string, c: char, repl: string): string
    decreases |s|
  {
    if |s| == 0 then []
    else (if s[0] == c then repl else [s[0]]) + ReplaceChar(s[1..], c, repl)
  }

  lemma {:induction false} ReplaceAllSingleChar(s: string, c: char, repl: string)
    ensures ReplaceAll(s, [c], repl) == ReplaceChar(s, c, repl)
    decreases |s|
  {
    if |s| > 0 {
      ReplaceAllSingleChar(s[1..], c, repl);
      assert s[..1] == [s[0]];
    }
  }

  lemma {:induction false} ReplaceCharAppend(a: string, b: string, c: char, repl: string)
    ensures ReplaceChar(a + b, c, repl) == ReplaceChar(a, c, repl) + ReplaceChar(b, c, repl)
    decreases |a|
  {
    if |a| > 0 {
      ReplaceCharAppend(a[1..], b, c, repl);
      assert (a + b)[1..] == a[1..] + b;
    } else {
      assert a + b == b;
    }
  }

  lemma {:induction false} ReplaceCharAbsent(s: string, c: char, repl: string)
    requires c !in s
    ensures ReplaceChar(s, c, repl) == s
    decreases |s|
  {
    if |s| > 0 {
      ReplaceCharAbsent(s[1..], c, repl);
      assert s == [s[0]] + s[1..];
    }
  }

  lemma {:induction false} ReplaceCharRemoves(s: string, c: char, repl: string)
    requires c !in repl
    ensures c !in ReplaceChar(s, c, repl)
    decreases |s|
  {
    if |s| > 0 {
      ReplaceCharRemoves(s[1..], c, repl);
    }
  }

  // ---------------------------------------------------------------------------
  // strings.ToLower, restricted to ASCII
  // ---------------------------------------------------------------------------

  predicate IsUpper(c: char) {
    'A' <= c <= 'Z'
  }

  function LowerChar(c: char): char {
    if IsUpper(c) then (c as int + 32) as char else c
  }

  /** `strings.ToLower` on ASCII letters; every other character is kept. */
  function Lower(s: string): (r: string)
    ensures |r| == |s|
    ensures IsLower(r)
    ensures forall i :: 0 <= i < |s| && !IsUpper(s[i]) ==> r[i] == s[i]
    ensures forall i :: 0 <= i < |s| && IsUpper(s[i]) ==> r[i] as int == s[i] as int + 32
  {
    seq(|s|, i requires 0 <= i < |s| => LowerChar(s[i]))
  }

  /** `s` has no upper-case ASCII letter. */
  predicate IsLower(s: string) {
    forall i :: 0 <= i < |s| ==> !IsUpper(s[i])
  }

  lemma LowerFacts(s: string)
    ensures IsLower(Lower(s))
    ensures Lower(Lower(s)) == Lower(s)
    ensures IsLower(s) ==> Lower(s) == s
  {
  }
}
