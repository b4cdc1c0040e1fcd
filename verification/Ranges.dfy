/** Half-open byte ranges: why comparing neighbours after an unstable sort is enough. */
module Ranges {
  import opened Prelude

  datatype Range = Range(start: nat, end: nat, path: string)

  ghost predicate Apart(a: Range, b: Range) {
    a.end <= b.start || b.end <= a.start
  }

  ghost predicate HasByte(a: Range, x: int) {
    a.start <= x < a.end
  }

  /** Non-empty ranges are apart exactly when they share no byte. */
  lemma ApartSharesNothing(a: Range, b: Range)
    requires a.start < a.end && b.start < b.end
    ensures Apart(a, b) <==> forall x :: HasByte(a, x) ==> !HasByte(b, x)
  {
    var x := Max(a.start, b.start);
    assert !Apart(a, b) ==> HasByte(a, x) && HasByte(b, x);
  }

  ghost predicate NonEmpty(s: seq<Range>) {
    forall i :: 0 <= i < |s| ==> s[i].start < s[i].end
  }

  ghost predicate PairwiseApart(s: seq<Range>) {
    forall i, j :: 0 <= i < j < |s| ==> Apart(s[i], s[j])
  }

  ghost predicate SortedByStart(s: seq<Range>) {
    forall i, j :: 0 <= i < j < |s| ==> s[i].start <= s[j].start
  }

  ghost predicate NeighboursApart(s: seq<Range>) {
    forall i {:trigger s[i]} :: 0 <= i < |s| - 1 ==> s[i].end <= s[i + 1].start
  }

  method InsertionPoint(r: seq<Range>, start: nat) returns (k: nat)
    ensures k <= |r|
    ensures forall j :: 0 <= j < k ==> r[j].start < start
    ensures k < |r| ==> start <= r[k].start
  {
    k := 0;
    while k < |r| && r[k].start < start
      invariant k <= |r|
      invariant forall j :: 0 <= j < k ==> r[j].start < start
    {
      k := k + 1;
    }
  }

  /** An insertion sort that puts a new element in front of its ties, so it is not stable. */
  method SortUnstableByStart(s: seq<Range>) returns (r: seq<Range>)
    ensures SortedByStart(r) && multiset(r) == multiset(s)
  {
    r := [];
    for i := 0 to |s|
      invariant SortedByStart(r) && multiset(r) == multiset(s[..i])
    {
      var k := InsertionPoint(r, s[i].start);
      InsertSorted(r, s[i], k);
      assert s[..i + 1] == s[..i] + [s[i]];
      r := r[..k] + [s[i]] + r[k..];
    }
    assert s[..|s|] == s;
  }

  /** The scan over neighbouring pairs: the first pair that is not apart. */
  method FirstMeeting(s: seq<Range>) returns (found: Option<nat>)
    ensures found.None? <==> NeighboursApart(s)
    ensures found.Some? ==> found.value + 1 < |s| && s[found.value + 1].start < s[found.value].end
  {
    var i := 0;
    while i + 1 < |s|
      invariant i == 0 || i < |s|
      invariant forall k {:trigger s[k]} :: 0 <= k < i ==> s[k].end <= s[k + 1].start
    {
      if s[i + 1].start < s[i].end { return Some(i); }
      i := i + 1;
    }
    return None;
  }

  lemma InsertSorted(r: seq<Range>, x: Range, k: nat)
    requires SortedByStart(r) && k <= |r|
    requires forall j :: 0 <= j < k ==> r[j].start < x.start
    requires k < |r| ==> x.start <= r[k].start
    ensures SortedByStart(r[..k] + [x] + r[k..])
    ensures multiset(r[..k] + [x] + r[k..]) == multiset(r) + multiset{x}
  {
    assert r == r[..k] + r[k..];
  }

  lemma EqualEntries(t: seq<Range>, i: nat, j: nat)
    requires i < j < |t| && t[i] == t[j]
    ensures multiset(t)[t[i]] >= 2
  {
    assert t == t[..i] + [t[i]] + t[i + 1..j] + [t[j]] + t[j + 1..];
  }

  lemma TwoOccurrences(s: seq<Range>, x: Range) returns (i: nat, j: nat)
    requires multiset(s)[x] >= 2
    ensures i < j < |s| && s[i] == s[j] == x
  {
    i :| 0 <= i < |s| && s[i] == x;
    var rest := s[..i] + s[i + 1..];
    assert s == s[..i] + [x] + s[i + 1..];
    assert multiset(s) == multiset(rest) + multiset{x};
    assert x in multiset(rest);
    var k :| 0 <= k < |rest| && rest[k] == x;
    j := if k < i then k else k + 1;
    if j < i {
      i, j := j, i;
    }
  }

  /** Two different entries of `s`, carrying these two paths, that share a byte. */
  ghost predicate Clash(s: seq<Range>, path: string, other: string) {
    exists i, j :: 0 <= i < |s| && 0 <= j < |s| && i != j
      && s[i].path == path && s[j].path == other && !Apart(s[i], s[j])
  }

  lemma PermutationClash(s: seq<Range>, t: seq<Range>, i: nat, j: nat)
    requires multiset(s) == multiset(t) && i < j < |t| && !Apart(t[i], t[j])
    ensures Clash(s, t[i].path, t[j].path)
  {
    assert t[i] in multiset(t) && t[j] in multiset(t);
    if t[i] == t[j] {
      EqualEntries(t, i, j);
      var m, n := TwoOccurrences(s, t[i]);
    }
  }

  /** Whether ranges are pairwise apart does not depend on their order. */
  lemma PermutationApart(s: seq<Range>, t: seq<Range>)
    requires multiset(s) == multiset(t) && NonEmpty(s) && PairwiseApart(s)
    ensures PairwiseApart(t)
  {
    forall i, j | 0 <= i < j < |t| ensures Apart(t[i], t[j]) {
      assert t[i] in multiset(t) && t[j] in multiset(t);
      var k :| 0 <= k < |s| && s[k] == t[i];
      var l :| 0 <= l < |s| && s[l] == t[j];
      if t[i] == t[j] {
        EqualEntries(t, i, j);
        var m, n := TwoOccurrences(s, t[i]);
        assert false;
      }
    }
  }

  lemma AppendApart(s: seq<Range>, t: seq<Range>)
    ensures PairwiseApart(s + t) <==>
      PairwiseApart(s) && PairwiseApart(t) && forall a, b :: a in s && b in t ==> Apart(a, b)
  {
    var u := s + t;
    if PairwiseApart(u) {
      assert forall i :: 0 <= i < |s| ==> s[i] == u[i];
      assert forall j :: 0 <= j < |t| ==> t[j] == u[|s| + j];
    }
  }

  lemma SortedNeighbours(s: seq<Range>, i: nat, j: nat)
    requires SortedByStart(s) && NonEmpty(s) && NeighboursApart(s) && i < j < |s|
    ensures s[i].end <= s[j].start
  {
    assert s[i].end <= s[i + 1].start <= s[j].start;
  }

  lemma NonEmptyPermutation(s: seq<Range>, t: seq<Range>)
    requires NonEmpty(s) && multiset(t) == multiset(s)
    ensures NonEmpty(t)
  {
    forall i | 0 <= i < |t| ensures t[i].start < t[i].end {
      assert t[i] in multiset(s);
    }
  }

  /** For every sorted permutation, whatever order ties took: neighbours are apart iff all pairs are. */
  lemma NeighbourCheckExact(s: seq<Range>, sorted: seq<Range>)
    requires NonEmpty(s) && multiset(sorted) == multiset(s) && SortedByStart(sorted)
    ensures NeighboursApart(sorted) <==> PairwiseApart(s)
  {
    NonEmptyPermutation(s, sorted);
    if NeighboursApart(sorted) {
      forall i, j | 0 <= i < j < |sorted| ensures Apart(sorted[i], sorted[j]) {
        SortedNeighbours(sorted, i, j);
      }
      PermutationApart(sorted, s);
    }
    if PairwiseApart(s) {
      PermutationApart(s, sorted);
      forall i | 0 <= i < |sorted| - 1 ensures sorted[i].end <= sorted[i + 1].start {
        assert Apart(sorted[i], sorted[i + 1]);
      }
    }
  }
}
