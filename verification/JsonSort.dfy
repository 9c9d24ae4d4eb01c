/** The merge sort of object members. */
module JsonSort {
  import opened Json

  predicate Less(a: Member, b: Member, caseSensitive: bool) {
    CompareStrings(a.key, b.key, caseSensitive) < 0
  }

  /** The test for a list that needs no sorting. */
  predicate StrictlySorted(ms: seq<Member>, caseSensitive: bool) {
    forall i :: 0 <= i < |ms| - 1 ==> Less(ms[i], ms[i + 1], caseSensitive)
  }

  function Merge(first: seq<Member>, second: seq<Member>, caseSensitive: bool): (r: seq<Member>)
    ensures multiset(r) == multiset(first) + multiset(second)
    decreases |first| + |second|
  {
    if first == [] then second
    else if second == [] then first
    else if Less(first[0], second[0], caseSensitive) then
      assert first == [first[0]] + first[1..];
      [first[0]] + Merge(first[1..], second, caseSensitive)
    else
      assert second == [second[0]] + second[1..];
      [second[0]] + Merge(first, second[1..], caseSensitive)
  }

  /** Sorting leaves sorted lists alone and merges the sorted halves of the others; both halves are shorter. */
  function Sort(ms: seq<Member>, caseSensitive: bool): (r: seq<Member>)
    ensures multiset(r) == multiset(ms)
    decreases |ms|
  {
    if |ms| <= 1 || StrictlySorted(ms, caseSensitive) then ms
    else
      var middle := (|ms| + 1) / 2;
      assert ms == ms[..middle] + ms[middle..];
      Merge(Sort(ms[..middle], caseSensitive), Sort(ms[middle..], caseSensitive), caseSensitive)
  }

  /** Never a larger key before a smaller one. */
  predicate Sorted(ms: seq<Member>, caseSensitive: bool) {
    forall i, j :: 0 <= i < j < |ms| ==> CompareStrings(ms[i].key, ms[j].key, caseSensitive) <= 0
  }

  lemma CompareTransitive(a: string, b: string, c: string, caseSensitive: bool)
    requires Terminated(a) && Terminated(b) && Terminated(c)
    requires CompareStrings(a, b, caseSensitive) <= 0 && CompareStrings(b, c, caseSensitive) <= 0
    ensures CompareStrings(a, c, caseSensitive) <= 0
  {
    var x, y, z := if caseSensitive then a else Fold(a), if caseSensitive then b else Fold(b), if caseSensitive then c
      else Fold(c);
    FoldTerminated(a);
    FoldTerminated(b);
    FoldTerminated(c);
    StrCmpZero(x, y);
    StrCmpZero(y, z);
    if StrCmp(x, y) < 0 && StrCmp(y, z) < 0 {
      StrCmpTransitive(x, y, z);
    }
  }

  lemma CompareAntisymmetric(a: string, b: string, caseSensitive: bool)
    ensures CompareStrings(a, b, caseSensitive) == -CompareStrings(b, a, caseSensitive)
  {
    StrCmpAntisymmetric(a, b);
    StrCmpAntisymmetric(Fold(a), Fold(b));
  }

  predicate TerminatedKeys(ms: seq<Member>) {
    forall m :: m in ms ==> Terminated(m.key)
  }

  /** Everything in b is at least m. */
  predicate Below(m: Member, b: seq<Member>, caseSensitive: bool) {
    forall x :: x in b ==> CompareStrings(m.key, x.key, caseSensitive) <= 0
  }

  lemma SortedCons(m: Member, b: seq<Member>, caseSensitive: bool)
    requires Below(m, b, caseSensitive) && Sorted(b, caseSensitive)
    ensures Sorted([m] + b, caseSensitive)
  {
    var r := [m] + b;
    hide CompareStrings;
    forall i, j | 0 <= i < j < |r|
      ensures CompareStrings(r[i].key, r[j].key, caseSensitive) <= 0
    {
      if i == 0 {
        assert r[j] == b[j - 1] && b[j - 1] in b;
      } else {
        assert r[i] == b[i - 1] && r[j] == b[j - 1];
      }
    }
  }

  lemma HeadBelow(ms: seq<Member>, caseSensitive: bool)
    requires ms != [] && Sorted(ms, caseSensitive)
    ensures Below(ms[0], ms[1..], caseSensitive)
  {
    hide CompareStrings;
    forall x | x in ms[1..]
      ensures CompareStrings(ms[0].key, x.key, caseSensitive) <= 0
    {
      var i :| 0 <= i < |ms[1..]| && ms[1..][i] == x;
      assert ms[i + 1] == x;
    }
  }

  /** A member not above the head of a sorted list is below all of it. */
  lemma BelowAll(m: Member, ms: seq<Member>, caseSensitive: bool)
    requires ms != [] && Sorted(ms, caseSensitive) && Terminated(m.key) && TerminatedKeys(ms)
    requires CompareStrings(m.key, ms[0].key, caseSensitive) <= 0
    ensures Below(m, ms, caseSensitive)
  {
    forall x | x in ms
      ensures CompareStrings(m.key, x.key, caseSensitive) <= 0
    {
      var i :| 0 <= i < |ms| && ms[i] == x;
      if i > 0 {
        CompareTransitive(m.key, ms[0].key, x.key, caseSensitive);
      }
    }
  }

  lemma BelowMerge(m: Member, a: seq<Member>, b: seq<Member>, caseSensitive: bool)
    requires Below(m, a, caseSensitive) && Below(m, b, caseSensitive)
    ensures Below(m, Merge(a, b, caseSensitive), caseSensitive)
  {
    forall x | x in Merge(a, b, caseSensitive)
      ensures CompareStrings(m.key, x.key, caseSensitive) <= 0
    {
      assert x in multiset(Merge(a, b, caseSensitive));
      assert x in multiset(a) || x in multiset(b);
    }
  }

  lemma {:induction false} MergeSorted(a: seq<Member>, b: seq<Member>, caseSensitive: bool)
    requires Sorted(a, caseSensitive) && Sorted(b, caseSensitive) && TerminatedKeys(a) && TerminatedKeys(b)
    ensures Sorted(Merge(a, b, caseSensitive), caseSensitive)
    decreases |a| + |b|
  {
    hide CompareStrings;
    if a != [] && b != [] {
      CompareAntisymmetric(a[0].key, b[0].key, caseSensitive);
      HeadBelow(a, caseSensitive);
      HeadBelow(b, caseSensitive);
      if Less(a[0], b[0], caseSensitive) {
        BelowAll(a[0], b, caseSensitive);
        MergeSorted(a[1..], b, caseSensitive);
        BelowMerge(a[0], a[1..], b, caseSensitive);
        SortedCons(a[0], Merge(a[1..], b, caseSensitive), caseSensitive);
      } else {
        BelowAll(b[0], a, caseSensitive);
        MergeSorted(a, b[1..], caseSensitive);
        BelowMerge(b[0], a, b[1..], caseSensitive);
        SortedCons(b[0], Merge(a, b[1..], caseSensitive), caseSensitive);
      }
    }
  }

  lemma StrictTail(ms: seq<Member>, caseSensitive: bool)
    requires ms != [] && StrictlySorted(ms, caseSensitive) && TerminatedKeys(ms)
    ensures StrictlySorted(ms[1..], caseSensitive) && TerminatedKeys(ms[1..])
  {
    hide Less, Terminated;
    var rest := ms[1..];
    forall i | 0 <= i < |rest| - 1
      ensures Less(rest[i], rest[i + 1], caseSensitive)
    {
      assert Less(ms[i + 1], ms[i + 2], caseSensitive);
    }
    assert forall m :: m in rest ==> m in ms;
  }

  lemma {:induction false} AdjacentSorted(ms: seq<Member>, caseSensitive: bool)
    requires StrictlySorted(ms, caseSensitive) && TerminatedKeys(ms)
    ensures Sorted(ms, caseSensitive)
  {
    hide CompareStrings;
    if |ms| > 1 {
      assert Less(ms[0], ms[1], caseSensitive) && ms[0] in ms;
      StrictTail(ms, caseSensitive);
      AdjacentSorted(ms[1..], caseSensitive);
      BelowAll(ms[0], ms[1..], caseSensitive);
      SortedCons(ms[0], ms[1..], caseSensitive);
      assert ms == [ms[0]] + ms[1..];
    }
  }

  /** Sorting yields an ordered permutation, equal keys included. */
  lemma {:induction false} SortSorts(ms: seq<Member>, caseSensitive: bool)
    requires TerminatedKeys(ms)
    ensures multiset(Sort(ms, caseSensitive)) == multiset(ms)
    ensures Sorted(Sort(ms, caseSensitive), caseSensitive)
    decreases |ms|
  {
    hide CompareStrings, Merge;
    if |ms| <= 1 {
    } else if StrictlySorted(ms, caseSensitive) {
      AdjacentSorted(ms, caseSensitive);
    } else {
      var middle := (|ms| + 1) / 2;
      SortSorts(ms[..middle], caseSensitive);
      SortSorts(ms[middle..], caseSensitive);
      KeysOfPermutation(ms[..middle], Sort(ms[..middle], caseSensitive));
      KeysOfPermutation(ms[middle..], Sort(ms[middle..], caseSensitive));
      MergeSorted(Sort(ms[..middle], caseSensitive), Sort(ms[middle..], caseSensitive), caseSensitive);
    }
  }

  lemma KeysOfPermutation(ms: seq<Member>, r: seq<Member>)
    requires multiset(ms) == multiset(r) && TerminatedKeys(ms)
    ensures TerminatedKeys(r)
  {
    MembersPermuted(r, ms);
  }

  // ----- where every member ends up -----

  predicate Counted(a: string, key: string, upTo: bool, caseSensitive: bool) {
    var c := CompareStrings(a, key, caseSensitive);
    c < 0 || (upTo && c == 0)
  }

  /** How many members are below a key, or not above it. */
  function Count(ms: seq<Member>, key: string, upTo: bool, caseSensitive: bool): (n: nat)
    ensures n <= |ms|
  {
    if ms == [] then 0
    else (if Counted(ms[0].key, key, upTo, caseSensitive) then 1 else 0) + Count(ms[1..], key, upTo, caseSensitive)
  }

  /** The place of member k after sorting: equal members come out in reverse order. */
  function Rank(ms: seq<Member>, k: nat, caseSensitive: bool): (r: nat)
    requires k < |ms|
    ensures r < |ms|
  {
    Count(ms[..k], ms[k].key, false, caseSensitive) + Count(ms[k + 1..], ms[k].key, true, caseSensitive)
  }

  /** The hidden pointer stays with the first node, to the node it led to; any other node that comes first has none. */
  function SortTail(ms: seq<Member>, tail: Tail, caseSensitive: bool): Tail {
    if ms == [] then tail
    else if Rank(ms, 0, caseSensitive) != 0 then Missing
    else
      match tail
      case Kept => TailAt(|ms|, Rank(ms, |ms| - 1, caseSensitive))
      case Inside(k) => if k < |ms| then TailAt(|ms|, Rank(ms, k, caseSensitive)) else tail
      case _ => tail
  }

  lemma {:induction false} CountJoined(a: seq<Member>, b: seq<Member>, key: string, upTo: bool, caseSensitive: bool)
    ensures Count(a + b, key, upTo, caseSensitive)
            == Count(a, key, upTo, caseSensitive) + Count(b, key, upTo, caseSensitive)
  {
    hide Counted;
    if a == [] {
      assert a + b == b;
    } else {
      assert (a + b)[1..] == a[1..] + b;
      CountJoined(a[1..], b, key, upTo, caseSensitive);
    }
  }

  lemma {:induction false} CountMerged(a: seq<Member>, b: seq<Member>, key: string, upTo: bool, caseSensitive: bool)
    ensures Count(Merge(a, b, caseSensitive), key, upTo, caseSensitive)
            == Count(a, key, upTo, caseSensitive) + Count(b, key, upTo, caseSensitive)
    decreases |a| + |b|
  {
    hide Counted, Less;
    if a != [] && b != [] {
      var r := Merge(a, b, caseSensitive);
      if Less(a[0], b[0], caseSensitive) {
        CountMerged(a[1..], b, key, upTo, caseSensitive);
        assert r[1..] == Merge(a[1..], b, caseSensitive);
      } else {
        CountMerged(a, b[1..], key, upTo, caseSensitive);
        assert r[1..] == Merge(a, b[1..], caseSensitive);
      }
    }
  }

  lemma SortedHalves(ms: seq<Member>, caseSensitive: bool)
    ensures var middle := (|ms| + 1) / 2;
            Sort(ms, caseSensitive)
            == if |ms| <= 1 || StrictlySorted(ms, caseSensitive) then ms
               else Merge(Sort(ms[..middle], caseSensitive), Sort(ms[middle..], caseSensitive), caseSensitive)
  {
    hide Merge, StrictlySorted;
  }

  lemma {:induction false} CountSorted(ms: seq<Member>, key: string, upTo: bool, caseSensitive: bool)
    ensures Count(Sort(ms, caseSensitive), key, upTo, caseSensitive) == Count(ms, key, upTo, caseSensitive)
    decreases |ms|
  {
    hide *;
    var middle := (|ms| + 1) / 2;
    SortedHalves(ms, caseSensitive);
    if |ms| > 1 && !StrictlySorted(ms, caseSensitive) {
      CountSorted(ms[..middle], key, upTo, caseSensitive);
      CountSorted(ms[middle..], key, upTo, caseSensitive);
      CountMerged(Sort(ms[..middle], caseSensitive), Sort(ms[middle..], caseSensitive), key, upTo, caseSensitive);
      CountJoined(ms[..middle], ms[middle..], key, upTo, caseSensitive);
      assert ms == ms[..middle] + ms[middle..];
    }
  }

  /** All of them are counted, or none of them. */
  lemma {:induction false} CountAll(ms: seq<Member>, key: string, upTo: bool, caseSensitive: bool)
    ensures (forall m :: m in ms ==> Counted(m.key, key, upTo, caseSensitive))
            <==> Count(ms, key, upTo, caseSensitive) == |ms|
    ensures (forall m :: m in ms ==> !Counted(m.key, key, upTo, caseSensitive))
            <==> Count(ms, key, upTo, caseSensitive) == 0
  {
    hide Counted;
    if ms != [] {
      CountAll(ms[1..], key, upTo, caseSensitive);
      assert ms == [ms[0]] + ms[1..];
    }
  }

  /** The first member is below all others, and the last one above all others. */
  predicate EndsInPlace(ms: seq<Member>, caseSensitive: bool) {
    ms == []
    || (&& (forall m :: m in ms[1..] ==> CompareStrings(ms[0].key, m.key, caseSensitive) < 0)
        && (forall m :: m in ms[..|ms| - 1] ==> CompareStrings(m.key, ms[|ms| - 1].key, caseSensitive) < 0))
  }

  /** The hidden pointer survives a sort exactly when both ends stay where they are. */
  lemma EndsStay(ms: seq<Member>, caseSensitive: bool)
    ensures SortTail(ms, Kept, caseSensitive) == Kept <==> EndsInPlace(ms, caseSensitive)
  {
    if ms != [] {
      var n := |ms| - 1;
      CountAll(ms[1..], ms[0].key, true, caseSensitive);
      CountAll(ms[..n], ms[n].key, false, caseSensitive);
      assert Count(ms[..0], ms[0].key, false, caseSensitive) == 0;
      assert Count(ms[n + 1..], ms[n].key, true, caseSensitive) == 0;
      hide CompareStrings;
      forall m | m in ms[1..]
        ensures CompareStrings(ms[0].key, m.key, caseSensitive) < 0 <==> !Counted(m.key, ms[0].key, true, caseSensitive)
      {
        CompareAntisymmetric(ms[0].key, m.key, caseSensitive);
      }
      hide Count;
    }
  }

  /** Below or equal, then below, or the other way round, is below. */
  lemma CompareStrict(a: string, b: string, c: string, caseSensitive: bool)
    requires Terminated(a) && Terminated(b) && Terminated(c)
    requires CompareStrings(a, b, caseSensitive) <= 0 && CompareStrings(b, c, caseSensitive) <= 0
    requires CompareStrings(a, b, caseSensitive) < 0 || CompareStrings(b, c, caseSensitive) < 0
    ensures CompareStrings(a, c, caseSensitive) < 0
  {
    CompareTransitive(a, b, c, caseSensitive);
    CompareAntisymmetric(a, c, caseSensitive);
    CompareAntisymmetric(a, b, caseSensitive);
    CompareAntisymmetric(b, c, caseSensitive);
    hide CompareStrings;
    if CompareStrings(a, c, caseSensitive) == 0 {
      if CompareStrings(a, b, caseSensitive) < 0 {
        CompareTransitive(b, c, a, caseSensitive);
      } else {
        CompareTransitive(c, a, b, caseSensitive);
      }
    }
  }

  /** A list that is sorted already stays where it is. */
  lemma SortedRank(ms: seq<Member>, k: nat, caseSensitive: bool)
    requires StrictlySorted(ms, caseSensitive) && TerminatedKeys(ms) && k < |ms|
    ensures Rank(ms, k, caseSensitive) == k
  {
    hide CompareStrings;
    forall m | m in ms[..k]
      ensures Counted(m.key, ms[k].key, false, caseSensitive)
    {
      var i :| 0 <= i < k && ms[i] == m;
      StrictlyBelow(ms, i, k, caseSensitive);
    }
    forall m | m in ms[k + 1..]
      ensures !Counted(m.key, ms[k].key, true, caseSensitive)
    {
      var i :| 0 <= i < |ms[k + 1..]| && ms[k + 1..][i] == m;
      StrictlyBelow(ms, k, k + 1 + i, caseSensitive);
      CompareAntisymmetric(m.key, ms[k].key, caseSensitive);
    }
    CountAll(ms[..k], ms[k].key, false, caseSensitive);
    CountAll(ms[k + 1..], ms[k].key, true, caseSensitive);
  }

  lemma {:induction false} StrictlyBelow(ms: seq<Member>, i: nat, j: nat, caseSensitive: bool)
    requires StrictlySorted(ms, caseSensitive) && TerminatedKeys(ms) && i < j < |ms|
    ensures CompareStrings(ms[i].key, ms[j].key, caseSensitive) < 0
    decreases j
  {
    assert Less(ms[j - 1], ms[j], caseSensitive);
    assert ms[i] in ms && ms[j] in ms && ms[j - 1] in ms;
    hide CompareStrings;
    if i < j - 1 {
      StrictlyBelow(ms, i, j - 1, caseSensitive);
      CompareStrict(ms[i].key, ms[j - 1].key, ms[j].key, caseSensitive);
    }
  }

  /** A list sorted already keeps its hidden pointer. */
  lemma SortedTailKept(ms: seq<Member>, caseSensitive: bool)
    requires StrictlySorted(ms, caseSensitive) && TerminatedKeys(ms)
    ensures SortTail(ms, Kept, caseSensitive) == Kept
  {
    hide Rank, StrictlySorted;
    if ms != [] {
      SortedRank(ms, 0, caseSensitive);
      SortedRank(ms, |ms| - 1, caseSensitive);
    }
  }

  // ----- objects with distinct keys -----

  lemma TwiceInMultiset(b: seq<Member>, i: nat, j: nat)
    requires i < j < |b| && b[i] == b[j]
    ensures multiset(b)[b[i]] >= 2
  {
    assert b == b[..j] + [b[j]] + b[j + 1..];
    assert b[..j][i] == b[i];
    assert b[i] in multiset(b[..j]);
  }

  lemma OnceInMultiset(a: seq<Member>, m: Member)
    requires DistinctKeys(a)
    ensures multiset(a)[m] <= 1
  {
    if m in a {
      var i :| 0 <= i < |a| && a[i] == m;
      assert a == a[..i] + [a[i]] + a[i + 1..];
      assert m !in a[..i] && m !in a[i + 1..];
    }
  }

  lemma DistinctPermuted(a: seq<Member>, b: seq<Member>)
    requires DistinctKeys(a) && multiset(a) == multiset(b)
    ensures DistinctKeys(b)
  {
    forall i, j | 0 <= i < j < |b|
      ensures b[i].key != b[j].key
    {
      if b[i] == b[j] {
        TwiceInMultiset(b, i, j);
        OnceInMultiset(a, b[i]);
      } else {
        MembersPermuted(b, a);
        var x :| 0 <= x < |a| && a[x] == b[i];
        var y :| 0 <= y < |a| && a[y] == b[j];
      }
    }
  }

  /** Sorting keeps names distinct and the bindings as they were. */
  lemma SortKeeps(ms: seq<Member>, caseSensitive: bool)
    requires DistinctKeys(ms) && TerminatedKeys(ms)
    ensures var r := Sort(ms, caseSensitive);
            && DistinctKeys(r) && MapOf(r) == MapOf(ms) && Sorted(r, caseSensitive)
            && forall i :: 0 <= i < |r| ==> r[i] in ms
  {
    var r := Sort(ms, caseSensitive);
    hide Sort, MapOf, Sorted;
    SortSorts(ms, caseSensitive);
    DistinctPermuted(ms, r);
    MapPermuted(r, ms);
    MembersPermuted(r, ms);
  }

  /** Sorting an object leaves a good object with the same value. */
  lemma SortGood(ms: seq<Member>, caseSensitive: bool)
    requires GoodMembers(ms)
    ensures var r := Sort(ms, caseSensitive);
            GoodMembers(r) && MapOf(r) == MapOf(ms) && Sorted(r, caseSensitive)
  {
    var r := Sort(ms, caseSensitive);
    GoodTerminated(ms);
    SortSorts(ms, caseSensitive);
    hide Sort, Good, MapOf, Sorted;
    SortKeeps(ms, caseSensitive);
    MembersPermuted(ms, r);
    SameKeys(ms, r);
  }

  lemma SameKeys(a: seq<Member>, b: seq<Member>)
    requires forall i :: 0 <= i < |a| ==> a[i] in b
    requires forall i :: 0 <= i < |b| ==> b[i] in a
    ensures Keys(a) == Keys(b)
  {
  }

  lemma GoodTerminated(ms: seq<Member>)
    requires GoodMembers(ms)
    ensures TerminatedKeys(ms)
  {
  }

  /** In a sorted object, a key below the first is not a key. */
  lemma BelowFirst(ms: seq<Member>, key: string, caseSensitive: bool)
    requires Sorted(ms, caseSensitive)
    requires ms != [] ==> CompareStrings(key, ms[0].key, caseSensitive) < 0
    ensures key !in MapOf(ms)
  {
    MapKeys(ms);
    hide MapOf;
    forall i | 0 <= i < |ms|
      ensures ms[i].key != key
    {
      CompareAntisymmetric(key, ms[0].key, caseSensitive);
      CompareSelf(key, caseSensitive);
      assert i > 0 ==> CompareStrings(ms[0].key, ms[i].key, caseSensitive) <= 0;
    }
  }

  lemma CompareSelf(key: string, caseSensitive: bool)
    ensures CompareStrings(key, key, caseSensitive) == 0
  {
    CompareAntisymmetric(key, key, caseSensitive);
  }

  lemma SortedTail(ms: seq<Member>, caseSensitive: bool)
    requires ms != [] && Sorted(ms, caseSensitive)
    ensures Sorted(ms[1..], caseSensitive)
  {
    hide CompareStrings;
  }
}
