/** The merge sort of a list by relinking its nodes. */
module JsonListSort {
  import opened Json
  import opened JsonSort
  import opened JsonList

  function Members(nodes: seq<Node>): (ms: seq<Member>)
    ensures |ms| == |nodes|
  {
    seq(|nodes|, i requires 0 <= i < |nodes| => nodes[i].member)
  }

  // ----- the order of the nodes -----

  /** Merging, node by node; of equal ones, that of the second list comes first. */
  function MergeNodes(a: seq<Node>, b: seq<Node>, caseSensitive: bool): (r: seq<Node>)
    ensures |r| == |a| + |b|
    decreases |a| + |b|
  {
    if a == [] then b
    else if b == [] then a
    else if Less(a[0].member, b[0].member, caseSensitive) then [a[0]] + MergeNodes(a[1..], b, caseSensitive)
    else [b[0]] + MergeNodes(a, b[1..], caseSensitive)
  }

  function SortNodes(nodes: seq<Node>, caseSensitive: bool): (r: seq<Node>)
    ensures |r| == |nodes|
    decreases |nodes|
  {
    if |nodes| <= 1 || StrictlySorted(Members(nodes), caseSensitive) then nodes
    else
      var middle := (|nodes| + 1) / 2;
      MergeNodes(SortNodes(nodes[..middle], caseSensitive), SortNodes(nodes[middle..], caseSensitive), caseSensitive)
  }

  lemma MembersJoined(a: seq<Node>, b: seq<Node>)
    ensures Members(a + b) == Members(a) + Members(b)
  {
  }

  lemma MembersHead(nodes: seq<Node>)
    requires nodes != []
    ensures Members(nodes) != [] && Members(nodes)[0] == nodes[0].member && Members(nodes)[1..] == Members(nodes[1..])
    ensures Members([nodes[0]]) == [nodes[0].member]
  {
  }

  lemma {:induction false} MembersMerged(a: seq<Node>, b: seq<Node>, caseSensitive: bool)
    ensures Members(MergeNodes(a, b, caseSensitive)) == Merge(Members(a), Members(b), caseSensitive)
    decreases |a| + |b|
  {
    if a == [] || b == [] {
      assert Members([]) == [];
    } else {
      MembersHead(a);
      MembersHead(b);
      hide Less, Members;
      if Less(a[0].member, b[0].member, caseSensitive) {
        MembersMerged(a[1..], b, caseSensitive);
        MembersJoined([a[0]], MergeNodes(a[1..], b, caseSensitive));
      } else {
        MembersMerged(a, b[1..], caseSensitive);
        MembersJoined([b[0]], MergeNodes(a, b[1..], caseSensitive));
      }
    }
  }

  /** Sorting nodes sorts their members. */
  lemma {:induction false} MembersSorted(nodes: seq<Node>, caseSensitive: bool)
    ensures Members(SortNodes(nodes, caseSensitive)) == Sort(Members(nodes), caseSensitive)
    decreases |nodes|
  {
    hide StrictlySorted, Merge, MergeNodes;
    if |nodes| > 1 && !StrictlySorted(Members(nodes), caseSensitive) {
      var middle := (|nodes| + 1) / 2;
      MembersSorted(nodes[..middle], caseSensitive);
      MembersSorted(nodes[middle..], caseSensitive);
      SplitMembers(nodes, middle);
      MembersMerged(SortNodes(nodes[..middle], caseSensitive), SortNodes(nodes[middle..], caseSensitive),
        caseSensitive);
    }
  }

  /** Where the nodes of two sorted lists end up. */
  lemma {:induction false} MergePlaces(a: seq<Node>, b: seq<Node>, caseSensitive: bool)
    requires Sorted(Members(a), caseSensitive) && Sorted(Members(b), caseSensitive)
    requires TerminatedKeys(Members(a)) && TerminatedKeys(Members(b))
    ensures forall i :: 0 <= i < |a| ==> PlacedFirst(a, b, i, caseSensitive)
    ensures forall i :: 0 <= i < |b| ==> PlacedSecond(a, b, i, caseSensitive)
    decreases |a| + |b|
  {
    if a == [] || b == [] {
      hide Counted;
    } else {
      assert Members(a)[1..] == Members(a[1..]) && Members(b)[1..] == Members(b[1..]);
      SortedTail(Members(a), caseSensitive);
      SortedTail(Members(b), caseSensitive);
      hide Sorted, CompareStrings, MergeNodes, PlacedFirst, PlacedSecond, Members;
      if Less(a[0].member, b[0].member, caseSensitive) {
        MergePlaces(a[1..], b, caseSensitive);
        FirstTaken(a, b, caseSensitive);
      } else {
        MergePlaces(a, b[1..], caseSensitive);
        SecondTaken(a, b, caseSensitive);
      }
    }
  }

  /** Node i of the first list comes after the nodes of the second that are not above it. */
  ghost predicate PlacedFirst(a: seq<Node>, b: seq<Node>, i: nat, caseSensitive: bool)
    requires i < |a|
  {
    MergeNodes(a, b, caseSensitive)[i + Count(Members(b), a[i].member.key, true, caseSensitive)] == a[i]
  }

  /** Node i of the second list comes after the nodes of the first that are below it. */
  ghost predicate PlacedSecond(a: seq<Node>, b: seq<Node>, i: nat, caseSensitive: bool)
    requires i < |b|
  {
    MergeNodes(a, b, caseSensitive)[i + Count(Members(a), b[i].member.key, false, caseSensitive)] == b[i]
  }

  lemma HeadOrder(nodes: seq<Node>, i: nat, caseSensitive: bool)
    requires Sorted(Members(nodes), caseSensitive) && i < |nodes|
    ensures CompareStrings(nodes[0].member.key, nodes[i].member.key, caseSensitive) <= 0
  {
    CompareSelf(nodes[0].member.key, caseSensitive);
    hide CompareStrings;
    assert Members(nodes)[i] == nodes[i].member && Members(nodes)[0] == nodes[0].member;
  }

  lemma KeyOf(nodes: seq<Node>, i: nat)
    requires TerminatedKeys(Members(nodes)) && i < |nodes|
    ensures Terminated(nodes[i].member.key)
  {
    assert Members(nodes)[i] in Members(nodes);
  }

  lemma CountFirst(nodes: seq<Node>, key: string, upTo: bool, caseSensitive: bool)
    requires nodes != []
    ensures Count(Members(nodes), key, upTo, caseSensitive)
            == (if Counted(nodes[0].member.key, key, upTo, caseSensitive) then 1 else 0)
               + Count(Members(nodes[1..]), key, upTo, caseSensitive)
  {
    assert Members(nodes)[1..] == Members(nodes[1..]);
    hide Counted;
  }

  /** Nothing of a sorted list is counted if its head is above the key. */
  lemma CountNone(nodes: seq<Node>, key: string, upTo: bool, caseSensitive: bool)
    requires nodes != [] && Sorted(Members(nodes), caseSensitive) && TerminatedKeys(Members(nodes)) && Terminated(key)
    requires var c := CompareStrings(key, nodes[0].member.key, caseSensitive); if upTo then c < 0 else c <= 0
    ensures Count(Members(nodes), key, upTo, caseSensitive) == 0
  {
    hide CompareStrings, Count;
    var ms := Members(nodes);
    forall m | m in ms
      ensures !Counted(m.key, key, upTo, caseSensitive)
    {
      var i :| 0 <= i < |ms| && ms[i] == m;
      HeadOrder(nodes, i, caseSensitive);
      assert Terminated(ms[0].key) by {
        assert ms[0] in ms;
      }
      CompareTransitive(key, nodes[0].member.key, m.key, caseSensitive);
      if upTo {
        CompareStrict(key, nodes[0].member.key, m.key, caseSensitive);
      }
      CompareAntisymmetric(key, m.key, caseSensitive);
    }
    CountAll(ms, key, upTo, caseSensitive);
  }

  lemma FirstTaken(a: seq<Node>, b: seq<Node>, caseSensitive: bool)
    requires a != [] && b != [] && Less(a[0].member, b[0].member, caseSensitive)
    requires Sorted(Members(a), caseSensitive) && Sorted(Members(b), caseSensitive)
    requires TerminatedKeys(Members(a)) && TerminatedKeys(Members(b))
    requires forall i :: 0 <= i < |a[1..]| ==> PlacedFirst(a[1..], b, i, caseSensitive)
    requires forall i :: 0 <= i < |b| ==> PlacedSecond(a[1..], b, i, caseSensitive)
    ensures forall i :: 0 <= i < |a| ==> PlacedFirst(a, b, i, caseSensitive)
    ensures forall i :: 0 <= i < |b| ==> PlacedSecond(a, b, i, caseSensitive)
  {
    var rest := MergeNodes(a[1..], b, caseSensitive);
    assert MergeNodes(a, b, caseSensitive) == [a[0]] + rest;
    hide Sorted, CompareStrings, MergeNodes, Count, Members, TerminatedKeys;
    KeyOf(a, 0);
    forall i | 0 <= i < |a|
      ensures PlacedFirst(a, b, i, caseSensitive)
    {
      if i == 0 {
        CountNone(b, a[0].member.key, true, caseSensitive);
      } else {
        assert a[1..][i - 1] == a[i] && PlacedFirst(a[1..], b, i - 1, caseSensitive);
      }
    }
    forall i | 0 <= i < |b|
      ensures PlacedSecond(a, b, i, caseSensitive)
    {
      assert PlacedSecond(a[1..], b, i, caseSensitive);
      HeadOrder(b, i, caseSensitive);
      KeyOf(b, 0);
      KeyOf(b, i);
      CompareStrict(a[0].member.key, b[0].member.key, b[i].member.key, caseSensitive);
      CountFirst(a, b[i].member.key, false, caseSensitive);
    }
  }

  lemma SecondTaken(a: seq<Node>, b: seq<Node>, caseSensitive: bool)
    requires a != [] && b != [] && !Less(a[0].member, b[0].member, caseSensitive)
    requires Sorted(Members(a), caseSensitive) && Sorted(Members(b), caseSensitive)
    requires TerminatedKeys(Members(a)) && TerminatedKeys(Members(b))
    requires forall i :: 0 <= i < |a| ==> PlacedFirst(a, b[1..], i, caseSensitive)
    requires forall i :: 0 <= i < |b[1..]| ==> PlacedSecond(a, b[1..], i, caseSensitive)
    ensures forall i :: 0 <= i < |a| ==> PlacedFirst(a, b, i, caseSensitive)
    ensures forall i :: 0 <= i < |b| ==> PlacedSecond(a, b, i, caseSensitive)
  {
    var rest := MergeNodes(a, b[1..], caseSensitive);
    assert MergeNodes(a, b, caseSensitive) == [b[0]] + rest;
    hide Sorted, CompareStrings, MergeNodes, Count, Members, TerminatedKeys;
    KeyOf(b, 0);
    CompareAntisymmetric(a[0].member.key, b[0].member.key, caseSensitive);
    forall i | 0 <= i < |a|
      ensures PlacedFirst(a, b, i, caseSensitive)
    {
      assert PlacedFirst(a, b[1..], i, caseSensitive);
      HeadOrder(a, i, caseSensitive);
      KeyOf(a, 0);
      KeyOf(a, i);
      CompareTransitive(b[0].member.key, a[0].member.key, a[i].member.key, caseSensitive);
      CountFirst(b, a[i].member.key, true, caseSensitive);
    }
    forall i | 0 <= i < |b|
      ensures PlacedSecond(a, b, i, caseSensitive)
    {
      if i == 0 {
        CountNone(a, b[0].member.key, false, caseSensitive);
      } else {
        assert b[1..][i - 1] == b[i] && PlacedSecond(a, b[1..], i - 1, caseSensitive);
      }
    }
  }

  /** Every node ends up at its rank. */
  lemma {:induction false} SortPlaces(nodes: seq<Node>, k: nat, caseSensitive: bool)
    requires TerminatedKeys(Members(nodes)) && k < |nodes|
    ensures SortNodes(nodes, caseSensitive)[Rank(Members(nodes), k, caseSensitive)] == nodes[k]
    decreases |nodes|
  {
    var ms := Members(nodes);
    if StrictlySorted(ms, caseSensitive) {
      SortedRank(ms, k, caseSensitive);
      hide Rank, StrictlySorted;
    } else {
      SplitPlaces(nodes, k, caseSensitive);
    }
  }

  lemma SplitPlaces(nodes: seq<Node>, k: nat, caseSensitive: bool)
    requires TerminatedKeys(Members(nodes)) && k < |nodes| && !StrictlySorted(Members(nodes), caseSensitive)
    ensures SortNodes(nodes, caseSensitive)[Rank(Members(nodes), k, caseSensitive)] == nodes[k]
    decreases |nodes|, 0
  {
    hide *;
    var a, b := Halves(nodes, k, caseSensitive);
    HalvesLink(nodes, a, b, k, caseSensitive);
    if k < |a| {
      SortPlaces(a, k, caseSensitive);
      FromFirst(a, b, k, caseSensitive);
    } else {
      SortPlaces(b, k - |a|, caseSensitive);
      FromSecond(a, b, k - |a|, caseSensitive);
    }
  }

  /** The two halves a list is sorted by, and where node k is ranked in its half. */
  ghost predicate HalvesOf(nodes: seq<Node>, a: seq<Node>, b: seq<Node>, k: nat, caseSensitive: bool)
    requires k < |nodes|
  {
    var ms, key, rank := Members(nodes), nodes[k].member.key, Rank(Members(nodes), k, caseSensitive);
    && 0 < |a| && 0 < |b| && |a| + |b| == |nodes|
    && TerminatedKeys(Members(a)) && TerminatedKeys(Members(b))
    && SortNodes(nodes, caseSensitive)
      == MergeNodes(SortNodes(a, caseSensitive), SortNodes(b, caseSensitive), caseSensitive)
    && if k < |a| then
         a[k] == nodes[k] && rank == Rank(Members(a), k, caseSensitive) + Count(Members(b), key, true, caseSensitive)
       else
         && b[k - |a|] == nodes[k]
         && rank == Rank(Members(b), k - |a|, caseSensitive) + Count(Members(a), key, false, caseSensitive)
  }

  lemma HalvesLink(nodes: seq<Node>, a: seq<Node>, b: seq<Node>, k: nat, caseSensitive: bool)
    requires k < |nodes| && HalvesOf(nodes, a, b, k, caseSensitive)
    ensures 0 < |a| && 0 < |b| && |a| + |b| == |nodes| && TerminatedKeys(Members(a)) && TerminatedKeys(Members(b))
    ensures SortNodes(nodes, caseSensitive)
            == MergeNodes(SortNodes(a, caseSensitive), SortNodes(b, caseSensitive), caseSensitive)
    ensures k < |a| ==>
              && a[k] == nodes[k]
              && Rank(Members(nodes), k, caseSensitive)
                 == Rank(Members(a), k, caseSensitive) + Count(Members(b), a[k].member.key, true, caseSensitive)
    ensures k >= |a| ==>
              && b[k - |a|] == nodes[k]
              && Rank(Members(nodes), k, caseSensitive)
                 == Rank(Members(b), k - |a|, caseSensitive) + Count(Members(a), b[k - |a|].member.key, false,
                   caseSensitive)
  {
    hide Members, Rank, Count, SortNodes, MergeNodes, TerminatedKeys;
  }

  lemma Halves(nodes: seq<Node>, k: nat, caseSensitive: bool) returns (a: seq<Node>, b: seq<Node>)
    requires TerminatedKeys(Members(nodes)) && k < |nodes| && !StrictlySorted(Members(nodes), caseSensitive)
    ensures HalvesOf(nodes, a, b, k, caseSensitive)
  {
    var middle := (|nodes| + 1) / 2;
    hide *;
    FewAreSorted(nodes, caseSensitive);
    SortUnfolds(nodes, caseSensitive);
    a, b := nodes[..middle], nodes[middle..];
    Joined(nodes, middle);
    HalvesJoined(nodes, a, b, k, caseSensitive);
  }

  lemma Joined(nodes: seq<Node>, middle: nat)
    requires middle <= |nodes|
    ensures nodes[..middle] + nodes[middle..] == nodes
  {
  }

  lemma HalvesJoined(nodes: seq<Node>, a: seq<Node>, b: seq<Node>, k: nat, caseSensitive: bool)
    requires nodes == a + b && a != [] && b != [] && k < |nodes| && TerminatedKeys(Members(nodes))
    requires SortNodes(nodes, caseSensitive)
             == MergeNodes(SortNodes(a, caseSensitive), SortNodes(b, caseSensitive), caseSensitive)
    ensures HalvesOf(nodes, a, b, k, caseSensitive)
  {
    MembersJoined(a, b);
    KeyIs(nodes, k);
    TerminatedJoined(Members(a), Members(b));
    JoinedRank(Members(a), Members(b), k, caseSensitive);
    hide Members, Rank, Count, SortNodes, MergeNodes, TerminatedKeys;
  }

  lemma FewAreSorted(nodes: seq<Node>, caseSensitive: bool)
    requires !StrictlySorted(Members(nodes), caseSensitive)
    ensures |nodes| > 1
  {
    hide Less;
  }

  lemma TerminatedJoined(a: seq<Member>, b: seq<Member>)
    requires TerminatedKeys(a + b)
    ensures TerminatedKeys(a) && TerminatedKeys(b)
  {
    hide Terminated;
    assert forall m :: m in a || m in b ==> m in a + b;
  }

  lemma FromFirst(a: seq<Node>, b: seq<Node>, k: nat, caseSensitive: bool)
    requires TerminatedKeys(Members(a)) && TerminatedKeys(Members(b)) && k < |a|
    requires SortNodes(a, caseSensitive)[Rank(Members(a), k, caseSensitive)] == a[k]
    ensures var at := Rank(Members(a), k, caseSensitive) + Count(Members(b), a[k].member.key, true, caseSensitive);
            at < |a| + |b| && MergeNodes(SortNodes(a, caseSensitive), SortNodes(b, caseSensitive), caseSensitive)[at]
              == a[k]
  {
    SortedHalf(a, caseSensitive);
    SortedHalf(b, caseSensitive);
    hide SortNodes, MergeNodes, Sort, Sorted, Count, Members, TerminatedKeys, Rank;
    MergePlaces(SortNodes(a, caseSensitive), SortNodes(b, caseSensitive), caseSensitive);
    assert PlacedFirst(SortNodes(a, caseSensitive), SortNodes(b, caseSensitive), Rank(Members(a), k, caseSensitive),
           caseSensitive);
    CountSorted(Members(b), a[k].member.key, true, caseSensitive);
  }

  lemma FromSecond(a: seq<Node>, b: seq<Node>, k: nat, caseSensitive: bool)
    requires TerminatedKeys(Members(a)) && TerminatedKeys(Members(b)) && k < |b|
    requires SortNodes(b, caseSensitive)[Rank(Members(b), k, caseSensitive)] == b[k]
    ensures var at := Rank(Members(b), k, caseSensitive) + Count(Members(a), b[k].member.key, false, caseSensitive);
            at < |a| + |b| && MergeNodes(SortNodes(a, caseSensitive), SortNodes(b, caseSensitive), caseSensitive)[at]
              == b[k]
  {
    SortedHalf(a, caseSensitive);
    SortedHalf(b, caseSensitive);
    hide SortNodes, MergeNodes, Sort, Sorted, Count, Members, TerminatedKeys, Rank;
    MergePlaces(SortNodes(a, caseSensitive), SortNodes(b, caseSensitive), caseSensitive);
    assert PlacedSecond(SortNodes(a, caseSensitive), SortNodes(b, caseSensitive), Rank(Members(b), k, caseSensitive),
           caseSensitive);
    CountSorted(Members(a), b[k].member.key, false, caseSensitive);
  }

  lemma KeyIs(nodes: seq<Node>, k: nat)
    requires k < |nodes|
    ensures Members(nodes)[k] == nodes[k].member
  {
  }

  lemma SortedHalf(a: seq<Node>, caseSensitive: bool)
    requires TerminatedKeys(Members(a))
    ensures Members(SortNodes(a, caseSensitive)) == Sort(Members(a), caseSensitive)
    ensures Sorted(Members(SortNodes(a, caseSensitive)), caseSensitive)
            && TerminatedKeys(Members(SortNodes(a, caseSensitive)))
  {
    MembersSorted(a, caseSensitive);
    hide SortNodes, Sort, Sorted;
    SortSorts(Members(a), caseSensitive);
    KeysOfPermutation(Members(a), Sort(Members(a), caseSensitive));
  }

  /** The rank in the whole is the rank in the half, behind what comes from the other half. */
  lemma JoinedRank(a: seq<Member>, b: seq<Member>, k: nat, caseSensitive: bool)
    requires k < |a| + |b|
    ensures k < |a| ==>
              Rank(a + b, k, caseSensitive) == Rank(a, k, caseSensitive) + Count(b, (a + b)[k].key, true, caseSensitive)
    ensures k >= |a| ==>
              Rank(a + b, k, caseSensitive) == Rank(b, k - |a|, caseSensitive) + Count(a, (a + b)[k].key, false,
                caseSensitive)
  {
    hide Count;
    var ms, key := a + b, (a + b)[k].key;
    if k < |a| {
      assert ms[..k] == a[..k] && ms[k + 1..] == a[k + 1..] + b;
      CountJoined(a[k + 1..], b, key, true, caseSensitive);
    } else {
      assert ms[k + 1..] == b[k - |a| + 1..] && ms[..k] == a + b[..k - |a|];
      CountJoined(a, b[..k - |a|], key, false, caseSensitive);
    }
  }

  /** A chain still to be continued: the last next may lead anywhere. */
  ghost predicate Open(nodes: seq<Node>)
    reads nodes
  {
    && (forall i {:trigger nodes[i]} :: 0 <= i < |nodes| - 1 ==> nodes[i].next == NextOf(nodes, i))
    && Back(nodes)
  }

  ghost predicate Disjoint(a: seq<Node>, b: seq<Node>) {
    forall n :: n in a ==> n !in b
  }

  // ----- the test for a sorted list -----

  method IsSorted(list: Node, ghost nodes: seq<Node>, caseSensitive: bool) returns (sorted: bool)
    requires Chain(list, nodes) && nodes != []
    ensures sorted <==> StrictlySorted(Members(nodes), caseSensitive)
  {
    hide CompareStrings;
    var current := list;
    ghost var i := 0;
    while current.next != null && CompareStrings(current.member.key, current.next.member.key, caseSensitive) < 0
      invariant 0 <= i < |nodes| && current == nodes[i]
      invariant forall k :: 0 <= k < i ==> Less(Members(nodes)[k], Members(nodes)[k + 1], caseSensitive)
      decreases |nodes| - i
    {
      assert nodes[i].next == NextOf(nodes, i);
      current := current.next;
      i := i + 1;
    }
    assert nodes[i].next == NextOf(nodes, i);
    sorted := current.next == null;
    if !sorted {
      assert !Less(Members(nodes)[i], Members(nodes)[i + 1], caseSensitive);
    }
  }

  // ----- the middle -----

  /** Two walks, one twice as fast. */
  method FindMiddle(list: Node, ghost nodes: seq<Node>) returns (second: Node)
    requires Chain(list, nodes) && |nodes| >= 2
    ensures second == nodes[(|nodes| + 1) / 2]
  {
    var slow: Node?, current: Node? := list, list;
    ghost var i := 0;
    while current != null
      invariant 0 <= i <= (|nodes| + 1) / 2
      invariant slow == nodes[i]
      invariant current == if 2 * i < |nodes| then nodes[2 * i] else null
      decreases |nodes| + 1 - 2 * i
    {
      assert nodes[i].next == NextOf(nodes, i);
      assert nodes[2 * i].next == NextOf(nodes, 2 * i);
      slow := slow.next;
      current := current.next;
      if current != null {
        assert nodes[2 * i + 1].next == NextOf(nodes, 2 * i + 1);
        current := current.next;
      }
      i := i + 1;
    }
    second := slow;
  }

  /** The list is cut before a node. */
  method Cut(second: Node, ghost nodes: seq<Node>, ghost middle: nat)
    requires 0 < middle < |nodes| && Chain(nodes[0], nodes) && Distinct(nodes) && second == nodes[middle]
    modifies nodes
    ensures forall i {:trigger nodes[i]} :: 0 <= i < |nodes| ==>
              && nodes[i].next == (if i == middle - 1 then null else old(nodes[i].next))
              && nodes[i].prev == (if i == middle then null else old(nodes[i].prev))
  {
    assert nodes[middle].prev == PrevOf(nodes, middle);
    if second.prev != null {
      second.prev.next := null;
      second.prev := null;
    }
    forall i | 0 <= i < |nodes|
      ensures nodes[i].next == (if i == middle - 1 then null else old(nodes[i].next))
      ensures nodes[i].prev == (if i == middle then null else old(nodes[i].prev))
    {
      Apart(nodes, i, middle);
    }
  }

  method Split(second: Node, ghost nodes: seq<Node>, ghost middle: nat)
    requires 0 < middle < |nodes| && Chain(nodes[0], nodes) && Distinct(nodes) && second == nodes[middle]
    modifies nodes
    ensures Chain(nodes[0], nodes[..middle]) && Chain(second, nodes[middle..])
    ensures Distinct(nodes[..middle]) && Distinct(nodes[middle..]) && Disjoint(nodes[..middle], nodes[middle..])
    ensures nodes[0].prev == old(nodes[0].prev) && second.prev == null
  {
    ApartHalves(nodes, middle);
    hide Distinct, Disjoint;
    Cut(second, nodes, middle);
    ghost var a, b := nodes[..middle], nodes[middle..];
    forall i | 0 <= i < |a|
      ensures a[i].next == NextOf(a, i) && (i > 0 ==> a[i].prev == PrevOf(a, i))
    {
      assert a[i] == nodes[i];
      assert old(nodes[i].next) == NextOf(nodes, i);
    }
    forall i | 0 <= i < |b|
      ensures b[i].next == NextOf(b, i) && (i > 0 ==> b[i].prev == PrevOf(b, i))
    {
      assert b[i] == nodes[middle + i];
      assert old(nodes[middle + i].next) == NextOf(nodes, middle + i);
    }
  }

  lemma ApartHalves(nodes: seq<Node>, middle: nat)
    requires Distinct(nodes) && middle <= |nodes|
    ensures Distinct(nodes[..middle]) && Distinct(nodes[middle..]) && Disjoint(nodes[..middle], nodes[middle..])
  {
  }

  // ----- merging -----

  /** What is merged already, and what is left of the two lists. */
  ghost predicate Merging(done: seq<Node>, head: Node?, a: seq<Node>, other: Node?, b: seq<Node>)
    reads done, a, b
  {
    && Places(done, a, b)
    && Open(done) && Chain(head, a) && Chain(other, b)
  }

  lemma MergingSwap(done: seq<Node>, head: Node?, a: seq<Node>, other: Node?, b: seq<Node>)
    requires Merging(done, head, a, other, b)
    ensures Merging(done, other, b, head, a)
  {
    hide Distinct, Open, Chain;
  }

  /** No node is in two places. */
  ghost predicate Places(done: seq<Node>, a: seq<Node>, b: seq<Node>) {
    Distinct(done) && Distinct(a) && Distinct(b) && Disjoint(done, a) && Disjoint(done, b) && Disjoint(a, b)
  }

  lemma PlacesMoved(done: seq<Node>, a: seq<Node>, b: seq<Node>)
    requires Places(done, a, b) && a != []
    ensures Places(done + [a[0]], a[1..], b)
    ensures a[0] !in done && a[0] !in b && a[0] !in a[1..]
    ensures done != [] ==> done[|done| - 1] !in a && done[|done| - 1] !in b && done[|done| - 1] !in done[..|done| - 1]
  {
    assert a[0] in a;
    var now := done + [a[0]];
    forall i, j | 0 <= i < j < |now|
      ensures now[i] != now[j]
    {
      assert now[i] in done;
    }
    assert forall n :: n in a[1..] ==> n in a;
    if done != [] {
      assert done[|done| - 1] in done;
    }
    forall i | 0 <= i < |a[1..]|
      ensures a[1..][i] != a[0]
    {
      assert a[1..][i] == a[i + 1];
    }
  }

  lemma ChainTail(head: Node?, a: seq<Node>)
    requires Chain(head, a) && a != []
    ensures head == a[0] && Chain(a[0].next, a[1..])
  {
    var rest := a[1..];
    assert a[0].next == NextOf(a, 0);
    forall i {:trigger rest[i]} | 0 <= i < |rest|
      ensures rest[i].next == NextOf(rest, i)
      ensures i > 0 ==> rest[i].prev == PrevOf(rest, i)
    {
      assert rest[i] == a[i + 1];
    }
  }

  /** The next and prev of every node. */
  ghost function Links(nodes: seq<Node>): (links: seq<(Node?, Node?)>)
    reads nodes
    ensures |links| == |nodes|
  {
    seq(|nodes|, i requires 0 <= i < |nodes| reads nodes => (nodes[i].next, nodes[i].prev))
  }

  ghost predicate ChainLinks(nodes: seq<Node>, links: seq<(Node?, Node?)>) {
    |links| == |nodes|
    && forall i {:trigger links[i]} :: 0 <= i < |nodes| ==>
         links[i].0 == NextOf(nodes, i) && (i > 0 ==> links[i].1 == PrevOf(nodes, i))
  }

  ghost predicate OpenLinks(nodes: seq<Node>, links: seq<(Node?, Node?)>) {
    |links| == |nodes|
    && forall i {:trigger links[i]} :: 0 <= i < |nodes| ==>
         (i < |nodes| - 1 ==> links[i].0 == NextOf(nodes, i)) && (i > 0 ==> links[i].1 == PrevOf(nodes, i))
  }

  lemma ChainIs(head: Node?, nodes: seq<Node>)
    ensures Chain(head, nodes) <==> head == (if nodes == [] then null else nodes[0]) && ChainLinks(nodes, Links(nodes))
  {
    var links := Links(nodes);
    forall i {:trigger nodes[i]} {:trigger links[i]} | 0 <= i < |nodes|
      ensures links[i] == (nodes[i].next, nodes[i].prev)
    {
    }
  }

  lemma OpenIs(nodes: seq<Node>)
    ensures Open(nodes) <==> OpenLinks(nodes, Links(nodes))
  {
    var links := Links(nodes);
    forall i {:trigger nodes[i]} {:trigger links[i]} | 0 <= i < |nodes|
      ensures links[i] == (nodes[i].next, nodes[i].prev)
    {
    }
  }

  lemma LinksAt(nodes: seq<Node>)
    ensures forall i :: 0 <= i < |nodes| ==> Links(nodes)[i] == (nodes[i].next, nodes[i].prev)
  {
  }

  /** The merged nodes with one more behind them. */
  lemma OpenLonger(done: seq<Node>, links: seq<(Node?, Node?)>, smaller: Node)
    requires OpenLinks(done, links)
    requires done != [] ==> done[|done| - 1].next == smaller && smaller.prev == done[|done| - 1]
    requires forall i :: 0 <= i < |done| ==>
               done[i].prev == links[i].1 && (i < |done| - 1 ==> done[i].next == links[i].0)
    ensures Open(done + [smaller])
  {
    var now := done + [smaller];
    forall i {:trigger now[i]} | 0 <= i < |now|
      ensures i < |now| - 1 ==> now[i].next == NextOf(now, i)
      ensures i > 0 ==> now[i].prev == PrevOf(now, i)
    {
      if i < |done| {
        assert now[i] == done[i] && done[i].prev == links[i].1;
      }
    }
  }

  /** The first node of a list goes behind the merged ones. */
  method Take(tail: Node?, smaller: Node, ghost done: seq<Node>, ghost a: seq<Node>, other: Node?, ghost b: seq<Node>)
    requires Merging(done, smaller, a, other, b) && a != [] && tail == (if done == [] then null else done[|done| - 1])
    modifies done, a
    ensures Merging(done + [smaller], smaller.next, a[1..], other, b)
    ensures if done == [] then smaller.prev == old(smaller.prev) else done[0].prev == old(done[0].prev)
  {
    hide *;
    TakeParts(smaller, done, a, other, b);
    ghost var next := smaller.next;
    ghost var bl, rl, dl := Links(b), Links(a[1..]), Links(done);
    ChainIs(other, b);
    ChainIs(next, a[1..]);
    OpenIs(done);
    LinksAt(done);
    Hang(tail, smaller, done, a[1..], b);
    ChainIs(other, b);
    ChainIs(next, a[1..]);
    OpenLonger(done, dl, smaller);
    Taken(smaller, done, a, other, b);
  }

  /** Only the two nodes where the lists meet are changed. */
  method Hang(tail: Node?, smaller: Node, ghost done: seq<Node>, ghost rest: seq<Node>, ghost b: seq<Node>)
    requires tail == (if done == [] then null else done[|done| - 1])
    requires smaller !in done && smaller !in b && smaller !in rest
    requires tail != null ==> tail !in rest && tail !in b && tail !in done[..|done| - 1]
    modifies tail, smaller
    ensures Links(b) == old(Links(b)) && Links(rest) == old(Links(rest)) && smaller.next == old(smaller.next)
    ensures tail != null ==> tail.next == smaller && smaller.prev == tail
    ensures tail == null ==> smaller.prev == old(smaller.prev)
    ensures forall i :: 0 <= i < |done| ==>
              done[i].prev == old(Links(done))[i].1 && (i < |done| - 1 ==> done[i].next == old(Links(done))[i].0)
  {
    hide *;
    ghost var bl, rl := Links(b), Links(rest);
    LinksAt(b);
    LinksAt(rest);
    LinksAt(done);
    if tail != null {
      AllButLast(done);
      tail.next := smaller;
      smaller.prev := tail;
    }
    Unmoved(b, bl);
    Unmoved(rest, rl);
  }

  lemma AllButLast(nodes: seq<Node>)
    requires nodes != []
    ensures forall i :: 0 <= i < |nodes| - 1 ==> nodes[i] in nodes[..|nodes| - 1]
  {
  }

  lemma Unmoved(nodes: seq<Node>, links: seq<(Node?, Node?)>)
    requires |links| == |nodes| && forall i :: 0 <= i < |nodes| ==> links[i] == (nodes[i].next, nodes[i].prev)
    ensures Links(nodes) == links
  {
  }

  /** What of the state of merging matters when the first node of a list is taken. */
  lemma TakeParts(smaller: Node, done: seq<Node>, a: seq<Node>, other: Node?, b: seq<Node>)
    requires Merging(done, smaller, a, other, b) && a != []
    ensures smaller == a[0] && Open(done) && Chain(smaller.next, a[1..]) && Chain(other, b)
    ensures Places(done + [smaller], a[1..], b)
    ensures smaller !in done && smaller !in b && smaller !in a[1..] && smaller in a
    ensures done != [] ==>
              var last := done[|done| - 1];
              last in done && last !in a[1..] && last !in b && last !in done[..|done| - 1] && last != smaller
  {
    PlacesMoved(done, a, b);
    ChainTail(smaller, a);
    hide Distinct, Disjoint, Open;
    if done != [] {
      assert done[|done| - 1] in done;
      assert forall n :: n in a[1..] ==> n in a;
    }
  }

  lemma Taken(smaller: Node, done: seq<Node>, a: seq<Node>, other: Node?, b: seq<Node>)
    requires a != [] && Places(done + [smaller], a[1..], b)
    requires Open(done + [smaller]) && Chain(smaller.next, a[1..]) && Chain(other, b)
    ensures Merging(done + [smaller], smaller.next, a[1..], other, b)
  {
    hide Distinct, Disjoint, Open, Chain, Places;
  }

  /** The merged nodes with a whole list behind them. */
  lemma ChainLonger(done: seq<Node>, dl: seq<(Node?, Node?)>, a: seq<Node>, al: seq<(Node?, Node?)>)
    requires OpenLinks(done, dl) && ChainLinks(a, al) && done != [] && a != []
    requires done[|done| - 1].next == a[0] && a[0].prev == done[|done| - 1]
    requires forall i :: 0 <= i < |done| ==> done[i].prev == dl[i].1 && (i < |done| - 1 ==> done[i].next == dl[i].0)
    requires forall i :: 0 <= i < |a| ==> a[i].next == al[i].0 && (i > 0 ==> a[i].prev == al[i].1)
    ensures Chain(done[0], done + a)
  {
    var now := done + a;
    forall i {:trigger now[i]} | 0 <= i < |now|
      ensures now[i].next == NextOf(now, i)
      ensures i > 0 ==> now[i].prev == PrevOf(now, i)
    {
      if i < |done| {
        assert now[i] == done[i] && done[i].prev == dl[i].1;
      } else {
        assert now[i] == a[i - |done|] && a[i - |done|].next == al[i - |done|].0;
      }
    }
  }

  /** The rest of a list goes behind the merged nodes. */
  method TakeRest(tail: Node, head: Node, ghost done: seq<Node>, ghost a: seq<Node>)
    requires Places(done, a, []) && Open(done) && Chain(head, a) && a != [] && done != [] && tail == done[|done| - 1]
    modifies done, a
    ensures Distinct(done + a) && Chain(done[0], done + a) && done[0].prev == old(done[0].prev)
  {
    hide *;
    RestParts(head, done, a);
    ghost var dl, al := Links(done), Links(a);
    LinksAt(done);
    LinksAt(a);
    ChainIs(head, a);
    OpenIs(done);
    tail.next := head;
    head.prev := tail;
    assert forall i :: 0 <= i < |done| - 1 ==> done[i] in done[..|done| - 1];
    assert forall i :: 0 <= i < |done| ==> done[i] in done;
    assert forall i :: 0 < i < |a| ==> a[i] in a[1..];
    assert forall i :: 0 <= i < |a| ==> a[i] in a;
    ChainLonger(done, dl, a, al);
  }

  lemma RestParts(head: Node, done: seq<Node>, a: seq<Node>)
    requires Places(done, a, []) && Chain(head, a) && a != [] && done != []
    ensures Distinct(done + a) && head == a[0] && head !in done && head !in a[1..] && head in a
    ensures done[|done| - 1] !in a && done[|done| - 1] !in done[..|done| - 1]
  {
    PlacesMoved(done, a, []);
    DistinctTogether(done, a);
    hide Distinct, Disjoint;
  }

  lemma DistinctTogether(a: seq<Node>, b: seq<Node>)
    requires Distinct(a) && Distinct(b) && Disjoint(a, b)
    ensures Distinct(a + b)
  {
    forall i, j | 0 <= i < j < |a + b|
      ensures (a + b)[i] != (a + b)[j]
    {
      if i < |a| {
        assert a[i] in a;
      }
      if j >= |a| {
        assert b[j - |a|] in b;
      }
    }
  }

  // ----- merging two lists -----

  /** Merging what is left behind what is done gives the goal, and only nodes of the two lists are used. */
  ghost predicate Towards(goal: seq<Node>, all: multiset<Node>, done: seq<Node>, a: seq<Node>, b: seq<Node>,
                          caseSensitive: bool) {
    && done + MergeNodes(a, b, caseSensitive) == goal
    && multiset(done) + multiset(a) + multiset(b) == all
  }

  lemma TowardsFirst(goal: seq<Node>, all: multiset<Node>, done: seq<Node>, a: seq<Node>, b: seq<Node>,
                     caseSensitive: bool)
    requires Towards(goal, all, done, a, b, caseSensitive) && a != [] && b != []
    requires Less(a[0].member, b[0].member, caseSensitive)
    ensures Towards(goal, all, done + [a[0]], a[1..], b, caseSensitive)
  {
    assert MergeNodes(a, b, caseSensitive) == [a[0]] + MergeNodes(a[1..], b, caseSensitive);
    hide Less, MergeNodes;
    Regrouped(done, a[0], MergeNodes(a[1..], b, caseSensitive));
    OneMoved(done, a);
  }

  lemma TowardsSecond(goal: seq<Node>, all: multiset<Node>, done: seq<Node>, a: seq<Node>, b: seq<Node>,
                      caseSensitive: bool)
    requires Towards(goal, all, done, a, b, caseSensitive) && a != [] && b != []
    requires !Less(a[0].member, b[0].member, caseSensitive)
    ensures Towards(goal, all, done + [b[0]], a, b[1..], caseSensitive)
  {
    assert MergeNodes(a, b, caseSensitive) == [b[0]] + MergeNodes(a, b[1..], caseSensitive);
    hide Less, MergeNodes;
    Regrouped(done, b[0], MergeNodes(a, b[1..], caseSensitive));
    OneMoved(done, b);
    assert multiset(done) + multiset(a) + multiset(b) == multiset(done) + multiset(b) + multiset(a);
  }

  lemma Regrouped<T>(done: seq<T>, x: T, rest: seq<T>)
    ensures done + ([x] + rest) == done + [x] + rest
  {
  }

  lemma OneMoved(done: seq<Node>, a: seq<Node>)
    requires a != []
    ensures multiset(done) + multiset(a) == multiset(done + [a[0]]) + multiset(a[1..])
  {
    assert a == [a[0]] + a[1..];
  }

  lemma TowardsEnd(goal: seq<Node>, all: multiset<Node>, done: seq<Node>, a: seq<Node>, b: seq<Node>,
                   caseSensitive: bool)
    requires Towards(goal, all, done, a, b, caseSensitive) && (a == [] || b == [])
    ensures done + (a + b) == goal && multiset(done + (a + b)) == all
  {
    hide Less;
    assert a + b == if a == [] then b else a;
  }

  lemma FromAll(all: multiset<Node>, nodes: seq<Node>, done: seq<Node>, a: seq<Node>, b: seq<Node>)
    requires all == multiset(nodes) && multiset(done) + multiset(a) + multiset(b) == all
    ensures (forall i :: 0 <= i < |done| ==> done[i] in nodes)
    ensures (forall i :: 0 <= i < |a| ==> a[i] in nodes) && (forall i :: 0 <= i < |b| ==> b[i] in nodes)
  {
    forall n | n in done || n in a || n in b
      ensures n in nodes
    {
      assert n in multiset(done) || n in multiset(a) || n in multiset(b);
      assert n in all;
    }
  }

  lemma TowardsStart(fs: seq<Node>, ss: seq<Node>, caseSensitive: bool)
    ensures Towards(MergeNodes(fs, ss, caseSensitive), multiset(fs + ss), [], fs, ss, caseSensitive)
  {
    hide MergeNodes;
  }

  /** The state of merging, with its goal. */
  ghost predicate State(goal: seq<Node>, all: multiset<Node>, done: seq<Node>, first: Node?, a: seq<Node>,
                        second: Node?, b: seq<Node>, caseSensitive: bool)
    reads done, a, b
  {
    Merging(done, first, a, second, b) && Towards(goal, all, done, a, b, caseSensitive)
  }

  lemma StateStart(list: Node, fs: seq<Node>, other: Node, ss: seq<Node>, caseSensitive: bool)
    requires Places([], fs, ss) && Chain(list, fs) && Chain(other, ss)
    ensures State(MergeNodes(fs, ss, caseSensitive), multiset(fs + ss), [], list, fs, other, ss, caseSensitive)
    ensures multiset([]) + multiset(fs) + multiset(ss) == multiset(fs + ss)
  {
    TowardsStart(fs, ss, caseSensitive);
    hide MergeNodes, Distinct, Disjoint;
  }

  /** One turn: the smaller first node is taken; of equal ones, that of the second list. */
  method MergeStep(tail: Node?, first: Node, second: Node, caseSensitive: bool, ghost goal: seq<Node>,
                   ghost all: multiset<Node>,
                   ghost done: seq<Node>, ghost a: seq<Node>, ghost b: seq<Node>)
    returns (smaller: Node, first': Node?, second': Node?, ghost a': seq<Node>, ghost b': seq<Node>)
    requires State(goal, all, done, first, a, second, b, caseSensitive)
    requires tail == (if done == [] then null else done[|done| - 1])
    modifies done, a, b
    ensures State(goal, all, done + [smaller], first', a', second', b', caseSensitive)
    ensures if done == [] then
              (smaller == first && first.prev == old(first.prev))
                || (smaller == second && second.prev == old(second.prev))
            else done[0].prev == old(done[0].prev)
    ensures 0 < |a'| + |b'| < |a| + |b|
  {
    hide Towards, CompareStrings, Places, Open;
    if CompareStrings(first.member.key, second.member.key, caseSensitive) < 0 {
      smaller := first;
      TowardsFirst(goal, all, done, a, b, caseSensitive);
      Take(tail, smaller, done, a, second, b);
      a', b' := a[1..], b;
      first', second' := first.next, second;
    } else {
      smaller := second;
      TowardsSecond(goal, all, done, a, b, caseSensitive);
      MergingSwap(done, first, a, second, b);
      hide Merging;
      Take(tail, smaller, done, b, first, a);
      a', b' := a, b[1..];
      first', second' := first, second.next;
      MergingSwap(done + [smaller], second', b', first', a');
    }
  }

  method MergeLists(list: Node, ghost fs: seq<Node>, other: Node, ghost ss: seq<Node>, caseSensitive: bool)
    returns (result: Node?, ghost sorted: seq<Node>)
    requires Places([], fs, ss) && Chain(list, fs) && Chain(other, ss) && fs != [] && ss != []
    modifies fs + ss
    ensures Distinct(sorted) && Chain(result, sorted)
    ensures multiset(sorted) == multiset(fs + ss) && sorted == MergeNodes(fs, ss, caseSensitive)
    ensures (result == list && result.prev == old(list.prev)) || (result == other && result.prev == old(other.prev))
  {
    var first: Node?, second: Node? := list, other;
    var tail: Node? := null;
    result := null;
    ghost var done, a, b: seq<Node> := [], fs, ss;
    ghost var goal, all := MergeNodes(fs, ss, caseSensitive), multiset(fs + ss);
    hide *;
    StateStart(list, fs, other, ss, caseSensitive);
    while first != null && second != null
      invariant State(goal, all, done, first, a, second, b, caseSensitive)
      invariant if done == [] then tail == null && result == null else tail == done[|done| - 1] && result == done[0]
      invariant multiset(done) + multiset(a) + multiset(b) == all && |a| + |b| > 0
      invariant done == [] ==>
                  first == list && second == other && list.prev == old(list.prev) && other.prev == old(other.prev)
      invariant done != [] ==>
                  (result == list && result.prev == old(list.prev))
                  || (result == other && result.prev == old(other.prev))
      decreases |a| + |b|
    {
      FromAll(all, fs + ss, done, a, b);
      var smaller;
      smaller, first, second, a, b := MergeStep(tail, first, second, caseSensitive, goal, all, done, a, b);
      done := done + [smaller];
      if result == null {
        result := smaller;
      }
      tail := smaller;
      StateAll(goal, all, done, first, a, second, b, caseSensitive);
    }
    FromAll(all, fs + ss, done, a, b);
    sorted := done + (a + b);
    NotDone(goal, all, done, first, a, second, b, caseSensitive);
    AppendRest(tail, first, second, caseSensitive, goal, all, done, a, b);
  }

  /** What is left of one list goes behind the merged nodes. */
  method AppendRest(tail: Node?, first: Node?, second: Node?, caseSensitive: bool, ghost goal: seq<Node>,
                    ghost all: multiset<Node>,
                    ghost done: seq<Node>, ghost a: seq<Node>, ghost b: seq<Node>)
    requires State(goal, all, done, first, a, second, b, caseSensitive) && (first == null || second == null)
    requires done != [] && tail == done[|done| - 1] && (first != null || second != null)
    modifies done, a, b
    ensures Distinct(done + (a + b)) && Chain(done[0], done + (a + b))
    ensures multiset(done + (a + b)) == all && done + (a + b) == goal && done[0].prev == old(done[0].prev)
  {
    TowardsEnd(goal, all, done, a, b, caseSensitive);
    assert a + [] == a && [] + b == b;
    hide Towards, Members, Distinct;
    if first != null {
      TakeRest(tail, first, done, a);
    }
    if second != null {
      TakeRest(tail, second, done, b);
    }
  }

  lemma StateAll(goal: seq<Node>, all: multiset<Node>, done: seq<Node>, first: Node?, a: seq<Node>,
                 second: Node?, b: seq<Node>, caseSensitive: bool)
    requires State(goal, all, done, first, a, second, b, caseSensitive)
    ensures multiset(done) + multiset(a) + multiset(b) == all
  {
  }

  /** A list is used up only after something was taken, and never both at once. */
  lemma NotDone(goal: seq<Node>, all: multiset<Node>, done: seq<Node>, first: Node?, a: seq<Node>,
                second: Node?, b: seq<Node>, caseSensitive: bool)
    requires State(goal, all, done, first, a, second, b, caseSensitive)
    ensures (first == null <==> a == []) && (second == null <==> b == [])
  {
  }

  // ----- sorting -----

  lemma SplitMembers(nodes: seq<Node>, middle: nat)
    requires middle <= |nodes|
    ensures Members(nodes[..middle]) == Members(nodes)[..middle] && Members(nodes[middle..]) == Members(nodes)[middle..]
    ensures multiset(nodes) == multiset(nodes[..middle]) + multiset(nodes[middle..])
  {
    assert nodes == nodes[..middle] + nodes[middle..];
  }

  lemma SameNodes(a: seq<Node>, c: seq<Node>)
    requires multiset(a) == multiset(c)
    ensures forall n :: n in c ==> n in a
  {
    forall n | n in c
      ensures n in a
    {
      assert n in multiset(c);
      assert n in multiset(a);
    }
  }

  lemma SamePlaces(a: seq<Node>, b: seq<Node>, c: seq<Node>, d: seq<Node>)
    requires Distinct(c) && Distinct(d) && Disjoint(a, b) && multiset(a) == multiset(c) && multiset(b) == multiset(d)
    ensures Places([], c, d)
  {
    SameNodes(a, c);
    SameNodes(b, d);
  }

  lemma SortUnfolds(nodes: seq<Node>, caseSensitive: bool)
    requires |nodes| >= 2 && !StrictlySorted(Members(nodes), caseSensitive)
    ensures var middle := (|nodes| + 1) / 2;
            SortNodes(nodes, caseSensitive)
            == MergeNodes(SortNodes(nodes[..middle], caseSensitive), SortNodes(nodes[middle..], caseSensitive),
              caseSensitive)
  {
  }

  /** Sorting relinks the nodes into their order: next and prev are right except for the head's prev, which a node that is
      head for the first time has not got, and which the old head keeps. */
  method SortList(list: Node?, ghost nodes: seq<Node>, caseSensitive: bool)
    returns (result: Node?, ghost sorted: seq<Node>)
    requires Chain(list, nodes) && Distinct(nodes)
    modifies nodes
    ensures Chain(result, sorted) && Distinct(sorted) && multiset(sorted) == multiset(nodes)
    ensures sorted == SortNodes(nodes, caseSensitive)
    ensures nodes != [] ==> result != null && result.prev == if result == list then old(list.prev) else null
    decreases |nodes|, 2
  {
    hide Members, MergeNodes, StrictlySorted;
    if list == null || list.next == null {
      assert nodes != [] ==> nodes[0].next == NextOf(nodes, 0);
      return list, nodes;
    }
    assert nodes[0].next == NextOf(nodes, 0);
    var already := IsSorted(list, nodes, caseSensitive);
    if already {
      return list, nodes;
    }
    result, sorted := SortHalves(list, nodes, caseSensitive);
    SortUnfolds(nodes, caseSensitive);
  }

  /** Splits in the middle, sorts both halves, merges. */
  method SortHalves(list: Node, ghost nodes: seq<Node>, caseSensitive: bool)
    returns (result: Node?, ghost sorted: seq<Node>)
    requires Chain(list, nodes) && Distinct(nodes) && |nodes| >= 2
    modifies nodes
    ensures Chain(result, sorted) && Distinct(sorted) && multiset(sorted) == multiset(nodes)
    ensures var middle := (|nodes| + 1) / 2;
            sorted == MergeNodes(SortNodes(nodes[..middle], caseSensitive), SortNodes(nodes[middle..], caseSensitive),
              caseSensitive)
    ensures list == nodes[0] && result != null && result.prev == if result == list then old(list.prev) else null
    decreases |nodes|, 1
  {
    hide *;
    HeadOf(list, nodes);
    ghost var middle := (|nodes| + 1) / 2;
    ghost var a, b := nodes[..middle], nodes[middle..];
    SplitMembers(nodes, middle);
    var second := Halve(list, nodes, middle);
    ghost var c, d;
    var left, right;
    left, c, right, d := SortBoth(list, a, second, b, caseSensitive);
    FromAll(multiset(a), a, c, [], []);
    FromAll(multiset(b), b, d, [], []);
    result, sorted := MergeLists(left, c, right, d, caseSensitive);
  }

  lemma HeadOf(list: Node?, nodes: seq<Node>)
    requires Chain(list, nodes)
    ensures nodes != [] ==> list == nodes[0] && list in nodes
  {
  }

  /** Finds the middle and splits there. */
  method Halve(list: Node, ghost nodes: seq<Node>, ghost middle: nat) returns (second: Node)
    requires Chain(list, nodes) && Distinct(nodes) && |nodes| >= 2 && middle == (|nodes| + 1) / 2
    modifies nodes
    ensures Chain(list, nodes[..middle]) && Chain(second, nodes[middle..])
    ensures Distinct(nodes[..middle]) && Distinct(nodes[middle..]) && Disjoint(nodes[..middle], nodes[middle..])
    ensures list.prev == old(list.prev) && second.prev == null
  {
    second := FindMiddle(list, nodes);
    assert list == nodes[0];
    Split(second, nodes, middle);
  }

  method SortBoth(list: Node, ghost a: seq<Node>, second: Node, ghost b: seq<Node>, caseSensitive: bool)
    returns (left: Node, ghost c: seq<Node>, right: Node, ghost d: seq<Node>)
    requires Chain(list, a) && Chain(second, b) && Distinct(a) && Distinct(b) && Disjoint(a, b) && a != [] && b != []
    requires second.prev == null
    modifies a, b
    ensures Chain(left, c) && Chain(right, d) && Places([], c, d) && c != [] && d != []
    ensures multiset(c) == multiset(a) && multiset(d) == multiset(b)
    ensures c == SortNodes(a, caseSensitive) && d == SortNodes(b, caseSensitive)
    ensures left.prev == (if left == list then old(list.prev) else null) && right.prev == null && right != list
    decreases |a| + |b|, 0
  {
    hide *;
    HeadOf(list, a);
    HeadOf(second, b);
    ApartBoth(a, b);
    var l: Node?, r: Node?;
    l, c := SortList(list, a, caseSensitive);
    FromAll(multiset(a), a, c, [], []);
    ApartFrom(a, b, c);
    NonEmpty(l, c, a);
    r, d := SortList(second, b, caseSensitive);
    SamePlaces(a, b, c, d);
    NonEmpty(r, d, b);
    FromAll(multiset(b), b, d, [], []);
    left, right := l, r;
  }

  lemma ApartBoth(a: seq<Node>, b: seq<Node>)
    requires Disjoint(a, b)
    ensures forall i :: 0 <= i < |b| ==> b[i] !in a
  {
  }

  lemma ApartFrom(a: seq<Node>, b: seq<Node>, c: seq<Node>)
    requires Disjoint(a, b) && forall i :: 0 <= i < |c| ==> c[i] in a
    ensures forall i :: 0 <= i < |c| ==> c[i] !in b
  {
  }

  lemma NonEmpty(head: Node?, sorted: seq<Node>, nodes: seq<Node>)
    requires multiset(sorted) == multiset(nodes) && nodes != [] && Chain(head, sorted)
    ensures sorted != [] && head != null && head == sorted[0]
  {
    assert nodes[0] in multiset(nodes);
    assert nodes[0] in multiset(sorted);
  }

  // ----- what a sort does to the list -----

  /** The head's prev leads where the tail says. */
  ghost predicate Leads(list: List, tail: Tail)
    reads list, list.nodes
  {
    match tail
    case Kept => list.Valid()
    case Missing => list.nodes != [] && list.HeadPrev() == null
    case Inside(k) => k + 1 < |list.nodes| && list.HeadPrev() == list.nodes[k]
    case Astray => false
  }

  /**
   * Sorts the members of an object. Afterwards the chain is right, but the head's prev is that of the old head, or none if
   * another node has become the head: the list is valid exactly if the first and the last node stayed in place.
   */
  method SortMembers(list: List, caseSensitive: bool)
    requires list.Valid()
    modifies list, list.nodes
    ensures list.Chained() && multiset(list.nodes) == multiset(old(list.nodes))
    ensures list.nodes == SortNodes(old(list.nodes), caseSensitive)
    ensures list.HeadPrev() == if list.nodes == [] || list.nodes[0] == old(list.nodes)[0] then old(list.HeadPrev())
            else null
    ensures list.Valid() <==> EndsFixed(old(list.nodes), list.nodes)
    ensures TerminatedKeys(Members(old(list.nodes))) ==>
              Leads(list, SortTail(Members(old(list.nodes)), Kept, caseSensitive))
  {
    hide *;
    ghost var was, prev := list.nodes, list.HeadPrev();
    ChainOf(list);
    list.child, list.nodes := SortList(list.child, list.nodes, caseSensitive);
    ChainBack(list, was, prev);
    Decide(list, was, prev);
    if TerminatedKeys(Members(was)) {
      TailAfterSort(list, was, prev, caseSensitive);
    }
  }

  lemma ChainOf(list: List)
    requires list.Valid()
    ensures Chain(list.child, list.nodes) && Distinct(list.nodes)
    ensures list.nodes != [] ==> list.child != null && list.child == list.nodes[0]
    ensures list.nodes != [] ==> list.HeadPrev() == list.child.prev == list.nodes[|list.nodes| - 1]
    ensures list.nodes == [] ==> list.HeadPrev() == null
  {
    list.ValidIsChained();
  }

  lemma ChainBack(list: List, was: seq<Node>, prev: Node?)
    requires Chain(list.child, list.nodes) && Distinct(list.nodes) && |list.nodes| == |was|
    requires was == [] ==> prev == null
    requires was != [] ==> list.child != null && list.child.prev == if list.child == was[0] then prev else null
    ensures list.Chained()
    ensures list.HeadPrev() == if list.nodes == [] || list.nodes[0] == was[0] then prev else null
  {
  }

  lemma Decide(list: List, was: seq<Node>, prev: Node?)
    requires list.Chained() && |list.nodes| == |was| && (was != [] ==> prev == was[|was| - 1])
    requires list.HeadPrev() == if list.nodes == [] || list.nodes[0] == was[0] then prev else null
    ensures list.Valid() <==> EndsFixed(was, list.nodes)
  {
    list.ChainedIsValid();
    hide Linked, Chain;
  }

  /** The first and the last node are where they were. */
  ghost predicate EndsFixed(was: seq<Node>, nodes: seq<Node>)
    requires |was| == |nodes|
  {
    was == [] || (nodes[0] == was[0] && nodes[|nodes| - 1] == was[|was| - 1])
  }

  /** What a sort does to the hidden pointer is what the trees are given. */
  lemma TailAfterSort(list: List, was: seq<Node>, prev: Node?, caseSensitive: bool)
    requires TerminatedKeys(Members(was)) && list.nodes == SortNodes(was, caseSensitive) && Distinct(list.nodes)
    requires list.Valid() <==> EndsFixed(was, list.nodes)
    requires was != [] ==> prev == was[|was| - 1]
    requires list.HeadPrev() == if list.nodes == [] || list.nodes[0] == was[0] then prev else null
    ensures Leads(list, SortTail(Members(was), Kept, caseSensitive))
  {
    hide *;
    if was == [] {
      NothingLeads(list, was, caseSensitive);
    } else {
      var n := |was| - 1;
      SortPlaces(was, 0, caseSensitive);
      SortPlaces(was, n, caseSensitive);
      LeadsTo(list, was, prev, Rank(Members(was), 0, caseSensitive), Rank(Members(was), n, caseSensitive));
      TailByRanks(Members(was), caseSensitive);
    }
  }

  lemma NothingLeads(list: List, was: seq<Node>, caseSensitive: bool)
    requires was == [] && |list.nodes| == 0 && (list.Valid() <==> EndsFixed(was, list.nodes))
    ensures Leads(list, SortTail(Members(was), Kept, caseSensitive))
  {
  }

  lemma TailByRanks(ms: seq<Member>, caseSensitive: bool)
    requires ms != []
    ensures SortTail(ms, Kept, caseSensitive)
            == if Rank(ms, 0, caseSensitive) != 0 then Missing else TailAt(|ms|, Rank(ms, |ms| - 1, caseSensitive))
  {
    hide Rank;
  }

  lemma LeadsTo(list: List, was: seq<Node>, prev: Node?, first: nat, last: nat)
    requires was != [] && |list.nodes| == |was| && Distinct(list.nodes) && first < |was| && last < |was|
    requires list.nodes[first] == was[0] && list.nodes[last] == was[|was| - 1] && prev == was[|was| - 1]
    requires list.HeadPrev() == if list.nodes == [] || list.nodes[0] == was[0] then prev else null
    requires list.Valid() <==> EndsFixed(was, list.nodes)
    ensures Leads(list, if first != 0 then Missing else TailAt(|was|, last))
  {
    hide List.Valid;
    assert first == 0 <==> list.nodes[0] == was[0];
    assert last == |was| - 1 <==> list.nodes[|was| - 1] == was[|was| - 1];
  }

  /** The nodes "b" and "a", once sorted, take no further item, and nobody is told. */
  method PairLosesItem(list: List, b: Node, a: Node, item: Node, caseSensitive: bool)
    requires list.Valid() && list.nodes == [b, a] && b.member.key == "b" && a.member.key == "a"
    requires item.Detached() && item !in list.nodes
    modifies list, list.nodes, item
    ensures list.nodes == [a, b] && item.Detached()
  {
    PairOrder(b, a, caseSensitive);
    hide *;
    PairApart(list, b, a);
    SortMembers(list, caseSensitive);
    assert list.nodes[0] == a && [b, a][0] == b;
    list.Append(item, 0);
  }

  lemma PairOrder(b: Node, a: Node, caseSensitive: bool)
    requires b.member.key == "b" && a.member.key == "a"
    ensures SortNodes([b, a], caseSensitive) == [a, b]
  {
    assert Fold("b") == "b" && Fold("a") == "a";
    assert CompareStrings("b", "a", caseSensitive) > 0;
    hide CompareStrings;
    assert Members([b, a])[0] == b.member && Members([b, a])[1] == a.member;
    assert [b, a][..1] == [b] && [b, a][1..] == [a];
    assert [b][1..] == [] && [a][1..] == [];
    assert MergeNodes([b], [a], caseSensitive) == [a] + MergeNodes([b], [], caseSensitive);
  }

  lemma PairApart(list: List, b: Node, a: Node)
    requires list.Valid() && list.nodes == [b, a]
    ensures a != b
  {
    assert list.nodes[0] != list.nodes[1];
  }
}
