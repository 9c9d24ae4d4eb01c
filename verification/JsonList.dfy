/** The children of an array or object: a doubly linked list whose head's prev is the tail. */
module JsonList {
  import opened Basics
  import opened Json

  class Node {
    const member: Member
    var next: Node?
    var prev: Node?

    constructor (member: Member)
      ensures this.member == member && Detached()
    {
      this.member := member;
      next, prev := null, null;
    }

    ghost predicate Detached()
      reads this
    {
      next == null && prev == null
    }
  }

  ghost predicate Distinct(nodes: seq<Node>) {
    forall i, j :: 0 <= i < j < |nodes| ==> nodes[i] != nodes[j]
  }

  function NextOf(nodes: seq<Node>, i: nat): Node?
    requires i < |nodes|
  {
    if i + 1 < |nodes| then nodes[i + 1] else null
  }

  /** The node before; the tail for the head. */
  function PrevOf(nodes: seq<Node>, i: nat): Node
    requires i < |nodes|
  {
    if i > 0 then nodes[i - 1] else nodes[|nodes| - 1]
  }

  ghost predicate LinkedAt(nodes: seq<Node>, i: nat)
    requires i < |nodes|
    reads nodes[i]
  {
    nodes[i].next == NextOf(nodes, i) && nodes[i].prev == PrevOf(nodes, i)
  }

  ghost predicate Linked(nodes: seq<Node>)
    reads nodes
  {
    forall i {:trigger nodes[i]} :: 0 <= i < |nodes| ==> LinkedAt(nodes, i)
  }

  /** next runs through the nodes and ends; prev runs back from every node but the head. */
  ghost predicate Chain(head: Node?, nodes: seq<Node>)
    reads nodes
  {
    && head == (if nodes == [] then null else nodes[0])
    && (forall i {:trigger nodes[i]} :: 0 <= i < |nodes| ==> nodes[i].next == NextOf(nodes, i))
    && Back(nodes)
  }

  ghost predicate Back(nodes: seq<Node>)
    reads nodes
  {
    forall i {:trigger nodes[i]} :: 0 < i < |nodes| ==> nodes[i].prev == PrevOf(nodes, i)
  }

  class List {
    var child: Node?
    ghost var nodes: seq<Node>

    ghost predicate Valid()
      reads this, nodes
    {
      && Distinct(nodes) && Linked(nodes)
      && child == (if nodes == [] then null else nodes[0])
    }

    /** What holds of any list, also after a sort: the chain is right, but the head's prev may lead elsewhere. */
    ghost predicate Chained()
      reads this, nodes
    {
      Distinct(nodes) && Chain(child, nodes)
    }

    ghost function HeadPrev(): Node?
      reads this, nodes
    {
      if nodes == [] then null else nodes[0].prev
    }

    constructor ()
      ensures Valid() && nodes == []
    {
      child, nodes := null, [];
    }

    lemma ValidIsChained()
      requires Valid()
      ensures Chained() && (nodes != [] ==> HeadPrev() == nodes[|nodes| - 1] && child != null)
    {
      assert nodes != [] ==> LinkedAt(nodes, 0);
      forall i {:trigger nodes[i]} | 0 <= i < |nodes|
        ensures nodes[i].next == NextOf(nodes, i) && nodes[i].prev == PrevOf(nodes, i)
      {
        assert LinkedAt(nodes, i);
      }
    }

    /** A chain is a valid list exactly when the head's prev is the last node. */
    lemma ChainedIsValid()
      requires Chained()
      ensures Valid() <==> nodes == [] || HeadPrev() == nodes[|nodes| - 1]
    {
      if nodes != [] {
        if HeadPrev() == nodes[|nodes| - 1] {
          forall i | 0 <= i < |nodes|
            ensures LinkedAt(nodes, i)
          {
            var node := nodes[i];
            assert node.next == NextOf(nodes, i);
            assert i > 0 ==> node.prev == PrevOf(nodes, i);
          }
          assert Linked(nodes);
        } else {
          assert !LinkedAt(nodes, 0);
        }
      }
    }

    /** The node at an index, or none behind the end. */
    method GetItem(index: nat) returns (item: Node?)
      requires Valid()
      ensures item == if index < |nodes| then nodes[index] else null
    {
      item := child;
      var left := index;
      ghost var at := 0;
      while item != null && left > 0
        invariant 0 <= left <= index && at <= |nodes| && at <= index - left
        invariant at < |nodes| ==> at == index - left
        invariant item == if at < |nodes| then nodes[at] else null
        decreases left
      {
        assert LinkedAt(nodes, at);
        left := left - 1;
        item := item.next;
        at := at + 1;
      }
    }

    /**
     * Appends in constant time through the head's prev: behind the node it leads to, whose followers are lost if it is not
     * the last one, or not at all if it leads nowhere. In a valid list it leads to the last node.
     */
    method Append(item: Node, ghost k: nat)
      requires Chained() && item !in nodes && item.Detached()
      requires nodes != [] && HeadPrev() != null ==> k < |nodes| && HeadPrev() == nodes[k]
      modifies this, nodes, item
      ensures Chained()
      ensures old(nodes == [] || HeadPrev() != null) ==> Valid()
      ensures nodes == if old(nodes) == [] then [item]
                       else if old(HeadPrev()) == null then old(nodes)
                       else old(nodes)[..k + 1] + [item]
      ensures old(nodes != [] && HeadPrev() == null) ==> item.Detached() && HeadPrev() == null
      ensures old(Valid()) ==> Valid() && nodes == old(nodes) + [item]
    {
      LastInValid(k);
      hide Distinct, Linked;
      if child == null {
        Only(item);
      } else if child.prev != null {
        Behind(item, k);
      }
    }

    lemma LastInValid(k: nat)
      requires Chained() && (nodes != [] && HeadPrev() != null ==> k < |nodes| && HeadPrev() == nodes[k])
      ensures child == null <==> nodes == []
      ensures Valid() && nodes != [] ==> HeadPrev() != null && k == |nodes| - 1 && nodes[..k + 1] == nodes
    {
      if Valid() {
        ValidIsChained();
      }
    }

    /** The item is the whole list. */
    method Only(item: Node)
      requires nodes == [] && child == null
      modifies this, item
      ensures Valid() && Chained() && nodes == [item]
    {
      child := item;
      item.prev := item;
      item.next := null;
      nodes := [item];
      assert LinkedAt(nodes, 0);
      ValidIsChained();
    }

    /** The item follows node k, and nothing follows the item. */
    method Behind(item: Node, ghost k: nat)
      requires Chained() && item !in nodes && item.Detached() && k < |nodes| && child != null && child.prev == nodes[k]
      modifies this, nodes, item
      ensures Valid() && Chained() && nodes == old(nodes)[..k + 1] + [item]
    {
      LinkBehind(item, k);
      nodes := nodes[..k + 1] + [item];
      ValidIsChained();
    }

    method LinkBehind(item: Node, ghost k: nat)
      requires Chained() && item !in nodes && item.Detached() && k < |nodes| && child != null && child.prev == nodes[k]
      modifies nodes, item
      ensures var now := nodes[..k + 1] + [item];
              Distinct(now) && Linked(now) && child == now[0]
    {
      var tail := child.prev;
      tail.next := item;
      item.prev := tail;
      child.prev := item;
      ghost var now := nodes[..k + 1] + [item];
      forall i | 0 <= i < |now|
        ensures LinkedAt(now, i)
      {
        var node := now[i];
        if i <= k {
          Apart(nodes, i, k);
          assert node == nodes[i];
          assert old(nodes[i].next) == NextOf(nodes, i);
          assert i > 0 ==> old(nodes[i].prev) == PrevOf(nodes, i);
        }
      }
    }

    /** Takes a node out; it points nowhere afterwards. */
    method Detach(item: Node, ghost k: nat)
      requires Valid() && k < |nodes| && nodes[k] == item
      modifies this, nodes
      ensures Valid() && nodes == Removed(old(nodes), k) && item.Detached()
    {
      hide Distinct, Linked, SkipsNode, Removed, NextOf;
      Unlink(item, k);
      WithoutNode(nodes, k);
      HeadWithout(nodes, k);
      nodes := Removed(nodes, k);
    }

    /** The pointers around a node are led past it. */
    method Unlink(item: Node, ghost k: nat)
      requires Valid() && k < |nodes| && nodes[k] == item
      modifies this`child, nodes
      ensures Distinct(nodes) && item.Detached()
      ensures child == if k > 0 then nodes[0] else NextOf(nodes, 0)
      ensures SkipsNode(nodes, k)
    {
      assert LinkedAt(nodes, k) && LinkedAt(nodes, 0);
      assert k == 0 <==> item == nodes[0];
      if item != child {
        item.prev.next := item.next;
      }
      if item.next != null {
        item.next.prev := item.prev;
      }
      if item == child {
        child := item.next;
      } else if item.next == null {
        child.prev := item.prev;
      }
      item.prev, item.next := null, null;
      forall j | 0 <= j < |nodes| && j != k
        ensures LinkedWithout(nodes, k, j)
      {
        Apart(nodes, j, k);
        hide Distinct, Linked, NextOf, PrevOf;
        assert old(LinkedAt(nodes, j));
        assert nodes[j].next == if j + 1 == k then old(item.next) else old(nodes[j].next);
        assert nodes[j].prev == if j == k + 1 || (j == 0 && k == |nodes| - 1) then old(item.prev)
               else old(nodes[j].prev);
      }
    }

    /** Inserts before the node at an index, or appends behind the end. */
    method Insert(which: nat, item: Node)
      requires Valid() && item !in nodes && item.Detached()
      modifies this, nodes, item
      ensures Valid()
      ensures nodes == if which < |old(nodes)| then Inserted(old(nodes), which, item) else old(nodes) + [item]
    {
      hide Distinct, Linked, NextOf, Inserted, LinkedWithin;
      var after := GetItem(which);
      if after == null {
        ValidIsChained();
        Append(item, if nodes == [] then 0 else |nodes| - 1);
        return;
      }
      LinkBefore(after, which, item);
      WithNode(nodes, which, item);
      nodes := Inserted(nodes, which, item);
    }

    method LinkBefore(after: Node, ghost k: nat, item: Node)
      requires Valid() && k < |nodes| && nodes[k] == after && item !in nodes && item.Detached()
      modifies this`child, nodes, item
      ensures Distinct(nodes) && child == Inserted(nodes, k, item)[0] && item !in nodes
      ensures item.next == after && item.prev == PrevOf(nodes, k) && LinkedWithin(nodes, k, item)
    {
      assert LinkedAt(nodes, k) && LinkedAt(nodes, 0);
      assert k == 0 <==> after == nodes[0];
      item.next := after;
      item.prev := after.prev;
      after.prev := item;
      if after == child {
        child := item;
      } else {
        item.prev.next := item;
      }
      forall j | 0 <= j < |nodes|
        ensures LinkedBeside(nodes, k, item, j)
      {
        Apart(nodes, j, k);
        hide Distinct, Linked;
        assert nodes[j] != item;
        assert old(LinkedAt(nodes, j));
      }
    }

    /** Puts a node in the place of another one, which points nowhere afterwards. */
    method Replace(item: Node, ghost k: nat, replacement: Node)
      requires Valid() && k < |nodes| && nodes[k] == item
      requires replacement == item || (replacement !in nodes && replacement.Detached())
      modifies this, nodes, replacement
      ensures Valid() && nodes == if replacement == item then old(nodes) else Placed(old(nodes), k, replacement)
      ensures replacement != item ==> item.Detached()
    {
      hide Distinct, Linked, Placed, LinkedPlaced, NextOf, PrevOf;
      if replacement == item {
        return;
      }
      TakePlace(item, k, replacement);
      PlacedNode(nodes, k, replacement);
      nodes := Placed(nodes, k, replacement);
    }

    method TakePlace(item: Node, ghost k: nat, replacement: Node)
      requires Valid() && k < |nodes| && nodes[k] == item && replacement !in nodes && replacement.Detached()
      modifies this`child, nodes, replacement
      ensures Distinct(nodes) && child == Placed(nodes, k, replacement)[0] && item.Detached() && replacement !in nodes
      ensures LinkedPlaced(nodes, k, replacement)
      ensures replacement.next == NextOf(nodes, k) && replacement.prev == PrevOf(Placed(nodes, k, replacement), k)
    {
      Rewire(item, k, replacement);
      forall j | 0 <= j < |nodes| && j != k
        ensures LinkedBehind(nodes, k, replacement, j)
      {
        hide Distinct, Linked, NextOf, PrevOf;
        assert old(LinkedAt(nodes, j));
      }
    }

    /** The pointers of the neighbours are led to the replacement. */
    method Rewire(item: Node, ghost k: nat, replacement: Node)
      requires Valid() && k < |nodes| && nodes[k] == item && replacement !in nodes && replacement.Detached()
      modifies this`child, nodes, replacement
      ensures item.Detached() && child == (if k == 0 then replacement else old(child))
      ensures replacement.next == NextOf(nodes, k)
      ensures replacement.prev == if |nodes| == 1 then replacement else PrevOf(nodes, k)
      ensures forall j {:trigger nodes[j]} :: 0 <= j < |nodes| && j != k ==>
                && nodes[j].next == (if j + 1 == k then replacement else old(nodes[j].next))
                && nodes[j].prev == (if j == k + 1 || (j == 0 && k == |nodes| - 1) then replacement
                  else old(nodes[j].prev))
    {
      hide Distinct, Linked, NextOf, PrevOf;
      LeadBack(item, k, replacement);
      LeadHere(item, k, replacement);
      item.next, item.prev := null, null;
      forall j | 0 <= j < |nodes| && j != k
        ensures nodes[j].next == if j + 1 == k then replacement else old(nodes[j].next)
        ensures nodes[j].prev == if j == k + 1 || (j == 0 && k == |nodes| - 1) then replacement else old(nodes[j].prev)
      {
        Apart(nodes, j, k);
      }
    }

    /** The head pointer, or the node in front and perhaps the head, lead to the replacement. */
    method LeadHere(item: Node, ghost k: nat, replacement: Node)
      requires k < |nodes| && nodes[k] == item && replacement !in nodes && Distinct(nodes)
      requires child == nodes[0] && (child == item <==> k == 0) && (k == 0 ==> (child.prev == child <==> |nodes| == 1))
      requires replacement.next == NextOf(nodes, k) && replacement.prev == PrevOf(nodes, k)
      modifies this`child, nodes, replacement
      ensures child == (if k == 0 then replacement else old(child))
      ensures replacement.next == old(replacement.next)
      ensures replacement.prev == if |nodes| == 1 then replacement else old(replacement.prev)
      ensures forall j {:trigger nodes[j]} :: 0 <= j < |nodes| ==>
                && nodes[j].next == (if j + 1 == k then replacement else old(nodes[j].next))
                && nodes[j].prev == (if k > 0 && j == 0 && k == |nodes| - 1 then replacement else old(nodes[j].prev))
    {
      if child == item {
        if child.prev == child {
          replacement.prev := replacement;
        }
        child := replacement;
      } else {
        if replacement.prev != null {
          replacement.prev.next := replacement;
        }
        if replacement.next == null {
          child.prev := replacement;
        }
      }
      forall j | 0 <= j < |nodes|
        ensures nodes[j].next == if j + 1 == k then replacement else old(nodes[j].next)
        ensures nodes[j].prev == if k > 0 && j == 0 && k == |nodes| - 1 then replacement else old(nodes[j].prev)
      {
        Apart(nodes, j, k);
        hide Distinct;
        assert nodes[j] != replacement;
      }
    }

    /** The replacement takes the pointers over, and the node behind points back to it. */
    method LeadBack(item: Node, ghost k: nat, replacement: Node)
      requires Valid() && k < |nodes| && nodes[k] == item && replacement !in nodes && replacement.Detached()
      modifies nodes, replacement
      ensures replacement.next == NextOf(nodes, k) && replacement.prev == PrevOf(nodes, k)
      ensures Distinct(nodes) && child == nodes[0] && (child == item <==> k == 0)
      ensures k == 0 ==> (child.prev == child <==> |nodes| == 1)
      ensures forall j {:trigger nodes[j]} :: 0 <= j < |nodes| ==>
                nodes[j].next == old(nodes[j].next)
                  && nodes[j].prev == (if j == k + 1 then replacement else old(nodes[j].prev))
    {
      assert LinkedAt(nodes, k) && LinkedAt(nodes, 0);
      Apart(nodes, 0, k);
      replacement.next := item.next;
      replacement.prev := item.prev;
      if replacement.next != null {
        replacement.next.prev := replacement;
      }
      forall j | 0 <= j < |nodes|
        ensures nodes[j].next == old(nodes[j].next)
                && nodes[j].prev == (if j == k + 1 then replacement else old(nodes[j].prev))
      {
        Apart(nodes, j, k);
      }
      Apart(nodes, |nodes| - 1, 0);
    }
  }

  /** Node j is linked as if node k were not there. */
  ghost predicate LinkedWithout(nodes: seq<Node>, k: nat, j: nat)
    requires k < |nodes| && j < |nodes| && j != k
    reads nodes[j]
  {
    && nodes[j].next == NextOf(nodes, if j + 1 == k then k else j)
    && nodes[j].prev == PrevOf(nodes, if j == k + 1 || (j == 0 && k == |nodes| - 1) then k else j)
  }

  ghost predicate SkipsNode(nodes: seq<Node>, k: nat)
    requires k < |nodes|
    reads nodes
  {
    forall j {:trigger nodes[j]} :: 0 <= j < |nodes| && j != k ==> LinkedWithout(nodes, k, j)
  }

  /** The neighbours of a node when node k is taken out. */
  lemma NeighboursWithout(nodes: seq<Node>, k: nat, j: nat)
    requires k < |nodes| && j < |nodes| && j != k
    ensures var rest, i := Removed(nodes, k), if j < k then j else j - 1;
            && rest[i] == nodes[j]
            && NextOf(rest, i) == NextOf(nodes, if j + 1 == k then k else j)
            && PrevOf(rest, i) == PrevOf(nodes, if j == k + 1 || (j == 0 && k == |nodes| - 1) then k else j)
  {
  }

  lemma HeadWithout(nodes: seq<Node>, k: nat)
    requires k < |nodes|
    ensures (if k > 0 then nodes[0] else NextOf(nodes, 0)) == if Removed(nodes, k) == [] then null
            else Removed(nodes, k)[0]
  {
  }

  lemma LinkedSkipping(nodes: seq<Node>, k: nat, j: nat)
    requires k < |nodes| && j < |nodes| && j != k && LinkedWithout(nodes, k, j)
    ensures LinkedAt(Removed(nodes, k), if j < k then j else j - 1)
  {
    NeighboursWithout(nodes, k, j);
    hide Removed, NextOf, PrevOf;
  }

  lemma WithoutNode(nodes: seq<Node>, k: nat)
    requires k < |nodes| && Distinct(nodes)
    requires SkipsNode(nodes, k)
    ensures Distinct(Removed(nodes, k)) && Linked(Removed(nodes, k))
  {
    hide Distinct, NextOf, PrevOf, LinkedWithout, LinkedAt, Removed;
    DistinctWithout(nodes, k);
    forall i | 0 <= i < |Removed(nodes, k)|
      ensures LinkedAt(Removed(nodes, k), i)
    {
      var j := if i < k then i else i + 1;
      var node := nodes[j];
      LinkedSkipping(nodes, k, j);
    }
  }

  lemma DistinctWithout(nodes: seq<Node>, k: nat)
    requires k < |nodes| && Distinct(nodes)
    ensures Distinct(Removed(nodes, k))
  {
    var rest := Removed(nodes, k);
    forall i, j | 0 <= i < j < |rest|
      ensures rest[i] != rest[j]
    {
      assert rest[i] == nodes[if i < k then i else i + 1] && rest[j] == nodes[if j < k then j else j + 1];
    }
  }

  // ----- a new node before node k -----

  function Inserted(nodes: seq<Node>, k: nat, item: Node): seq<Node>
    requires k < |nodes|
  {
    nodes[..k] + [item] + nodes[k..]
  }

  /** Node j is linked as if the item stood before node k. */
  ghost predicate LinkedBeside(nodes: seq<Node>, k: nat, item: Node, j: nat)
    requires k < |nodes| && j < |nodes|
    reads nodes[j]
  {
    && nodes[j].next == (if j + 1 == k then item else NextOf(nodes, j))
    && nodes[j].prev == (if j == k then item else PrevOf(nodes, j))
  }

  ghost predicate LinkedWithin(nodes: seq<Node>, k: nat, item: Node)
    requires k < |nodes|
    reads nodes
  {
    forall j {:trigger nodes[j]} :: 0 <= j < |nodes| ==> LinkedBeside(nodes, k, item, j)
  }

  lemma NeighboursWith(nodes: seq<Node>, k: nat, item: Node, j: nat)
    requires k < |nodes| && j < |nodes|
    ensures var now, i := Inserted(nodes, k, item), if j < k then j else j + 1;
            && now[i] == nodes[j]
            && NextOf(now, i) == (if j + 1 == k then item else NextOf(nodes, j))
            && PrevOf(now, i) == (if j == k then item else PrevOf(nodes, j))
    ensures Inserted(nodes, k, item)[k] == item
    ensures NextOf(Inserted(nodes, k, item), k) == nodes[k] && PrevOf(Inserted(nodes, k, item), k) == PrevOf(nodes, k)
  {
  }

  lemma WithNode(nodes: seq<Node>, k: nat, item: Node)
    requires k < |nodes| && Distinct(nodes) && item !in nodes
    requires LinkedWithin(nodes, k, item) && item.next == nodes[k] && item.prev == PrevOf(nodes, k)
    ensures Distinct(Inserted(nodes, k, item)) && Linked(Inserted(nodes, k, item)) && Inserted(nodes, k, item) != []
  {
    DistinctWith(nodes, k, item);
    hide Distinct, NextOf, PrevOf;
    forall i | 0 <= i < |Inserted(nodes, k, item)|
      ensures LinkedAt(Inserted(nodes, k, item), i)
    {
      var j := if i < k then i else if i == k then k else i - 1;
      NeighboursWith(nodes, k, item, j);
      hide Inserted;
      assert LinkedBeside(nodes, k, item, j);
    }
  }

  lemma DistinctWith(nodes: seq<Node>, k: nat, item: Node)
    requires k < |nodes| && Distinct(nodes) && item !in nodes
    ensures Distinct(Inserted(nodes, k, item))
  {
    var now := Inserted(nodes, k, item);
    forall i, j | 0 <= i < j < |now|
      ensures now[i] != now[j]
    {
      assert i != k ==> now[i] == nodes[if i < k then i else i - 1];
      assert j != k ==> now[j] == nodes[if j < k then j else j - 1];
    }
  }

  // ----- another node in the place of node k -----

  /** Node j is none of the others that matter. */
  lemma Apart(nodes: seq<Node>, j: nat, k: nat)
    requires Distinct(nodes) && j < |nodes| && k < |nodes|
    ensures j != k ==> nodes[j] != nodes[k]
    ensures j != 0 ==> nodes[j] != nodes[0]
    ensures k > 0 && j != k - 1 ==> nodes[j] != nodes[k - 1]
    ensures k + 1 < |nodes| && j != k + 1 ==> nodes[j] != nodes[k + 1]
  {
  }

  function Placed(nodes: seq<Node>, k: nat, item: Node): (r: seq<Node>)
    requires k < |nodes|
    ensures |r| == |nodes|
  {
    nodes[k := item]
  }

  /** Node j is linked as if the item stood in the place of node k. */
  ghost predicate LinkedBehind(nodes: seq<Node>, k: nat, item: Node, j: nat)
    requires k < |nodes| && j < |nodes|
    reads nodes[j]
  {
    && nodes[j].next == (if j + 1 == k then item else NextOf(nodes, j))
    && nodes[j].prev == (if j == k + 1 || (j == 0 && k == |nodes| - 1) then item else PrevOf(nodes, j))
  }

  ghost predicate LinkedPlaced(nodes: seq<Node>, k: nat, item: Node)
    requires k < |nodes|
    reads nodes
  {
    forall j {:trigger nodes[j]} :: 0 <= j < |nodes| && j != k ==> LinkedBehind(nodes, k, item, j)
  }

  lemma PlacedNode(nodes: seq<Node>, k: nat, item: Node)
    requires k < |nodes| && Distinct(nodes) && item !in nodes
    requires LinkedPlaced(nodes, k, item) && item.next == NextOf(nodes, k)
             && item.prev == PrevOf(Placed(nodes, k, item), k)
    ensures Distinct(Placed(nodes, k, item)) && Linked(Placed(nodes, k, item))
  {
    var now := Placed(nodes, k, item);
    forall i | 0 <= i < |now|
      ensures LinkedAt(now, i)
    {
      assert i != k ==> LinkedBehind(nodes, k, item, i);
    }
  }
}
