/**
 * `SingleLinkedList<Type>`: a singly linked list whose chain of heap nodes
 * hangs off an embedded sentinel node `head`, with the number of real nodes
 * kept beside it in `size`.
 *
 * The abstract view of a list is the ghost sequence `Contents`; the ghost
 * sequence `Nodes` lists the nodes of the chain, the sentinel first, so that
 * `Nodes[k + 1]` holds `Contents[k]`. A position (iterator) refers to one of
 * these nodes, or to null for the end position: `PositionAt(k)` is the
 * position after `k` nodes, so `PositionAt(0)` is before-begin,
 * `PositionAt(1)` is begin and `PositionAt(|Nodes|)` is end.
 */
module LinkedList {
  import opened NodeChain

  class SingleLinkedList<T(0)> {
    /** The embedded sentinel; `head.next` is the first real node. */
    const head: Node<T>
    var size: nat

    ghost var Contents: seq<T>
    ghost var Nodes: seq<Node<T>>
    ghost var Repr: set<object>

    /**
     * The chain from the sentinel is a sequence of distinct nodes ending in
     * null, its values spell `Contents`, and `size` counts the real nodes.
     */
    ghost predicate Valid()
      reads this, Repr
    {
      this in Repr &&
      |Nodes| == |Contents| + 1 && Nodes[0] == head &&
      (forall k :: 0 <= k < |Nodes| ==> Nodes[k] in Repr) &&
      Linked(Nodes, null) && Spells(Nodes[1..], Contents) && Distinct(Nodes) &&
      size == |Contents|
    }

    /** The index in `Nodes` of a node of this list (0 for the sentinel). */
    ghost function IndexOf(n: Node<T>): (k: nat)
      reads this
      requires n in Nodes
      ensures k < |Nodes| && Nodes[k] == n
    {
      FirstIndex(Nodes, n)
    }

    /** The position after `k` nodes: 0 is before-begin, `|Nodes|` is the end. */
    ghost function PositionAt(k: nat): Iter<T>
      reads this
      requires k <= |Nodes|
    {
      if k < |Nodes| then Iter(Nodes[k]) else Iter(null)
    }

    /** Records `nodes`, a chain from the sentinel spelling `contents`, as this list's state. */
    ghost method Retrack(nodes: seq<Node<T>>, contents: seq<T>, repr: set<object>)
      requires |nodes| == |contents| + 1 && nodes[0] == head && size == |contents|
      requires Linked(nodes, null) && Spells(nodes[1..], contents) && Distinct(nodes)
      requires this in repr && forall k :: 0 <= k < |nodes| ==> nodes[k] in repr
      modifies this
      ensures Valid() && Contents == contents && Nodes == nodes && Repr == repr
    {
      Contents, Nodes, Repr := contents, nodes, repr;
    }

    /** The empty list. */
    constructor ()
      ensures Valid() && fresh(Repr)
      ensures Contents == [] && size == 0
    {
      head := new Node.Sentinel();
      size := 0;
      Contents := [];
      Nodes := [head];
      Repr := {this, head};
    }

    /** The list built from an initializer list: the values in order. */
    constructor FromSeq(values: seq<T>)
      ensures Valid() && fresh(Repr)
      ensures Contents == values && size == |values|
    {
      head := new Node.Sentinel();
      size := 0;
      Contents := [];
      Nodes := [head];
      Repr := {this, head};
      new;
      Assign(values);
    }

    /** The copy constructor: a list of fresh nodes holding the elements of `other`. */
    constructor Copy(other: SingleLinkedList<T>)
      requires other.Valid()
      ensures Valid() && fresh(Repr)
      ensures Contents == other.Contents && size == other.size
    {
      head := new Node.Sentinel();
      size := 0;
      Contents := [];
      Nodes := [head];
      Repr := {this, head};
      new;
      var values := other.Elements();
      Assign(values);
    }

    /** Copy-and-swap assignment: `this` gets a fresh copy of the elements of `rhs`, which is left as it was. */
    method CopyAssign(rhs: SingleLinkedList<T>)
      requires Valid() && rhs.Valid()
      requires this == rhs || Repr !! rhs.Repr
      modifies this, head
      ensures Valid() && fresh(Repr - old(Repr))
      ensures Contents == old(rhs.Contents) && size == old(rhs.size)
      ensures this != rhs ==> rhs.Valid() && rhs.Contents == old(rhs.Contents)
    {
      var copy := new SingleLinkedList.Copy(rhs);
      Swap(copy);
    }

    /** Exchanges the chains and sizes of two lists; no node other than the two sentinels is touched. */
    method Swap(other: SingleLinkedList<T>)
      requires Valid() && other.Valid()
      requires this == other || Repr !! other.Repr
      modifies this, head, other, other.head
      ensures Valid() && other.Valid()
      ensures Contents == old(other.Contents) && other.Contents == old(Contents)
      ensures size == old(other.size) && other.size == old(size)
      ensures Nodes[1..] == old(other.Nodes[1..]) && other.Nodes[1..] == old(Nodes[1..])
      ensures this != other ==>
        Repr == {this, head} + (old(other.Repr) - {other, other.head}) &&
        other.Repr == {other, other.head} + (old(Repr) - {this, head})
    {
      ghost var mine, theirs := Nodes[1..], other.Nodes[1..];
      var tmpNext := head.next;
      head.next := other.head.next;
      other.head.next := tmpNext;
      var tmpSize := size;
      size := other.size;
      other.size := tmpSize;
      if this != other {
        ghost var myContents, myRepr := Contents, Repr;
        Adopt(theirs, other.Contents, other.Repr - {other, other.head});
        other.Adopt(mine, myContents, myRepr - {this, head});
      }
    }

    /** Takes `nodes`, which the sentinel now leads to, as this list's chain holding `contents`. */
    ghost method Adopt(nodes: seq<Node<T>>, contents: seq<T>, repr: set<object>)
      requires head.next == Successor(nodes, null) && Linked(nodes, null)
      requires Spells(nodes, contents) && Distinct(nodes) && head !in nodes
      requires (forall k :: 0 <= k < |nodes| ==> nodes[k] in repr) && size == |contents|
      modifies this
      ensures Valid() && Contents == contents && Nodes == [head] + nodes && Repr == {this, head} + repr
    {
      LinkedCons(head, nodes, null);
      DistinctCons(head, nodes);
      assert ([head] + nodes)[1..] == nodes;
      Retrack([head] + nodes, contents, {this, head} + repr);
    }

    function GetSize(): (r: nat)
      reads this, Repr
      requires Valid()
      ensures r == |Contents|
    {
      size
    }

    predicate IsEmpty()
      reads this, Repr
      requires Valid()
      ensures IsEmpty() <==> Contents == []
    {
      size == 0
    }

    /** Links a new node holding `value` in front of the first node. */
    method PushFront(value: T)
      requires Valid()
      modifies this, head
      ensures Valid() && fresh(Repr - old(Repr))
      ensures Contents == [value] + old(Contents)
      ensures size == old(size) + 1
      ensures Nodes[2..] == old(Nodes[1..]) && fresh(Nodes[1])
    {
      var n := new Node(value, head.next);
      head.next := n;
      size := size + 1;
      Contents := [value] + Contents;
      Nodes := [head, n] + Nodes[1..];
      Repr := Repr + {n};
    }

    /** Unlinks the first node, if there is one. */
    method PopFront()
      requires Valid()
      modifies this, head
      ensures Valid() && Repr == old(Repr)
      ensures old(Contents) == [] ==> Contents == [] && size == 0 && Nodes == old(Nodes)
      ensures old(Contents) != [] ==>
        Contents == old(Contents[1..]) && size == old(size) - 1 && Nodes == [head] + old(Nodes[2..])
    {
      if !IsEmpty() {
        LinkedCut(Nodes, 0);
        var tmp := head.next.next;
        head.next := tmp;
        size := size - 1;
        LinkedRemove(Nodes, 0);
        RemoveShape(Nodes, Contents, Repr, 0);
        Retrack(Nodes[..1] + Nodes[2..], Contents[..0] + Contents[1..], Repr);
      }
    }

    /** Unlinks every node, front to back, until the list is empty. */
    method Clear()
      requires Valid()
      modifies this, head
      ensures Valid() && Repr == old(Repr)
      ensures Contents == [] && size == 0 && Nodes == [head] && head.next == null
    {
      while !IsEmpty()
        invariant Valid() && Repr == old(Repr)
        decreases size
      {
        LinkedCut(Nodes, 0);
        var tmp := head.next.next;
        head.next := tmp;
        size := size - 1;
        LinkedRemove(Nodes, 0);
        RemoveShape(Nodes, Contents, Repr, 0);
        Retrack(Nodes[..1] + Nodes[2..], Contents[..0] + Contents[1..], Repr);
      }
    }

    /**
     * Links a new node holding `value` directly after the node at `pos`, which
     * may be the sentinel, and returns the position of the new node.
     */
    method InsertAfter(pos: Iter<T>, value: T) returns (it: Iter<T>)
      requires Valid() && pos.node != null && pos.node in Nodes
      modifies this, pos.node
      ensures Valid() && fresh(Repr - old(Repr))
      ensures var k := old(IndexOf(pos.node));
        Contents == old(Contents[..k]) + [value] + old(Contents[k..]) &&
        Nodes == old(Nodes[..k + 1]) + [it.node] + old(Nodes[k + 1..])
      ensures size == old(size) + 1
      ensures it.node != null && fresh(it.node) && it.node.value == value
      ensures it.node.next == old(pos.node.next)
    {
      ghost var k := IndexOf(pos.node);
      var p := pos.node;
      var tmp := p.next;
      var n := new Node(value, tmp);
      assert n !in Nodes;
      LinkedUnzip(Nodes, k);
      p.next := n;
      p.next.next := tmp;
      size := size + 1;
      LinkedInsert(Nodes, k, n);
      InsertShape(Nodes, Contents, Repr, k, n, value);
      Retrack(Nodes[..k + 1] + [n] + Nodes[k + 1..], Contents[..k] + [value] + Contents[k..], Repr + {n});
      it := Iter(n);
    }

    /**
     * Unlinks the successor of the node at `pos` and returns the position that
     * now follows `pos`. When the list is empty, `pos` is the end or the node
     * at `pos` is the last one, nothing changes and the end is returned.
     */
    method EraseAfter(pos: Iter<T>) returns (it: Iter<T>)
      requires Valid() && (pos.node == null || pos.node in Nodes)
      modifies this, pos.node
      ensures Valid() && Repr == old(Repr)
      ensures pos.node != null && old(IndexOf(pos.node)) < old(|Contents|) ==>
        var k := old(IndexOf(pos.node));
        Contents == old(Contents[..k] + Contents[k + 1..]) &&
        Nodes == old(Nodes[..k + 1] + Nodes[k + 2..]) &&
        size == old(size) - 1 && it == PositionAt(k + 1)
      ensures pos.node == null || old(IndexOf(pos.node)) == old(|Contents|) ==>
        Contents == old(Contents) && Nodes == old(Nodes) && size == old(size) && it == Iter(null)
    {
      if pos.node != null {
        LinkAt(Nodes, null, IndexOf(pos.node));
      }
      if !IsEmpty() && pos.node != null && pos.node.next != null {
        ghost var k := IndexOf(pos.node);
        LinkedCut(Nodes, k);
        var p := pos.node;
        var tmp := p.next.next;
        p.next := tmp;
        size := size - 1;
        LinkedRemove(Nodes, k);
        RemoveShape(Nodes, Contents, Repr, k);
        Retrack(Nodes[..k + 1] + Nodes[k + 2..], Contents[..k] + Contents[k + 1..], Repr);
        it := Iter(p.next);
      } else {
        it := End();
      }
    }

    /**
     * Fills an empty list with `values`, in order: the nodes are appended one
     * by one to a scratch list through a pointer to its last node, and the
     * scratch list is then swapped in.
     */
    method Assign(values: seq<T>)
      requires Valid() && size == 0 && head.next == null
      modifies this, head
      ensures Valid() && fresh(Repr - old(Repr))
      ensures Contents == values && size == |values|
      ensures forall k :: 1 <= k < |Nodes| ==> fresh(Nodes[k])
    {
      var tmp := new SingleLinkedList<T>();
      var last := tmp.head;
      var i := 0;
      while i < |values|
        invariant i <= |values|
        invariant tmp.Valid() && fresh(tmp.Repr)
        invariant tmp.Contents == values[..i]
        invariant last == tmp.Nodes[|tmp.Nodes| - 1]
        invariant unchanged(this, head)
      {
        var node := tmp.LinkLast(last, values[i]);
        last := node;
        assert values[..i + 1] == values[..i] + [values[i]];
        i := i + 1;
      }
      Swap(tmp);
    }

    /** The body of the loop in `Assign`: links a new node holding `value` behind `last`, the last node. */
    method LinkLast(last: Node<T>, value: T) returns (node: Node<T>)
      requires Valid() && last == Nodes[|Nodes| - 1]
      modifies this, last
      ensures Valid() && Repr == old(Repr) + {node} && fresh(node)
      ensures Contents == old(Contents) + [value] && size == old(size) + 1
      ensures Nodes == old(Nodes) + [node]
    {
      node := new Node(value, null);
      assert node !in Nodes;
      LinkedUnzip(Nodes, |Nodes| - 1);
      last.next := node;
      size := size + 1;
      LinkedAppend(Nodes, node);
      AppendShape(Nodes, Contents, Repr, node, value);
      Retrack(Nodes + [node], Contents + [value], Repr + {node});
    }

    /** The elements met walking from `begin` to `end`. */
    method Elements() returns (values: seq<T>)
      requires Valid()
      ensures values == Contents
    {
      values := [];
      var it := Begin();
      while it != End()
        invariant |values| < |Nodes| && it == PositionAt(|values| + 1)
        invariant values == Contents[..|values|]
        decreases |Nodes| - |values|
      {
        DerefAt(|values| + 1);
        NextAdvances(|values| + 1);
        values := values + [Deref(it)];
        it := Next(it);
      }
    }

    /** `begin()`: the position of the first element. */
    function Begin(): (it: Iter<T>)
      reads this, Repr
      requires Valid()
      ensures it == PositionAt(1)
    {
      Iter(head.next)
    }

    /** `end()`: the position past the last element. */
    function End(): (it: Iter<T>)
      reads this
      ensures it == PositionAt(|Nodes|)
    {
      Iter(null)
    }

    /** `before_begin()`: the position of the sentinel. */
    function BeforeBegin(): (it: Iter<T>)
      reads this, Repr
      requires Valid()
      ensures it == PositionAt(0)
    {
      Iter(head)
    }

    /** `++it` moves every position but the end to the next one. */
    lemma NextAdvances(k: nat)
      requires Valid() && k < |Nodes|
      ensures PositionAt(k).node != null && Next(PositionAt(k)) == PositionAt(k + 1)
    {
      LinkAt(Nodes, null, k);
    }

    /** `*it` at the position after `k` nodes is the `k`-th element. */
    lemma DerefAt(k: nat)
      requires Valid() && 0 < k < |Nodes|
      ensures PositionAt(k).node != null && Deref(PositionAt(k)) == Contents[k - 1]
    {
      SpellsAt(Nodes[1..], Contents, k - 1);
    }

    /** Two positions of a list compare equal exactly when they are the same position. */
    lemma PositionsEqual(i: nat, j: nat)
      requires Valid() && i <= |Nodes| && j <= |Nodes|
      ensures PositionAt(i) == PositionAt(j) <==> i == j
    {
      if i < j < |Nodes| {
        DistinctAt(Nodes, i, j);
      } else if j < i < |Nodes| {
        DistinctAt(Nodes, j, i);
      }
    }

    /** `begin() == end()` exactly when the list is empty. */
    lemma BeginIsEndIffEmpty()
      requires Valid()
      ensures Begin() == End() <==> Contents == []
    {
      PositionsEqual(1, |Nodes|);
    }
  }

  /** The free `swap`: delegates to the member function. */
  method Swap<T(0)>(lhs: SingleLinkedList<T>, rhs: SingleLinkedList<T>)
    requires lhs.Valid() && rhs.Valid()
    requires lhs == rhs || lhs.Repr !! rhs.Repr
    modifies lhs, lhs.head, rhs, rhs.head
    ensures lhs.Valid() && rhs.Valid()
    ensures lhs.Contents == old(rhs.Contents) && rhs.Contents == old(lhs.Contents)
    ensures lhs.size == old(rhs.size) && rhs.size == old(lhs.size)
    ensures lhs.Nodes[1..] == old(rhs.Nodes[1..]) && rhs.Nodes[1..] == old(lhs.Nodes[1..])
    ensures lhs != rhs ==>
      lhs.Repr == {lhs, lhs.head} + (old(rhs.Repr) - {rhs, rhs.head}) &&
      rhs.Repr == {rhs, rhs.head} + (old(lhs.Repr) - {lhs, lhs.head})
  {
    lhs.Swap(rhs);
  }
}
