/**
 * Client code that strings operations of `SingleLinkedList` together, with
 * what the combined calls promise: undoing an operation restores the list,
 * a copy does not share nodes with its original, and a cleared list's
 * `begin()` is its `end()`.
 */
module ListScenarios {
  import opened NodeChain
  import opened LinkedList
  import opened ListComparison

  /** `PopFront` undoes `PushFront`. */
  method PushThenPop<T(0)>(list: SingleLinkedList<T>, value: T)
    requires list.Valid()
    modifies list, list.head
    ensures list.Valid() && list.Contents == old(list.Contents) && list.size == old(list.size)
  {
    list.PushFront(value);
    list.PopFront();
  }

  /** `EraseAfter` at the same position undoes `InsertAfter`, and returns the old successor of `pos`. */
  method InsertThenErase<T(0)>(list: SingleLinkedList<T>, pos: Iter<T>, value: T) returns (it: Iter<T>)
    requires list.Valid() && pos.node != null && pos.node in list.Nodes
    modifies list, pos.node
    ensures list.Valid() && list.Contents == old(list.Contents) && list.size == old(list.size)
    ensures it.node == old(pos.node.next)
  {
    ghost var k := list.IndexOf(pos.node);
    ghost var contents, nodes := list.Contents, list.Nodes;
    list.NextAdvances(k);
    var inserted := list.InsertAfter(pos, value);
    DistinctNodes(list, k);
    it := list.EraseAfter(pos);
    InsertThenRemove(contents, k, value);
    InsertThenRemove(nodes, k + 1, inserted.node);
  }

  /** Removing what was inserted at index `k` gives the sequence back. */
  lemma InsertThenRemove<X>(s: seq<X>, k: nat, x: X)
    requires k <= |s|
    ensures (s[..k] + [x] + s[k..])[..k] + (s[..k] + [x] + s[k..])[k + 1..] == s
  {
    var t := s[..k] + [x] + s[k..];
    assert t[..k] == s[..k] && t[k + 1..] == s[k..];
  }

  /** `IndexOf` finds a node of a list at its only index. */
  lemma DistinctNodes<T(0)>(list: SingleLinkedList<T>, k: nat)
    requires list.Valid() && k < |list.Nodes|
    ensures list.IndexOf(list.Nodes[k]) == k
  {
    var j := list.IndexOf(list.Nodes[k]);
    if j < k {
      DistinctAt(list.Nodes, j, k);
    }
  }

  /** Swapping twice restores both lists, node for node. */
  method SwapTwice<T(0)>(a: SingleLinkedList<T>, b: SingleLinkedList<T>)
    requires a.Valid() && b.Valid() && (a == b || a.Repr !! b.Repr)
    modifies a, a.head, b, b.head
    ensures a.Valid() && b.Valid()
    ensures a.Contents == old(a.Contents) && b.Contents == old(b.Contents)
    ensures a.Nodes[1..] == old(a.Nodes[1..]) && b.Nodes[1..] == old(b.Nodes[1..])
  {
    a.Swap(b);
    Swap(a, b);
  }

  /** A copy is made of fresh nodes: growing the copy leaves the original as it was. */
  method CopyIsIndependent<T(0)>(list: SingleLinkedList<T>, value: T) returns (copy: SingleLinkedList<T>)
    requires list.Valid()
    ensures list.Valid() && list.Contents == old(list.Contents)
    ensures copy.Valid() && copy.Contents == [value] + list.Contents
  {
    copy := new SingleLinkedList.Copy(list);
    copy.PushFront(value);
  }

  /** The other direction: changing the original after copying it leaves the copy as it was. */
  method OriginalChangeLeavesCopy<T(0)>(list: SingleLinkedList<T>, value: T) returns (copy: SingleLinkedList<T>)
    requires list.Valid()
    modifies list, list.head
    ensures list.Valid() && list.Contents == [value] + old(list.Contents)
    ensures copy.Valid() && copy.Contents == old(list.Contents)
  {
    copy := new SingleLinkedList.Copy(list);
    list.PushFront(value);
  }

  /** After `Clear` the first position is the end position. */
  method ClearedIsEmpty<T(0)>(list: SingleLinkedList<T>)
    requires list.Valid()
    modifies list, list.head
    ensures list.Valid() && list.IsEmpty() && list.Begin() == list.End()
  {
    list.Clear();
    list.BeginIsEndIffEmpty();
  }

  /** Inserting 1 at the front of [2, 3] through before-begin gives [1, 2, 3]; erasing there gives [2, 3] back. */
  method FrontInsertErase() returns (list: SingleLinkedList<int>, afterInsert: seq<int>)
    ensures list.Valid() && afterInsert == [1, 2, 3] && list.Contents == [2, 3]
  {
    list := new SingleLinkedList.FromSeq([2, 3]);
    var it := list.InsertAfter(list.BeforeBegin(), 1);
    afterInsert := list.Elements();
    assert afterInsert == [1] + [2, 3];
    it := list.EraseAfter(list.BeforeBegin());
  }

  /** Erasing after the last element of [1, 2] changes nothing and returns the end. */
  method EraseAfterLast() returns (list: SingleLinkedList<int>, it: Iter<int>)
    ensures list.Valid() && list.Contents == [1, 2] && it == list.End()
  {
    list := new SingleLinkedList.FromSeq([1, 2]);
    list.NextAdvances(1);
    var last := Next(list.Begin());
    DistinctNodes(list, 2);
    it := list.EraseAfter(last);
  }

  /** Two lists built from [1, 2, 3] are equal. */
  method EqualExample() returns (r: bool)
    ensures r
  {
    var a := new SingleLinkedList.FromSeq([1, 2, 3]);
    var b := new SingleLinkedList.FromSeq([1, 2, 3]);
    r := Equal(a, b);
  }

  /** [1, 2, 3] and [1, 2, 2] differ. */
  method NotEqualExample() returns (r: bool)
    ensures r
  {
    var a := new SingleLinkedList.FromSeq([1, 2, 3]);
    var c := new SingleLinkedList.FromSeq([1, 2, 2]);
    r := NotEqual(a, c);
    assert c.Contents[2] != a.Contents[2];
  }

  /** [1, 2] is less than [1, 2, 3] under `<` on int, being a proper prefix of it. */
  method PrefixExample() returns (r: bool)
    ensures r
  {
    var d := new SingleLinkedList.FromSeq([1, 2]);
    var a := new SingleLinkedList.FromSeq([1, 2, 3]);
    r := LessThan(d, a, (x: int, y: int) => x < y);
    assert Lexicographic([1, 2], [1, 2, 3], (x: int, y: int) => x < y) by {
      assert [1, 2, 3][1..] == [2, 3] && [1, 2][1..] == [2];
      assert [2, 3][1..] == [3] && [2][1..] == [];
    }
  }

  /** Two empty lists are equal. */
  method EmptyExample() returns (r: bool)
    ensures r
  {
    var e := new SingleLinkedList<int>();
    var f := new SingleLinkedList<int>();
    r := Equal(e, f);
  }
}
