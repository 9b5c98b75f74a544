/**
 * The heap nodes of a singly linked list and the ghost vocabulary for
 * describing a chain of them: a chain is a sequence of nodes in which every
 * node links to the next one, the last one linking to a given end.
 */
module NodeChain {

  /** One link of the chain: an element and the link to the next node. */
  class Node<T(0)> {
    const value: T
    var next: Node?<T>

    /** The sentinel: its value is default-constructed and never read. */
    constructor Sentinel()
      ensures next == null
    {
      next := null;
    }

    constructor (value: T, next: Node?<T>)
      ensures this.value == value && this.next == next
    {
      this.value := value;
      this.next := next;
    }
  }

  /** A position in a list: the node it refers to, or null for the end. */
  datatype Iter<T(0)> = Iter(node: Node?<T>)

  /**
   * `++it`: moves the position to the successor of its node. Advancing the
   * end position is excluded, as the C++ `assert(this->node_ != nullptr)`
   * excludes it.
   */
  function Next<T(0)>(it: Iter<T>): (r: Iter<T>)
    requires it.node != null
    reads it.node
    ensures r.node == it.node.next
  {
    Iter(it.node.next)
  }

  /**
   * `*it`: the element held by the node the position refers to.
   * Dereferencing the end position is excluded, as the C++
   * `assert(this->node_ != nullptr)` excludes it.
   */
  function Deref<T(0)>(it: Iter<T>): (r: T)
    requires it.node != null
    reads it.node
    ensures r == it.node.value
  {
    it.node.value
  }

  // ---------------------------------------------------------------------
  // Shape of a chain of nodes

  /** The node a segment followed by `rest` hands on to. */
  ghost function Successor<T(0)>(rest: seq<Node<T>>, end: Node?<T>): Node?<T>
  {
    if |rest| > 0 then rest[0] else end
  }

  /** Each node of `nodes` links to the following one, and the last one to `end`. */
  ghost predicate Linked<T(0)>(nodes: seq<Node<T>>, end: Node?<T>)
    reads nodes`next
    decreases |nodes|
  {
    |nodes| == 0 ||
    (nodes[0].next == Successor(nodes[1..], end) && Linked(nodes[1..], end))
  }

  /** The nodes of `nodes` hold `values`, in order. */
  ghost predicate Spells<T(0)>(nodes: seq<Node<T>>, values: seq<T>)
    decreases |nodes|
  {
    |nodes| == |values| &&
    (|nodes| == 0 || (nodes[0].value == values[0] && Spells(nodes[1..], values[1..])))
  }

  /** No element occurs twice. */
  ghost predicate Distinct<X>(s: seq<X>)
    decreases |s|
  {
    |s| == 0 || (s[0] !in s[1..] && Distinct(s[1..]))
  }

  /** The index of the first occurrence of `x` in `s`. */
  ghost function FirstIndex<X>(s: seq<X>, x: X): (k: nat)
    requires x in s
    ensures k < |s| && s[k] == x
    ensures forall j :: 0 <= j < k ==> s[j] != x
  {
    if s[0] == x then 0 else 1 + FirstIndex(s[1..], x)
  }

  lemma LinkedCons<T(0)>(n: Node<T>, rest: seq<Node<T>>, end: Node?<T>)
    ensures Linked([n] + rest, end) <==> n.next == Successor(rest, end) && Linked(rest, end)
  {
    assert ([n] + rest)[1..] == rest;
  }

  lemma {:induction false} LinkedJoin<T(0)>(a: seq<Node<T>>, b: seq<Node<T>>, end: Node?<T>)
    requires Linked(a, Successor(b, end)) && Linked(b, end)
    ensures Linked(a + b, end)
    decreases |a|
  {
    if |a| == 0 {
      assert a + b == b;
    } else {
      assert [a[0]] + a[1..] == a;
      LinkedCons(a[0], a[1..], Successor(b, end));
      LinkedJoin(a[1..], b, end);
      assert Successor(a[1..] + b, end) == Successor(a[1..], Successor(b, end));
      assert a + b == [a[0]] + (a[1..] + b);
      LinkedCons(a[0], a[1..] + b, end);
    }
  }

  /** The link a `Linked` segment has at index `k`. */
  lemma {:induction false} LinkAt<T(0)>(nodes: seq<Node<T>>, end: Node?<T>, k: nat)
    requires Linked(nodes, end) && k < |nodes|
    ensures nodes[k].next == if k + 1 < |nodes| then nodes[k + 1] else end
    decreases k
  {
    if k > 0 {
      LinkAt(nodes[1..], end, k - 1);
    }
  }

  lemma SpellsCons<T(0)>(n: Node<T>, rest: seq<Node<T>>, v: T, values: seq<T>)
    ensures Spells([n] + rest, [v] + values) <==> n.value == v && Spells(rest, values)
  {
    assert ([n] + rest)[1..] == rest && ([v] + values)[1..] == values;
  }

  lemma {:induction false} SpellsSplit<T(0)>(a: seq<Node<T>>, b: seq<Node<T>>, u: seq<T>, w: seq<T>)
    requires |a| == |u|
    ensures Spells(a + b, u + w) <==> Spells(a, u) && Spells(b, w)
    decreases |a|
  {
    if |a| == 0 {
      assert a + b == b && u + w == w;
    } else {
      assert a + b == [a[0]] + (a[1..] + b) && u + w == [u[0]] + (u[1..] + w);
      SpellsCons(a[0], a[1..] + b, u[0], u[1..] + w);
      SpellsSplit(a[1..], b, u[1..], w);
      assert [a[0]] + a[1..] == a && [u[0]] + u[1..] == u;
      SpellsCons(a[0], a[1..], u[0], u[1..]);
    }
  }

  /** The element at index `k` of a spelled sequence. */
  lemma {:induction false} SpellsAt<T(0)>(nodes: seq<Node<T>>, values: seq<T>, k: nat)
    requires Spells(nodes, values) && k < |nodes|
    ensures nodes[k].value == values[k]
    decreases k
  {
    if k > 0 {
      SpellsAt(nodes[1..], values[1..], k - 1);
    }
  }

  lemma DistinctCons<X>(x: X, s: seq<X>)
    ensures Distinct([x] + s) <==> x !in s && Distinct(s)
  {
    assert ([x] + s)[1..] == s;
  }

  lemma {:induction false} DistinctSplit<X>(a: seq<X>, b: seq<X>)
    ensures Distinct(a + b) <==> Distinct(a) && Distinct(b) && (forall x :: x in a ==> x !in b)
    decreases |a|
  {
    if |a| == 0 {
      assert a + b == b;
    } else {
      assert a + b == [a[0]] + (a[1..] + b);
      DistinctCons(a[0], a[1..] + b);
      DistinctSplit(a[1..], b);
      assert [a[0]] + a[1..] == a;
      DistinctCons(a[0], a[1..]);
    }
  }

  /** Cutting a chain at node `k`: the part before it leads to it, the part after it follows it. */
  lemma LinkedUnzip<T(0)>(nodes: seq<Node<T>>, k: nat)
    requires Linked(nodes, null) && Distinct(nodes) && k < |nodes|
    ensures Linked(nodes[..k], nodes[k]) && Linked(nodes[k + 1..], null)
    ensures nodes[k].next == Successor(nodes[k + 1..], null)
    ensures nodes[k] !in nodes[..k] && nodes[k] !in nodes[k + 1..]
  {
    LinkedTake(nodes, null, k);
    LinkedDrop(nodes, null, k + 1);
    LinkAt(nodes, null, k);
    DistinctUnzip(nodes, k);
  }

  /** A prefix of a chain leads to the node after it. */
  lemma {:induction false} LinkedTake<T(0)>(nodes: seq<Node<T>>, end: Node?<T>, k: nat)
    requires Linked(nodes, end) && k <= |nodes|
    ensures Linked(nodes[..k], Successor(nodes[k..], end))
    decreases k
  {
    if k > 0 {
      LinkedTake(nodes[1..], end, k - 1);
      assert nodes[1..][..k - 1] == nodes[..k][1..];
      assert nodes[1..][k - 1..] == nodes[k..];
    }
  }

  /** A suffix of a chain is a chain to the same end. */
  lemma {:induction false} LinkedDrop<T(0)>(nodes: seq<Node<T>>, end: Node?<T>, k: nat)
    requires Linked(nodes, end) && k <= |nodes|
    ensures Linked(nodes[k..], end)
    decreases k
  {
    if k > 0 {
      LinkedDrop(nodes[1..], end, k - 1);
      assert nodes[1..][k - 1..] == nodes[k..];
    }
  }

  /** A node of a distinct sequence occurs neither before nor after its own index. */
  lemma DistinctUnzip<X>(s: seq<X>, k: nat)
    requires Distinct(s) && k < |s|
    ensures s[k] !in s[..k] && s[k] !in s[k + 1..]
  {
    var pre, x, post := s[..k], s[k], s[k + 1..];
    assert s == pre + ([x] + post);
    DistinctSplit(pre, [x] + post);
    DistinctCons(x, post);
    assert x in [x] + post;
  }

  /** The converse of `LinkedUnzip`: a node between two linked segments. */
  lemma LinkedZip<T(0)>(a: seq<Node<T>>, p: Node<T>, b: seq<Node<T>>)
    requires Linked(a, p) && p.next == Successor(b, null) && Linked(b, null)
    ensures Linked(a + [p] + b, null)
  {
    LinkedCons(p, b, null);
    LinkedJoin(a, [p] + b, null);
    assert a + [p] + b == a + ([p] + b);
  }

  lemma SpellsInsert<T(0)>(nodes: seq<Node<T>>, values: seq<T>, i: nat, n: Node<T>, v: T)
    requires Spells(nodes, values) && i <= |nodes| && n.value == v
    ensures Spells(nodes[..i] + [n] + nodes[i..], values[..i] + [v] + values[i..])
  {
    assert nodes == nodes[..i] + nodes[i..] && values == values[..i] + values[i..];
    SpellsSplit(nodes[..i], nodes[i..], values[..i], values[i..]);
    SpellsCons(n, nodes[i..], v, values[i..]);
    SpellsSplit(nodes[..i], [n] + nodes[i..], values[..i], [v] + values[i..]);
    assert nodes[..i] + [n] + nodes[i..] == nodes[..i] + ([n] + nodes[i..]);
    assert values[..i] + [v] + values[i..] == values[..i] + ([v] + values[i..]);
  }

  lemma SpellsRemove<T(0)>(nodes: seq<Node<T>>, values: seq<T>, i: nat)
    requires Spells(nodes, values) && i < |nodes|
    ensures Spells(nodes[..i] + nodes[i + 1..], values[..i] + values[i + 1..])
  {
    assert nodes == nodes[..i] + ([nodes[i]] + nodes[i + 1..]);
    assert values == values[..i] + ([values[i]] + values[i + 1..]);
    SpellsSplit(nodes[..i], [nodes[i]] + nodes[i + 1..], values[..i], [values[i]] + values[i + 1..]);
    SpellsCons(nodes[i], nodes[i + 1..], values[i], values[i + 1..]);
    SpellsSplit(nodes[..i], nodes[i + 1..], values[..i], values[i + 1..]);
  }

  lemma {:induction false} DistinctInsert<X>(s: seq<X>, i: nat, x: X)
    requires Distinct(s) && x !in s && i <= |s|
    ensures Distinct(s[..i] + [x] + s[i..])
    decreases i
  {
    if i == 0 {
      assert s[..0] + [x] + s[0..] == [x] + s;
      DistinctCons(x, s);
    } else {
      var t := s[1..];
      DistinctCons(s[0], t);
      assert [s[0]] + t == s;
      DistinctInsert(t, i - 1, x);
      var r := t[..i - 1] + [x] + t[i - 1..];
      assert s[..i] + [x] + s[i..] == [s[0]] + r;
      assert s[0] !in r by {
        assert t == t[..i - 1] + t[i - 1..];
        assert s[0] in s;
      }
      DistinctCons(s[0], r);
    }
  }

  lemma {:induction false} DistinctRemove<X>(s: seq<X>, i: nat)
    requires Distinct(s) && i < |s|
    ensures Distinct(s[..i] + s[i + 1..])
    decreases i
  {
    if i == 0 {
      assert s[..0] + s[1..] == s[1..];
      DistinctCons(s[0], s[1..]);
      assert [s[0]] + s[1..] == s;
    } else {
      var t := s[1..];
      DistinctCons(s[0], t);
      assert [s[0]] + t == s;
      DistinctRemove(t, i - 1);
      var r := t[..i - 1] + t[i..];
      assert s[..i] + s[i + 1..] == [s[0]] + r;
      assert s[0] !in r by {
        assert t == t[..i - 1] + [t[i - 1]] + t[i..];
      }
      DistinctCons(s[0], r);
    }
  }

  /** Linking `n` in after node `k` of a chain cut at `k`. */
  lemma LinkedInsert<T(0)>(nodes: seq<Node<T>>, k: nat, n: Node<T>)
    requires k < |nodes| && Linked(nodes[..k], nodes[k]) && Linked(nodes[k + 1..], null)
    requires nodes[k].next == n && n.next == Successor(nodes[k + 1..], null)
    ensures Linked(nodes[..k + 1] + [n] + nodes[k + 1..], null)
  {
    LinkedCons(n, nodes[k + 1..], null);
    LinkedZip(nodes[..k], nodes[k], [n] + nodes[k + 1..]);
    assert nodes[..k + 1] + [n] + nodes[k + 1..] == nodes[..k] + [nodes[k]] + ([n] + nodes[k + 1..]);
  }

  /** The heap-independent parts of the list invariant survive inserting a fresh node after node `k`. */
  lemma InsertShape<T(0)>(nodes: seq<Node<T>>, values: seq<T>, R: set<object>, k: nat, n: Node<T>, v: T)
    requires |nodes| == |values| + 1 && k < |nodes| && n.value == v && n !in nodes
    requires Spells(nodes[1..], values) && Distinct(nodes)
    requires forall j :: 0 <= j < |nodes| ==> nodes[j] in R
    ensures var nodes' := nodes[..k + 1] + [n] + nodes[k + 1..];
      Spells(nodes'[1..], values[..k] + [v] + values[k..]) && Distinct(nodes') &&
      forall j :: 0 <= j < |nodes'| ==> nodes'[j] in R + {n}
  {
    var nodes' := nodes[..k + 1] + [n] + nodes[k + 1..];
    SpellsInsert(nodes[1..], values, k, n, v);
    assert nodes'[1..] == nodes[1..][..k] + [n] + nodes[1..][k..];
    DistinctInsert(nodes, k + 1, n);
    forall j | 0 <= j < |nodes'| ensures nodes'[j] in R + {n} {
      if j < k + 1 {
        assert nodes'[j] == nodes[j];
      } else if j > k + 1 {
        assert nodes'[j] == nodes[j - 1];
      }
    }
  }

  /** Cutting out the successor of node `k`: the chain before `k` leads to it, the one after its successor ends in null. */
  lemma LinkedCut<T(0)>(nodes: seq<Node<T>>, k: nat)
    requires Linked(nodes, null) && Distinct(nodes) && k + 1 < |nodes|
    ensures Linked(nodes[..k], nodes[k]) && Linked(nodes[k + 2..], null)
    ensures nodes[k].next == nodes[k + 1] && nodes[k + 1].next == Successor(nodes[k + 2..], null)
    ensures nodes[k] !in nodes[..k] && nodes[k] !in nodes[k + 2..]
  {
    LinkedUnzip(nodes, k);
    assert nodes[k + 1..] == [nodes[k + 1]] + nodes[k + 2..];
    LinkedCons(nodes[k + 1], nodes[k + 2..], null);
  }

  /** Relinking node `k` past its successor in a chain cut by `LinkedCut`. */
  lemma LinkedRemove<T(0)>(nodes: seq<Node<T>>, k: nat)
    requires k + 1 < |nodes| && Linked(nodes[..k], nodes[k]) && Linked(nodes[k + 2..], null)
    requires nodes[k].next == Successor(nodes[k + 2..], null)
    ensures Linked(nodes[..k + 1] + nodes[k + 2..], null)
  {
    LinkedZip(nodes[..k], nodes[k], nodes[k + 2..]);
    assert nodes[..k + 1] + nodes[k + 2..] == nodes[..k] + [nodes[k]] + nodes[k + 2..];
  }

  /** The heap-independent parts of the list invariant survive unlinking the successor of node `k`. */
  lemma RemoveShape<T(0)>(nodes: seq<Node<T>>, values: seq<T>, R: set<object>, k: nat)
    requires |nodes| == |values| + 1 && k + 1 < |nodes|
    requires Spells(nodes[1..], values) && Distinct(nodes)
    requires forall j :: 0 <= j < |nodes| ==> nodes[j] in R
    ensures var nodes' := nodes[..k + 1] + nodes[k + 2..];
      Spells(nodes'[1..], values[..k] + values[k + 1..]) && Distinct(nodes') &&
      forall j :: 0 <= j < |nodes'| ==> nodes'[j] in R
  {
    var nodes' := nodes[..k + 1] + nodes[k + 2..];
    SpellsRemove(nodes[1..], values, k);
    assert nodes'[1..] == nodes[1..][..k] + nodes[1..][k + 1..];
    DistinctRemove(nodes, k + 1);
    forall j | 0 <= j < |nodes'| ensures nodes'[j] in R {
      if j > k {
        assert nodes'[j] == nodes[j + 1];
      }
    }
  }

  /** Linking a last node `n` behind the last node of a chain. */
  lemma LinkedAppend<T(0)>(nodes: seq<Node<T>>, n: Node<T>)
    requires |nodes| > 0 && Linked(nodes[..|nodes| - 1], nodes[|nodes| - 1])
    requires nodes[|nodes| - 1].next == n && n.next == null
    ensures Linked(nodes + [n], null)
  {
    var k := |nodes| - 1;
    LinkedCons(n, [], null);
    LinkedZip(nodes[..k], nodes[k], [n]);
    assert nodes[..k] + [nodes[k]] + [n] == nodes + [n];
  }

  /** The heap-independent parts of the list invariant survive appending a new node. */
  lemma AppendShape<T(0)>(nodes: seq<Node<T>>, values: seq<T>, R: set<object>, n: Node<T>, v: T)
    requires |nodes| == |values| + 1 && n.value == v && n !in nodes
    requires Spells(nodes[1..], values) && Distinct(nodes)
    requires forall j :: 0 <= j < |nodes| ==> nodes[j] in R
    ensures Spells((nodes + [n])[1..], values + [v]) && Distinct(nodes + [n])
    ensures forall j :: 0 <= j < |nodes| + 1 ==> (nodes + [n])[j] in R + {n}
  {
    var k := |values|;
    InsertShape(nodes, values, R, k, n, v);
    assert nodes[..k + 1] + [n] + nodes[k + 1..] == nodes + [n];
    assert values[..k] + [v] + values[k..] == values + [v];
  }

  /** Distinct elements sit at distinct indices. */
  lemma {:induction false} DistinctAt<X>(s: seq<X>, i: nat, j: nat)
    requires Distinct(s) && i < j < |s|
    ensures s[i] != s[j]
    decreases i
  {
    if i == 0 {
      assert s[j] in s[1..];
    } else {
      DistinctAt(s[1..], i - 1, j - 1);
    }
  }
}
