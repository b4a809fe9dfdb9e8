/** The intrusive doubly linked ring of ccan/list: the head is a node of the ring like any other,
    and an empty list is a head linked to itself. */
module Ring {

  class ListNode {
    var next: ListNode
    var prev: ListNode

    constructor ()
      ensures next == this && prev == this
    {
      next := this;
      prev := this;
    }
  }

  // ---------- Consistent rings ----------

  function After(nodes: seq<ListNode>, i: nat): ListNode
    requires i < |nodes|
  {
    if i + 1 < |nodes| then nodes[i + 1] else nodes[0]
  }

  function Before(nodes: seq<ListNode>, i: nat): ListNode
    requires i < |nodes|
  {
    if i > 0 then nodes[i - 1] else nodes[|nodes| - 1]
  }

  /** The nodes form one ring, in this order. */
  ghost predicate IsRing(nodes: seq<ListNode>)
    reads nodes
  {
    && |nodes| > 0
    && Distinct(nodes)
    && (forall i {:trigger nodes[i].next} | 0 <= i < |nodes| :: nodes[i].next == After(nodes, i))
    && (forall i {:trigger nodes[i].prev} | 0 <= i < |nodes| :: nodes[i].prev == Before(nodes, i))
  }

  /** The list at `head` holds exactly these elements, in this order. */
  ghost predicate IsList(head: ListNode, elems: seq<ListNode>)
    reads {head} + set n | n in elems
  {
    IsRing([head] + elems)
  }

  // ---------- The checker ----------

  /** A finite graph of nodes that no pointer leaves. */
  ghost predicate Closed(graph: set<ListNode>)
    reads graph
  {
    forall n | n in graph :: n.next in graph && n.prev in graph
  }

  /** The node reached from `node` by following `next` k times. */
  ghost function Walk(node: ListNode, k: nat, graph: set<ListNode>): (n: ListNode)
    requires node in graph && Closed(graph)
    reads graph
    ensures n in graph
  {
    if k == 0 then node else Walk(node, k - 1, graph).next
  }

  /** Going forward from `node` leads back to it, and every node on the way is linked back to
      from the next one. */
  ghost predicate Consistent(node: ListNode, graph: set<ListNode>)
    requires node in graph && Closed(graph)
    reads graph
  {
    exists k: nat ::
      && k > 0
      && Walk(node, k, graph) == node
      && forall i: nat | i < k :: Walk(node, i, graph).next.prev == Walk(node, i, graph)
  }

  /** The nodes met so far, all different and linked back. */
  ghost predicate Traced(node: ListNode, graph: set<ListNode>, ring: seq<ListNode>)
    requires node in graph && Closed(graph)
    reads graph
  {
    && |ring| > 0
    && Distinct(ring)
    && (forall i | 0 <= i < |ring| :: ring[i] == Walk(node, i, graph))
    && (forall i {:trigger ring[i].prev} | 0 < i < |ring| :: ring[i].prev == ring[i - 1])
  }

  /** `list_check_node` without an abort string.  The pointers may form any graph at all. */
  method ListCheckNode(node: ListNode, ghost graph: set<ListNode>)
    returns (r: ListNode?, ghost ring: seq<ListNode>)
    requires node in graph && Closed(graph)
    ensures r == null || r == node
    ensures r != null <==> Consistent(node, graph)
    ensures r != null ==> IsRing(ring) && ring[0] == node
  {
    var p, n := node, node.next;
    ring := [node];
    ghost var seen := {node};
    assert Traced(node, graph, ring);
    hide Consistent, Traced, Walk, Distinct;
    while n != node
      invariant |ring| > 0 && ring[0] == node && p == ring[|ring| - 1] && n == p.next
      invariant seen == (set x | x in ring) && seen <= graph
      invariant Traced(node, graph, ring)
      decreases graph - seen
    {
      if n.prev != p {
        BrokenLink(node, graph, ring);
        return null, [];
      }
      TracedNext(node, graph, ring, n);
      ring := ring + [n];
      seen := seen + {n};
      p, n := n, n.next;
    }
    if node.prev != p {
      BrokenLink(node, graph, ring);
      return null, [];
    }
    TracedRing(node, graph, ring);
    r := node;
  }

  lemma TracedNext(node: ListNode, graph: set<ListNode>, ring: seq<ListNode>, n: ListNode)
    requires node in graph && Closed(graph) && Traced(node, graph, ring)
    requires n == ring[|ring| - 1].next && n != node && n.prev == ring[|ring| - 1]
    ensures n !in ring && n in graph && Traced(node, graph, ring + [n])
  {
    assert Walk(node, |ring|, graph) == n;
    assert ring[0] == Walk(node, 0, graph) == node;
    forall j | 0 <= j < |ring|
      ensures ring[j] != n
    {
      assert j > 0 ==> ring[j].prev == ring[j - 1];
    }
  }

  lemma TracedRing(node: ListNode, graph: set<ListNode>, ring: seq<ListNode>)
    requires node in graph && Closed(graph) && Traced(node, graph, ring)
    requires ring[|ring| - 1].next == node && node.prev == ring[|ring| - 1]
    ensures IsRing(ring) && Consistent(node, graph)
  {
    assert Walk(node, |ring|, graph) == node && ring[0] == Walk(node, 0, graph) == node;
    forall i | 0 <= i < |ring|
      ensures ring[i].next == After(ring, i) && ring[i].prev == Before(ring, i)
    {
      assert Walk(node, i + 1, graph) == ring[i].next;
    }
    assert forall i: nat | i < |ring| :: Walk(node, i, graph) == ring[i];
  }

  /** A link back that is broken before the walk first returns breaks every possible ring. */
  lemma BrokenLink(node: ListNode, graph: set<ListNode>, ring: seq<ListNode>)
    requires node in graph && Closed(graph) && Traced(node, graph, ring)
    requires ring[|ring| - 1].next.prev != ring[|ring| - 1]
    ensures !Consistent(node, graph)
  {
    assert ring[0] == Walk(node, 0, graph) == node;
    assert forall k | 0 < k < |ring| :: ring[k] != node;
    forall k: nat | k > 0 && Walk(node, k, graph) == node ensures k >= |ring| {}
  }

  /** Every ring passes the check, whatever else is in the graph. */
  lemma RingIsConsistent(ring: seq<ListNode>, graph: set<ListNode>)
    requires IsRing(ring)
    requires ring[0] in graph && Closed(graph)
    ensures Consistent(ring[0], graph)
  {
    WalkRing(ring, graph, |ring|);
    forall i: nat | i < |ring|
      ensures Walk(ring[0], i, graph).next.prev == Walk(ring[0], i, graph)
    {
      WalkRing(ring, graph, i);
    }
  }

  lemma {:induction false} WalkRing(ring: seq<ListNode>, graph: set<ListNode>, k: nat)
    requires IsRing(ring) && k <= |ring|
    requires ring[0] in graph && Closed(graph)
    ensures Walk(ring[0], k, graph) == if k < |ring| then ring[k] else ring[0]
  {
    if k > 0 {
      WalkRing(ring, graph, k - 1);
      assert ring[k - 1].next == After(ring, k - 1);
    }
  }

  // ---------- Adding and deleting ----------

  method ListHeadInit(h: ListNode)
    modifies h
    ensures IsList(h, [])
  {
    h.next := h;
    h.prev := h;
  }

  /** The ring with a chain linked in between position k - 1 and position k. */
  function Inserted(ring: seq<ListNode>, k: nat, chain: seq<ListNode>): seq<ListNode>
    requires 0 < k <= |ring|
  {
    ring[..k] + chain + ring[k..]
  }

  ghost predicate Distinct(nodes: seq<ListNode>) {
    forall i, j | 0 <= i < j < |nodes| :: nodes[i] != nodes[j]
  }

  /** A chain whose ends are linked to two neighbours of a ring makes a longer ring. */
  lemma InsertedIsRing(ring: seq<ListNode>, k: nat, chain: seq<ListNode>)
    requires 0 < k <= |ring| && |chain| > 0
    requires Distinct(ring) && Distinct(chain) && forall x | x in chain :: x !in ring
    requires forall j {:trigger chain[j].next} | 0 <= j < |chain| ::
        chain[j].next == if j == |chain| - 1 then After(ring, k - 1) else chain[j + 1]
    requires forall j {:trigger chain[j].prev} | 0 <= j < |chain| ::
        chain[j].prev == if j == 0 then ring[k - 1] else chain[j - 1]
    requires forall j {:trigger ring[j].next} | 0 <= j < |ring| ::
        ring[j].next == if j == k - 1 then chain[0] else After(ring, j)
    requires forall j {:trigger ring[j].prev} | 0 <= j < |ring| ::
        ring[j].prev == if j == (if k < |ring| then k else 0) then chain[|chain| - 1] else Before(ring, j)
    ensures IsRing(Inserted(ring, k, chain))
  {
    InsertedDistinct(ring, k, chain);
    hide Distinct;
    var r, m := Inserted(ring, k, chain), |chain|;
    forall i | 0 <= i < |r|
      ensures r[i].next == After(r, i) && r[i].prev == Before(r, i)
    {
      if k <= i < k + m {
        assert r[i] == chain[i - k];
        assert chain[i - k].next == if i - k == m - 1 then After(ring, k - 1) else chain[i - k + 1];
        assert chain[i - k].prev == if i == k then ring[k - 1] else chain[i - k - 1];
      } else {
        var j := if i < k then i else i - m;
        assert r[i] == ring[j];
        assert ring[j].next == if j == k - 1 then chain[0] else After(ring, j);
        assert ring[j].prev == if j == (if k < |ring| then k else 0) then chain[m - 1] else Before(ring, j);
      }
    }
  }

  lemma InsertedDistinct(ring: seq<ListNode>, k: nat, chain: seq<ListNode>)
    requires 0 < k <= |ring|
    requires Distinct(ring) && Distinct(chain) && forall x | x in chain :: x !in ring
    ensures Distinct(Inserted(ring, k, chain))
  {
    var r, m := Inserted(ring, k, chain), |chain|;
    forall i, j | 0 <= i < j < |r|
      ensures r[i] != r[j]
    {
      var i', j' := if i < k then i else i - m, if j < k then j else j - m;
      assert !(k <= i < k + m) ==> r[i] == ring[i'];
      assert !(k <= j < k + m) ==> r[j] == ring[j'];
      assert k <= i < k + m ==> r[i] == chain[i - k] && r[i] in chain;
      assert k <= j < k + m ==> r[j] == chain[j - k] && r[j] in chain;
    }
  }

  method ListAdd(h: ListNode, n: ListNode, ghost elems: seq<ListNode>)
    requires IsList(h, elems)
    requires n != h && n !in elems
    modifies h, n, h.next
    ensures IsList(h, [n] + elems)
  {
    ghost var ring := [h] + elems;
    assert h == ring[0] && h.next == After(ring, 0);
    n.next := h.next;
    n.prev := h;
    h.next.prev := n;
    h.next := n;
    assert forall j {:trigger ring[j].next} | 0 <= j < |ring| :: old(ring[j].next) == After(ring, j);
    assert forall j {:trigger ring[j].prev} | 0 <= j < |ring| :: old(ring[j].prev) == Before(ring, j);
    InsertedIsRing(ring, 1, [n]);
    assert Inserted(ring, 1, [n]) == [h] + ([n] + elems);
  }

  method ListAddTail(h: ListNode, n: ListNode, ghost elems: seq<ListNode>)
    requires IsList(h, elems)
    requires n != h && n !in elems
    modifies h, n, h.prev
    ensures IsList(h, elems + [n])
  {
    ghost var ring := [h] + elems;
    assert h == ring[0] && h.prev == ring[|ring| - 1];
    n.next := h;
    n.prev := h.prev;
    h.prev.next := n;
    h.prev := n;
    assert forall j {:trigger ring[j].next} | 0 <= j < |ring| :: old(ring[j].next) == After(ring, j);
    assert forall j {:trigger ring[j].prev} | 0 <= j < |ring| :: old(ring[j].prev) == Before(ring, j);
    InsertedIsRing(ring, |ring|, [n]);
    assert Inserted(ring, |ring|, [n]) == [h] + (elems + [n]);
  }

  function Removed(ring: seq<ListNode>, k: nat): seq<ListNode>
    requires k < |ring|
  {
    ring[..k] + ring[k + 1..]
  }

  /** Deletes a node of any ring; the node keeps its own pointers. */
  method ListDel(n: ListNode, ghost ring: seq<ListNode>, ghost k: nat)
    requires IsRing(ring) && |ring| > 1
    requires k < |ring| && ring[k] == n
    modifies n.next, n.prev
    ensures IsRing(Removed(ring, k))
    ensures n.next == old(n.next) && n.prev == old(n.prev)
    ensures forall x | x in ring && x != old(n.prev) :: x.next == old(x.next)
    ensures forall x | x in ring && x != old(n.next) :: x.prev == old(x.prev)
  {
    assert n.next == After(ring, k) && n.prev == Before(ring, k);
    n.next.prev := n.prev;
    n.prev.next := n.next;
    ghost var r := Removed(ring, k);
    forall i | 0 <= i < |r|
      ensures r[i].next == After(r, i) && r[i].prev == Before(r, i)
    {
      ghost var j := if i < k then i else i + 1;
      assert r[i] == ring[j];
      assert old(ring[j].next) == After(ring, j) && old(ring[j].prev) == Before(ring, j);
    }
  }

  // ---------- Moving whole lists ----------

  lemma Apart(s: seq<ListNode>, t: seq<ListNode>)
    requires forall x | x in s :: x !in t
    ensures forall i, j | 0 <= i < |s| && 0 <= j < |t| :: s[i] != t[j]
  {
    forall i, j | 0 <= i < |s| && 0 <= j < |t| ensures s[i] != t[j] { assert s[i] in s && t[j] in t; }
  }

  lemma JoinedBehind(to: ListNode, a: seq<ListNode>, from: ListNode, b: seq<ListNode>)
    ensures var joined := Inserted([to] + a, |a| + 1, [from] + b);
      |joined| > |a| + 1 && joined[|a| + 1] == from && Removed(joined, |a| + 1) == [to] + (a + b)
  {}

  lemma JoinedInFront(to: ListNode, a: seq<ListNode>, from: ListNode, b: seq<ListNode>)
    ensures var joined := Inserted([to] + a, 1, [from] + b);
      |joined| > 1 && joined[1] == from && Removed(joined, 1) == [to] + (b + a)
  {}

  lemma RemovedLacks(ring: seq<ListNode>, k: nat)
    requires k < |ring| && IsRing(ring)
    ensures ring[k] !in Removed(ring, k)
  {
    var r := Removed(ring, k);
    forall i | 0 <= i < |r| ensures r[i] != ring[k] { assert r[i] == ring[if i < k then i else i + 1]; }
  }

  /** Links the whole ring at `from` in before `to`. */
  method SewBehind(to: ListNode, from: ListNode, ghost s: seq<ListNode>, ghost t: seq<ListNode>)
    requires IsRing(s) && IsRing(t) && s[0] == to && t[0] == from
    requires forall x | x in s :: x !in t
    modifies to, from, to.prev, from.prev
    ensures IsRing(Inserted(s, |s|, t))
  {
    assert to.prev == s[|s| - 1] && from.prev == t[|t| - 1];
    var fromTail := from.prev;
    var toTail := to.prev;
    to.prev := fromTail;
    fromTail.next := to;
    toTail.next := from;
    from.prev := toTail;
    assert forall j {:trigger s[j].next} | 0 <= j < |s| :: old(s[j].next) == After(s, j);
    assert forall j {:trigger s[j].prev} | 0 <= j < |s| :: old(s[j].prev) == Before(s, j);
    assert forall j {:trigger t[j].next} | 0 <= j < |t| :: old(t[j].next) == After(t, j);
    assert forall j {:trigger t[j].prev} | 0 <= j < |t| :: old(t[j].prev) == Before(t, j);
    Apart(s, t);
    InsertedIsRing(s, |s|, t);
  }

  /** Links the whole ring at `from` in after `to`. */
  method SewInFront(to: ListNode, from: ListNode, ghost s: seq<ListNode>, ghost t: seq<ListNode>)
    requires IsRing(s) && IsRing(t) && s[0] == to && t[0] == from
    requires forall x | x in s :: x !in t
    modifies to, from, to.next, from.prev
    ensures IsRing(Inserted(s, 1, t))
  {
    assert to.next == After(s, 0) && from.prev == t[|t| - 1];
    var fromTail := from.prev;
    var toHead := to.next;
    to.next := from;
    from.prev := to;
    toHead.prev := fromTail;
    fromTail.next := toHead;
    assert forall j {:trigger s[j].next} | 0 <= j < |s| :: old(s[j].next) == After(s, j);
    assert forall j {:trigger s[j].prev} | 0 <= j < |s| :: old(s[j].prev) == Before(s, j);
    assert forall j {:trigger t[j].next} | 0 <= j < |t| :: old(t[j].next) == After(t, j);
    assert forall j {:trigger t[j].prev} | 0 <= j < |t| :: old(t[j].prev) == Before(t, j);
    Apart(s, t);
    InsertedIsRing(s, 1, t);
  }

  method ListAppendList(to: ListNode, from: ListNode, ghost a: seq<ListNode>, ghost b: seq<ListNode>)
    requires IsList(to, a) && IsList(from, b)
    requires forall x | x in [to] + a :: x !in [from] + b
    modifies to, from, to.prev, from.prev, from.next
    ensures IsList(to, a + b) && IsList(from, [])
  {
    assert ([from] + b)[0].next == After([from] + b, 0);
    ghost var joined := Inserted([to] + a, |a| + 1, [from] + b);
    SewBehind(to, from, [to] + a, [from] + b);
    JoinedBehind(to, a, from, b);
    RemovedLacks(joined, |a| + 1);
    ListDel(from, joined, |a| + 1);
    ListHeadInit(from);
  }

  method ListPrependList(to: ListNode, from: ListNode, ghost a: seq<ListNode>, ghost b: seq<ListNode>)
    requires IsList(to, a) && IsList(from, b)
    requires forall x | x in [to] + a :: x !in [from] + b
    modifies to, from, to.next, from.prev, from.next
    ensures IsList(to, b + a) && IsList(from, [])
  {
    assert ([from] + b)[0].next == After([from] + b, 0);
    ghost var joined := Inserted([to] + a, 1, [from] + b);
    SewInFront(to, from, [to] + a, [from] + b);
    JoinedInFront(to, a, from, b);
    RemovedLacks(joined, 1);
    ListDel(from, joined, 1);
    ListHeadInit(from);
  }

  // ---------- Iterating while deleting ----------

  /** `list_for_each_safe` with a body that deletes the current entry: every entry is visited
      once, in list order, although each leaves the ring while the loop stands on it. */
  method DrainList(h: ListNode, ghost elems: seq<ListNode>) returns (visited: seq<ListNode>)
    requires IsList(h, elems)
    modifies {h} + set n | n in elems
    ensures IsList(h, [])
    ensures visited == elems
  {
    visited := [];
    ghost var count := 0;
    assert elems[0..] == elems;
    assert ([h] + elems)[0] == h && h.next == After([h] + elems, 0);
    forall j | 0 <= j < |elems| ensures elems[j] != h { assert ([h] + elems)[j + 1] == elems[j]; }
    var i := h.next;
    while i != h
      invariant count <= |elems| && visited == elems[..count]
      invariant IsList(h, elems[count..])
      invariant i == After([h] + elems[count..], 0)
      decreases |elems| - count
    {
      ghost var ring := [h] + elems[count..];
      assert ring[1] == i && i.next == After(ring, 1);
      var nxt := i.next;
      ListDel(i, ring, 1);
      visited := visited + [i];
      count := count + 1;
      assert Removed(ring, 1) == [h] + elems[count..];
      i := nxt;
    }
    assert count == |elems|;
  }
}
