/**
  The node arena and one view ("sublist") of the collection: a head/tail pair
  into the arena and the view's own links on each node.
 */
module Sublists {
  import opened Wrappers
  import opened Nodes

  /** The shared storage: every node created by the collection, by handle. */
  class Arena<T> {
    var nodes: seq<Node<T>>

    constructor ()
      ensures nodes == []
    {
      nodes := [];
    }

    /** `new Node(item)`: the new node gets the next free handle. */
    method Allocate(item: T) returns (h: nat)
      modifies this
      ensures h == |old(nodes)| && nodes == old(nodes) + [NewNode(item)]
    {
      h := |nodes|;
      nodes := nodes + [NewNode(item)];
    }

    /** `node.nextPointers.set(view, p)` on the node with handle `h`. */
    method SetNext(h: nat, v: nat, p: Option<nat>)
      requires h < |nodes|
      modifies this
      ensures nodes == old(nodes)[h := old(nodes)[h].SetNext(v, p)]
    {
      nodes := nodes[h := nodes[h].SetNext(v, p)];
    }

    /** `node.prevPointers.set(view, p)` on the node with handle `h`. */
    method SetPrev(h: nat, v: nat, p: Option<nat>)
      requires h < |nodes|
      modifies this
      ensures nodes == old(nodes)[h := old(nodes)[h].SetPrev(v, p)]
    {
      nodes := nodes[h := nodes[h].SetPrev(v, p)];
    }
  }

  /**
    A view of the collection.  `Contents` is its traversal from head to tail;
    `changes` counts the change reports an observable view makes (one per
    `add` and per `remove`, whether or not the node was a member).
   */
  class Sublist<T> {
    const id: nat
    const pred: T -> bool
    var firstNode: Option<nat>
    var lastNode: Option<nat>
    ghost var Contents: seq<nat>
    ghost var changes: nat

    ghost predicate Valid(arena: Arena<T>)
      reads this, arena
    {
      Linked(arena.nodes, id, firstNode, lastNode, Contents)
    }

    constructor (id: nat, pred: T -> bool)
      ensures this.id == id && this.pred == pred
      ensures firstNode == None && lastNode == None && Contents == [] && changes == 0
    {
      this.id := id;
      this.pred := pred;
      firstNode, lastNode := None, None;
      Contents, changes := [], 0;
    }

    /** The head of the view, None when the view is empty. */
    function First(arena: Arena<T>): (r: Option<nat>)
      reads this, arena
      requires Valid(arena)
      ensures r.None? <==> Contents == []
      ensures r.Some? ==> r.value == Contents[0]
    {
      firstNode
    }

    /** The tail of the view, None when the view is empty. */
    function Last(arena: Arena<T>): (r: Option<nat>)
      reads this, arena
      requires Valid(arena)
      ensures r.None? <==> Contents == []
      ensures r.Some? ==> r.value == Contents[|Contents| - 1]
    {
      lastNode
    }

    /** Append `newNode`, a node this view has never linked, at the tail. */
    method Add(arena: Arena<T>, newNode: nat)
      requires Valid(arena)
      requires newNode < |arena.nodes| && newNode !in Contents
      requires arena.nodes[newNode].PrevOf(id) == None && arena.nodes[newNode].NextOf(id) == None
      modifies this, arena
      ensures Valid(arena)
      ensures Contents == old(Contents) + [newNode]
      ensures lastNode == Some(newNode)
      ensures firstNode == if old(firstNode).None? then Some(newNode) else old(firstNode)
      ensures old(lastNode).Some? ==> arena.nodes[newNode].PrevOf(id) == old(lastNode)
      ensures arena.nodes == if old(lastNode).None? then old(arena.nodes) else
        old(arena.nodes)[old(lastNode).value := old(arena.nodes)[old(lastNode).value].SetNext(id, Some(newNode))]
                        [newNode := old(arena.nodes)[newNode].SetPrev(id, old(lastNode))]
      ensures OnlyViewChanged(old(arena.nodes), arena.nodes, id, Contents)
      ensures changes == old(changes) + 1
    {
      changes := changes + 1;
      if firstNode.None? {
        firstNode := Some(newNode);
        lastNode := Some(newNode);
      } else if firstNode == lastNode {
        arena.SetNext(firstNode.value, id, Some(newNode));
        arena.SetPrev(newNode, id, firstNode);
        lastNode := Some(newNode);
      } else if lastNode.Some? {
        arena.SetNext(lastNode.value, id, Some(newNode));
        arena.SetPrev(newNode, id, lastNode);
        lastNode := Some(newNode);
      }
      if old(Contents) != [] {
        AddLinks(old(arena.nodes), arena.nodes, id, Contents, newNode);
      }
      Contents := Contents + [newNode];
    }

    /**
      Splice `removedNode` out of this view.  A node this view never linked
      (no links here) is left alone: it is neither head nor tail.  The removed
      node keeps its own, now stale, links.
     */
    method Remove(arena: Arena<T>, removedNode: nat)
      requires Valid(arena) && removedNode < |arena.nodes|
      requires removedNode !in Contents ==>
        arena.nodes[removedNode].PrevOf(id) == None && arena.nodes[removedNode].NextOf(id) == None
      modifies this, arena
      ensures Valid(arena)
      ensures Contents == Without(old(Contents), removedNode)
      ensures old(firstNode) != Some(removedNode) ==> firstNode == old(firstNode)
      ensures old(lastNode) != Some(removedNode) ==> lastNode == old(lastNode)
      ensures arena.nodes == Splice(old(arena.nodes), id, old(arena.nodes[removedNode].PrevOf(id)), old(arena.nodes[removedNode].NextOf(id)))
      ensures removedNode !in old(Contents) ==> arena.nodes == old(arena.nodes)
      ensures OnlyViewChanged(old(arena.nodes), arena.nodes, id, Contents)
      ensures changes == old(changes) + 1
    {
      changes := changes + 1;
      var next := arena.nodes[removedNode].NextOf(id);
      var prev := arena.nodes[removedNode].PrevOf(id);
      ghost var s := Contents;
      RemoveLinks(arena.nodes, id, s, removedNode);
      if firstNode == Some(removedNode) {
        firstNode := next;
      }
      if lastNode == Some(removedNode) {
        lastNode := prev;
      }
      if prev.Some? {
        arena.SetNext(prev.value, id, next);
      }
      if next.Some? {
        arena.SetPrev(next.value, id, prev);
      }
      Contents := Without(s, removedNode);
    }

    /** `nodes()`: walk this view's own links from the head, collecting the nodes. */
    method Nodes(arena: Arena<T>) returns (r: seq<nat>)
      requires Valid(arena)
      ensures r == Contents
    {
      r := [];
      var current := firstNode;
      while current.Some?
        invariant |r| <= |Contents| && r == Contents[..|r|]
        invariant current == if |r| < |Contents| then Some(Contents[|r|]) else None
        decreases |Contents| - |r|
      {
        assert arena.nodes[Contents[|r|]].NextOf(id) == NextIn(Contents, |r|);
        r := r + [current.value];
        current := arena.nodes[current.value].NextOf(id);
      }
      assert r == Contents[..|Contents|];
    }

    /**
      `mapNodes(f)`: `f` applied to each node of the view, head to tail.  A
      node is passed as its handle; a callback that reads the node's record
      closes over the arena, as in `h => g(arena.nodes[h].item)`.
     */
    method MapNodes<R>(arena: Arena<T>, f: nat -> R) returns (r: seq<R>)
      requires Valid(arena)
      ensures |r| == |Contents|
      ensures forall k :: 0 <= k < |r| ==> r[k] == f(Contents[k])
    {
      var ns := Nodes(arena);
      r := [];
      for i := 0 to |ns|
        invariant |r| == i
        invariant forall k :: 0 <= k < i ==> r[k] == f(ns[k])
      {
        r := r + [f(ns[i])];
      }
    }

    /** `map(f)`: `f` applied to each record of the view, head to tail. */
    method Map<R>(arena: Arena<T>, f: T -> R) returns (r: seq<R>)
      requires Valid(arena)
      ensures |r| == |Contents|
      ensures forall k :: 0 <= k < |r| ==> r[k] == f(Items(arena.nodes, Contents)[k])
    {
      var ns := Nodes(arena);
      r := [];
      for i := 0 to |ns|
        invariant |r| == i
        invariant forall k :: 0 <= k < i ==> r[k] == f(arena.nodes[ns[k]].item)
      {
        r := r + [f(arena.nodes[ns[i]].item)];
      }
    }

    /** `content()`: the records of the view, head to tail. */
    method Content(arena: Arena<T>) returns (r: seq<T>)
      requires Valid(arena)
      ensures r == Items(arena.nodes, Contents)
    {
      var ns := Nodes(arena);
      r := [];
      for i := 0 to |ns|
        invariant |r| == i
        invariant forall k :: 0 <= k < i ==> r[k] == arena.nodes[ns[k]].item
      {
        r := r + [arena.nodes[ns[i]].item];
      }
    }
  }

  /**
    The arena update done by `add` on a non-empty view (old tail's next link :=
    the new node, new node's previous link := old tail) links the extended
    traversal and touches no other view.
   */
  lemma AddLinks<T>(a: seq<Node<T>>, b: seq<Node<T>>, v: nat, s: seq<nat>, n: nat)
    requires Linked(a, v, HeadOf(s), TailOf(s), s)
    requires s != [] && n < |a| && n !in s && a[n].PrevOf(v) == None && a[n].NextOf(v) == None
    requires b == a[s[|s| - 1] := a[s[|s| - 1]].SetNext(v, Some(n))][n := a[n].SetPrev(v, Some(s[|s| - 1]))]
    ensures Linked(b, v, Some(s[0]), Some(n), s + [n])
    ensures OnlyViewChanged(a, b, v, s + [n])
  {
    var l := s[|s| - 1];
    var t := s + [n];
    assert a[l].NextOf(v) == NextIn(s, |s| - 1);
    assert l != n;
    AddFrame(a, b, v, l, n);
    DistinctAppend(s, n);
    forall j | 0 <= j < |t|
      ensures b[t[j]].PrevOf(v) == (if j == 0 then None else Some(t[j - 1]))
      ensures b[t[j]].NextOf(v) == (if j == |t| - 1 then None else Some(t[j + 1]))
    {
      if j == |s| {
        assert t[j] == n && t[j - 1] == l;
      } else {
        assert t[j] == s[j] && t[j] != n;
        assert a[s[j]].PrevOf(v) == PrevIn(s, j) && a[s[j]].NextOf(v) == NextIn(s, j);
      }
    }
  }

  /**
    The arena update done by `remove` once it has read the removed node's
    neighbours in view `v`: the predecessor's next link becomes `next`, then
    the successor's previous link becomes `prev`.
   */
  ghost function Splice<T>(a: seq<Node<T>>, v: nat, prev: Option<nat>, next: Option<nat>): seq<Node<T>>
    requires prev.Some? ==> prev.value < |a|
    requires next.Some? ==> next.value < |a|
  {
    var b := if prev.Some? then a[prev.value := a[prev.value].SetNext(v, next)] else a;
    if next.Some? then b[next.value := b[next.value].SetPrev(v, prev)] else b
  }

  /** The two link writes of an append, node by node. */
  lemma AddFrame<T>(a: seq<Node<T>>, b: seq<Node<T>>, v: nat, l: nat, n: nat)
    requires l < |a| && n < |a| && l != n
    requires b == a[l := a[l].SetNext(v, Some(n))][n := a[n].SetPrev(v, Some(l))]
    ensures |b| == |a|
    ensures forall h :: 0 <= h < |a| ==> b[h].item == a[h].item
    ensures forall h, w :: 0 <= h < |a| && w != v ==> b[h].PrevOf(w) == a[h].PrevOf(w) && b[h].NextOf(w) == a[h].NextOf(w)
    ensures forall h :: 0 <= h < |a| ==> b[h].NextOf(v) == if h == l then Some(n) else a[h].NextOf(v)
    ensures forall h :: 0 <= h < |a| ==> b[h].PrevOf(v) == if h == n then Some(l) else a[h].PrevOf(v)
  {
  }

  /** Appending a node that is not in a list without repetitions keeps it without repetitions. */
  lemma DistinctAppend(s: seq<nat>, n: nat)
    requires Distinct(s) && n !in s
    ensures Distinct(s + [n])
  {
    var t := s + [n];
    forall i, j | 0 <= i < j < |t| ensures t[i] != t[j] {
      if j == |s| {
        assert t[i] in s;
      } else {
        assert t[i] == s[i] && t[j] == s[j];
      }
    }
  }

  /**
    What `remove` does to the arena, as written: it reads the node's own links
    in view `v` and splices along them, whether or not they are stale.
   */
  ghost function RemoveAlong<T>(a: seq<Node<T>>, v: nat, n: nat): seq<Node<T>>
    requires n < |a|
    requires a[n].PrevOf(v).Some? ==> a[n].PrevOf(v).value < |a|
    requires a[n].NextOf(v).Some? ==> a[n].NextOf(v).value < |a|
  {
    Splice(a, v, a[n].PrevOf(v), a[n].NextOf(v))
  }

  /**
    Removing a node twice.  With A B C D (handles 0 to 3) linked in view 0,
    removing B and then C leaves A D correctly linked; removing B again
    follows B's stale links, which still name A and C, so A's next link is C
    again: walking from the head visits A C D, although C was removed, and
    D's previous link is A.
   */
  lemma StaleRemove()
    ensures
      var a0 := [Node(10, map[0 := None], map[0 := Some(1)]), Node(11, map[0 := Some(0)], map[0 := Some(2)]),
                 Node(12, map[0 := Some(1)], map[0 := Some(3)]), Node(13, map[0 := Some(2)], map[0 := None])];
      var a1 := RemoveAlong(a0, 0, 1);
      var a2 := RemoveAlong(a1, 0, 2);
      var a3 := RemoveAlong(a2, 0, 1);
      && Linked(a0, 0, Some(0), Some(3), [0, 1, 2, 3])
      && Linked(a2, 0, Some(0), Some(3), [0, 3])
      && a3[0].NextOf(0) == Some(2) && a3[2].NextOf(0) == Some(3)
      && a3[3].PrevOf(0) == Some(0)
  {
  }

  lemma SpliceAt<T>(a: seq<Node<T>>, v: nat, prev: Option<nat>, next: Option<nat>, h: nat)
    requires prev.Some? ==> prev.value < |a|
    requires next.Some? ==> next.value < |a|
    requires h < |a|
    ensures |Splice(a, v, prev, next)| == |a|
    ensures Splice(a, v, prev, next)[h].item == a[h].item
    ensures forall w :: w != v ==>
      Splice(a, v, prev, next)[h].PrevOf(w) == a[h].PrevOf(w) && Splice(a, v, prev, next)[h].NextOf(w) == a[h].NextOf(w)
    ensures Splice(a, v, prev, next)[h].NextOf(v) == if prev.Some? && h == prev.value then next else a[h].NextOf(v)
    ensures Splice(a, v, prev, next)[h].PrevOf(v) == if next.Some? && h == next.value then prev else a[h].PrevOf(v)
  {
  }

  /**
    Splicing out `n` links the traversal without `n`, moves head and tail only
    off `n`, and touches no other view; on a node with no links in the view it
    changes nothing.
   */
  lemma RemoveLinks<T>(a: seq<Node<T>>, v: nat, s: seq<nat>, n: nat)
    requires Linked(a, v, HeadOf(s), TailOf(s), s) && n < |a|
    requires n !in s ==> a[n].PrevOf(v) == None && a[n].NextOf(v) == None
    ensures a[n].PrevOf(v).Some? ==> a[n].PrevOf(v).value < |a|
    ensures a[n].NextOf(v).Some? ==> a[n].NextOf(v).value < |a|
    ensures
      var b := Splice(a, v, a[n].PrevOf(v), a[n].NextOf(v));
      var t := Without(s, n);
      && Linked(b, v, HeadOf(t), TailOf(t), t)
      && HeadOf(t) == (if HeadOf(s) == Some(n) then a[n].NextOf(v) else HeadOf(s))
      && TailOf(t) == (if TailOf(s) == Some(n) then a[n].PrevOf(v) else TailOf(s))
      && OnlyViewChanged(a, b, v, t)
      && (n !in s ==> b == a)
  {
    if k :| 0 <= k < |s| && s[k] == n {
      WithoutAt(s, k);
      RemoveAt(a, v, s, k);
    } else {
      WithoutAbsent(s, n);
    }
  }

  lemma RemoveAt<T>(a: seq<Node<T>>, v: nat, s: seq<nat>, k: nat)
    requires Linked(a, v, HeadOf(s), TailOf(s), s)
    requires k < |s|
    ensures a[s[k]].PrevOf(v) == PrevIn(s, k) && a[s[k]].NextOf(v) == NextIn(s, k)
    ensures
      var b := Splice(a, v, PrevIn(s, k), NextIn(s, k));
      var t := s[..k] + s[k + 1..];
      && Linked(b, v, HeadOf(t), TailOf(t), t)
      && HeadOf(t) == (if k == 0 then NextIn(s, k) else HeadOf(s))
      && TailOf(t) == (if k == |s| - 1 then PrevIn(s, k) else TailOf(s))
      && OnlyViewChanged(a, b, v, t)
  {
    assert a[s[k]].PrevOf(v) == PrevIn(s, k) && a[s[k]].NextOf(v) == NextIn(s, k);
    RemoveAtLinks(a, v, s, k);
    RemoveAtFrame(a, v, s, k);
    RemoveAtEnds(s, k);
  }

  lemma RemoveAtEnds(s: seq<nat>, k: nat)
    requires k < |s|
    ensures HeadOf(s[..k] + s[k + 1..]) == (if k == 0 then NextIn(s, k) else HeadOf(s))
    ensures TailOf(s[..k] + s[k + 1..]) == (if k == |s| - 1 then PrevIn(s, k) else TailOf(s))
  {
    var t := s[..k] + s[k + 1..];
    if t != [] {
      assert t[0] == (if k == 0 then s[1] else s[0]);
      assert t[|t| - 1] == (if k == |s| - 1 then s[|s| - 2] else s[|s| - 1]);
    }
  }

  lemma RemoveAtLinks<T>(a: seq<Node<T>>, v: nat, s: seq<nat>, k: nat)
    requires Linked(a, v, HeadOf(s), TailOf(s), s)
    requires k < |s|
    ensures
      var b := Splice(a, v, PrevIn(s, k), NextIn(s, k));
      var t := s[..k] + s[k + 1..];
      Linked(b, v, HeadOf(t), TailOf(t), t)
  {
    var b := Splice(a, v, PrevIn(s, k), NextIn(s, k));
    var t := s[..k] + s[k + 1..];
    DistinctSplice(s, k);
    forall j | 0 <= j < |t| ensures t[j] < |b| {
      SpliceAt(a, v, PrevIn(s, k), NextIn(s, k), t[j]);
    }
    forall j | 0 <= j < |t|
      ensures b[t[j]].PrevOf(v) == PrevIn(t, j) && b[t[j]].NextOf(v) == NextIn(t, j)
    {
      RemoveAtIndex(a, v, s, k, j);
    }
  }

  lemma RemoveAtFrame<T>(a: seq<Node<T>>, v: nat, s: seq<nat>, k: nat)
    requires Linked(a, v, HeadOf(s), TailOf(s), s)
    requires k < |s|
    ensures OnlyViewChanged(a, Splice(a, v, PrevIn(s, k), NextIn(s, k)), v, s[..k] + s[k + 1..])
  {
    var prev, next := PrevIn(s, k), NextIn(s, k);
    var b := Splice(a, v, prev, next);
    var t := s[..k] + s[k + 1..];
    forall h | 0 <= h < |a|
      ensures |b| == |a| && b[h].item == a[h].item
      ensures forall w :: w != v ==> b[h].PrevOf(w) == a[h].PrevOf(w) && b[h].NextOf(w) == a[h].NextOf(w)
      ensures h !in t ==> a[h].PrevOf(v) == b[h].PrevOf(v) && a[h].NextOf(v) == b[h].NextOf(v)
    {
      SpliceAt(a, v, prev, next, h);
      if h !in t {
        assert prev.Some? ==> prev.value == t[k - 1];
        assert next.Some? ==> next.value == t[k];
      }
    }
  }

  lemma DistinctSplice(s: seq<nat>, k: nat)
    requires Distinct(s) && k < |s|
    ensures Distinct(s[..k] + s[k + 1..])
  {
    var t := s[..k] + s[k + 1..];
    forall i, j | 0 <= i < j < |t| ensures t[i] != t[j] {
      var i' := if i < k then i else i + 1;
      var j' := if j < k then j else j + 1;
      assert t[i] == s[i'] && t[j] == s[j'];
    }
  }

  lemma RemoveAtIndex<T>(a: seq<Node<T>>, v: nat, s: seq<nat>, k: nat, j: nat)
    requires Linked(a, v, HeadOf(s), TailOf(s), s)
    requires k < |s| && j < |s| - 1
    ensures
      var b := Splice(a, v, PrevIn(s, k), NextIn(s, k));
      var t := s[..k] + s[k + 1..];
      b[t[j]].PrevOf(v) == PrevIn(t, j) && b[t[j]].NextOf(v) == NextIn(t, j)
  {
    var prev, next := PrevIn(s, k), NextIn(s, k);
    var t := s[..k] + s[k + 1..];
    var j' := if j < k then j else j + 1;
    assert t[j] == s[j'];
    assert j > 0 ==> t[j - 1] == (if j - 1 < k then s[j - 1] else s[j]);
    assert j < |t| - 1 ==> t[j + 1] == (if j + 1 < k then s[j + 1] else s[j + 2]);
    SpliceAt(a, v, prev, next, t[j]);
    assert a[s[j']].PrevOf(v) == PrevIn(s, j') && a[s[j']].NextOf(v) == NextIn(s, j');
    assert prev.Some? && t[j] == prev.value <==> j == k - 1;
    assert next.Some? && t[j] == next.value <==> j == k;
  }
}
