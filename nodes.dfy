/** The optional value the source writes as `T | undefined`. */
module Wrappers {
  datatype Option<T> = None | Some(value: T)
}

/**
  Nodes of the shared arena and the value-level facts about view traversals.

  A node is identified by its index in the arena (a handle); a view ("sublist")
  is identified by its index, 0 being the main list.  Each node keeps, per view,
  the handle of its previous and next node in that view.
 */
module Nodes {
  import opened Wrappers

  /** One stored record with its per-view links (`prevPointers`/`nextPointers`). */
  datatype Node<T> = Node(item: T, prevPointers: map<nat, Option<nat>>, nextPointers: map<nat, Option<nat>>)
  {
    /** The next node in view `v`, or None when unset or at the tail. */
    function NextOf(v: nat): (r: Option<nat>)
      ensures v !in nextPointers ==> r == None
      ensures v in nextPointers ==> r == nextPointers[v]
    {
      if v in nextPointers then nextPointers[v] else None
    }

    /** The previous node in view `v`, or None when unset or at the head. */
    function PrevOf(v: nat): (r: Option<nat>)
      ensures v !in prevPointers ==> r == None
      ensures v in prevPointers ==> r == prevPointers[v]
    {
      if v in prevPointers then prevPointers[v] else None
    }

    /** `nextPointers.set(v, p)`: only the next link of view `v` changes. */
    function SetNext(v: nat, p: Option<nat>): (r: Node<T>)
      ensures r.item == item && r.NextOf(v) == p
      ensures forall w :: w != v ==> r.NextOf(w) == NextOf(w)
      ensures forall w :: r.PrevOf(w) == PrevOf(w)
    {
      this.(nextPointers := nextPointers[v := p])
    }

    /** `prevPointers.set(v, p)`: only the previous link of view `v` changes. */
    function SetPrev(v: nat, p: Option<nat>): (r: Node<T>)
      ensures r.item == item && r.PrevOf(v) == p
      ensures forall w :: w != v ==> r.PrevOf(w) == PrevOf(w)
      ensures forall w :: r.NextOf(w) == NextOf(w)
    {
      this.(prevPointers := prevPointers[v := p])
    }
  }

  /** `new Node(item)`: a node that belongs to no view yet. */
  function NewNode<T>(item: T): (r: Node<T>)
    ensures r.item == item
    ensures forall v :: r.PrevOf(v) == None && r.NextOf(v) == None
  {
    Node(item, map[], map[])
  }

  ghost predicate InArena<T>(nodes: seq<Node<T>>, s: seq<nat>) {
    forall k :: 0 <= k < |s| ==> s[k] < |nodes|
  }

  ghost predicate Distinct(s: seq<nat>) {
    forall j, k :: 0 <= j < k < |s| ==> s[j] != s[k]
  }

  /** Handles are allocated in increasing order, so admission order is handle order. */
  ghost predicate Increasing(s: seq<nat>) {
    forall j, k :: 0 <= j < k < |s| ==> s[j] < s[k]
  }

  /** The first handle of a traversal, None when it is empty. */
  ghost function HeadOf(s: seq<nat>): Option<nat> {
    if s == [] then None else Some(s[0])
  }

  /** The last handle of a traversal, None when it is empty. */
  ghost function TailOf(s: seq<nat>): Option<nat> {
    if s == [] then None else Some(s[|s| - 1])
  }

  /** The predecessor of position `k` in a traversal, None at the head. */
  ghost function PrevIn(s: seq<nat>, k: nat): Option<nat>
    requires k < |s|
  {
    if k == 0 then None else Some(s[k - 1])
  }

  /** The successor of position `k` in a traversal, None at the tail. */
  ghost function NextIn(s: seq<nat>, k: nat): Option<nat>
    requires k < |s|
  {
    if k == |s| - 1 then None else Some(s[k + 1])
  }

  /**
    The links of view `v` spell out the traversal `s`: `first`/`last` are the
    boundary nodes (None when empty), each member's previous link is its
    predecessor in `s` and its next link its successor, None at the ends.
   */
  ghost predicate Linked<T>(nodes: seq<Node<T>>, v: nat, first: Option<nat>, last: Option<nat>, s: seq<nat>) {
    && InArena(nodes, s)
    && Distinct(s)
    && first == HeadOf(s)
    && last == TailOf(s)
    && (forall k {:trigger nodes[s[k]]} :: 0 <= k < |s| ==> nodes[s[k]].PrevOf(v) == PrevIn(s, k))
    && (forall k {:trigger nodes[s[k]]} :: 0 <= k < |s| ==> nodes[s[k]].NextOf(v) == NextIn(s, k))
  }

  /** Every live node that is not a member of view `v` has no links in `v`. */
  ghost predicate Isolated<T>(nodes: seq<Node<T>>, v: nat, live: seq<nat>, s: seq<nat>) {
    forall h :: h in live && h !in s ==>
      h < |nodes| && nodes[h].PrevOf(v) == None && nodes[h].NextOf(v) == None
  }

  /** No node has links in a view numbered `count` or above (views not created yet). */
  ghost predicate FreshViews<T>(nodes: seq<Node<T>>, count: nat) {
    forall h, v :: 0 <= h < |nodes| && count <= v ==> nodes[h].PrevOf(v) == None && nodes[h].NextOf(v) == None
  }

  /** The records of `b` extend those of `a`. */
  ghost predicate SameItems<T>(a: seq<Node<T>>, b: seq<Node<T>>) {
    |a| <= |b| && forall h :: 0 <= h < |a| ==> a[h].item == b[h].item
  }

  /**
    `b` differs from `a` at most in the links of view `v`, and there only on
    nodes that are members of `s`: no other view, and no record, changes.
   */
  ghost predicate OnlyViewChanged<T>(a: seq<Node<T>>, b: seq<Node<T>>, v: nat, s: seq<nat>) {
    && |a| == |b|
    && SameItems(a, b)
    && (forall h, w :: 0 <= h < |a| && w != v ==> a[h].PrevOf(w) == b[h].PrevOf(w) && a[h].NextOf(w) == b[h].NextOf(w))
    && (forall h :: 0 <= h < |a| && h !in s ==> a[h].PrevOf(v) == b[h].PrevOf(v) && a[h].NextOf(v) == b[h].NextOf(v))
  }

  /** `b` keeps every record of `a` and, on `a`'s nodes, every link of view `w`. */
  ghost predicate Agree<T>(a: seq<Node<T>>, b: seq<Node<T>>, w: nat) {
    && SameItems(a, b)
    && forall h :: 0 <= h < |a| ==> a[h].PrevOf(w) == b[h].PrevOf(w) && a[h].NextOf(w) == b[h].NextOf(w)
  }

  /** The records of the nodes of `s`, in order. */
  ghost function Items<T>(nodes: seq<Node<T>>, s: seq<nat>): (r: seq<T>)
    requires InArena(nodes, s)
    ensures |r| == |s|
  {
    seq(|s|, k requires 0 <= k < |s| => nodes[s[k]].item)
  }

  /** The nodes of `s` whose record satisfies `p`, in the order of `s`. */
  ghost function Filter<T>(s: seq<nat>, nodes: seq<Node<T>>, p: T -> bool): seq<nat>
    requires InArena(nodes, s)
  {
    if s == [] then []
    else (if p(nodes[s[0]].item) then [s[0]] else []) + Filter(s[1..], nodes, p)
  }

  /** `s` with the node `n` spliced out. */
  ghost function Without(s: seq<nat>, n: nat): seq<nat> {
    if s == [] then []
    else (if s[0] == n then [] else [s[0]]) + Without(s[1..], n)
  }

  /** The records of `xs` that satisfy `p`, in order: the filter of the records themselves. */
  function Select<T>(xs: seq<T>, p: T -> bool): seq<T> {
    if xs == [] then []
    else (if p(xs[0]) then [xs[0]] else []) + Select(xs[1..], p)
  }

  // ---------------------------------------------------------------------------
  // Filter

  /** Filtering the nodes and then reading their records is filtering the records. */
  lemma {:induction false} ItemsFilter<T>(s: seq<nat>, nodes: seq<Node<T>>, p: T -> bool)
    requires InArena(nodes, s)
    ensures InArena(nodes, Filter(s, nodes, p))
    ensures Items(nodes, Filter(s, nodes, p)) == Select(Items(nodes, s), p)
  {
    FilterInArena(s, nodes, p);
    if s != [] {
      ItemsFilter(s[1..], nodes, p);
      assert Items(nodes, s)[1..] == Items(nodes, s[1..]);
      var head := if p(nodes[s[0]].item) then [s[0]] else [];
      assert Items(nodes, head + Filter(s[1..], nodes, p)) == Items(nodes, head) + Items(nodes, Filter(s[1..], nodes, p));
    }
  }

  lemma {:induction false} FilterMembers<T>(s: seq<nat>, nodes: seq<Node<T>>, p: T -> bool, h: nat)
    requires InArena(nodes, s)
    ensures h in Filter(s, nodes, p) <==> h in s && h < |nodes| && p(nodes[h].item)
  {
    if s != [] {
      FilterMembers(s[1..], nodes, p, h);
      assert s == [s[0]] + s[1..];
    }
  }

  lemma {:induction false} FilterInArena<T>(s: seq<nat>, nodes: seq<Node<T>>, p: T -> bool)
    requires InArena(nodes, s)
    ensures InArena(nodes, Filter(s, nodes, p))
    ensures |Filter(s, nodes, p)| <= |s|
  {
    if s != [] {
      FilterInArena(s[1..], nodes, p);
    }
  }

  lemma {:induction false} FilterAppend<T>(s: seq<nat>, x: nat, nodes: seq<Node<T>>, p: T -> bool)
    requires InArena(nodes, s) && x < |nodes|
    ensures InArena(nodes, s + [x])
    ensures Filter(s + [x], nodes, p) == Filter(s, nodes, p) + (if p(nodes[x].item) then [x] else [])
  {
    if s == [] {
      assert [] + [x] == [x];
    } else {
      assert (s + [x])[1..] == s[1..] + [x];
      FilterAppend(s[1..], x, nodes, p);
    }
  }

  lemma {:induction false} FilterFrame<T>(s: seq<nat>, a: seq<Node<T>>, b: seq<Node<T>>, p: T -> bool)
    requires InArena(a, s) && SameItems(a, b)
    ensures InArena(b, s)
    ensures Filter(s, a, p) == Filter(s, b, p)
  {
    if s != [] {
      FilterFrame(s[1..], a, b, p);
    }
  }

  lemma {:induction false} FilterIncreasing<T>(s: seq<nat>, nodes: seq<Node<T>>, p: T -> bool)
    requires InArena(nodes, s) && Increasing(s)
    ensures Increasing(Filter(s, nodes, p))
  {
    if s != [] {
      var rest := Filter(s[1..], nodes, p);
      FilterIncreasing(s[1..], nodes, p);
      forall k | 0 <= k < |rest| ensures s[0] < rest[k] {
        FilterMembers(s[1..], nodes, p, rest[k]);
      }
    }
  }

  lemma {:induction false} FilterWithout<T>(s: seq<nat>, nodes: seq<Node<T>>, p: T -> bool, n: nat)
    requires InArena(nodes, s)
    ensures InArena(nodes, Without(s, n))
    ensures Filter(Without(s, n), nodes, p) == Without(Filter(s, nodes, p), n)
  {
    if s != [] {
      var r := s[1..];
      var w := Without(r, n);
      var fr := Filter(r, nodes, p);
      FilterWithout(r, nodes, p, n);
      var f := Filter(s, nodes, p);
      var keep := p(nodes[s[0]].item);
      assert f == (if keep then [s[0]] else []) + fr;
      if s[0] == n {
        assert Without(s, n) == w;
        if keep {
          assert f[0] == n && f[1..] == fr;
          assert Without(f, n) == Without(fr, n);
        } else {
          assert f == fr;
        }
      } else {
        assert Without(s, n) == [s[0]] + w;
        assert ([s[0]] + w)[1..] == w;
        if keep {
          assert f[0] == s[0] && f[1..] == fr;
          assert Without(f, n) == [s[0]] + Without(fr, n);
        } else {
          assert f == fr;
        }
      }
    }
  }

  // ---------------------------------------------------------------------------
  // Without

  lemma {:induction false} WithoutMembers(s: seq<nat>, n: nat, h: nat)
    ensures h in Without(s, n) <==> h in s && h != n
  {
    if s != [] {
      WithoutMembers(s[1..], n, h);
      assert s == [s[0]] + s[1..];
    }
  }

  lemma {:induction false} WithoutAbsent(s: seq<nat>, n: nat)
    requires n !in s
    ensures Without(s, n) == s
  {
    if s != [] {
      WithoutAbsent(s[1..], n);
      assert s == [s[0]] + s[1..];
    }
  }

  /** The tail of a list without repetitions has none, and does not hold the head. */
  lemma DistinctTail(s: seq<nat>)
    requires s != [] && Distinct(s)
    ensures Distinct(s[1..]) && s[0] !in s[1..]
  {
    var r := s[1..];
    forall i, j | 0 <= i < j < |r| ensures r[i] != r[j] {
      assert r[i] == s[i + 1] && r[j] == s[j + 1];
    }
    forall j | 0 <= j < |r| ensures r[j] != s[0] {
      assert r[j] == s[j + 1];
    }
  }

  /** In a list without repetitions, splicing out `s[k]` leaves exactly the others, in order. */
  lemma {:induction false} WithoutAt(s: seq<nat>, k: nat)
    requires k < |s| && Distinct(s)
    ensures Without(s, s[k]) == s[..k] + s[k + 1..]
  {
    var r := s[1..];
    DistinctTail(s);
    if k == 0 {
      WithoutAbsent(r, s[0]);
      assert s[..0] + s[1..] == r;
    } else {
      assert s[0] != s[k];
      assert r[k - 1] == s[k];
      WithoutAt(r, k - 1);
      assert r[..k - 1] == s[1..k];
      assert r[k..] == s[k + 1..];
      assert s[..k] == [s[0]] + s[1..k];
    }
  }

  /** A node allocated after every node of `s` may follow them in admission order. */
  lemma IncreasingAdmit<T>(nodes: seq<Node<T>>, s: seq<nat>)
    requires InArena(nodes, s) && Increasing(s)
    ensures Increasing(s + [|nodes|])
  {
  }

  lemma WithoutIncreasing(s: seq<nat>, n: nat)
    requires Increasing(s)
    ensures Increasing(Without(s, n)) && Distinct(Without(s, n))
  {
    if k :| 0 <= k < |s| && s[k] == n {
      WithoutAt(s, k);
      var t := s[..k] + s[k + 1..];
      forall i, j | 0 <= i < j < |t| ensures t[i] < t[j] {
        var i' := if i < k then i else i + 1;
        var j' := if j < k then j else j + 1;
        assert t[i] == s[i'] && t[j] == s[j'];
      }
    } else {
      WithoutAbsent(s, n);
    }
  }

  // ---------------------------------------------------------------------------
  // Links

  /** The traversal of a view is determined by its head and its links. */
  lemma LinkedUnique<T>(nodes: seq<Node<T>>, v: nat, first: Option<nat>, last: Option<nat>, s: seq<nat>, t: seq<nat>)
    requires Linked(nodes, v, first, last, s) && Linked(nodes, v, first, last, t)
    ensures s == t
  {
    if s != [] && t != [] {
      var m := if |s| < |t| then |s| else |t|;
      LinkedAgree(nodes, v, first, last, s, t, m - 1);
      assert |s| == |t|;
      forall k | 0 <= k < |s| ensures s[k] == t[k] {
        LinkedAgree(nodes, v, first, last, s, t, k);
      }
    }
  }

  lemma {:induction false} LinkedAgree<T>(nodes: seq<Node<T>>, v: nat, first: Option<nat>, last: Option<nat>, s: seq<nat>, t: seq<nat>, k: nat)
    requires Linked(nodes, v, first, last, s) && Linked(nodes, v, first, last, t)
    requires k < |s| && k < |t|
    ensures s[k] == t[k]
  {
    if k > 0 {
      LinkedAgree(nodes, v, first, last, s, t, k - 1);
      assert nodes[s[k - 1]].NextOf(v) == Some(s[k]);
      assert nodes[t[k - 1]].NextOf(v) == Some(t[k]);
    }
  }

  // ---------------------------------------------------------------------------
  // Frames: what an update of one view, or an allocation, leaves alone

  lemma AgreeOther<T>(a: seq<Node<T>>, b: seq<Node<T>>, v: nat, s: seq<nat>, w: nat)
    requires OnlyViewChanged(a, b, v, s) && w != v
    ensures Agree(a, b, w)
  {
  }

  lemma AgreeAppend<T>(a: seq<Node<T>>, x: Node<T>, w: nat)
    ensures Agree(a, a + [x], w)
  {
  }

  lemma AgreeLinked<T>(a: seq<Node<T>>, b: seq<Node<T>>, w: nat, first: Option<nat>, last: Option<nat>, s: seq<nat>)
    requires Agree(a, b, w) && Linked(a, w, first, last, s)
    ensures Linked(b, w, first, last, s)
  {
  }

  /** A view whose links and records survive keeps its traversal, its isolation and its filter. */
  lemma AgreeKeeps<T>(a: seq<Node<T>>, b: seq<Node<T>>, w: nat, first: Option<nat>, last: Option<nat>,
                      s: seq<nat>, live: seq<nat>, source: seq<nat>, p: T -> bool)
    requires Agree(a, b, w)
    requires Linked(a, w, first, last, s) && Isolated(a, w, live, s)
    requires InArena(a, source) && s == Filter(source, a, p)
    ensures Linked(b, w, first, last, s) && Isolated(b, w, live, s)
    ensures InArena(b, source) && s == Filter(source, b, p)
  {
    FilterFrame(source, a, b, p);
  }

  /**
    After view `v` changed only on the members of its new traversal `t`, a live
    node outside `t` that was outside the old traversal `s` still has no links.
   */
  lemma IsolatedStep<T>(a: seq<Node<T>>, b: seq<Node<T>>, v: nat, live: seq<nat>, live2: seq<nat>, s: seq<nat>, t: seq<nat>)
    requires Isolated(a, v, live, s) && OnlyViewChanged(a, b, v, t)
    requires forall h :: h in live2 ==> h in live && (h in s ==> h in t)
    ensures Isolated(b, v, live2, t)
  {
  }

  /** A node with no links in view `v` may join the live nodes outside it. */
  lemma IsolatedAppend<T>(nodes: seq<Node<T>>, v: nat, live: seq<nat>, s: seq<nat>, n: nat)
    requires Isolated(nodes, v, live, s)
    requires n < |nodes| && nodes[n].PrevOf(v) == None && nodes[n].NextOf(v) == None
    ensures Isolated(nodes, v, live + [n], s)
  {
  }

  /** A view filled from nothing only on the members of `t` leaves every other node unlinked. */
  lemma IsolatedFresh<T>(a: seq<Node<T>>, b: seq<Node<T>>, v: nat, live: seq<nat>, t: seq<nat>)
    requires FreshViews(a, v) && OnlyViewChanged(a, b, v, t) && InArena(a, live)
    ensures Isolated(b, v, live, t)
  {
  }

  lemma FreshKept<T>(a: seq<Node<T>>, b: seq<Node<T>>, v: nat, s: seq<nat>, count: nat)
    requires FreshViews(a, count) && OnlyViewChanged(a, b, v, s) && v < count
    ensures FreshViews(b, count)
  {
  }

  lemma FreshAppend<T>(nodes: seq<Node<T>>, item: T, count: nat)
    requires FreshViews(nodes, count)
    ensures FreshViews(nodes + [NewNode(item)], count)
  {
  }

  /** Two updates of the same view compose, the second one's traversal covering the first's. */
  lemma OnlyViewTrans<T>(a: seq<Node<T>>, b: seq<Node<T>>, c: seq<Node<T>>, v: nat, s: seq<nat>, t: seq<nat>)
    requires OnlyViewChanged(a, b, v, s) && OnlyViewChanged(b, c, v, t)
    requires forall h :: h in s ==> h in t
    ensures OnlyViewChanged(a, c, v, t)
  {
  }
}
