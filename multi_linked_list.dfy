/**
  The collection: a main list holding every live record in admission order,
  and the sublists, each holding, in the same order, the records of the main
  list that satisfy its predicate.  All views share one arena of nodes, so a
  record is stored once whatever the number of views it belongs to.

  The observable variant is the one modelled: every view counts its change
  reports in `changes`.
 */
module MultiLinked {
  import opened Wrappers
  import opened Nodes
  import opened Sublists
  import opened Views

  /** The state of one sublist, as a value. */
  ghost function ViewOf<T>(s: Sublist<T>): View<T>
    reads s
  {
    View(s.id, s.pred, s.firstNode, s.lastNode, s.Contents, s.changes)
  }

  class MultiLinkedList<T> {
    const arena: Arena<T>
    var mainList: Sublist<T>
    var sublists: seq<Sublist<T>>
    ghost var Repr: set<object>

    /** The states of the sublists, in creation order. */
    ghost function Views(): (r: seq<View<T>>)
      reads this, sublists
      ensures |r| == |sublists|
      ensures forall j :: 0 <= j < |sublists| ==> r[j] == ViewOf(sublists[j])
    {
      seq(|sublists|, j requires 0 <= j < |sublists| reads this, sublists => ViewOf(sublists[j]))
    }

    /**
      The main list (view 0) is linked and in admission order; sublist `j` is
      view `j + 1`, linked, and exactly the main list filtered by its
      predicate; no node has links in a view not created yet.
     */
    ghost predicate Valid()
      reads this, Repr
    {
      && this in Repr && arena in Repr && mainList in Repr
      && (forall j :: 0 <= j < |sublists| ==> sublists[j] in Repr && sublists[j].id == j + 1)
      && mainList.id == 0
      && mainList.Valid(arena)
      && Increasing(mainList.Contents)
      && ViewsOk(arena.nodes, Views(), 0, |sublists|, mainList.Contents, mainList.Contents)
      && FreshViews(arena.nodes, |sublists| + 1)
    }

    /** The invariant, from the sublists' states given as values. */
    lemma ValidFrom(vs: seq<View<T>>)
      requires this in Repr && arena in Repr && mainList in Repr
      requires forall j :: 0 <= j < |sublists| ==> sublists[j] in Repr && sublists[j].id == j + 1
      requires mainList.id == 0 && mainList.Valid(arena) && Increasing(mainList.Contents)
      requires |vs| == |sublists| && forall j :: 0 <= j < |sublists| ==> ViewOf(sublists[j]) == vs[j]
      requires ViewsOk(arena.nodes, vs, 0, |vs|, mainList.Contents, mainList.Contents)
      requires FreshViews(arena.nodes, |vs| + 1)
      ensures Valid()
    {
      assert Views() == vs;
    }

    /** An empty collection: a main list accepting every record, and no sublist. */
    constructor ()
      ensures Valid() && fresh(Repr - {this})
      ensures mainList.Contents == [] && mainList.changes == 0 && sublists == []
      ensures forall x :: mainList.pred(x)
    {
      arena := new Arena();
      mainList := new Sublist(0, _ => true);
      sublists := [];
      new;
      Repr := {this, arena, mainList};
    }

    method AppendTo(i: nat, node: nat)
      requires i < |sublists|
      requires forall j :: 0 <= j < |sublists| ==> sublists[j].id == j + 1
      requires sublists[i].Valid(arena)
      requires node < |arena.nodes| && node !in sublists[i].Contents
      requires arena.nodes[node].PrevOf(i + 1) == None && arena.nodes[node].NextOf(i + 1) == None
      modifies sublists[i], arena
      ensures Linked(arena.nodes, i + 1, sublists[i].firstNode, sublists[i].lastNode, sublists[i].Contents)
      ensures OnlyViewChanged(old(arena.nodes), arena.nodes, i + 1, sublists[i].Contents)
      ensures sublists[i].Contents == old(sublists[i].Contents) + [node]
      ensures sublists[i].changes == old(sublists[i].changes) + 1
      ensures forall j :: 0 <= j < |sublists| && j != i ==> ViewOf(sublists[j]) == old(ViewOf(sublists[j]))
    {
      var s := sublists[i];
      s.Add(arena, node);
      forall j | 0 <= j < |sublists| && j != i
        ensures ViewOf(sublists[j]) == old(ViewOf(sublists[j]))
      {
        assert sublists[j].id != s.id;
      }
    }

    /**
      The start of `add`: a node `n` is allocated for `item` and appended to
      the main list.
     */
    method AdmitMain(item: T, ghost vs0: seq<View<T>>)
      returns (n: nat, ghost a1: seq<Node<T>>)
      requires mainList.id == 0 && forall j :: 0 <= j < |sublists| ==> sublists[j].id == j + 1
      requires |vs0| == |sublists| && forall j :: 0 <= j < |sublists| ==> ViewOf(sublists[j]) == vs0[j]
      requires mainList.Valid(arena) && Increasing(mainList.Contents)
      requires ViewsOk(arena.nodes, vs0, 0, |vs0|, mainList.Contents, mainList.Contents)
      requires FreshViews(arena.nodes, |vs0| + 1)
      modifies arena, mainList
      ensures n == |old(arena.nodes)| && a1 == old(arena.nodes) + [NewNode(item)]
      ensures Increasing(mainList.Contents)
      ensures mainList.Contents == old(mainList.Contents) + [n] && mainList.changes == old(mainList.changes) + 1
      ensures forall j :: 0 <= j < |sublists| ==> ViewOf(sublists[j]) == vs0[j]
      ensures Fanout(a1, arena.nodes, vs0, vs0, 0, item, n, old(mainList.Contents), mainList.Contents, mainList.firstNode, mainList.lastNode)
    {
      ghost var m0 := mainList.Contents;
      AdmitStart(arena.nodes, item, vs0, m0, mainList.firstNode, mainList.lastNode);
      IncreasingAdmit(arena.nodes, m0);
      n := arena.Allocate(item);
      a1 := arena.nodes;
      mainList.Add(arena, n);
      FanoutStart(a1, arena.nodes, vs0, item, n, m0, mainList.Contents, mainList.firstNode, mainList.lastNode);
    }

    /** The loop of `add`: node `n` is appended to every sublist whose predicate accepts `item`. */
    method AdmitRest(item: T, n: nat, ghost a1: seq<Node<T>>, ghost vs0: seq<View<T>>, ghost m0: seq<nat>)
      returns (ghost vs: seq<View<T>>)
      requires mainList.id == 0 && forall j :: 0 <= j < |sublists| ==> sublists[j].id == j + 1
      requires |vs0| == |sublists| && forall j :: 0 <= j < |sublists| ==> ViewOf(sublists[j]) == vs0[j]
      requires Fanout(a1, arena.nodes, vs0, vs0, 0, item, n, m0, mainList.Contents, mainList.firstNode, mainList.lastNode)
      modifies arena, sublists
      ensures ViewOf(mainList) == old(ViewOf(mainList))
      ensures |vs| == |sublists| && forall j :: 0 <= j < |sublists| ==> ViewOf(sublists[j]) == vs[j]
      ensures Fanout(a1, arena.nodes, vs0, vs, |vs|, item, n, m0, mainList.Contents, mainList.firstNode, mainList.lastNode)
    {
      ghost var mv := ViewOf(mainList);
      vs := vs0;
      for i := 0 to |sublists|
        invariant |vs| == |sublists|
        invariant ViewOf(mainList) == mv
        invariant forall j :: 0 <= j < |sublists| ==> ViewOf(sublists[j]) == vs[j]
        invariant Fanout(a1, arena.nodes, vs0, vs, i, item, n, m0, mv.contents, mv.first, mv.last)
      {
        vs := AdmitAt(i, item, n, a1, vs0, vs, m0, mv.contents, mv.first, mv.last);
      }
    }

    /** One step of the loop of `add`: sublist `i` admits node `n` if its predicate accepts `item`. */
    method AdmitAt(i: nat, item: T, n: nat, ghost a1: seq<Node<T>>, ghost vs0: seq<View<T>>, ghost vs: seq<View<T>>,
                   ghost m0: seq<nat>, ghost m: seq<nat>, ghost mf: Option<nat>, ghost ml: Option<nat>)
      returns (ghost vs': seq<View<T>>)
      requires i < |sublists| && forall j :: 0 <= j < |sublists| ==> sublists[j].id == j + 1
      requires |vs| == |sublists| && forall j :: 0 <= j < |sublists| ==> ViewOf(sublists[j]) == vs[j]
      requires Fanout(a1, arena.nodes, vs0, vs, i, item, n, m0, m, mf, ml)
      modifies arena, sublists[i]
      ensures |vs'| == |sublists| && forall j :: 0 <= j < |sublists| ==> ViewOf(sublists[j]) == vs'[j]
      ensures Fanout(a1, arena.nodes, vs0, vs', i + 1, item, n, m0, m, mf, ml)
    {
      ghost var a := arena.nodes;
      FanoutAt(a1, a, vs0, vs, i, item, n, m0, m, mf, ml);
      if sublists[i].pred(item) {
        AppendTo(i, n);
        ghost var w := ViewOf(sublists[i]);
        FanoutGrow(a1, a, arena.nodes, vs0, vs, w, i, item, n, m0, m, mf, ml);
        vs' := vs[i := w];
      } else {
        FanoutSkip(a1, a, vs0, vs, i, item, n, m0, m, mf, ml);
        vs' := vs;
      }
    }

    /**
      `add(item)`: a new node is appended to the main list and to every
      sublist whose predicate accepts `item`; the others are untouched.
     */
    method Add(item: T)
      requires Valid()
      modifies Repr - {this}
      ensures Valid()
      ensures |arena.nodes| == |old(arena.nodes)| + 1 && SameItems(old(arena.nodes), arena.nodes)
      ensures arena.nodes[|old(arena.nodes)|].item == item
      ensures mainList.Contents == old(mainList.Contents) + [|old(arena.nodes)|]
      ensures mainList.changes == old(mainList.changes) + 1
      ensures forall j :: 0 <= j < |sublists| ==>
        Admitted(old(ViewOf(sublists[j])), ViewOf(sublists[j]), item, |old(arena.nodes)|, true)
    {
      ghost var vs0 := Views();
      var node, vs := Admit(item, vs0);
      ValidFrom(vs);
    }

    /**
      The body of `add`: a node `n` for `item` is appended to the main list, then
      to every sublist whose predicate accepts `item`, in creation order.
     */
    method Admit(item: T, ghost vs0: seq<View<T>>) returns (n: nat, ghost vs: seq<View<T>>)
      requires mainList.id == 0 && forall j :: 0 <= j < |sublists| ==> sublists[j].id == j + 1
      requires |vs0| == |sublists| && forall j :: 0 <= j < |sublists| ==> ViewOf(sublists[j]) == vs0[j]
      requires mainList.Valid(arena) && Increasing(mainList.Contents)
      requires ViewsOk(arena.nodes, vs0, 0, |vs0|, mainList.Contents, mainList.Contents)
      requires FreshViews(arena.nodes, |vs0| + 1)
      modifies arena, mainList, sublists
      ensures n == |old(arena.nodes)| && |arena.nodes| == n + 1 && SameItems(old(arena.nodes), arena.nodes)
      ensures arena.nodes[n].item == item
      ensures mainList.Contents == old(mainList.Contents) + [n] && mainList.changes == old(mainList.changes) + 1
      ensures mainList.Valid(arena) && Increasing(mainList.Contents)
      ensures |vs| == |sublists| && forall j :: 0 <= j < |sublists| ==> ViewOf(sublists[j]) == vs[j]
      ensures ViewsOk(arena.nodes, vs, 0, |vs|, mainList.Contents, mainList.Contents)
      ensures FreshViews(arena.nodes, |vs| + 1)
      ensures forall j :: 0 <= j < |vs| ==> Admitted(vs0[j], vs[j], item, n, true)
    {
      ghost var m0 := mainList.Contents;
      ghost var a1;
      n, a1 := AdmitMain(item, vs0);
      vs := AdmitRest(item, n, a1, vs0, m0);
    }

    /** `s.remove(node)` on sublist `i`, which leaves every other sublist as it was. */
    method RemoveFrom(i: nat, node: nat)
      requires i < |sublists|
      requires forall j :: 0 <= j < |sublists| ==> sublists[j].id == j + 1
      requires sublists[i].Valid(arena) && node < |arena.nodes|
      requires node !in sublists[i].Contents ==>
        arena.nodes[node].PrevOf(i + 1) == None && arena.nodes[node].NextOf(i + 1) == None
      modifies sublists[i], arena
      ensures Linked(arena.nodes, i + 1, sublists[i].firstNode, sublists[i].lastNode, sublists[i].Contents)
      ensures OnlyViewChanged(old(arena.nodes), arena.nodes, i + 1, sublists[i].Contents)
      ensures sublists[i].Contents == Without(old(sublists[i].Contents), node)
      ensures sublists[i].changes == old(sublists[i].changes) + 1
      ensures forall j :: 0 <= j < |sublists| && j != i ==> ViewOf(sublists[j]) == old(ViewOf(sublists[j]))
    {
      var s := sublists[i];
      s.Remove(arena, node);
      forall j | 0 <= j < |sublists| && j != i
        ensures ViewOf(sublists[j]) == old(ViewOf(sublists[j]))
      {
        assert sublists[j].id != s.id;
      }
    }

    /** The start of `remove`: `n` is spliced out of the main list. */
    method DiscardMain(n: nat, ghost vs0: seq<View<T>>)
      requires mainList.id == 0 && forall j :: 0 <= j < |sublists| ==> sublists[j].id == j + 1
      requires |vs0| == |sublists| && forall j :: 0 <= j < |sublists| ==> ViewOf(sublists[j]) == vs0[j]
      requires mainList.Valid(arena) && n in mainList.Contents
      requires ViewsOk(arena.nodes, vs0, 0, |vs0|, mainList.Contents, mainList.Contents)
      requires FreshViews(arena.nodes, |vs0| + 1)
      modifies arena, mainList
      ensures mainList.Contents == Without(old(mainList.Contents), n) && mainList.changes == old(mainList.changes) + 1
      ensures forall j :: 0 <= j < |sublists| ==> ViewOf(sublists[j]) == vs0[j]
      ensures Purge(old(arena.nodes), arena.nodes, vs0, vs0, 0, n, old(mainList.Contents), mainList.firstNode, mainList.lastNode)
    {
      ghost var a0 := arena.nodes;
      ghost var m0 := mainList.Contents;
      assert n < |a0| by {
        var k :| 0 <= k < |m0| && m0[k] == n;
      }
      mainList.Remove(arena, n);
      PurgeStart(a0, arena.nodes, vs0, n, m0, mainList.firstNode, mainList.lastNode);
    }

    /** The loop of `remove`: `n` is spliced out of every sublist (a no-op where it is not a member). */
    method DiscardRest(n: nat, ghost a0: seq<Node<T>>, ghost vs0: seq<View<T>>, ghost m0: seq<nat>)
      returns (ghost vs: seq<View<T>>)
      requires mainList.id == 0 && forall j :: 0 <= j < |sublists| ==> sublists[j].id == j + 1
      requires |vs0| == |sublists| && forall j :: 0 <= j < |sublists| ==> ViewOf(sublists[j]) == vs0[j]
      requires Purge(a0, arena.nodes, vs0, vs0, 0, n, m0, mainList.firstNode, mainList.lastNode)
      modifies arena, sublists
      ensures ViewOf(mainList) == old(ViewOf(mainList))
      ensures |vs| == |sublists| && forall j :: 0 <= j < |sublists| ==> ViewOf(sublists[j]) == vs[j]
      ensures Purge(a0, arena.nodes, vs0, vs, |vs|, n, m0, mainList.firstNode, mainList.lastNode)
    {
      ghost var mv := ViewOf(mainList);
      vs := vs0;
      for i := 0 to |sublists|
        invariant |vs| == |sublists|
        invariant ViewOf(mainList) == mv
        invariant forall j :: 0 <= j < |sublists| ==> ViewOf(sublists[j]) == vs[j]
        invariant Purge(a0, arena.nodes, vs0, vs, i, n, m0, mv.first, mv.last)
      {
        vs := DiscardAt(i, n, a0, vs0, vs, m0, mv.first, mv.last);
      }
    }

    /** One step of the loop of `remove`: sublist `i` splices out node `n`. */
    method DiscardAt(i: nat, n: nat, ghost a0: seq<Node<T>>, ghost vs0: seq<View<T>>, ghost vs: seq<View<T>>,
                     ghost m0: seq<nat>, ghost mf: Option<nat>, ghost ml: Option<nat>)
      returns (ghost vs': seq<View<T>>)
      requires i < |sublists| && forall j :: 0 <= j < |sublists| ==> sublists[j].id == j + 1
      requires |vs| == |sublists| && forall j :: 0 <= j < |sublists| ==> ViewOf(sublists[j]) == vs[j]
      requires Purge(a0, arena.nodes, vs0, vs, i, n, m0, mf, ml)
      modifies arena, sublists[i]
      ensures |vs'| == |sublists| && forall j :: 0 <= j < |sublists| ==> ViewOf(sublists[j]) == vs'[j]
      ensures Purge(a0, arena.nodes, vs0, vs', i + 1, n, m0, mf, ml)
    {
      ghost var a := arena.nodes;
      PurgeAt(a0, a, vs0, vs, i, n, m0, mf, ml);
      RemoveFrom(i, n);
      ghost var w := ViewOf(sublists[i]);
      PurgeStep(a0, a, arena.nodes, vs0, vs, w, i, n, m0, mf, ml);
      vs' := vs[i := w];
    }

    /**
      `remove(node)`: the live node `node` is spliced out of the main list and
      out of every sublist; every view reports one change.
     */
    method Remove(node: nat)
      requires Valid() && node in mainList.Contents
      modifies Repr - {this}
      ensures Valid()
      ensures |arena.nodes| == |old(arena.nodes)| && SameItems(old(arena.nodes), arena.nodes)
      ensures mainList.Contents == Without(old(mainList.Contents), node)
      ensures mainList.changes == old(mainList.changes) + 1
      ensures forall j :: 0 <= j < |sublists| ==>
        Dropped(old(ViewOf(sublists[j])), ViewOf(sublists[j]), node, true)
    {
      ghost var vs0 := Views();
      ghost var vs := Discard(node, vs0);
      ValidFrom(vs);
    }

    /**
      The body of `remove`: `n` is spliced out of the main list, then out of
      every sublist, member or not.
     */
    method Discard(n: nat, ghost vs0: seq<View<T>>) returns (ghost vs: seq<View<T>>)
      requires mainList.id == 0 && forall j :: 0 <= j < |sublists| ==> sublists[j].id == j + 1
      requires |vs0| == |sublists| && forall j :: 0 <= j < |sublists| ==> ViewOf(sublists[j]) == vs0[j]
      requires mainList.Valid(arena) && Increasing(mainList.Contents) && n in mainList.Contents
      requires ViewsOk(arena.nodes, vs0, 0, |vs0|, mainList.Contents, mainList.Contents)
      requires FreshViews(arena.nodes, |vs0| + 1)
      modifies arena, mainList, sublists
      ensures |arena.nodes| == |old(arena.nodes)| && SameItems(old(arena.nodes), arena.nodes)
      ensures mainList.Contents == Without(old(mainList.Contents), n) && mainList.changes == old(mainList.changes) + 1
      ensures mainList.Valid(arena) && Increasing(mainList.Contents)
      ensures |vs| == |sublists| && forall j :: 0 <= j < |sublists| ==> ViewOf(sublists[j]) == vs[j]
      ensures ViewsOk(arena.nodes, vs, 0, |vs|, mainList.Contents, mainList.Contents)
      ensures FreshViews(arena.nodes, |vs| + 1)
      ensures forall j :: 0 <= j < |vs| ==> Dropped(vs0[j], vs[j], n, true)
    {
      ghost var m0 := mainList.Contents;
      ghost var a0 := arena.nodes;
      DiscardMain(n, vs0);
      vs := DiscardRest(n, a0, vs0, m0);
      WithoutIncreasing(m0, n);
    }

    /**
      `createSublist(predicate)`: a new sublist, numbered after the existing
      ones, is filled with the records of the main list its predicate accepts
      and registered; the main list and the other sublists stay as they were.
     */
    method CreateSublist(pred: T -> bool) returns (s: Sublist<T>)
      requires Valid()
      modifies this, arena
      ensures Valid() && fresh(s)
      ensures Repr == old(Repr) + {s} && sublists == old(sublists) + [s] && mainList == old(mainList)
      ensures s.pred == pred && s.id == |sublists|
      ensures s.Contents == Filter(mainList.Contents, arena.nodes, pred)
      ensures s.changes == |s.Contents|
      ensures ViewOf(mainList) == old(ViewOf(mainList))
      ensures forall j :: 0 <= j < |old(sublists)| ==> ViewOf(sublists[j]) == old(ViewOf(sublists[j]))
      ensures |arena.nodes| == |old(arena.nodes)| && SameItems(old(arena.nodes), arena.nodes)
    {
      ghost var a0, m, vs0 := arena.nodes, mainList.Contents, Views();
      s := new Sublist(|sublists| + 1, pred);
      PopulateSublist(s);
      ViewsAdopt(a0, arena.nodes, vs0, ViewOf(s), m);
      Register(s, vs0);
    }

    /** The end of `createSublist`: the filled sublist `s` joins `sublists`. */
    method Register(s: Sublist<T>, ghost vs0: seq<View<T>>)
      requires this in Repr && arena in Repr && mainList in Repr && s !in Repr
      requires forall j :: 0 <= j < |sublists| ==> sublists[j] in Repr && sublists[j].id == j + 1
      requires mainList.id == 0 && mainList.Valid(arena) && Increasing(mainList.Contents)
      requires |vs0| == |sublists| && forall j :: 0 <= j < |sublists| ==> ViewOf(sublists[j]) == vs0[j]
      requires s.id == |sublists| + 1
      requires ViewsOk(arena.nodes, vs0 + [ViewOf(s)], 0, |sublists| + 1, mainList.Contents, mainList.Contents)
      requires FreshViews(arena.nodes, |sublists| + 2)
      modifies this
      ensures Valid()
      ensures Repr == old(Repr) + {s} && sublists == old(sublists) + [s] && mainList == old(mainList)
    {
      sublists := sublists + [s];
      Repr := Repr + {s};
      ValidFrom(vs0 + [ViewOf(s)]);
    }

    /**
      `populateSublist(sublist)`: the main list is walked along its view-0
      links, and every node whose record `s` accepts is appended to `s`.
      Only the links of `s`'s own view change.
     */
    method PopulateSublist(s: Sublist<T>)
      requires mainList.id == 0 && mainList.Valid(arena)
      requires 0 < s.id && s.Contents == [] && s.firstNode == None && s.lastNode == None
      requires FreshViews(arena.nodes, s.id)
      modifies s, arena
      ensures mainList.Valid(arena) && s.Valid(arena)
      ensures s.Contents == Filter(mainList.Contents, arena.nodes, s.pred)
      ensures OnlyViewChanged(old(arena.nodes), arena.nodes, s.id, s.Contents)
      ensures s.changes == old(s.changes) + |s.Contents|
    {
      ghost var a0, m := arena.nodes, mainList.Contents;
      ghost var c0 := s.changes;
      ghost var k := 0;
      FillingStart(a0, s.id, s.pred, m, mainList.firstNode, mainList.lastNode);
      var current := mainList.firstNode;
      while current.Some?
        invariant Filling(a0, arena.nodes, s.id, s.pred, m, k, mainList.firstNode, mainList.lastNode,
                          s.Contents, s.firstNode, s.lastNode)
        invariant current == if k < |m| then Some(m[k]) else None
        invariant s.changes == c0 + |s.Contents|
        decreases |m| - k
      {
        var node := current.value;
        ghost var a, c, f, l := arena.nodes, s.Contents, s.firstNode, s.lastNode;
        FillingAt(a0, a, s.id, s.pred, m, k, mainList.firstNode, mainList.lastNode, c, f, l);
        if s.pred(arena.nodes[node].item) {
          s.Add(arena, node);
        }
        FillingStep(a0, a, arena.nodes, s.id, s.pred, m, k, mainList.firstNode, mainList.lastNode,
                    c, f, l, s.Contents, s.firstNode, s.lastNode);
        current := arena.nodes[node].NextOf(0);
        k := k + 1;
      }
      assert m[..k] == m;
      AgreeOther(a0, arena.nodes, s.id, s.Contents, 0);
      AgreeLinked(a0, arena.nodes, 0, mainList.firstNode, mainList.lastNode, m);
    }

    /**
      What a reader of the collection sees: the records of every sublist are
      those of the main list that satisfy the sublist's predicate, in the
      main list's order.
     */
    lemma SublistContent(j: nat)
      requires Valid() && j < |sublists|
      ensures InArena(arena.nodes, sublists[j].Contents) && InArena(arena.nodes, mainList.Contents)
      ensures Items(arena.nodes, sublists[j].Contents) == Select(Items(arena.nodes, mainList.Contents), sublists[j].pred)
    {
      ViewsAt(arena.nodes, Views(), 0, |sublists|, mainList.Contents, mainList.Contents, j);
      ItemsFilter(mainList.Contents, arena.nodes, sublists[j].pred);
    }

    /**
      `clear()`: every node of the main list, collected first, is removed in
      turn; every view ends empty, having reported one change per node.
     */
    method Clear()
      requires Valid()
      modifies Repr - {this}
      ensures Valid()
      ensures |arena.nodes| == |old(arena.nodes)| && SameItems(old(arena.nodes), arena.nodes)
      ensures mainList.Contents == [] && mainList.firstNode == None && mainList.lastNode == None
      ensures mainList.changes == old(mainList.changes) + |old(mainList.Contents)|
      ensures forall j :: 0 <= j < |sublists| ==>
        sublists[j].Contents == [] && sublists[j].firstNode == None && sublists[j].lastNode == None
      ensures forall j :: 0 <= j < |sublists| ==>
        sublists[j].changes == old(sublists[j].changes) + |old(mainList.Contents)|
    {
      ghost var a0 := arena.nodes;
      ghost var vs0 := Views();
      ghost var c0 := mainList.changes;
      var ns := mainList.Nodes(arena);
      for i := 0 to |ns|
        invariant Valid()
        invariant mainList.Contents == ns[i..]
        invariant |arena.nodes| == |a0| && SameItems(a0, arena.nodes)
        invariant mainList.changes == c0 + i
        invariant forall j :: 0 <= j < |sublists| ==> sublists[j].changes == vs0[j].changes + i
      {
        assert ns[i..][0] == ns[i];
        WithoutAt(ns[i..], 0);
        assert ns[i..][1..] == ns[i + 1..];
        Remove(ns[i]);
      }
      forall j | 0 <= j < |sublists|
        ensures sublists[j].Contents == [] && sublists[j].firstNode == None && sublists[j].lastNode == None
      {
        ViewsAt(arena.nodes, Views(), 0, |sublists|, [], [], j);
      }
    }
  }
}
