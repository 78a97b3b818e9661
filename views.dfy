/**
  The sublists of a collection seen as values: what must hold of each of them
  against the shared arena, and how updates of one view, or an allocation,
  carry those facts along.
 */
module Views {
  import opened Wrappers
  import opened Nodes

  /** One sublist's state: view number, predicate, head, tail, traversal and change count. */
  datatype View<!T> = View(id: nat, pred: T -> bool, first: Option<nat>, last: Option<nat>, contents: seq<nat>, changes: nat)

  /**
    The view is linked in `nodes`, its traversal is `source` filtered by its
    predicate, and the nodes of `live` outside it have no links in it.
   */
  ghost predicate ViewOk<T>(nodes: seq<Node<T>>, w: View<T>, source: seq<nat>, live: seq<nat>) {
    && Linked(nodes, w.id, w.first, w.last, w.contents)
    && InArena(nodes, source)
    && w.contents == Filter(source, nodes, w.pred)
    && Isolated(nodes, w.id, live, w.contents)
  }

  /** Views `lo` to `hi - 1` of `vs` are numbered from `lo + 1` and all hold `ViewOk`. */
  ghost predicate ViewsOk<T>(nodes: seq<Node<T>>, vs: seq<View<T>>, lo: nat, hi: nat, source: seq<nat>, live: seq<nat>)
    decreases hi
  {
    && lo <= hi <= |vs|
    && (lo < hi ==>
          && ViewsOk(nodes, vs, lo, hi - 1, source, live)
          && vs[hi - 1].id == hi
          && ViewOk(nodes, vs[hi - 1], source, live))
  }

  /** Each view of the range is numbered after its position and holds `ViewOk`. */
  lemma {:induction false} ViewsAt<T>(nodes: seq<Node<T>>, vs: seq<View<T>>, lo: nat, hi: nat, source: seq<nat>, live: seq<nat>, k: nat)
    requires ViewsOk(nodes, vs, lo, hi, source, live) && lo <= k < hi
    ensures vs[k].id == k + 1 && ViewOk(nodes, vs[k], source, live)
    decreases hi
  {
    if k < hi - 1 {
      ViewsAt(nodes, vs, lo, hi - 1, source, live, k);
    }
  }

  /** The converse of `ViewsAt`: a range whose every view holds `ViewOk` satisfies `ViewsOk`. */
  lemma {:induction false} ViewsAll<T>(nodes: seq<Node<T>>, vs: seq<View<T>>, lo: nat, hi: nat, source: seq<nat>, live: seq<nat>)
    requires lo <= hi <= |vs|
    requires forall k :: lo <= k < hi ==> vs[k].id == k + 1 && ViewOk(nodes, vs[k], source, live)
    ensures ViewsOk(nodes, vs, lo, hi, source, live)
    decreases hi
  {
    if lo < hi {
      ViewsAll(nodes, vs, lo, hi - 1, source, live);
    }
  }

  /** An update confined to a view outside the range leaves the range as it was. */
  lemma {:induction false} ViewsFrame<T>(a: seq<Node<T>>, b: seq<Node<T>>, v: nat, t: seq<nat>,
                      vs: seq<View<T>>, lo: nat, hi: nat, source: seq<nat>, live: seq<nat>)
    requires ViewsOk(a, vs, lo, hi, source, live)
    requires OnlyViewChanged(a, b, v, t) && (v <= lo || hi < v)
    ensures ViewsOk(b, vs, lo, hi, source, live)
    decreases hi
  {
    if lo < hi {
      ViewsFrame(a, b, v, t, vs, lo, hi - 1, source, live);
      var w := vs[hi - 1];
      AgreeOther(a, b, v, t, w.id);
      AgreeKeeps(a, b, w.id, w.first, w.last, w.contents, live, source, w.pred);
    }
  }

  /**
    Allocating a node keeps every view; the new node belongs to none of them
    and, having no links, may count as live.
   */
  lemma {:induction false} ViewsAppend<T>(a: seq<Node<T>>, item: T, vs: seq<View<T>>, lo: nat, hi: nat, source: seq<nat>, live: seq<nat>)
    requires ViewsOk(a, vs, lo, hi, source, live)
    ensures ViewsOk(a + [NewNode(item)], vs, lo, hi, source, live + [|a|])
    ensures forall j :: lo <= j < hi ==> |a| !in vs[j].contents
    decreases hi
  {
    if lo < hi {
      ViewsAppend(a, item, vs, lo, hi - 1, source, live);
      var b := a + [NewNode(item)];
      var w := vs[hi - 1];
      AgreeAppend(a, NewNode(item), w.id);
      AgreeKeeps(a, b, w.id, w.first, w.last, w.contents, live, source, w.pred);
      IsolatedAppend(b, w.id, live, w.contents, |a|);
      FilterMembers(source, a, w.pred, |a|);
    }
  }

  lemma {:induction false} ViewsJoin<T>(nodes: seq<Node<T>>, vs: seq<View<T>>, lo: nat, mid: nat, hi: nat, source: seq<nat>, live: seq<nat>)
    requires ViewsOk(nodes, vs, lo, mid, source, live) && ViewsOk(nodes, vs, mid, hi, source, live)
    ensures ViewsOk(nodes, vs, lo, hi, source, live)
    decreases hi
  {
    if mid < hi {
      ViewsJoin(nodes, vs, lo, mid, hi - 1, source, live);
    }
  }

  lemma {:induction false} ViewsSplit<T>(nodes: seq<Node<T>>, vs: seq<View<T>>, lo: nat, mid: nat, hi: nat, source: seq<nat>, live: seq<nat>)
    requires ViewsOk(nodes, vs, lo, hi, source, live) && lo <= mid <= hi
    ensures ViewsOk(nodes, vs, lo, mid, source, live) && ViewsOk(nodes, vs, mid, hi, source, live)
    decreases hi
  {
    if mid < hi {
      ViewsSplit(nodes, vs, lo, mid, hi - 1, source, live);
    }
  }

  lemma ViewsOne<T>(nodes: seq<Node<T>>, vs: seq<View<T>>, i: nat, source: seq<nat>, live: seq<nat>)
    requires i < |vs| && vs[i].id == i + 1 && ViewOk(nodes, vs[i], source, live)
    ensures ViewsOk(nodes, vs, i, i + 1, source, live)
  {
    assert ViewsOk(nodes, vs, i, i, source, live);
  }

  /** A further view numbered after the range joins it. */
  lemma ViewsExtend<T>(nodes: seq<Node<T>>, vs: seq<View<T>>, source: seq<nat>, live: seq<nat>, w: View<T>)
    requires ViewsOk(nodes, vs, 0, |vs|, source, live) && w.id == |vs| + 1 && ViewOk(nodes, w, source, live)
    ensures ViewsOk(nodes, vs + [w], 0, |vs| + 1, source, live)
  {
    ViewsSame(nodes, vs, vs + [w], 0, |vs|, source, live);
    ViewsOne(nodes, vs + [w], |vs|, source, live);
    ViewsJoin(nodes, vs + [w], 0, |vs|, |vs| + 1, source, live);
  }

  /** The range holds of any sequence agreeing with `vs` on it. */
  lemma {:induction false} ViewsSame<T>(nodes: seq<Node<T>>, vs: seq<View<T>>, vs': seq<View<T>>, lo: nat, hi: nat, source: seq<nat>, live: seq<nat>)
    requires ViewsOk(nodes, vs, lo, hi, source, live) && hi <= |vs'|
    requires forall k :: lo <= k < hi ==> vs'[k] == vs[k]
    ensures ViewsOk(nodes, vs', lo, hi, source, live)
    decreases hi
  {
    if lo < hi {
      ViewsSame(nodes, vs, vs', lo, hi - 1, source, live);
    }
  }

  /** Replacing a view outside the range leaves the range as it was. */
  lemma ViewsSet<T>(nodes: seq<Node<T>>, vs: seq<View<T>>, lo: nat, hi: nat, source: seq<nat>, live: seq<nat>, i: nat, w: View<T>)
    requires ViewsOk(nodes, vs, lo, hi, source, live) && i < |vs| && (i < lo || hi <= i)
    ensures ViewsOk(nodes, vs[i := w], lo, hi, source, live)
  {
    ViewsSame(nodes, vs, vs[i := w], lo, hi, source, live);
  }

  /**
    A view whose predicate accepts the record of the newly admitted node `n`
    and that appended `n` is the filter of the extended main list.
   */
  lemma ViewGrow<T>(a: seq<Node<T>>, b: seq<Node<T>>, w: View<T>, w': View<T>, source: seq<nat>, n: nat)
    requires ViewOk(a, w, source, source + [n]) && n < |a| && w.pred(a[n].item)
    requires w'.id == w.id && w'.pred == w.pred && w'.contents == w.contents + [n]
    requires OnlyViewChanged(a, b, w.id, w'.contents) && Linked(b, w.id, w'.first, w'.last, w'.contents)
    ensures ViewOk(b, w', source + [n], source + [n])
  {
    FilterAppend(source, n, a, w.pred);
    FilterFrame(source + [n], a, b, w.pred);
    IsolatedStep(a, b, w.id, source + [n], source + [n], w.contents, w'.contents);
  }

  /**
    `w'` is `w` after the admission of node `n` holding `item`, once `done`:
    extended by `n`, with one more change report, when its predicate accepts
    `item`, and unchanged otherwise.
   */
  ghost predicate Admitted<T>(w: View<T>, w': View<T>, item: T, n: nat, done: bool) {
    if done && w.pred(item) then
      w'.id == w.id && w'.pred == w.pred && w'.contents == w.contents + [n] && w'.changes == w.changes + 1
    else w' == w
  }

  /** Admitting into view `i` extends the admitted prefix by one. */
  lemma AdmittedStep<T>(vs0: seq<View<T>>, vs: seq<View<T>>, vs': seq<View<T>>, i: nat, item: T, n: nat)
    requires |vs| == |vs0| == |vs'| && i < |vs|
    requires forall j :: 0 <= j < |vs| ==> Admitted(vs0[j], vs[j], item, n, j < i)
    requires forall j :: 0 <= j < |vs| && j != i ==> vs'[j] == vs[j]
    requires vs0[i].pred(item) ==>
      vs'[i].id == vs[i].id && vs'[i].pred == vs[i].pred && vs'[i].contents == vs[i].contents + [n] && vs'[i].changes == vs[i].changes + 1
    requires !vs0[i].pred(item) ==> vs'[i] == vs[i]
    ensures forall j :: 0 <= j < |vs| ==> Admitted(vs0[j], vs'[j], item, n, j < i + 1)
  {
    assert Admitted(vs0[i], vs[i], item, n, false);
  }

  /** A view whose predicate rejects the record of the new node `n` is already the filter of the extended list. */
  lemma ViewSkip<T>(a: seq<Node<T>>, w: View<T>, source: seq<nat>, n: nat)
    requires ViewOk(a, w, source, source + [n]) && n < |a| && !w.pred(a[n].item)
    ensures ViewOk(a, w, source + [n], source + [n])
  {
    FilterAppend(source, n, a, w.pred);
  }

  /** A view that spliced out `n` is the filter of the main list without `n`. */
  lemma ViewShrink<T>(a: seq<Node<T>>, b: seq<Node<T>>, w: View<T>, w': View<T>, source: seq<nat>, n: nat)
    requires ViewOk(a, w, source, source)
    requires w'.id == w.id && w'.pred == w.pred && w'.contents == Without(w.contents, n)
    requires OnlyViewChanged(a, b, w.id, w'.contents) && Linked(b, w.id, w'.first, w'.last, w'.contents)
    ensures ViewOk(b, w', Without(source, n), Without(source, n))
  {
    var t := Without(source, n);
    FilterWithout(source, a, w.pred, n);
    FilterFrame(t, a, b, w.pred);
    forall h | h in t ensures h in source && (h in w.contents ==> h in w'.contents) {
      WithoutMembers(source, n, h);
      WithoutMembers(w.contents, n, h);
    }
    IsolatedStep(a, b, w.id, source, t, w.contents, w'.contents);
  }

  /** A view numbered past every link, filled from `source` and nowhere else, is in order. */
  lemma ViewFresh<T>(a: seq<Node<T>>, b: seq<Node<T>>, w: View<T>, source: seq<nat>)
    requires FreshViews(a, w.id) && OnlyViewChanged(a, b, w.id, w.contents) && InArena(a, source)
    requires Linked(b, w.id, w.first, w.last, w.contents) && w.contents == Filter(source, b, w.pred)
    ensures ViewOk(b, w, source, source)
  {
    IsolatedFresh(a, b, w.id, source, w.contents);
  }

  /**
    Half-way through admitting node `n` (holding `item`) into the sublists:
    the main list `m` already ends with `n`; views before `i` are the filters
    of `m` and have admitted `n` where their predicate accepts `item`; views
    from `i` on are still the filters of `m0`, the main list before `n`.
   */
  ghost predicate Fanout<T>(a1: seq<Node<T>>, a: seq<Node<T>>, vs0: seq<View<T>>, vs: seq<View<T>>, i: nat,
                            item: T, n: nat, m0: seq<nat>, m: seq<nat>, mf: Option<nat>, ml: Option<nat>)
  {
    && |vs0| == |vs| && i <= |vs|
    && n < |a1| && a1[n] == NewNode(item) && m == m0 + [n] && n !in m0
    && |a| == |a1| && SameItems(a1, a)
    && Linked(a, 0, mf, ml, m)
    && FreshViews(a, |vs| + 1)
    && ViewsOk(a, vs, 0, i, m, m)
    && ViewsOk(a, vs, i, |vs|, m0, m)
    && (forall j :: 0 <= j < |vs| ==> Admitted(vs0[j], vs[j], item, n, j < i))
  }

  /** What view `i` offers to the append of `n` while the admission reaches it. */
  lemma FanoutAt<T>(a1: seq<Node<T>>, a: seq<Node<T>>, vs0: seq<View<T>>, vs: seq<View<T>>, i: nat,
                    item: T, n: nat, m0: seq<nat>, m: seq<nat>, mf: Option<nat>, ml: Option<nat>)
    requires Fanout(a1, a, vs0, vs, i, item, n, m0, m, mf, ml) && i < |vs|
    ensures vs[i] == vs0[i] && vs[i].id == i + 1
    ensures Linked(a, i + 1, vs[i].first, vs[i].last, vs[i].contents)
    ensures n < |a| && n !in vs[i].contents && a[n].item == item
    ensures a[n].PrevOf(i + 1) == None && a[n].NextOf(i + 1) == None
  {
    ViewsAt(a, vs, i, |vs|, m0, m, i);
    assert Admitted(vs0[i], vs[i], item, n, false);
    if n in vs[i].contents {
      FilterMembers(m0, a, vs[i].pred, n);
    }
    assert n in m;
  }

  /** After view `i` appended `n`, the admission has reached view `i + 1`. */
  lemma FanoutGrow<T>(a1: seq<Node<T>>, a: seq<Node<T>>, b: seq<Node<T>>, vs0: seq<View<T>>, vs: seq<View<T>>, w: View<T>, i: nat,
                      item: T, n: nat, m0: seq<nat>, m: seq<nat>, mf: Option<nat>, ml: Option<nat>)
    requires Fanout(a1, a, vs0, vs, i, item, n, m0, m, mf, ml) && i < |vs| && vs[i].pred(item)
    requires w.id == vs[i].id && w.pred == vs[i].pred && w.contents == vs[i].contents + [n] && w.changes == vs[i].changes + 1
    requires OnlyViewChanged(a, b, i + 1, w.contents) && Linked(b, i + 1, w.first, w.last, w.contents)
    ensures Fanout(a1, b, vs0, vs[i := w], i + 1, item, n, m0, m, mf, ml)
  {
    FanoutAt(a1, a, vs0, vs, i, item, n, m0, m, mf, ml);
    ViewsSplit(a, vs, i, i + 1, |vs|, m0, m);
    ViewGrow(a, b, vs[i], w, m0, n);
    ViewsFrame(a, b, i + 1, w.contents, vs, 0, i, m, m);
    ViewsFrame(a, b, i + 1, w.contents, vs, i + 1, |vs|, m0, m);
    var vs' := vs[i := w];
    ViewsSet(b, vs, 0, i, m, m, i, w);
    ViewsSet(b, vs, i + 1, |vs|, m0, m, i, w);
    FreshKept(a, b, i + 1, w.contents, |vs| + 1);
    AgreeOther(a, b, i + 1, w.contents, 0);
    AgreeLinked(a, b, 0, mf, ml, m);
    AdmittedStep(vs0, vs, vs', i, item, n);
    ViewsOne(b, vs', i, m, m);
    ViewsJoin(b, vs', 0, i, i + 1, m, m);
  }

  /** A view whose predicate rejects `item` is passed over. */
  lemma FanoutSkip<T>(a1: seq<Node<T>>, a: seq<Node<T>>, vs0: seq<View<T>>, vs: seq<View<T>>, i: nat,
                      item: T, n: nat, m0: seq<nat>, m: seq<nat>, mf: Option<nat>, ml: Option<nat>)
    requires Fanout(a1, a, vs0, vs, i, item, n, m0, m, mf, ml) && i < |vs| && !vs[i].pred(item)
    ensures Fanout(a1, a, vs0, vs, i + 1, item, n, m0, m, mf, ml)
  {
    FanoutAt(a1, a, vs0, vs, i, item, n, m0, m, mf, ml);
    ViewsSplit(a, vs, i, i + 1, |vs|, m0, m);
    ViewsAt(a, vs, i, i + 1, m0, m, i);
    ViewSkip(a, vs[i], m0, n);
    AdmittedStep(vs0, vs, vs, i, item, n);
    ViewsOne(a, vs, i, m, m);
    ViewsJoin(a, vs, 0, i, i + 1, m, m);
  }

  /**
    Allocating the node for `item`: every view keeps its facts, the new node
    is in none of them, and the main list is still linked.
   */
  lemma AdmitStart<T>(a0: seq<Node<T>>, item: T, vs0: seq<View<T>>, m0: seq<nat>, mf: Option<nat>, ml: Option<nat>)
    requires ViewsOk(a0, vs0, 0, |vs0|, m0, m0) && FreshViews(a0, |vs0| + 1) && Linked(a0, 0, mf, ml, m0)
    ensures ViewsOk(a0 + [NewNode(item)], vs0, 0, |vs0|, m0, m0 + [|a0|])
    ensures FreshViews(a0 + [NewNode(item)], |vs0| + 1) && Linked(a0 + [NewNode(item)], 0, mf, ml, m0)
    ensures |a0| !in m0
  {
    ViewsAppend(a0, item, vs0, 0, |vs0|, m0, m0);
    FreshAppend(a0, item, |vs0| + 1);
    AgreeAppend(a0, NewNode(item), 0);
    AgreeLinked(a0, a0 + [NewNode(item)], 0, mf, ml, m0);
  }

  /** Once the main list has appended the new node `n`, the admission starts at view 0. */
  lemma FanoutStart<T>(a1: seq<Node<T>>, a: seq<Node<T>>, vs0: seq<View<T>>, item: T, n: nat,
                       m0: seq<nat>, m: seq<nat>, mf: Option<nat>, ml: Option<nat>)
    requires n < |a1| && a1[n] == NewNode(item) && m == m0 + [n] && n !in m0
    requires ViewsOk(a1, vs0, 0, |vs0|, m0, m) && FreshViews(a1, |vs0| + 1)
    requires OnlyViewChanged(a1, a, 0, m) && Linked(a, 0, mf, ml, m)
    ensures Fanout(a1, a, vs0, vs0, 0, item, n, m0, m, mf, ml)
  {
    ViewsFrame(a1, a, 0, m, vs0, 0, |vs0|, m0, m);
    FreshKept(a1, a, 0, m, |vs0| + 1);
  }

  /**
    `w'` is `w` after the removal of node `n`, once `done`: without `n`, with
    one more change report (every view reports one, member or not), and
    unchanged otherwise.
   */
  ghost predicate Dropped<T>(w: View<T>, w': View<T>, n: nat, done: bool) {
    if done then
      w'.id == w.id && w'.pred == w.pred && w'.contents == Without(w.contents, n) && w'.changes == w.changes + 1
    else w' == w
  }

  /** Removing from view `i` extends the processed prefix by one. */
  lemma DroppedStep<T>(vs0: seq<View<T>>, vs: seq<View<T>>, vs': seq<View<T>>, i: nat, n: nat)
    requires |vs| == |vs0| == |vs'| && i < |vs|
    requires forall j :: 0 <= j < |vs| ==> Dropped(vs0[j], vs[j], n, j < i)
    requires forall j :: 0 <= j < |vs| && j != i ==> vs'[j] == vs[j]
    requires vs'[i].id == vs[i].id && vs'[i].pred == vs[i].pred
    requires vs'[i].contents == Without(vs[i].contents, n) && vs'[i].changes == vs[i].changes + 1
    ensures forall j :: 0 <= j < |vs| ==> Dropped(vs0[j], vs'[j], n, j < i + 1)
  {
    assert Dropped(vs0[i], vs[i], n, false);
  }

  /**
    Half-way through removing node `n`: the main list is already `m0` without
    `n`; views before `i` are the filters of that list; views from `i` on are
    still the filters of `m0`.
   */
  ghost predicate Purge<T>(a0: seq<Node<T>>, a: seq<Node<T>>, vs0: seq<View<T>>, vs: seq<View<T>>, i: nat,
                           n: nat, m0: seq<nat>, mf: Option<nat>, ml: Option<nat>)
  {
    && |vs0| == |vs| && i <= |vs|
    && n in m0 && n < |a0| && |a| == |a0| && SameItems(a0, a)
    && Linked(a, 0, mf, ml, Without(m0, n))
    && FreshViews(a, |vs| + 1)
    && ViewsOk(a, vs, 0, i, Without(m0, n), Without(m0, n))
    && ViewsOk(a, vs, i, |vs|, m0, m0)
    && (forall j :: 0 <= j < |vs| ==> Dropped(vs0[j], vs[j], n, j < i))
  }

  /** Once the main list has spliced out `n`, the removal starts at view 0. */
  lemma PurgeStart<T>(a0: seq<Node<T>>, a: seq<Node<T>>, vs0: seq<View<T>>, n: nat, m0: seq<nat>, mf: Option<nat>, ml: Option<nat>)
    requires ViewsOk(a0, vs0, 0, |vs0|, m0, m0) && FreshViews(a0, |vs0| + 1) && n in m0 && n < |a0|
    requires OnlyViewChanged(a0, a, 0, Without(m0, n)) && Linked(a, 0, mf, ml, Without(m0, n))
    ensures Purge(a0, a, vs0, vs0, 0, n, m0, mf, ml)
  {
    ViewsFrame(a0, a, 0, Without(m0, n), vs0, 0, |vs0|, m0, m0);
    FreshKept(a0, a, 0, Without(m0, n), |vs0| + 1);
  }

  /** What view `i` offers to the removal of `n` while the removal reaches it. */
  lemma PurgeAt<T>(a0: seq<Node<T>>, a: seq<Node<T>>, vs0: seq<View<T>>, vs: seq<View<T>>, i: nat,
                   n: nat, m0: seq<nat>, mf: Option<nat>, ml: Option<nat>)
    requires Purge(a0, a, vs0, vs, i, n, m0, mf, ml) && i < |vs|
    ensures vs[i] == vs0[i] && vs[i].id == i + 1
    ensures Linked(a, i + 1, vs[i].first, vs[i].last, vs[i].contents) && n < |a|
    ensures n !in vs[i].contents ==> a[n].PrevOf(i + 1) == None && a[n].NextOf(i + 1) == None
  {
    ViewsAt(a, vs, i, |vs|, m0, m0, i);
    assert Dropped(vs0[i], vs[i], n, false);
  }

  /** After view `i` spliced out `n`, the removal has reached view `i + 1`. */
  lemma PurgeStep<T>(a0: seq<Node<T>>, a: seq<Node<T>>, b: seq<Node<T>>, vs0: seq<View<T>>, vs: seq<View<T>>, w: View<T>, i: nat,
                     n: nat, m0: seq<nat>, mf: Option<nat>, ml: Option<nat>)
    requires Purge(a0, a, vs0, vs, i, n, m0, mf, ml) && i < |vs|
    requires w.id == vs[i].id && w.pred == vs[i].pred && w.contents == Without(vs[i].contents, n) && w.changes == vs[i].changes + 1
    requires OnlyViewChanged(a, b, i + 1, w.contents) && Linked(b, i + 1, w.first, w.last, w.contents)
    ensures Purge(a0, b, vs0, vs[i := w], i + 1, n, m0, mf, ml)
  {
    var t := Without(m0, n);
    PurgeAt(a0, a, vs0, vs, i, n, m0, mf, ml);
    ViewsSplit(a, vs, i, i + 1, |vs|, m0, m0);
    ViewShrink(a, b, vs[i], w, m0, n);
    ViewsFrame(a, b, i + 1, w.contents, vs, 0, i, t, t);
    ViewsFrame(a, b, i + 1, w.contents, vs, i + 1, |vs|, m0, m0);
    var vs' := vs[i := w];
    ViewsSet(b, vs, 0, i, t, t, i, w);
    ViewsSet(b, vs, i + 1, |vs|, m0, m0, i, w);
    FreshKept(a, b, i + 1, w.contents, |vs| + 1);
    AgreeOther(a, b, i + 1, w.contents, 0);
    AgreeLinked(a, b, 0, mf, ml, t);
    DroppedStep(vs0, vs, vs', i, n);
    ViewsOne(b, vs', i, t, t);
    ViewsJoin(b, vs', 0, i, i + 1, t, t);
  }

  /**
    Half-way through filling the new view `v` from the main list `m`, which
    is linked in view 0: the first `k` nodes of `m` have been offered, and `s`,
    linked in view `v`, holds those accepted by `p`.  Only view `v` has
    changed since `a0`, where it had no links at all.
   */
  ghost predicate Filling<T>(a0: seq<Node<T>>, a: seq<Node<T>>, v: nat, p: T -> bool, m: seq<nat>, k: nat,
                             mf: Option<nat>, ml: Option<nat>, s: seq<nat>, first: Option<nat>, last: Option<nat>)
  {
    && 0 < v && k <= |m|
    && Linked(a0, 0, mf, ml, m) && FreshViews(a0, v)
    && OnlyViewChanged(a0, a, v, s)
    && Linked(a, v, first, last, s)
    && s == Filter(m[..k], a, p)
  }

  /** Filling starts with nothing offered. */
  lemma FillingStart<T>(a0: seq<Node<T>>, v: nat, p: T -> bool, m: seq<nat>, mf: Option<nat>, ml: Option<nat>)
    requires 0 < v && Linked(a0, 0, mf, ml, m) && FreshViews(a0, v)
    ensures Filling(a0, a0, v, p, m, 0, mf, ml, [], None, None)
  {
    assert m[..0] == [];
  }

  /** What node `m[k]` offers to the filling: its record, its main-list successor, and no links in view `v`. */
  lemma FillingAt<T>(a0: seq<Node<T>>, a: seq<Node<T>>, v: nat, p: T -> bool, m: seq<nat>, k: nat,
                     mf: Option<nat>, ml: Option<nat>, s: seq<nat>, first: Option<nat>, last: Option<nat>)
    requires Filling(a0, a, v, p, m, k, mf, ml, s, first, last) && k < |m|
    ensures m[k] < |a| && m[k] !in s
    ensures a[m[k]].PrevOf(v) == None && a[m[k]].NextOf(v) == None
    ensures a[m[k]].NextOf(0) == NextIn(m, k)
  {
    assert a0[m[k]].NextOf(0) == NextIn(m, k);
    FilterInArena(m[..k], a, p);
    assert InArena(a, m[..k]);
    assert m[k] !in m[..k] by {
      forall j | 0 <= j < k ensures m[..k][j] != m[k] { assert m[..k][j] == m[j]; }
    }
    FilterMembers(m[..k], a, p, m[k]);
  }

  /** Offering `m[k]`: appended to the view when `p` accepts its record, passed over otherwise. */
  lemma FillingStep<T>(a0: seq<Node<T>>, a: seq<Node<T>>, b: seq<Node<T>>, v: nat, p: T -> bool, m: seq<nat>, k: nat,
                       mf: Option<nat>, ml: Option<nat>, s: seq<nat>, first: Option<nat>, last: Option<nat>,
                       s': seq<nat>, first': Option<nat>, last': Option<nat>)
    requires Filling(a0, a, v, p, m, k, mf, ml, s, first, last) && k < |m| && m[k] < |a|
    requires s' == s + (if p(a[m[k]].item) then [m[k]] else [])
    requires OnlyViewChanged(a, b, v, s') && Linked(b, v, first', last', s')
    ensures Filling(a0, b, v, p, m, k + 1, mf, ml, s', first', last')
    ensures b[m[k]].NextOf(0) == NextIn(m, k)
  {
    assert a0[m[k]].NextOf(0) == NextIn(m, k);
    assert m[..k + 1] == m[..k] + [m[k]];
    FilterInArena(m[..k], a, p);
    assert InArena(a, m[..k]);
    FilterAppend(m[..k], m[k], a, p);
    FilterFrame(m[..k + 1], a, b, p);
    OnlyViewTrans(a0, a, b, v, s, s');
  }

  /**
    A view `w`, numbered after `vs` and filled, by changing its own links
    only, with the filter of the main list `m`, joins the views of `vs`;
    the views after it still have no links.
   */
  lemma ViewsAdopt<T>(a0: seq<Node<T>>, a: seq<Node<T>>, vs: seq<View<T>>, w: View<T>, m: seq<nat>)
    requires ViewsOk(a0, vs, 0, |vs|, m, m) && FreshViews(a0, |vs| + 1) && w.id == |vs| + 1
    requires OnlyViewChanged(a0, a, w.id, w.contents) && InArena(a0, m)
    requires Linked(a, w.id, w.first, w.last, w.contents) && w.contents == Filter(m, a, w.pred)
    ensures ViewsOk(a, vs + [w], 0, |vs| + 1, m, m) && FreshViews(a, |vs| + 2)
  {
    ViewsFrame(a0, a, w.id, w.contents, vs, 0, |vs|, m, m);
    ViewFresh(a0, a, w, m);
    FreshKept(a0, a, w.id, w.contents, w.id + 1);
    ViewsExtend(a, vs, m, m, w);
  }
}
