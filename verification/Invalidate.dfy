/** Deterministic invalidation propagation (invalidate.hpp): a breadth-first search from
    several roots that records, for each affected node, its predecessor and its root. */
module Invalidation {
  import opened Ids
  import opened Orders
  import opened Digraph
  import opened Records
  import opened DerivationGraph

  datatype InvalidatingSubject = InvalidatingSubject(subject: StateId, reason: Reason, detail: Bytes)

  datatype InvalidationChain = InvalidationChain(root: StateId, reason: Reason, detail: Bytes, path: seq<StateId>)

  datatype InvalidationResult = InvalidationResult(
    affected: seq<StateId>,
    predecessor: map<StateId, StateId>,
    rootOf: map<StateId, StateId>,
    rootReason: map<StateId, Reason>,
    rootDetail: map<StateId, Bytes>)

  // ------------------------------------------------------------- what is promised

  /** A causal path: a walk along derivation arcs from one of the roots to t. */
  ghost predicate Causes(g: Adj, roots: set<StateId>, p: seq<StateId>, t: StateId) {
    Walk(g, p) && p[0] in roots && p[|p| - 1] == t
  }

  /** Shorter first; among equally long ones, the smaller root. */
  predicate Before(d: nat, r: StateId, e: nat, q: StateId) {
    d < e || (d == e && r <= q)
  }

  /** p is a shortest causal path to t, over all roots, and no equally short one
      starts at a smaller root. */
  ghost predicate NearestCause(g: Adj, roots: set<StateId>, p: seq<StateId>, t: StateId) {
    && Causes(g, roots, p, t)
    && forall q :: Causes(g, roots, q, t) ==> Before(|p|, p[0], |q|, q[0])
  }

  /** The first entry for a subject wins. */
  ghost predicate FirstEntry(roots: seq<InvalidatingSubject>, i: nat) {
    i < |roots| && forall j :: 0 <= j < i ==> roots[j].subject != roots[i].subject
  }

  ghost function Subjects(roots: seq<InvalidatingSubject>): set<StateId> {
    set i | 0 <= i < |roots| :: roots[i].subject
  }

  // ------------------------------------------- the search, as a history to reason on

  /** One discovered node: how deep, under which root, and via which node at which earlier position. */
  datatype Entry = Entry(id: StateId, depth: nat, root: StateId, from: nat, via: StateId)

  ghost predicate IsChildEntry(g: Adj, p: Entry, e: Entry) {
    e.via == p.id && e.via != e.id && Arc(g, p.id, e.id) && e.depth == p.depth + 1 && e.root == p.root
  }

  ghost predicate Placed(g: Adj, roots: set<StateId>, tr: seq<Entry>, i: nat)
    requires i < |tr|
  {
    var e := tr[i];
    && e.depth <= i
    && if e.from == i then e.depth == 0 && e.root == e.id && e.via == e.id && e.id in roots
       else e.from < i && IsChildEntry(g, tr[e.from], e)
  }

  ghost predicate Grown(g: Adj, roots: set<StateId>, tr: seq<Entry>) {
    forall i :: 0 <= i < |tr| ==> Placed(g, roots, tr, i)
  }

  /** Nodes are discovered once, in the order of their keys. */
  ghost predicate Ordered(tr: seq<Entry>) {
    forall i, j :: 0 <= i < j < |tr| ==>
      tr[i].id != tr[j].id && Before(tr[i].depth, tr[i].root, tr[j].depth, tr[j].root)
  }

  /** v was discovered, with a key no later than (d, r). */
  ghost predicate Found(tr: seq<Entry>, v: StateId, d: nat, r: StateId) {
    exists j :: 0 <= j < |tr| && tr[j].id == v && Before(tr[j].depth, tr[j].root, d, r)
  }

  ghost predicate ChildrenFound(g: Adj, tr: seq<Entry>, i: nat)
    requires i < |tr|
  {
    forall c :: Arc(g, tr[i].id, c) ==> Found(tr, c, tr[i].depth + 1, tr[i].root)
  }

  /** The first h nodes are fully expanded, and nothing is keyed beyond the children of node h. */
  ghost predicate Expanded(g: Adj, tr: seq<Entry>, h: nat) {
    && h <= |tr|
    && (forall i :: 0 <= i < h ==> ChildrenFound(g, tr, i))
    && (h < |tr| ==> forall j :: 0 <= j < |tr| ==> Before(tr[j].depth, tr[j].root, tr[h].depth + 1, tr[h].root))
  }

  ghost predicate Searching(g: Adj, roots: set<StateId>, tr: seq<Entry>, h: nat) {
    && Grown(g, roots, tr)
    && Ordered(tr)
    && Expanded(g, tr, h)
    && forall s :: s in roots ==> Found(tr, s, 0, s)
  }

  ghost function Listed(tr: seq<Entry>): seq<StateId> {
    seq(|tr|, i requires 0 <= i < |tr| => tr[i].id)
  }

  /** The queue and the two maps hold what the history says. */
  ghost predicate Mirrors(tr: seq<Entry>, queue: seq<StateId>, pred: map<StateId, StateId>,
                          rootOf: map<StateId, StateId>)
  {
    && |tr| == |queue| && pred.Keys == rootOf.Keys
    && (forall i :: 0 <= i < |tr| ==>
          && queue[i] == tr[i].id && queue[i] in pred
          && pred[queue[i]] == tr[i].via && rootOf[queue[i]] == tr[i].root)
    && (forall v :: v in pred ==> v in queue)
  }

  ghost predicate Propagated(g: Adj, roots: set<StateId>, r: InvalidationResult) {
    exists tr :: PropagatedBy(g, roots, r, tr)
  }

  ghost predicate PropagatedBy(g: Adj, roots: set<StateId>, r: InvalidationResult, tr: seq<Entry>) {
    && Grown(g, roots, tr)
    && (forall q, t :: Causes(g, roots, q, t) ==> Found(tr, t, |q| - 1, q[0]))
    && (forall i, j :: 0 <= i < j < |tr| ==> tr[i].id != tr[j].id)
    && Mirrors(tr, Listed(tr), r.predecessor, r.rootOf)
    && |r.affected| == |tr|
    && (forall v :: v in r.affected <==> v in r.rootOf)
  }

  ghost function RootEntries(queue: seq<StateId>): seq<Entry> {
    seq(|queue|, i requires 0 <= i < |queue| => Entry(queue[i], 0, queue[i], i, queue[i]))
  }

  lemma Start(g: Adj, roots: set<StateId>, queue: seq<StateId>)
    requires Increasing(queue) && forall v :: v in queue <==> v in roots
    ensures Searching(g, roots, RootEntries(queue), 0)
    ensures var self := map v | v in roots :: v; Mirrors(RootEntries(queue), queue, self, self)
  {
    var tr := RootEntries(queue);
    forall i | 0 <= i < |tr| ensures Placed(g, roots, tr, i) { assert queue[i] in queue; }
    forall s | s in roots ensures Found(tr, s, 0, s) {
      var i :| 0 <= i < |queue| && queue[i] == s;
      assert tr[i].id == s;
    }
    assert forall i :: 0 <= i < |queue| ==> queue[i] in queue;
  }

  lemma FoundSnoc(tr: seq<Entry>, e: Entry, v: StateId, d: nat, r: StateId)
    requires Found(tr, v, d, r)
    ensures Found(tr + [e], v, d, r)
  {
    var j :| 0 <= j < |tr| && tr[j].id == v && Before(tr[j].depth, tr[j].root, d, r);
    assert (tr + [e])[j] == tr[j];
  }

  ghost function ChildEntry(tr: seq<Entry>, h: nat, c: StateId): Entry
    requires h < |tr|
  {
    Entry(c, tr[h].depth + 1, tr[h].root, h, tr[h].id)
  }

  /** A new child goes to the back, one deeper, under the same root. */
  lemma Enqueue(g: Adj, roots: set<StateId>, tr: seq<Entry>, h: nat, c: StateId)
    requires Searching(g, roots, tr, h) && h < |tr| && Arc(g, tr[h].id, c)
    requires forall i :: 0 <= i < |tr| ==> tr[i].id != c
    ensures Searching(g, roots, tr + [ChildEntry(tr, h, c)], h)
    ensures Found(tr + [ChildEntry(tr, h, c)], c, tr[h].depth + 1, tr[h].root)
  {
    var e := ChildEntry(tr, h, c);
    var t1 := tr + [e];
    assert t1[|tr|] == e;
    assert Placed(g, roots, tr, h);
    forall i | 0 <= i < |t1| ensures Placed(g, roots, t1, i) {
      if i < |tr| { assert Placed(g, roots, tr, i); }
    }
    forall i | 0 <= i < h ensures ChildrenFound(g, t1, i) {
      assert ChildrenFound(g, tr, i);
      forall x | Arc(g, t1[i].id, x) ensures Found(t1, x, t1[i].depth + 1, t1[i].root) {
        FoundSnoc(tr, e, x, tr[i].depth + 1, tr[i].root);
      }
    }
    forall s | s in roots ensures Found(t1, s, 0, s) { FoundSnoc(tr, e, s, 0, s); }
  }

  /** A child seen before needs nothing: nothing is keyed beyond the current node's children. */
  lemma AlreadyFound(g: Adj, roots: set<StateId>, tr: seq<Entry>, h: nat, j: nat)
    requires Searching(g, roots, tr, h) && h < |tr| && j < |tr|
    ensures Found(tr, tr[j].id, tr[h].depth + 1, tr[h].root)
  {
  }

  lemma Advance(g: Adj, roots: set<StateId>, tr: seq<Entry>, h: nat)
    requires Searching(g, roots, tr, h) && h < |tr| && ChildrenFound(g, tr, h)
    ensures Searching(g, roots, tr, h + 1)
  {
    if h + 1 < |tr| {
      forall j | 0 <= j < |tr| ensures Before(tr[j].depth, tr[j].root, tr[h + 1].depth + 1, tr[h + 1].root) {
        assert Before(tr[j].depth, tr[j].root, tr[h].depth + 1, tr[h].root);
        assert Before(tr[h].depth, tr[h].root, tr[h + 1].depth, tr[h + 1].root);
      }
    }
  }

  /** By induction along any causal path: its end was found, no later than the path says. */
  lemma {:induction false} CauseFound(g: Adj, roots: set<StateId>, tr: seq<Entry>, q: seq<StateId>, t: StateId)
    requires Searching(g, roots, tr, |tr|) && Causes(g, roots, q, t)
    ensures Found(tr, t, |q| - 1, q[0])
    decreases |q|
  {
    if |q| > 1 {
      var y := q[|q| - 2];
      assert Arc(g, q[|q| - 2], q[|q| - 1]);
      CauseFound(g, roots, tr, q[..|q| - 1], y);
      var i :| 0 <= i < |tr| && tr[i].id == y && Before(tr[i].depth, tr[i].root, |q| - 2, q[0]);
      assert ChildrenFound(g, tr, i);
      var j :| 0 <= j < |tr| && tr[j].id == t && Before(tr[j].depth, tr[j].root, tr[i].depth + 1, tr[i].root);
    }
  }

  // ------------------------------------------------------------------ the search

  method PropagateInvalidation(graph: ProvenanceGraph, roots: seq<InvalidatingSubject>) returns (r: InvalidationResult)
    requires graph.Valid()
    ensures Propagated(graph.children, Subjects(roots), r)
    ensures Increasing(r.affected)
    ensures r.rootReason.Keys == Subjects(roots) && r.rootDetail.Keys == Subjects(roots)
    ensures forall i :: 0 <= i < |roots| && FirstEntry(roots, i) ==>
      r.rootReason[roots[i].subject] == roots[i].reason && r.rootDetail[roots[i].subject] == roots[i].detail
  {
    var rootReason, rootDetail := CollectRoots(roots);
    var predecessor, rootOf, queue := Search(graph, rootReason.Keys);
    r := InvalidationResult(Sorted(Elems(queue)), predecessor, rootOf, rootReason, rootDetail);
    ghost var tr: seq<Entry> :| Mirrors(tr, queue, predecessor, rootOf) &&
      Searching(graph.children, Subjects(roots), tr, |tr|);
    Finish(graph.children, Subjects(roots), r, queue, tr);
  }

  lemma Finish(g: Adj, roots: set<StateId>, r: InvalidationResult, queue: seq<StateId>, tr: seq<Entry>)
    requires Mirrors(tr, queue, r.predecessor, r.rootOf) && Searching(g, roots, tr, |tr|)
    requires r.affected == Sorted(Elems(queue))
    ensures PropagatedBy(g, roots, r, tr)
  {
    forall q, t | Causes(g, roots, q, t) ensures Found(tr, t, |q| - 1, q[0]) { CauseFound(g, roots, tr, q, t); }
    assert Distinct(queue);
    DistinctCount(queue);
    assert queue == Listed(tr);
  }

  method CollectRoots(roots: seq<InvalidatingSubject>)
    returns (rootReason: map<StateId, Reason>, rootDetail: map<StateId, Bytes>)
    ensures rootReason.Keys == Subjects(roots) && rootDetail.Keys == Subjects(roots)
    ensures forall i :: 0 <= i < |roots| && FirstEntry(roots, i) ==>
      rootReason[roots[i].subject] == roots[i].reason && rootDetail[roots[i].subject] == roots[i].detail
  {
    rootReason, rootDetail := map[], map[];
    for i := 0 to |roots|
      invariant rootReason.Keys == Subjects(roots[..i]) && rootDetail.Keys == Subjects(roots[..i])
      invariant FirstKept(roots, rootReason, rootDetail, i)
    {
      SubjectsStep(roots, i);
      FirstKeptNext(roots, rootReason, rootDetail, i);
      if roots[i].subject !in rootReason {
        rootReason := rootReason[roots[i].subject := roots[i].reason];
        rootDetail := rootDetail[roots[i].subject := roots[i].detail];
      }
    }
    assert roots[..|roots|] == roots;
  }

  /** Of the first n entries, the first one for each subject is what the maps hold. */
  ghost predicate FirstKept(roots: seq<InvalidatingSubject>, reason: map<StateId, Reason>,
                            detail: map<StateId, Bytes>, n: nat)
  {
    forall j :: 0 <= j < n <= |roots| && FirstEntry(roots, j) ==>
      && roots[j].subject in reason && reason[roots[j].subject] == roots[j].reason
      && roots[j].subject in detail && detail[roots[j].subject] == roots[j].detail
  }

  lemma FirstKeptNext(roots: seq<InvalidatingSubject>, reason: map<StateId, Reason>,
                      detail: map<StateId, Bytes>, i: nat)
    requires i < |roots| && FirstKept(roots, reason, detail, i)
    requires FirstEntry(roots, i) <==> roots[i].subject !in reason
    ensures roots[i].subject in reason ==> FirstKept(roots, reason, detail, i + 1)
    ensures var e := roots[i];
            e.subject !in reason ==>
              FirstKept(roots, reason[e.subject := e.reason], detail[e.subject := e.detail], i + 1)
  {
  }

  lemma SubjectsStep(roots: seq<InvalidatingSubject>, i: nat)
    requires i < |roots|
    ensures Subjects(roots[..i + 1]) == Subjects(roots[..i]) + {roots[i].subject}
    ensures FirstEntry(roots, i) <==> roots[i].subject !in Subjects(roots[..i])
  {
    var a, b := roots[..i], roots[..i + 1];
    forall s ensures s in Subjects(b) <==> s in Subjects(a) || s == roots[i].subject {
      if s in Subjects(a) { var k :| 0 <= k < i && a[k].subject == s; assert b[k].subject == s; }
      if s == roots[i].subject { assert b[i].subject == s; }
      if s in Subjects(b) { var k :| 0 <= k <= i && b[k].subject == s; if k < i { assert a[k].subject == s; } }
    }
    if roots[i].subject in Subjects(a) { var k :| 0 <= k < i && a[k].subject == roots[i].subject; }
    forall j | 0 <= j < i && roots[j].subject == roots[i].subject ensures roots[i].subject in Subjects(a) {
      assert a[j].subject == roots[i].subject;
    }
  }

  method Search(graph: ProvenanceGraph, roots: set<StateId>)
    returns (pred: map<StateId, StateId>, rootOf: map<StateId, StateId>, queue: seq<StateId>)
    ensures exists tr :: Mirrors(tr, queue, pred, rootOf) && Searching(graph.children, roots, tr, |tr|)
  {
    pred := map v | v in roots :: v;
    rootOf := pred;
    queue := Sorted(roots);
    ghost var tr := RootEntries(queue);
    Start(graph.children, roots, queue);
    ghost var limit := |roots + Range(graph.children)|;
    var head := 0;
    while head < |queue|
      invariant Mirrors(tr, queue, pred, rootOf) && Searching(graph.children, roots, tr, head)
      decreases limit - head
    {
      var next := graph.Children(queue[head]);
      queue, pred, rootOf, tr := Expand(graph.children, roots, queue, head, pred, rootOf, tr, next);
      NoMoreThanAll(graph.children, roots, tr);
      head := head + 1;
    }
  }

  lemma NoMoreThanAll(g: Adj, roots: set<StateId>, tr: seq<Entry>)
    requires Grown(g, roots, tr) && Ordered(tr)
    ensures |tr| <= |roots + Range(g)|
  {
    var ids := Listed(tr);
    assert Distinct(ids);
    DistinctCount(ids);
    forall v | v in ids ensures v in roots + Range(g) {
      var i :| 0 <= i < |ids| && ids[i] == v;
      assert Placed(g, roots, tr, i);
    }
    SubsetSize(Elems(ids), roots + Range(g));
  }

  /** The loop over the children of queue[head], in ascending order. */
  method Expand(ghost g: Adj, ghost roots: set<StateId>, queue0: seq<StateId>, head: nat,
                pred0: map<StateId, StateId>, rootOf0: map<StateId, StateId>, ghost tr0: seq<Entry>, next: seq<StateId>)
    returns (queue: seq<StateId>, pred: map<StateId, StateId>, rootOf: map<StateId, StateId>, ghost tr: seq<Entry>)
    requires Mirrors(tr0, queue0, pred0, rootOf0) && Searching(g, roots, tr0, head) && head < |queue0|
    requires forall c :: c in next <==> Arc(g, queue0[head], c)
    ensures Mirrors(tr, queue, pred, rootOf) && Searching(g, roots, tr, head + 1)
  {
    queue, pred, rootOf, tr := queue0, pred0, rootOf0, tr0;
    var cur := queue[head];
    var curRoot := rootOf[cur];
    for i := 0 to |next|
      invariant head < |tr| && tr[head] == tr0[head]
      invariant Mirrors(tr, queue, pred, rootOf) && Searching(g, roots, tr, head)
      invariant forall k :: 0 <= k < i ==> Found(tr, next[k], tr[head].depth + 1, tr[head].root)
    {
      var child := next[i];
      if child !in pred {
        Enqueue(g, roots, tr, head, child);
        ghost var e := ChildEntry(tr, head, child);
        forall k | 0 <= k < i ensures Found(tr + [e], next[k], tr[head].depth + 1, tr[head].root) {
          FoundSnoc(tr, e, next[k], tr[head].depth + 1, tr[head].root);
        }
        MirrorsSnoc(tr, queue, pred, rootOf, e);
        tr := tr + [e];
        pred := pred[child := cur];
        rootOf := rootOf[child := curRoot];
        queue := queue + [child];
      } else {
        ghost var j :| 0 <= j < |queue| && queue[j] == child;
        AlreadyFound(g, roots, tr, head, j);
      }
    }
    Advance(g, roots, tr, head);
  }

  lemma MirrorsSnoc(tr: seq<Entry>, queue: seq<StateId>, pred: map<StateId, StateId>, rootOf: map<StateId, StateId>,
                    e: Entry)
    requires Mirrors(tr, queue, pred, rootOf) && e.id !in pred
    ensures Mirrors(tr + [e], queue + [e.id], pred[e.id := e.via], rootOf[e.id := e.root])
  {
    var t1, q1 := tr + [e], queue + [e.id];
    assert t1[|tr|] == e && q1[|queue|] == e.id;
    forall v | v in pred[e.id := e.via] ensures v in q1 {
      if v in pred { assert v in queue; }
    }
  }

  // -------------------------------------------------------------- reading a result

  /** contains(): binary search in the sorted list of affected nodes. */
  method Contains(r: InvalidationResult, id: StateId) returns (b: bool)
    requires Increasing(r.affected)
    ensures b <==> id in r.affected
  {
    var lo, hi := 0, |r.affected|;
    while lo < hi
      invariant 0 <= lo <= hi <= |r.affected|
      invariant forall i :: 0 <= i < |r.affected| && r.affected[i] == id ==> lo <= i < hi
    {
      var mid := (lo + hi) / 2;
      if r.affected[mid] < id { lo := mid + 1; }
      else if id < r.affected[mid] { hi := mid; }
      else { return true; }
    }
    b := false;
  }

  /** The path the history describes, root first. */
  ghost function TracePath(g: Adj, roots: set<StateId>, tr: seq<Entry>, i: nat): seq<StateId>
    requires Grown(g, roots, tr) && i < |tr|
  {
    assert Placed(g, roots, tr, i);
    if tr[i].from == i then [tr[i].id] else TracePath(g, roots, tr, tr[i].from) + [tr[i].id]
  }

  lemma {:induction false} TracePathCauses(g: Adj, roots: set<StateId>, tr: seq<Entry>, i: nat)
    requires Grown(g, roots, tr) && i < |tr|
    ensures Causes(g, roots, TracePath(g, roots, tr, i), tr[i].id)
    ensures |TracePath(g, roots, tr, i)| == tr[i].depth + 1 && TracePath(g, roots, tr, i)[0] == tr[i].root
  {
    assert Placed(g, roots, tr, i);
    if tr[i].from != i {
      TracePathCauses(g, roots, tr, tr[i].from);
      var p, w := TracePath(g, roots, tr, tr[i].from), TracePath(g, roots, tr, i);
      assert w == p + [tr[i].id];
      forall k | 0 <= k < |w| - 1 ensures Arc(g, w[k], w[k + 1]) {
        if k < |p| - 1 { assert Arc(g, p[k], p[k + 1]); }
      }
    }
  }

  /** Affected are exactly the roots and everything reached from them. */
  lemma AffectedIffReached(g: Adj, roots: set<StateId>, r: InvalidationResult, t: StateId)
    requires Propagated(g, roots, r)
    ensures t in r.affected <==> exists s :: s in roots && ReachesOrIs(g, s, t)
    ensures t in r.affected <==> t in r.rootOf
  {
    var tr: seq<Entry> :| PropagatedBy(g, roots, r, tr);
    var ids := Listed(tr);
    assert forall i :: 0 <= i < |tr| ==> ids[i] in r.predecessor;
    if t in r.affected {
      assert t in ids;
      var i :| 0 <= i < |ids| && ids[i] == t;
      TracePathCauses(g, roots, tr, i);
      WalkIsReach(g, TracePath(g, roots, tr, i));
      assert tr[i].root in roots && ReachesOrIs(g, tr[i].root, t);
    }
    if s :| s in roots && ReachesOrIs(g, s, t) {
      ReachIsCause(g, roots, s, t);
      var q :| Causes(g, roots, q, t);
      var j :| 0 <= j < |tr| && tr[j].id == t;
      assert ids[j] == t;
    }
  }

  lemma RootOfIsRoot(g: Adj, roots: set<StateId>, r: InvalidationResult, t: StateId)
    requires Propagated(g, roots, r) && t in r.rootOf
    ensures r.rootOf[t] in roots
  {
    var tr, i := Locate(g, roots, r, t);
    TracePathCauses(g, roots, tr, i);
  }

  lemma ReachIsCause(g: Adj, roots: set<StateId>, s: StateId, t: StateId)
    requires s in roots && ReachesOrIs(g, s, t)
    ensures exists q :: Causes(g, roots, q, t)
  {
    if s == t {
      assert Causes(g, roots, [t], t);
    } else {
      var p :| WalkFromTo(g, p, s, t) && |p| >= 2;
      assert Causes(g, roots, p, t);
    }
  }

  /** path_to(): walk back along predecessors.  On a propagated result the guard never
      fires, and the path is the nearest cause. */
  method PathTo(r: InvalidationResult, target: StateId, ghost g: Adj, ghost roots: set<StateId>)
    returns (path: seq<StateId>)
    ensures path != [] && path[|path| - 1] == target
    ensures target !in r.predecessor ==> path == [target]
    ensures Propagated(g, roots, r) && target in r.rootOf ==>
              NearestCause(g, roots, path, target) && path[0] == r.rootOf[target]
  {
    ghost var good := Propagated(g, roots, r) && target in r.rootOf;
    ghost var tr: seq<Entry>, at: nat, start: nat, whole: seq<StateId> := [], 0, 0, [];
    if good {
      tr, start := Locate(g, roots, r, target);
      TraceIsNearest(g, roots, r, tr, start);
      at, whole := start, TracePath(g, roots, tr, start);
    }
    path := [];
    var cur := target;
    var guard := 0;
    while true
      invariant guard <= |r.affected| + 1
      invariant path == [] ==> cur == target
      invariant path != [] ==> path[0] == target && target in r.predecessor
      invariant good ==> Tracing(g, roots, r, tr, start, at, cur, path) && guard == tr[start].depth - tr[at].depth
      decreases |r.affected| + 1 - guard
    {
      if good {
        TraceStep(g, roots, r, tr, start, at, cur, path);
        assert cur in r.predecessor;
      }
      path := path + [cur];
      if cur !in r.predecessor { break; }
      if r.predecessor[cur] == cur {
        assert good ==> Backwards(path) == whole;
        break;
      }
      cur := r.predecessor[cur];
      guard := guard + 1;
      if good {
        at := tr[at].from;
        assert guard <= |r.affected|;
      }
      if guard > |r.affected| + 1 { break; }
    }
    assert good ==> Backwards(path) == whole;
    path := Backwards(path);
  }

  lemma Locate(g: Adj, roots: set<StateId>, r: InvalidationResult, t: StateId) returns (tr: seq<Entry>, i: nat)
    requires Propagated(g, roots, r) && t in r.rootOf
    ensures PropagatedBy(g, roots, r, tr) && i < |tr| && tr[i].id == t && r.rootOf[t] == tr[i].root
  {
    tr :| PropagatedBy(g, roots, r, tr);
    var ids := Listed(tr);
    assert t in ids;
    i :| 0 <= i < |ids| && ids[i] == t;
    assert ids[i] == tr[i].id;
  }

  /** The walk so far, and what the history says is still to come, make the whole path. */
  ghost predicate Tracing(g: Adj, roots: set<StateId>, r: InvalidationResult, tr: seq<Entry>,
                          start: nat, at: nat, cur: StateId, path: seq<StateId>) {
    && PropagatedBy(g, roots, r, tr) && start < |tr| && at < |tr| && tr[at].id == cur
    && tr[at].depth <= tr[start].depth
    && TracePath(g, roots, tr, at) + Backwards(path) == TracePath(g, roots, tr, start)
  }

  lemma TraceStep(g: Adj, roots: set<StateId>, r: InvalidationResult, tr: seq<Entry>,
                  start: nat, at: nat, cur: StateId, path: seq<StateId>)
    requires Tracing(g, roots, r, tr, start, at, cur, path)
    ensures cur in r.predecessor && tr[start].depth < |r.affected|
    ensures r.predecessor[cur] == cur ==> Backwards(path + [cur]) == TracePath(g, roots, tr, start)
    ensures r.predecessor[cur] != cur ==> tr[at].from < |tr| && tr[at].depth == tr[tr[at].from].depth + 1
    ensures r.predecessor[cur] != cur ==>
              Tracing(g, roots, r, tr, start, tr[at].from, r.predecessor[cur], path + [cur])
  {
    BackwardsSnoc(path, cur);
    assert Placed(g, roots, tr, at) && Placed(g, roots, tr, start);
    var ids := Listed(tr);
    assert ids[at] in r.predecessor && r.predecessor[ids[at]] == tr[at].via;
    if r.predecessor[cur] != cur {
      var p := TracePath(g, roots, tr, tr[at].from);
      assert (p + [cur]) + Backwards(path) == p + ([cur] + Backwards(path));
    } else {
      assert tr[at].from == at;
    }
  }

  lemma BackwardsSnoc(p: seq<StateId>, x: StateId)
    ensures Backwards(p + [x]) == [x] + Backwards(p)
  {
    var a, b := Backwards(p + [x]), [x] + Backwards(p);
    assert |a| == |b|;
    forall i | 0 <= i < |a| ensures a[i] == b[i] { }
  }

  lemma TraceIsNearest(g: Adj, roots: set<StateId>, r: InvalidationResult, tr: seq<Entry>, i: nat)
    requires PropagatedBy(g, roots, r, tr) && i < |tr|
    ensures NearestCause(g, roots, TracePath(g, roots, tr, i), tr[i].id)
    ensures TracePath(g, roots, tr, i)[0] == tr[i].root
  {
    TracePathCauses(g, roots, tr, i);
    forall q | Causes(g, roots, q, tr[i].id) ensures Before(tr[i].depth + 1, tr[i].root, |q|, q[0]) {
      assert Found(tr, tr[i].id, |q| - 1, q[0]);
    }
  }

  /** chain_for(): root, reason, detail and path of one target. */
  method ChainFor(r: InvalidationResult, target: StateId, ghost g: Adj, ghost roots: set<StateId>)
    returns (ch: InvalidationChain)
    ensures target !in r.rootOf ==> ch.root == target && ch.path == []
    ensures target in r.rootOf ==> ch.root == r.rootOf[target]
    ensures target in r.rootOf ==>
              ch.reason == (if ch.root in r.rootReason then r.rootReason[ch.root] else UnknownReason)
    ensures target in r.rootOf ==> ch.detail == (if ch.root in r.rootDetail then r.rootDetail[ch.root] else [])
    ensures target in r.rootOf && Propagated(g, roots, r) ==>
              NearestCause(g, roots, ch.path, target) && ch.path[0] == ch.root
  {
    if target !in r.rootOf {
      return InvalidationChain(target, UnknownReason, [], []);
    }
    var root := r.rootOf[target];
    var path := PathTo(r, target, g, roots);
    ch := InvalidationChain(root,
                            if root in r.rootReason then r.rootReason[root] else UnknownReason,
                            if root in r.rootDetail then r.rootDetail[root] else [],
                            path);
  }
}
