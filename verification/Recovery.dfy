/** Restoring a snapshot: when it is refused, when it loses records, and that a store's
    own snapshot rebuilds the store. */
module Recovery {
  import opened Ids
  import opened Orders
  import opened Digraph
  import opened Records
  import opened Registry
  import Kahn

  // ------------------------------------------------------------ lists and their maps

  ghost predicate DistinctSubjects(rs: seq<RecordData>) {
    forall i, j :: 0 <= i < j < |rs| ==> rs[i].Subject() != rs[j].Subject()
  }

  ghost predicate DistinctProvenance(rs: seq<RecordData>) {
    forall i, j :: 0 <= i < j < |rs| ==> rs[i].Provenance() != rs[j].Provenance()
  }

  lemma {:induction false} ByIdHolds(rs: seq<RecordData>)
    ensures forall s :: s in ById(rs) ==> ById(rs)[s].Subject() == s && ById(rs)[s] in rs
    ensures forall i :: 0 <= i < |rs| ==> rs[i].Subject() in ById(rs)
  {
    if rs != [] {
      var p, d := rs[..|rs| - 1], rs[|rs| - 1];
      assert rs == p + [d];
      ByIdHolds(p);
    }
  }

  lemma {:induction false} ByIdCounts(rs: seq<RecordData>)
    ensures |ById(rs)| <= |rs|
    ensures |ById(rs)| == |rs| <==> DistinctSubjects(rs)
  {
    if rs != [] {
      var p, d := rs[..|rs| - 1], rs[|rs| - 1];
      SplitAt(rs, |rs| - 1);
      ByIdCounts(p);
      DistinctSnoc(p, d);
      assert ById(rs).Keys == ById(p).Keys + {d.Subject()};
    }
  }

  lemma DistinctSnoc(p: seq<RecordData>, d: RecordData)
    ensures DistinctSubjects(p + [d]) <==> DistinctSubjects(p) && d.Subject() !in ById(p)
  {
    var rs := p + [d];
    ByIdHolds(p);
    if d.Subject() in ById(p) {
      var i :| 0 <= i < |p| && p[i] == ById(p)[d.Subject()];
      assert rs[i].Subject() == rs[|p|].Subject();
    }
    if DistinctSubjects(rs) {
      forall i, j | 0 <= i < j < |p| ensures p[i].Subject() != p[j].Subject() {
        assert rs[i] == p[i] && rs[j] == p[j];
      }
    }
  }

  lemma {:induction false} ByIdFinds(rs: seq<RecordData>)
    requires DistinctSubjects(rs)
    ensures forall i :: 0 <= i < |rs| ==> rs[i].Subject() in ById(rs) && ById(rs)[rs[i].Subject()] == rs[i]
  {
    if rs != [] {
      var p, d := rs[..|rs| - 1], rs[|rs| - 1];
      SplitAt(rs, |rs| - 1);
      DistinctSnoc(p, d);
      ByIdFinds(p);
      forall i | 0 <= i < |rs| ensures rs[i].Subject() in ById(rs) && ById(rs)[rs[i].Subject()] == rs[i] {
        if i < |p| { assert p[i] == rs[i] && p[i].Subject() in ById(p); }
      }
    }
  }

  ghost predicate Filed(rs: seq<RecordData>, p: ProvenanceId, x: StateId) {
    exists i :: 0 <= i < |rs| && rs[i].Provenance() == p && rs[i].Subject() == x
  }

  lemma {:induction false} ByProvenanceHolds(rs: seq<RecordData>)
    ensures forall p :: p in ByProvenance(rs) ==> Filed(rs, p, ByProvenance(rs)[p])
    ensures forall i :: 0 <= i < |rs| ==> rs[i].Provenance() in ByProvenance(rs)
  {
    if rs != [] {
      var q, d := rs[..|rs| - 1], rs[|rs| - 1];
      assert rs == q + [d];
      ByProvenanceHolds(q);
      forall p | p in ByProvenance(rs) ensures Filed(rs, p, ByProvenance(rs)[p]) {
        if p == d.Provenance() {
          assert rs[|rs| - 1].Provenance() == p && rs[|rs| - 1].Subject() == ByProvenance(rs)[p];
        } else {
          assert Filed(q, p, ByProvenance(q)[p]);
          var i :| 0 <= i < |q| && q[i].Provenance() == p && q[i].Subject() == ByProvenance(q)[p];
          assert rs[i] == q[i];
        }
      }
    }
  }

  ghost predicate UniqueProvenance(rs: RecordMap) {
    forall s, t :: s in rs && t in rs && rs[s].Provenance() == rs[t].Provenance() ==> s == t
  }

  ghost predicate AllResolve(rs: RecordMap) {
    forall s :: s in rs ==> Resolves(rs, rs[s])
  }

  /** With unique ids, the sort sees exactly the parents an insertion would resolve. */
  lemma SortMapIsParentMap(l: seq<RecordData>)
    requires DistinctSubjects(l) && UniqueProvenance(ById(l))
    ensures SortMap(l) == ParentMap(ById(l))
  {
    var rs, prov := ById(l), ByProvenance(l);
    forall s | s in rs ensures SortParents(prov, rs[s]) == ParentSet(rs, rs[s]) {
      forall x ensures x in SortParents(prov, rs[s]) <==> x in ParentSet(rs, rs[s]) {
        ProvenanceAgrees(l, rs[s].references.parentProvenance, x);
      }
    }
  }

  lemma ProvenanceAgrees(l: seq<RecordData>, ps: seq<ProvenanceId>, x: StateId)
    requires DistinctSubjects(l) && UniqueProvenance(ById(l))
    ensures (exists p :: p in ps && p in ByProvenance(l) && ByProvenance(l)[p] == x) <==>
            (x in ById(l) && ById(l)[x].Provenance() in ps)
  {
    var rs, prov := ById(l), ByProvenance(l);
    if p :| p in ps && p in prov && prov[p] == x {
      FiledUnderId(l, p);
    }
    if x in rs && rs[x].Provenance() in ps {
      var p := rs[x].Provenance();
      ByIdHolds(l);
      var k :| 0 <= k < |l| && l[k] == rs[x];
      FiledUnderId(l, p);
      ByProvenanceHolds(l);
      assert l[k].Provenance() in prov;
    }
  }

  lemma FiledUnderId(l: seq<RecordData>, p: ProvenanceId)
    requires DistinctSubjects(l)
    ensures p in ByProvenance(l) ==>
              ByProvenance(l)[p] in ById(l) && ById(l)[ByProvenance(l)[p]].Provenance() == p
  {
    ByProvenanceHolds(l);
    if p in ByProvenance(l) {
      var x := ByProvenance(l)[p];
      assert Filed(l, p, x);
      var i :| 0 <= i < |l| && l[i].Provenance() == p && l[i].Subject() == x;
      ByIdFinds(l);
    }
  }

  // ------------------------------------------------------------------- when refused

  /** A restore is refused exactly when subject ids repeat, or some record is on, or
      downstream of, a derivation cycle or an input state that is not there. */
  lemma RefusedIff(s: Snapshot)
    ensures Restore(s).1 == CycleRefused <==>
            !DistinctSubjects(s.records) || exists x :: x in ById(s.records) && Kahn.Doomed(SortMap(s.records), x)
  {
    var g := SortMap(s.records);
    var order := Kahn.Order(g);
    ByIdCounts(s.records);
    Kahn.OrderIsPartial(g);
    DistinctCount(order);
    assert g.Keys == ById(s.records).Keys;
    SubsetSize(Elems(order), g.Keys);
    forall x | x in g ensures x !in order <==> Kahn.Doomed(g, x) { Kahn.LeftOutIffDoomed(g, x); }
    if Elems(order) == g.Keys {
      forall x | x in g ensures !Kahn.Doomed(g, x) { assert x in Elems(order); }
    } else {
      var x :| x in g && x !in order;
    }
  }

  // ------------------------------------------------------------------ the insertions

  ghost function Restrict(rs: RecordMap, keep: set<StateId>): RecordMap {
    map s | s in rs && s in keep :: rs[s]
  }

  ghost function WorkersOf(rs: RecordMap): set<WorkerId> {
    set s | s in rs && rs[s].fencing.workerId != 0 :: rs[s].fencing.workerId
  }

  /** Records filed under their own ids, uniquely numbered, with resolving references. */
  ghost predicate GoodSet(rs: RecordMap) {
    && UniqueProvenance(rs) && AllResolve(rs)
    && forall s :: s in rs ==> rs[s].Subject() == s
  }

  /** Once its parents are in, the next record of a good set is accepted. */
  lemma NextIsAccepted(rs: RecordMap, keep: set<StateId>, st: State, n: StateId)
    requires GoodSet(rs) && st.records == Restrict(rs, keep) && n in rs && n !in keep
    requires ParentSet(rs, rs[n]) <= keep
    ensures InsertOutcome(st, rs[n]) == if n == 0 then Threw else Published(rs[n])
  {
    var d := rs[n];
    forall s | s in st.records ensures st.records[s].Provenance() != d.Provenance() { assert rs[s] == st.records[s]; }
    assert Resolves(rs, d);
    forall s | s in d.references.inputStates ensures s in st.records { assert s in ParentSet(rs, d); }
    forall p | p in d.references.parentProvenance ensures p in ProvenanceIds(st.records) {
      var s :| s in rs && rs[s].Provenance() == p;
      assert s in ParentSet(rs, d);
      assert st.records[s].Provenance() == p;
    }
  }

  ghost predicate FilledWith(st0: State, rs: RecordMap, st: State) {
    st.records == rs && st.authority == st0.authority && st.workers == st0.workers + WorkersOf(rs)
  }

  lemma RefillSnoc(st: State, rs: RecordMap, o: seq<StateId>, n: StateId)
    requires n in rs && forall x :: x in o ==> x in rs
    ensures Refill(st, rs, o + [n]) == RefillOne(Refill(st, rs, o).0, Refill(st, rs, o).1, rs[n])
  {
    assert (o + [n])[..|o + [n]| - 1] == o;
  }

  ghost predicate Filled(st: State, rs: RecordMap, order: seq<StateId>)
    requires forall x :: x in order ==> x in rs
  {
    var r := Refill(st, rs, order);
    r.1 && FilledWith(st, Restrict(rs, Elems(order)), r.0)
  }

  lemma FilledSnoc(st: State, rs: RecordMap, o: seq<StateId>, n: StateId)
    requires GoodSet(rs) && n in rs && n !in o && n != 0 && forall x :: x in o ==> x in rs
    requires ParentSet(rs, rs[n]) <= Elems(o) && Filled(st, rs, o)
    ensures Filled(st, rs, o + [n])
  {
    NextIsAccepted(rs, Elems(o), Refill(st, rs, o).0, n);
    RestrictGrows(rs, o, n);
    RefillSnoc(st, rs, o, n);
  }

  /** Inserting a good set in a parents-first order accepts every record. */
  lemma {:induction false} RefillAcceptsAll(st: State, rs: RecordMap, order: seq<StateId>)
    requires GoodSet(rs) && st.records == map[] && 0 !in order
    requires Distinct(order) && Kahn.ParentsFirst(ParentMap(rs), order)
    requires forall x :: x in order ==> x in rs
    ensures Filled(st, rs, order)
    decreases |order|
  {
    if order != [] {
      var k := |order| - 1;
      PrefixParentsFirst(ParentMap(rs), order, k);
      SplitAt(order, k);
      RefillAcceptsAll(st, rs, order[..k]);
      FilledSnoc(st, rs, order[..k], order[k]);
    } else {
      assert Restrict(rs, {}) == map[] && Elems(order) == {};
    }
  }

  lemma PrefixParentsFirst(g: Adj, order: seq<StateId>, k: nat)
    requires Distinct(order) && Kahn.ParentsFirst(g, order) && k <= |order|
    ensures Distinct(order[..k]) && Kahn.ParentsFirst(g, order[..k])
    ensures k < |order| ==> order[k] !in order[..k] && order[k] in g && g[order[k]] <= Elems(order[..k])
  {
    forall i | 0 <= i < k ensures order[..k][i] in g && g[order[..k][i]] <= Elems(order[..k][..i]) {
      assert order[..k][..i] == order[..i];
    }
  }

  lemma RestrictGrows(rs: RecordMap, o: seq<StateId>, n: StateId)
    requires n in rs
    ensures Restrict(rs, Elems(o + [n])) == Restrict(rs, Elems(o))[n := rs[n]]
    ensures WorkersOf(Restrict(rs, Elems(o + [n]))) ==
            WorkersOf(Restrict(rs, Elems(o))) + if rs[n].fencing.workerId != 0 then {rs[n].fencing.workerId} else {}
  {
    assert Elems(o + [n]) == Elems(o) + {n};
    var a, b := Restrict(rs, Elems(o)), Restrict(rs, Elems(o + [n]));
    forall w | w in WorkersOf(a) ensures w in WorkersOf(b) {
      var s :| s in a && a[s].fencing.workerId == w;
      assert b[s] == a[s];
    }
    if rs[n].fencing.workerId != 0 { assert b[n] == rs[n]; }
    forall w | w in WorkersOf(b) ensures w in WorkersOf(a) || w == rs[n].fencing.workerId {
      var s :| s in b && b[s].fencing.workerId == w;
      if s != n { assert a[s] == b[s]; }
    }
  }

  /** Whatever is inserted, in whatever order, the outcome is sound. */
  lemma {:induction false} RefillIsSound(st: State, rs: RecordMap, order: seq<StateId>)
    requires Sound(st.records) && forall x :: x in order ==> x in rs
    ensures Sound(Refill(st, rs, order).0.records)
    decreases |order|
  {
    if order != [] {
      var o, n := order[..|order| - 1], order[|order| - 1];
      assert order == o + [n];
      RefillIsSound(st, rs, o);
      RefillSnoc(st, rs, o, n);
      var st1 := Refill(st, rs, o).0;
      if InsertOutcome(st1, rs[n]).Published? { AdmitKeepsSound(st1.records, rs[n]); }
    }
  }

  lemma EmptyIsSound()
    ensures Sound(map[])
  {
    forall x ensures !Reaches(ParentMap(map[]), x, x) {
      if Reaches(ParentMap(map[]), x, x) { var y := FirstArc(ParentMap(map[]), x, x); }
    }
  }

  lemma NotRefused(s: Snapshot)
    requires |RestoreOrder(s.records)| == |s.records|
    ensures DistinctSubjects(s.records) && Elems(Kahn.Order(SortMap(s.records))) == ById(s.records).Keys
    ensures Distinct(Kahn.Order(SortMap(s.records))) &&
            Kahn.ParentsFirst(SortMap(s.records), Kahn.Order(SortMap(s.records)))
  {
    var g := SortMap(s.records);
    var order := Kahn.Order(g);
    ByIdCounts(s.records);
    Kahn.OrderIsPartial(g);
    DistinctCount(order);
    assert g.Keys == ById(s.records).Keys;
    SubsetSize(Elems(order), g.Keys);
  }

  /** A good set without subject id 0 is restored whole. */
  lemma GoodSetRestored(s: Snapshot)
    requires |RestoreOrder(s.records)| == |s.records| && GoodSet(ById(s.records)) && 0 !in ById(s.records)
    ensures Restore(s) == (State(ById(s.records), s.status, Cleared(s).authority,
                                 Cleared(s).workers + WorkersOf(ById(s.records))), Restored)
  {
    var rs, order := ById(s.records), RestoreOrder(s.records);
    NotRefused(s);
    SortMapIsParentMap(s.records);
    RefillAcceptsAll(Cleared(s), rs, order);
    RestrictAll(rs, Elems(order));
  }

  lemma RestrictAll(rs: RecordMap, keep: set<StateId>)
    requires rs.Keys <= keep
    ensures Restrict(rs, keep) == rs
  {
  }

  // --------------------------------------------- the same, one loop iteration at a time

  lemma KeyedSnoc(l: seq<RecordData>, i: nat)
    requires i < |l|
    ensures ById(l[..i + 1]) == ById(l[..i])[l[i].Subject() := l[i]]
    ensures ByProvenance(l[..i + 1]) == ByProvenance(l[..i])[l[i].Provenance() := l[i].Subject()]
    ensures forall prov: map<ProvenanceId, StateId> :: SortParentsMap(prov, ById(l[..i + 1])) ==
              SortParentsMap(prov, ById(l[..i]))[l[i].Subject() := SortParents(prov, l[i])]
  {
    assert l[..i + 1][..i] == l[..i];
  }

  function SortParentsMap(prov: map<ProvenanceId, StateId>, rs: RecordMap): Adj {
    map s | s in rs :: SortParents(prov, rs[s])
  }

  ghost predicate RefilledTo(st0: State, rs: RecordMap, ids: seq<StateId>, i: nat, st: State, ok: bool)
    requires i <= |ids| && forall x :: x in ids ==> x in rs
  {
    Refill(st0, rs, ids[..i]) == (st, ok)
  }

  lemma RefillNext(st0: State, rs: RecordMap, ids: seq<StateId>, i: nat, st: State)
    requires i < |ids| && (forall x :: x in ids ==> x in rs) && RefilledTo(st0, rs, ids, i, st, true)
    ensures ids[i] in rs
    ensures RefilledTo(st0, rs, ids, i + 1, Insert(st, rs[ids[i]]), !InsertOutcome(st, rs[ids[i]]).Threw?)
  {
    SplitAt(ids, i);
    RefillSnoc(st0, rs, ids[..i], ids[i]);
  }

  /** Subject id 0 makes the graph throw, since nothing in a good set is refused before it. */
  lemma ZeroThrows(s: Snapshot)
    requires |RestoreOrder(s.records)| == |s.records| && GoodSet(ById(s.records)) && 0 in ById(s.records)
    ensures Restore(s).1 == GraphThrew
  {
    var rs, order := ById(s.records), RestoreOrder(s.records);
    NotRefused(s);
    SortMapIsParentMap(s.records);
    assert 0 in Elems(order);
    var k :| 0 <= k < |order| && order[k] == 0;
    PrefixParentsFirst(ParentMap(rs), order, k);
    RefillAcceptsAll(Cleared(s), rs, order[..k]);
    ZeroThrowsNext(Cleared(s), rs, order[..k]);
    SplitAt(order, k);
    ThrownStays(Cleared(s), rs, order, k + 1);
  }

  lemma ZeroThrowsNext(st: State, rs: RecordMap, o: seq<StateId>)
    requires GoodSet(rs) && 0 in rs && 0 !in o && forall x :: x in o ==> x in rs
    requires ParentSet(rs, rs[0]) <= Elems(o) && Filled(st, rs, o)
    ensures !Refill(st, rs, o + [0]).1
  {
    NextIsAccepted(rs, Elems(o), Refill(st, rs, o).0, 0);
    RefillSnoc(st, rs, o, 0);
  }

  lemma {:induction false} ThrownStays(st: State, rs: RecordMap, order: seq<StateId>, k: nat)
    requires forall x :: x in order ==> x in rs
    requires k <= |order| && !Refill(st, rs, order[..k]).1
    ensures Refill(st, rs, order) == Refill(st, rs, order[..k])
    decreases |order| - k
  {
    if k == |order| {
      assert order[..k] == order;
    } else {
      SplitAt(order, k);
      RefillSnoc(st, rs, order[..k], order[k]);
      ThrownStays(st, rs, order, k + 1);
    }
  }

  /** A restore that goes through keeps every record exactly when provenance ids are
      unique and every reference resolves; otherwise records are dropped silently. */
  lemma NothingLostIff(s: Snapshot)
    requires Restore(s).1 == Restored
    ensures Restore(s).0.records == ById(s.records) <==>
            UniqueProvenance(ById(s.records)) && AllResolve(ById(s.records))
  {
    var rs := ById(s.records);
    ByIdHolds(s.records);
    if UniqueProvenance(rs) && AllResolve(rs) {
      if 0 in rs { ZeroThrows(s); } else { GoodSetRestored(s); }
    }
    if Restore(s).0.records == rs {
      EmptyIsSound();
      RefillIsSound(Cleared(s), rs, RestoreOrder(s.records));
    }
  }

  /** The same from what a caller can check beforehand: a snapshot is restored whole exactly
      when subject ids are distinct and not 0, no record is on or downstream of a cycle or a
      missing input state, provenance ids are unique and every reference resolves. */
  lemma RestoredWholeIff(s: Snapshot)
    ensures Restore(s).1 == Restored && Restore(s).0.records == ById(s.records) <==>
            && DistinctSubjects(s.records) && 0 !in ById(s.records)
            && (forall x :: x in ById(s.records) ==> !Kahn.Doomed(SortMap(s.records), x))
            && UniqueProvenance(ById(s.records)) && AllResolve(ById(s.records))
  {
    RefusedIff(s);
    if Restore(s).1 != CycleRefused && UniqueProvenance(ById(s.records)) && AllResolve(ById(s.records)) {
      ByIdHolds(s.records);
      if 0 in ById(s.records) { ZeroThrows(s); } else { GoodSetRestored(s); }
    }
    if Restore(s).1 == Restored { NothingLostIff(s); }
  }

  // -------------------------------------------------------- what a lossy restore keeps

  ghost predicate Whole(rs: RecordMap, y: StateId) {
    y in rs && Resolves(rs, rs[y])
  }

  /** x and everything it derives from is there, with nothing unresolved. */
  ghost predicate Kept(rs: RecordMap, x: StateId) {
    forall y :: ReachesOrIs(ParentMap(rs), x, y) ==> Whole(rs, y)
  }

  lemma KeptStep(rs: RecordMap, n: StateId)
    requires n in rs
    ensures Kept(rs, n) <==> Resolves(rs, rs[n]) && forall p :: p in ParentSet(rs, rs[n]) ==> Kept(rs, p)
  {
    var g := ParentMap(rs);
    if Kept(rs, n) {
      assert ReachesOrIs(g, n, n);
      forall p | p in ParentSet(rs, rs[n]) ensures Kept(rs, p) {
        forall y | ReachesOrIs(g, p, y) ensures Whole(rs, y) { ArcThenReach(g, n, p, y); }
      }
    }
    if Resolves(rs, rs[n]) && forall p :: p in ParentSet(rs, rs[n]) ==> Kept(rs, p) {
      forall y | ReachesOrIs(g, n, y) ensures Whole(rs, y) {
        if y != n { var p := FirstArc(g, n, y); }
      }
    }
  }

  /** Of these ids, those that are kept. */
  ghost function KeptOf(rs: RecordMap, ids: set<StateId>): set<StateId> {
    set x | x in ids && Kept(rs, x)
  }

  /** Once its parents have had their turn, a record is accepted exactly if it is kept. */
  lemma NextIsKept(rs: RecordMap, done: set<StateId>, st: State, n: StateId)
    requires UniqueProvenance(rs) && (forall s :: s in rs ==> rs[s].Subject() == s)
    requires st.records == Restrict(rs, KeptOf(rs, done)) && n in rs && n !in done && n != 0
    requires ParentSet(rs, rs[n]) <= done
    ensures InsertOutcome(st, rs[n]).Published? <==> Kept(rs, n)
    ensures !InsertOutcome(st, rs[n]).Threw?
  {
    var d := rs[n];
    KeptStep(rs, n);
    forall s | s in st.records ensures st.records[s].Provenance() != d.Provenance() { assert rs[s] == st.records[s]; }
    if Kept(rs, n) { KeptResolves(rs, done, st.records, d); }
    if Resolves(st.records, d) { ResolvedIsKept(rs, st.records, d, n); }
  }

  lemma KeptResolves(rs: RecordMap, done: set<StateId>, kept: RecordMap, d: RecordData)
    requires kept == Restrict(rs, KeptOf(rs, done)) && ParentSet(rs, d) <= done && Resolves(rs, d)
    requires forall p :: p in ParentSet(rs, d) ==> Kept(rs, p)
    ensures Resolves(kept, d)
  {
    forall s | s in d.references.inputStates ensures s in kept { assert s in ParentSet(rs, d); }
    forall p | p in d.references.parentProvenance ensures p in ProvenanceIds(kept) {
      var s :| s in rs && rs[s].Provenance() == p;
      assert s in ParentSet(rs, d) && kept[s] == rs[s];
    }
  }

  lemma ResolvedIsKept(rs: RecordMap, kept: RecordMap, d: RecordData, n: StateId)
    requires UniqueProvenance(rs) && n in rs && d == rs[n] && Resolves(kept, d)
    requires forall s :: s in kept ==> s in rs && kept[s] == rs[s] && Kept(rs, s)
    ensures Kept(rs, n)
  {
    forall p | p in d.references.parentProvenance ensures p in ProvenanceIds(rs) {
      var s :| s in kept && kept[s].Provenance() == p;
      assert rs[s].Provenance() == p;
    }
    forall p | p in ParentSet(rs, d) ensures Kept(rs, p) {
      if p !in d.references.inputStates {
        var s :| s in kept && kept[s].Provenance() == rs[p].Provenance();
        assert rs[s].Provenance() == rs[p].Provenance();
      }
    }
    KeptStep(rs, n);
  }

  ghost predicate RefilledKept(st: State, rs: RecordMap, order: seq<StateId>)
    requires forall x :: x in order ==> x in rs
  {
    var r := Refill(st, rs, order);
    r.1 && r.0.records == Restrict(rs, KeptOf(rs, Elems(order)))
  }

  lemma KeptGrows(rs: RecordMap, o: seq<StateId>, n: StateId)
    requires n in rs && n !in o
    ensures Restrict(rs, KeptOf(rs, Elems(o + [n]))) ==
            if Kept(rs, n) then Restrict(rs, KeptOf(rs, Elems(o)))[n := rs[n]] else Restrict(rs, KeptOf(rs, Elems(o)))
  {
    assert Elems(o + [n]) == Elems(o) + {n};
  }

  lemma RefilledKeptSnoc(st: State, rs: RecordMap, o: seq<StateId>, n: StateId)
    requires UniqueProvenance(rs) && (forall s :: s in rs ==> rs[s].Subject() == s)
    requires n in rs && n !in o && n != 0 && (forall x :: x in o ==> x in rs)
    requires ParentSet(rs, rs[n]) <= Elems(o) && RefilledKept(st, rs, o)
    ensures RefilledKept(st, rs, o + [n])
  {
    NextIsKept(rs, Elems(o), Refill(st, rs, o).0, n);
    RefillSnoc(st, rs, o, n);
    KeptGrows(rs, o, n);
  }

  lemma {:induction false} RefillKeeps(st: State, rs: RecordMap, order: seq<StateId>)
    requires UniqueProvenance(rs) && (forall s :: s in rs ==> rs[s].Subject() == s)
    requires st.records == map[] && 0 !in order && (forall x :: x in order ==> x in rs)
    requires Distinct(order) && Kahn.ParentsFirst(ParentMap(rs), order)
    ensures RefilledKept(st, rs, order)
    decreases |order|
  {
    if order == [] {
      assert Elems(order) == {} && KeptOf(rs, {}) == {} && Restrict(rs, {}) == map[];
    } else {
      var k := |order| - 1;
      PrefixParentsFirst(ParentMap(rs), order, k);
      SplitAt(order, k);
      RefillKeeps(st, rs, order[..k]);
      RefilledKeptSnoc(st, rs, order[..k], order[k]);
    }
  }

  /** A restore that is not refused keeps, of a snapshot with unique provenance ids, exactly the
      records all of whose ancestry is there and resolves: losses carry over to everything
      derived. */
  lemma RestoreKeepsIff(s: Snapshot)
    requires |RestoreOrder(s.records)| == |s.records|
    requires UniqueProvenance(ById(s.records)) && 0 !in ById(s.records)
    ensures Restore(s).1 == Restored
    ensures var rs := ById(s.records); Restore(s).0.records == Restrict(rs, KeptOf(rs, rs.Keys))
  {
    var rs, order := ById(s.records), RestoreOrder(s.records);
    NotRefused(s);
    ByIdHolds(s.records);
    SortMapIsParentMap(s.records);
    RefillKeeps(Cleared(s), rs, order);
  }

  // ------------------------------------------------------- records lost without a word

  lemma FromNext(g: Adj, done: seq<StateId>, x: StateId)
    requires IsLeast(x, Kahn.Ready(g, Elems(done)))
    ensures Kahn.From(g, done) == Kahn.From(g, done + [x])
  {
  }

  lemma OneNodeOrder(x: StateId)
    ensures Kahn.Order(map[x := {}]) == [x]
  {
    var g: Adj := map[x := {}];
    assert Kahn.Ready(g, Elems([])) == {x};
    FromNext(g, [], x);
    assert [] + [x] == [x] && Kahn.Ready(g, Elems([x])) == {};
  }

  lemma TwoNodeOrder(x: StateId, y: StateId)
    requires x < y
    ensures Kahn.Order(map[x := {}, y := {}]) == [x, y]
  {
    var g: Adj := map[x := {}, y := {}];
    assert Kahn.Ready(g, Elems([])) == {x, y};
    FromNext(g, [], x);
    assert [] + [x] == [x] && Kahn.Ready(g, Elems([x])) == {y};
    FromNext(g, [x], y);
    assert [x] + [y] == [x, y] && Kahn.Ready(g, Elems([x, y])) == {};
  }

  /** A record whose parent record is not in the snapshot is dropped, and the restore still
      reports success. */
  lemma DroppedForMissingParent(d: RecordData, p: ProvenanceId, s: Snapshot)
    requires s.records == [d] && d.references.inputStates == [] && d.references.parentProvenance == [p]
    requires p != d.Provenance()
    ensures Restore(s) == (Cleared(s).(status := s.status), Restored) && Cleared(s).records == map[]
  {
    var n := d.Subject();
    OneRecord(d);
    assert SortParents(ByProvenance([d]), d) == {};
    assert SortMap(s.records) == map[n := {}];
    OneNodeOrder(n);
    RefillSnoc(Cleared(s), ById(s.records), [], n);
    assert [] + [n] == [n];
    assert p !in ProvenanceIds(map[]) && p in d.references.parentProvenance;
  }

  lemma OneRecord(d: RecordData)
    ensures ById([d]) == map[d.Subject() := d] && ByProvenance([d]) == map[d.Provenance() := d.Subject()]
  {
    assert [d][..0] == [];
  }

  /** Of two records with one provenance id, only the one with the smaller subject id is
      kept, and the restore still reports success. */
  lemma DroppedForRepeatedProvenance(d: RecordData, e: RecordData, s: Snapshot)
    requires s.records == [d, e] && 0 < d.Subject() < e.Subject() && d.Provenance() == e.Provenance()
    requires d.references.inputStates == d.references.parentProvenance == []
    requires e.references.inputStates == e.references.parentProvenance == []
    ensures Restore(s).1 == Restored && Restore(s).0.records == map[d.Subject() := d]
  {
    var m, n, rs := d.Subject(), e.Subject(), ById(s.records);
    TwoRecords(d, e);
    assert SortParents(ByProvenance(s.records), d) == {} == SortParents(ByProvenance(s.records), e);
    assert SortMap(s.records) == map[m := {}, n := {}];
    TwoNodeOrder(m, n);
    RefillSnoc(Cleared(s), rs, [], m);
    assert [] + [m] == [m] && Refill(Cleared(s), rs, [m]) == (Admit(Cleared(s), d), true);
    SecondRefused(Cleared(s), d, e);
    RefillSnoc(Cleared(s), rs, [m], n);
    assert [m] + [n] == [m, n];
  }

  lemma SecondRefused(st: State, d: RecordData, e: RecordData)
    requires st.records == map[] && d.Subject() != e.Subject() && d.Provenance() == e.Provenance()
    ensures InsertOutcome(Admit(st, d), e) == Refused(DuplicateProvenance)
  {
    assert Admit(st, d).records[d.Subject()].Provenance() == e.Provenance();
  }

  lemma TwoRecords(d: RecordData, e: RecordData)
    requires d.Subject() != e.Subject()
    ensures ById([d, e]) == map[d.Subject() := d, e.Subject() := e]
  {
    assert [d, e][..1] == [d];
    OneRecord(d);
  }
}
