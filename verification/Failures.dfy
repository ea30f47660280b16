/** Inputs on which the program does less than its documentation says. */
module Failures {
  import opened Ids
  import opened Orders
  import opened Records
  import opened Wire
  import opened RecordCodec
  import opened Registry
  import opened Indexes
  import opened SnapshotCodec
  import opened Durability
  import opened SnapshotFile
  import opened FileIntegrity
  import opened ProvenanceStore
  import F = Fence
  import Digraph
  import Kahn
  import opened Compatibility
  import L = Lifetimes
  import Recovery
  import Runs

  /** A small valid record without references, about subject n. */
  function Sample(n: u64, note: Bytes): RecordData {
    RecordData(
      Identity(n, 1, n, Generic, 1), Production(1, 1, 1, 0, 0, 0), Model(0, 0, [], []),
      Composition(0, 0, [], 0, 0, []), Platform(0, 0, 0, 0, 0, 0, [], [], []), Tensor([], [], []),
      References([], [], [], []), Policy(0, 0, [], []), Fencing(0, 0, 0),
      Classification(Measured, Valid, UnknownReason, UnknownEligibility, note))
  }

  lemma SampleWellFormed(n: u64, note: Bytes)
    requires n != 0
    ensures WellFormed(Sample(n, note))
    ensures Short(note) ==> RecordShort(Sample(n, note))
  {
  }

  // ---------------------------------------------------------- an orphaned overlay row

  lemma NoRecordsRestored(s: Snapshot)
    requires s.records == []
    ensures Restore(s) == (Cleared(s).(status := s.status), Restored)
  {
    var g := SortMap(s.records);
    assert g == map[] && Kahn.Ready(g, Elems([])) == {};
    assert Kahn.Order(g) == [];
  }

  /** After restoring an overlay row without a record and publishing that record with another
      validity, the store still answers with the subject when asked for the old validity. */
  method OrphanedRowMisleads(store: Store, d: RecordData, row: RecordStatus) returns (r: seq<StateId>)
    requires WellFormed(d) && d.references.inputStates == d.references.parentProvenance == []
    requires row.validity != d.classification.validity
    modifies store
    ensures store.Coherent() && d.Subject() in store.records && d.Subject() in store.status
    ensures CurrentValidity(store.status, d.Subject()) != row.validity && d.Subject() in r
  {
    RestoreOrphan(store, d.Subject(), row);
    ghost var before := store.Abs();
    LoneRecordPublished(before, d);
    var published := store.PublishValidated(d);
    r := store.ByValidity(row.validity);
  }

  /** Restore a snapshot with one overlay row and no record. */
  method RestoreOrphan(store: Store, n: StateId, row: RecordStatus)
    modifies store
    ensures fresh(store.graph) && fresh(store.authority) && store.Coherent()
    ensures store.records == map[] && store.status == map[n := row]
    ensures n in Lookup(store.byValidity, row.validity)
  {
    var s := Snapshot([], map[n := row], F.Initial);
    NoRecordsRestored(s);
    var outcome := store.Restore(s);
    assert CurrentValidity(store.status, n) == row.validity;
  }

  lemma LoneRecordPublished(st: State, d: RecordData)
    requires st.records == map[] && WellFormed(d)
    requires d.references.inputStates == d.references.parentProvenance == []
    ensures PublishOutcomeOf(st, d).Published?
  {
    assert !Violates(d, ZeroSubjectId);
  }

  // ------------------------------------------------------- a record lost through a file

  /** A valid record that derives from record 2, and a snapshot of it alone. */
  function Orphan(): RecordData {
    Sample(1, []).(references := References([], [2], [], []))
  }

  function OrphanSnapshot(): Snapshot {
    Snapshot([Orphan()], map[], F.Initial)
  }

  lemma OrphanWellFormed()
    ensures WellFormed(Orphan()) && RecordShort(Orphan())
  {
    SampleWellFormed(1, []);
    forall e ensures !Violates(Orphan(), e) { assert !Violates(Sample(1, []), e); }
  }

  lemma OrphanReferencesSize(t: Bytes)
    ensures |EReferences(Orphan().references, t)| == 24 + |t|
  {
    var r := ERequirements([], t);
    var d := EDependencies([], r);
    var p := EIds([2], d);
    assert Each(E64, [2], d) == E64(2, Each(E64, [2][1..], d)) && Each(E64, [], d) == d;
    assert |p| == 12 + |d|;
    assert |EIds([], p)| == 4 + |p|;
  }

  lemma OrphanSize(t: Bytes)
    ensures |ERecord(Orphan(), t)| <= 1000 + |t|
  {
    var d := Orphan();
    var c := EClassification(d.classification, t);
    var f := EFencing(d.fencing, c);
    var p := EPolicy(d.policy, f);
    var r := EReferences(d.references, p);
    OrphanReferencesSize(p);
    var x := ETensor(d.tensor, r);
    var l := EPlatform(d.platform, x);
    var m := EComposition(d.composition, l);
    var o := EModel(d.model, m);
    var q := EProduction(d.production, o);
    assert |EIdentity(d.identity, q)| <= 200 + |q|;
    assert |q| <= 200 + |o| && |o| <= 200 + |m| && |m| <= 100 + |l| && |l| <= 100 + |x| && |x| <= 20 + |r|;
    assert |p| <= 50 + |f| && |f| == 24 + |c| && |c| <= 20 + |t|;
  }

  lemma AuthoritySize(x: AuthorityImage)
    requires x.boots == []
    ensures |EAuthority(x, [])| <= 200
  {
    var g := EGenerations(x.generations, []);
    assert |g| == 80 && |EBoots(x.boots, g)| == 4 + |g|;
  }

  lemma SingleSize(d: RecordData, t: Bytes)
    ensures |ERecords([d], t)| == 20 + |ERecord(d, t)|
  {
    assert [d][1..] == [];
    assert Each(ERecord, [d], t) == ERecord(d, Each(ERecord, [d][1..], t));
    HeaderSize(1, Each(ERecord, [d], t));
  }

  lemma OrphanTailSize(x: AuthorityImage, t: Bytes)
    requires x.boots == [] && t == EStatuses([], EAuthority(x, []))
    ensures |ERecords([Orphan()], t)| <= MAX_PAYLOAD
  {
    AuthoritySize(x);
    assert |t| == 4 + |EAuthority(x, [])|;
    OrphanSize(t);
    SingleSize(Orphan(), t);
  }

  lemma OrphanSnapshotSize()
    ensures |Encoded(OrphanSnapshot())| <= MAX_PAYLOAD
  {
    var x := ImageOf(F.Initial);
    assert ListOf<RecordStatus>(map[]) == [] && x.boots == [];
    OrphanTailSize(x, EStatuses([], EAuthority(x, [])));
  }

  lemma OrphanWritable()
    ensures Writable(OrphanSnapshot())
    ensures AllWellFormed(OrphanSnapshot().records) && Recovery.DistinctProvenance(OrphanSnapshot().records)
  {
    OrphanWellFormed();
    assert ListOf<RecordStatus>(map[]) == [];
  }

  /** A file that loads without complaint, and whose one record its restore drops without one. */
  lemma LostThroughFile() returns (s: Snapshot)
    ensures Accepted(FileBytes(0, Encoded(s)), s)
    ensures |s.records| == 1 && Restore(s).1 == Restored && Restore(s).0.records == map[]
  {
    s := OrphanSnapshot();
    OrphanLoads(s);
    OrphanDropped(s);
  }

  lemma OrphanLoads(s: Snapshot)
    requires s == OrphanSnapshot()
    ensures Accepted(FileBytes(0, Encoded(s)), s)
  {
    OrphanWritable();
    OrphanSnapshotSize();
    SaveThenLoad(s, s);
  }

  lemma OrphanDropped(s: Snapshot)
    requires s.records == [Orphan()]
    ensures Restore(s).1 == Restored && Restore(s).0.records == map[]
  {
    Recovery.DroppedForMissingParent(Orphan(), 2, s);
  }

  // ------------------------------------------------------------ a restart that goes back

  /** The epoch is rolled after a save: work of the old epoch is rejected, until a restart
      from the save makes it current again. */
  lemma OldEpochRevived()
    ensures var es := [L.Save, L.Work(Runs.AuthorityOp(F.RollEpoch)), L.Restart(0)];
            var rolled := Runs.Step(Empty, Runs.AuthorityOp(F.RollEpoch));
            var sts := [Empty, Empty, rolled, Runs.Recovered(Empty)];
            && L.IsHistory(sts, es)
            && F.Evaluate(sts[2].authority, F.Anonymous(1)) == F.Reject(F.CoordinatorEpoch)
            && F.Evaluate(sts[3].authority, F.Anonymous(1)) == F.Accept
  {
    Runs.EmptyConsistent();
    BackAndForth(Empty, Runs.AuthorityOp(F.RollEpoch), Runs.Step(Empty, Runs.AuthorityOp(F.RollEpoch)));
  }

  /** Whatever is eligible at a save is eligible again after a restart from it, though it has
      been invalidated in between. */
  lemma InvalidationUndone(st: State, x: StateId, reason: Reason, detail: Bytes, q: ReuseRequest)
    requires Runs.Consistent(st) && CheckReuse(st, x, q).eligibility == Eligible
    ensures var es := [L.Save, L.Work(Runs.InvalidateOp(x, reason, detail)), L.Restart(0)];
            var dead := Invalidate(st, x, reason, detail);
            && L.IsHistory([st, st, dead, Runs.Recovered(st)], es)
            && CheckReuse(dead, x, q).eligibility != Eligible
            && CheckReuse(Runs.Recovered(st), x, q).eligibility == Eligible
  {
    BackAndForth(st, Runs.InvalidateOp(x, reason, detail), Invalidate(st, x, reason, detail));
    DeadAtOnce(st, x, reason, detail, q);
    L.SameAnswers(st, x, q);
  }

  /** There are such: a sample just published, asked for without any requirement. */
  lemma SampleEligible(q: ReuseRequest)
    requires Fits(Sample(1, []), q)
    ensures var st := Runs.Step(Empty, Runs.PublishOp(Sample(1, [])));
            Runs.Consistent(st) && CheckReuse(st, 1, q).eligibility == Eligible
  {
    var d := Sample(1, []);
    SampleStored(d);
    LoneEligible(Runs.Step(Empty, Runs.PublishOp(d)), d, q);
  }

  lemma SampleStored(d: RecordData)
    requires d == Sample(1, [])
    ensures Runs.Consistent(Runs.Step(Empty, Runs.PublishOp(d)))
    ensures Runs.Step(Empty, Runs.PublishOp(d)) == Admit(Empty, d)
  {
    Runs.EmptyConsistent();
    Runs.StepKeepsConsistent(Empty, Runs.PublishOp(d));
    SamplePublished(Empty, 0, []);
  }

  lemma LoneEligible(st: State, d: RecordData, q: ReuseRequest)
    requires Runs.Consistent(st) && st.records == map[d.Subject() := d] && Fits(d, q)
    requires d.references.inputStates == d.references.parentProvenance == []
    requires d.Subject() in st.status && st.status[d.Subject()].validity == Valid
    ensures CheckReuse(st, d.Subject(), q).eligibility == Eligible
  {
    forall a ensures !Ancestor(st.records, a, d.Subject()) { NoAncestors(st.records, a, d.Subject()); }
    Runs.EligibleIff(st, d.Subject(), q);
  }

  lemma NoAncestors(rs: RecordMap, a: StateId, x: StateId)
    requires x in rs && ParentSet(rs, rs[x]) == {}
    ensures !Ancestor(rs, a, x)
  {
    if Ancestor(rs, a, x) { var y := Digraph.FirstArc(ParentMap(rs), x, a); }
  }

  lemma DeadAtOnce(st: State, x: StateId, reason: Reason, detail: Bytes, q: ReuseRequest)
    requires Runs.Consistent(st) && x in st.records
    ensures CheckReuse(Invalidate(st, x, reason, detail), x, q).eligibility != Eligible
  {
    Runs.InvalidationIsExact(st, x, reason, detail, x);
    Runs.InvalidAncestorBars(Invalidate(st, x, reason, detail), x, x, q);
  }

  /** Save, do something, and go back to the save. */
  lemma BackAndForth(st: State, op: Runs.Op, next: State)
    requires Runs.Consistent(st) && next == Runs.Step(st, op)
    ensures L.IsHistory([st, st, next, Runs.Recovered(st)], [L.Save, L.Work(op), L.Restart(0)])
  {
    var es, sts := [L.Save, L.Work(op), L.Restart(0)], [st, st, next, Runs.Recovered(st)];
    L.MovesNext(sts, es, 0);
    L.MovesNext(sts, es, 1);
    Runs.RestoreOfSnapshot(st);
    L.RestartNext(sts, es, 2, 0, st, Runs.Recovered(st));
    forall i | 0 <= i < 3 ensures L.Next(sts, es, i) { }
  }

  // ------------------------------------------------- a store too large for its own file

  /** The store holds just the samples 1 to n, and their overlay rows. */
  ghost predicate Holds(st: State, n: nat, note: Bytes) {
    && |st.records| == n
    && (forall x :: x in st.records <==> 1 <= x <= n)
    && (forall x :: x in st.records ==> st.records[x] == Sample(x, note))
    && (forall x :: x in st.status ==> st.status[x].detail == note)
  }

  lemma SamplePublished(st: State, n: nat, note: Bytes)
    requires n + 1 < TWO64 && Holds(st, n, note)
    ensures PublishOutcomeOf(st, Sample(n + 1, note)) == Published(Sample(n + 1, note))
  {
    SampleWellFormed(n + 1, note);
    assert n + 1 !in ProvenanceIds(st.records);
  }

  lemma HoldsNext(st: State, n: nat, k: u64, note: Bytes, d: RecordData)
    requires k == n + 1 && Holds(st, n, note) && d == Sample(k, note)
    ensures Holds(Admit(st, d), k, note)
  {
    var next := Admit(st, d);
    assert next.records == st.records[k := d] && next.status == st.status[k := FirstStatus(d)];
    assert next.records.Keys == st.records.Keys + {k};
    assert |next.records| == |next.records.Keys| == n + 1;
  }

  lemma SampleAdmitted(st: State, n: nat, note: Bytes)
    requires n + 1 < TWO64 && Holds(st, n, note)
    ensures Holds(Runs.Step(st, Runs.PublishOp(Sample(n + 1, note))), n + 1, note)
  {
    SamplePublished(st, n, note);
    HoldsNext(st, n, n + 1, note, Sample(n + 1, note));
  }

  lemma {:induction false} PublishSamples(n: nat, note: Bytes) returns (ops: seq<Runs.Op>)
    requires n < TWO64
    ensures Holds(Runs.Run(Empty, ops), n, note)
  {
    if n == 0 {
      ops := [];
    } else {
      ops := PublishSamples(n - 1, note);
      SampleAdmitted(Runs.Run(Empty, ops), n - 1, note);
      Runs.RunSnoc(Empty, ops, Runs.PublishOp(Sample(n, note)));
      ops := ops + [Runs.PublishOp(Sample(n, note))];
    }
  }

  predicate Noted(d: RecordData, k: nat) {
    |d.classification.note| >= k
  }

  lemma NotedAtLeast(d: RecordData, k: nat, t: Bytes)
    requires Noted(d, k)
    ensures |ERecord(d, t)| >= k + |t|
  {
    var c := EClassification(d.classification, t);
    assert |c| >= k + |t|;
    var f := EFencing(d.fencing, c);
    BackAtLeast(d, c);
    var p := EPolicy(d.policy, f);
    BackAtLeast(d, f);
    var r := EReferences(d.references, p);
    ReferencesAtLeast(d.references, p);
    FrontOfRecord(d, r);
  }

  lemma NotesAddUp(l: seq<RecordData>, k: nat, t: Bytes)
    requires forall i :: 0 <= i < |l| ==> Noted(l[i], k)
    ensures |ERecords(l, t)| >= k * |l|
  {
    forall d, u | Noted(d, k) ensures |ERecord(d, u)| >= k + |u| { NotedAtLeast(d, k, u); }
    EachAtLeastWhere(ERecord, d => Noted(d, k), k, l, t);
    HeaderSize(|l| % TWO64, Each(ERecord, l, t));
  }

  lemma HeldRecords(rs: RecordMap, n: nat, note: Bytes)
    requires forall x :: x in rs <==> 1 <= x <= n
    requires |rs| == n && Short(note) && forall x :: x in rs ==> rs[x] == Sample(x, note)
    ensures |RecordList(rs)| == n && All(RecordShort, RecordList(rs))
    ensures forall i :: 0 <= i < n ==> Noted(RecordList(rs)[i], |note|)
  {
    var l := RecordList(rs);
    Runs.ListedAt(rs);
    assert |l| == |rs.Keys| == n;
    forall i | 0 <= i < |l| ensures RecordShort(l[i]) && Noted(l[i], |note|) {
      SampleWellFormed(Sorted(rs.Keys)[i], note);
    }
  }

  lemma HeldStatus(status: map<StateId, RecordStatus>, note: Bytes)
    requires Short(note) && forall x :: x in status ==> status[x].detail == note
    ensures All(StatusShort, ListOf(status))
  {
    var l := ListOf(status);
    ListInOrder(status);
    forall i | 0 <= i < |l| ensures StatusShort(l[i]) { assert l[i] in l; }
  }

  /** What such a store writes: everything is short enough, but there is a lot of it. */
  lemma HeldSnapshot(st: State, n: nat, note: Bytes)
    requires Holds(st, n, note) && Short(note)
    ensures Writable(TakeSnapshot(st)) && |Encoded(TakeSnapshot(st))| >= |note| * n
  {
    HeldRecords(st.records, n, note);
    HeldStatus(st.status, note);
    var tail := EStatuses(ListOf(st.status), EAuthority(ImageOf(TakeSnapshot(st).authority), []));
    NotesAddUp(RecordList(st.records), |note|, tail);
  }

  /** Nine publishes with the longest permitted note make a store that can be saved but whose
      file nothing can be loaded from. */
  lemma LargeStoreCannotRestart() returns (ops: seq<Runs.Op>)
    ensures |Runs.Run(Empty, ops).records| == 9
    ensures Writable(TakeSnapshot(Runs.Run(Empty, ops)))
    ensures forall v :: !Accepted(FileBytes(0, Encoded(TakeSnapshot(Runs.Run(Empty, ops)))), v)
  {
    var note: Bytes := seq(MAX_STRING, i => 0);
    ops := PublishSamples(9, note);
    var st := Runs.Run(Empty, ops);
    Runs.EmptyConsistent();
    Runs.RunKeepsConsistent(Empty, ops);
    HeldSnapshot(st, 9, note);
    assert |Encoded(TakeSnapshot(st))| > MAX_PAYLOAD;
    forall v ensures !Accepted(FileBytes(0, Encoded(TakeSnapshot(st))), v) {
      RecordsListed(st.records);
      SaveThenLoad(TakeSnapshot(st), v);
    }
  }
}
