/** What holds over whole runs of a store: consistency, recovery from the store's own
    snapshot, and the permanence of invalidation. */
module Runs {
  import opened Ids
  import opened Orders
  import opened Digraph
  import opened Records
  import opened Compatibility
  import opened Registry
  import opened Recovery
  import F = Fence
  import Kahn

  // ----------------------------------------------------------------------- the runs

  datatype Op =
    | PublishOp(data: RecordData)
    | FencedPublishOp(fdata: RecordData, claim: F.Claim)
    | InvalidateOp(subject: StateId, reason: Reason, detail: Bytes)
    | AuthorityOp(change: F.Change)
    | RecoverOp  // take a snapshot and restore it; for restarts from earlier saves see Lifetimes

  ghost function Step(st: State, op: Op): State {
    match op
    case PublishOp(d) => Publish(st, d)
    case FencedPublishOp(d, c) => FencedPublish(st, d, c)
    case InvalidateOp(x, r, t) => Invalidate(st, x, r, t)
    case AuthorityOp(ch) => st.(authority := F.Apply(st.authority, ch))
    case RecoverOp => Restore(TakeSnapshot(st)).0
  }

  ghost function Run(st: State, ops: seq<Op>): State
    decreases |ops|
  {
    if ops == [] then st else Run(Step(st, ops[0]), ops[1..])
  }

  lemma {:induction false} RunSnoc(st: State, ops: seq<Op>, op: Op)
    ensures Run(st, ops + [op]) == Step(Run(st, ops), op)
    decreases |ops|
  {
    if ops == [] {
      assert ([] + [op])[1..] == [];
    } else {
      assert (ops + [op])[1..] == ops[1..] + [op];
      RunSnoc(Step(st, ops[0]), ops[1..], op);
    }
  }

  // -------------------------------------------------------------------- consistency

  /** The overlay either still says what the record said, or the subject was invalidated. */
  ghost predicate OverlayTracks(st: State) {
    && st.status.Keys == st.records.Keys
    && forall s :: s in st.records ==>
         st.status[s].validity in {st.records[s].classification.validity, Invalidated}
  }

  /** Known workers are the publishers plus those a restore brought back with a boot. */
  ghost predicate WorkersKnown(st: State) {
    WorkersOf(st.records) <= st.workers && st.workers <= WorkersOf(st.records) + st.authority.boots.Keys
  }

  ghost predicate Consistent(st: State) {
    && Sound(st.records)
    && (forall s :: s in st.records ==> WellFormed(st.records[s]))
    && OverlayTracks(st)
    && WorkersKnown(st)
  }

  lemma EmptyConsistent()
    ensures Consistent(Empty)
  {
    EmptyIsSound();
  }

  lemma InsertedIsAdmissible(st: State, d: RecordData)
    requires Sound(st.records) && InsertOutcome(st, d).Published?
    ensures Admissible(st.records, d)
  {
  }

  lemma AdmitKeepsConsistent(st: State, d: RecordData)
    requires Consistent(st) && WellFormed(d) && InsertOutcome(st, d).Published?
    ensures Consistent(Admit(st, d))
  {
    InsertedIsAdmissible(st, d);
    AdmitKeepsSound(st.records, d);
    AdmitKeepsOverlay(st, d);
    AdmitKeepsWorkers(st, d);
  }

  lemma AdmitKeepsOverlay(st: State, d: RecordData)
    requires OverlayTracks(st)
    ensures OverlayTracks(Admit(st, d))
  {
  }

  lemma AdmitKeepsWorkers(st: State, d: RecordData)
    requires WorkersKnown(st) && d.Subject() !in st.records
    ensures WorkersKnown(Admit(st, d))
  {
    WorkersOfAdmit(st.records, d);
  }

  lemma WorkersOfAdmit(rs: RecordMap, d: RecordData)
    requires d.Subject() !in rs
    ensures WorkersOf(rs[d.Subject() := d]) ==
            WorkersOf(rs) + if d.fencing.workerId != 0 then {d.fencing.workerId} else {}
  {
    var rs1 := rs[d.Subject() := d];
    forall w | w in WorkersOf(rs) ensures w in WorkersOf(rs1) {
      var s :| s in rs && rs[s].fencing.workerId == w;
      assert rs1[s] == rs[s];
    }
    if d.fencing.workerId != 0 { assert rs1[d.Subject()] == d; }
  }

  /** Recovery loses nothing but the boots of unknown workers, and never an epoch of zero. */
  ghost function Recovered(st: State): State {
    st.(authority := st.authority.(epoch := if st.authority.epoch == 0 then 1 else st.authority.epoch,
                                   boots := KnownBoots(st)))
  }

  lemma RecordListHolds(rs: RecordMap)
    requires forall s :: s in rs ==> rs[s].Subject() == s
    ensures DistinctSubjects(RecordList(rs)) && ById(RecordList(rs)) == rs
  {
    var l := RecordList(rs);
    ListedAt(rs);
    forall s | s in rs ensures s in ById(l) && ById(l)[s] == rs[s] { ListedFinds(rs, s); }
    forall s | s in ById(l) ensures s in rs { OnlyListed(rs, s); }
    SameMaps(rs, ById(l));
  }

  lemma SameMaps<K, V>(a: map<K, V>, b: map<K, V>)
    requires forall k :: k in a ==> k in b && b[k] == a[k]
    requires forall k :: k in b ==> k in a
    ensures a == b
  {
  }

  lemma ListedFinds(rs: RecordMap, s: StateId)
    requires s in rs && forall x :: x in rs ==> rs[x].Subject() == x
    ensures s in ById(RecordList(rs)) && ById(RecordList(rs))[s] == rs[s]
  {
    var l, ids := RecordList(rs), Sorted(rs.Keys);
    ListedAt(rs);
    assert s in ids;
    var i :| 0 <= i < |ids| && ids[i] == s;
    ByIdFindsAt(l, i);
  }

  lemma ByIdFindsAt(l: seq<RecordData>, i: nat)
    requires DistinctSubjects(l) && i < |l|
    ensures l[i].Subject() in ById(l) && ById(l)[l[i].Subject()] == l[i]
  {
    ByIdFinds(l);
  }

  lemma OnlyListed(rs: RecordMap, s: StateId)
    requires s in ById(RecordList(rs)) && forall x :: x in rs ==> rs[x].Subject() == x
    ensures s in rs
  {
    var l := RecordList(rs);
    ListedAt(rs);
    ByIdHolds(l);
    var i :| 0 <= i < |l| && l[i] == ById(l)[s];
  }

  lemma ListedAt(rs: RecordMap)
    requires forall s :: s in rs ==> rs[s].Subject() == s
    ensures var l, ids := RecordList(rs), Sorted(rs.Keys);
            |l| == |ids| && forall i :: 0 <= i < |l| ==> ids[i] in rs && l[i] == rs[ids[i]] && l[i].Subject() == ids[i]
    ensures DistinctSubjects(RecordList(rs))
  {
    var l, ids := RecordList(rs), Sorted(rs.Keys);
    forall i | 0 <= i < |l| ensures ids[i] in rs && l[i] == rs[ids[i]] && l[i].Subject() == ids[i] {
      assert ids[i] in ids;
    }
  }

  lemma SnapshotNotRefused(rs: RecordMap)
    requires Sound(rs)
    ensures |RestoreOrder(RecordList(rs))| == |RecordList(rs)|
  {
    var l := RecordList(rs);
    RecordListHolds(rs);
    SoundIsGood(rs);
    SortMapIsParentMap(l);
    ByIdCounts(l);
    SoundOrderComplete(rs);
    assert RestoreOrder(l) == Kahn.Order(ParentMap(rs));
  }

  lemma SoundOrderComplete(rs: RecordMap)
    requires Sound(rs)
    ensures |Kahn.Order(ParentMap(rs))| == |rs|
  {
    var g := ParentMap(rs);
    forall x, y | Arc(g, x, y) ensures y in g { ParentsAreRecords(rs, x, y); }
    Kahn.CompleteIffAcyclic(g);
    assert g.Keys == rs.Keys;
  }

  lemma ParentsAreRecords(rs: RecordMap, x: StateId, y: StateId)
    requires Sound(rs) && x in rs && y in ParentSet(rs, rs[x])
    ensures y in rs
  {
    assert Resolves(rs, rs[x]);
  }

  /** The central recovery result: restoring a consistent store's own snapshot, sorted by
      id though it is, refuses nothing, throws nothing, and gives back the same store. */
  lemma RestoreOfSnapshot(st: State)
    requires Consistent(st)
    ensures Restore(TakeSnapshot(st)) == (Recovered(st), Restored)
  {
    SnapshotNotRefused(st.records);
    RecordListHolds(st.records);
    SoundIsGood(st.records);
    GoodSetRestored(TakeSnapshot(st));
    RecoveredIs(st);
  }

  lemma RecoverStep(st: State)
    requires Consistent(st)
    ensures Step(st, RecoverOp) == Recovered(st)
  {
    RestoreOfSnapshot(st);
    RecoverIsRestore(st, TakeSnapshot(st), Recovered(st));
  }

  lemma RecoverIsRestore(st: State, s: Snapshot, next: State)
    requires s == TakeSnapshot(st) && Restore(s).0 == next
    ensures Step(st, RecoverOp) == next
  {
  }

  lemma SoundIsGood(rs: RecordMap)
    requires Sound(rs)
    ensures GoodSet(rs) && 0 !in rs
  {
  }

  lemma RecoveredIs(st: State)
    requires WorkersKnown(st)
    ensures var c := Cleared(TakeSnapshot(st));
            Recovered(st) == State(st.records, st.status, c.authority, c.workers + WorkersOf(st.records))
  {
    BootsAndPublishers(st);
  }

  lemma BootsAndPublishers(st: State)
    requires WorkersKnown(st)
    ensures KnownBoots(st).Keys + WorkersOf(st.records) == st.workers
  {
    forall w ensures w in KnownBoots(st).Keys + WorkersOf(st.records) <==> w in st.workers { }
  }

  lemma RecoveredConsistent(st: State)
    requires Consistent(st)
    ensures Consistent(Recovered(st))
  {
  }

  /** A second snapshot equals the first, so everything computed from it does too. */
  lemma SnapshotIsStable(st: State)
    requires Consistent(st)
    ensures TakeSnapshot(Recovered(st)) == TakeSnapshot(st).(authority := Recovered(st).authority)
    ensures st.authority.epoch != 0 ==> TakeSnapshot(Recovered(st)) == TakeSnapshot(st)
  {
    assert KnownBoots(Recovered(st)) == KnownBoots(st);
  }

  lemma StepKeepsConsistent(st: State, op: Op)
    requires Consistent(st)
    ensures Consistent(Step(st, op))
  {
    match op
    case PublishOp(d) =>
      if PublishOutcomeOf(st, d).Published? { AdmitKeepsConsistent(st, d); }
    case FencedPublishOp(d, c) =>
      if FencedOutcomeOf(st, d, c).Published? { AdmitKeepsConsistent(st, d); }
    case InvalidateOp(x, r, t) =>
      InvalidateKeepsConsistent(st, x, r, t);
    case AuthorityOp(ch) =>
      assert st.authority.boots.Keys <= F.Apply(st.authority, ch).boots.Keys;
    case RecoverOp =>
      RestoreOfSnapshot(st);
      RecoveredConsistent(st);
  }

  lemma InvalidateKeepsConsistent(st: State, x: StateId, r: Reason, t: Bytes)
    requires Consistent(st)
    ensures Consistent(Invalidate(st, x, r, t))
  {
    if x in st.records {
      assert AffectedBy(st.records, x) <= st.records.Keys;
    }
  }

  /** Every run keeps the store consistent. */
  lemma {:induction false} RunKeepsConsistent(st: State, ops: seq<Op>)
    requires Consistent(st)
    ensures Consistent(Run(st, ops))
    decreases |ops|
  {
    if ops != [] {
      StepKeepsConsistent(st, ops[0]);
      RunKeepsConsistent(Step(st, ops[0]), ops[1..]);
    }
  }

  /** After any run from the empty store, restoring the store's own snapshot gives it back. */
  lemma EveryRunRecovers(ops: seq<Op>)
    ensures Restore(TakeSnapshot(Run(Empty, ops))) == (Recovered(Run(Empty, ops)), Restored)
  {
    EmptyConsistent();
    RunKeepsConsistent(Empty, ops);
    RestoreOfSnapshot(Run(Empty, ops));
  }

  /** On a consistent store a well-formed publish never reaches the graph's refusal. */
  lemma PublishNeverThrows(st: State, d: RecordData)
    ensures !PublishOutcomeOf(st, d).Threw?
  {
    if WellFormed(d) { assert !Violates(d, ZeroSubjectId); }
  }

  // --------------------------------------------------------- history is never rewritten

  lemma StepKeepsHistory(st: State, op: Op, s: StateId)
    requires Consistent(st) && s in st.records
    ensures s in Step(st, op).records && Step(st, op).records[s] == st.records[s]
    ensures forall a :: Ancestor(Step(st, op).records, a, s) <==> Ancestor(st.records, a, s)
    ensures st.status[s].validity == Invalidated ==>
              s in Step(st, op).status && Step(st, op).status[s].validity == Invalidated
  {
    match op
    case PublishOp(d) =>
      if PublishOutcomeOf(st, d).Published? { AdmitKeepsHistory(st, d, s); }
    case FencedPublishOp(d, c) =>
      if FencedOutcomeOf(st, d, c).Published? { AdmitKeepsHistory(st, d, s); }
    case InvalidateOp(x, r, t) => InvalidateKeepsHistory(st, x, r, t, s);
    case AuthorityOp(ch) =>
    case RecoverOp => RestoreOfSnapshot(st);
  }

  lemma AdmitKeepsHistory(st: State, d: RecordData, s: StateId)
    requires Sound(st.records) && InsertOutcome(st, d).Published? && s in st.records
    ensures var next := Admit(st, d);
            && s in next.records && next.records[s] == st.records[s]
            && (forall a :: Ancestor(next.records, a, s) <==> Ancestor(st.records, a, s))
            && (s in st.status ==> s in next.status && next.status[s] == st.status[s])
  {
    InsertedIsAdmissible(st, d);
    AdmitKeepsAncestors(st.records, d);
  }

  lemma InvalidateKeepsHistory(st: State, x: StateId, r: Reason, t: Bytes, s: StateId)
    requires s in st.status
    ensures var next := Invalidate(st, x, r, t);
            && next.records == st.records && s in next.status
            && (next.status[s] == st.status[s] || next.status[s].validity == Invalidated)
  {
  }

  /** A published record, its ancestor set, and its invalidation are there for good. */
  lemma {:induction false} RunKeepsHistory(st: State, ops: seq<Op>, s: StateId)
    requires Consistent(st) && s in st.records
    ensures s in Run(st, ops).records && Run(st, ops).records[s] == st.records[s]
    ensures forall a :: Ancestor(Run(st, ops).records, a, s) <==> Ancestor(st.records, a, s)
    ensures st.status[s].validity == Invalidated ==>
              s in Run(st, ops).status && Run(st, ops).status[s].validity == Invalidated
    decreases |ops|
  {
    if ops != [] {
      StepKeepsConsistent(st, ops[0]);
      StepKeepsHistory(st, ops[0], s);
      RunKeepsHistory(Step(st, ops[0]), ops[1..], s);
    }
  }

  // -------------------------------------------------------------- reuse on good stores

  /** On a consistent store, eligible means: the overlay says valid, no ancestor is
      invalidated or stale, and every compared field fits. */
  lemma EligibleIff(st: State, s: StateId, q: ReuseRequest)
    requires Consistent(st)
    ensures CheckReuse(st, s, q).eligibility == Eligible <==>
            && s in st.records && st.status[s].validity == Valid
            && (forall a :: Ancestor(st.records, a, s) && a in st.status ==>
                st.status[a].validity !in {Invalidated, Stale})
            && Fits(st.records[s], q)
  {
    if s in st.records { EligibleIffFits(st.records[s], q); }
    HealthyIff(st, s);
  }

  lemma HealthyIff(st: State, s: StateId)
    ensures (forall a :: Ancestor(st.records, a, s) && a in st.status ==>
               st.status[a].validity !in {Invalidated, Stale}) <==>
            !AncestorWith(st, s, Invalidated) && !AncestorWith(st, s, Stale)
  {
  }

  ghost predicate Healthy(st: State, s: StateId) {
    !AncestorWith(st, s, Invalidated) && !AncestorWith(st, s, Stale)
  }

  /** Which answer a subject gets: by its overlay, then its ancestry, then its fields. */
  ghost predicate Answers(st: State, s: StateId, q: ReuseRequest, e: Eligibility)
    requires s in st.records ==> s in st.status
  {
    if s !in st.records then e == UnknownEligibility
    else if st.status[s].validity != Valid then e == OverlayAnswer(st.status[s].validity)
    else if AncestorWith(st, s, Invalidated) then e == InvalidatedState
    else if AncestorWith(st, s, Stale) then e == StaleState
    else Deserves(Valid, st.records[s], q, e)
  }

  function OverlayAnswer(v: Validity): Eligibility {
    match v
    case Invalidated => InvalidatedState
    case Stale => StaleState
    case UnknownValidity => UnknownEligibility
    case Valid => Eligible
  }

  /** Every answer of a consistent store. */
  lemma AnswersIff(st: State, s: StateId, q: ReuseRequest)
    requires Consistent(st)
    ensures forall e :: CheckReuse(st, s, q).eligibility == e <==> Answers(st, s, q, e)
  {
    if s in st.records && st.status[s].validity == Valid && Healthy(st, s) { HealthyAnswers(st, s, q); }
  }

  lemma HealthyAnswers(st: State, s: StateId, q: ReuseRequest)
    requires Consistent(st) && s in st.records && st.status[s].validity == Valid && Healthy(st, s)
    ensures forall e :: CheckReuse(st, s, q).eligibility == e <==> Deserves(Valid, st.records[s], q, e)
  {
    ReuseIff(st.records[s], q);
  }

  /** The dimensions it reports with it. */
  lemma BlamedIff(st: State, s: StateId, q: ReuseRequest)
    requires Consistent(st)
    ensures forall d :: d in CheckReuse(st, s, q).failedDimensions <==>
              s in st.records && st.status[s].validity == Valid && Healthy(st, s) &&
              Blames(CheckReuse(st, s, q).eligibility, st.records[s], q, d)
  {
    if s in st.records { ReuseIff(st.records[s], q); }
  }

  /** The same, outcome by outcome. */
  lemma OutcomesIff(st: State, s: StateId, q: ReuseRequest)
    requires Consistent(st) && s in st.records
    ensures var e, v, r := CheckReuse(st, s, q).eligibility, st.status[s].validity, st.records[s];
            && (e == InvalidatedState <==> v == Invalidated || (v == Valid && AncestorWith(st, s, Invalidated)))
            && (e == StaleState <==> v == Stale || (v == Valid && !AncestorWith(st, s, Invalidated) &&
                                                    AncestorWith(st, s, Stale)))
            && (e == Incompatible <==> v == Valid && Healthy(st, s) && SomeClash(r, q))
            && (e == IncompleteProvenance <==> v == Valid && Healthy(st, s) && !SomeClash(r, q) && SomeLack(r, q))
            && (e == Eligible <==> v == Valid && Healthy(st, s) && !SomeClash(r, q) && !SomeLack(r, q))
            && (e == UnknownEligibility <==> v == UnknownValidity)
            && e != Ineligible
  {
    AnswersIff(st, s, q);
    var e := CheckReuse(st, s, q).eligibility;
    assert Answers(st, s, q, e);
  }

  lemma StrongerRequestNeverGains(st: State, s: StateId, q1: ReuseRequest, q2: ReuseRequest)
    requires Consistent(st) && Strengthens(q2, q1)
    requires CheckReuse(st, s, q2).eligibility == Eligible
    ensures CheckReuse(st, s, q1).eligibility == Eligible
  {
    EligibleIff(st, s, q1);
    EligibleIff(st, s, q2);
    StrengtheningNeverGains(st.records[s], q1, q2);
    EligibleIffFits(st.records[s], q1);
    EligibleIffFits(st.records[s], q2);
  }

  lemma InvalidAncestorBars(st: State, x: StateId, y: StateId, q: ReuseRequest)
    requires x in st.status && st.status[x].validity == Invalidated
    requires y == x || Ancestor(st.records, x, y)
    ensures CheckReuse(st, y, q).eligibility != Eligible
    ensures y in st.records && y in st.status && st.status[y].validity !in {Stale, UnknownValidity} ==>
              CheckReuse(st, y, q).eligibility == InvalidatedState
  {
    if y != x { assert AncestorWith(st, y, Invalidated); }
  }

  /** Invalidation is permanent and contagious: after it, in every later state, neither the
      subject nor anything derived from it, published before or since, is eligible again;
      the answer is INVALIDATED unless the asked-for record has its own reason not to be. */
  lemma InvalidationIsForever(st: State, x: StateId, r: Reason, t: Bytes, ops: seq<Op>, later: State,
                              y: StateId, q: ReuseRequest)
    requires Consistent(st) && x in st.records
    requires later == Run(Invalidate(st, x, r, t), ops)
    requires y == x || Ancestor(later.records, x, y)
    ensures CheckReuse(later, y, q).eligibility != Eligible
    ensures y in later.status && later.status[y].validity !in {Stale, UnknownValidity} ==>
              CheckReuse(later, y, q).eligibility == InvalidatedState
  {
    var st1 := Invalidate(st, x, r, t);
    InvalidateKeepsConsistent(st, x, r, t);
    RunKeepsConsistent(st1, ops);
    RunKeepsHistory(st1, ops, x);
    InvalidAncestorBars(later, x, y, q);
  }

  /** Invalidation reaches exactly the subject and what derives from it; everything else,
      records included, is left as it was. */
  lemma InvalidationIsExact(st: State, x: StateId, r: Reason, t: Bytes, s: StateId)
    requires Consistent(st) && x in st.records && s in st.records
    ensures Invalidate(st, x, r, t).records == st.records
    ensures s == x || Ancestor(st.records, x, s) ==> Invalidate(st, x, r, t).status[s].validity == Invalidated
    ensures !(s == x || Ancestor(st.records, x, s)) ==> Invalidate(st, x, r, t).status[s] == st.status[s]
  {
  }

  // ---------------------------------------------------------------- restart and fencing

  /** Restoring a snapshot taken that instant can only tighten fencing, except that an epoch
      that has wrapped to zero comes back as one; that is the only exception. */
  lemma InstantRestartTightensIff(st: State)
    ensures F.AcceptsNoMore(Recovered(st).authority, st.authority) <==> st.authority.epoch != 0
  {
    F.AcceptsNoMoreIff(Recovered(st).authority, st.authority);
  }

  /** For a worker the store knows, or an anonymous claim, a restart changes no verdict. */
  lemma RestartKeepsVerdicts(st: State, c: F.Claim)
    requires st.authority.epoch != 0 && (c.workerId == 0 || c.workerId in st.workers)
    ensures F.Evaluate(Recovered(st).authority, c) == F.Evaluate(st.authority, c)
  {
  }

  /** Any other worker is fenced out by a restart, until it registers again. */
  lemma RestartFencesUnknown(st: State, c: F.Claim)
    requires c.workerId != 0 && c.workerId !in st.workers
    ensures F.Evaluate(Recovered(st).authority, c).Reject?
  {
  }

  /** A worker that has published stays known, so its claims are judged alike for ever. */
  lemma PublisherIsKnown(st: State, s: StateId)
    requires Consistent(st) && s in st.records && st.records[s].fencing.workerId != 0
    ensures st.records[s].fencing.workerId in st.workers
  {
    assert st.records[s].fencing.workerId in WorkersOf(st.records);
  }
}
