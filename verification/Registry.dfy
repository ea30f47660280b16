/** What a provenance store means (store.hpp), as a state machine on values.  Records,
    status overlay, authority and known workers are the state; the derivation graph, the
    provenance map and the indexes are views of the records. */
module Registry {
  import opened Ids
  import opened Orders
  import opened Digraph
  import opened Records
  import opened Compatibility
  import F = Fence
  import Kahn

  type RecordMap = map<StateId, RecordData>

  datatype RecordStatus = RecordStatus(
    validity: Validity, reason: Reason, provenanceGeneration: u64, detail: Bytes)

  datatype State = State(
    records: RecordMap, status: map<StateId, RecordStatus>, authority: F.Authority, workers: set<WorkerId>)

  /** What is persisted: records in id order, the overlay, and the authority with the boots
      of known workers only. */
  datatype Snapshot = Snapshot(
    records: seq<RecordData>, status: map<StateId, RecordStatus>, authority: F.Authority)

  const Empty := State(map[], map[], F.Initial, {})

  // ------------------------------------------------------------------- derived views

  function ProvenanceIds(rs: RecordMap): set<ProvenanceId> {
    set s | s in rs :: rs[s].Provenance()
  }

  /** The subjects d derives from: its input states and the subjects of its parent records. */
  function ParentSet(rs: RecordMap, d: RecordData): set<StateId> {
    Elems(d.references.inputStates) +
    set s | s in rs && rs[s].Provenance() in d.references.parentProvenance
  }

  function ParentMap(rs: RecordMap): Adj {
    map s | s in rs :: ParentSet(rs, rs[s])
  }

  ghost predicate Ancestor(rs: RecordMap, a: StateId, s: StateId) {
    Reaches(ParentMap(rs), s, a)
  }

  predicate Resolves(rs: RecordMap, d: RecordData) {
    && (forall s :: s in d.references.inputStates ==> s in rs)
    && (forall p :: p in d.references.parentProvenance ==> p in ProvenanceIds(rs))
  }

  /** Records are filed under their own non-zero id, provenance ids are unique, every
      reference resolves, and derivation has no cycle. */
  ghost predicate Sound(rs: RecordMap) {
    && (forall s :: s in rs ==> rs[s].Subject() == s && s != 0)
    && (forall s, t :: s in rs && t in rs && rs[s].Provenance() == rs[t].Provenance() ==> s == t)
    && (forall s :: s in rs ==> Resolves(rs, rs[s]))
    && Acyclic(ParentMap(rs))
  }

  // ---------------------------------------------------------------------- insertion

  datatype Refusal =
    | Malformed | StaleAuthority(dimension: F.FenceDimension)
    | DuplicateState | DuplicateProvenance | DanglingInput | DanglingParent

  /** Threw is the graph's refusal of subject id 0, which nothing catches. */
  datatype PublishOutcome = Published(record: RecordData) | Refused(why: Refusal) | Threw

  function FirstStatus(d: RecordData): RecordStatus {
    RecordStatus(d.classification.validity, d.classification.invalidationReason,
                 d.identity.provenanceGeneration, d.classification.note)
  }

  function Admit(st: State, d: RecordData): State {
    State(st.records[d.Subject() := d],
          st.status[d.Subject() := FirstStatus(d)],
          st.authority,
          if d.fencing.workerId != 0 then st.workers + {d.fencing.workerId} else st.workers)
  }

  function InsertOutcome(st: State, d: RecordData): PublishOutcome {
    if d.Subject() in st.records then Refused(DuplicateState)
    else if d.Provenance() in ProvenanceIds(st.records) then Refused(DuplicateProvenance)
    else if exists s :: s in d.references.inputStates && s !in st.records then Refused(DanglingInput)
    else if !Resolves(st.records, d) then Refused(DanglingParent)
    else if d.Subject() == 0 then Threw
    else Published(d)
  }

  function Insert(st: State, d: RecordData): State {
    if InsertOutcome(st, d).Published? then Admit(st, d) else st
  }

  /** d can be filed next to rs. */
  ghost predicate Admissible(rs: RecordMap, d: RecordData) {
    && Sound(rs) && Resolves(rs, d)
    && d.Subject() !in rs && d.Subject() != 0 && d.Provenance() !in ProvenanceIds(rs)
  }

  /** A newly admitted record is nobody's parent. */
  lemma ParentsUnchanged(rs: RecordMap, d: RecordData, e: RecordData)
    requires Admissible(rs, d) && Resolves(rs, e)
    ensures ParentSet(rs[d.Subject() := d], e) == ParentSet(rs, e) <= rs.Keys
    ensures d.Subject() !in ParentSet(rs, e)
  {
    var rs1 := rs[d.Subject() := d];
    assert d.Provenance() !in e.references.parentProvenance;
    forall s ensures s in ParentSet(rs1, e) <==> s in ParentSet(rs, e) {
      if s in rs { assert rs1[s] == rs[s]; }
    }
  }

  lemma AdmitViews(rs: RecordMap, d: RecordData)
    requires Admissible(rs, d)
    ensures ParentMap(rs[d.Subject() := d]) == ParentMap(rs)[d.Subject() := ParentSet(rs, d)]
  {
    var m, w := ParentMap(rs[d.Subject() := d]), ParentMap(rs)[d.Subject() := ParentSet(rs, d)];
    assert m.Keys == w.Keys;
    forall s | s in m ensures m[s] == w[s] {
      ParentsUnchanged(rs, d, if s == d.Subject() then d else rs[s]);
    }
  }

  lemma NobodysParent(rs: RecordMap, d: RecordData)
    requires Admissible(rs, d)
    ensures forall x :: !Arc(ParentMap(rs), x, d.Subject())
    ensures d.Subject() !in ParentSet(rs, d) && ParentSet(rs, d) <= rs.Keys
  {
    ParentsUnchanged(rs, d, d);
    forall x ensures !Arc(ParentMap(rs), x, d.Subject()) {
      if x in rs { ParentsUnchanged(rs, d, rs[x]); }
    }
  }

  lemma AdmitProvenance(rs: RecordMap, d: RecordData)
    requires d.Subject() !in rs
    ensures ProvenanceIds(rs[d.Subject() := d]) == ProvenanceIds(rs) + {d.Provenance()}
  {
    var n, rs1 := d.Subject(), rs[d.Subject() := d];
    forall p ensures p in ProvenanceIds(rs1) <==> p in ProvenanceIds(rs) + {d.Provenance()} {
      if p in ProvenanceIds(rs) { var s :| s in rs && rs[s].Provenance() == p; assert rs1[s].Provenance() == p; }
      if p == d.Provenance() { assert rs1[n].Provenance() == p; }
    }
  }

  /** The ancestors of every record already there stay as they were. */
  lemma AdmitKeepsAncestors(rs: RecordMap, d: RecordData)
    requires Admissible(rs, d)
    ensures forall s, a :: s != d.Subject() ==> (Ancestor(rs[d.Subject() := d], a, s) <==> Ancestor(rs, a, s))
    ensures Acyclic(ParentMap(rs[d.Subject() := d]))
  {
    var n, rs1 := d.Subject(), rs[d.Subject() := d];
    AdmitViews(rs, d);
    NobodysParent(rs, d);
    var g, h := ParentMap(rs), ParentMap(rs1);
    forall x ensures !Arc(h, x, n) && !Arc(g, n, x) { assert !Arc(g, x, n); }
    AcyclicWithNewSource(g, h, n);
    forall s, a | s != n ensures Ancestor(rs1, a, s) <==> Ancestor(rs, a, s) {
      ReachWithNewSource(g, h, n, s, a);
    }
  }

  lemma AdmitKeepsSound(rs: RecordMap, d: RecordData)
    requires Admissible(rs, d)
    ensures Sound(rs[d.Subject() := d])
  {
    var n, rs1 := d.Subject(), rs[d.Subject() := d];
    AdmitKeepsAncestors(rs, d);
    AdmitProvenance(rs, d);
    forall s | s in rs1 ensures Resolves(rs1, rs1[s]) {
      if s == n { assert Resolves(rs, d); } else { assert Resolves(rs, rs[s]); }
    }
    forall s | s in rs ensures rs[s].Provenance() != d.Provenance() {
      assert rs[s].Provenance() in ProvenanceIds(rs);
    }
  }

  // --------------------------------------------------------------------- publishing

  ghost function PublishOutcomeOf(st: State, d: RecordData): PublishOutcome {
    if !WellFormed(d) then Refused(Malformed) else InsertOutcome(st, d)
  }

  ghost function Publish(st: State, d: RecordData): State {
    if PublishOutcomeOf(st, d).Published? then Admit(st, d) else st
  }

  ghost function FencedOutcomeOf(st: State, d: RecordData, c: F.Claim): PublishOutcome {
    if !WellFormed(d) then Refused(Malformed)
    else match F.Evaluate(st.authority, c)
      case Reject(dim) => Refused(StaleAuthority(dim))
      case Accept => PublishOutcomeOf(st, d)
  }

  ghost function FencedPublish(st: State, d: RecordData, c: F.Claim): State {
    if FencedOutcomeOf(st, d, c).Published? then Admit(st, d) else st
  }

  // ------------------------------------------------ when publishing succeeds, from guards

  ghost predicate ProvenanceTaken(rs: RecordMap, p: ProvenanceId) {
    exists s :: s in rs && rs[s].Provenance() == p
  }

  ghost predicate InputsThere(rs: RecordMap, d: RecordData) {
    forall s :: s in d.references.inputStates ==> s in rs
  }

  ghost predicate ParentsThere(rs: RecordMap, d: RecordData) {
    forall p :: p in d.references.parentProvenance ==> ProvenanceTaken(rs, p)
  }

  /** What a record needs to be filed next to rs. */
  ghost predicate Insertable(rs: RecordMap, d: RecordData) {
    && d.Subject() !in rs && !ProvenanceTaken(rs, d.Provenance())
    && InputsThere(rs, d) && ParentsThere(rs, d)
  }

  /** What a fenced publish needs. */
  ghost predicate Publishable(st: State, d: RecordData, c: F.Claim) {
    WellFormed(d) && F.AllFresh(st.authority, c) && Insertable(st.records, d)
  }

  /** The guard a refusal names, all guards checked before it having held. */
  ghost predicate FailsOn(st: State, d: RecordData, c: F.Claim, why: Refusal) {
    match why
    case Malformed => !WellFormed(d)
    case StaleAuthority(dim) =>
      && WellFormed(d) && !F.Fresh(st.authority, c, dim)
      && forall e :: F.Position(e) < F.Position(dim) ==> F.Fresh(st.authority, c, e)
    case _ => WellFormed(d) && F.AllFresh(st.authority, c) && FailsToInsert(st.records, d, why)
  }

  ghost predicate FailsToInsert(rs: RecordMap, d: RecordData, why: Refusal) {
    match why
    case DuplicateState => d.Subject() in rs
    case DuplicateProvenance => d.Subject() !in rs && ProvenanceTaken(rs, d.Provenance())
    case DanglingInput =>
      d.Subject() !in rs && !ProvenanceTaken(rs, d.Provenance()) && !InputsThere(rs, d)
    case DanglingParent =>
      && d.Subject() !in rs && !ProvenanceTaken(rs, d.Provenance()) && InputsThere(rs, d)
      && !ParentsThere(rs, d)
    case _ => false
  }

  lemma InsertOutcomeIff(st: State, d: RecordData)
    requires d.Subject() != 0
    ensures InsertOutcome(st, d) == Published(d) <==> Insertable(st.records, d)
    ensures forall why :: InsertOutcome(st, d) == Refused(why) <==> FailsToInsert(st.records, d, why)
    ensures InsertOutcome(st, d) != PublishOutcome.Threw
  {
    var rs := st.records;
    assert forall p :: ProvenanceTaken(rs, p) <==> p in ProvenanceIds(rs);
    assert Resolves(rs, d) <==> InputsThere(rs, d) && ParentsThere(rs, d);
  }

  /** A fenced publish succeeds exactly if the record is well-formed, every dimension of the
      claim is fresh, neither id is taken, and every input state and parent record is there;
      otherwise it is refused, naming the first of these that fails. */
  lemma FencedOutcomeIff(st: State, d: RecordData, c: F.Claim)
    ensures FencedOutcomeOf(st, d, c) == Published(d) <==> Publishable(st, d, c)
    ensures FencedOutcomeOf(st, d, c).Published? <==> Publishable(st, d, c)
    ensures forall why :: FencedOutcomeOf(st, d, c) == Refused(why) <==> FailsOn(st, d, c, why)
    ensures FencedOutcomeOf(st, d, c) != PublishOutcome.Threw
  {
    F.EvaluateMeans(st.authority, c);
    if WellFormed(d) {
      assert !Violates(d, ZeroSubjectId);
      InsertOutcomeIff(st, d);
      RejectionNames(st.authority, c);
    }
  }

  /** A rejection names the one dimension that is the first stale one. */
  lemma RejectionNames(a: F.Authority, c: F.Claim)
    ensures forall dim :: F.Evaluate(a, c) == F.Reject(dim) <==>
              !F.Fresh(a, c, dim) && forall e :: F.Position(e) < F.Position(dim) ==> F.Fresh(a, c, e)
  {
    F.EvaluateMeans(a, c);
    forall dim | !F.Fresh(a, c, dim) && forall e :: F.Position(e) < F.Position(dim) ==> F.Fresh(a, c, e)
      ensures F.Evaluate(a, c) == F.Reject(dim)
    {
      var v := F.Evaluate(a, c).dimension;
      F.PositionsDiffer(v, dim);
    }
  }

  /** The same without a claim. */
  lemma PublishOutcomeIff(st: State, d: RecordData)
    ensures PublishOutcomeOf(st, d).Published? <==> WellFormed(d) && Insertable(st.records, d)
  {
    if WellFormed(d) {
      assert !Violates(d, ZeroSubjectId);
      InsertOutcomeIff(st, d);
    }
  }

  /** What a successful publish leaves: the record, its overlay row, its worker, nothing else. */
  ghost predicate Recorded(st: State, next: State, d: RecordData) {
    && next.records.Keys == st.records.Keys + {d.Subject()} && next.records[d.Subject()] == d
    && (forall s :: s in st.records && s != d.Subject() ==> next.records[s] == st.records[s])
    && next.status.Keys == st.status.Keys + {d.Subject()}
    && (forall s :: s in st.status && s != d.Subject() ==> next.status[s] == st.status[s])
    && next.status[d.Subject()].validity == d.classification.validity
    && next.status[d.Subject()].reason == d.classification.invalidationReason
    && next.status[d.Subject()].provenanceGeneration == d.identity.provenanceGeneration
    && next.status[d.Subject()].detail == d.classification.note
    && next.authority == st.authority
    && next.workers == st.workers + (if d.fencing.workerId == 0 then {} else {d.fencing.workerId})
  }

  /** A fenced publish records its record, or changes nothing. */
  lemma FencedPublishIs(st: State, d: RecordData, c: F.Claim)
    ensures if Publishable(st, d, c) then Recorded(st, FencedPublish(st, d, c), d) else FencedPublish(st, d, c) == st
  {
    FencedOutcomeIff(st, d, c);
  }

  // ------------------------------------------------------------------- invalidation

  ghost function AffectedBy(rs: RecordMap, x: StateId): set<StateId> {
    set s | s in rs && (s == x || Ancestor(rs, x, s))
  }

  const OperatorDetail: Bytes := Ascii("invalidated by operator")

  function DependsDetail(root: StateId): Bytes {
    Ascii("invalidated because it transitively depends on " + ToString(root))
  }

  function InvalidatedStatus(st: State, x: StateId, reason: Reason, detail: Bytes, s: StateId): RecordStatus {
    RecordStatus(Invalidated, reason,
                 if s in st.status then st.status[s].provenanceGeneration else 0,
                 if s == x then (if detail == [] then OperatorDetail else detail) else DependsDetail(x))
  }

  ghost function Invalidate(st: State, x: StateId, reason: Reason, detail: Bytes): State {
    if x !in st.records then st
    else st.(status := map s | s in st.status.Keys + AffectedBy(st.records, x) ::
                         if s in AffectedBy(st.records, x) then InvalidatedStatus(st, x, reason, detail, s)
                         else st.status[s])
  }

  /** What an invalidation of x writes on s: the given reason; the generation that was there;
      on x itself the operator's detail, or a default; on every other a detail naming x. */
  ghost predicate Condemned(before: map<StateId, RecordStatus>, row: RecordStatus, x: StateId, reason: Reason,
                            detail: Bytes, s: StateId)
  {
    && row.validity == Invalidated && row.reason == reason
    && (s in before ==> row.provenanceGeneration == before[s].provenanceGeneration)
    && (s !in before ==> row.provenanceGeneration == 0)
    && (s == x && detail != [] ==> row.detail == detail)
    && (s == x && detail == [] ==> row.detail == Ascii("invalidated by operator"))
    && (s != x ==> row.detail == Ascii("invalidated because it transitively depends on " + ToString(x)))
  }

  /** Exactly x and what derives from it is condemned; every other row is as it was. */
  ghost predicate CondemnedAll(st: State, status: map<StateId, RecordStatus>, x: StateId, reason: Reason,
                               detail: Bytes)
  {
    forall s ::
      && (s in status <==> s in st.status || (s in st.records && (s == x || Ancestor(st.records, x, s))))
      && (s in st.records && (s == x || Ancestor(st.records, x, s)) ==>
            s in status && Condemned(st.status, status[s], x, reason, detail, s))
      && (s in st.status && !(s in st.records && (s == x || Ancestor(st.records, x, s))) ==>
            s in status && status[s] == st.status[s])
  }

  /** An invalidation condemns; of an unknown subject, it does nothing. */
  lemma InvalidateIs(st: State, x: StateId, reason: Reason, detail: Bytes)
    ensures var next := Invalidate(st, x, reason, detail);
            && next.records == st.records && next.authority == st.authority && next.workers == st.workers
            && (x in st.records ==> CondemnedAll(st, next.status, x, reason, detail))
            && (x !in st.records ==> next == st)
  {
    if x in st.records {
      forall s | s in AffectedBy(st.records, x)
        ensures Condemned(st.status, InvalidatedStatus(st, x, reason, detail, s), x, reason, detail, s)
      {
        RowIs(st, x, reason, detail, s);
      }
    }
  }

  lemma RowIs(st: State, x: StateId, reason: Reason, detail: Bytes, s: StateId)
    ensures Condemned(st.status, InvalidatedStatus(st, x, reason, detail, s), x, reason, detail, s)
  {
  }

  // --------------------------------------------------------------- snapshot, restore

  function KnownBoots(st: State): map<WorkerId, u64> {
    map w | w in st.workers && w in st.authority.boots :: st.authority.boots[w]
  }

  function RecordList(rs: RecordMap): seq<RecordData> {
    var ids := Sorted(rs.Keys);
    seq(|ids|, i requires 0 <= i < |ids| => rs[ids[i]])
  }

  function TakeSnapshot(st: State): Snapshot {
    Snapshot(RecordList(st.records), st.status, st.authority.(boots := KnownBoots(st)))
  }

  /** Later entries win, as in assigning to a std::map in a loop. */
  function ById(rs: seq<RecordData>): RecordMap {
    if rs == [] then map[] else ById(rs[..|rs| - 1])[rs[|rs| - 1].Subject() := rs[|rs| - 1]]
  }

  function ByProvenance(rs: seq<RecordData>): map<ProvenanceId, StateId> {
    if rs == [] then map[] else ByProvenance(rs[..|rs| - 1])[rs[|rs| - 1].Provenance() := rs[|rs| - 1].Subject()]
  }

  /** A record's parents as the restore sort sees them: every input state, found or not,
      but only those parent records whose provenance id is in the snapshot. */
  function SortParents(prov: map<ProvenanceId, StateId>, d: RecordData): set<StateId> {
    Elems(d.references.inputStates) +
    set p | p in d.references.parentProvenance && p in prov :: prov[p]
  }

  function SortMap(rs: seq<RecordData>): Adj {
    map s | s in ById(rs) :: SortParents(ByProvenance(rs), ById(rs)[s])
  }

  datatype RestoreOutcome = Restored | CycleRefused | GraphThrew

  /** Insert records in the given order, ignoring refusals, until one throws. */
  function Refill(st: State, rs: RecordMap, order: seq<StateId>): (State, bool)
    requires forall x :: x in order ==> x in rs
  {
    if order == [] then (st, true)
    else
      var (st1, ok) := Refill(st, rs, order[..|order| - 1]);
      RefillOne(st1, ok, rs[order[|order| - 1]])
  }

  function RefillOne(st: State, ok: bool, d: RecordData): (State, bool) {
    if !ok || InsertOutcome(st, d).Threw? then (st, false) else (Insert(st, d), true)
  }

  function Cleared(s: Snapshot): State {
    State(map[], map[], s.authority.(epoch := if s.authority.epoch == 0 then 1 else s.authority.epoch),
          s.authority.boots.Keys)
  }

  ghost function RestoreOrder(l: seq<RecordData>): (order: seq<StateId>)
    ensures forall x :: x in order ==> x in ById(l)
  {
    Kahn.OrderIsPartial(SortMap(l));
    assert forall x :: x in Kahn.Order(SortMap(l)) ==> x in Elems(Kahn.Order(SortMap(l)));
    Kahn.Order(SortMap(l))
  }

  /** The registry a restore leaves behind, whatever was there before. */
  ghost function Restore(s: Snapshot): (State, RestoreOutcome) {
    if |RestoreOrder(s.records)| != |s.records| then (Cleared(s), CycleRefused)
    else
      var (st, ok) := Refill(Cleared(s), ById(s.records), RestoreOrder(s.records));
      if ok then (st.(status := s.status), Restored) else (st, GraphThrew)
  }

  // -------------------------------------------------------------------------- reuse

  ghost predicate AncestorWith(st: State, s: StateId, v: Validity) {
    exists a :: Ancestor(st.records, a, s) && a in st.status && st.status[a].validity == v
  }

  /** The live overlay first, then the fields, then the health of the ancestry. */
  ghost function CheckReuse(st: State, s: StateId, q: ReuseRequest): ReuseDecision {
    if s !in st.records then ReuseDecision(UnknownEligibility, [])
    else if s in st.status && st.status[s].validity == Invalidated then ReuseDecision(InvalidatedState, [])
    else if s in st.status && st.status[s].validity == Stale then ReuseDecision(StaleState, [])
    else if s in st.status && st.status[s].validity == UnknownValidity then ReuseDecision(UnknownEligibility, [])
    else if AncestorWith(st, s, Invalidated) then ReuseDecision(InvalidatedState, [])
    else if AncestorWith(st, s, Stale) && Reuse(st.records[s], q).eligibility != InvalidatedState
      then ReuseDecision(StaleState, [])
    else Reuse(st.records[s], q)
  }
}
