/** The provenance store of store.hpp.  Each public operation is one locked region; locking
    itself is not part of this model. */
module ProvenanceStore {
  import opened Ids
  import opened Orders
  import opened Digraph
  import opened Records
  import opened Compatibility
  import opened DerivationGraph
  import opened Registry
  import opened Indexes
  import I = Invalidation
  import F = Fence
  import Kahn
  import Recovery

  class Store {
    var records: RecordMap
    var provToState: map<ProvenanceId, StateId>
    var graph: ProvenanceGraph
    var status: StatusMap
    var authority: F.AuthorityState
    var workers: set<WorkerId>

    var byModel: Index<u64>
    var byAdapter: Index<u64>
    var byProducer: Index<u64>
    var byExecution: Index<u64>
    var byAttempt: Index<u64>
    var byDependency: Index<u64>
    var byArtifact: Index<u64>
    var byValidity: Index<Validity>
    var byEvidence: Index<EvidenceClass>

    function Abs(): State
      reads this, authority
    {
      State(records, status, authority.View(), workers)
    }

    /** The provenance map is the inverse of the records. */
    static ghost predicate Mirrors(prov: map<ProvenanceId, StateId>, rs: RecordMap) {
      && prov.Keys == ProvenanceIds(rs)
      && forall s :: s in rs ==> rs[s].Provenance() in prov && prov[rs[s].Provenance()] == s
    }

    ghost predicate IndexedFor(rs: RecordMap)
      reads this`byModel, this`byAdapter, this`byProducer, this`byExecution, this`byAttempt, this`byDependency,
            this`byArtifact, this`byEvidence
    {
      && Scans(byModel, rs, ModelKeys) && Scans(byAdapter, rs, AdapterKeys)
      && Scans(byProducer, rs, ProducerKeys) && Scans(byExecution, rs, ExecutionKeys)
      && Scans(byAttempt, rs, AttemptKeys) && Scans(byDependency, rs, DependencyKeys)
      && Scans(byArtifact, rs, ArtifactKeys) && Scans(byEvidence, rs, EvidenceKeys)
    }

    /** The graph, the provenance map and the record indexes are exact views of the records. */
    ghost predicate Views()
      reads this`records, this`provToState, this`graph, graph, this`byModel, this`byAdapter, this`byProducer,
            this`byExecution, this`byAttempt, this`byDependency, this`byArtifact, this`byEvidence
    {
      Mirrors(provToState, records) && GraphViews(records) && IndexedFor(records)
    }

    ghost predicate GraphViews(rs: RecordMap)
      reads this`graph, graph
    {
      graph.Valid() && graph.parents == ParentMap(rs)
    }

    ghost predicate Coherent()
      reads this`records, this`provToState, this`graph, graph, this`byModel, this`byAdapter, this`byProducer,
            this`byExecution, this`byAttempt, this`byDependency, this`byArtifact, this`byEvidence
    {
      Sound(records) && Views()
    }

    /** The validity index follows the overlay. */
    ghost predicate Follows()
      reads this`records, this`status, this`byValidity
    {
      FollowsOverlay(byValidity, records.Keys, status)
    }

    /** No overlay row without a record, and the validity index follows the overlay. */
    ghost predicate Aligned()
      reads this`records, this`status, this`byValidity
    {
      status.Keys <= records.Keys && Follows()
    }

    ghost predicate Valid()
      reads this, graph
    {
      Coherent() && Aligned()
    }

    constructor ()
      ensures Valid() && Abs() == Empty && fresh(graph) && fresh(authority)
    {
      records, provToState, status, workers := map[], map[], map[], {};
      byModel, byAdapter, byProducer, byExecution, byAttempt := map[], map[], map[], map[], map[];
      byDependency, byArtifact, byValidity, byEvidence := map[], map[], map[], map[];
      graph := new ProvenanceGraph();
      authority := new F.AuthorityState();
      new;
      Recovery.EmptyIsSound();
    }

    // ------------------------------------------------------------------- publishing

    /** Fenced publish: the record and the claim are judged before the insertion. */
    method PublishFenced(data: RecordData, claim: F.Claim) returns (r: PublishOutcome)
      requires Coherent()
      modifies this, graph
      ensures Coherent() && (old(Aligned()) ==> Aligned())
      ensures old(Follows()) ==> (Follows() <==> (r.Published? ==> NoOtherRow(old(status), data)))
      ensures byValidity == if r.Published? then FiledOnce(old(byValidity), data) else old(byValidity)
      ensures graph == old(graph) && authority == old(authority)
      ensures Abs() == FencedPublish(old(Abs()), data, claim) && r == FencedOutcomeOf(old(Abs()), data, claim)
      ensures r.Published? <==> Publishable(old(Abs()), data, claim)
      ensures r.Published? ==> Recorded(old(Abs()), Abs(), data)
      ensures !r.Published? ==> r.Refused? && FailsOn(old(Abs()), data, claim, r.why) && Abs() == old(Abs())
    {
      FencedOutcomeIff(Abs(), data, claim);
      FencedPublishIs(Abs(), data, claim);
      var error := ValidateRecord(data);
      if error.Some? {
        assert !WellFormed(data);
        return Refused(Malformed);
      }
      match authority.EvaluateClaim(claim) {
        case Reject(dimension) => return Refused(StaleAuthority(dimension));
        case Accept =>
      }
      r := PublishValidated(data);
    }

    /** Unfenced publish. */
    method PublishValidated(data: RecordData) returns (r: PublishOutcome)
      requires Coherent()
      modifies this, graph
      ensures Coherent() && (old(Aligned()) ==> Aligned())
      ensures old(Follows()) ==> (Follows() <==> (r.Published? ==> NoOtherRow(old(status), data)))
      ensures byValidity == if r.Published? then FiledOnce(old(byValidity), data) else old(byValidity)
      ensures graph == old(graph) && authority == old(authority)
      ensures Abs() == Publish(old(Abs()), data) && r == PublishOutcomeOf(old(Abs()), data)
      ensures r.Published? <==> WellFormed(data) && Insertable(old(Abs()).records, data)
    {
      PublishOutcomeIff(Abs(), data);
      var error := ValidateRecord(data);
      if error.Some? {
        assert !WellFormed(data);
        return Refused(Malformed);
      }
      r := InsertValidated(data);
    }

    /** The insertion proper.  A refusal changes nothing, because the one refusal that comes
        after the graph has been touched cannot happen. */
    method InsertValidated(data: RecordData) returns (r: PublishOutcome)
      requires Coherent()
      modifies this, graph
      ensures Coherent() && (old(Aligned()) ==> Aligned())
      ensures old(Follows()) ==> (Follows() <==> (r.Published? ==> NoOtherRow(old(status), data)))
      ensures byValidity == if r.Published? then FiledOnce(old(byValidity), data) else old(byValidity)
      ensures graph == old(graph) && authority == old(authority)
      ensures Abs() == Insert(old(Abs()), data) && r == InsertOutcome(old(Abs()), data)
    {
      r := Judge(data);
      if r.Published? {
        AdmitKeepsSound(records, data);
        assert status.Keys <= records.Keys ==> NoOtherRow(status, data);
        Accept(data);
      }
    }

    method Accept(data: RecordData)
      requires Views() && Admissible(records, data)
      modifies this, graph
      ensures Views()
      ensures old(Follows()) ==> (Follows() <==> NoOtherRow(old(status), data))
      ensures byValidity == FiledOnce(old(byValidity), data)
      ensures graph == old(graph) && authority == old(authority)
      ensures Abs() == Admit(old(Abs()), data)
    {
      LinkRecord(data);
      CommitLinked(data);
    }

    /** The rest, the graph being ready. */
    method CommitLinked(data: RecordData)
      requires Mirrors(provToState, records) && IndexedFor(records) && GraphViews(records[data.Subject() := data])
      requires data.Provenance() !in provToState && data.Subject() !in records
      modifies this`records, this`provToState, this`status, this`workers,
               this`byModel, this`byAdapter, this`byProducer, this`byExecution, this`byAttempt, this`byDependency,
               this`byArtifact, this`byValidity, this`byEvidence
      ensures Views()
      ensures old(Follows()) ==> (Follows() <==> NoOtherRow(old(status), data))
      ensures byValidity == FiledOnce(old(byValidity), data)
      ensures Abs() == Admit(old(Abs()), data)
    {
      ghost var rs := records[data.Subject() := data];
      Commit(data);
      assert GraphViews(rs) && records == rs;
    }

    /** The refusals, in order; the last is add_node throwing, which nothing catches. */
    method Judge(data: RecordData) returns (r: PublishOutcome)
      requires Mirrors(provToState, records)
      ensures r == InsertOutcome(Abs(), data)
    {
      if data.Subject() in records { return Refused(DuplicateState); }
      if data.Provenance() in provToState { return Refused(DuplicateProvenance); }
      if exists s :: s in data.references.inputStates && s !in records { return Refused(DanglingInput); }
      if exists p :: p in data.references.parentProvenance && p !in provToState { return Refused(DanglingParent); }
      if data.Subject() == 0 { return PublishOutcome.Threw; }
      r := Published(data);
    }

    /** Indexes, record, provenance map, overlay and workers, in that order. */
    method Commit(data: RecordData)
      requires Mirrors(provToState, records) && IndexedFor(records)
      requires data.Provenance() !in provToState && data.Subject() !in records
      modifies this`records, this`provToState, this`status, this`workers,
               this`byModel, this`byAdapter, this`byProducer, this`byExecution, this`byAttempt, this`byDependency,
               this`byArtifact, this`byValidity, this`byEvidence
      ensures Mirrors(provToState, records) && IndexedFor(records)
      ensures records == old(records)[data.Subject() := data]
      ensures old(Follows()) ==> (Follows() <==> NoOtherRow(old(status), data))
      ensures byValidity == FiledOnce(old(byValidity), data)
      ensures Abs() == Admit(old(Abs()), data)
    {
      IndexInsert(data);
      FollowsPublish(byValidity, old(byValidity), records.Keys, status, data);
      FileRecord(data);
    }

    /** The record, its provenance id, its overlay row and its worker. */
    method FileRecord(data: RecordData)
      requires Mirrors(provToState, records) && data.Provenance() !in provToState && data.Subject() !in records
      modifies this`records, this`provToState, this`status, this`workers
      ensures Mirrors(provToState, records) && Abs() == Admit(old(Abs()), data)
      ensures records == old(records)[data.Subject() := data] && records.Keys == old(records).Keys + {data.Subject()}
      ensures status == old(status)[data.Subject() := FirstStatus(data)]
    {
      AdmitProvenance(records, data);
      records := records[data.Subject() := data];
      provToState := provToState[data.Provenance() := data.Subject()];
      status := status[data.Subject() := FirstStatus(data)];
      if data.fencing.workerId != 0 {
        workers := workers + {data.fencing.workerId};
      }
    }

    /** A publish files its subject under its own validity, and leaves every other entry. */
    static function FiledOnce(idx: Index<Validity>, d: RecordData): Index<Validity> {
      Put(idx, d.classification.validity, d.Subject())
    }

    static lemma FollowsPublish(after: Index<Validity>, idx: Index<Validity>, subjects: set<StateId>, st: StatusMap,
                                d: RecordData)
      requires after == FiledOnce(idx, d) && d.Subject() !in subjects
      ensures var (n, row) := (d.Subject(), FirstStatus(d));
              FollowsOverlay(idx, subjects, st) ==>
                (FollowsOverlay(after, subjects + {n}, st[n := row]) <==> NoOtherRow(st, d))
    {
      if FollowsOverlay(idx, subjects, st) {
        PublishFollowsIff(idx, subjects, st, d.Subject(), FirstStatus(d));
      }
    }

    static lemma ParentSetByMap(rs: RecordMap, prov: map<ProvenanceId, StateId>, d: RecordData)
      requires Mirrors(prov, rs) && Resolves(rs, d)
      ensures Elems(d.references.inputStates) + (set p | p in d.references.parentProvenance :: prov[p]) ==
              ParentSet(rs, d)
    {
      forall p | p in d.references.parentProvenance ensures prov[p] in rs && rs[prov[p]].Provenance() == p {
        var s :| s in rs && rs[s].Provenance() == p;
      }
    }

    /** Its node, and an arc from each distinct parent. */
    method LinkRecord(data: RecordData)
      requires graph.Valid() && graph.parents == ParentMap(records)
      requires Admissible(records, data) && Mirrors(provToState, records)
      modifies graph
      ensures graph.Valid() && graph.parents == ParentMap(records[data.Subject() := data])
    {
      ParentSetByMap(records, provToState, data);
      var parentSet := Elems(data.references.inputStates) +
                       set p | p in data.references.parentProvenance :: provToState[p];
      NobodysParent(records, data);
      AdmitViews(records, data);
      assert parentSet == ParentSet(records, data);
      LinkParents(data.Subject(), parentSet);
    }

    /** Register the node and its arcs: every arc is legal, since the node is new and its
        parents are there. */
    method LinkParents(subject: StateId, parentSet: set<StateId>)
      requires graph.Valid() && subject != 0 && subject !in graph.nodes
      requires parentSet <= graph.nodes
      modifies graph
      ensures graph.Valid() && graph.parents == old(graph.parents)[subject := parentSet]
    {
      ghost var base := graph.parents;
      var added := graph.AddNode(subject);
      var ps := Sorted(parentSet);
      assert ps[..0] == [] && Elems(ps[..0]) == {};
      for i := 0 to |ps|
        invariant graph.Valid() && graph.nodes == base.Keys + {subject}
        invariant graph.parents == base[subject := Elems(ps[..i])]
        invariant Childless(graph.children, subject)
      {
        PrefixStep(ps, i);
        assert ps[i] in ps;
        LinkOne(subject, ps[i], base, Elems(ps[..i]));
      }
      PrefixStep(ps, |ps|);
      assert Elems(ps) == parentSet;
    }

    static ghost predicate Childless(children: Adj, subject: StateId) {
      forall y :: !Arc(children, subject, y)
    }

    method LinkOne(subject: StateId, p: StateId, ghost base: Adj, ghost done: set<StateId>)
      requires graph.Valid() && subject in graph.nodes && p in graph.nodes && p != subject && p !in done
      requires graph.parents == base[subject := done] && Childless(graph.children, subject)
      modifies graph
      ensures graph.Valid() && graph.nodes == old(graph.nodes)
      ensures graph.parents == base[subject := done + {p}]
      ensures Childless(graph.children, subject)
    {
      ArcIsLegal(graph.parents, graph.children, subject, p);
      ghost var before := graph.children;
      var linked := graph.AddArc(p, subject);
      assert linked == Ok(true);
      assert base[subject := done][subject := done + {p}] == base[subject := done + {p}];
      assert forall y :: Arc(graph.children, subject, y) <==> Arc(before, subject, y);
    }

    static lemma ArcIsLegal(parents: Adj, children: Adj, subject: StateId, p: StateId)
      requires Transposed(parents, children) && Childless(children, subject)
      requires !Arc(parents, subject, p)
      ensures !Reaches(children, subject, p) && !Arc(children, p, subject)
    {
      if Reaches(children, subject, p) { var y := FirstArc(children, subject, p); }
    }

    method IndexInsert(d: RecordData)
      requires IndexedFor(records) && d.Subject() !in records
      modifies this`byModel, this`byAdapter, this`byProducer, this`byExecution, this`byAttempt, this`byDependency,
               this`byArtifact, this`byValidity, this`byEvidence
      ensures IndexedFor(records[d.Subject() := d])
      ensures byValidity == FiledOnce(old(byValidity), d)
    {
      var s := d.Subject();
      IndexScalars(d);
      IndexDependencies(d);
      byValidity := Put(byValidity, d.classification.validity, s);
      byEvidence := Put(byEvidence, d.classification.evidence, s);
      ScansGrow(old(byEvidence), byEvidence, records, d, EvidenceKeys);
    }

    method IndexScalars(d: RecordData)
      requires IndexedFor(records) && d.Subject() !in records
      modifies this`byModel, this`byAdapter, this`byProducer, this`byExecution, this`byAttempt, this`byArtifact
      ensures var rs := records[d.Subject() := d];
              && Scans(byModel, rs, ModelKeys) && Scans(byAdapter, rs, AdapterKeys)
              && Scans(byProducer, rs, ProducerKeys) && Scans(byExecution, rs, ExecutionKeys)
              && Scans(byAttempt, rs, AttemptKeys) && Scans(byArtifact, rs, ArtifactKeys)
    {
      var s := d.Subject();
      byModel := FileUnder(byModel, d.model.modelId, d, ModelKeys);
      byAdapter := FileUnder(byAdapter, d.composition.adapterId, d, AdapterKeys);
      byProducer := FileUnder(byProducer, d.production.producerId, d, ProducerKeys);
      byExecution := FileUnder(byExecution, d.production.executionId, d, ExecutionKeys);
      byAttempt := FileUnder(byAttempt, d.production.attemptId, d, AttemptKeys);
      byArtifact := FileUnder(byArtifact, d.platform.artifactGeneration, d, ArtifactKeys);
    }

    /** One optional scalar key: filed under it unless it is null. */
    method FileUnder(idx: Index<u64>, key: u64, d: RecordData, ghost keys: RecordData -> set<u64>)
      returns (r: Index<u64>)
      requires Scans(idx, records, keys) && d.Subject() !in records && keys(d) == NonZero(key)
      ensures Scans(r, records[d.Subject() := d], keys)
    {
      r := PutNonZero(idx, key, d.Subject());
      ScansGrow(idx, r, records, d, keys);
    }

    method IndexDependencies(d: RecordData)
      requires Scans(byDependency, records, DependencyKeys) && d.Subject() !in records
      modifies this`byDependency
      ensures Scans(byDependency, records[d.Subject() := d], DependencyKeys)
    {
      var deps := d.references.dependencies;
      for i := 0 to |deps|
        invariant forall k :: Lookup(byDependency, k) == (Lookup(old(byDependency), k) +
                                if exists j :: 0 <= j < i && deps[j].id == k && k != 0 then {d.Subject()} else {})
      {
        byDependency := PutNonZero(byDependency, deps[i].id, d.Subject());
      }
      forall k ensures k in DependencyKeys(d) <==> exists j :: 0 <= j < |deps| && deps[j].id == k && k != 0 {
        if j :| 0 <= j < |deps| && deps[j].id == k && k != 0 { assert deps[j] in deps; }
      }
      ScansGrow(old(byDependency), byDependency, records, d, DependencyKeys);
    }

    // --------------------------------------------------------------------- authority

    method RollEpoch() returns (e: u64)
      modifies authority
      ensures Abs() == old(Abs()).(authority := F.Apply(old(Abs()).authority, F.RollEpoch)) &&
              e == Abs().authority.epoch
    {
      e := authority.RollEpoch();
    }

    /** Registering a boot does not make the worker known to snapshots. */
    method RegisterBoot(w: WorkerId, b: u64)
      modifies authority
      ensures Abs() == old(Abs()).(authority := F.Apply(old(Abs()).authority, F.RegisterBoot(w, b)))
    {
      authority.RegisterBoot(w, b);
    }

    method BeginAttempt(id: u64, g: u64)
      modifies authority
      ensures Abs() == old(Abs()).(authority := F.Apply(old(Abs()).authority, F.BeginAttempt(id, g)))
    {
      authority.BeginAttempt(id, g);
    }

    method SetGeneration(d: F.FenceDimension, g: u64)
      modifies authority
      ensures Abs() == old(Abs()).(authority := F.Apply(old(Abs()).authority, F.SetGeneration(d, g)))
    {
      authority.SetGeneration(d, g);
    }

    // ----------------------------------------------------------------------- queries

    /** Finds the one record with that provenance id, if there is one. */
    method FindByProvenance(p: ProvenanceId) returns (r: Option<RecordData>)
      requires Coherent()
      ensures r.Some? ==> r.value.Provenance() == p
      ensures r.Some? ==> r.value.Subject() in records && records[r.value.Subject()] == r.value
      ensures r.None? ==> forall s :: s in records ==> records[s].Provenance() != p
    {
      if p !in provToState { return None; }
      ghost var s :| s in records && records[s].Provenance() == p;
      r := if provToState[p] in records then Some(records[provToState[p]]) else None;
    }

    /** Every record index is queried alike: the subjects a full scan would find, in order. */
    method Query<K(!new)>(idx: Index<K>, k: K, ghost keys: RecordData -> set<K>) returns (r: seq<StateId>)
      requires Scans(idx, records, keys)
      ensures Increasing(r) && forall s :: s in r <==> s in records && k in keys(records[s])
    {
      r := Sorted(Lookup(idx, k));
    }

    method ByModel(id: u64) returns (r: seq<StateId>)
      requires Scans(byModel, records, ModelKeys)
      ensures Increasing(r) && forall s :: s in r <==> s in records && id != 0 && records[s].model.modelId == id
    {
      r := Query(byModel, id, ModelKeys);
    }

    method ByAdapter(id: u64) returns (r: seq<StateId>)
      requires Scans(byAdapter, records, AdapterKeys)
      ensures Increasing(r)
      ensures forall s :: s in r <==> s in records && id != 0 && records[s].composition.adapterId == id
    {
      r := Query(byAdapter, id, AdapterKeys);
    }

    method ByProducer(id: u64) returns (r: seq<StateId>)
      requires Scans(byProducer, records, ProducerKeys)
      ensures Increasing(r)
      ensures forall s :: s in r <==> s in records && id != 0 && records[s].production.producerId == id
    {
      r := Query(byProducer, id, ProducerKeys);
    }

    method ByExecution(id: u64) returns (r: seq<StateId>)
      requires Scans(byExecution, records, ExecutionKeys)
      ensures Increasing(r)
      ensures forall s :: s in r <==> s in records && id != 0 && records[s].production.executionId == id
    {
      r := Query(byExecution, id, ExecutionKeys);
    }

    method ByAttempt(id: u64) returns (r: seq<StateId>)
      requires Scans(byAttempt, records, AttemptKeys)
      ensures Increasing(r)
      ensures forall s :: s in r <==> s in records && id != 0 && records[s].production.attemptId == id
    {
      r := Query(byAttempt, id, AttemptKeys);
    }

    method ByArtifactGeneration(g: u64) returns (r: seq<StateId>)
      requires Scans(byArtifact, records, ArtifactKeys)
      ensures Increasing(r)
      ensures forall s :: s in r <==> s in records && g != 0 && records[s].platform.artifactGeneration == g
    {
      r := Query(byArtifact, g, ArtifactKeys);
    }

    method ByEvidence(e: EvidenceClass) returns (r: seq<StateId>)
      requires Scans(byEvidence, records, EvidenceKeys)
      ensures Increasing(r) && forall s :: s in r <==> s in records && records[s].classification.evidence == e
    {
      r := Query(byEvidence, e, EvidenceKeys);
    }

    method ByDependency(id: u64) returns (r: seq<StateId>)
      requires Scans(byDependency, records, DependencyKeys)
      ensures Increasing(r)
      ensures forall s :: s in r <==>
                s in records && id != 0 && exists p :: p in records[s].references.dependencies && p.id == id
    {
      r := Query(byDependency, id, DependencyKeys);
    }

    /** by_validity answers from the live overlay, not from the immutable records, as long as
        the index follows it. */
    method ByValidity(v: Validity) returns (r: seq<StateId>)
      ensures Increasing(r) && forall s :: s in r <==> s in Lookup(byValidity, v)
      ensures Follows() ==> forall s :: s in r <==> (s in records || s in status) && CurrentValidity(status, s) == v
      ensures Aligned() ==> forall s :: s in r <==> s in records && CurrentValidity(status, s) == v
    {
      r := Sorted(Lookup(byValidity, v));
    }

    // ------------------------------------------------------------------------- reuse

    method CheckReuse(id: StateId, q: ReuseRequest) returns (d: ReuseDecision)
      requires Coherent()
      ensures d == Registry.CheckReuse(Abs(), id, q)
    {
      if id !in records { return ReuseDecision(UnknownEligibility, []); }
      if id in status {
        if status[id].validity == Invalidated { return ReuseDecision(InvalidatedState, []); }
        if status[id].validity == Stale { return ReuseDecision(StaleState, []); }
        if status[id].validity == UnknownValidity { return ReuseDecision(UnknownEligibility, []); }
      }
      d := EvaluateReuse(records[id], q);
      var anc := graph.Ancestors(id);
      var ancestorInvalid := AnyWith(anc, Invalidated);
      if ancestorInvalid {
        d := ReuseDecision(InvalidatedState, []);
      } else {
        var ancestorStale := AnyWith(anc, Stale);
        if ancestorStale && d.eligibility != InvalidatedState {
          d := ReuseDecision(StaleState, []);
        }
      }
    }

    method AnyWith(anc: seq<StateId>, v: Validity) returns (b: bool)
      ensures b <==> exists a :: a in anc && a in status && status[a].validity == v
    {
      b := false;
      for i := 0 to |anc|
        invariant b <==> exists a :: a in anc[..i] && a in status && status[a].validity == v
      {
        SplitAt(anc, i);
        if anc[i] in status && status[anc[i]].validity == v { b := true; }
      }
      assert anc[..|anc|] == anc;
    }

    // ------------------------------------------------------------------ invalidation

    /** Only the overlay and the validity index change, so the store stays coherent. */
    method Invalidate(subj: I.InvalidatingSubject) returns (ok: bool, res: Option<I.InvalidationResult>)
      requires Coherent()
      modifies this`status, this`byValidity
      ensures (old(Aligned()) ==> Aligned()) && (old(Follows()) ==> Follows())
      ensures Abs() == Registry.Invalidate(old(Abs()), subj.subject, subj.reason, subj.detail)
      ensures ok ==> CondemnedAll(old(Abs()), status, subj.subject, subj.reason, subj.detail)
      ensures ok == res.Some? == (subj.subject in records)
      ensures ok ==> Affects(graph.children, records, subj, res.value)
    {
      ghost var st := Abs();
      ok, res := InvalidateKnown(subj);
      InvalidateIs(st, subj.subject, subj.reason, subj.detail);
    }

    method InvalidateKnown(subj: I.InvalidatingSubject) returns (ok: bool, res: Option<I.InvalidationResult>)
      requires Coherent()
      modifies this`status, this`byValidity
      ensures (old(Aligned()) ==> Aligned()) && (old(Follows()) ==> Follows())
      ensures Abs() == Registry.Invalidate(old(Abs()), subj.subject, subj.reason, subj.detail)
      ensures ok == res.Some? == (subj.subject in records)
      ensures ok ==> Affects(graph.children, records, subj, res.value)
    {
      if subj.subject !in records { return false, None; }
      var result := Propagate(subj);
      MarkAll(subj, result);
      ok, res := true, Some(result);
    }

    /** What one invalidating subject propagates to: itself and everything derived from it. */
    static ghost predicate Affects(children: Adj, rs: RecordMap, subj: I.InvalidatingSubject, r: I.InvalidationResult) {
      && I.Propagated(children, {subj.subject}, r)
      && Increasing(r.affected) && Elems(r.affected) == AffectedBy(rs, subj.subject)
      && subj.subject in r.rootReason && r.rootReason[subj.subject] == subj.reason
      && forall a :: a in r.affected ==> a in rs && a in r.rootOf && r.rootOf[a] == subj.subject
    }

    method Propagate(subj: I.InvalidatingSubject) returns (r: I.InvalidationResult)
      requires Coherent() && subj.subject in records
      ensures Affects(graph.children, records, subj, r)
    {
      r := I.PropagateInvalidation(graph, [subj]);
      assert I.Subjects([subj]) == {subj.subject} by { assert [subj][0].subject == subj.subject; }
      assert I.FirstEntry([subj], 0);
      SingleRoot(graph.parents, graph.children, records, subj.subject, r);
    }

    /** Every affected subject, in order: overwrite its overlay row and move it in the index. */
    method MarkAll(subj: I.InvalidatingSubject, result: I.InvalidationResult)
      requires subj.subject in result.rootReason && result.rootReason[subj.subject] == subj.reason
      requires forall a :: a in result.affected ==>
               a in records && a in result.rootOf && result.rootOf[a] == subj.subject
      requires Increasing(result.affected) && Elems(result.affected) == AffectedBy(records, subj.subject)
      modifies this`status, this`byValidity
      ensures status == Marked(old(Abs()), subj.subject, subj.reason, subj.detail, Elems(result.affected))
      ensures old(Follows()) ==> Follows()
    {
      var affected := result.affected;
      ghost var st := Abs();
      ghost var followed := Follows();
      assert affected[..0] == [] && Marked(st, subj.subject, subj.reason, subj.detail, {}) == status;
      for i := 0 to |affected|
        invariant status == Marked(st, subj.subject, subj.reason, subj.detail, Elems(affected[..i]))
        invariant followed ==> Follows()
      {
        var a := affected[i];
        assert a in affected;
        PrefixStep(affected, i);
        var oldv := CurrentValidity(status, a);
        var root := if a in result.rootOf then result.rootOf[a] else a;
        var row := RecordStatus(Invalidated,
                                if root in result.rootReason then result.rootReason[root] else subj.reason,
                                if a in status then status[a].provenanceGeneration else 0,
                                if a == subj.subject then (if subj.detail == [] then OperatorDetail else subj.detail)
                                else DependsDetail(root));
        MarkedStep(st, subj.subject, subj.reason, subj.detail, Elems(affected[..i]), a);
        if followed { MoveFollows(byValidity, records.Keys, status, a, row); }
        status := status[a := row];
        byValidity := MoveToInvalidated(byValidity, oldv, a);
      }
      PrefixStep(affected, |affected|);
    }

    static lemma MarkedStep(st: State, x: StateId, reason: Reason, detail: Bytes, done: set<StateId>, a: StateId)
      requires a !in done
      ensures Marked(st, x, reason, detail, done + {a}) ==
              Marked(st, x, reason, detail, done)[a := InvalidatedStatus(st, x, reason, detail, a)]
      ensures a in Marked(st, x, reason, detail, done) <==> a in st.status
      ensures a in st.status ==> Marked(st, x, reason, detail, done)[a] == st.status[a]
    {
      assert Marked(st, x, reason, detail, done + {a}).Keys == Marked(st, x, reason, detail, done).Keys + {a};
    }

    ghost static function Marked(st: State, x: StateId, reason: Reason, detail: Bytes, done: set<StateId>): StatusMap {
      map s | s in st.status.Keys + done ::
        if s in done then InvalidatedStatus(st, x, reason, detail, s) else st.status[s]
    }

    static lemma SingleRoot(parents: Adj, children: Adj, rs: RecordMap, x: StateId, r: I.InvalidationResult)
      requires Transposed(parents, children) && parents == ParentMap(rs) && Sound(rs) && x in rs
      requires I.Propagated(children, {x}, r)
      ensures Elems(r.affected) == AffectedBy(rs, x)
      ensures forall a :: a in r.affected ==> a in rs && a in r.rootOf && r.rootOf[a] == x
    {
      forall a ensures a in r.affected <==> a in AffectedBy(rs, x) {
        I.AffectedIffReached(children, {x}, r, a);
        ReachTransposed(parents, children, a, x);
        if Reaches(parents, a, x) { var y := FirstArc(parents, a, x); }
      }
      forall a | a in r.affected ensures a in r.rootOf && r.rootOf[a] == x {
        I.AffectedIffReached(children, {x}, r, a);
        I.RootOfIsRoot(children, {x}, r, a);
      }
    }

    // -------------------------------------------------------------- snapshot, restore

    method TakeSnapshot() returns (s: Snapshot)
      ensures s == Registry.TakeSnapshot(Abs())
    {
      var list := ListRecords();
      var view := authority.View();
      s := Snapshot(list, status, view.(boots := map w | w in workers && w in view.boots :: view.boots[w]));
    }

    method ListRecords() returns (list: seq<RecordData>)
      ensures list == RecordList(records)
    {
      var ids := Sorted(records.Keys);
      ghost var all := RecordList(records);
      list := [];
      for i := 0 to |ids|
        invariant list == all[..i]
      {
        assert ids[i] in ids;
        SplitAt(all, i);
        list := list + [records[ids[i]]];
      }
      assert all[..|ids|] == all;
    }

    /** Parents before children; nothing at all if the snapshot's graph has a cycle. */
    static method RecordsInTopoOrder(l: seq<RecordData>) returns (out: seq<RecordData>)
      ensures |RestoreOrder(l)| != |l| ==> out == []
      ensures |RestoreOrder(l)| == |l| ==> |out| == |l| && forall i :: 0 <= i < |l| ==>
              out[i] == ById(l)[RestoreOrder(l)[i]]
    {
      var provMap, byId := Keyed(l);
      var parentsMap := SortParentsOf(l, provMap, byId);
      var childrenOf := ChildrenOf(parentsMap);
      var order := Kahn.Drain(parentsMap, childrenOf);
      assert order == RestoreOrder(l);
      out := [];
      if |order| != |l| { return; }
      for i := 0 to |order|
        invariant |out| == i && forall j :: 0 <= j < i ==> out[j] == byId[order[j]]
      {
        assert order[i] in order;
        out := out + [byId[order[i]]];
      }
    }

    static method ChildrenOf(parents: Adj) returns (children: Adj)
      ensures Transposed(parents, children)
    {
      children := map[];
      var ids := Sorted(parents.Keys);
      assert Elems(ids[..0]) == {};
      for i := 0 to |ids|
        invariant TurnedUpTo(parents, children, Elems(ids[..i]))
      {
        PrefixStep(ids, i);
        assert ids[i] in ids;
        TurnNext(parents, children, Elems(ids[..i]), ids[i]);
        children := WithChild(children, parents[ids[i]], ids[i]);
      }
      PrefixStep(ids, |ids|);
    }

    static ghost predicate TurnedUpTo(parents: Adj, children: Adj, done: set<StateId>) {
      forall c, p :: Arc(children, p, c) <==> c in done && Arc(parents, c, p)
    }

    static function WithChild(children: Adj, ps: set<StateId>, c: StateId): Adj {
      map p | p in children.Keys + ps ::
        (if p in children then children[p] else {}) + (if p in ps then {c} else {})
    }

    static lemma TurnNext(parents: Adj, children: Adj, done: set<StateId>, c: StateId)
      requires TurnedUpTo(parents, children, done) && c in parents
      ensures TurnedUpTo(parents, WithChild(children, parents[c], c), done + {c})
    {
      var after := WithChild(children, parents[c], c);
      forall d, p ensures Arc(after, p, d) <==> d in done + {c} && Arc(parents, d, p) {
        assert Arc(children, p, d) <==> d in done && Arc(parents, d, p);
      }
    }

    static method Keyed(l: seq<RecordData>) returns (provMap: map<ProvenanceId, StateId>, byId: RecordMap)
      ensures provMap == ByProvenance(l) && byId == ById(l)
    {
      provMap, byId := map[], map[];
      for i := 0 to |l|
        invariant provMap == ByProvenance(l[..i]) && byId == ById(l[..i])
      {
        Recovery.KeyedSnoc(l, i);
        provMap := provMap[l[i].Provenance() := l[i].Subject()];
        byId := byId[l[i].Subject() := l[i]];
      }
      assert l[..|l|] == l;
    }

    static method SortParentsOf(l: seq<RecordData>, provMap: map<ProvenanceId, StateId>,
                                ghost byId: RecordMap) returns (g: Adj)
      requires provMap == ByProvenance(l) && byId == ById(l)
      ensures g == SortMap(l)
    {
      g := map[];
      for i := 0 to |l|
        invariant g == Recovery.SortParentsMap(provMap, ById(l[..i]))
      {
        Recovery.KeyedSnoc(l, i);
        g := g[l[i].Subject() := SortParents(provMap, l[i])];
      }
      assert l[..|l|] == l;
    }

    /** A new authority object, set as persisted. */
    static method RebuildAuthority(a: F.Authority) returns (r: F.AuthorityState)
      ensures fresh(r) && r.View() == a.(epoch := if a.epoch == 0 then 1 else a.epoch)
    {
      r := new F.AuthorityState();
      r.SetEpoch(a.epoch);
      r.BeginAttempt(a.attemptId, a.attemptGeneration);
      SetGenerations(r, a);
      RegisterBoots(r, a.boots);
    }

    static method SetGenerations(r: F.AuthorityState, a: F.Authority)
      modifies r
      ensures r.View() == a.(epoch := old(r.View().epoch), attemptId := old(r.View().attemptId),
                             attemptGeneration := old(r.View().attemptGeneration), boots := old(r.View().boots))
    {
      SetSubjectGenerations(r, a);
      r.SetGeneration(F.AdapterGeneration, a.adapterGeneration);
      r.SetGeneration(F.CompositionGeneration, a.compositionGeneration);
      r.SetGeneration(F.PolicyGeneration, a.policyGeneration);
      r.SetGeneration(F.DependencyGeneration, a.dependencyGeneration);
    }

    static method SetSubjectGenerations(r: F.AuthorityState, a: F.Authority)
      modifies r
      ensures r.View() == old(r.View()).(
                stateGeneration := a.stateGeneration, provenanceGeneration := a.provenanceGeneration,
                artifactGeneration := a.artifactGeneration, modelGeneration := a.modelGeneration)
    {
      r.SetGeneration(F.StateGeneration, a.stateGeneration);
      r.SetGeneration(F.ProvenanceGeneration, a.provenanceGeneration);
      r.SetGeneration(F.ArtifactGeneration, a.artifactGeneration);
      r.SetGeneration(F.ModelGeneration, a.modelGeneration);
    }

    static method RegisterBoots(r: F.AuthorityState, boots: map<WorkerId, u64>)
      requires r.boot == map[]
      modifies r`boot
      ensures r.boot == boots
    {
      var ids := Sorted(boots.Keys);
      assert Elems(ids[..0]) == {};
      for i := 0 to |ids|
        invariant r.boot == Among(boots, Elems(ids[..i]))
      {
        PrefixStep(ids, i);
        assert ids[i] in ids;
        AmongNext(boots, Elems(ids[..i]), ids[i]);
        r.RegisterBoot(ids[i], boots[ids[i]]);
      }
      PrefixStep(ids, |ids|);
      assert Among(boots, Elems(ids)) == boots;
    }

    static ghost function Among(boots: map<WorkerId, u64>, done: set<WorkerId>): map<WorkerId, u64> {
      map w | w in boots && w in done :: boots[w]
    }

    static lemma AmongNext(boots: map<WorkerId, u64>, done: set<WorkerId>, w: WorkerId)
      requires w in boots
      ensures Among(boots, done + {w}) == Among(boots, done)[w := boots[w]]
    {
    }

    /** Forget everything, then take the persisted authority and the workers it names. */
    method Clear(s: Snapshot)
      modifies this
      ensures fresh(graph) && fresh(authority)
      ensures Coherent() && Aligned() && Abs() == Cleared(s)
    {
      var rebuilt := RebuildAuthority(s.authority);
      ClearRecords();
      authority, workers := rebuilt, s.authority.boots.Keys;
    }

    method ClearRecords()
      modifies this
      ensures fresh(graph) && Coherent() && Aligned() && records == map[] && status == map[]
    {
      records, provToState, status := map[], map[], map[];
      graph := new ProvenanceGraph();
      ClearIndexes();
      Recovery.EmptyIsSound();
    }

    method ClearIndexes()
      modifies this`byModel, this`byAdapter, this`byProducer, this`byExecution, this`byAttempt, this`byDependency,
               this`byArtifact, this`byValidity, this`byEvidence
      ensures IndexedFor(map[]) && byValidity == map[]
    {
      byModel, byAdapter, byProducer, byExecution, byAttempt := map[], map[], map[], map[], map[];
      byDependency, byArtifact, byValidity, byEvidence := map[], map[], map[], map[];
    }

    /** Rebuild the store from a snapshot.  The results of the insertions are ignored. */
    method Restore(s: Snapshot) returns (outcome: RestoreOutcome)
      modifies this
      ensures fresh(graph) && fresh(authority) && Coherent() && Follows()
      ensures Abs() == Registry.Restore(s).0 && outcome == Registry.Restore(s).1
      ensures Aligned() <==> (outcome == Restored ==> s.status.Keys <= records.Keys)
    {
      outcome := Reload(s);
      if outcome == Restored { Overlay(s.status); }
    }

    method Reload(s: Snapshot) returns (outcome: RestoreOutcome)
      modifies this
      ensures Coherent() && Aligned() && fresh(graph) && fresh(authority)
      ensures outcome == Registry.Restore(s).1
      ensures Registry.Restore(s).0 == if outcome == Restored then Abs().(status := s.status) else Abs()
    {
      Clear(s);
      outcome := Replay(s);
    }

    method Overlay(st: StatusMap)
      requires Coherent()
      modifies this`status, this`byValidity
      ensures Coherent() && Follows()
      ensures Abs() == old(Abs()).(status := st)
    {
      status := st;
      RebuildValidity();
    }

    method Replay(s: Snapshot) returns (outcome: RestoreOutcome)
      requires Coherent() && Aligned() && Abs() == Cleared(s)
      modifies this, graph
      ensures Coherent() && Aligned() && graph == old(graph) && authority == old(authority)
      ensures outcome == Registry.Restore(s).1
      ensures Registry.Restore(s).0 == if outcome == Restored then Abs().(status := s.status) else Abs()
    {
      var order := RecordsInTopoOrder(s.records);
      if |order| != |s.records| { return CycleRefused; }
      var ok := InsertAll(order, s);
      outcome := if ok then Restored else GraphThrew;
    }

    method InsertAll(order: seq<RecordData>, ghost s: Snapshot) returns (ok: bool)
      requires Coherent() && Aligned() && Abs() == Cleared(s)
      requires |order| == |RestoreOrder(s.records)|
      requires forall i :: 0 <= i < |order| ==> order[i] == ById(s.records)[RestoreOrder(s.records)[i]]
      modifies this, graph
      ensures Coherent() && Aligned() && graph == old(graph) && authority == old(authority)
      ensures (Abs(), ok) == Refill(Cleared(s), ById(s.records), RestoreOrder(s.records))
    {
      ghost var rs, ids: seq<StateId> := ById(s.records), RestoreOrder(s.records);
      for i := 0 to |order|
        invariant Coherent() && Aligned() && graph == old(graph) && authority == old(authority)
        invariant Recovery.RefilledTo(Cleared(s), rs, ids, i, Abs(), true)
      {
        ok := InsertNext(order[i], Cleared(s), rs, ids, i);
        if !ok {
          Recovery.ThrownStays(Cleared(s), rs, ids, i + 1);
          return;
        }
      }
      assert ids[..|ids|] == ids;
      ok := true;
    }

    /** One insertion of a restore; its refusal is ignored. */
    method InsertNext(d: RecordData, ghost start: State, ghost rs: RecordMap, ghost ids: seq<StateId>, ghost i: nat)
      returns (ok: bool)
      requires Coherent() && Aligned() && i < |ids| && (forall x :: x in ids ==> x in rs) && d == rs[ids[i]]
      requires Recovery.RefilledTo(start, rs, ids, i, Abs(), true)
      modifies this, graph
      ensures Coherent() && Aligned() && graph == old(graph) && authority == old(authority)
      ensures Recovery.RefilledTo(start, rs, ids, i + 1, Abs(), ok)
    {
      Recovery.RefillNext(start, rs, ids, i, Abs());
      var r := InsertValidated(d);
      ok := !r.Threw?;
    }

    /** The validity index, from the overlay, then from records the overlay does not list. */
    method RebuildValidity()
      modifies this`byValidity
      ensures Follows()
    {
      byValidity := map[];
      FileValidities(status.Keys, {});
      FileValidities(records.Keys - status.Keys, status.Keys);
      assert status.Keys + (records.Keys - status.Keys) == records.Keys + status.Keys;
    }

    static lemma OneMoreOf(done: set<StateId>, ids: seq<StateId>, i: nat)
      requires Increasing(ids) && i < |ids|
      ensures done + Elems(ids[..i + 1]) == done + Elems(ids[..i]) + {ids[i]}
    {
      PrefixStep(ids, i);
    }

    method FileValidities(subjects: set<StateId>, ghost done: set<StateId>)
      requires FiledUnder(byValidity, status, done)
      modifies this`byValidity
      ensures FiledUnder(byValidity, status, done + subjects)
    {
      var ids := Sorted(subjects);
      ghost var filed := done;
      for i := 0 to |ids|
        invariant filed == done + Elems(ids[..i]) && FiledUnder(byValidity, status, filed)
      {
        OneMoreOf(done, ids, i);
        FileNext(byValidity, status, filed, ids[i]);
        byValidity := Put(byValidity, CurrentValidity(status, ids[i]), ids[i]);
        filed := filed + {ids[i]};
      }
      PrefixStep(ids, |ids|);
      assert filed == done + subjects;
    }
  }
}
