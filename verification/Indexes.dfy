/** The secondary indexes of store.hpp: maps from a key to the subjects filed under it.
    An absent key and an empty set answer a query alike. */
module Indexes {
  import opened Ids
  import opened Records
  import opened Registry

  type Index<K> = map<K, set<StateId>>

  function Lookup<K>(idx: Index<K>, k: K): set<StateId> {
    if k in idx then idx[k] else {}
  }

  function Put<K>(idx: Index<K>, k: K, s: StateId): Index<K> {
    idx[k := Lookup(idx, k) + {s}]
  }

  function Erase<K>(idx: Index<K>, k: K, s: StateId): Index<K> {
    idx[k := Lookup(idx, k) - {s}]
  }

  /** Every lookup answers what a full scan of the records would. */
  ghost predicate Scans<K(!new)>(idx: Index<K>, rs: RecordMap, keys: RecordData -> set<K>) {
    forall k, s {:trigger s in Lookup(idx, k)} :: s in Lookup(idx, k) <==> s in rs && k in keys(rs[s])
  }

  /** Filing a new record under exactly its keys keeps an index exact. */
  lemma ScansGrow<K(!new)>(idx: Index<K>, after: Index<K>, rs: RecordMap, d: RecordData, keys: RecordData -> set<K>)
    requires Scans(idx, rs, keys) && d.Subject() !in rs
    requires forall k :: Lookup(after, k) == Lookup(idx, k) + (if k in keys(d) then {d.Subject()} else {})
    ensures Scans(after, rs[d.Subject() := d], keys)
  {
  }

  function NonZero(x: u64): set<u64> {
    if x != 0 then {x} else {}
  }

  function PutNonZero(idx: Index<u64>, k: u64, s: StateId): (r: Index<u64>)
    ensures forall j :: Lookup(r, j) == Lookup(idx, j) + (if j in NonZero(k) then {s} else {})
  {
    if k != 0 then Put(idx, k, s) else idx
  }

  function ModelKeys(d: RecordData): set<u64> { NonZero(d.model.modelId) }
  function AdapterKeys(d: RecordData): set<u64> { NonZero(d.composition.adapterId) }
  function ProducerKeys(d: RecordData): set<u64> { NonZero(d.production.producerId) }
  function ExecutionKeys(d: RecordData): set<u64> { NonZero(d.production.executionId) }
  function AttemptKeys(d: RecordData): set<u64> { NonZero(d.production.attemptId) }
  function ArtifactKeys(d: RecordData): set<u64> { NonZero(d.platform.artifactGeneration) }
  function EvidenceKeys(d: RecordData): set<EvidenceClass> { {d.classification.evidence} }
  function DependencyKeys(d: RecordData): set<u64> {
    set p | p in d.references.dependencies && p.id != 0 :: p.id
  }

  // ------------------------------------------------------- the current-validity index

  type StatusMap = map<StateId, RecordStatus>

  function CurrentValidity(status: StatusMap, s: StateId): Validity {
    if s in status then status[s].validity else Valid
  }

  /** The validity index follows the overlay; a record without an overlay row counts as valid. */
  ghost predicate FollowsOverlay(idx: Index<Validity>, subjects: set<StateId>, status: StatusMap) {
    forall v, s {:trigger s in Lookup(idx, v)} :: s in Lookup(idx, v) <==>
      (s in subjects || s in status) && CurrentValidity(status, s) == v
  }

  /** No overlay row is there already that files the subject under another validity. */
  ghost predicate NoOtherRow(status: StatusMap, d: RecordData) {
    d.Subject() in status ==> status[d.Subject()].validity == d.classification.validity
  }

  /** Publishing keeps the validity index exact, except over an orphaned overlay row (one
      without a record, as a hand-made snapshot can contain) of another validity. */
  lemma PublishFollowsIff(idx: Index<Validity>, subjects: set<StateId>, status: StatusMap, s: StateId,
                          row: RecordStatus)
    requires FollowsOverlay(idx, subjects, status) && s !in subjects
    ensures FollowsOverlay(Put(idx, row.validity, s), subjects + {s}, status[s := row]) <==>
            (s !in status || status[s].validity == row.validity)
  {
    var after, st1 := Put(idx, row.validity, s), status[s := row];
    if s in status && status[s].validity != row.validity {
      var before := status[s].validity;
      assert CurrentValidity(status, s) == before && s in Lookup(idx, before);
      assert s in Lookup(after, before) && CurrentValidity(st1, s) != before;
    } else {
      forall v, t ensures t in Lookup(after, v) <==> (t in subjects + {s} || t in st1) && CurrentValidity(st1, t) == v {
        assert t in Lookup(idx, v) <==> (t in subjects || t in status) && CurrentValidity(status, t) == v;
      }
    }
  }

  function MoveToInvalidated(idx: Index<Validity>, v: Validity, s: StateId): Index<Validity> {
    if v != Invalidated then Put(Erase(idx, v, s), Invalidated, s) else idx
  }

  lemma MoveFollows(idx: Index<Validity>, subjects: set<StateId>, status: StatusMap, s: StateId, row: RecordStatus)
    requires FollowsOverlay(idx, subjects, status) && s in subjects && row.validity == Invalidated
    ensures FollowsOverlay(MoveToInvalidated(idx, CurrentValidity(status, s), s), subjects, status[s := row])
  {
    var after, st1 := MoveToInvalidated(idx, CurrentValidity(status, s), s), status[s := row];
    forall v, t ensures t in Lookup(after, v) <==> (t in subjects || t in st1) && CurrentValidity(st1, t) == v {
      assert t in Lookup(idx, v) <==> (t in subjects || t in status) && CurrentValidity(status, t) == v;
      assert t != s ==> (t in Lookup(after, v) <==> t in Lookup(idx, v));
    }
  }

  // ------------------------------------------------- rebuilding the validity index

  ghost predicate FiledUnder(idx: Index<Validity>, status: StatusMap, done: set<StateId>) {
    forall v, s {:trigger s in Lookup(idx, v)} :: s in Lookup(idx, v) <==> s in done && CurrentValidity(status, s) == v
  }

  lemma FileNext(idx: Index<Validity>, status: StatusMap, done: set<StateId>, s: StateId)
    requires FiledUnder(idx, status, done)
    ensures FiledUnder(Put(idx, CurrentValidity(status, s), s), status, done + {s})
  {
    var after := Put(idx, CurrentValidity(status, s), s);
    forall v, t ensures t in Lookup(after, v) <==> t in done + {s} && CurrentValidity(status, t) == v {
      assert t in Lookup(idx, v) <==> t in done && CurrentValidity(status, t) == v;
    }
  }
}
