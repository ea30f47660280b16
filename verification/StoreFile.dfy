/** A restart of a whole store through a file. */
module StoreFile {
  import opened Ids
  import opened Records
  import opened Registry
  import opened SnapshotCodec
  import opened Durability
  import opened SnapshotFile
  import opened FileIntegrity
  import opened ProvenanceStore
  import Runs

  /** Saving a store and restoring another from the file: nothing is refused, dropped or
      thrown, and records, overlay, indexes, graph and authority come back (the boots of
      unknown workers excepted), whenever the payload fits the file's bound. */
  method SaveAndRecover(store: Store, other: Store) returns (written: bool, loaded: bool)
    requires store != other && store.Coherent() && Runs.Consistent(store.Abs())
    modifies other
    ensures written <==> Writable(TakeSnapshot(store.Abs()))
    ensures loaded <==> written && |Encoded(TakeSnapshot(store.Abs()))| <= MAX_PAYLOAD
    ensures loaded ==> other.Valid() && other.Abs() == Runs.Recovered(store.Abs())
  {
    loaded := false;
    var s := store.TakeSnapshot();
    var file := SaveFile(s);
    written := file.Some?;
    if written { loaded := Recover(other, file.value, store.Abs()); }
  }

  method Recover(other: Store, file: Bytes, ghost st: State) returns (loaded: bool)
    requires Runs.Consistent(st) && Writable(TakeSnapshot(st)) && file == FileBytes(0, Encoded(TakeSnapshot(st)))
    modifies other
    ensures loaded <==> |Encoded(TakeSnapshot(st))| <= MAX_PAYLOAD
    ensures loaded ==> other.Valid() && other.Abs() == Runs.Recovered(st)
  {
    var r := LoadFile(file);
    OwnSnapshotLoads(st, r);
    if r.Failed? { return false; }
    loaded := true;
    RestoreOwn(other, r.snapshot, st);
  }

  method RestoreOwn(other: Store, s: Snapshot, ghost st: State)
    requires Runs.Consistent(st) && s == TakeSnapshot(st)
    modifies other
    ensures other.Valid() && other.Abs() == Runs.Recovered(st)
  {
    OwnOutcome(st);
    var outcome := other.Restore(s);
  }

  lemma OwnOutcome(st: State)
    requires Runs.Consistent(st)
    ensures Registry.Restore(TakeSnapshot(st)) == (Runs.Recovered(st), Restored)
    ensures TakeSnapshot(st).status.Keys <= Runs.Recovered(st).records.Keys
  {
    Runs.RestoreOfSnapshot(st);
  }

  lemma OwnSnapshotLoads(st: State, r: LoadOutcome)
    requires Runs.Consistent(st) && Writable(TakeSnapshot(st))
    requires r.Loaded? ==> Accepted(FileBytes(0, Encoded(TakeSnapshot(st))), r.snapshot)
    requires r.Failed? ==> forall v :: !Accepted(FileBytes(0, Encoded(TakeSnapshot(st))), v)
    ensures r.Loaded? <==> |Encoded(TakeSnapshot(st))| <= MAX_PAYLOAD
    ensures r.Loaded? ==> r.snapshot == TakeSnapshot(st)
  {
    var s := TakeSnapshot(st);
    RecordsListed(st.records);
    SaveThenLoad(s, s);
    if r.Loaded? { SaveThenLoad(s, r.snapshot); }
  }
}
