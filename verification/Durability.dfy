/** What the snapshot codec guarantees: round trips, prefix-freeness, canonical bytes, and
    that a store's own snapshots qualify. */
module Durability {
  import opened Ids
  import opened Orders
  import opened Records
  import opened Wire
  import opened RecordCodec
  import opened Registry
  import opened SnapshotCodec
  import Recovery
  import Runs

  // ------------------------------------------------------------------ maps and lists

  ghost predicate InOrder<V>(xs: seq<Keyed<V>>) {
    forall i, j :: 0 <= i < j < |xs| ==> xs[i].key < xs[j].key
  }

  function Keys<V>(xs: seq<Keyed<V>>): seq<u64> {
    seq(|xs|, i requires 0 <= i < |xs| => xs[i].key)
  }

  lemma {:induction false} MapHolds<V>(xs: seq<Keyed<V>>)
    ensures forall k :: k in MapOf(xs) <==> k in Keys(xs)
    ensures forall k :: k in MapOf(xs) ==> Keyed(k, MapOf(xs)[k]) in xs
  {
    if xs == [] {
      assert Keys(xs) == [];
    } else {
      var p, x := xs[..|xs| - 1], xs[|xs| - 1];
      MapHolds(p);
      assert xs == p + [x];
      assert Keys(xs) == Keys(p) + [x.key];
    }
  }

  lemma ListAt<V>(m: map<u64, V>, i: nat)
    requires i < |ListOf(m)|
    ensures Sorted(m.Keys)[i] in m && ListOf(m)[i] == Keyed(Sorted(m.Keys)[i], m[Sorted(m.Keys)[i]])
  {
    assert Sorted(m.Keys)[i] in Sorted(m.Keys);
  }

  lemma ListInOrder<V>(m: map<u64, V>)
    ensures InOrder(ListOf(m)) && Keys(ListOf(m)) == Sorted(m.Keys)
    ensures forall x :: x in ListOf(m) ==> x.key in m && m[x.key] == x.value
  {
    var l := ListOf(m);
    forall i | 0 <= i < |l| ensures l[i].key == Sorted(m.Keys)[i] && l[i].key in m && m[l[i].key] == l[i].value {
      ListAt(m, i);
    }
  }

  /** Written and read back, a map is itself. */
  lemma MapOfList<V>(m: map<u64, V>)
    ensures MapOf(ListOf(m)) == m
  {
    ListInOrder(m);
    MapHolds(ListOf(m));
  }

  /** Read and written again, a list is itself exactly when its keys were strictly increasing. */
  lemma ListOfMapIff<V>(xs: seq<Keyed<V>>)
    ensures ListOf(MapOf(xs)) == xs <==> InOrder(xs)
  {
    ListInOrder(MapOf(xs));
    if InOrder(xs) { OrderedListKept(xs); }
  }

  lemma OrderedListKept<V>(xs: seq<Keyed<V>>)
    requires InOrder(xs)
    ensures ListOf(MapOf(xs)) == xs
  {
    var m := MapOf(xs);
    OrderedKeys(xs);
    forall i | 0 <= i < |xs| ensures ListOf(m)[i] == xs[i] {
      OrderedListAt(xs, i, m);
    }
  }

  lemma OrderedKeys<V>(xs: seq<Keyed<V>>)
    requires InOrder(xs)
    ensures Sorted(MapOf(xs).Keys) == Keys(xs)
  {
    MapHolds(xs);
    IncreasingUnique(Sorted(MapOf(xs).Keys), Keys(xs));
  }

  lemma OrderedListAt<V>(xs: seq<Keyed<V>>, i: nat, m: map<u64, V>)
    requires InOrder(xs) && i < |xs| && m == MapOf(xs) && Sorted(m.Keys) == Keys(xs)
    ensures i < |ListOf(m)| && ListOf(m)[i] == xs[i]
  {
    MapHolds(xs);
    ListAt(m, i);
    assert Keys(xs)[i] == xs[i].key;
    OneOfAKind(xs, i, m);
  }

  lemma OneOfAKind<V>(xs: seq<Keyed<V>>, i: nat, m: map<u64, V>)
    requires InOrder(xs) && i < |xs| && xs[i].key in m && Keyed(xs[i].key, m[xs[i].key]) in xs
    ensures m[xs[i].key] == xs[i].value
  {
    var j :| 0 <= j < |xs| && xs[j] == Keyed(xs[i].key, m[xs[i].key]);
  }

  lemma ListNoLonger<V>(xs: seq<Keyed<V>>)
    ensures |ListOf(MapOf(xs))| <= |xs|
  {
    MapHolds(xs);
    assert MapOf(xs).Keys == Elems(Keys(xs));
    ElemsNoMore(Keys(xs));
  }

  lemma {:induction false} ElemsNoMore<T>(s: seq<T>)
    ensures |Elems(s)| <= |s|
  {
    if s != [] {
      var p := s[..|s| - 1];
      ElemsNoMore(p);
      assert s == p + [s[|s| - 1]];
      assert Elems(s) == Elems(p) + {s[|s| - 1]};
    }
  }

  // ----------------------------------------------------------------------- round trip

  /** What a snapshot needs to be readable once written. */
  ghost predicate Qualifies(s: Snapshot) {
    && RecordsFit(s.records)
    && |s.status| <= MAX_VECTOR && (forall k :: k in s.status ==> Short(s.status[k].detail))
    && |s.authority.boots| <= MAX_VECTOR
  }

  lemma StatusesFitMeans(m: map<StateId, RecordStatus>)
    ensures StatusesFit(ListOf(m)) <==> |m| <= MAX_VECTOR && forall k :: k in m ==> Short(m[k].detail)
  {
    var l := ListOf(m);
    assert |l| == |m.Keys| == |m|;
    forall i | 0 <= i < |l| ensures l[i].key in m && m[l[i].key] == l[i].value { ListAt(m, i); }
    if All(StatusShort, l) {
      forall k | k in m ensures Short(m[k].detail) {
        assert k in Sorted(m.Keys);
        var i :| 0 <= i < |l| && Sorted(m.Keys)[i] == k;
        ListAt(m, i);
        assert StatusShort(l[i]);
      }
    }
  }

  lemma BootsFitMeans(m: map<WorkerId, u64>)
    ensures BootsFit(ListOf(m)) <==> |m| <= MAX_VECTOR
  {
    var l := ListOf(m);
    assert |l| == |m.Keys| == |m|;
    forall i | 0 <= i < |l| ensures Any(l[i]) { }
  }

  lemma QualifiesMeans(s: Snapshot)
    ensures Qualifies(s) <==> StreamFits(StreamOf(s))
  {
    StatusesFitMeans(s.status);
    BootsFitMeans(s.authority.boots);
  }

  lemma SnapshotOfStreamOf(s: Snapshot)
    ensures SnapshotOf(StreamOf(s)) == s
  {
    MapOfList(s.status);
    MapOfList(s.authority.boots);
  }

  /** decode(encode(s)) is s, and nothing else. */
  lemma RoundTrip(s: Snapshot, v: Snapshot)
    requires Qualifies(s)
    ensures Decodes(Encoded(s), v) <==> v == s
  {
    EncodedDecodes(s);
    if Decodes(Encoded(s), v) { DecodesOnce(Encoded(s), s, v); }
  }

  lemma EncodedDecodes(s: Snapshot)
    requires Qualifies(s)
    ensures Decodes(Encoded(s), s)
  {
    QualifiesMeans(s);
    SnapshotOfStreamOf(s);
    assert DecodesBy(Encoded(s), s, StreamOf(s));
  }

  lemma DecodesOnce(bytes: Bytes, s: Snapshot, v: Snapshot)
    requires Decodes(bytes, s) && Decodes(bytes, v)
    ensures s == v
  {
    var x :| DecodesBy(bytes, s, x);
    var y :| DecodesBy(bytes, v, y);
    SameStream(x, y, [], []);
  }

  lemma SameStream(x: Stream, y: Stream, t: Bytes, u: Bytes)
    requires StreamFits(x) && StreamFits(y) && EStream(x, t) == EStream(y, u)
    ensures x == y && t == u
  {
    StreamUnambiguous();
  }

  // ------------------------------------------------------------------ prefix-freeness

  /** No accepted stream is a strict prefix or a proper extension of another. */
  lemma PrefixFree(a: Bytes, b: Bytes, s: Snapshot, v: Snapshot)
    requires Decodes(a, s) && Decodes(a + b, v)
    ensures b == [] && s == v
  {
    var x :| DecodesBy(a, s, x);
    var y :| DecodesBy(a + b, v, y);
    StreamCarries();
    assert EStream(x, [] + b) == EStream(x, []) + b;
    assert [] + b == b;
    SameStream(x, y, b, []);
  }

  lemma StreamCarries()
    ensures Carries(EStream)
  {
    RecordCarries();
    TailCarries();
    forall xs, t, u ensures ERecords(xs, t + u) == ERecords(xs, t) + u { RecordsCarry(xs, t, u); }
    ThenCarries(EStatuses, EAuthority);
    ThenCarries(ERecords, Then(EStatuses, EAuthority));
    RenamedCarries(Then(ERecords, Then(EStatuses, EAuthority)), EStream, NestedStream);
  }

  lemma RecordsCarry(xs: seq<RecordData>, t: Bytes, u: Bytes)
    requires Carries(ERecord)
    ensures ERecords(xs, t + u) == ERecords(xs, t) + u
  {
    CountedCarries(ERecord, xs, t, u);
  }

  lemma CountedCarries<T(!new)>(e: (T, Bytes) -> Bytes, xs: seq<T>, t: Bytes, u: Bytes)
    requires Carries(e)
    ensures EHeader(|xs| % TWO64, Each(e, xs, t + u)) == EHeader(|xs| % TWO64, Each(e, xs, t)) + u
  {
    EachCarries(e, xs, t, u);
    HeaderCarries(|xs| % TWO64, Each(e, xs, t), u);
  }

  lemma HeaderCarries(n: u64, t: Bytes, u: Bytes)
    ensures EHeader(n, t + u) == EHeader(n, t) + u
  {
    LeavesCarry();
  }

  lemma TailCarries()
    ensures Carries(EStatuses) && Carries(EAuthority)
  {
    forall x: StatusEntry, t, u ensures EStatus(x, t + u) == EStatus(x, t) + u { LeavesCarry(); }
    forall xs, t, u ensures EStatuses(xs, t + u) == EStatuses(xs, t) + u { VecCarries(EStatus, xs, t, u); }
    forall x: BootEntry, t, u ensures EBoot(x, t + u) == EBoot(x, t) + u { LeavesCarry(); }
    forall xs, t, u ensures EBoots(xs, t + u) == EBoots(xs, t) + u { VecCarries(EBoot, xs, t, u); }
    forall x, t, u ensures EGenerations(x, t + u) == EGenerations(x, t) + u { LeavesCarry(); }
    forall x: u64, t, u ensures E64(x, t + u) == E64(x, t) + u { LeavesCarry(); }
    ThenCarries(EBoots, EGenerations);
    ThenCarries(E64, Then(EBoots, EGenerations));
    RenamedCarries(Then(E64, Then(EBoots, EGenerations)), EAuthority, NestedAuthority);
  }

  lemma ReferencesCarry()
    ensures Carries(EReferences)
  {
    forall x: u64, t, u ensures E64(x, t + u) == E64(x, t) + u { LeavesCarry(); }
    forall xs, t, u ensures EIds(xs, t + u) == EIds(xs, t) + u { VecCarries(E64, xs, t, u); }
    forall x, t, u ensures EDependency(x, t + u) == EDependency(x, t) + u { LeavesCarry(); }
    forall xs, t, u ensures EDependencies(xs, t + u) == EDependencies(xs, t) + u { VecCarries(EDependency, xs, t, u); }
    forall x, t, u ensures ERequirement(x, t + u) == ERequirement(x, t) + u { LeavesCarry(); }
    forall xs, t, u ensures ERequirements(xs, t + u) == ERequirements(xs, t) + u { VecCarries(ERequirement, xs, t, u); }
    ThenCarries(EDependencies, ERequirements);
    ThenCarries(EIds, Then(EDependencies, ERequirements));
    ThenCarries(EIds, Then(EIds, Then(EDependencies, ERequirements)));
    RenamedCarries(Then(EIds, Then(EIds, Then(EDependencies, ERequirements))), EReferences, NestedReferences);
  }

  lemma RecordCarries()
    ensures Carries(ERecord)
  {
    ReferencesCarry();
    GroupsCarry();
    LaterGroupsCarry();
    ThenCarries(EProduction, EModel);
    ThenCarries(EIdentity, Then(EProduction, EModel));
    ThenCarries(EPlatform, ETensor);
    ThenCarries(EComposition, Then(EPlatform, ETensor));
    ThenCarries(EFencing, EClassification);
    ThenCarries(EPolicy, Then(EFencing, EClassification));
    ThenCarries(EReferences, Then(EPolicy, Then(EFencing, EClassification)));
    ThenCarries(ESetting(), ETerms());
    ThenCarries(EOrigin(), Then(ESetting(), ETerms()));
    RenamedCarries(Then(EOrigin(), Then(ESetting(), ETerms())), ERecord, Nested);
  }

  lemma GroupsCarry()
    ensures Carries(EIdentity) && Carries(EProduction) && Carries(EModel) && Carries(EComposition)
  {
    forall x, t, u ensures EIdentity(x, t + u) == EIdentity(x, t) + u { LeavesCarry(); }
    forall x, t, u ensures EProduction(x, t + u) == EProduction(x, t) + u { LeavesCarry(); }
    forall x, t, u ensures EModel(x, t + u) == EModel(x, t) + u { LeavesCarry(); }
    forall x, t, u ensures EComposition(x, t + u) == EComposition(x, t) + u { LeavesCarry(); }
  }

  lemma LaterGroupsCarry()
    ensures Carries(EPlatform) && Carries(ETensor) && Carries(EPolicy) && Carries(EFencing) && Carries(EClassification)
  {
    forall x, t, u ensures EPlatform(x, t + u) == EPlatform(x, t) + u { LeavesCarry(); }
    forall x, t, u ensures ETensor(x, t + u) == ETensor(x, t) + u { LeavesCarry(); }
    forall x, t, u ensures EPolicy(x, t + u) == EPolicy(x, t) + u { LeavesCarry(); }
    forall x, t, u ensures EFencing(x, t + u) == EFencing(x, t) + u { LeavesCarry(); }
    forall x, t, u ensures EClassification(x, t + u) == EClassification(x, t) + u { LeavesCarry(); }
  }

  // ------------------------------------------------------------------- canonical bytes

  /** Encoding again what was decoded gives back the same bytes exactly when the stream's
      status ids and worker ids were strictly increasing. */
  lemma ReencodeIff(bytes: Bytes, s: Snapshot, x: Stream)
    requires DecodesBy(bytes, s, x)
    ensures Encoded(s) == bytes <==> InOrder(x.status) && InOrder(x.authority.boots)
  {
    StreamKeptIff(x);
    CollapsedFits(x);
    var y := StreamOf(s);
    if EStream(y, []) == EStream(x, []) { SameStream(y, x, [], []); }
  }

  lemma StreamKeptIff(x: Stream)
    ensures StreamOf(SnapshotOf(x)) == x <==> InOrder(x.status) && InOrder(x.authority.boots)
  {
    ListOfMapIff(x.status);
    ListOfMapIff(x.authority.boots);
  }

  lemma CollapsedFits(x: Stream)
    requires StreamFits(x)
    ensures StreamFits(StreamOf(SnapshotOf(x)))
  {
    var s := SnapshotOf(x);
    ListNoLonger(x.authority.boots);
    BootsFitMeans(s.authority.boots);
    CollapsedStatusesFit(x.status);
  }

  lemma CollapsedStatusesFit(xs: seq<StatusEntry>)
    requires StatusesFit(xs)
    ensures StatusesFit(ListOf(MapOf(xs)))
  {
    var m := MapOf(xs);
    ListNoLonger(xs);
    MapHolds(xs);
    forall k | k in m ensures Short(m[k].detail) {
      var i :| 0 <= i < |xs| && xs[i] == Keyed(k, m[k]);
      assert StatusShort(xs[i]);
    }
    StatusesFitMeans(m);
  }

  // --------------------------------------------------------------- a store's snapshots

  /** The codec's bounds, and nothing else. */
  ghost predicate WithinBounds(s: Snapshot) {
    && |s.records| <= MAX_RECORDS && All(RecordFits, s.records)
    && |s.status| <= MAX_VECTOR && (forall k :: k in s.status ==> Short(s.status[k].detail))
    && |s.authority.boots| <= MAX_VECTOR
  }

  /** Every snapshot of a consistent store within the bounds qualifies, and only those. */
  lemma StoreSnapshotQualifies(st: State)
    requires Runs.Consistent(st)
    ensures Qualifies(TakeSnapshot(st)) <==> WithinBounds(TakeSnapshot(st))
  {
    RecordsListed(st.records);
    FittingIsReadable(RecordList(st.records));
  }

  lemma RecordsListed(rs: RecordMap)
    requires Sound(rs) && forall s :: s in rs ==> WellFormed(rs[s])
    ensures AllWellFormed(RecordList(rs)) && Recovery.DistinctProvenance(RecordList(rs))
  {
    Runs.ListedAt(rs);
    var l := RecordList(rs);
    forall i, j | 0 <= i < j < |l| ensures l[i].Provenance() != l[j].Provenance() {
      assert l[i].Subject() != l[j].Subject();
    }
  }

  ghost predicate AllWellFormed(l: seq<RecordData>) {
    forall i :: 0 <= i < |l| ==> WellFormed(l[i])
  }

  lemma FittingIsReadable(l: seq<RecordData>)
    requires AllWellFormed(l)
    ensures All(Readable, l) <==> All(RecordFits, l)
  {
    if All(RecordFits, l) {
      forall i | 0 <= i < |l| ensures Readable(l[i]) { assert RecordFits(l[i]); }
    }
    if All(Readable, l) {
      forall i | 0 <= i < |l| ensures RecordFits(l[i]) { assert Readable(l[i]); }
    }
  }

  /** A restart through bytes: after any run from the empty store, what is decoded from the
      encoded snapshot restores to the store that took it (up to an epoch of zero). */
  lemma RestartThroughBytes(ops: seq<Runs.Op>, v: Snapshot)
    requires WithinBounds(TakeSnapshot(Runs.Run(Empty, ops)))
    requires Decodes(Encoded(TakeSnapshot(Runs.Run(Empty, ops))), v)
    ensures Restore(v) == (Runs.Recovered(Runs.Run(Empty, ops)), Restored)
  {
    var st := Runs.Run(Empty, ops);
    Runs.EmptyConsistent();
    Runs.RunKeepsConsistent(Empty, ops);
    StoreSnapshotQualifies(st);
    RoundTrip(TakeSnapshot(st), v);
    Runs.RestoreOfSnapshot(st);
  }
}
