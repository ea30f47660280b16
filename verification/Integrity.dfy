/** What the snapshot file guarantees: saving and loading, corruption, truncation. */
module FileIntegrity {
  import opened Ids
  import opened Records
  import opened Wire
  import opened RecordCodec
  import opened Registry
  import opened SnapshotCodec
  import opened Durability
  import opened SnapshotFile
  import C = Crc
  import Recovery

  // ---------------------------------------------------------- sizes bound everything

  /** Each element takes at least k bytes, and the tail is all there. */
  ghost predicate AtLeast<T(!new)>(e: (T, Bytes) -> Bytes, k: nat) {
    forall x, t :: |e(x, t)| >= k + |t|
  }

  lemma {:induction false} EachAtLeastWhere<T(!new)>(e: (T, Bytes) -> Bytes, ok: T -> bool, k: nat,
                                                           xs: seq<T>, t: Bytes)
    requires All(ok, xs) && forall x, u :: ok(x) ==> |e(x, u)| >= k + |u|
    ensures |Each(e, xs, t)| >= k * |xs| + |t|
    decreases |xs|
  {
    if xs != [] {
      assert ok(xs[0]);
      assert All(ok, xs[1..]) by { assert forall i :: 0 <= i < |xs| - 1 ==> xs[1..][i] == xs[i + 1]; }
      EachAtLeastWhere(e, ok, k, xs[1..], t);
    }
  }

  lemma EachAtLeast<T(!new)>(e: (T, Bytes) -> Bytes, k: nat, xs: seq<T>, t: Bytes)
    requires AtLeast(e, k)
    ensures |Each(e, xs, t)| >= k * |xs| + |t|
  {
    EachAtLeastWhere(e, _ => true, k, xs, t);
  }

  lemma VecAtLeast<T(!new)>(e: (T, Bytes) -> Bytes, k: nat, xs: seq<T>, t: Bytes)
    requires AtLeast(e, k)
    ensures |EVec(e, xs, t)| >= 4 + k * |xs| + |t|
  {
    EachAtLeast(e, k, xs, t);
  }

  /** The whole is no shorter than any one element. */
  lemma {:induction false} EachCovers<T(!new)>(e: (T, Bytes) -> Bytes, size: T -> nat, xs: seq<T>, i: nat, t: Bytes)
    requires i < |xs| && forall x, u :: |e(x, u)| >= size(x) + |u|
    ensures |Each(e, xs, t)| >= size(xs[i]) + |t|
    decreases |xs|
  {
    if i == 0 {
      EachAtLeast(e, 0, xs[1..], t);
    } else {
      EachCovers(e, size, xs[1..], i - 1, t);
    }
  }

  function ReferenceCount(x: References): nat {
    |x.inputStates| + |x.parentProvenance| + |x.dependencies| + |x.requirements|
  }

  lemma ReferencesAtLeast(x: References, t: Bytes)
    ensures |EReferences(x, t)| >= 8 * ReferenceCount(x) + |t|
  {
    var r := ERequirements(x.requirements, t);
    VecAtLeast(ERequirement, 8, x.requirements, t);
    var d := EDependencies(x.dependencies, r);
    VecAtLeast(EDependency, 8, x.dependencies, r);
    var p := EIds(x.parentProvenance, d);
    VecAtLeast(E64, 8, x.parentProvenance, d);
    VecAtLeast(E64, 8, x.inputStates, p);
  }

  lemma FrontAtLeast(d: RecordData, t: Bytes)
    ensures |EIdentity(d.identity, t)| >= 33 + |t| && |EProduction(d.production, t)| >= |t|
    ensures |EModel(d.model, t)| >= |t| && |EComposition(d.composition, t)| >= |t|
  {
  }

  lemma BackAtLeast(d: RecordData, t: Bytes)
    ensures |EPlatform(d.platform, t)| >= |t| && |ETensor(d.tensor, t)| >= |t|
    ensures |EPolicy(d.policy, t)| >= |t| && |EFencing(d.fencing, t)| >= |t|
    ensures |EClassification(d.classification, t)| >= |t|
  {
  }

  function LeastSize(d: RecordData): nat {
    33 + 8 * ReferenceCount(d.references)
  }

  lemma RecordAtLeast(d: RecordData, t: Bytes)
    ensures |ERecord(d, t)| >= LeastSize(d) + |t|
  {
    var c := EClassification(d.classification, t);
    BackAtLeast(d, t);
    var f := EFencing(d.fencing, c);
    BackAtLeast(d, c);
    var p := EPolicy(d.policy, f);
    BackAtLeast(d, f);
    var r := EReferences(d.references, p);
    ReferencesAtLeast(d.references, p);
    FrontOfRecord(d, r);
  }

  lemma FrontOfRecord(d: RecordData, r: Bytes)
    ensures |EIdentity(d.identity, EProduction(d.production, EModel(d.model, EComposition(d.composition,
              EPlatform(d.platform, ETensor(d.tensor, r))))))| >= 33 + |r|
  {
    var x := ETensor(d.tensor, r);
    BackAtLeast(d, r);
    var l := EPlatform(d.platform, x);
    BackAtLeast(d, x);
    var c := EComposition(d.composition, l);
    FrontAtLeast(d, l);
    var m := EModel(d.model, c);
    FrontAtLeast(d, c);
    var p := EProduction(d.production, m);
    FrontAtLeast(d, m);
    FrontAtLeast(d, p);
  }

  lemma FitsBySize(d: RecordData)
    requires LeastSize(d) <= MAX_PAYLOAD && RecordShort(d)
    ensures RecordFits(d)
  {
    BoundedReferences(d.references);
  }

  lemma BoundedReferences(x: References)
    requires ReferencesShort(x) && 8 * ReferenceCount(x) <= MAX_PAYLOAD
    ensures ReferencesFit(x)
  {
  }

  lemma RecordsFitBySize(xs: seq<RecordData>, t: Bytes)
    requires |ERecords(xs, t)| <= MAX_PAYLOAD && All(RecordShort, xs)
    requires AllWellFormed(xs) && Recovery.DistinctProvenance(xs)
    ensures RecordsFit(xs)
  {
    RecordsAtLeast();
    EachAtLeast(ERecord, 32, xs, t);
    var body := Each(ERecord, xs, t);
    HeaderSize(|xs| % TWO64, body);
    ElementsFit(xs, t);
    FittingIsReadable(xs);
  }

  lemma HeaderSize(n: u64, t: Bytes)
    ensures |EHeader(n, t)| == 20 + |t|
  {
  }

  lemma RecordsAtLeast()
    ensures forall d, u :: |ERecord(d, u)| >= LeastSize(d) + |u|
    ensures AtLeast(ERecord, 32) && AtLeast(ERecord, 0)
  {
    forall d, u ensures |ERecord(d, u)| >= LeastSize(d) + |u| { RecordAtLeast(d, u); }
  }

  lemma ElementsFit(xs: seq<RecordData>, t: Bytes)
    requires |Each(ERecord, xs, t)| <= MAX_PAYLOAD && All(RecordShort, xs)
    ensures All(RecordFits, xs)
  {
    RecordsAtLeast();
    forall i | 0 <= i < |xs| ensures RecordFits(xs[i]) {
      EachCovers(ERecord, LeastSize, xs, i, t);
      OneShort(xs, i);
      FitsBySize(xs[i]);
    }
  }

  lemma OneShort(xs: seq<RecordData>, i: nat)
    requires i < |xs| && All(RecordShort, xs)
    ensures RecordShort(xs[i])
  {
    assert RecordShort(xs[i]);
  }

  lemma TailFitsBySize(s: Snapshot)
    requires |EStatuses(ListOf(s.status), EAuthority(ImageOf(s.authority), []))| <= MAX_PAYLOAD
    requires All(StatusShort, ListOf(s.status))
    ensures StatusesFit(ListOf(s.status)) && BootsFit(ListOf(s.authority.boots))
  {
    var a := ImageOf(s.authority);
    var g := EGenerations(a.generations, []);
    VecAtLeast(EStatus, 8, ListOf(s.status), EAuthority(a, []));
    VecAtLeast(EBoot, 8, ListOf(s.authority.boots), g);
    BootsFitMeans(s.authority.boots);
    assert |ListOf(s.authority.boots)| == |s.authority.boots.Keys| == |s.authority.boots|;
  }

  /** A snapshot whose payload fits the file's bound is within every bound of the reader. */
  lemma QualifiesBySize(s: Snapshot)
    requires Writable(s) && AllWellFormed(s.records) && Recovery.DistinctProvenance(s.records)
    requires |Encoded(s)| <= MAX_PAYLOAD
    ensures Qualifies(s)
  {
    var x := StreamOf(s);
    var tail := EStatuses(x.status, EAuthority(x.authority, []));
    RecordsFitBySize(x.records, tail);
    RecordsAtLeast();
    EachAtLeast(ERecord, 0, x.records, tail);
    TailFitsBySize(s);
    QualifiesMeans(s);
  }

  // ------------------------------------------------------------------ save, then load

  /** A saved snapshot of valid records with distinct provenance ids loads as itself, and as
      nothing else, exactly when its payload is at most 512 MiB; a larger one is saved without
      complaint but cannot be loaded. */
  lemma SaveThenLoad(s: Snapshot, v: Snapshot)
    requires Writable(s) && AllWellFormed(s.records) && Recovery.DistinctProvenance(s.records)
    ensures Accepted(FileBytes(0, Encoded(s)), v) <==> |Encoded(s)| <= MAX_PAYLOAD && v == s
  {
    LoadsIff(Encoded(s), v);
    if |Encoded(s)| <= MAX_PAYLOAD {
      QualifiesBySize(s);
      RoundTrip(s, v);
    }
  }

  lemma LoadsIff(p: Bytes, v: Snapshot)
    ensures Accepted(FileBytes(0, p), v) <==> |p| <= MAX_PAYLOAD && Decodes(p, v)
  {
    if Accepted(FileBytes(0, p), v) { AcceptedMeans(FileBytes(0, p), HeaderFor(0, p), p, v); }
    if |p| <= MAX_PAYLOAD && Decodes(p, v) { Witnessed(FileBytes(0, p), v, 0, p); }
  }

  /** What is read from a file is well-formed and has distinct provenance ids, so a restore of
      it is refused, or keeps exactly the records all of whose ancestry is there and resolves. */
  lemma LoadedRestores(bytes: Bytes, s: Snapshot)
    requires Accepted(bytes, s)
    ensures Restore(s).1 == CycleRefused || Restore(s).1 == Restored
    ensures var rs := ById(s.records);
            Restore(s).1 == Restored ==> Restore(s).0.records == Recovery.Restrict(rs, Recovery.KeptOf(rs, rs.Keys))
  {
    LoadedIsGood(bytes, s);
    GoodList(s.records);
    if |RestoreOrder(s.records)| == |s.records| { Recovery.RestoreKeepsIff(s); }
  }

  lemma LoadedIsGood(bytes: Bytes, s: Snapshot)
    requires Accepted(bytes, s)
    ensures AllWellFormed(s.records) && Recovery.DistinctProvenance(s.records)
  {
    var h, p := Opened(bytes, s);
    AcceptedMeans(bytes, h, p, s);
    DecodedIsGood(p, s);
  }

  lemma DecodedIsGood(p: Bytes, s: Snapshot)
    requires Decodes(p, s)
    ensures AllWellFormed(s.records) && Recovery.DistinctProvenance(s.records)
  {
    var x :| DecodesBy(p, s, x);
    FittingIsGood(x.records);
  }

  lemma FittingIsGood(l: seq<RecordData>)
    requires RecordsFit(l)
    ensures AllWellFormed(l) && Recovery.DistinctProvenance(l)
  {
    forall i | 0 <= i < |l| ensures WellFormed(l[i]) { assert Readable(l[i]); }
  }

  lemma SamePlace(l: seq<RecordData>, i: nat, j: nat)
    requires i < |l| && j < |l| && Recovery.DistinctProvenance(l) && l[i].Provenance() == l[j].Provenance()
    ensures i == j
  {
  }

  lemma SubjectNotZero(d: RecordData)
    requires WellFormed(d)
    ensures d.Subject() != 0
  {
    assert !Violates(d, ZeroSubjectId);
  }

  lemma GoodList(l: seq<RecordData>)
    requires AllWellFormed(l) && Recovery.DistinctProvenance(l)
    ensures Recovery.UniqueProvenance(ById(l)) && 0 !in ById(l)
  {
    var rs := ById(l);
    Recovery.ByIdHolds(l);
    forall s, t | s in rs && t in rs && rs[s].Provenance() == rs[t].Provenance() ensures s == t {
      var i :| 0 <= i < |l| && l[i] == rs[s];
      var j :| 0 <= j < |l| && l[j] == rs[t];
      SamePlace(l, i, j);
    }
    forall s | s in rs ensures s != 0 {
      var i :| 0 <= i < |l| && l[i] == rs[s];
      SubjectNotZero(l[i]);
    }
  }

  // ----------------------------------------------------------------------- corruption

  /** Changing the payload of a file within any 32 consecutive bits makes it unloadable. */
  lemma PayloadCorruptionDetected(flags: u32, p: Bytes, q: Bytes, i: nat, v: Snapshot)
    requires C.DifferWithinBits(C.BitStream(p), C.BitStream(q), i) && p != q
    ensures !Accepted(EFile(HeaderFor(flags, p), q), v)
  {
    if Accepted(EFile(HeaderFor(flags, p), q), v) {
      AcceptedMeans(EFile(HeaderFor(flags, p), q), HeaderFor(flags, p), q, v);
      SameCrc(p, q);
      C.BurstDetected(p, q, i);
    }
  }

  lemma SameCrc(p: Bytes, q: Bytes)
    requires CrcOf(p) == CrcOf(q)
    ensures C.Checksum(p) == C.Checksum(q)
  {
  }

  /** Of the header, all but the flags is protected: with the payload intact, a file still
      loads exactly when nothing but the flags has changed, and then as the same snapshot. */
  lemma HeaderChangesAccepted(flags: u32, p: Bytes, s: Snapshot, h: Header, v: Snapshot)
    requires Accepted(FileBytes(flags, p), s)
    ensures Accepted(EFile(h, p), v) <==> h == HeaderFor(h.flags, p) && v == s
  {
    AcceptedMeans(FileBytes(flags, p), HeaderFor(flags, p), p, s);
    if Accepted(EFile(h, p), v) {
      AcceptedMeans(EFile(h, p), h, p, v);
      DecodesOnce(p, s, v);
    }
    if h == HeaderFor(h.flags, p) && v == s { GoodBody(EFile(h, p), h, p, v); }
  }

  /** Truncated files and files with anything appended do not load. */
  lemma FilePrefixFree(a: Bytes, b: Bytes, s: Snapshot, v: Snapshot)
    requires Accepted(a, s) && Accepted(a + b, v)
    ensures b == [] && s == v
  {
    var h, p := Opened(a, s);
    AcceptedMeans(a, h, p, s);
    FileCarries(h, p, b);
    AcceptedMeans(a + b, h, p + b, v);
    assert |b| == 0;
    assert p + b == p;
    DecodesOnce(p, s, v);
  }

  lemma FileCarries(h: Header, p: Bytes, b: Bytes)
    ensures EFile(h, p) + b == EFile(h, p + b)
  {
    HeadCarries(h, p, b);
    Regroup(FILE_MAGIC, EHead(h, p), b);
  }

  lemma Regroup(x: Bytes, y: Bytes, z: Bytes)
    ensures x + y + z == x + (y + z)
  {
  }
}
