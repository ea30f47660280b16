/** Whole snapshots on the wire (encode_snapshot and decode_snapshot of persist.hpp).  The
    stream lists what the snapshot keeps in maps; repeated ids collapse, the last one winning. */
module SnapshotCodec {
  import opened Ids
  import opened Orders
  import opened Records
  import opened EnumBytes
  import opened Wire
  import opened RecordCodec
  import opened Registry
  import F = Fence
  import Recovery

  const FORMAT_VERSION: u32 := 1
  const PAYLOAD_MAGIC: u64 := 0x53505256
  const MAX_RECORDS: nat := 0x100_0000

  // ------------------------------------------------------------------------ layouts

  /** One entry of a map keyed by an id, as it is written. */
  datatype Keyed<V> = Keyed(key: u64, value: V)

  type StatusEntry = Keyed<RecordStatus>

  type BootEntry = Keyed<u64>

  datatype Attempt = Attempt(id: u64, generation: u64)

  type Four = (u64, u64, u64, u64)

  /** subject: state, provenance, artifact, model; terms: adapter, composition, policy, dependency. */
  datatype Generations = Generations(attempt: Attempt, subject: Four, terms: Four)

  datatype AuthorityImage = AuthorityImage(epoch: u64, boots: seq<BootEntry>, generations: Generations)

  datatype Stream = Stream(records: seq<RecordData>, status: seq<StatusEntry>, authority: AuthorityImage)

  function EStatus(x: StatusEntry, t: Bytes): Bytes {
    E64(x.key, E8(ValidityByte(x.value.validity), E8(ReasonByte(x.value.reason),
      E64(x.value.provenanceGeneration, EStr(x.value.detail, t)))))
  }

  function EBoot(x: BootEntry, t: Bytes): Bytes {
    E64(x.key, E64(x.value, t))
  }

  function EAttempt(x: Attempt, t: Bytes): Bytes {
    E64(x.id, E64(x.generation, t))
  }

  function EFour(x: Four, t: Bytes): Bytes {
    E64(x.0, E64(x.1, E64(x.2, E64(x.3, t))))
  }

  function EGenerations(x: Generations, t: Bytes): Bytes {
    EAttempt(x.attempt, EFour(x.subject, EFour(x.terms, t)))
  }

  function EStatuses(xs: seq<StatusEntry>, t: Bytes): Bytes {
    EVec(EStatus, xs, t)
  }

  function EBoots(xs: seq<BootEntry>, t: Bytes): Bytes {
    EVec(EBoot, xs, t)
  }

  function EAuthority(x: AuthorityImage, t: Bytes): Bytes {
    E64(x.epoch, EBoots(x.boots, EGenerations(x.generations, t)))
  }

  function EHeader(n: u64, t: Bytes): Bytes {
    E64(PAYLOAD_MAGIC, E32(FORMAT_VERSION, E64(n, t)))
  }

  function ERecords(xs: seq<RecordData>, t: Bytes): Bytes {
    EHeader(|xs| % TWO64, Each(ERecord, xs, t))
  }

  function EStream(x: Stream, t: Bytes): Bytes {
    ERecords(x.records, EStatuses(x.status, EAuthority(x.authority, t)))
  }

  predicate StatusShort(x: StatusEntry) {
    Short(x.value.detail)
  }

  predicate HeaderFits(n: u64) {
    n <= MAX_RECORDS
  }

  /** Distinct provenance ids is the one relation between records the reader enforces. */
  ghost predicate RecordsFit(xs: seq<RecordData>) {
    |xs| <= MAX_RECORDS && All(Readable, xs) && Recovery.DistinctProvenance(xs)
  }

  ghost predicate StatusesFit(xs: seq<StatusEntry>) {
    VecFits(StatusShort, xs)
  }

  ghost predicate BootsFit(xs: seq<BootEntry>) {
    VecFits(Any, xs)
  }

  ghost predicate AuthorityFits(x: AuthorityImage) {
    BootsFit(x.boots)
  }

  ghost predicate StreamFits(x: Stream) {
    RecordsFit(x.records) && StatusesFit(x.status) && AuthorityFits(x.authority)
  }

  // --------------------------------------------------------- snapshots and their lists

  /** Later entries win, as in assigning to a std::map in a loop. */
  function MapOf<V>(xs: seq<Keyed<V>>): map<u64, V> {
    if xs == [] then map[] else MapOf(xs[..|xs| - 1])[xs[|xs| - 1].key := xs[|xs| - 1].value]
  }

  function ListOf<V>(m: map<u64, V>): seq<Keyed<V>> {
    var ids := Sorted(m.Keys);
    seq(|ids|, i requires 0 <= i < |ids| => Keyed(ids[i], m[ids[i]]))
  }

  function AuthorityOf(x: AuthorityImage): F.Authority {
    var g := x.generations;
    F.Authority(x.epoch, MapOf(x.boots), g.attempt.id, g.attempt.generation,
                g.subject.0, g.subject.1, g.subject.2, g.subject.3, g.terms.0, g.terms.1, g.terms.2, g.terms.3)
  }

  function SnapshotOf(x: Stream): Snapshot {
    Snapshot(x.records, MapOf(x.status), AuthorityOf(x.authority))
  }

  function ImageOf(a: F.Authority): AuthorityImage {
    AuthorityImage(a.epoch, ListOf(a.boots),
                   Generations(Attempt(a.attemptId, a.attemptGeneration),
                               (a.stateGeneration, a.provenanceGeneration, a.artifactGeneration, a.modelGeneration),
                               (a.adapterGeneration, a.compositionGeneration,
                                a.policyGeneration, a.dependencyGeneration)))
  }

  /** The stream a snapshot is written as: maps in key order. */
  function StreamOf(s: Snapshot): Stream {
    Stream(s.records, ListOf(s.status), ImageOf(s.authority))
  }

  // ------------------------------------------------------------------------ writing

  method WriteStatus(w: BinaryWriter, x: StatusEntry) returns (ok: bool)
    modifies w
    ensures ok <==> StatusShort(x)
    ensures ok ==> forall t :: w.buf + t == old(w.buf) + EStatus(x, t)
  {
    w.U64(x.key);
    w.U8(ValidityByte(x.value.validity));
    w.U8(ReasonByte(x.value.reason));
    w.U64(x.value.provenanceGeneration);
    ok := w.Str(x.value.detail);
  }

  method WriteStatuses(w: BinaryWriter, xs: seq<StatusEntry>) returns (ok: bool)
    modifies w
    ensures ok <==> All(StatusShort, xs)
    ensures ok ==> forall t :: w.buf + t == old(w.buf) + EStatuses(xs, t)
  {
    ghost var before := w.buf;
    w.U32(|xs| % TWO32);
    ghost var start := w.buf;
    ok := WriteEachStatus(w, xs);
    if ok { WrittenVec(EStatus, before, start, w.buf, xs); }
  }

  method WriteEachStatus(w: BinaryWriter, xs: seq<StatusEntry>) returns (ok: bool)
    modifies w
    ensures ok <==> All(StatusShort, xs)
    ensures ok ==> Written(EStatus, old(w.buf), w.buf, xs)
  {
    ghost var start := w.buf;
    NoneWritten(EStatus, start, xs);
    for i := 0 to |xs|
      invariant All(StatusShort, xs[..i]) && Written(EStatus, start, w.buf, xs[..i])
    {
      ghost var before := w.buf;
      ok := WriteStatus(w, xs[i]);
      AllNext(StatusShort, xs, i);
      if !ok { return; }
      WrittenNext(EStatus, start, before, w.buf, xs, i);
    }
    assert xs[..|xs|] == xs;
    ok := true;
  }

  method WriteBoot(w: BinaryWriter, x: BootEntry)
    modifies w
    ensures forall t :: w.buf + t == old(w.buf) + EBoot(x, t)
  {
    w.U64(x.key);
    w.U64(x.value);
  }

  method WriteBoots(w: BinaryWriter, xs: seq<BootEntry>)
    modifies w
    ensures forall t :: w.buf + t == old(w.buf) + EBoots(xs, t)
  {
    ghost var before := w.buf;
    w.U32(|xs| % TWO32);
    ghost var start := w.buf;
    NoneWritten(EBoot, start, xs);
    for i := 0 to |xs|
      invariant Written(EBoot, start, w.buf, xs[..i])
    {
      ghost var last := w.buf;
      WriteBoot(w, xs[i]);
      WrittenNext(EBoot, start, last, w.buf, xs, i);
    }
    assert xs[..|xs|] == xs;
    WrittenVec(EBoot, before, start, w.buf, xs);
  }

  method WriteGenerations(w: BinaryWriter, x: Generations)
    modifies w
    ensures forall t :: w.buf + t == old(w.buf) + EGenerations(x, t)
  {
    w.U64(x.attempt.id);
    w.U64(x.attempt.generation);
    WriteFour(w, x.subject);
    WriteFour(w, x.terms);
  }

  method WriteFour(w: BinaryWriter, x: Four)
    modifies w
    ensures forall t :: w.buf + t == old(w.buf) + EFour(x, t)
  {
    w.U64(x.0);
    w.U64(x.1);
    w.U64(x.2);
    w.U64(x.3);
  }

  method WriteAuthority(w: BinaryWriter, a: F.Authority)
    modifies w
    ensures forall t :: w.buf + t == old(w.buf) + EAuthority(ImageOf(a), t)
  {
    w.U64(a.epoch);
    WriteBoots(w, ListOf(a.boots));
    WriteGenerations(w, ImageOf(a).generations);
  }

  method WriteRecords(w: BinaryWriter, xs: seq<RecordData>) returns (ok: bool)
    modifies w
    ensures ok <==> All(RecordShort, xs)
    ensures ok ==> forall t :: w.buf + t == old(w.buf) + ERecords(xs, t)
  {
    w.U64(PAYLOAD_MAGIC);
    w.U32(FORMAT_VERSION);
    w.U64(|xs| % TWO64);
    ok := WriteEachRecord(w, xs);
  }

  method WriteEachRecord(w: BinaryWriter, xs: seq<RecordData>) returns (ok: bool)
    modifies w
    ensures ok <==> All(RecordShort, xs)
    ensures ok ==> Written(ERecord, old(w.buf), w.buf, xs)
  {
    ghost var start := w.buf;
    NoneWritten(ERecord, start, xs);
    for i := 0 to |xs|
      invariant All(RecordShort, xs[..i]) && Written(ERecord, start, w.buf, xs[..i])
    {
      ghost var before := w.buf;
      ok := WriteRecord(w, xs[i]);
      AllNext(RecordShort, xs, i);
      if !ok { return; }
      WrittenNext(ERecord, start, before, w.buf, xs, i);
    }
    assert xs[..|xs|] == xs;
    ok := true;
  }

  /** Every string of the snapshot is within the writer's bound. */
  ghost predicate Writable(s: Snapshot) {
    All(RecordShort, s.records) && All(StatusShort, ListOf(s.status))
  }

  function Encoded(s: Snapshot): Bytes {
    EStream(StreamOf(s), [])
  }

  /** Fails (throws) exactly when some string is too long. */
  method EncodeSnapshot(s: Snapshot) returns (r: Option<Bytes>)
    ensures r == if Writable(s) then Some(Encoded(s)) else None
  {
    var w := new BinaryWriter();
    var ok := WriteStream(w, s);
    if !ok { return None; }
    Unpad(w.buf, Encoded(s));
    r := Some(w.buf);
  }

  method WriteStream(w: BinaryWriter, s: Snapshot) returns (ok: bool)
    modifies w
    ensures ok <==> Writable(s)
    ensures ok ==> forall t :: w.buf + t == old(w.buf) + EStream(StreamOf(s), t)
  {
    ok := WriteRecords(w, s.records);
    if ok { ok := WriteStatuses(w, ListOf(s.status)); }
    if ok { WriteAuthority(w, s.authority); }
  }

  // ------------------------------------------------------------------------ reading

  lemma StatusUnambiguous()
    ensures Unambiguous(EStatus, StatusShort)
  {
    forall x, y, t, u | StatusShort(x) && StatusShort(y) && EStatus(x, t) == EStatus(y, u) ensures x == y && t == u {
      ValidityDistinct(x.value.validity, y.value.validity);
      ReasonDistinct(x.value.reason, y.value.reason);
    }
  }

  lemma StatusesUnambiguous()
    ensures Unambiguous(EStatuses, StatusesFit)
  {
    forall x, y, t, u | StatusesFit(x) && StatusesFit(y) && EStatuses(x, t) == EStatuses(y, u)
      ensures x == y && t == u
    {
      StatusUnambiguous();
      VecUnambiguous(EStatus, StatusShort, x, y, t, u);
    }
  }

  lemma BootUnambiguous()
    ensures Unambiguous(EBoot, Any)
  {
  }

  lemma BootsUnambiguous()
    ensures Unambiguous(EBoots, BootsFit)
  {
    forall x, y, t, u | BootsFit(x) && BootsFit(y) && EBoots(x, t) == EBoots(y, u) ensures x == y && t == u {
      BootUnambiguous();
      VecUnambiguous(EBoot, Any, x, y, t, u);
    }
  }

  lemma ReadableUnambiguous()
    ensures Unambiguous(ERecord, Readable)
  {
    FittingUnambiguous();
    Weaker(ERecord, RecordFits, Readable);
  }

  lemma RecordsCounted()
    ensures Counted(EHeader, HeaderFits, ERecord, Readable, ERecords, RecordsFit)
  {
    ReadableUnambiguous();
  }

  lemma RecordsUnambiguous()
    ensures Unambiguous(ERecords, RecordsFit)
  {
    RecordsCounted();
    CountedUnambiguous(EHeader, HeaderFits, ERecord, Readable, ERecords, RecordsFit);
  }

  lemma AuthorityUnambiguous()
    ensures Unambiguous(EAuthority, AuthorityFits)
  {
    BootsUnambiguous();
    GenerationsUnambiguous();
    ThenUnambiguous(EBoots, BootsFit, EGenerations, Any);
    var e, ok := Then(EBoots, EGenerations), Both(BootsFit, Any);
    WordsUnambiguous();
    ThenUnambiguous(E64, Any, e, ok);
    forall v ensures AuthorityFits(v) <==> Both(Any, ok)(NestedAuthority(v)) {
      assert Any(v.epoch) && Any(v.generations);
    }
    RenamedUnambiguous(Then(E64, e), Both(Any, ok), EAuthority, AuthorityFits, NestedAuthority);
  }

  function NestedAuthority(x: AuthorityImage): (u64, (seq<BootEntry>, Generations)) {
    (x.epoch, (x.boots, x.generations))
  }

  lemma GenerationsUnambiguous()
    ensures Unambiguous(EGenerations, Any)
  {
  }

  lemma WordsUnambiguous()
    ensures Unambiguous(E64, Any)
  {
  }

  /** The bytes of a stream determine it, and what follows it. */
  lemma StreamUnambiguous()
    ensures Unambiguous(EStream, StreamFits)
  {
    RecordsUnambiguous();
    StatusesUnambiguous();
    AuthorityUnambiguous();
    ThenUnambiguous(EStatuses, StatusesFit, EAuthority, AuthorityFits);
    var e, ok := Then(EStatuses, EAuthority), Both(StatusesFit, AuthorityFits);
    ThenUnambiguous(ERecords, RecordsFit, e, ok);
    RenamedUnambiguous(Then(ERecords, e), Both(RecordsFit, ok), EStream, StreamFits, NestedStream);
  }

  function NestedStream(x: Stream): (seq<RecordData>, (seq<StatusEntry>, AuthorityImage)) {
    (x.records, (x.status, x.authority))
  }

  method ReadStatus(r: BinaryReader) returns (x: Option<StatusEntry>)
    requires r.Ready()
    modifies r
    ensures x.Some? ==> r.Ready()
    ensures ReadBack(EStatus, StatusShort, old(r.Rest()), x, r.Rest())
  {
    var id :- r.U64();
    var b :- r.U8();
    var validity :- ValidityOf(b);
    b :- r.U8();
    var reason :- ReasonOf(b);
    var generation :- r.U64();
    var detail :- r.Str();
    x := Some(Keyed(id, RecordStatus(validity, reason, generation, detail)));
  }

  method ReadStatuses(r: BinaryReader) returns (xs: Option<seq<StatusEntry>>)
    requires r.Ready()
    modifies r
    ensures xs.Some? ==> r.Ready()
    ensures ReadBack(EStatuses, StatusesFit, old(r.Rest()), xs, r.Rest())
  {
    ghost var first := r.Rest();
    var n := r.U32();
    if n.None? || n.value > MAX_VECTOR {
      NoVecWhen(EStatus, StatusShort, first, 0, []);
      NoStatuses(first);
      return None;
    }
    ghost var start := r.Rest();
    xs := EachStatus(r, n.value);
    VecRead(EStatus, StatusShort, first, n.value, start, xs, r.Rest());
    if xs.None? { NoStatuses(first); }
  }

  lemma NoStatuses(rest: Bytes)
    requires NoVec(EStatus, StatusShort, rest)
    ensures Unreadable(EStatuses, StatusesFit, rest)
  {
    forall xs, t | StatusesFit(xs) ensures rest != EStatuses(xs, t) { assert VecFits(StatusShort, xs); }
  }

  method EachStatus(r: BinaryReader, n: nat) returns (xs: Option<seq<StatusEntry>>)
    requires r.Ready()
    modifies r
    ensures xs.Some? ==> r.Ready()
    ensures RunBack(EStatus, StatusShort, n, old(r.Rest()), xs, r.Rest())
  {
    ghost var start := r.Rest();
    var read: seq<StatusEntry> := [];
    for i := 0 to n
      invariant r.Ready() && |read| == i && RunRead(EStatus, StatusShort, read, start, r.Rest())
    {
      ghost var rest := r.Rest();
      var x := ReadStatus(r);
      StatusUnambiguous();
      RunStep(EStatus, StatusShort, read, start, rest, x, r.Rest(), n);
      if x.None? { return None; }
      read := read + [x.value];
    }
    xs := Some(read);
  }

  method ReadBoot(r: BinaryReader) returns (x: Option<BootEntry>)
    requires r.Ready()
    modifies r
    ensures x.Some? ==> r.Ready()
    ensures ReadBack(EBoot, Any, old(r.Rest()), x, r.Rest())
  {
    var worker :- r.U64();
    var boot :- r.U64();
    x := Some(Keyed(worker, boot));
  }

  method ReadBoots(r: BinaryReader) returns (xs: Option<seq<BootEntry>>)
    requires r.Ready()
    modifies r
    ensures xs.Some? ==> r.Ready()
    ensures ReadBack(EBoots, BootsFit, old(r.Rest()), xs, r.Rest())
  {
    ghost var first := r.Rest();
    var n := r.U32();
    if n.None? || n.value > MAX_VECTOR {
      NoVecWhen(EBoot, Any, first, 0, []);
      NoBoots(first);
      return None;
    }
    ghost var start := r.Rest();
    xs := EachBoot(r, n.value);
    VecRead(EBoot, Any, first, n.value, start, xs, r.Rest());
    if xs.None? { NoBoots(first); }
  }

  lemma NoBoots(rest: Bytes)
    requires NoVec(EBoot, Any, rest)
    ensures Unreadable(EBoots, BootsFit, rest)
  {
    forall xs, t | BootsFit(xs) ensures rest != EBoots(xs, t) { assert VecFits(Any, xs); }
  }

  method EachBoot(r: BinaryReader, n: nat) returns (xs: Option<seq<BootEntry>>)
    requires r.Ready()
    modifies r
    ensures xs.Some? ==> r.Ready()
    ensures RunBack(EBoot, Any, n, old(r.Rest()), xs, r.Rest())
  {
    ghost var start := r.Rest();
    var read: seq<BootEntry> := [];
    for i := 0 to n
      invariant r.Ready() && |read| == i && RunRead(EBoot, Any, read, start, r.Rest())
    {
      ghost var rest := r.Rest();
      var x := ReadBoot(r);
      BootUnambiguous();
      RunStep(EBoot, Any, read, start, rest, x, r.Rest(), n);
      if x.None? { return None; }
      read := read + [x.value];
    }
    xs := Some(read);
  }

  method ReadAttempt(r: BinaryReader) returns (x: Option<Attempt>)
    requires r.Ready()
    modifies r
    ensures x.Some? ==> r.Ready()
    ensures ReadBack(EAttempt, Any, old(r.Rest()), x, r.Rest())
  {
    var id :- r.U64();
    var generation :- r.U64();
    x := Some(Attempt(id, generation));
  }

  method ReadGenerations(r: BinaryReader) returns (x: Option<Generations>)
    requires r.Ready()
    modifies r
    ensures x.Some? ==> r.Ready()
    ensures ReadBack(EGenerations, Any, old(r.Rest()), x, r.Rest())
  {
    ghost var r0 := r.Rest();
    var attempt := ReadAttempt(r);
    ghost var r1 := r.Rest();
    var subject: Option<Four> := None;
    if attempt.Some? { subject := ReadFour(r); }
    ghost var r2 := r.Rest();
    var terms: Option<Four> := None;
    if subject.Some? { terms := ReadFour(r); }
    x := if terms.None? then None else Some(Generations(attempt.value, subject.value, terms.value));
    GenerationsBack(r0, attempt, r1, subject, r2, terms, r.Rest(), x);
  }

  method ReadFour(r: BinaryReader) returns (x: Option<Four>)
    requires r.Ready()
    modifies r
    ensures x.Some? ==> r.Ready()
    ensures ReadBack(EFour, Any, old(r.Rest()), x, r.Rest())
  {
    var a :- r.U64();
    var b :- r.U64();
    var c :- r.U64();
    var d :- r.U64();
    x := Some((a, b, c, d));
  }

  lemma GenerationsBack(r0: Bytes, attempt: Option<Attempt>, r1: Bytes, subject: Option<Four>, r2: Bytes,
                        terms: Option<Four>, r3: Bytes, x: Option<Generations>)
    requires ReadBack(EAttempt, Any, r0, attempt, r1)
    requires attempt.Some? ==> ReadBack(EFour, Any, r1, subject, r2)
    requires attempt.Some? && subject.Some? ==> ReadBack(EFour, Any, r2, terms, r3)
    requires terms.Some? ==> attempt.Some? && subject.Some?
    requires x == if terms.None? then None else Some(Generations(attempt.value, subject.value, terms.value))
    ensures ReadBack(EGenerations, Any, r0, x, r3)
  {
    AttemptUnambiguous();
    FourUnambiguous();
    ThenBack(attempt.Some?, EFour, Any, EFour, Any, r1, subject, r2, terms, r3);
    var e, ok := Then(EFour, EFour), Both<Four, Four>(Any, Any);
    ThenBack(true, EAttempt, Any, e, ok, r0, attempt, r1, Join(subject, terms), r3);
    forall v ensures Any(v) <==> Both(Any, ok)(NestedGenerations(v)) {
      assert Any(v.attempt) && Any(v.subject) && Any(v.terms);
    }
    Renamed(Then(EAttempt, e), Both(Any, ok), EGenerations, Any, NestedGenerations, r0,
            Join(attempt, Join(subject, terms)), x, r3);
  }

  function NestedGenerations(x: Generations): (Attempt, (Four, Four)) {
    (x.attempt, (x.subject, x.terms))
  }

  lemma AttemptUnambiguous()
    ensures Unambiguous(EAttempt, Any)
  {
  }

  lemma FourUnambiguous()
    ensures Unambiguous(EFour, Any)
  {
  }

  method ReadAuthority(r: BinaryReader) returns (x: Option<AuthorityImage>)
    requires r.Ready()
    modifies r
    ensures x.Some? ==> r.Ready()
    ensures ReadBack(EAuthority, AuthorityFits, old(r.Rest()), x, r.Rest())
  {
    ghost var r0 := r.Rest();
    var epoch := r.U64();
    ghost var r1 := r.Rest();
    var boots: Option<seq<BootEntry>> := None;
    if epoch.Some? { boots := ReadBoots(r); }
    ghost var r2 := r.Rest();
    var g: Option<Generations> := None;
    if boots.Some? { g := ReadGenerations(r); }
    x := if g.None? then None else Some(AuthorityImage(epoch.value, boots.value, g.value));
    AuthorityBack(r0, epoch, r1, boots, r2, g, r.Rest(), x);
  }

  lemma AuthorityBack(r0: Bytes, epoch: Option<u64>, r1: Bytes, boots: Option<seq<BootEntry>>, r2: Bytes,
                      g: Option<Generations>, r3: Bytes, x: Option<AuthorityImage>)
    requires ReadBack(E64, Any, r0, epoch, r1)
    requires epoch.Some? ==> ReadBack(EBoots, BootsFit, r1, boots, r2)
    requires epoch.Some? && boots.Some? ==> ReadBack(EGenerations, Any, r2, g, r3)
    requires g.Some? ==> epoch.Some? && boots.Some?
    requires x == if g.None? then None else Some(AuthorityImage(epoch.value, boots.value, g.value))
    ensures ReadBack(EAuthority, AuthorityFits, r0, x, r3)
  {
    WordsUnambiguous();
    BootsUnambiguous();
    ThenBack(epoch.Some?, EBoots, BootsFit, EGenerations, Any, r1, boots, r2, g, r3);
    var e, ok := Then(EBoots, EGenerations), Both(BootsFit, Any);
    ThenBack(true, E64, Any, e, ok, r0, epoch, r1, Join(boots, g), r3);
    forall v ensures AuthorityFits(v) <==> Both(Any, ok)(NestedAuthority(v)) {
      assert Any(v.epoch) && Any(v.generations);
    }
    Renamed(Then(E64, e), Both(Any, ok), EAuthority, AuthorityFits, NestedAuthority, r0,
            Join(epoch, Join(boots, g)), x, r3);
  }

  method ReadHeader(r: BinaryReader) returns (n: Option<u64>)
    requires r.Ready()
    modifies r
    ensures n.Some? ==> r.Ready()
    ensures ReadBack(EHeader, HeaderFits, old(r.Rest()), n, r.Rest())
  {
    var magic :- r.U64();
    if magic != PAYLOAD_MAGIC { return None; }
    var version :- r.U32();
    if version != FORMAT_VERSION { return None; }
    var count :- r.U64();
    if count > MAX_RECORDS { return None; }
    n := Some(count);
  }

  method ReadRecords(r: BinaryReader) returns (xs: Option<seq<RecordData>>)
    requires r.Ready()
    modifies r
    ensures xs.Some? ==> r.Ready()
    ensures ReadBack(ERecords, RecordsFit, old(r.Rest()), xs, r.Rest())
  {
    ghost var first := r.Rest();
    var n := ReadHeader(r);
    ghost var start := r.Rest();
    xs := None;
    if n.Some? { xs := EachRecord(r, n.value); }
    RecordsCounted();
    CountedBack(EHeader, HeaderFits, ERecord, Readable, ERecords, RecordsFit, first, n, start, xs, r.Rest());
  }

  /** Every record in turn, refusing a provenance id seen before. */
  method EachRecord(r: BinaryReader, n: nat) returns (xs: Option<seq<RecordData>>)
    requires r.Ready() && n <= MAX_RECORDS
    modifies r
    ensures xs.Some? ==> r.Ready()
    ensures xs.Some? ==> |xs.value| == n && RecordsFit(xs.value) && old(r.Rest()) == Each(ERecord, xs.value, r.Rest())
    ensures xs.None? ==> NoFit(ERecord, RecordsFit, n, old(r.Rest()))
  {
    ghost var start := r.Rest();
    var read: seq<RecordData> := [];
    for i := 0 to n
      invariant r.Ready() && |read| == i && Collected(read, start, r.Rest())
    {
      var x := NextRecord(r, read, start, n);
      if x.None? { return None; }
      assert |read + [x.value]| == i + 1;
      read := read + [x.value];
    }
    xs := Some(read);
  }

  /** The records read so far, between start and rest, no two with one provenance id. */
  ghost predicate Collected(read: seq<RecordData>, start: Bytes, rest: Bytes) {
    RunRead(ERecord, Readable, read, start, rest) && Recovery.DistinctProvenance(read)
  }

  method NextRecord(r: BinaryReader, read: seq<RecordData>, ghost start: Bytes, ghost n: nat)
    returns (x: Option<RecordData>)
    requires r.Ready() && |read| < n && Collected(read, start, r.Rest())
    modifies r
    ensures x.Some? ==> r.Ready() && Collected(read + [x.value], start, r.Rest())
    ensures x.None? ==> NoFit(ERecord, RecordsFit, n, start)
  {
    x := NextReadable(r, read, start, n);
    if x.Some? { x := Screen(read, x.value, start, r.Rest(), n); }
  }

  method Screen(read: seq<RecordData>, d: RecordData, ghost start: Bytes, ghost rest: Bytes, ghost n: nat)
    returns (x: Option<RecordData>)
    requires RunRead(ERecord, Readable, read + [d], start, rest) && |read| < n && Recovery.DistinctProvenance(read)
    ensures x.Some? ==> Collected(read + [x.value], start, rest)
    ensures x.None? ==> NoFit(ERecord, RecordsFit, n, start)
  {
    var seen := Repeats(read, d.Provenance());
    Screened(read, d, seen, start, rest, n);
    x := if seen then None else Some(d);
  }

  /** A record with a new provenance id goes on the run; one with an old id ends it. */
  lemma Screened(read: seq<RecordData>, d: RecordData, seen: bool, start: Bytes, rest: Bytes, n: nat)
    requires RunRead(ERecord, Readable, read + [d], start, rest) && |read| < n && Recovery.DistinctProvenance(read)
    requires seen <==> exists i :: 0 <= i < |read| && read[i].Provenance() == d.Provenance()
    ensures if seen then NoFit(ERecord, RecordsFit, n, start) else Collected(read + [d], start, rest)
  {
    if seen { Repeated(read, d, start, rest, n); } else { StillDistinct(read, d); }
  }

  lemma StillDistinct(read: seq<RecordData>, d: RecordData)
    requires Recovery.DistinctProvenance(read)
    requires !exists i :: 0 <= i < |read| && read[i].Provenance() == d.Provenance()
    ensures Recovery.DistinctProvenance(read + [d])
  {
  }

  method NextReadable(r: BinaryReader, ghost read: seq<RecordData>, ghost start: Bytes, ghost n: nat)
    returns (x: Option<RecordData>)
    requires r.Ready() && |read| < n && RunRead(ERecord, Readable, read, start, r.Rest())
    modifies r
    ensures x.Some? ==> r.Ready() && RunRead(ERecord, Readable, read + [x.value], start, r.Rest())
    ensures x.None? ==> NoFit(ERecord, RecordsFit, n, start)
  {
    ghost var rest := r.Rest();
    x := ReadRecord(r);
    NextStep(read, start, rest, x, r.Rest(), n);
  }

  method Repeats(read: seq<RecordData>, p: ProvenanceId) returns (b: bool)
    ensures b <==> exists i :: 0 <= i < |read| && read[i].Provenance() == p
  {
    b := false;
    for i := 0 to |read|
      invariant b <==> exists j :: 0 <= j < i && read[j].Provenance() == p
    {
      if read[i].Provenance() == p { b := true; }
    }
  }

  function ProvenanceOf(d: RecordData): ProvenanceId {
    d.Provenance()
  }

  lemma FitKeys(xs: seq<RecordData>)
    ensures KeysDistinct(ProvenanceOf, xs) <==> Recovery.DistinctProvenance(xs)
  {
    forall i, j | 0 <= i < j < |xs|
      ensures ProvenanceOf(xs[i]) != ProvenanceOf(xs[j]) <==> xs[i].Provenance() != xs[j].Provenance()
    {
    }
  }

  lemma Repeated(read: seq<RecordData>, d: RecordData, start: Bytes, rest: Bytes, n: nat)
    requires RunRead(ERecord, Readable, read + [d], start, rest) && |read| < n
    requires exists i :: 0 <= i < |read| && read[i].Provenance() == d.Provenance()
    ensures NoFit(ERecord, RecordsFit, n, start)
  {
    NotDistinct(read, d);
    FitMeans();
    ReadableUnambiguous();
    RepeatedKey(ERecord, Readable, RecordsFit, ProvenanceOf, read + [d], start, rest, n);
  }

  lemma NotDistinct(read: seq<RecordData>, d: RecordData)
    requires exists i :: 0 <= i < |read| && read[i].Provenance() == d.Provenance()
    ensures !KeysDistinct(ProvenanceOf, read + [d])
  {
    var i :| 0 <= i < |read| && read[i].Provenance() == d.Provenance();
    assert (read + [d])[i].Provenance() == (read + [d])[|read|].Provenance();
    FitKeys(read + [d]);
  }

  lemma FitMeans()
    ensures forall ys :: RecordsFit(ys) ==> All(Readable, ys) && KeysDistinct(ProvenanceOf, ys)
  {
    forall ys | RecordsFit(ys) ensures All(Readable, ys) && KeysDistinct(ProvenanceOf, ys) { FitKeys(ys); }
  }

  lemma NextStep(read: seq<RecordData>, start: Bytes, rest: Bytes, x: Option<RecordData>, after: Bytes, n: nat)
    requires |read| < n && RunRead(ERecord, Readable, read, start, rest) && ReadBack(ERecord, Readable, rest, x, after)
    ensures x.Some? ==> RunRead(ERecord, Readable, read + [x.value], start, after)
    ensures x.None? ==> NoFit(ERecord, RecordsFit, n, start)
  {
    ReadableUnambiguous();
    StepFit(ERecord, Readable, RecordsFit, read, start, rest, x, after, n);
  }

  method ReadStream(r: BinaryReader) returns (x: Option<Stream>)
    requires r.Ready()
    modifies r
    ensures x.Some? ==> r.Ready()
    ensures ReadBack(EStream, StreamFits, old(r.Rest()), x, r.Rest())
  {
    ghost var r0 := r.Rest();
    var a := ReadRecords(r);
    ghost var r1 := r.Rest();
    var b: Option<seq<StatusEntry>> := None;
    if a.Some? { b := ReadStatuses(r); }
    ghost var r2 := r.Rest();
    var c: Option<AuthorityImage> := None;
    if b.Some? { c := ReadAuthority(r); }
    x := if c.None? then None else Some(Stream(a.value, b.value, c.value));
    StreamBack(r0, a, r1, b, r2, c, r.Rest(), x);
  }

  lemma StreamBack(r0: Bytes, a: Option<seq<RecordData>>, r1: Bytes, b: Option<seq<StatusEntry>>, r2: Bytes,
                   c: Option<AuthorityImage>, r3: Bytes, x: Option<Stream>)
    requires ReadBack(ERecords, RecordsFit, r0, a, r1)
    requires a.Some? ==> ReadBack(EStatuses, StatusesFit, r1, b, r2)
    requires a.Some? && b.Some? ==> ReadBack(EAuthority, AuthorityFits, r2, c, r3)
    requires c.Some? ==> a.Some? && b.Some?
    requires x == if c.None? then None else Some(Stream(a.value, b.value, c.value))
    ensures ReadBack(EStream, StreamFits, r0, x, r3)
  {
    RecordsUnambiguous();
    StatusesUnambiguous();
    ThenBack(a.Some?, EStatuses, StatusesFit, EAuthority, AuthorityFits, r1, b, r2, c, r3);
    var e, ok := Then(EStatuses, EAuthority), Both(StatusesFit, AuthorityFits);
    ThenBack(true, ERecords, RecordsFit, e, ok, r0, a, r1, Join(b, c), r3);
    Renamed(Then(ERecords, e), Both(RecordsFit, ok), EStream, StreamFits, NestedStream, r0, Join(a, Join(b, c)), x, r3);
  }

  /** The bytes are one whole readable stream, and s is what it says. */
  ghost predicate Decodes(bytes: Bytes, s: Snapshot) {
    exists x :: DecodesBy(bytes, s, x)
  }

  ghost predicate DecodesBy(bytes: Bytes, s: Snapshot, x: Stream) {
    StreamFits(x) && bytes == EStream(x, []) && s == SnapshotOf(x)
  }

  /** Accepts exactly the encodings of readable streams, with nothing before or after. */
  method DecodeSnapshot(bytes: Bytes) returns (r: Option<Snapshot>)
    ensures r.Some? ==> Decodes(bytes, r.value)
    ensures r.None? ==> forall s :: !Decodes(bytes, s)
  {
    var reader := new BinaryReader(bytes);
    var x := ReadStream(reader);
    r := if x.None? || reader.Remaining() != 0 then None else Some(SnapshotOf(x.value));
    Decoded(bytes, x, reader.Rest(), r);
  }

  lemma Decoded(bytes: Bytes, x: Option<Stream>, rest: Bytes, r: Option<Snapshot>)
    requires ReadBack(EStream, StreamFits, bytes, x, rest)
    requires r == if x.None? || rest != [] then None else Some(SnapshotOf(x.value))
    ensures r.Some? ==> Decodes(bytes, r.value)
    ensures r.None? ==> forall s :: !Decodes(bytes, s)
  {
    Whole(bytes, x, rest);
    if r.Some? { assert DecodesBy(bytes, r.value, x.value); }
  }

  lemma Whole(bytes: Bytes, x: Option<Stream>, rest: Bytes)
    requires ReadBack(EStream, StreamFits, bytes, x, rest)
    ensures x.None? || rest != [] ==> forall s :: !Decodes(bytes, s)
  {
    StreamUnambiguous();
    forall s, y | x.None? || rest != [] ensures !DecodesBy(bytes, s, y) {
    }
  }
}
