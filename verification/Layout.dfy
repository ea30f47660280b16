/** The byte layouts of persist.hpp and protocol.hpp as flat tables, field after field; and
    what the encoders nest is exactly that. */
module Layout {
  import opened Ids
  import opened Records
  import opened EnumBytes
  import opened Wire
  import opened RecordCodec
  import opened Registry
  import opened SnapshotCodec
  import opened SnapshotFile
  import F = Fence
  import P = Protocol

  /** One unit of a layout: an unsigned number of one, four or eight bytes, or a string. */
  datatype Unit = Byte(b: u8) | Quad(q: u32) | Octa(o: u64) | Chars(s: Bytes)

  /** The bytes of a unit: numbers least significant byte first, a string after its length in
      four bytes. */
  function UnitBytes(u: Unit): Bytes {
    match u
    case Byte(b) => [b]
    case Quad(q) => LE(q, 4)
    case Octa(o) => LE(o, 8)
    case Chars(s) => LE(|s| % TWO32, 4) + s
  }

  function Laid(us: seq<Unit>): Bytes {
    if us == [] then [] else UnitBytes(us[0]) + Laid(us[1..])
  }

  /** What the first n bytes stand for when byte i counts 256^i. */
  function Weighed(s: Bytes, n: nat): nat
    requires n <= |s|
  {
    if n == 0 then 0 else Weighed(s, n - 1) + s[n - 1] * Pow(256, n - 1)
  }

  /** A number that fits its width is written as bytes of those weights. */
  lemma WeighedWord(v: nat, n: nat)
    requires v < Pow(256, n)
    ensures Weighed(LE(v, n), n) == v
  {
    ValueOfLE(v, n);
    WeighedValue(LE(v, n));
  }

  lemma {:induction false} WeighedValue(s: Bytes)
    ensures Weighed(s, |s|) == Value(s)
    decreases |s|
  {
    if s != [] {
      WeighedFirst(s, |s|);
      WeighedValue(s[1..]);
    }
  }

  lemma {:induction false} WeighedFirst(s: Bytes, n: nat)
    requires 0 < n <= |s|
    ensures Weighed(s, n) == s[0] + 256 * Weighed(s[1..], n - 1)
  {
    if n == 1 {
      assert Pow(256, 0) == 1;
    } else {
      WeighedFirst(s, n - 1);
      Scaled(s[n - 1], Pow(256, n - 2));
    }
  }

  lemma Scaled(b: nat, p: nat)
    ensures b * (256 * p) == 256 * (b * p)
  {
  }

  /** The encoder of one unit. */
  function EUnit(u: Unit, t: Bytes): Bytes {
    match u
    case Byte(b) => E8(b, t)
    case Quad(q) => E32(q, t)
    case Octa(o) => E64(o, t)
    case Chars(s) => EStr(s, t)
  }

  lemma UnitLaid(u: Unit, t: Bytes)
    ensures EUnit(u, t) == UnitBytes(u) + t
  {
    match u
    case Byte(b) =>
    case Quad(q) =>
    case Octa(o) =>
    case Chars(s) => assert LE(|s| % TWO32, 4) + (s + t) == LE(|s| % TWO32, 4) + s + t;
  }

  lemma {:induction false} UnitsLaid(us: seq<Unit>, t: Bytes)
    ensures Each(EUnit, us, t) == Laid(us) + t
  {
    if us != [] {
      UnitsLaid(us[1..], t);
      UnitLaid(us[0], Laid(us[1..]) + t);
    }
  }

  // ------------------------------------------------------------------- short runs

  lemma Two<T>(e: (T, Bytes) -> Bytes, a: T, b: T, t: Bytes)
    ensures Each(e, [a, b], t) == e(a, e(b, t))
  {
    assert [a, b][1..] == [b] && [b][1..] == [];
    assert Each(e, [b], t) == e(b, t);
  }

  lemma Three<T>(e: (T, Bytes) -> Bytes, a: T, b: T, c: T, t: Bytes)
    ensures Each(e, [a, b, c], t) == e(a, e(b, e(c, t)))
  {
    Two(e, b, c, t);
    assert [a, b, c][1..] == [b, c];
  }

  lemma Four<T>(e: (T, Bytes) -> Bytes, a: T, b: T, c: T, d: T, t: Bytes)
    ensures Each(e, [a, b, c, d], t) == e(a, e(b, e(c, e(d, t))))
  {
    Three(e, b, c, d, t);
    assert [a, b, c, d][1..] == [b, c, d];
  }

  lemma Five<T>(e: (T, Bytes) -> Bytes, a: T, b: T, c: T, d: T, f: T, t: Bytes)
    ensures Each(e, [a, b, c, d, f], t) == e(a, e(b, e(c, e(d, e(f, t)))))
  {
    Four(e, b, c, d, f, t);
    assert [a, b, c, d, f][1..] == [b, c, d, f];
  }

  lemma Six<T>(e: (T, Bytes) -> Bytes, a: T, b: T, c: T, d: T, f: T, g: T, t: Bytes)
    ensures Each(e, [a, b, c, d, f, g], t) == e(a, e(b, e(c, e(d, e(f, e(g, t))))))
  {
    Five(e, b, c, d, f, g, t);
    assert [a, b, c, d, f, g][1..] == [b, c, d, f, g];
  }

  // ---------------------------------------------------------------------- records

  function MadeUnits(d: RecordData): seq<Unit> {
    [Octa(d.identity.provenanceId), Octa(d.identity.provenanceGeneration), Octa(d.identity.subjectId),
     Byte(SubjectKindByte(d.identity.subjectKind)), Octa(d.identity.stateGeneration)] +
    [Octa(d.production.producerId), Octa(d.production.producerGeneration), Octa(d.production.executionId),
     Octa(d.production.attemptId), Octa(d.production.attemptGeneration), Octa(Unsigned(d.production.createdAt))]
  }

  function ModelUnits(d: RecordData): seq<Unit> {
    [Octa(d.model.modelId), Octa(d.model.modelGeneration), Chars(d.model.modelRevision), Chars(d.model.tokenizer)] +
    [Octa(d.composition.adapterId), Octa(d.composition.adapterGeneration), Chars(d.composition.adapterRevision),
     Octa(d.composition.compositionId), Octa(d.composition.compositionGeneration),
     Chars(d.composition.compositionFingerprint)]
  }

  function PlatformUnits(d: RecordData): seq<Unit> {
    [Octa(d.platform.runtimeId), Octa(d.platform.runtimeGeneration), Octa(d.platform.artifactGeneration)] +
    [Octa(d.platform.backendId), Octa(d.platform.toolchainId), Octa(d.platform.deviceId),
     Chars(d.platform.architecture), Chars(d.platform.computeCapability), Chars(d.platform.abi)] +
    [Chars(d.tensor.dtype), Chars(d.tensor.layout), Chars(d.tensor.shape)]
  }

  function IdUnits(xs: seq<u64>): seq<Unit> {
    if xs == [] then [] else [Octa(xs[0])] + IdUnits(xs[1..])
  }

  function DependencyUnits(xs: seq<Dependency>): seq<Unit> {
    if xs == [] then []
    else [Octa(xs[0].id), Octa(xs[0].generation), Chars(xs[0].kind), Chars(xs[0].revision)] + DependencyUnits(xs[1..])
  }

  function RequirementUnits(xs: seq<Requirement>): seq<Unit> {
    if xs == [] then []
    else [Byte(DimensionByte(xs[0].dimension)), Chars(xs[0].requiredValue), Chars(xs[0].note)] +
         RequirementUnits(xs[1..])
  }

  /** The four lists, each after its size, in four bytes. */
  function ReferenceUnits(x: References): seq<Unit> {
    [Quad(|x.inputStates| % TWO32)] + IdUnits(x.inputStates) + ParentUnits(x)
  }

  function ParentUnits(x: References): seq<Unit> {
    [Quad(|x.parentProvenance| % TWO32)] + IdUnits(x.parentProvenance) + DependencyListUnits(x)
  }

  function DependencyListUnits(x: References): seq<Unit> {
    [Quad(|x.dependencies| % TWO32)] + DependencyUnits(x.dependencies) + RequirementListUnits(x)
  }

  function RequirementListUnits(x: References): seq<Unit> {
    [Quad(|x.requirements| % TWO32)] + RequirementUnits(x.requirements) + []
  }

  function JudgedUnits(d: RecordData): seq<Unit> {
    [Octa(d.policy.policyId), Octa(d.policy.policyGeneration), Chars(d.policy.policyFingerprint),
     Chars(d.policy.contentDigest)] +
    [Octa(d.fencing.coordinatorEpoch), Octa(d.fencing.workerId), Octa(d.fencing.workerBoot)] +
    [Byte(EvidenceClassByte(d.classification.evidence)), Byte(ValidityByte(d.classification.validity)),
     Byte(ReasonByte(d.classification.invalidationReason)),
     Byte(EligibilityByte(d.classification.reuseEligibility)), Chars(d.classification.note)]
  }

  function RecordUnits(d: RecordData): seq<Unit> {
    MadeUnits(d) + ModelUnits(d) + PlatformUnits(d) + ReferenceUnits(d.references) + JudgedUnits(d)
  }

  lemma MadeNested(d: RecordData, t: Bytes)
    ensures Each(EUnit, MadeUnits(d), t) == EIdentity(d.identity, EProduction(d.production, t))
  {
    var x, y := d.identity, d.production;
    var p := [Octa(x.provenanceId), Octa(x.provenanceGeneration), Octa(x.subjectId),
              Byte(SubjectKindByte(x.subjectKind)), Octa(x.stateGeneration)];
    var q := [Octa(y.producerId), Octa(y.producerGeneration), Octa(y.executionId), Octa(y.attemptId),
              Octa(y.attemptGeneration), Octa(Unsigned(y.createdAt))];
    EachSplit(EUnit, p, q, t);
    Six(EUnit, q[0], q[1], q[2], q[3], q[4], q[5], t);
    Five(EUnit, p[0], p[1], p[2], p[3], p[4], EProduction(y, t));
  }

  lemma ModelNested(d: RecordData, t: Bytes)
    ensures Each(EUnit, ModelUnits(d), t) == EModel(d.model, EComposition(d.composition, t))
  {
    var x, y := d.model, d.composition;
    var p := [Octa(x.modelId), Octa(x.modelGeneration), Chars(x.modelRevision), Chars(x.tokenizer)];
    var q := [Octa(y.adapterId), Octa(y.adapterGeneration), Chars(y.adapterRevision), Octa(y.compositionId),
              Octa(y.compositionGeneration), Chars(y.compositionFingerprint)];
    EachSplit(EUnit, p, q, t);
    Six(EUnit, q[0], q[1], q[2], q[3], q[4], q[5], t);
    Four(EUnit, p[0], p[1], p[2], p[3], EComposition(y, t));
  }

  lemma PlatformNested(d: RecordData, t: Bytes)
    ensures Each(EUnit, PlatformUnits(d), t) == EPlatform(d.platform, ETensor(d.tensor, t))
  {
    var x, y := d.platform, d.tensor;
    var p := [Octa(x.runtimeId), Octa(x.runtimeGeneration), Octa(x.artifactGeneration)];
    var q := [Octa(x.backendId), Octa(x.toolchainId), Octa(x.deviceId), Chars(x.architecture),
              Chars(x.computeCapability), Chars(x.abi)];
    var r := [Chars(y.dtype), Chars(y.layout), Chars(y.shape)];
    EachSplit(EUnit, p + q, r, t);
    EachSplit(EUnit, p, q, ETensor(y, t));
    Three(EUnit, r[0], r[1], r[2], t);
    Six(EUnit, q[0], q[1], q[2], q[3], q[4], q[5], ETensor(y, t));
    Three(EUnit, p[0], p[1], p[2], Each(EUnit, q, ETensor(y, t)));
  }

  lemma JudgedNested(d: RecordData, t: Bytes)
    ensures Each(EUnit, JudgedUnits(d), t) ==
            EPolicy(d.policy, EFencing(d.fencing, EClassification(d.classification, t)))
  {
    var x, y, z := d.policy, d.fencing, d.classification;
    var p := [Octa(x.policyId), Octa(x.policyGeneration), Chars(x.policyFingerprint), Chars(x.contentDigest)];
    var q := [Octa(y.coordinatorEpoch), Octa(y.workerId), Octa(y.workerBoot)];
    var r := [Byte(EvidenceClassByte(z.evidence)), Byte(ValidityByte(z.validity)),
              Byte(ReasonByte(z.invalidationReason)), Byte(EligibilityByte(z.reuseEligibility)), Chars(z.note)];
    EachSplit(EUnit, p + q, r, t);
    EachSplit(EUnit, p, q, EClassification(z, t));
    Five(EUnit, r[0], r[1], r[2], r[3], r[4], t);
    Three(EUnit, q[0], q[1], q[2], EClassification(z, t));
    Four(EUnit, p[0], p[1], p[2], p[3], EFencing(y, EClassification(z, t)));
  }

  /** Elements whose units come one after another. */
  ghost predicate Flattens<T(!new)>(e: (T, Bytes) -> Bytes, units: seq<T> -> seq<Unit>) {
    && units([]) == []
    && forall xs, t :: xs != [] ==>
         Each(EUnit, units(xs), t) == e(xs[0], Each(EUnit, units(xs[1..]), t))
  }

  lemma {:induction false} RunNested<T(!new)>(e: (T, Bytes) -> Bytes, units: seq<T> -> seq<Unit>, xs: seq<T>, t: Bytes)
    requires Flattens(e, units)
    ensures Each(EUnit, units(xs), t) == Each(e, xs, t)
  {
    if xs != [] { RunNested(e, units, xs[1..], t); }
  }

  /** A vector: its size in four bytes and its elements. */
  lemma VectorNested<T(!new)>(e: (T, Bytes) -> Bytes, units: seq<T> -> seq<Unit>, xs: seq<T>, more: seq<Unit>, t: Bytes)
    requires Flattens(e, units)
    ensures Each(EUnit, [Quad(|xs| % TWO32)] + units(xs) + more, t) == EVec(e, xs, Each(EUnit, more, t))
  {
    var head := [Quad(|xs| % TWO32)];
    assert head + units(xs) + more == head + (units(xs) + more);
    EachSplit(EUnit, head, units(xs) + more, t);
    EachSplit(EUnit, units(xs), more, t);
    RunNested(e, units, xs, Each(EUnit, more, t));
    assert head[1..] == [];
  }

  lemma IdsFlatten()
    ensures Flattens(E64, IdUnits)
  {
    forall xs: seq<u64>, t | xs != []
      ensures Each(EUnit, IdUnits(xs), t) == E64(xs[0], Each(EUnit, IdUnits(xs[1..]), t))
    {
      assert IdUnits(xs)[1..] == IdUnits(xs[1..]);
    }
  }

  lemma DependenciesFlatten()
    ensures Flattens(EDependency, DependencyUnits)
  {
    forall xs: seq<Dependency>, t | xs != []
      ensures Each(EUnit, DependencyUnits(xs), t) == EDependency(xs[0], Each(EUnit, DependencyUnits(xs[1..]), t))
    {
      var x, more := xs[0], DependencyUnits(xs[1..]);
      EachSplit(EUnit, [Octa(x.id), Octa(x.generation), Chars(x.kind), Chars(x.revision)], more, t);
      Four(EUnit, Octa(x.id), Octa(x.generation), Chars(x.kind), Chars(x.revision), Each(EUnit, more, t));
    }
  }

  lemma RequirementsFlatten()
    ensures Flattens(ERequirement, RequirementUnits)
  {
    forall xs: seq<Requirement>, t | xs != []
      ensures Each(EUnit, RequirementUnits(xs), t) == ERequirement(xs[0], Each(EUnit, RequirementUnits(xs[1..]), t))
    {
      var x, more := xs[0], RequirementUnits(xs[1..]);
      EachSplit(EUnit, [Byte(DimensionByte(x.dimension)), Chars(x.requiredValue), Chars(x.note)], more, t);
      Three(EUnit, Byte(DimensionByte(x.dimension)), Chars(x.requiredValue), Chars(x.note), Each(EUnit, more, t));
    }
  }

  lemma RequirementsNested(x: References, t: Bytes)
    ensures Each(EUnit, RequirementListUnits(x), t) == ERequirements(x.requirements, t)
  {
    RequirementsFlatten();
    VectorNested(ERequirement, RequirementUnits, x.requirements, [], t);
  }

  lemma DependenciesNested(x: References, t: Bytes)
    ensures Each(EUnit, DependencyListUnits(x), t) ==
            EDependencies(x.dependencies, ERequirements(x.requirements, t))
  {
    RequirementsNested(x, t);
    DependenciesFlatten();
    VectorNested(EDependency, DependencyUnits, x.dependencies, RequirementListUnits(x), t);
  }

  lemma ReferencesNested(x: References, t: Bytes)
    ensures Each(EUnit, ReferenceUnits(x), t) == EReferences(x, t)
  {
    DependenciesNested(x, t);
    IdsFlatten();
    VectorNested(E64, IdUnits, x.parentProvenance, DependencyListUnits(x), t);
    VectorNested(E64, IdUnits, x.inputStates, ParentUnits(x), t);
  }

  /** A record is written as its fields in this order. */
  lemma RecordLaid(d: RecordData, t: Bytes)
    ensures ERecord(d, t) == Laid(RecordUnits(d)) + t
  {
    RecordNested(d, t);
    UnitsLaid(RecordUnits(d), t);
  }

  lemma RecordNested(d: RecordData, t: Bytes)
    ensures Each(EUnit, RecordUnits(d), t) == ERecord(d, t)
  {
    var a, b, c, f, g := MadeUnits(d), ModelUnits(d), PlatformUnits(d), ReferenceUnits(d.references), JudgedUnits(d);
    FiveRuns(a, b, c, f, g, t);
    JudgedNested(d, t);
    var t4 := Each(EUnit, g, t);
    ReferencesNested(d.references, t4);
    var t3 := Each(EUnit, f, t4);
    PlatformNested(d, t3);
    var t2 := Each(EUnit, c, t3);
    ModelNested(d, t2);
    MadeNested(d, Each(EUnit, b, t2));
  }

  lemma FiveRuns(a: seq<Unit>, b: seq<Unit>, c: seq<Unit>, d: seq<Unit>, f: seq<Unit>, t: Bytes)
    ensures Each(EUnit, a + b + c + d + f, t) ==
            Each(EUnit, a, Each(EUnit, b, Each(EUnit, c, Each(EUnit, d, Each(EUnit, f, t)))))
  {
    EachSplit(EUnit, a + b + c + d, f, t);
    EachSplit(EUnit, a + b + c, d, Each(EUnit, f, t));
    EachSplit(EUnit, a + b, c, Each(EUnit, d, Each(EUnit, f, t)));
    EachSplit(EUnit, a, b, Each(EUnit, c, Each(EUnit, d, Each(EUnit, f, t))));
  }

  // ------------------------------------------------------------- snapshots and files

  function RowUnits(xs: seq<StatusEntry>): seq<Unit> {
    if xs == [] then []
    else [Octa(xs[0].key), Byte(ValidityByte(xs[0].value.validity)), Byte(ReasonByte(xs[0].value.reason)),
          Octa(xs[0].value.provenanceGeneration), Chars(xs[0].value.detail)] + RowUnits(xs[1..])
  }

  function BootUnits(xs: seq<BootEntry>): seq<Unit> {
    if xs == [] then [] else [Octa(xs[0].key), Octa(xs[0].value)] + BootUnits(xs[1..])
  }

  function RecordListUnits(ds: seq<RecordData>): seq<Unit> {
    if ds == [] then [] else RecordUnits(ds[0]) + RecordListUnits(ds[1..])
  }

  function GenerationUnits(a: F.Authority): seq<Unit> {
    [Octa(a.attemptId), Octa(a.attemptGeneration)] +
    [Octa(a.stateGeneration), Octa(a.provenanceGeneration), Octa(a.artifactGeneration), Octa(a.modelGeneration)] +
    [Octa(a.adapterGeneration), Octa(a.compositionGeneration), Octa(a.policyGeneration),
     Octa(a.dependencyGeneration)]
  }

  /** The epoch, the boots in order of their workers, the generations. */
  function AuthorityUnits(a: F.Authority): seq<Unit> {
    [Octa(a.epoch)] + ([Quad(|a.boots| % TWO32)] + BootUnits(ListOf(a.boots)) + GenerationUnits(a))
  }

  /** "SPRV" backwards, version 1, the records after their number, the overlay in order of its
      subjects, the authority. */
  function SnapshotUnits(s: Snapshot): seq<Unit> {
    [Octa(0x53505256), Quad(1), Octa(|s.records| % TWO64)] + RecordListUnits(s.records) +
    ([Quad(|s.status| % TWO32)] + RowUnits(ListOf(s.status)) + AuthorityUnits(s.authority))
  }

  lemma RowsFlatten()
    ensures Flattens(EStatus, RowUnits)
  {
    forall xs: seq<StatusEntry>, t | xs != []
      ensures Each(EUnit, RowUnits(xs), t) == EStatus(xs[0], Each(EUnit, RowUnits(xs[1..]), t))
    {
      var x, more := xs[0], RowUnits(xs[1..]);
      var p := [Octa(x.key), Byte(ValidityByte(x.value.validity)), Byte(ReasonByte(x.value.reason)),
                Octa(x.value.provenanceGeneration), Chars(x.value.detail)];
      EachSplit(EUnit, p, more, t);
      Five(EUnit, p[0], p[1], p[2], p[3], p[4], Each(EUnit, more, t));
    }
  }

  lemma BootsFlatten()
    ensures Flattens(EBoot, BootUnits)
  {
    forall xs: seq<BootEntry>, t | xs != []
      ensures Each(EUnit, BootUnits(xs), t) == EBoot(xs[0], Each(EUnit, BootUnits(xs[1..]), t))
    {
      var x, more := xs[0], BootUnits(xs[1..]);
      EachSplit(EUnit, [Octa(x.key), Octa(x.value)], more, t);
      Two(EUnit, Octa(x.key), Octa(x.value), Each(EUnit, more, t));
    }
  }

  lemma RecordsFlatten()
    ensures Flattens(ERecord, RecordListUnits)
  {
    forall ds: seq<RecordData>, t | ds != []
      ensures Each(EUnit, RecordListUnits(ds), t) == ERecord(ds[0], Each(EUnit, RecordListUnits(ds[1..]), t))
    {
      EachSplit(EUnit, RecordUnits(ds[0]), RecordListUnits(ds[1..]), t);
      RecordNested(ds[0], Each(EUnit, RecordListUnits(ds[1..]), t));
    }
  }

  lemma GenerationsNested(a: F.Authority, t: Bytes)
    ensures Each(EUnit, GenerationUnits(a), t) == EGenerations(ImageOf(a).generations, t)
  {
    var g := ImageOf(a).generations;
    var p := [Octa(a.attemptId), Octa(a.attemptGeneration)];
    var q := [Octa(a.stateGeneration), Octa(a.provenanceGeneration), Octa(a.artifactGeneration),
              Octa(a.modelGeneration)];
    var r := [Octa(a.adapterGeneration), Octa(a.compositionGeneration), Octa(a.policyGeneration),
              Octa(a.dependencyGeneration)];
    EachSplit(EUnit, p + q, r, t);
    EachSplit(EUnit, p, q, EFour(g.terms, t));
    Four(EUnit, r[0], r[1], r[2], r[3], t);
    Four(EUnit, q[0], q[1], q[2], q[3], EFour(g.terms, t));
    Two(EUnit, p[0], p[1], EFour(g.subject, EFour(g.terms, t)));
  }

  lemma ListSize<V>(m: map<u64, V>)
    ensures |ListOf(m)| == |m|
  {
  }

  lemma AuthorityNested(a: F.Authority, t: Bytes)
    ensures Each(EUnit, AuthorityUnits(a), t) == EAuthority(ImageOf(a), t)
  {
    var more := [Quad(|a.boots| % TWO32)] + BootUnits(ListOf(a.boots)) + GenerationUnits(a);
    EachSplit(EUnit, [Octa(a.epoch)], more, t);
    assert [Octa(a.epoch)][1..] == [];
    ListSize(a.boots);
    BootsFlatten();
    VectorNested(EBoot, BootUnits, ListOf(a.boots), GenerationUnits(a), t);
    GenerationsNested(a, t);
  }

  lemma OverlayNested(s: Snapshot, t: Bytes)
    ensures Each(EUnit, [Quad(|s.status| % TWO32)] + RowUnits(ListOf(s.status)) + AuthorityUnits(s.authority), t) ==
            EStatuses(ListOf(s.status), EAuthority(ImageOf(s.authority), t))
  {
    ListSize(s.status);
    RowsFlatten();
    VectorNested(EStatus, RowUnits, ListOf(s.status), AuthorityUnits(s.authority), t);
    AuthorityNested(s.authority, t);
  }

  lemma HeadNested(s: Snapshot, head: seq<Unit>, t: Bytes)
    requires head == [Octa(0x53505256), Quad(1), Octa(|s.records| % TWO64)]
    ensures Each(EUnit, head, t) == EHeader(|s.records| % TWO64, t)
  {
    Three(EUnit, Octa(0x53505256), Quad(1), Octa(|s.records| % TWO64), t);
  }

  lemma ListNested(ds: seq<RecordData>, us: seq<Unit>, t: Bytes)
    requires us == RecordListUnits(ds)
    ensures Each(EUnit, us, t) == Each(ERecord, ds, t)
  {
    RecordsFlatten();
    RunNested(ERecord, RecordListUnits, ds, t);
  }

  lemma ThreeRuns(a: seq<Unit>, b: seq<Unit>, c: seq<Unit>)
    ensures Laid(a + b + c) == Each(EUnit, a, Each(EUnit, b, Each(EUnit, c, [])))
  {
    EachSplit(EUnit, a + b, c, []);
    EachSplit(EUnit, a, b, Each(EUnit, c, []));
    UnitsLaid(a + b + c, []);
  }

  /** A snapshot is written as this table. */
  lemma SnapshotLaid(s: Snapshot)
    ensures Encoded(s) == Laid(SnapshotUnits(s))
  {
    var head, list, tail := SnapshotParts(s);
    ThreeRuns(head, list, tail);
    EncodedParts(s);
  }

  /** The overlay and the authority, which end a snapshot. */
  function OverlayBytes(s: Snapshot): Bytes {
    EStatuses(ListOf(s.status), EAuthority(ImageOf(s.authority), []))
  }

  lemma EncodedParts(s: Snapshot)
    ensures Encoded(s) == EHeader(|s.records| % TWO64, Each(ERecord, s.records, OverlayBytes(s)))
  {
  }

  lemma SnapshotParts(s: Snapshot) returns (head: seq<Unit>, list: seq<Unit>, tail: seq<Unit>)
    ensures SnapshotUnits(s) == head + list + tail
    ensures Each(EUnit, tail, []) == OverlayBytes(s)
    ensures forall t :: Each(EUnit, list, t) == Each(ERecord, s.records, t)
    ensures forall t :: Each(EUnit, head, t) == EHeader(|s.records| % TWO64, t)
  {
    head := [Octa(0x53505256), Quad(1), Octa(|s.records| % TWO64)];
    list := RecordListUnits(s.records);
    tail := [Quad(|s.status| % TWO32)] + RowUnits(ListOf(s.status)) + AuthorityUnits(s.authority);
    OverlayNested(s, []);
    forall t ensures Each(EUnit, list, t) == Each(ERecord, s.records, t) { ListNested(s.records, list, t); }
    forall t ensures Each(EUnit, head, t) == EHeader(|s.records| % TWO64, t) { HeadNested(s, head, t); }
  }

  /** The characters of the file's magic. */
  const MAGIC_TEXT := "SPROV1.0"

  function FileUnits(flags: u32, payload: Bytes): seq<Unit> {
    [Quad(1), Quad(flags), Octa(|payload| % TWO64), Quad(CrcOf(payload))]
  }

  /** A file is the magic, version, flags, length and checksum, 28 bytes in all, and the payload. */
  lemma FileLaid(flags: u32, payload: Bytes)
    ensures |FILE_MAGIC| == |MAGIC_TEXT| == 8 && forall i :: 0 <= i < 8 ==> FILE_MAGIC[i] == MAGIC_TEXT[i] as int
    ensures FileBytes(flags, payload) == FILE_MAGIC + Laid(FileUnits(flags, payload)) + payload
    ensures |Laid(FileUnits(flags, payload))| == 20
  {
    var us := FileUnits(flags, payload);
    Four(EUnit, us[0], us[1], us[2], us[3], payload);
    UnitsLaid(us, payload);
    assert FileBytes(flags, payload) == FILE_MAGIC + (Laid(us) + payload);
  }

  // -------------------------------------------------------------------- publish requests

  function ClaimUnits(c: F.Claim): seq<Unit> {
    [Octa(c.coordinatorEpoch), Octa(c.workerId), Octa(c.workerBoot)] +
    [Octa(c.attemptId), Octa(c.attemptGeneration), Octa(c.stateGeneration), Octa(c.provenanceGeneration)] +
    [Octa(P.OrZero(c.artifactGeneration)), Octa(P.OrZero(c.modelGeneration)), Octa(P.OrZero(c.adapterGeneration)),
     Octa(P.OrZero(c.compositionGeneration)), Octa(P.OrZero(c.policyGeneration)),
     Octa(P.OrZero(c.dependencyGeneration))]
  }

  /** A publish request is written as the claim's words and the record's table. */
  lemma PublishLaid(d: RecordData, c: F.Claim)
    ensures P.PublishBytes(d, c, []) == Laid(ClaimUnits(c)) + Laid(RecordUnits(d))
  {
    RecordIsLaid(d, Laid(RecordUnits(d)));
    ClaimIsLaid(c, ERecord(d, []), Laid(ClaimUnits(c)));
  }

  lemma RecordIsLaid(d: RecordData, bytes: Bytes)
    requires bytes == Laid(RecordUnits(d))
    ensures ERecord(d, []) == bytes
  {
    RecordLaid(d, []);
    assert bytes + [] == bytes;
  }

  lemma ClaimIsLaid(c: F.Claim, t: Bytes, bytes: Bytes)
    requires bytes == Laid(ClaimUnits(c))
    ensures P.EClaim(P.WordsOf(c), t) == bytes + t
  {
    ClaimNested(c, t);
    UnitsLaid(ClaimUnits(c), t);
  }

  lemma ClaimNested(c: F.Claim, t: Bytes)
    ensures Each(EUnit, ClaimUnits(c), t) == P.EClaim(P.WordsOf(c), t)
  {
    var w := P.WordsOf(c);
    var p := [Octa(w.epoch), Octa(w.workerId), Octa(w.workerBoot)];
    var q := [Octa(w.attemptId), Octa(w.attemptGeneration), Octa(w.state), Octa(w.provenance)];
    var r := [Octa(w.artifact), Octa(w.model), Octa(w.adapter), Octa(w.composition), Octa(w.policy),
              Octa(w.dependency)];
    EachSplit(EUnit, p + q, r, t);
    EachSplit(EUnit, p, q, P.EClaimBack(w, t));
    Six(EUnit, r[0], r[1], r[2], r[3], r[4], r[5], t);
    Four(EUnit, q[0], q[1], q[2], q[3], P.EClaimBack(w, t));
    Three(EUnit, p[0], p[1], p[2], Each(EUnit, q, P.EClaimBack(w, t)));
  }

  /** A frame whose length is not wrapped is that length, which counts the opcode, then the opcode
      and the payload. */
  lemma FrameLaid(f: P.Frame, t: Bytes)
    requires |f.payload| + 1 < TWO32
    ensures P.EFrame(f, t) == Laid([Quad(|f.payload| + 1), Byte(f.op)]) + f.payload + t
  {
    LengthPlain(f.payload);
    FrameFrom(f, |f.payload| + 1, t, Laid([Quad(|f.payload| + 1), Byte(f.op)]));
  }

  lemma LengthPlain(payload: Bytes)
    requires |payload| + 1 < TWO32
    ensures P.LengthField(payload) == |payload| + 1
  {
  }

  lemma FrameFrom(f: P.Frame, length: u32, t: Bytes, head: Bytes)
    requires P.LengthField(f.payload) == length && head == Laid([Quad(length), Byte(f.op)])
    ensures P.EFrame(f, t) == head + f.payload + t
  {
    HeadLaid(length, f.op, f.payload + t, head);
    Regrouped(head, f.payload, t);
  }

  lemma HeadLaid(length: u32, op: u8, t: Bytes, head: Bytes)
    requires head == Laid([Quad(length), Byte(op)])
    ensures E32(length, E8(op, t)) == head + t
  {
    Two(EUnit, Quad(length), Byte(op), t);
    UnitsLaid([Quad(length), Byte(op)], t);
  }

  lemma Regrouped(a: Bytes, b: Bytes, c: Bytes)
    ensures a + (b + c) == a + b + c
  {
  }
}
