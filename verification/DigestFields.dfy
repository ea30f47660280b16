/** What the derivation digest covers, field by field of a record (record.hpp): every field but
    the artifact generation, and every field of every reference. */
module DigestFields {
  import opened Ids
  import opened Orders
  import opened Records
  import opened EnumBytes
  import opened Digest
  import Wire

  // ------------------------------------------------------------------ the scalar fields

  datatype Field =
    | ProvenanceIdF | ProvenanceGenerationF | SubjectIdF | SubjectKindF | StateGenerationF | ProducerIdF
    | ProducerGenerationF | ExecutionIdF | AttemptIdF | AttemptGenerationF | CreatedAtF | ModelIdF
    | ModelGenerationF | ModelRevisionF | TokenizerF | AdapterIdF | AdapterGenerationF | AdapterRevisionF
    | CompositionIdF | CompositionGenerationF | CompositionFingerprintF | RuntimeIdF | RuntimeGenerationF
    | BackendIdF | ToolchainIdF | DeviceIdF | ArchitectureF | ComputeCapabilityF | AbiF | DtypeF | LayoutF
    | ShapeF | PolicyIdF | PolicyGenerationF | PolicyFingerprintF | ContentDigestF | CoordinatorEpochF
    | WorkerIdF | WorkerBootF | EvidenceF | ValidityF | InvalidationReasonF | ReuseEligibilityF | NoteF

  datatype FieldValue =
    | Number(n: u64) | Time(t: i64) | Chars(s: Bytes) | Kind(k: SubjectKind) | Evidence(e: EvidenceClass)
    | State(v: Validity) | Cause(r: Reason) | Verdict(y: Eligibility) | Aspect(d: Dimension)

  function Get(d: RecordData, f: Field): FieldValue {
    match f
    case ProvenanceIdF => Number(d.identity.provenanceId)
    case ProvenanceGenerationF => Number(d.identity.provenanceGeneration)
    case SubjectIdF => Number(d.identity.subjectId)
    case SubjectKindF => Kind(d.identity.subjectKind)
    case StateGenerationF => Number(d.identity.stateGeneration)
    case ProducerIdF => Number(d.production.producerId)
    case ProducerGenerationF => Number(d.production.producerGeneration)
    case ExecutionIdF => Number(d.production.executionId)
    case AttemptIdF => Number(d.production.attemptId)
    case AttemptGenerationF => Number(d.production.attemptGeneration)
    case CreatedAtF => Time(d.production.createdAt)
    case ModelIdF => Number(d.model.modelId)
    case ModelGenerationF => Number(d.model.modelGeneration)
    case ModelRevisionF => Chars(d.model.modelRevision)
    case TokenizerF => Chars(d.model.tokenizer)
    case AdapterIdF => Number(d.composition.adapterId)
    case AdapterGenerationF => Number(d.composition.adapterGeneration)
    case AdapterRevisionF => Chars(d.composition.adapterRevision)
    case CompositionIdF => Number(d.composition.compositionId)
    case CompositionGenerationF => Number(d.composition.compositionGeneration)
    case CompositionFingerprintF => Chars(d.composition.compositionFingerprint)
    case RuntimeIdF => Number(d.platform.runtimeId)
    case RuntimeGenerationF => Number(d.platform.runtimeGeneration)
    case BackendIdF => Number(d.platform.backendId)
    case ToolchainIdF => Number(d.platform.toolchainId)
    case DeviceIdF => Number(d.platform.deviceId)
    case ArchitectureF => Chars(d.platform.architecture)
    case ComputeCapabilityF => Chars(d.platform.computeCapability)
    case AbiF => Chars(d.platform.abi)
    case DtypeF => Chars(d.tensor.dtype)
    case LayoutF => Chars(d.tensor.layout)
    case ShapeF => Chars(d.tensor.shape)
    case PolicyIdF => Number(d.policy.policyId)
    case PolicyGenerationF => Number(d.policy.policyGeneration)
    case PolicyFingerprintF => Chars(d.policy.policyFingerprint)
    case ContentDigestF => Chars(d.policy.contentDigest)
    case CoordinatorEpochF => Number(d.fencing.coordinatorEpoch)
    case WorkerIdF => Number(d.fencing.workerId)
    case WorkerBootF => Number(d.fencing.workerBoot)
    case EvidenceF => Evidence(d.classification.evidence)
    case ValidityF => State(d.classification.validity)
    case InvalidationReasonF => Cause(d.classification.invalidationReason)
    case ReuseEligibilityF => Verdict(d.classification.reuseEligibility)
    case NoteF => Chars(d.classification.note)
  }

  /** The item a value is absorbed as. */
  function ItemOf(v: FieldValue): Item {
    match v
    case Number(n) => Word(n)
    case Time(t) => Word(Wire.Unsigned(t))
    case Chars(s) => Text(s)
    case Kind(k) => Word(SubjectKindByte(k))
    case Evidence(e) => Word(EvidenceClassByte(e))
    case State(v) => Word(ValidityByte(v))
    case Cause(r) => Word(ReasonByte(r))
    case Verdict(y) => Word(EligibilityByte(y))
    case Aspect(d) => Word(DimensionByte(d))
  }

  function Place(f: Field): (p: nat)
    ensures p < 44
  {
    match f
    case ProvenanceIdF => 0 case ProvenanceGenerationF => 1 case SubjectIdF => 2 case SubjectKindF => 3
    case StateGenerationF => 4 case ProducerIdF => 5 case ProducerGenerationF => 6 case ExecutionIdF => 7
    case AttemptIdF => 8 case AttemptGenerationF => 9 case CreatedAtF => 10 case ModelIdF => 11
    case ModelGenerationF => 12 case ModelRevisionF => 13 case TokenizerF => 14 case AdapterIdF => 15
    case AdapterGenerationF => 16 case AdapterRevisionF => 17 case CompositionIdF => 18
    case CompositionGenerationF => 19 case CompositionFingerprintF => 20 case RuntimeIdF => 21
    case RuntimeGenerationF => 22 case BackendIdF => 23 case ToolchainIdF => 24 case DeviceIdF => 25
    case ArchitectureF => 26 case ComputeCapabilityF => 27 case AbiF => 28 case DtypeF => 29
    case LayoutF => 30 case ShapeF => 31 case PolicyIdF => 32 case PolicyGenerationF => 33
    case PolicyFingerprintF => 34 case ContentDigestF => 35 case CoordinatorEpochF => 36 case WorkerIdF => 37
    case WorkerBootF => 38 case EvidenceF => 39 case ValidityF => 40 case InvalidationReasonF => 41
    case ReuseEligibilityF => 42 case NoteF => 43
  }

  const MADE: seq<Field> := [
    ProvenanceIdF, ProvenanceGenerationF, SubjectIdF, SubjectKindF, StateGenerationF, ProducerIdF,
    ProducerGenerationF, ExecutionIdF, AttemptIdF, AttemptGenerationF, CreatedAtF]

  const MODELLED: seq<Field> := [
    ModelIdF, ModelGenerationF, ModelRevisionF, TokenizerF, AdapterIdF, AdapterGenerationF, AdapterRevisionF,
    CompositionIdF, CompositionGenerationF, CompositionFingerprintF]

  const PLATFORM: seq<Field> := [
    RuntimeIdF, RuntimeGenerationF, BackendIdF, ToolchainIdF, DeviceIdF, ArchitectureF, ComputeCapabilityF,
    AbiF, DtypeF, LayoutF, ShapeF]

  const JUDGED: seq<Field> := [
    PolicyIdF, PolicyGenerationF, PolicyFingerprintF, ContentDigestF, CoordinatorEpochF, WorkerIdF,
    WorkerBootF, EvidenceF, ValidityF, InvalidationReasonF, ReuseEligibilityF, NoteF]

  lemma MadeAt(i: nat)
    requires i < |MADE|
    ensures |MADE| == 11 && Place(MADE[i]) == 0 + i
  {
  }

  lemma ModelledAt(i: nat)
    requires i < |MODELLED|
    ensures |MODELLED| == 10 && Place(MODELLED[i]) == 11 + i
  {
  }

  lemma PlatformAt(i: nat)
    requires i < |PLATFORM|
    ensures |PLATFORM| == 11 && Place(PLATFORM[i]) == 21 + i
  {
  }

  lemma JudgedAt(i: nat)
    requires i < |JUDGED|
    ensures |JUDGED| == 12 && Place(JUDGED[i]) == 32 + i
  {
  }

  /** Every place belongs to a field. */
  lemma FieldAt(i: nat) returns (f: Field)
    requires i < 44
    ensures Place(f) == i
  {
    if i < 11 {
      MadeAt(i);
      f := MADE[i];
    } else if i < 21 {
      ModelledAt(i - 11);
      f := MODELLED[i - 11];
    } else if i < 32 {
      PlatformAt(i - 21);
      f := PLATFORM[i - 21];
    } else {
      JudgedAt(i - 32);
      f := JUDGED[i - 32];
    }
  }

  /** Every field is absorbed, in its place. */
  lemma AbsorbedAt(d: RecordData, f: Field)
    ensures |ScalarItems(d)| == 44 && ScalarItems(d)[Place(f)] == ItemOf(Get(d, f))
  {
    ItemsCount(d);
    match f
    case ProvenanceIdF =>
    case ProvenanceGenerationF =>
    case SubjectIdF =>
    case SubjectKindF =>
    case StateGenerationF =>
    case ProducerIdF =>
    case ProducerGenerationF =>
    case ExecutionIdF =>
    case AttemptIdF =>
    case AttemptGenerationF =>
    case CreatedAtF =>
    case ModelIdF =>
    case ModelGenerationF =>
    case ModelRevisionF =>
    case TokenizerF =>
    case AdapterIdF =>
    case AdapterGenerationF =>
    case AdapterRevisionF =>
    case CompositionIdF =>
    case CompositionGenerationF =>
    case CompositionFingerprintF =>
    case RuntimeIdF =>
    case RuntimeGenerationF =>
    case BackendIdF =>
    case ToolchainIdF =>
    case DeviceIdF =>
    case ArchitectureF =>
    case ComputeCapabilityF =>
    case AbiF =>
    case DtypeF =>
    case LayoutF =>
    case ShapeF =>
    case PolicyIdF =>
    case PolicyGenerationF =>
    case PolicyFingerprintF =>
    case ContentDigestF =>
    case CoordinatorEpochF =>
    case WorkerIdF =>
    case WorkerBootF =>
    case EvidenceF =>
    case ValidityF =>
    case InvalidationReasonF =>
    case ReuseEligibilityF =>
    case NoteF =>
  }

  lemma ItemsCount(d: RecordData)
    ensures |ScalarItems(d)| == 44
  {
  }

  /** The two records agree on every other covered field, and on all references. */
  ghost predicate AgreeBut(a: RecordData, b: RecordData, f: Field) {
    a.references == b.references && forall g :: g != f ==> Get(a, g) == Get(b, g)
  }

  lemma AgreeIsDifferAt(a: RecordData, b: RecordData, f: Field)
    requires AgreeBut(a, b, f)
    ensures DifferAt(a, b, Place(f))
  {
    ItemsCount(a);
    ItemsCount(b);
    forall i | 0 <= i < 44 && i != Place(f) ensures ScalarItems(a)[i] == ScalarItems(b)[i] {
      var g := FieldAt(i);
      AbsorbedAt(a, g);
      AbsorbedAt(b, g);
    }
  }

  /** Values of one kind, other than strings, that are absorbed alike are the same. */
  lemma ItemsDiffer(v: FieldValue, w: FieldValue)
    requires !v.Chars? && !w.Chars? && SameKind(v, w)
    ensures ItemOf(v) == ItemOf(w) <==> v == w
  {
    match v
    case Number(_) =>
    case Time(t) =>
    case Kind(k) => SubjectKindDistinct(k, w.k);
    case Evidence(e) => EvidenceClassDistinct(e, w.e);
    case State(x) => ValidityDistinct(x, w.v);
    case Cause(r) => ReasonDistinct(r, w.r);
    case Verdict(y) => EligibilityDistinct(y, w.y);
    case Aspect(d) => DimensionDistinct(d, w.d);
  }

  predicate SameKind(v: FieldValue, w: FieldValue) {
    && v.Number? == w.Number? && v.Time? == w.Time? && v.Kind? == w.Kind? && v.Evidence? == w.Evidence?
    && v.State? == w.State? && v.Cause? == w.Cause? && v.Verdict? == w.Verdict? && v.Aspect? == w.Aspect?
  }

  lemma SameKinds(a: RecordData, b: RecordData, f: Field)
    ensures SameKind(Get(a, f), Get(b, f)) && Get(a, f).Chars? == Get(b, f).Chars?
  {
  }

  /** Two records that agree on all covered fields but one fixed-width one have the same digest
      exactly if they agree on that one too, whatever their artifact generations. */
  lemma DigestSeesField(a: RecordData, b: RecordData, f: Field)
    requires AgreeBut(a, b, f) && !Get(a, f).Chars?
    ensures DerivationDigest(a) == DerivationDigest(b) <==> Get(a, f) == Get(b, f)
  {
    SameKinds(a, b, f);
    AgreeIsDifferAt(a, b, f);
    AbsorbedAt(a, f);
    AbsorbedAt(b, f);
    ItemsDiffer(Get(a, f), Get(b, f));
    DigestSeesOneScalar(a, b, Place(f));
  }

  /** Two strings of one length that agree everywhere but at k. */
  ghost predicate OneByteOff(s: Bytes, t: Bytes, k: nat) {
    |s| == |t| && k < |s| && s[..k] == t[..k] && s[k + 1..] == t[k + 1..]
  }

  /** The same for one byte of a string field. */
  lemma DigestSeesFieldByte(a: RecordData, b: RecordData, f: Field, k: nat)
    requires AgreeBut(a, b, f) && Get(a, f).Chars? && Get(b, f).Chars?
    requires OneByteOff(Get(a, f).s, Get(b, f).s, k)
    ensures DerivationDigest(a) == DerivationDigest(b) <==> Get(a, f) == Get(b, f)
  {
    AgreeIsDifferAt(a, b, f);
    AbsorbedAt(a, f);
    AbsorbedAt(b, f);
    DigestSeesOneByte(a, b, Place(f), k);
    LastByte(Get(a, f).s, Get(b, f).s, k);
  }

  lemma LastByte(s: Bytes, t: Bytes, k: nat)
    requires OneByteOff(s, t, k)
    ensures s == t <==> s[k] == t[k]
  {
    assert s == s[..k] + [s[k]] + s[k + 1..] && t == t[..k] + [t[k]] + t[k + 1..];
  }

  // --------------------------------------------------------------------- the references

  /** Two values, of which strings differ in at most one byte. */
  ghost predicate Close(v: FieldValue, w: FieldValue) {
    && SameKind(v, w) && v.Chars? == w.Chars?
    && (v.Chars? ==> v == w || exists k :: OneByteOff(v.s, w.s, k))
  }

  /** Close values contribute alike only if they are the same. */
  lemma CloseValues(v: FieldValue, w: FieldValue)
    requires Close(v, w)
    ensures ValueOf(ItemOf(v)) == ValueOf(ItemOf(w)) <==> v == w
  {
    if v.Chars? {
      if v != w {
        var k :| OneByteOff(v.s, w.s, k);
        TextValueDistinct(v.s, w.s, k);
        LastByte(v.s, w.s, k);
      }
    } else {
      ItemsDiffer(v, w);
      WordItems(ItemOf(v), ItemOf(w));
    }
  }

  /** Lists that differ in at most one place. */
  ghost predicate OnlyAt<T>(a: seq<T>, b: seq<T>, k: nat) {
    |a| == |b| && k < |a| && forall i :: 0 <= i < |a| && i != k ==> a[i] == b[i]
  }

  lemma StretchAt<T>(p: seq<T>, x: seq<T>, y: seq<T>, q: seq<T>, j: nat, a: seq<T>, b: seq<T>)
    requires OnlyAt(x, y, j) && a == p + x + q && b == p + y + q
    ensures OnlyAt(a, b, |p| + j) && a[|p| + j] == x[j] && b[|p| + j] == y[j]
  {
    forall i | 0 <= i < |a| && i != |p| + j ensures a[i] == b[i] {
      if |p| <= i < |p| + |x| { assert x[i - |p|] == y[i - |p|]; }
    }
  }

  /** Records whose items differ in one place, which holds a close value in each. */
  lemma DigestsAgreeAt(a: RecordData, b: RecordData, k: nat, v: FieldValue, w: FieldValue)
    requires OnlyAt(RecordItems(a), RecordItems(b), k) && Close(v, w)
    requires RecordItems(a)[k] == ItemOf(v) && RecordItems(b)[k] == ItemOf(w)
    ensures DerivationDigest(a) == DerivationDigest(b) <==> v == w
  {
    OneItemDiffers(RECORD_SEED, RecordItems(a), RecordItems(b), k);
    CloseValues(v, w);
    if DerivationDigest(a) == DerivationDigest(b) {
      DigestStringDistinct(Absorbed(RECORD_SEED, RecordItems(a)), Absorbed(RECORD_SEED, RecordItems(b)));
    }
  }

  lemma DigestsAgree(a: RecordData, b: RecordData, p: seq<Item>, x: seq<Item>, y: seq<Item>, q: seq<Item>, j: nat,
                     v: FieldValue, w: FieldValue)
    requires RecordItems(a) == p + x + q && RecordItems(b) == p + y + q
    requires OnlyAt(x, y, j) && x[j] == ItemOf(v) && y[j] == ItemOf(w) && Close(v, w)
    ensures DerivationDigest(a) == DerivationDigest(b) <==> v == w
  {
    StretchAt(p, x, y, q, j, RecordItems(a), RecordItems(b));
    DigestsAgreeAt(a, b, |p| + j, v, w);
  }

  datatype DependencyField = DependencyId | DependencyGeneration | DependencyKind | DependencyRevision

  function GetDependency(x: Dependency, f: DependencyField): FieldValue {
    match f
    case DependencyId => Number(x.id)
    case DependencyGeneration => Number(x.generation)
    case DependencyKind => Chars(x.kind)
    case DependencyRevision => Chars(x.revision)
  }

  function DependencyPlace(f: DependencyField): nat {
    match f
    case DependencyId => 0 case DependencyGeneration => 1 case DependencyKind => 2 case DependencyRevision => 3
  }

  datatype RequirementField = RequirementDimension | RequirementValue | RequirementNote

  function GetRequirement(x: Requirement, f: RequirementField): FieldValue {
    match f
    case RequirementDimension => Aspect(x.dimension)
    case RequirementValue => Chars(x.requiredValue)
    case RequirementNote => Chars(x.note)
  }

  function RequirementPlace(f: RequirementField): nat {
    match f
    case RequirementDimension => 0 case RequirementValue => 1 case RequirementNote => 2
  }

  lemma {:induction false} DependencyAbsorbedAt(s: seq<Dependency>, i: nat, f: DependencyField)
    requires i < |s|
    ensures |DependencyItems(s)| == 4 * |s|
    ensures DependencyItems(s)[4 * i + DependencyPlace(f)] == ItemOf(GetDependency(s[i], f))
  {
    if i > 0 {
      DependencyAbsorbedAt(s[1..], i - 1, f);
    } else {
      DependencyCount(s[1..]);
    }
  }

  lemma {:induction false} DependencyCount(s: seq<Dependency>)
    ensures |DependencyItems(s)| == 4 * |s|
  {
    if s != [] { DependencyCount(s[1..]); }
  }

  lemma {:induction false} RequirementAbsorbedAt(s: seq<Requirement>, i: nat, f: RequirementField)
    requires i < |s|
    ensures |RequirementItems(s)| == 3 * |s|
    ensures RequirementItems(s)[3 * i + RequirementPlace(f)] == ItemOf(GetRequirement(s[i], f))
  {
    if i > 0 {
      RequirementAbsorbedAt(s[1..], i - 1, f);
    } else {
      RequirementCount(s[1..]);
    }
  }

  lemma {:induction false} RequirementCount(s: seq<Requirement>)
    ensures |RequirementItems(s)| == 3 * |s|
  {
    if s != [] { RequirementCount(s[1..]); }
  }

  /** Two lists of dependencies that agree everywhere but in field f of the k-th. */
  ghost predicate DependenciesBut(s: seq<Dependency>, t: seq<Dependency>, k: nat, f: DependencyField) {
    && |s| == |t| && k < |s| && (forall i :: 0 <= i < |s| && i != k ==> s[i] == t[i])
    && forall g :: g != f ==> GetDependency(s[k], g) == GetDependency(t[k], g)
  }

  ghost predicate RequirementsBut(s: seq<Requirement>, t: seq<Requirement>, k: nat, f: RequirementField) {
    && |s| == |t| && k < |s| && (forall i :: 0 <= i < |s| && i != k ==> s[i] == t[i])
    && forall g :: g != f ==> GetRequirement(s[k], g) == GetRequirement(t[k], g)
  }

  lemma DependencyFieldAt(p: nat) returns (f: DependencyField)
    requires p < 4
    ensures DependencyPlace(f) == p
  {
    f := if p == 0 then DependencyId else if p == 1 then DependencyGeneration
         else if p == 2 then DependencyKind else DependencyRevision;
  }

  lemma DependencyItemsBut(s: seq<Dependency>, t: seq<Dependency>, k: nat, f: DependencyField, i: nat,
                          g: DependencyField)
    requires DependenciesBut(s, t, k, f) && i < |s| && (i != k || g != f)
    ensures |DependencyItems(s)| == |DependencyItems(t)| == 4 * |s|
    ensures DependencyItems(s)[4 * i + DependencyPlace(g)] == DependencyItems(t)[4 * i + DependencyPlace(g)]
  {
    DependencyAbsorbedAt(s, i, g);
    DependencyAbsorbedAt(t, i, g);
  }


  lemma DependencyItemsAgree(s: seq<Dependency>, t: seq<Dependency>, k: nat, f: DependencyField, j: nat)
    requires DependenciesBut(s, t, k, f) && j == 4 * k + DependencyPlace(f)
    ensures OnlyAt(DependencyItems(s), DependencyItems(t), j)
    ensures DependencyItems(s)[j] == ItemOf(GetDependency(s[k], f))
    ensures DependencyItems(t)[j] == ItemOf(GetDependency(t[k], f))
  {
    DependencyAbsorbedAt(s, k, f);
    DependencyAbsorbedAt(t, k, f);
    forall i | 0 <= i < 4 * |s| && i != j ensures DependencyItems(s)[i] == DependencyItems(t)[i] {
      var g := DependencyFieldAt(i % 4);
      assert i == 4 * (i / 4) + DependencyPlace(g);
      DependencyItemsBut(s, t, k, f, i / 4, g);
    }
  }

  lemma RequirementFieldAt(p: nat) returns (f: RequirementField)
    requires p < 3
    ensures RequirementPlace(f) == p
  {
    f := if p == 0 then RequirementDimension else if p == 1 then RequirementValue else RequirementNote;
  }

  lemma RequirementItemsBut(s: seq<Requirement>, t: seq<Requirement>, k: nat, f: RequirementField, i: nat,
                           g: RequirementField)
    requires RequirementsBut(s, t, k, f) && i < |s| && (i != k || g != f)
    ensures |RequirementItems(s)| == |RequirementItems(t)| == 3 * |s|
    ensures RequirementItems(s)[3 * i + RequirementPlace(g)] == RequirementItems(t)[3 * i + RequirementPlace(g)]
  {
    RequirementAbsorbedAt(s, i, g);
    RequirementAbsorbedAt(t, i, g);
  }


  lemma RequirementItemsAgree(s: seq<Requirement>, t: seq<Requirement>, k: nat, f: RequirementField, j: nat)
    requires RequirementsBut(s, t, k, f) && j == 3 * k + RequirementPlace(f)
    ensures OnlyAt(RequirementItems(s), RequirementItems(t), j)
    ensures RequirementItems(s)[j] == ItemOf(GetRequirement(s[k], f))
    ensures RequirementItems(t)[j] == ItemOf(GetRequirement(t[k], f))
  {
    RequirementAbsorbedAt(s, k, f);
    RequirementAbsorbedAt(t, k, f);
    forall i | 0 <= i < 3 * |s| && i != j ensures RequirementItems(s)[i] == RequirementItems(t)[i] {
      var g := RequirementFieldAt(i % 3);
      assert i == 3 * (i / 3) + RequirementPlace(g);
      RequirementItemsBut(s, t, k, f, i / 3, g);
    }
  }

  /** The order dependencies are absorbed in. */
  function SortedDependencies(d: RecordData): seq<Dependency> {
    Sort(d.references.dependencies, DependencyLe)
  }

  function SortedRequirements(d: RecordData): seq<Requirement> {
    Sort(d.references.requirements, RequirementLe)
  }

  function Front(d: RecordData): seq<Item> {
    ScalarItems(d) + IdItems(Sort(d.references.inputStates, LessEq)) +
    IdItems(Sort(d.references.parentProvenance, LessEq))
  }

  /** The record with other dependencies; with other requirements; with other inputs or parents. */
  function WithDependencies(d: RecordData, x: seq<Dependency>): RecordData {
    d.(references := d.references.(dependencies := x))
  }

  function WithRequirements(d: RecordData, x: seq<Requirement>): RecordData {
    d.(references := d.references.(requirements := x))
  }

  function WithInputs(d: RecordData, x: seq<StateId>): RecordData {
    d.(references := d.references.(inputStates := x))
  }

  function WithParents(d: RecordData, x: seq<ProvenanceId>): RecordData {
    d.(references := d.references.(parentProvenance := x))
  }

  /** Two records whose dependencies, in the order absorbed, differ in one field of one of them,
      a string in at most a byte, have the same digest exactly if that field is the same. */
  lemma DigestSeesDependency(d: RecordData, x: seq<Dependency>, k: nat, f: DependencyField)
    requires |x| == |d.references.dependencies|
    requires DependenciesBut(SortedDependencies(d), Sort(x, DependencyLe), k, f)
    requires Close(GetDependency(SortedDependencies(d)[k], f), GetDependency(Sort(x, DependencyLe)[k], f))
    ensures DerivationDigest(d) == DerivationDigest(WithDependencies(d, x)) <==>
            GetDependency(SortedDependencies(d)[k], f) == GetDependency(Sort(x, DependencyLe)[k], f)
  {
    var s, t := SortedDependencies(d), Sort(x, DependencyLe);
    var q := [Word(|x| % TWO64)] + RequirementItems(SortedRequirements(d)) +
             [Word(|d.references.requirements| % TWO64)];
    var j := 4 * k + DependencyPlace(f);
    DependencyParts(d, Front(d), q);
    DependencyParts(WithDependencies(d, x), Front(d), q);
    DependencyItemsAgree(s, t, k, f, j);
    DigestsAgree(d, WithDependencies(d, x), Front(d), DependencyItems(s), DependencyItems(t), q, j,
                 GetDependency(s[k], f), GetDependency(t[k], f));
  }

  lemma DependencyParts(d: RecordData, p: seq<Item>, q: seq<Item>)
    requires p == Front(d)
    requires q == [Word(|d.references.dependencies| % TWO64)] + RequirementItems(SortedRequirements(d)) +
                  [Word(|d.references.requirements| % TWO64)]
    ensures RecordItems(d) == p + DependencyItems(SortedDependencies(d)) + q
  {
  }

  /** The same for requirements. */
  lemma DigestSeesRequirement(d: RecordData, x: seq<Requirement>, k: nat, f: RequirementField)
    requires |x| == |d.references.requirements|
    requires RequirementsBut(SortedRequirements(d), Sort(x, RequirementLe), k, f)
    requires Close(GetRequirement(SortedRequirements(d)[k], f), GetRequirement(Sort(x, RequirementLe)[k], f))
    ensures DerivationDigest(d) == DerivationDigest(WithRequirements(d, x)) <==>
            GetRequirement(SortedRequirements(d)[k], f) == GetRequirement(Sort(x, RequirementLe)[k], f)
  {
    var s, t := SortedRequirements(d), Sort(x, RequirementLe);
    var p := RequirementFront(d);
    var q := [Word(|x| % TWO64)];
    var j := 3 * k + RequirementPlace(f);
    RequirementParts(d, p, q);
    RequirementParts(WithRequirements(d, x), p, q);
    RequirementItemsAgree(s, t, k, f, j);
    DigestsAgree(d, WithRequirements(d, x), p, RequirementItems(s), RequirementItems(t), q, j,
                 GetRequirement(s[k], f), GetRequirement(t[k], f));
  }

  function RequirementFront(d: RecordData): seq<Item> {
    Front(d) + DependencyItems(SortedDependencies(d)) + [Word(|d.references.dependencies| % TWO64)]
  }

  lemma RequirementParts(d: RecordData, p: seq<Item>, q: seq<Item>)
    requires p == RequirementFront(d) && q == [Word(|d.references.requirements| % TWO64)]
    ensures RecordItems(d) == p + RequirementItems(SortedRequirements(d)) + q
  {
  }

  lemma IdItemsAgree(s: seq<u64>, t: seq<u64>, k: nat)
    requires OnlyAt(s, t, k)
    ensures OnlyAt(IdItems(s), IdItems(t), k)
    ensures IdItems(s)[k] == ItemOf(Number(s[k])) && IdItems(t)[k] == ItemOf(Number(t[k]))
  {
  }

  /** Two records whose input states, sorted, differ in one place have different digests. */
  lemma DigestSeesInput(d: RecordData, x: seq<StateId>, k: nat)
    requires OnlyAt(Sort(d.references.inputStates, LessEq), Sort(x, LessEq), k)
    ensures DerivationDigest(d) == DerivationDigest(WithInputs(d, x)) <==>
            Sort(d.references.inputStates, LessEq)[k] == Sort(x, LessEq)[k]
  {
    var s, t := Sort(d.references.inputStates, LessEq), Sort(x, LessEq);
    var p := ScalarItems(d);
    var q := IdItems(Sort(d.references.parentProvenance, LessEq)) + DependencyItems(SortedDependencies(d)) +
             [Word(|d.references.dependencies| % TWO64)] + RequirementItems(SortedRequirements(d)) +
             [Word(|d.references.requirements| % TWO64)];
    InputParts(d, p, q);
    InputParts(WithInputs(d, x), p, q);
    IdItemsAgree(s, t, k);
    DigestsAgree(d, WithInputs(d, x), p, IdItems(s), IdItems(t), q, k, Number(s[k]), Number(t[k]));
  }

  lemma InputParts(d: RecordData, p: seq<Item>, q: seq<Item>)
    requires p == ScalarItems(d)
    requires q == IdItems(Sort(d.references.parentProvenance, LessEq)) + DependencyItems(SortedDependencies(d)) +
                  [Word(|d.references.dependencies| % TWO64)] + RequirementItems(SortedRequirements(d)) +
                  [Word(|d.references.requirements| % TWO64)]
    ensures RecordItems(d) == p + IdItems(Sort(d.references.inputStates, LessEq)) + q
  {
  }

  /** The same for parent records. */
  lemma DigestSeesParent(d: RecordData, x: seq<ProvenanceId>, k: nat)
    requires OnlyAt(Sort(d.references.parentProvenance, LessEq), Sort(x, LessEq), k)
    ensures DerivationDigest(d) == DerivationDigest(WithParents(d, x)) <==>
            Sort(d.references.parentProvenance, LessEq)[k] == Sort(x, LessEq)[k]
  {
    var s, t := Sort(d.references.parentProvenance, LessEq), Sort(x, LessEq);
    var p := ScalarItems(d) + IdItems(Sort(d.references.inputStates, LessEq));
    var q := DependencyItems(SortedDependencies(d)) + [Word(|d.references.dependencies| % TWO64)] +
             RequirementItems(SortedRequirements(d)) + [Word(|d.references.requirements| % TWO64)];
    ParentParts(d, p, q);
    ParentParts(WithParents(d, x), p, q);
    IdItemsAgree(s, t, k);
    DigestsAgree(d, WithParents(d, x), p, IdItems(s), IdItems(t), q, k, Number(s[k]), Number(t[k]));
  }

  lemma ParentParts(d: RecordData, p: seq<Item>, q: seq<Item>)
    requires p == ScalarItems(d) + IdItems(Sort(d.references.inputStates, LessEq))
    requires q == DependencyItems(SortedDependencies(d)) + [Word(|d.references.dependencies| % TWO64)] +
                  RequirementItems(SortedRequirements(d)) + [Word(|d.references.requirements| % TWO64)]
    ensures RecordItems(d) == p + IdItems(Sort(d.references.parentProvenance, LessEq)) + q
  {
  }
}
