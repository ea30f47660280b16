/** The domain vocabulary (enums.hpp) and provenance records (record.hpp). */
module Records {
  import opened Ids
  import opened Orders

  /** A std::string: a sequence of bytes. */
  type Bytes = seq<u8>

  function Ascii(s: string): Bytes {
    seq(|s|, i requires 0 <= i < |s| => s[i] as int % 0x80)
  }

  // ------------------------------------------------------------- enumerations

  datatype SubjectKind =
    | KVState | TensorState | ReusablePrefix | ModelArtifact | Adapter | CompiledKernel
    | ExecutionGraph | Checkpoint | Buffer | ModelResidency | DerivedExecutionPlan
    | CompiledArtifact | RuntimeCache | ReusableComputation | Generic | UnknownKind

  datatype EvidenceClass = Measured | Reported | Derived | Reconstructed | Estimated | UnknownEvidence

  datatype Validity = Valid | Stale | Invalidated | UnknownValidity

  datatype Eligibility =
    | Eligible | Ineligible | StaleState | InvalidatedState | Incompatible
    | IncompleteProvenance | UnknownEligibility

  datatype Reason =
    | ModelRevisionChange | AdapterRevisionChange | CompositionChange
    | ArtifactInvalidation | DependencyInvalidation | RuntimeBackendIncompatibility
    | ArchitectureIncompatibility | PolicyGenerationChange | OperatorInvalidation
    | CorruptState | ProducerGenerationRollover | UnknownReason

  datatype Dimension =
    | ModelIdentity | ModelRevision | Tokenizer | AdapterIdentity | AdapterRevision
    | AdapterComposition | Backend | Runtime | Compiler | Toolchain | Architecture
    | ComputeCapability | ABI | Dtype | Layout | TensorGeometry | ShapeSpecialization
    | KernelSpecialization | GraphTopology | ModelGen | AdapterGen | CompositionGen
    | RuntimeGen | PolicyGen | ArtifactGen | ResidencyGen | DependencyGen
    | ProvenanceIntegrity | UnknownDimension

  // ------------------------------------------------------------------ records

  type i64 = x: int | -0x8000_0000_0000_0000 <= x < 0x8000_0000_0000_0000

  datatype Dependency = Dependency(id: u64, generation: u64, kind: Bytes, revision: Bytes)

  datatype Requirement = Requirement(dimension: Dimension, requiredValue: Bytes, note: Bytes)

  datatype Identity = Identity(
    provenanceId: ProvenanceId, provenanceGeneration: u64, subjectId: StateId,
    subjectKind: SubjectKind, stateGeneration: u64)

  datatype Production = Production(
    producerId: u64, producerGeneration: u64, executionId: u64,
    attemptId: u64, attemptGeneration: u64, createdAt: i64)

  datatype Model = Model(modelId: u64, modelGeneration: u64, modelRevision: Bytes, tokenizer: Bytes)

  datatype Composition = Composition(
    adapterId: u64, adapterGeneration: u64, adapterRevision: Bytes,
    compositionId: u64, compositionGeneration: u64, compositionFingerprint: Bytes)

  datatype Platform = Platform(
    runtimeId: u64, runtimeGeneration: u64, artifactGeneration: u64, backendId: u64,
    toolchainId: u64, deviceId: u64, architecture: Bytes, computeCapability: Bytes, abi: Bytes)

  datatype Tensor = Tensor(dtype: Bytes, layout: Bytes, shape: Bytes)

  datatype References = References(
    inputStates: seq<StateId>, parentProvenance: seq<ProvenanceId>,
    dependencies: seq<Dependency>, requirements: seq<Requirement>)

  datatype Policy = Policy(
    policyId: u64, policyGeneration: u64, policyFingerprint: Bytes, contentDigest: Bytes)

  datatype Fencing = Fencing(coordinatorEpoch: u64, workerId: WorkerId, workerBoot: u64)

  datatype Classification = Classification(
    evidence: EvidenceClass, validity: Validity, invalidationReason: Reason,
    reuseEligibility: Eligibility, note: Bytes)

  /** RecordData, in the declaration order of the source and grouped as its comments group it. */
  datatype RecordData = RecordData(
    identity: Identity, production: Production, model: Model, composition: Composition,
    platform: Platform, tensor: Tensor, references: References, policy: Policy,
    fencing: Fencing, classification: Classification)
  {
    function Subject(): StateId { identity.subjectId }
    function Provenance(): ProvenanceId { identity.provenanceId }
  }

  // --------------------------------------------------------------- validation

  datatype RecordError =
    | ZeroProvenanceId | ZeroProvenanceGeneration | ZeroSubjectId | ZeroStateGeneration
    | ZeroProducerId | ZeroProducerGeneration | UnspecifiedKind | NoReference
    | DuplicateInput | DuplicateParent | OwnParent | ZeroDependencyId
    | UnspecifiedDimension | EmptyRequirement

  /** Each way a record can be malformed, on its own. */
  ghost predicate Violates(d: RecordData, e: RecordError) {
    match e
    case ZeroProvenanceId => d.identity.provenanceId == 0
    case ZeroProvenanceGeneration => d.identity.provenanceGeneration == 0
    case ZeroSubjectId => d.identity.subjectId == 0
    case ZeroStateGeneration => d.identity.stateGeneration == 0
    case ZeroProducerId => d.production.producerId == 0
    case ZeroProducerGeneration => d.production.producerGeneration == 0
    case UnspecifiedKind => d.identity.subjectKind == UnknownKind
    case NoReference =>
      d.references.inputStates == [] && d.references.parentProvenance == [] &&
      d.references.dependencies == [] && d.production.executionId == 0
    case DuplicateInput => !Distinct(d.references.inputStates)
    case DuplicateParent => !Distinct(d.references.parentProvenance)
    case OwnParent => d.identity.provenanceId in d.references.parentProvenance
    case ZeroDependencyId => exists p :: p in d.references.dependencies && p.id == 0
    case UnspecifiedDimension => exists q :: q in d.references.requirements && q.dimension == UnknownDimension
    case EmptyRequirement => exists q :: q in d.references.requirements && q.requiredValue == []
  }

  ghost predicate WellFormed(d: RecordData) {
    forall e :: !Violates(d, e)
  }

  /** The order the checks run in; the two requirement checks share one loop. */
  function Rank(e: RecordError): nat {
    match e
    case ZeroProvenanceId => 0 case ZeroProvenanceGeneration => 1 case ZeroSubjectId => 2
    case ZeroStateGeneration => 3 case ZeroProducerId => 4 case ZeroProducerGeneration => 5
    case UnspecifiedKind => 6 case NoReference => 7 case DuplicateInput => 8 case DuplicateParent => 9
    case OwnParent => 10 case ZeroDependencyId => 11 case UnspecifiedDimension => 12
    case EmptyRequirement => 12
  }

  predicate LessEq(a: u64, b: u64) {
    a <= b
  }

  lemma LessEqTotal()
    ensures TotalOrder(LessEq)
  {
  }

  /** std::sort followed by std::unique: does the list name anything twice? */
  method HasDuplicate(s: seq<u64>) returns (b: bool)
    ensures b <==> !Distinct(s)
  {
    LessEqTotal();
    var t := Sort(s, LessEq);
    SortSorts(s, LessEq);
    SameDistinctness(s, t);
    var i := 1;
    while i < |t|
      invariant forall j, k :: 0 <= j < k < i && k < |t| ==> t[j] != t[k]
    {
      if t[i - 1] == t[i] { return true; }
      assert forall j :: 0 <= j < i - 1 ==> LessEq(t[j], t[i - 1]);
      assert LessEq(t[i - 1], t[i]);
      i := i + 1;
    }
    b := false;
  }

  lemma {:induction false} DistinctByCount<T>(s: seq<T>)
    ensures Distinct(s) <==> forall x :: multiset(s)[x] <= 1
  {
    if s != [] {
      var p, x := s[..|s| - 1], s[|s| - 1];
      assert s == p + [x];
      DistinctByCount(p);
      assert multiset(s) == multiset(p) + multiset{x};
      if Distinct(s) {
        assert x !in p;
        assert Distinct(p) by { assert forall i, j :: 0 <= i < j < |p| ==> p[i] == s[i] && p[j] == s[j]; }
      }
      if forall y :: multiset(s)[y] <= 1 {
        assert multiset(s)[x] <= 1;
        assert x !in multiset(p);
        assert forall y :: multiset(p)[y] <= multiset(s)[y];
      }
    }
  }

  lemma SameDistinctness<T>(s: seq<T>, t: seq<T>)
    requires multiset(s) == multiset(t)
    ensures Distinct(s) <==> Distinct(t)
  {
    DistinctByCount(s);
    DistinctByCount(t);
  }

  /** validate_record: the first violated requirement, or none. */
  method ValidateRecord(d: RecordData) returns (error: Option<RecordError>)
    ensures error.None? ==> WellFormed(d)
    ensures error.Some? ==> Violates(d, error.value)
    ensures error.Some? ==> forall e :: Rank(e) < Rank(error.value) ==> !Violates(d, e)
  {
    if d.identity.provenanceId == 0 { return Some(ZeroProvenanceId); }
    if d.identity.provenanceGeneration == 0 { return Some(ZeroProvenanceGeneration); }
    if d.identity.subjectId == 0 { return Some(ZeroSubjectId); }
    if d.identity.stateGeneration == 0 { return Some(ZeroStateGeneration); }
    if d.production.producerId == 0 { return Some(ZeroProducerId); }
    if d.production.producerGeneration == 0 { return Some(ZeroProducerGeneration); }
    if d.identity.subjectKind == UnknownKind { return Some(UnspecifiedKind); }
    var refs := d.references;
    if refs.inputStates == [] && refs.parentProvenance == [] && refs.dependencies == [] &&
       d.production.executionId == 0 { return Some(NoReference); }
    var dup := HasDuplicate(refs.inputStates);
    if dup { return Some(DuplicateInput); }
    dup := HasDuplicate(refs.parentProvenance);
    if dup { return Some(DuplicateParent); }
    if d.identity.provenanceId in refs.parentProvenance { return Some(OwnParent); }
    for i := 0 to |refs.dependencies|
      invariant forall j :: 0 <= j < i ==> refs.dependencies[j].id != 0
    {
      assert refs.dependencies[i] in refs.dependencies;
      if refs.dependencies[i].id == 0 { return Some(ZeroDependencyId); }
    }
    for i := 0 to |refs.requirements|
      invariant forall j :: 0 <= j < i ==>
        refs.requirements[j].dimension != UnknownDimension && refs.requirements[j].requiredValue != []
    {
      assert refs.requirements[i] in refs.requirements;
      if refs.requirements[i].dimension == UnknownDimension { return Some(UnspecifiedDimension); }
      if refs.requirements[i].requiredValue == [] { return Some(EmptyRequirement); }
    }
    error := None;
  }
}
