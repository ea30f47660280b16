/** Records on the wire (write_record and read_record of persist.hpp).  Every reader accepts
    exactly the encodings of readable values, and consumes exactly one of them. */
module RecordCodec {
  import opened Ids
  import opened Records
  import opened EnumBytes
  import opened Wire

  // ------------------------------------------------------------------------ layouts

  function EIdentity(x: Identity, t: Bytes): Bytes {
    E64(x.provenanceId, E64(x.provenanceGeneration, E64(x.subjectId,
      E8(SubjectKindByte(x.subjectKind), E64(x.stateGeneration, t)))))
  }

  function EProduction(x: Production, t: Bytes): Bytes {
    E64(x.producerId, E64(x.producerGeneration, E64(x.executionId, E64(x.attemptId,
      E64(x.attemptGeneration, EI64(x.createdAt, t))))))
  }

  function EModel(x: Model, t: Bytes): Bytes {
    E64(x.modelId, E64(x.modelGeneration, EStr(x.modelRevision, EStr(x.tokenizer, t))))
  }

  function EComposition(x: Composition, t: Bytes): Bytes {
    E64(x.adapterId, E64(x.adapterGeneration, EStr(x.adapterRevision,
      E64(x.compositionId, E64(x.compositionGeneration, EStr(x.compositionFingerprint, t))))))
  }

  function EPlatform(x: Platform, t: Bytes): Bytes {
    E64(x.runtimeId, E64(x.runtimeGeneration, E64(x.artifactGeneration, E64(x.backendId, E64(x.toolchainId,
      E64(x.deviceId, EStr(x.architecture, EStr(x.computeCapability, EStr(x.abi, t)))))))))
  }

  function ETensor(x: Tensor, t: Bytes): Bytes {
    EStr(x.dtype, EStr(x.layout, EStr(x.shape, t)))
  }

  function EDependency(x: Dependency, t: Bytes): Bytes {
    E64(x.id, E64(x.generation, EStr(x.kind, EStr(x.revision, t))))
  }

  function ERequirement(x: Requirement, t: Bytes): Bytes {
    E8(DimensionByte(x.dimension), EStr(x.requiredValue, EStr(x.note, t)))
  }

  function EDependencies(xs: seq<Dependency>, t: Bytes): Bytes {
    EVec(EDependency, xs, t)
  }

  function ERequirements(xs: seq<Requirement>, t: Bytes): Bytes {
    EVec(ERequirement, xs, t)
  }

  function EReferences(x: References, t: Bytes): Bytes {
    EIds(x.inputStates, EIds(x.parentProvenance,
      EDependencies(x.dependencies, ERequirements(x.requirements, t))))
  }

  function EPolicy(x: Policy, t: Bytes): Bytes {
    E64(x.policyId, E64(x.policyGeneration, EStr(x.policyFingerprint, EStr(x.contentDigest, t))))
  }

  function EFencing(x: Fencing, t: Bytes): Bytes {
    E64(x.coordinatorEpoch, E64(x.workerId, E64(x.workerBoot, t)))
  }

  function EClassification(x: Classification, t: Bytes): Bytes {
    E8(EvidenceClassByte(x.evidence), E8(ValidityByte(x.validity), E8(ReasonByte(x.invalidationReason),
      E8(EligibilityByte(x.reuseEligibility), EStr(x.note, t)))))
  }

  function ERecord(d: RecordData, t: Bytes): Bytes {
    EIdentity(d.identity, EProduction(d.production, EModel(d.model, EComposition(d.composition,
      EPlatform(d.platform, ETensor(d.tensor, EReferences(d.references, EPolicy(d.policy,
        EFencing(d.fencing, EClassification(d.classification, t))))))))))
  }

  // ------------------------------------------------------------- what can be written

  predicate ModelShort(x: Model) {
    Short(x.modelRevision) && Short(x.tokenizer)
  }

  predicate CompositionShort(x: Composition) {
    Short(x.adapterRevision) && Short(x.compositionFingerprint)
  }

  predicate PlatformShort(x: Platform) {
    Short(x.architecture) && Short(x.computeCapability) && Short(x.abi)
  }

  predicate TensorShort(x: Tensor) {
    Short(x.dtype) && Short(x.layout) && Short(x.shape)
  }

  predicate DependencyShort(x: Dependency) {
    Short(x.kind) && Short(x.revision)
  }

  predicate RequirementShort(x: Requirement) {
    Short(x.requiredValue) && Short(x.note)
  }

  ghost predicate ReferencesShort(x: References) {
    All(DependencyShort, x.dependencies) && All(RequirementShort, x.requirements)
  }

  ghost predicate DependenciesFit(xs: seq<Dependency>) {
    VecFits(DependencyShort, xs)
  }

  ghost predicate RequirementsFit(xs: seq<Requirement>) {
    VecFits(RequirementShort, xs)
  }

  /** Within the reader's bounds too. */
  ghost predicate ReferencesFit(x: References) {
    && IdsFit(x.inputStates) && IdsFit(x.parentProvenance)
    && DependenciesFit(x.dependencies) && RequirementsFit(x.requirements)
  }

  predicate PolicyShort(x: Policy) {
    Short(x.policyFingerprint) && Short(x.contentDigest)
  }

  predicate ClassificationShort(x: Classification) {
    Short(x.note)
  }

  /** No string of the record is over the writer's bound. */
  ghost predicate RecordShort(d: RecordData) {
    && ModelShort(d.model) && CompositionShort(d.composition) && PlatformShort(d.platform) && TensorShort(d.tensor)
    && ReferencesShort(d.references) && PolicyShort(d.policy) && ClassificationShort(d.classification)
  }

  /** No string and no vector of the record is over the reader's bounds. */
  ghost predicate RecordFits(d: RecordData) {
    && ModelShort(d.model) && CompositionShort(d.composition) && PlatformShort(d.platform) && TensorShort(d.tensor)
    && ReferencesFit(d.references) && PolicyShort(d.policy) && ClassificationShort(d.classification)
  }

  /** What a reader can hand out: within every bound, and valid. */
  ghost predicate Readable(d: RecordData) {
    RecordFits(d) && WellFormed(d)
  }

  // ------------------------------------------------------------------------ writing

  method WriteIdentity(w: BinaryWriter, x: Identity)
    modifies w
    ensures forall t :: w.buf + t == old(w.buf) + EIdentity(x, t)
  {
    w.U64(x.provenanceId);
    w.U64(x.provenanceGeneration);
    w.U64(x.subjectId);
    w.U8(SubjectKindByte(x.subjectKind));
    w.U64(x.stateGeneration);
  }

  method WriteProduction(w: BinaryWriter, x: Production)
    modifies w
    ensures forall t :: w.buf + t == old(w.buf) + EProduction(x, t)
  {
    w.U64(x.producerId);
    w.U64(x.producerGeneration);
    w.U64(x.executionId);
    w.U64(x.attemptId);
    w.U64(x.attemptGeneration);
    w.I64(x.createdAt);
  }

  method WriteModel(w: BinaryWriter, x: Model) returns (ok: bool)
    modifies w
    ensures ok <==> ModelShort(x)
    ensures ok ==> forall t :: w.buf + t == old(w.buf) + EModel(x, t)
  {
    w.U64(x.modelId);
    w.U64(x.modelGeneration);
    ok := w.Str(x.modelRevision);
    if ok { ok := w.Str(x.tokenizer); }
  }

  method WriteComposition(w: BinaryWriter, x: Composition) returns (ok: bool)
    modifies w
    ensures ok <==> CompositionShort(x)
    ensures ok ==> forall t :: w.buf + t == old(w.buf) + EComposition(x, t)
  {
    w.U64(x.adapterId);
    w.U64(x.adapterGeneration);
    ok := w.Str(x.adapterRevision);
    if !ok { return; }
    w.U64(x.compositionId);
    w.U64(x.compositionGeneration);
    ok := w.Str(x.compositionFingerprint);
  }

  method WritePlatform(w: BinaryWriter, x: Platform) returns (ok: bool)
    modifies w
    ensures ok <==> PlatformShort(x)
    ensures ok ==> forall t :: w.buf + t == old(w.buf) + EPlatform(x, t)
  {
    w.U64(x.runtimeId);
    w.U64(x.runtimeGeneration);
    w.U64(x.artifactGeneration);
    w.U64(x.backendId);
    w.U64(x.toolchainId);
    w.U64(x.deviceId);
    ok := w.Str(x.architecture);
    if ok { ok := w.Str(x.computeCapability); }
    if ok { ok := w.Str(x.abi); }
  }

  method WriteTensor(w: BinaryWriter, x: Tensor) returns (ok: bool)
    modifies w
    ensures ok <==> TensorShort(x)
    ensures ok ==> forall t :: w.buf + t == old(w.buf) + ETensor(x, t)
  {
    ok := w.Str(x.dtype);
    if ok { ok := w.Str(x.layout); }
    if ok { ok := w.Str(x.shape); }
  }

  method WriteDependency(w: BinaryWriter, x: Dependency) returns (ok: bool)
    modifies w
    ensures ok <==> DependencyShort(x)
    ensures ok ==> forall t :: w.buf + t == old(w.buf) + EDependency(x, t)
  {
    w.U64(x.id);
    w.U64(x.generation);
    ok := w.Str(x.kind);
    if ok { ok := w.Str(x.revision); }
  }

  method WriteDependencies(w: BinaryWriter, xs: seq<Dependency>) returns (ok: bool)
    modifies w
    ensures ok <==> All(DependencyShort, xs)
    ensures ok ==> forall t :: w.buf + t == old(w.buf) + EDependencies(xs, t)
  {
    ghost var before := w.buf;
    w.U32(|xs| % TWO32);
    ghost var start := w.buf;
    ok := WriteEachDependency(w, xs);
    if ok { WrittenVec(EDependency, before, start, w.buf, xs); }
  }

  method WriteEachDependency(w: BinaryWriter, xs: seq<Dependency>) returns (ok: bool)
    modifies w
    ensures ok <==> All(DependencyShort, xs)
    ensures ok ==> Written(EDependency, old(w.buf), w.buf, xs)
  {
    ghost var start := w.buf;
    NoneWritten(EDependency, start, xs);
    for i := 0 to |xs|
      invariant All(DependencyShort, xs[..i]) && Written(EDependency, start, w.buf, xs[..i])
    {
      ghost var before := w.buf;
      ok := WriteDependency(w, xs[i]);
      AllNext(DependencyShort, xs, i);
      if !ok { return; }
      WrittenNext(EDependency, start, before, w.buf, xs, i);
    }
    assert xs[..|xs|] == xs;
    ok := true;
  }

  method WriteRequirement(w: BinaryWriter, x: Requirement) returns (ok: bool)
    modifies w
    ensures ok <==> RequirementShort(x)
    ensures ok ==> forall t :: w.buf + t == old(w.buf) + ERequirement(x, t)
  {
    w.U8(DimensionByte(x.dimension));
    ok := w.Str(x.requiredValue);
    if ok { ok := w.Str(x.note); }
  }

  method WriteRequirements(w: BinaryWriter, xs: seq<Requirement>) returns (ok: bool)
    modifies w
    ensures ok <==> All(RequirementShort, xs)
    ensures ok ==> forall t :: w.buf + t == old(w.buf) + ERequirements(xs, t)
  {
    ghost var before := w.buf;
    w.U32(|xs| % TWO32);
    ghost var start := w.buf;
    ok := WriteEachRequirement(w, xs);
    if ok { WrittenVec(ERequirement, before, start, w.buf, xs); }
  }

  method WriteEachRequirement(w: BinaryWriter, xs: seq<Requirement>) returns (ok: bool)
    modifies w
    ensures ok <==> All(RequirementShort, xs)
    ensures ok ==> Written(ERequirement, old(w.buf), w.buf, xs)
  {
    ghost var start := w.buf;
    NoneWritten(ERequirement, start, xs);
    for i := 0 to |xs|
      invariant All(RequirementShort, xs[..i]) && Written(ERequirement, start, w.buf, xs[..i])
    {
      ghost var before := w.buf;
      ok := WriteRequirement(w, xs[i]);
      AllNext(RequirementShort, xs, i);
      if !ok { return; }
      WrittenNext(ERequirement, start, before, w.buf, xs, i);
    }
    assert xs[..|xs|] == xs;
    ok := true;
  }

  method WriteReferences(w: BinaryWriter, x: References) returns (ok: bool)
    modifies w
    ensures ok <==> ReferencesShort(x)
    ensures ok ==> forall t :: w.buf + t == old(w.buf) + EReferences(x, t)
  {
    w.Ids(x.inputStates);
    w.Ids(x.parentProvenance);
    ok := WriteDependencies(w, x.dependencies);
    if ok { ok := WriteRequirements(w, x.requirements); }
  }

  method WritePolicy(w: BinaryWriter, x: Policy) returns (ok: bool)
    modifies w
    ensures ok <==> PolicyShort(x)
    ensures ok ==> forall t :: w.buf + t == old(w.buf) + EPolicy(x, t)
  {
    w.U64(x.policyId);
    w.U64(x.policyGeneration);
    ok := w.Str(x.policyFingerprint);
    if ok { ok := w.Str(x.contentDigest); }
  }

  method WriteFencing(w: BinaryWriter, x: Fencing)
    modifies w
    ensures forall t :: w.buf + t == old(w.buf) + EFencing(x, t)
  {
    w.U64(x.coordinatorEpoch);
    w.U64(x.workerId);
    w.U64(x.workerBoot);
  }

  method WriteClassification(w: BinaryWriter, x: Classification) returns (ok: bool)
    modifies w
    ensures ok <==> ClassificationShort(x)
    ensures ok ==> forall t :: w.buf + t == old(w.buf) + EClassification(x, t)
  {
    w.U8(EvidenceClassByte(x.evidence));
    w.U8(ValidityByte(x.validity));
    w.U8(ReasonByte(x.invalidationReason));
    w.U8(EligibilityByte(x.reuseEligibility));
    ok := w.Str(x.note);
  }

  method WriteRecord(w: BinaryWriter, d: RecordData) returns (ok: bool)
    modifies w
    ensures ok <==> RecordShort(d)
    ensures ok ==> forall t :: w.buf + t == old(w.buf) + ERecord(d, t)
  {
    WriteIdentity(w, d.identity);
    WriteProduction(w, d.production);
    ok := WriteModel(w, d.model);
    if ok { ok := WriteComposition(w, d.composition); }
    if ok { ok := WritePlatform(w, d.platform); }
    if ok { ok := WriteTensor(w, d.tensor); }
    if ok { ok := WriteReferences(w, d.references); }
    if ok { ok := WritePolicy(w, d.policy); }
    if !ok { return; }
    WriteFencing(w, d.fencing);
    ok := WriteClassification(w, d.classification);
  }

  // ------------------------------------------------------------------------ reading

  method ReadIdentity(r: BinaryReader) returns (x: Option<Identity>)
    requires r.Ready()
    modifies r
    ensures x.Some? ==> r.Ready()
    ensures ReadBack(EIdentity, Any, old(r.Rest()), x, r.Rest())
  {
    var provenanceId :- r.U64();
    var provenanceGeneration :- r.U64();
    var subjectId :- r.U64();
    var b :- r.U8();
    var kind :- SubjectKindOf(b);
    var stateGeneration :- r.U64();
    x := Some(Identity(provenanceId, provenanceGeneration, subjectId, kind, stateGeneration));
  }

  method ReadProduction(r: BinaryReader) returns (x: Option<Production>)
    requires r.Ready()
    modifies r
    ensures x.Some? ==> r.Ready()
    ensures ReadBack(EProduction, Any, old(r.Rest()), x, r.Rest())
  {
    var producerId :- r.U64();
    var producerGeneration :- r.U64();
    var executionId :- r.U64();
    var attemptId :- r.U64();
    var attemptGeneration :- r.U64();
    var createdAt :- r.I64();
    x := Some(Production(producerId, producerGeneration, executionId, attemptId, attemptGeneration, createdAt));
  }

  method ReadModel(r: BinaryReader) returns (x: Option<Model>)
    requires r.Ready()
    modifies r
    ensures x.Some? ==> r.Ready()
    ensures ReadBack(EModel, ModelShort, old(r.Rest()), x, r.Rest())
  {
    var modelId :- r.U64();
    var modelGeneration :- r.U64();
    var modelRevision :- r.Str();
    var tokenizer :- r.Str();
    x := Some(Model(modelId, modelGeneration, modelRevision, tokenizer));
  }

  method ReadComposition(r: BinaryReader) returns (x: Option<Composition>)
    requires r.Ready()
    modifies r
    ensures x.Some? ==> r.Ready()
    ensures ReadBack(EComposition, CompositionShort, old(r.Rest()), x, r.Rest())
  {
    var adapterId :- r.U64();
    var adapterGeneration :- r.U64();
    var adapterRevision :- r.Str();
    var compositionId :- r.U64();
    var compositionGeneration :- r.U64();
    var compositionFingerprint :- r.Str();
    x := Some(Composition(adapterId, adapterGeneration, adapterRevision, compositionId, compositionGeneration,
                          compositionFingerprint));
  }

  method ReadPlatform(r: BinaryReader) returns (x: Option<Platform>)
    requires r.Ready()
    modifies r
    ensures x.Some? ==> r.Ready()
    ensures ReadBack(EPlatform, PlatformShort, old(r.Rest()), x, r.Rest())
  {
    ghost var r0 := r.Rest();
    var ids := ReadPlatformIds(r);
    ghost var r1 := r.Rest();
    var names: Option<Names> := None;
    if ids.Some? { names := ReadNames(r); }
    x := if names.None? then None else Some(PlatformOf(ids.value, names.value));
    PlatformBack(r0, ids, r1, names, r.Rest(), x);
  }

  /** The ids of a platform, and its names. */
  datatype PlatformIds = PlatformIds(
    runtimeId: u64, runtimeGeneration: u64, artifactGeneration: u64, backendId: u64, toolchainId: u64, deviceId: u64)

  type Names = (Bytes, Bytes, Bytes)

  function PlatformOf(x: PlatformIds, n: Names): Platform {
    Platform(x.runtimeId, x.runtimeGeneration, x.artifactGeneration, x.backendId, x.toolchainId, x.deviceId,
             n.0, n.1, n.2)
  }

  function PlatformParts(x: Platform): (PlatformIds, Names) {
    (PlatformIds(x.runtimeId, x.runtimeGeneration, x.artifactGeneration, x.backendId, x.toolchainId, x.deviceId),
     (x.architecture, x.computeCapability, x.abi))
  }

  function EPlatformIds(x: PlatformIds, t: Bytes): Bytes {
    E64(x.runtimeId, E64(x.runtimeGeneration, E64(x.artifactGeneration,
      E64(x.backendId, E64(x.toolchainId, E64(x.deviceId, t))))))
  }

  function ENames(n: Names, t: Bytes): Bytes {
    EStr(n.0, EStr(n.1, EStr(n.2, t)))
  }

  predicate NamesShort(n: Names) {
    Short(n.0) && Short(n.1) && Short(n.2)
  }

  method ReadPlatformIds(r: BinaryReader) returns (x: Option<PlatformIds>)
    requires r.Ready()
    modifies r
    ensures x.Some? ==> r.Ready()
    ensures ReadBack(EPlatformIds, Any, old(r.Rest()), x, r.Rest())
  {
    var runtimeId :- r.U64();
    var runtimeGeneration :- r.U64();
    var artifactGeneration :- r.U64();
    var backendId :- r.U64();
    var toolchainId :- r.U64();
    var deviceId :- r.U64();
    x := Some(PlatformIds(runtimeId, runtimeGeneration, artifactGeneration, backendId, toolchainId, deviceId));
  }

  method ReadNames(r: BinaryReader) returns (x: Option<Names>)
    requires r.Ready()
    modifies r
    ensures x.Some? ==> r.Ready()
    ensures ReadBack(ENames, NamesShort, old(r.Rest()), x, r.Rest())
  {
    var architecture :- r.Str();
    var computeCapability :- r.Str();
    var abi :- r.Str();
    x := Some((architecture, computeCapability, abi));
  }

  lemma PlatformIdsUnambiguous()
    ensures Unambiguous(EPlatformIds, Any)
  {
  }

  lemma PartsAgree()
    ensures forall v :: PlatformShort(v) <==> Both(Any, NamesShort)(PlatformParts(v))
    ensures forall v, t :: EPlatform(v, t) == Then(EPlatformIds, ENames)(PlatformParts(v), t)
  {
    forall v ensures PlatformShort(v) <==> Both(Any, NamesShort)(PlatformParts(v)) {
      var p := PlatformParts(v);
      assert Any(p.0) && (NamesShort(p.1) <==> PlatformShort(v));
      assert Both(Any, NamesShort)(p) <==> Any(p.0) && NamesShort(p.1);
    }
    forall v, t ensures EPlatform(v, t) == Then(EPlatformIds, ENames)(PlatformParts(v), t) {
      var p := PlatformParts(v);
      assert Then(EPlatformIds, ENames)(p, t) == EPlatformIds(p.0, ENames(p.1, t));
      SamePlatform(v, t);
    }
  }

  lemma SamePlatform(v: Platform, t: Bytes)
    ensures EPlatform(v, t) == EPlatformIds(PlatformParts(v).0, ENames(PlatformParts(v).1, t))
  {
  }

  lemma PlatformBack(r0: Bytes, ids: Option<PlatformIds>, r1: Bytes, names: Option<Names>, r2: Bytes,
                     x: Option<Platform>)
    requires ReadBack(EPlatformIds, Any, r0, ids, r1)
    requires ids.Some? ==> ReadBack(ENames, NamesShort, r1, names, r2)
    requires names.Some? ==> ids.Some?
    requires x == if names.None? then None else Some(PlatformOf(ids.value, names.value))
    ensures ReadBack(EPlatform, PlatformShort, r0, x, r2)
  {
    PlatformIdsUnambiguous();
    ThenBack(true, EPlatformIds, Any, ENames, NamesShort, r0, ids, r1, names, r2);
    PartsAgree();
    Renamed(Then(EPlatformIds, ENames), Both(Any, NamesShort), EPlatform, PlatformShort, PlatformParts,
            r0, Join(ids, names), x, r2);
  }

  method ReadTensor(r: BinaryReader) returns (x: Option<Tensor>)
    requires r.Ready()
    modifies r
    ensures x.Some? ==> r.Ready()
    ensures ReadBack(ETensor, TensorShort, old(r.Rest()), x, r.Rest())
  {
    var dtype :- r.Str();
    var layout :- r.Str();
    var shape :- r.Str();
    x := Some(Tensor(dtype, layout, shape));
  }

  method ReadDependency(r: BinaryReader) returns (x: Option<Dependency>)
    requires r.Ready()
    modifies r
    ensures x.Some? ==> r.Ready()
    ensures ReadBack(EDependency, DependencyShort, old(r.Rest()), x, r.Rest())
  {
    var id :- r.U64();
    var generation :- r.U64();
    var kind :- r.Str();
    var revision :- r.Str();
    x := Some(Dependency(id, generation, kind, revision));
  }

  lemma DependenciesUnambiguous()
    ensures Unambiguous(EDependency, DependencyShort)
  {
  }

  lemma DependenciesVecUnambiguous()
    ensures Unambiguous(EDependencies, DependenciesFit)
  {
    forall x, y, t, u | DependenciesFit(x) && DependenciesFit(y) && EDependencies(x, t) == EDependencies(y, u)
      ensures x == y && t == u
    {
      DependenciesUnambiguous();
      VecUnambiguous(EDependency, DependencyShort, x, y, t, u);
    }
  }

  method ReadDependencies(r: BinaryReader) returns (xs: Option<seq<Dependency>>)
    requires r.Ready()
    modifies r
    ensures xs.Some? ==> r.Ready()
    ensures ReadBack(EDependencies, DependenciesFit, old(r.Rest()), xs, r.Rest())
  {
    ghost var first := r.Rest();
    var n := r.U32();
    if n.None? || n.value > MAX_VECTOR {
      NoVecWhen(EDependency, DependencyShort, first, 0, []);
      NoDependencies(first);
      return None;
    }
    ghost var start := r.Rest();
    xs := EachDependency(r, n.value);
    VecRead(EDependency, DependencyShort, first, n.value, start, xs, r.Rest());
    if xs.None? { NoDependencies(first); }
  }

  lemma NoDependencies(rest: Bytes)
    requires NoVec(EDependency, DependencyShort, rest)
    ensures Unreadable(EDependencies, DependenciesFit, rest)
  {
    forall xs, t | DependenciesFit(xs) ensures rest != EDependencies(xs, t) { assert VecFits(DependencyShort, xs); }
  }

  method EachDependency(r: BinaryReader, n: nat) returns (xs: Option<seq<Dependency>>)
    requires r.Ready()
    modifies r
    ensures xs.Some? ==> r.Ready()
    ensures RunBack(EDependency, DependencyShort, n, old(r.Rest()), xs, r.Rest())
  {
    ghost var start := r.Rest();
    var read: seq<Dependency> := [];
    for i := 0 to n
      invariant r.Ready() && |read| == i && RunRead(EDependency, DependencyShort, read, start, r.Rest())
    {
      var x := NextDependency(r, read, start, n);
      if x.None? { return None; }
      read := read + [x.value];
    }
    xs := Some(read);
  }

  method NextDependency(r: BinaryReader, ghost read: seq<Dependency>, ghost start: Bytes, ghost n: nat)
    returns (x: Option<Dependency>)
    requires r.Ready() && |read| < n && RunRead(EDependency, DependencyShort, read, start, r.Rest())
    modifies r
    ensures x.Some? ==> r.Ready() && RunRead(EDependency, DependencyShort, read + [x.value], start, r.Rest())
    ensures x.None? ==> NoRun(EDependency, DependencyShort, n, start)
  {
    ghost var rest := r.Rest();
    x := ReadDependency(r);
    DependenciesUnambiguous();
    RunStep(EDependency, DependencyShort, read, start, rest, x, r.Rest(), n);
  }

  method ReadRequirement(r: BinaryReader) returns (x: Option<Requirement>)
    requires r.Ready()
    modifies r
    ensures x.Some? ==> r.Ready()
    ensures ReadBack(ERequirement, RequirementShort, old(r.Rest()), x, r.Rest())
  {
    var b :- r.U8();
    var dimension :- DimensionOf(b);
    var requiredValue :- r.Str();
    var note :- r.Str();
    x := Some(Requirement(dimension, requiredValue, note));
  }

  lemma RequirementsUnambiguous()
    ensures Unambiguous(ERequirement, RequirementShort)
  {
    forall x, y, t, u | RequirementShort(x) && RequirementShort(y) && ERequirement(x, t) == ERequirement(y, u)
      ensures x == y && t == u
    {
      DimensionDistinct(x.dimension, y.dimension);
    }
  }

  lemma RequirementsVecUnambiguous()
    ensures Unambiguous(ERequirements, RequirementsFit)
  {
    forall x, y, t, u | RequirementsFit(x) && RequirementsFit(y) && ERequirements(x, t) == ERequirements(y, u)
      ensures x == y && t == u
    {
      RequirementsUnambiguous();
      VecUnambiguous(ERequirement, RequirementShort, x, y, t, u);
    }
  }

  method ReadRequirements(r: BinaryReader) returns (xs: Option<seq<Requirement>>)
    requires r.Ready()
    modifies r
    ensures xs.Some? ==> r.Ready()
    ensures ReadBack(ERequirements, RequirementsFit, old(r.Rest()), xs, r.Rest())
  {
    ghost var first := r.Rest();
    var n := r.U32();
    if n.None? || n.value > MAX_VECTOR {
      NoVecWhen(ERequirement, RequirementShort, first, 0, []);
      NoRequirements(first);
      return None;
    }
    ghost var start := r.Rest();
    xs := EachRequirement(r, n.value);
    VecRead(ERequirement, RequirementShort, first, n.value, start, xs, r.Rest());
    if xs.None? { NoRequirements(first); }
  }

  lemma NoRequirements(rest: Bytes)
    requires NoVec(ERequirement, RequirementShort, rest)
    ensures Unreadable(ERequirements, RequirementsFit, rest)
  {
    forall xs, t | RequirementsFit(xs) ensures rest != ERequirements(xs, t) { assert VecFits(RequirementShort, xs); }
  }

  method EachRequirement(r: BinaryReader, n: nat) returns (xs: Option<seq<Requirement>>)
    requires r.Ready()
    modifies r
    ensures xs.Some? ==> r.Ready()
    ensures RunBack(ERequirement, RequirementShort, n, old(r.Rest()), xs, r.Rest())
  {
    ghost var start := r.Rest();
    var read: seq<Requirement> := [];
    for i := 0 to n
      invariant r.Ready() && |read| == i && RunRead(ERequirement, RequirementShort, read, start, r.Rest())
    {
      var x := NextRequirement(r, read, start, n);
      if x.None? { return None; }
      read := read + [x.value];
    }
    xs := Some(read);
  }

  method NextRequirement(r: BinaryReader, ghost read: seq<Requirement>, ghost start: Bytes, ghost n: nat)
    returns (x: Option<Requirement>)
    requires r.Ready() && |read| < n && RunRead(ERequirement, RequirementShort, read, start, r.Rest())
    modifies r
    ensures x.Some? ==> r.Ready() && RunRead(ERequirement, RequirementShort, read + [x.value], start, r.Rest())
    ensures x.None? ==> NoRun(ERequirement, RequirementShort, n, start)
  {
    ghost var rest := r.Rest();
    x := ReadRequirement(r);
    RequirementsUnambiguous();
    RunStep(ERequirement, RequirementShort, read, start, rest, x, r.Rest(), n);
  }

  method ReadReferences(r: BinaryReader) returns (x: Option<References>)
    requires r.Ready()
    modifies r
    ensures x.Some? ==> r.Ready()
    ensures ReadBack(EReferences, ReferencesFit, old(r.Rest()), x, r.Rest())
  {
    ghost var r0 := r.Rest();
    var i := r.Ids();
    ghost var r1 := r.Rest();
    var p: Option<seq<ProvenanceId>> := None;
    if i.Some? { p := r.Ids(); }
    ghost var r2 := r.Rest();
    var lists: Option<(seq<Dependency>, seq<Requirement>)> := None;
    if p.Some? { lists := ReadLists(r); }
    x := if lists.None? then None else Some(References(i.value, p.value, lists.value.0, lists.value.1));
    ReferencesBack(r0, i, r1, p, r2, lists, r.Rest(), x);
  }

  method ReadLists(r: BinaryReader) returns (x: Option<(seq<Dependency>, seq<Requirement>)>)
    requires r.Ready()
    modifies r
    ensures x.Some? ==> r.Ready()
    ensures ReadBack(Then(EDependencies, ERequirements), Both(DependenciesFit, RequirementsFit), old(r.Rest()),
                     x, r.Rest())
  {
    ghost var r0 := r.Rest();
    var d := ReadDependencies(r);
    ghost var r1 := r.Rest();
    var q: Option<seq<Requirement>> := None;
    if d.Some? { q := ReadRequirements(r); }
    DependenciesVecUnambiguous();
    ThenBack(true, EDependencies, DependenciesFit, ERequirements, RequirementsFit, r0, d, r1, q, r.Rest());
    x := Join(d, q);
  }

  lemma ReferencesBack(r0: Bytes, i: Option<seq<StateId>>, r1: Bytes, p: Option<seq<ProvenanceId>>, r2: Bytes,
                       lists: Option<(seq<Dependency>, seq<Requirement>)>, r3: Bytes, x: Option<References>)
    requires ReadBack(EIds, IdsFit, r0, i, r1)
    requires i.Some? ==> ReadBack(EIds, IdsFit, r1, p, r2)
    requires i.Some? && p.Some? ==>
               ReadBack(Then(EDependencies, ERequirements), Both(DependenciesFit, RequirementsFit), r2, lists, r3)
    requires lists.Some? ==> i.Some? && p.Some?
    requires x == if lists.None? then None else Some(References(i.value, p.value, lists.value.0, lists.value.1))
    ensures ReadBack(EReferences, ReferencesFit, r0, x, r3)
  {
    IdsUnambiguous();
    var e2, ok2 := Then(EDependencies, ERequirements), Both(DependenciesFit, RequirementsFit);
    ThenBack(i.Some?, EIds, IdsFit, e2, ok2, r1, p, r2, lists, r3);
    var e3, ok3 := Then(EIds, e2), Both(IdsFit, ok2);
    ThenBack(true, EIds, IdsFit, e3, ok3, r0, i, r1, Join(p, lists), r3);
    Renamed(Then(EIds, e3), Both(IdsFit, ok3), EReferences, ReferencesFit, NestedReferences, r0,
            Join(i, Join(p, lists)), x, r3);
  }

  method ReadPolicy(r: BinaryReader) returns (x: Option<Policy>)
    requires r.Ready()
    modifies r
    ensures x.Some? ==> r.Ready()
    ensures ReadBack(EPolicy, PolicyShort, old(r.Rest()), x, r.Rest())
  {
    var policyId :- r.U64();
    var policyGeneration :- r.U64();
    var policyFingerprint :- r.Str();
    var contentDigest :- r.Str();
    x := Some(Policy(policyId, policyGeneration, policyFingerprint, contentDigest));
  }

  method ReadFencing(r: BinaryReader) returns (x: Option<Fencing>)
    requires r.Ready()
    modifies r
    ensures x.Some? ==> r.Ready()
    ensures ReadBack(EFencing, Any, old(r.Rest()), x, r.Rest())
  {
    var coordinatorEpoch :- r.U64();
    var workerId :- r.U64();
    var workerBoot :- r.U64();
    x := Some(Fencing(coordinatorEpoch, workerId, workerBoot));
  }

  method ReadClassification(r: BinaryReader) returns (x: Option<Classification>)
    requires r.Ready()
    modifies r
    ensures x.Some? ==> r.Ready()
    ensures ReadBack(EClassification, ClassificationShort, old(r.Rest()), x, r.Rest())
  {
    var b :- r.U8();
    var evidence :- EvidenceClassOf(b);
    b :- r.U8();
    var validity :- ValidityOf(b);
    b :- r.U8();
    var reason :- ReasonOf(b);
    b :- r.U8();
    var eligibility :- EligibilityOf(b);
    var note :- r.Str();
    x := Some(Classification(evidence, validity, reason, eligibility, note));
  }

  lemma IdentityUnambiguous()
    ensures Unambiguous(EIdentity, Any)
  {
    forall x, y, t, u | EIdentity(x, t) == EIdentity(y, u) ensures x == y && t == u {
      SubjectKindDistinct(x.subjectKind, y.subjectKind);
    }
  }

  lemma ProductionUnambiguous()
    ensures Unambiguous(EProduction, Any)
  {
  }

  lemma ModelUnambiguous()
    ensures Unambiguous(EModel, ModelShort)
  {
  }

  lemma CompositionUnambiguous()
    ensures Unambiguous(EComposition, CompositionShort)
  {
  }

  lemma PlatformUnambiguous()
    ensures Unambiguous(EPlatform, PlatformShort)
  {
  }

  lemma TensorUnambiguous()
    ensures Unambiguous(ETensor, TensorShort)
  {
  }

  lemma ReferencesUnambiguous()
    ensures Unambiguous(EReferences, ReferencesFit)
  {
    IdsUnambiguous();
    DependenciesVecUnambiguous();
    RequirementsVecUnambiguous();
    ThenUnambiguous(EDependencies, DependenciesFit, ERequirements, RequirementsFit);
    var e2, ok2 := Then(EDependencies, ERequirements), Both(DependenciesFit, RequirementsFit);
    ThenUnambiguous(EIds, IdsFit, e2, ok2);
    var e3, ok3 := Then(EIds, e2), Both(IdsFit, ok2);
    ThenUnambiguous(EIds, IdsFit, e3, ok3);
    RenamedUnambiguous(Then(EIds, e3), Both(IdsFit, ok3), EReferences, ReferencesFit, NestedReferences);
  }

  function NestedReferences(x: References): (seq<u64>, (seq<u64>, (seq<Dependency>, seq<Requirement>))) {
    (x.inputStates, (x.parentProvenance, (x.dependencies, x.requirements)))
  }

  lemma PolicyUnambiguous()
    ensures Unambiguous(EPolicy, PolicyShort)
  {
  }

  lemma FencingUnambiguous()
    ensures Unambiguous(EFencing, Any)
  {
  }

  lemma ClassificationUnambiguous()
    ensures Unambiguous(EClassification, ClassificationShort)
  {
    forall x, y, t, u |
      ClassificationShort(x) && ClassificationShort(y) && EClassification(x, t) == EClassification(y, u)
      ensures x == y && t == u
    {
      EvidenceClassDistinct(x.evidence, y.evidence);
      ValidityDistinct(x.validity, y.validity);
      ReasonDistinct(x.invalidationReason, y.invalidationReason);
      EligibilityDistinct(x.reuseEligibility, y.reuseEligibility);
    }
  }

  type Origin = (Identity, (Production, Model))

  /** What was made, by whom, with which model. */
  function EOrigin(): (Origin, Bytes) -> Bytes {
    Then(EIdentity, Then(EProduction, EModel))
  }

  ghost function OriginFits(): Origin -> bool {
    Both(Any, Both(Any, ModelShort))
  }

  method ReadOrigin(r: BinaryReader) returns (x: Option<Origin>)
    requires r.Ready()
    modifies r
    ensures x.Some? ==> r.Ready()
    ensures ReadBack(EOrigin(), OriginFits(), old(r.Rest()), x, r.Rest())
  {
    ghost var r0 := r.Rest();
    var a := ReadIdentity(r);
    ghost var r1 := r.Rest();
    var b: Option<Production> := None;
    if a.Some? { b := ReadProduction(r); }
    ghost var r2 := r.Rest();
    var c: Option<Model> := None;
    if b.Some? { c := ReadModel(r); }
    IdentityUnambiguous();
    ProductionUnambiguous();
    ThenBack(a.Some?, EProduction, Any, EModel, ModelShort,
             r1, b, r2, c, r.Rest());
    ThenBack(true, EIdentity, Any, Then(EProduction, EModel), Both(Any, ModelShort),
             r0, a, r1, Join(b, c), r.Rest());
    x := Join(a, Join(b, c));
  }

  lemma OriginUnambiguous()
    ensures Unambiguous(EOrigin(), OriginFits())
  {
    IdentityUnambiguous();
    ProductionUnambiguous();
    ModelUnambiguous();
    ThenUnambiguous(EProduction, Any, EModel, ModelShort);
    ThenUnambiguous(EIdentity, Any, Then(EProduction, EModel), Both(Any, ModelShort));
  }

  type Setting = (Composition, (Platform, Tensor))

  /** The composition, platform and tensor format. */
  function ESetting(): (Setting, Bytes) -> Bytes {
    Then(EComposition, Then(EPlatform, ETensor))
  }

  ghost function SettingFits(): Setting -> bool {
    Both(CompositionShort, Both(PlatformShort, TensorShort))
  }

  method ReadSetting(r: BinaryReader) returns (x: Option<Setting>)
    requires r.Ready()
    modifies r
    ensures x.Some? ==> r.Ready()
    ensures ReadBack(ESetting(), SettingFits(), old(r.Rest()), x, r.Rest())
  {
    ghost var r0 := r.Rest();
    var a := ReadComposition(r);
    ghost var r1 := r.Rest();
    var b: Option<Platform> := None;
    if a.Some? { b := ReadPlatform(r); }
    ghost var r2 := r.Rest();
    var c: Option<Tensor> := None;
    if b.Some? { c := ReadTensor(r); }
    CompositionUnambiguous();
    PlatformUnambiguous();
    ThenBack(a.Some?, EPlatform, PlatformShort, ETensor, TensorShort,
             r1, b, r2, c, r.Rest());
    ThenBack(true, EComposition, CompositionShort, Then(EPlatform, ETensor), Both(PlatformShort, TensorShort),
             r0, a, r1, Join(b, c), r.Rest());
    x := Join(a, Join(b, c));
  }

  lemma SettingUnambiguous()
    ensures Unambiguous(ESetting(), SettingFits())
  {
    CompositionUnambiguous();
    PlatformUnambiguous();
    TensorUnambiguous();
    ThenUnambiguous(EPlatform, PlatformShort, ETensor, TensorShort);
    ThenUnambiguous(EComposition, CompositionShort, Then(EPlatform, ETensor), Both(PlatformShort, TensorShort));
  }

  type Terms = (References, (Policy, (Fencing, Classification)))

  /** What it rests on, and what was claimed about it. */
  function ETerms(): (Terms, Bytes) -> Bytes {
    Then(EReferences, Then(EPolicy, Then(EFencing, EClassification)))
  }

  ghost function TermsFits(): Terms -> bool {
    Both(ReferencesFit, Both(PolicyShort, Both(Any, ClassificationShort)))
  }

  method ReadTerms(r: BinaryReader) returns (x: Option<Terms>)
    requires r.Ready()
    modifies r
    ensures x.Some? ==> r.Ready()
    ensures ReadBack(ETerms(), TermsFits(), old(r.Rest()), x, r.Rest())
  {
    ghost var r0 := r.Rest();
    var a := ReadReferences(r);
    ghost var r1 := r.Rest();
    var b: Option<Policy> := None;
    if a.Some? { b := ReadPolicy(r); }
    ghost var r2 := r.Rest();
    var c: Option<Fencing> := None;
    if b.Some? { c := ReadFencing(r); }
    ghost var r3 := r.Rest();
    var d: Option<Classification> := None;
    if c.Some? { d := ReadClassification(r); }
    ReferencesUnambiguous();
    PolicyUnambiguous();
    FencingUnambiguous();
    ThenBack(b.Some?, EFencing, Any, EClassification, ClassificationShort,
             r2, c, r3, d, r.Rest());
    ThenBack(a.Some?, EPolicy, PolicyShort, Then(EFencing, EClassification), Both(Any, ClassificationShort),
             r1, b, r2, Join(c, d), r.Rest());
    ThenBack(true, EReferences, ReferencesFit, Then(EPolicy, Then(EFencing, EClassification)),
             Both(PolicyShort, Both(Any, ClassificationShort)),
             r0, a, r1, Join(b, Join(c, d)), r.Rest());
    x := Join(a, Join(b, Join(c, d)));
  }

  lemma TermsUnambiguous()
    ensures Unambiguous(ETerms(), TermsFits())
  {
    ReferencesUnambiguous();
    PolicyUnambiguous();
    FencingUnambiguous();
    ClassificationUnambiguous();
    ThenUnambiguous(EFencing, Any, EClassification, ClassificationShort);
    ThenUnambiguous(EPolicy, PolicyShort, Then(EFencing, EClassification), Both(Any, ClassificationShort));
    ThenUnambiguous(EReferences, ReferencesFit, Then(EPolicy, Then(EFencing, EClassification)),
                    Both(PolicyShort, Both(Any, ClassificationShort)));
  }

  method ReadRecord(r: BinaryReader) returns (x: Option<RecordData>)
    requires r.Ready()
    modifies r
    ensures x.Some? ==> r.Ready()
    ensures ReadBack(ERecord, Readable, old(r.Rest()), x, r.Rest())
  {
    ghost var r0 := r.Rest();
    var d := ReadGroups(r);
    x := Validated(d);
    IfValid(r0, d, r.Rest(), x);
  }

  method Validated(d: Option<RecordData>) returns (x: Option<RecordData>)
    ensures x == if d.Some? && WellFormed(d.value) then d else None
  {
    if d.None? { return None; }
    var error := ValidateRecord(d.value);
    x := if error.None? then d else None;
  }

  method ReadGroups(r: BinaryReader) returns (d: Option<RecordData>)
    requires r.Ready()
    modifies r
    ensures d.Some? ==> r.Ready()
    ensures ReadBack(ERecord, RecordFits, old(r.Rest()), d, r.Rest())
  {
    ghost var r0 := r.Rest();
    var a := ReadOrigin(r);
    ghost var r1 := r.Rest();
    var b: Option<Setting> := None;
    if a.Some? { b := ReadSetting(r); }
    ghost var r2 := r.Rest();
    var c: Option<Terms> := None;
    if b.Some? { c := ReadTerms(r); }
    d := if c.None? then None else Some(Flat(a.value, b.value, c.value));
    GroupsBack(r0, a, r1, b, r2, c, r.Rest(), d);
  }

  function Flat(a: Origin, b: Setting, c: Terms): RecordData {
    RecordData(a.0, a.1.0, a.1.1, b.0, b.1.0, b.1.1, c.0, c.1.0, c.1.1.0, c.1.1.1)
  }

  function Nested(d: RecordData): (Origin, (Setting, Terms)) {
    ((d.identity, (d.production, d.model)),
     ((d.composition, (d.platform, d.tensor)), (d.references, (d.policy, (d.fencing, d.classification)))))
  }

  lemma FitsNested(d: RecordData)
    ensures RecordFits(d) <==> Both(OriginFits(), Both(SettingFits(), TermsFits()))(Nested(d))
  {
    var n := Nested(d);
    assert Any(d.identity) && Any(d.production) && Any(d.fencing);
    assert OriginFits()(n.0) <==> ModelShort(d.model);
    assert SettingFits()(n.1.0) <==>
           CompositionShort(d.composition) && PlatformShort(d.platform) && TensorShort(d.tensor);
    assert TermsFits()(n.1.1) <==>
           ReferencesFit(d.references) && PolicyShort(d.policy) && ClassificationShort(d.classification);
  }

  lemma GroupsBack(r0: Bytes, a: Option<Origin>, r1: Bytes, b: Option<Setting>, r2: Bytes, c: Option<Terms>, r3: Bytes,
                   d: Option<RecordData>)
    requires ReadBack(EOrigin(), OriginFits(), r0, a, r1)
    requires a.Some? ==> ReadBack(ESetting(), SettingFits(), r1, b, r2)
    requires a.Some? && b.Some? ==> ReadBack(ETerms(), TermsFits(), r2, c, r3)
    requires c.Some? ==> a.Some? && b.Some?
    requires d == if c.None? then None else Some(Flat(a.value, b.value, c.value))
    ensures ReadBack(ERecord, RecordFits, r0, d, r3)
  {
    OriginUnambiguous();
    SettingUnambiguous();
    ThenBack(a.Some?, ESetting(), SettingFits(), ETerms(), TermsFits(), r1, b, r2, c, r3);
    var e, ok := Then(ESetting(), ETerms()), Both(SettingFits(), TermsFits());
    ThenBack(true, EOrigin(), OriginFits(), e, ok, r0, a, r1, Join(b, c), r3);
    forall v ensures RecordFits(v) <==> Both(OriginFits(), ok)(Nested(v)) { FitsNested(v); }
    Renamed(Then(EOrigin(), e), Both(OriginFits(), ok), ERecord, RecordFits, Nested, r0, Join(a, Join(b, c)), d, r3);
  }

  /** Bytes of a record determine the record and what follows it. */
  lemma FittingUnambiguous()
    ensures Unambiguous(ERecord, RecordFits)
  {
    OriginUnambiguous();
    SettingUnambiguous();
    TermsUnambiguous();
    ThenUnambiguous(ESetting(), SettingFits(), ETerms(), TermsFits());
    var e, ok := Then(ESetting(), ETerms()), Both(SettingFits(), TermsFits());
    ThenUnambiguous(EOrigin(), OriginFits(), e, ok);
    forall v ensures RecordFits(v) <==> Both(OriginFits(), ok)(Nested(v)) { FitsNested(v); }
    RenamedUnambiguous(Then(EOrigin(), e), Both(OriginFits(), ok), ERecord, RecordFits, Nested);
  }

  lemma ReadableMeans()
    ensures forall d :: Readable(d) <==> RecordFits(d) && WellFormed(d)
  {
  }

  lemma IfValid(r0: Bytes, d: Option<RecordData>, rest: Bytes, x: Option<RecordData>)
    requires ReadBack(ERecord, RecordFits, r0, d, rest)
    requires x == if d.Some? && WellFormed(d.value) then d else None
    ensures ReadBack(ERecord, Readable, r0, x, rest)
  {
    FittingUnambiguous();
    ReadableMeans();
    Filtered(ERecord, RecordFits, WellFormed, Readable, r0, d, x, rest);
  }
}
