/** The one-byte wire form of the enumerations (enums.hpp): their position in the name
    tables.  Bytes beyond a table are not values of the enumeration. */
module EnumBytes {
  import opened Ids
  import opened Records

  const SUBJECT_KIND_TABLE: seq<SubjectKind> := [
    SubjectKind.KVState, SubjectKind.TensorState, SubjectKind.ReusablePrefix, SubjectKind.ModelArtifact,
    SubjectKind.Adapter, SubjectKind.CompiledKernel, SubjectKind.ExecutionGraph, SubjectKind.Checkpoint,
    SubjectKind.Buffer, SubjectKind.ModelResidency, SubjectKind.DerivedExecutionPlan,
    SubjectKind.CompiledArtifact, SubjectKind.RuntimeCache, SubjectKind.ReusableComputation,
    SubjectKind.Generic, SubjectKind.UnknownKind]

  function SubjectKindByte(v: SubjectKind): u8 {
    match v
    case KVState => 0 case TensorState => 1 case ReusablePrefix => 2 case ModelArtifact => 3 case Adapter => 4
    case CompiledKernel => 5 case ExecutionGraph => 6 case Checkpoint => 7 case Buffer => 8
    case ModelResidency => 9 case DerivedExecutionPlan => 10 case CompiledArtifact => 11
    case RuntimeCache => 12 case ReusableComputation => 13 case Generic => 14 case UnknownKind => 15
  }

  lemma SubjectKindListed(v: SubjectKind)
    ensures SubjectKindByte(v) < |SUBJECT_KIND_TABLE| && SUBJECT_KIND_TABLE[SubjectKindByte(v)] == v
  {
  }

  lemma SubjectKindDistinct(v: SubjectKind, w: SubjectKind)
    ensures SubjectKindByte(v) == SubjectKindByte(w) ==> v == w
  {
    SubjectKindListed(v);
    SubjectKindListed(w);
  }

  lemma SubjectKindBytes(b: u8)
    ensures b < |SUBJECT_KIND_TABLE| ==> SubjectKindByte(SUBJECT_KIND_TABLE[b]) == b
    ensures b >= |SUBJECT_KIND_TABLE| ==> forall w :: SubjectKindByte(w) != b
  {
    forall w ensures SubjectKindByte(w) < |SUBJECT_KIND_TABLE| { SubjectKindListed(w); }
  }

  function SubjectKindOf(b: u8): (v: Option<SubjectKind>)
    ensures v.Some? ==> SubjectKindByte(v.value) == b
    ensures v.None? ==> forall w :: SubjectKindByte(w) != b
  {
    SubjectKindBytes(b);
    if b < |SUBJECT_KIND_TABLE| then Some(SUBJECT_KIND_TABLE[b]) else None
  }

  const EVIDENCE_CLASS_TABLE: seq<EvidenceClass> := [
    EvidenceClass.Measured, EvidenceClass.Reported, EvidenceClass.Derived, EvidenceClass.Reconstructed,
    EvidenceClass.Estimated, EvidenceClass.UnknownEvidence]

  function EvidenceClassByte(v: EvidenceClass): u8 {
    match v
    case Measured => 0 case Reported => 1 case Derived => 2 case Reconstructed => 3 case Estimated => 4
    case UnknownEvidence => 5
  }

  lemma EvidenceClassListed(v: EvidenceClass)
    ensures EvidenceClassByte(v) < |EVIDENCE_CLASS_TABLE| && EVIDENCE_CLASS_TABLE[EvidenceClassByte(v)] == v
  {
  }

  lemma EvidenceClassDistinct(v: EvidenceClass, w: EvidenceClass)
    ensures EvidenceClassByte(v) == EvidenceClassByte(w) ==> v == w
  {
    EvidenceClassListed(v);
    EvidenceClassListed(w);
  }

  lemma EvidenceClassBytes(b: u8)
    ensures b < |EVIDENCE_CLASS_TABLE| ==> EvidenceClassByte(EVIDENCE_CLASS_TABLE[b]) == b
    ensures b >= |EVIDENCE_CLASS_TABLE| ==> forall w :: EvidenceClassByte(w) != b
  {
    forall w ensures EvidenceClassByte(w) < |EVIDENCE_CLASS_TABLE| { EvidenceClassListed(w); }
  }

  function EvidenceClassOf(b: u8): (v: Option<EvidenceClass>)
    ensures v.Some? ==> EvidenceClassByte(v.value) == b
    ensures v.None? ==> forall w :: EvidenceClassByte(w) != b
  {
    EvidenceClassBytes(b);
    if b < |EVIDENCE_CLASS_TABLE| then Some(EVIDENCE_CLASS_TABLE[b]) else None
  }

  const VALIDITY_TABLE: seq<Validity> := [
    Validity.Valid, Validity.Stale, Validity.Invalidated, Validity.UnknownValidity]

  function ValidityByte(v: Validity): u8 {
    match v
    case Valid => 0 case Stale => 1 case Invalidated => 2 case UnknownValidity => 3
  }

  lemma ValidityListed(v: Validity)
    ensures ValidityByte(v) < |VALIDITY_TABLE| && VALIDITY_TABLE[ValidityByte(v)] == v
  {
  }

  lemma ValidityDistinct(v: Validity, w: Validity)
    ensures ValidityByte(v) == ValidityByte(w) ==> v == w
  {
    ValidityListed(v);
    ValidityListed(w);
  }

  lemma ValidityBytes(b: u8)
    ensures b < |VALIDITY_TABLE| ==> ValidityByte(VALIDITY_TABLE[b]) == b
    ensures b >= |VALIDITY_TABLE| ==> forall w :: ValidityByte(w) != b
  {
    forall w ensures ValidityByte(w) < |VALIDITY_TABLE| { ValidityListed(w); }
  }

  function ValidityOf(b: u8): (v: Option<Validity>)
    ensures v.Some? ==> ValidityByte(v.value) == b
    ensures v.None? ==> forall w :: ValidityByte(w) != b
  {
    ValidityBytes(b);
    if b < |VALIDITY_TABLE| then Some(VALIDITY_TABLE[b]) else None
  }

  const ELIGIBILITY_TABLE: seq<Eligibility> := [
    Eligibility.Eligible, Eligibility.Ineligible, Eligibility.StaleState, Eligibility.InvalidatedState,
    Eligibility.Incompatible, Eligibility.IncompleteProvenance, Eligibility.UnknownEligibility]

  function EligibilityByte(v: Eligibility): u8 {
    match v
    case Eligible => 0 case Ineligible => 1 case StaleState => 2 case InvalidatedState => 3
    case Incompatible => 4 case IncompleteProvenance => 5 case UnknownEligibility => 6
  }

  lemma EligibilityListed(v: Eligibility)
    ensures EligibilityByte(v) < |ELIGIBILITY_TABLE| && ELIGIBILITY_TABLE[EligibilityByte(v)] == v
  {
  }

  lemma EligibilityDistinct(v: Eligibility, w: Eligibility)
    ensures EligibilityByte(v) == EligibilityByte(w) ==> v == w
  {
    EligibilityListed(v);
    EligibilityListed(w);
  }

  lemma EligibilityBytes(b: u8)
    ensures b < |ELIGIBILITY_TABLE| ==> EligibilityByte(ELIGIBILITY_TABLE[b]) == b
    ensures b >= |ELIGIBILITY_TABLE| ==> forall w :: EligibilityByte(w) != b
  {
    forall w ensures EligibilityByte(w) < |ELIGIBILITY_TABLE| { EligibilityListed(w); }
  }

  function EligibilityOf(b: u8): (v: Option<Eligibility>)
    ensures v.Some? ==> EligibilityByte(v.value) == b
    ensures v.None? ==> forall w :: EligibilityByte(w) != b
  {
    EligibilityBytes(b);
    if b < |ELIGIBILITY_TABLE| then Some(ELIGIBILITY_TABLE[b]) else None
  }

  const REASON_TABLE: seq<Reason> := [
    Reason.ModelRevisionChange, Reason.AdapterRevisionChange, Reason.CompositionChange,
    Reason.ArtifactInvalidation, Reason.DependencyInvalidation, Reason.RuntimeBackendIncompatibility,
    Reason.ArchitectureIncompatibility, Reason.PolicyGenerationChange, Reason.OperatorInvalidation,
    Reason.CorruptState, Reason.ProducerGenerationRollover, Reason.UnknownReason]

  function ReasonByte(v: Reason): u8 {
    match v
    case ModelRevisionChange => 0 case AdapterRevisionChange => 1 case CompositionChange => 2
    case ArtifactInvalidation => 3 case DependencyInvalidation => 4 case RuntimeBackendIncompatibility => 5
    case ArchitectureIncompatibility => 6 case PolicyGenerationChange => 7 case OperatorInvalidation => 8
    case CorruptState => 9 case ProducerGenerationRollover => 10 case UnknownReason => 11
  }

  lemma ReasonListed(v: Reason)
    ensures ReasonByte(v) < |REASON_TABLE| && REASON_TABLE[ReasonByte(v)] == v
  {
  }

  lemma ReasonDistinct(v: Reason, w: Reason)
    ensures ReasonByte(v) == ReasonByte(w) ==> v == w
  {
    ReasonListed(v);
    ReasonListed(w);
  }

  lemma ReasonBytes(b: u8)
    ensures b < |REASON_TABLE| ==> ReasonByte(REASON_TABLE[b]) == b
    ensures b >= |REASON_TABLE| ==> forall w :: ReasonByte(w) != b
  {
    forall w ensures ReasonByte(w) < |REASON_TABLE| { ReasonListed(w); }
  }

  function ReasonOf(b: u8): (v: Option<Reason>)
    ensures v.Some? ==> ReasonByte(v.value) == b
    ensures v.None? ==> forall w :: ReasonByte(w) != b
  {
    ReasonBytes(b);
    if b < |REASON_TABLE| then Some(REASON_TABLE[b]) else None
  }

  const DIMENSION_TABLE: seq<Dimension> := [
    Dimension.ModelIdentity, Dimension.ModelRevision, Dimension.Tokenizer, Dimension.AdapterIdentity,
    Dimension.AdapterRevision, Dimension.AdapterComposition, Dimension.Backend, Dimension.Runtime,
    Dimension.Compiler, Dimension.Toolchain, Dimension.Architecture, Dimension.ComputeCapability,
    Dimension.ABI, Dimension.Dtype, Dimension.Layout, Dimension.TensorGeometry, Dimension.ShapeSpecialization,
    Dimension.KernelSpecialization, Dimension.GraphTopology, Dimension.ModelGen, Dimension.AdapterGen,
    Dimension.CompositionGen, Dimension.RuntimeGen, Dimension.PolicyGen, Dimension.ArtifactGen,
    Dimension.ResidencyGen, Dimension.DependencyGen, Dimension.ProvenanceIntegrity, Dimension.UnknownDimension]

  function DimensionByte(v: Dimension): u8 {
    match v
    case ModelIdentity => 0 case ModelRevision => 1 case Tokenizer => 2 case AdapterIdentity => 3
    case AdapterRevision => 4 case AdapterComposition => 5 case Backend => 6 case Runtime => 7
    case Compiler => 8 case Toolchain => 9 case Architecture => 10 case ComputeCapability => 11 case ABI => 12
    case Dtype => 13 case Layout => 14 case TensorGeometry => 15 case ShapeSpecialization => 16
    case KernelSpecialization => 17 case GraphTopology => 18 case ModelGen => 19 case AdapterGen => 20
    case CompositionGen => 21 case RuntimeGen => 22 case PolicyGen => 23 case ArtifactGen => 24
    case ResidencyGen => 25 case DependencyGen => 26 case ProvenanceIntegrity => 27 case UnknownDimension => 28
  }

  lemma DimensionListed(v: Dimension)
    ensures DimensionByte(v) < |DIMENSION_TABLE| && DIMENSION_TABLE[DimensionByte(v)] == v
  {
  }

  lemma DimensionDistinct(v: Dimension, w: Dimension)
    ensures DimensionByte(v) == DimensionByte(w) ==> v == w
  {
    DimensionListed(v);
    DimensionListed(w);
  }

  lemma DimensionBytes(b: u8)
    ensures b < |DIMENSION_TABLE| ==> DimensionByte(DIMENSION_TABLE[b]) == b
    ensures b >= |DIMENSION_TABLE| ==> forall w :: DimensionByte(w) != b
  {
    forall w ensures DimensionByte(w) < |DIMENSION_TABLE| { DimensionListed(w); }
  }

  function DimensionOf(b: u8): (v: Option<Dimension>)
    ensures v.Some? ==> DimensionByte(v.value) == b
    ensures v.None? ==> forall w :: DimensionByte(w) != b
  {
    DimensionBytes(b);
    if b < |DIMENSION_TABLE| then Some(DIMENSION_TABLE[b]) else None
  }
}
