/** Field-level reuse evaluation (compat.hpp). */
module Compatibility {
  import opened Ids
  import opened Records

  datatype ReuseRequest = ReuseRequest(
    modelId: u64, modelGeneration: u64, modelRevision: Bytes, tokenizer: Bytes,
    adapterId: u64, adapterGeneration: u64, adapterRevision: Bytes,
    compositionId: u64, compositionGeneration: u64, compositionFingerprint: Bytes,
    runtimeId: u64, runtimeGeneration: u64, backendId: u64, toolchainId: u64,
    architecture: Bytes, computeCapability: Bytes, abi: Bytes,
    dtype: Bytes, layout: Bytes, shape: Bytes,
    policyGeneration: u64, artifactGeneration: u64, dependencyGeneration: u64)

  datatype ReuseDecision = ReuseDecision(eligibility: Eligibility, failedDimensions: seq<Dimension>)

  /** One dimension, with the request and record sides brought to a common form: a scalar
      is its value, a string is its bytes, and both have one unset value. */
  datatype Side = Scalar(value: u64) | Text(bytes: Bytes) {
    predicate IsSet() {
      this != Scalar(0) && this != Text([])
    }
  }

  datatype Check = Check(dimension: Dimension, requested: Side, recorded: Side) {
    predicate Absent() {
      requested.IsSet() && !recorded.IsSet()
    }
    predicate Mismatch() {
      requested.IsSet() && recorded.IsSet() && requested != recorded
    }
  }

  /** The 21 dimensions compared, in the order they are reported.  Composition identity,
      dependency generation and the record's own requirements are not among them. */
  function Checks(r: RecordData, q: ReuseRequest): seq<Check> {
    [ Check(ModelIdentity, Scalar(q.modelId), Scalar(r.model.modelId)),
      Check(ModelRevision, Text(q.modelRevision), Text(r.model.modelRevision)),
      Check(Tokenizer, Text(q.tokenizer), Text(r.model.tokenizer)),
      Check(AdapterIdentity, Scalar(q.adapterId), Scalar(r.composition.adapterId)),
      Check(AdapterRevision, Text(q.adapterRevision), Text(r.composition.adapterRevision)),
      Check(AdapterComposition, Text(q.compositionFingerprint), Text(r.composition.compositionFingerprint)),
      Check(Backend, Scalar(q.backendId), Scalar(r.platform.backendId)),
      Check(Runtime, Scalar(q.runtimeId), Scalar(r.platform.runtimeId)),
      Check(Toolchain, Scalar(q.toolchainId), Scalar(r.platform.toolchainId)),
      Check(Architecture, Text(q.architecture), Text(r.platform.architecture)),
      Check(ComputeCapability, Text(q.computeCapability), Text(r.platform.computeCapability)),
      Check(ABI, Text(q.abi), Text(r.platform.abi)),
      Check(Dtype, Text(q.dtype), Text(r.tensor.dtype)),
      Check(Layout, Text(q.layout), Text(r.tensor.layout)),
      Check(TensorGeometry, Text(q.shape), Text(r.tensor.shape)),
      Check(ModelGen, Scalar(q.modelGeneration), Scalar(r.model.modelGeneration)),
      Check(AdapterGen, Scalar(q.adapterGeneration), Scalar(r.composition.adapterGeneration)),
      Check(CompositionGen, Scalar(q.compositionGeneration), Scalar(r.composition.compositionGeneration)),
      Check(RuntimeGen, Scalar(q.runtimeGeneration), Scalar(r.platform.runtimeGeneration)),
      Check(PolicyGen, Scalar(q.policyGeneration), Scalar(r.policy.policyGeneration)),
      Check(ArtifactGen, Scalar(q.artifactGeneration), Scalar(r.platform.artifactGeneration)) ]
  }

  function Mismatches(cs: seq<Check>): seq<Dimension> {
    if cs == [] then []
    else Mismatches(cs[..|cs| - 1]) + if cs[|cs| - 1].Mismatch() then [cs[|cs| - 1].dimension] else []
  }

  function Absences(cs: seq<Check>): seq<Dimension> {
    if cs == [] then []
    else Absences(cs[..|cs| - 1]) + if cs[|cs| - 1].Absent() then [cs[|cs| - 1].dimension] else []
  }

  /** The outcome precedence: the record's own validity, then mismatch, then absence. */
  function Decide(v: Validity, mismatched: seq<Dimension>, absent: seq<Dimension>): ReuseDecision {
    if v == Invalidated then ReuseDecision(InvalidatedState, [ProvenanceIntegrity])
    else if v == Stale then ReuseDecision(StaleState, [])
    else if mismatched != [] then ReuseDecision(Incompatible, mismatched)
    else if absent != [] then ReuseDecision(IncompleteProvenance, absent)
    else if v == UnknownValidity then ReuseDecision(UnknownEligibility, [])
    else ReuseDecision(Eligible, [])
  }

  function Reuse(r: RecordData, q: ReuseRequest): ReuseDecision {
    Decide(r.classification.validity, Mismatches(Checks(r, q)), Absences(Checks(r, q)))
  }

  /** evaluate_reuse: the checks accumulate two lists of dimensions and two flags. */
  method EvaluateReuse(r: RecordData, q: ReuseRequest) returns (d: ReuseDecision)
    ensures d == Reuse(r, q)
    ensures Deserves(r.classification.validity, r, q, d.eligibility)
    ensures forall x :: x in d.failedDimensions <==> Blames(d.eligibility, r, q, x)
  {
    d := Evaluate(r, q);
    ReuseIff(r, q);
  }

  method Evaluate(r: RecordData, q: ReuseRequest) returns (d: ReuseDecision)
    ensures d == Reuse(r, q)
  {
    var checks := Checks(r, q);
    var anyMismatch, anyIncomplete := false, false;
    var mismatchDims: seq<Dimension>, incompleteDims: seq<Dimension> := [], [];
    for i := 0 to |checks|
      invariant mismatchDims == Mismatches(checks[..i]) && incompleteDims == Absences(checks[..i])
      invariant anyMismatch == (mismatchDims != []) && anyIncomplete == (incompleteDims != [])
    {
      var c := checks[i];
      assert checks[..i + 1][..i] == checks[..i];
      if c.requested.IsSet() {
        if !c.recorded.IsSet() {
          anyIncomplete := true;
          incompleteDims := incompleteDims + [c.dimension];
        } else if c.requested != c.recorded {
          anyMismatch := true;
          mismatchDims := mismatchDims + [c.dimension];
        }
      }
    }
    assert checks[..|checks|] == checks;
    var v := r.classification.validity;
    if v == Invalidated { return ReuseDecision(InvalidatedState, [ProvenanceIntegrity]); }
    if v == Stale { return ReuseDecision(StaleState, []); }
    if anyMismatch { return ReuseDecision(Incompatible, mismatchDims); }
    if anyIncomplete { return ReuseDecision(IncompleteProvenance, incompleteDims); }
    if v == UnknownValidity { return ReuseDecision(UnknownEligibility, []); }
    d := ReuseDecision(Eligible, []);
  }

  // ------------------------------------------------------- what the decision means

  predicate FitsScalar(q: u64, r: u64) {
    q == 0 || q == r
  }

  predicate FitsText(q: Bytes, r: Bytes) {
    q == [] || q == r
  }

  /** Every compared field the request sets has the recorded value. */
  predicate Fits(r: RecordData, q: ReuseRequest) {
    && FitsScalar(q.modelId, r.model.modelId) && FitsScalar(q.modelGeneration, r.model.modelGeneration)
    && FitsText(q.modelRevision, r.model.modelRevision) && FitsText(q.tokenizer, r.model.tokenizer)
    && FitsScalar(q.adapterId, r.composition.adapterId)
    && FitsScalar(q.adapterGeneration, r.composition.adapterGeneration)
    && FitsText(q.adapterRevision, r.composition.adapterRevision)
    && FitsScalar(q.compositionGeneration, r.composition.compositionGeneration)
    && FitsText(q.compositionFingerprint, r.composition.compositionFingerprint)
    && FitsScalar(q.runtimeId, r.platform.runtimeId) && FitsScalar(q.runtimeGeneration, r.platform.runtimeGeneration)
    && FitsScalar(q.backendId, r.platform.backendId) && FitsScalar(q.toolchainId, r.platform.toolchainId)
    && FitsText(q.architecture, r.platform.architecture)
    && FitsText(q.computeCapability, r.platform.computeCapability) && FitsText(q.abi, r.platform.abi)
    && FitsText(q.dtype, r.tensor.dtype) && FitsText(q.layout, r.tensor.layout) && FitsText(q.shape, r.tensor.shape)
    && FitsScalar(q.policyGeneration, r.policy.policyGeneration)
    && FitsScalar(q.artifactGeneration, r.platform.artifactGeneration)
  }

  ghost predicate SomeMismatch(cs: seq<Check>, d: Dimension) {
    exists i :: 0 <= i < |cs| && cs[i].Mismatch() && cs[i].dimension == d
  }

  ghost predicate SomeAbsence(cs: seq<Check>, d: Dimension) {
    exists i :: 0 <= i < |cs| && cs[i].Absent() && cs[i].dimension == d
  }

  /** The reported dimensions are exactly those that failed. */
  lemma ReportedIffFailed(cs: seq<Check>, d: Dimension)
    ensures d in Mismatches(cs) <==> SomeMismatch(cs, d)
    ensures d in Absences(cs) <==> SomeAbsence(cs, d)
  {
    MismatchReported(cs, d);
    AbsenceReported(cs, d);
  }

  lemma {:induction false} MismatchReported(cs: seq<Check>, d: Dimension)
    ensures d in Mismatches(cs) <==> SomeMismatch(cs, d)
  {
    if cs != [] {
      var p, c := cs[..|cs| - 1], cs[|cs| - 1];
      MismatchReported(p, d);
      SomeSnoc(cs, (x: Check) => x.Mismatch() && x.dimension == d);
    }
  }

  lemma SomeSnoc(cs: seq<Check>, ok: Check -> bool)
    requires cs != []
    ensures var p := cs[..|cs| - 1];
            (exists i :: 0 <= i < |cs| && ok(cs[i])) <==> (exists i :: 0 <= i < |p| && ok(p[i])) || ok(cs[|cs| - 1])
  {
    var p := cs[..|cs| - 1];
    if i :| 0 <= i < |p| && ok(p[i]) { assert cs[i] == p[i]; }
    if i :| 0 <= i < |p| && ok(cs[i]) { assert cs[i] == p[i]; }
  }

  lemma {:induction false} AbsenceReported(cs: seq<Check>, d: Dimension)
    ensures d in Absences(cs) <==> SomeAbsence(cs, d)
  {
    if cs != [] {
      var p, c := cs[..|cs| - 1], cs[|cs| - 1];
      AbsenceReported(p, d);
      SomeSnoc(cs, (x: Check) => x.Absent() && x.dimension == d);
    }
  }

  ghost predicate AllAgree(cs: seq<Check>) {
    forall i :: 0 <= i < |cs| ==> Agrees(cs[i])
  }

  predicate Agrees(c: Check) {
    !c.requested.IsSet() || c.requested == c.recorded
  }

  lemma AgreeMeansFits(r: RecordData, q: ReuseRequest)
    requires AllAgree(Checks(r, q))
    ensures Fits(r, q)
  {
    var cs := Checks(r, q);
    assert Agrees(cs[0]) && Agrees(cs[1]) && Agrees(cs[2]) && Agrees(cs[3]) && Agrees(cs[4]) && Agrees(cs[5]);
    assert Agrees(cs[6]) && Agrees(cs[7]) && Agrees(cs[8]) && Agrees(cs[9]) && Agrees(cs[10]) && Agrees(cs[11]);
    assert Agrees(cs[12]) && Agrees(cs[13]) && Agrees(cs[14]) && Agrees(cs[15]) && Agrees(cs[16]);
    assert Agrees(cs[17]) && Agrees(cs[18]) && Agrees(cs[19]) && Agrees(cs[20]);
  }

  lemma FitsMeansAgree(r: RecordData, q: ReuseRequest)
    requires Fits(r, q)
    ensures AllAgree(Checks(r, q))
  {
    var cs := Checks(r, q);
    assert AllAgree(cs[..7]);
    assert AllAgree(cs[7..14]);
    assert AllAgree(cs[14..]);
    forall i | 0 <= i < |cs| ensures Agrees(cs[i]) {
      if i < 7 { assert cs[i] == cs[..7][i]; }
      else if i < 14 { assert cs[i] == cs[7..14][i - 7]; }
      else { assert cs[i] == cs[14..][i - 14]; }
    }
  }

  lemma {:induction false} NothingFailsIffAgree(cs: seq<Check>)
    requires forall i :: 0 <= i < |cs| ==> cs[i].requested.Scalar? == cs[i].recorded.Scalar?
    ensures Mismatches(cs) == [] && Absences(cs) == [] <==> AllAgree(cs)
  {
    if cs != [] {
      var p, c := cs[..|cs| - 1], cs[|cs| - 1];
      assert cs == p + [c];
      NothingFailsIffAgree(p);
      assert Agrees(c) <==> !c.Mismatch() && !c.Absent();
      assert AllAgree(cs) <==> AllAgree(p) && Agrees(c) by {
        assert forall i :: 0 <= i < |p| ==> p[i] == cs[i];
      }
    }
  }

  /** A record is eligible exactly when it is valid and fits the request. */
  lemma EligibleIffFits(r: RecordData, q: ReuseRequest)
    ensures Reuse(r, q).eligibility == Eligible <==> r.classification.validity == Valid && Fits(r, q)
  {
    SameKinds(r, q);
    NothingFailsIffAgree(Checks(r, q));
    if Fits(r, q) { FitsMeansAgree(r, q); }
    if AllAgree(Checks(r, q)) { AgreeMeansFits(r, q); }
  }

  lemma SameKinds(r: RecordData, q: ReuseRequest)
    ensures forall i :: 0 <= i < 21 ==> Checks(r, q)[i].requested.Scalar? == Checks(r, q)[i].recorded.Scalar?
    ensures |Checks(r, q)| == 21
  {
  }

  // ------------------------------------------------------ every outcome, from the fields

  /** What a request asks of a dimension; nothing, of those that are not compared. */
  function Asked(q: ReuseRequest, d: Dimension): Side {
    match d
    case ModelIdentity => Scalar(q.modelId)
    case ModelRevision => Text(q.modelRevision)
    case Tokenizer => Text(q.tokenizer)
    case AdapterIdentity => Scalar(q.adapterId)
    case AdapterRevision => Text(q.adapterRevision)
    case AdapterComposition => Text(q.compositionFingerprint)
    case Backend => Scalar(q.backendId)
    case Runtime => Scalar(q.runtimeId)
    case Toolchain => Scalar(q.toolchainId)
    case Architecture => Text(q.architecture)
    case ComputeCapability => Text(q.computeCapability)
    case ABI => Text(q.abi)
    case Dtype => Text(q.dtype)
    case Layout => Text(q.layout)
    case TensorGeometry => Text(q.shape)
    case ModelGen => Scalar(q.modelGeneration)
    case AdapterGen => Scalar(q.adapterGeneration)
    case CompositionGen => Scalar(q.compositionGeneration)
    case RuntimeGen => Scalar(q.runtimeGeneration)
    case PolicyGen => Scalar(q.policyGeneration)
    case ArtifactGen => Scalar(q.artifactGeneration)
    case _ => Scalar(0)
  }

  /** What a record says of a dimension. */
  function Told(r: RecordData, d: Dimension): Side {
    match d
    case ModelIdentity => Scalar(r.model.modelId)
    case ModelRevision => Text(r.model.modelRevision)
    case Tokenizer => Text(r.model.tokenizer)
    case AdapterIdentity => Scalar(r.composition.adapterId)
    case AdapterRevision => Text(r.composition.adapterRevision)
    case AdapterComposition => Text(r.composition.compositionFingerprint)
    case Backend => Scalar(r.platform.backendId)
    case Runtime => Scalar(r.platform.runtimeId)
    case Toolchain => Scalar(r.platform.toolchainId)
    case Architecture => Text(r.platform.architecture)
    case ComputeCapability => Text(r.platform.computeCapability)
    case ABI => Text(r.platform.abi)
    case Dtype => Text(r.tensor.dtype)
    case Layout => Text(r.tensor.layout)
    case TensorGeometry => Text(r.tensor.shape)
    case ModelGen => Scalar(r.model.modelGeneration)
    case AdapterGen => Scalar(r.composition.adapterGeneration)
    case CompositionGen => Scalar(r.composition.compositionGeneration)
    case RuntimeGen => Scalar(r.platform.runtimeGeneration)
    case PolicyGen => Scalar(r.policy.policyGeneration)
    case ArtifactGen => Scalar(r.platform.artifactGeneration)
    case _ => Scalar(0)
  }

  /** Both sides say something, and not the same. */
  predicate Clashes(r: RecordData, q: ReuseRequest, d: Dimension) {
    Asked(q, d).IsSet() && Told(r, d).IsSet() && Asked(q, d) != Told(r, d)
  }

  /** The request asks, and the record is silent. */
  predicate Lacks(r: RecordData, q: ReuseRequest, d: Dimension) {
    Asked(q, d).IsSet() && !Told(r, d).IsSet()
  }

  ghost predicate SomeClash(r: RecordData, q: ReuseRequest) {
    exists d :: Clashes(r, q, d)
  }

  ghost predicate SomeLack(r: RecordData, q: ReuseRequest) {
    exists d :: Lacks(r, q, d)
  }

  /** The place of a compared dimension in the order of reporting. */
  function PlaceOf(d: Dimension): nat {
    match d
    case ModelIdentity => 0 case ModelRevision => 1 case Tokenizer => 2 case AdapterIdentity => 3
    case AdapterRevision => 4 case AdapterComposition => 5 case Backend => 6 case Runtime => 7
    case Toolchain => 8 case Architecture => 9 case ComputeCapability => 10 case ABI => 11
    case Dtype => 12 case Layout => 13 case TensorGeometry => 14 case ModelGen => 15
    case AdapterGen => 16 case CompositionGen => 17 case RuntimeGen => 18 case PolicyGen => 19
    case ArtifactGen => 20 case _ => 21
  }

  /** Each compared dimension is checked once, between the fields that belong to it. */
  lemma CheckedAt(r: RecordData, q: ReuseRequest, d: Dimension)
    requires PlaceOf(d) < 21
    ensures |Checks(r, q)| == 21 && Checks(r, q)[PlaceOf(d)] == Check(d, Asked(q, d), Told(r, d))
  {
  }

  lemma CheckIs(r: RecordData, q: ReuseRequest, i: nat)
    requires i < 21
    ensures |Checks(r, q)| == 21 && PlaceOf(Checks(r, q)[i].dimension) == i
  {
  }

  lemma NotCompared(r: RecordData, q: ReuseRequest, d: Dimension)
    requires PlaceOf(d) == 21
    ensures !Clashes(r, q, d) && !Lacks(r, q, d)
  {
  }

  lemma ClashIsMismatch(r: RecordData, q: ReuseRequest, d: Dimension)
    ensures SomeMismatch(Checks(r, q), d) <==> Clashes(r, q, d)
    ensures SomeAbsence(Checks(r, q), d) <==> Lacks(r, q, d)
  {
    var cs := Checks(r, q);
    forall i | 0 <= i < |cs| && cs[i].dimension == d ensures cs[i] == Check(d, Asked(q, d), Told(r, d)) {
      CheckIs(r, q, i);
      CheckedAt(r, q, d);
    }
    if PlaceOf(d) < 21 { CheckedAt(r, q, d); } else { NotCompared(r, q, d); }
    assert Clashes(r, q, d) ==> cs[PlaceOf(d)].Mismatch();
    assert Lacks(r, q, d) ==> cs[PlaceOf(d)].Absent();
  }

  /** The mismatches are the clashing dimensions, the absences the lacking ones. */
  lemma ListsFromFields(r: RecordData, q: ReuseRequest)
    ensures forall d :: d in Mismatches(Checks(r, q)) <==> Clashes(r, q, d)
    ensures forall d :: d in Absences(Checks(r, q)) <==> Lacks(r, q, d)
    ensures Mismatches(Checks(r, q)) != [] <==> SomeClash(r, q)
    ensures Absences(Checks(r, q)) != [] <==> SomeLack(r, q)
  {
    var ms, os := Mismatches(Checks(r, q)), Absences(Checks(r, q));
    forall d ensures (d in ms <==> Clashes(r, q, d)) && (d in os <==> Lacks(r, q, d)) {
      ReportedIffFailed(Checks(r, q), d);
      ClashIsMismatch(r, q, d);
    }
    if ms != [] { assert ms[0] in ms; }
    if os != [] { assert os[0] in os; }
  }

  /** Which outcome a record of validity v gets, from its fields and the request's. */
  ghost predicate Deserves(v: Validity, r: RecordData, q: ReuseRequest, e: Eligibility) {
    match e
    case InvalidatedState => v == Invalidated
    case StaleState => v == Stale
    case Incompatible => v !in {Invalidated, Stale} && SomeClash(r, q)
    case IncompleteProvenance => v !in {Invalidated, Stale} && !SomeClash(r, q) && SomeLack(r, q)
    case UnknownEligibility => v == UnknownValidity && !SomeClash(r, q) && !SomeLack(r, q)
    case Eligible => v == Valid && !SomeClash(r, q) && !SomeLack(r, q)
    case Ineligible => false
  }

  /** The dimensions an outcome reports. */
  ghost predicate Blames(e: Eligibility, r: RecordData, q: ReuseRequest, d: Dimension) {
    match e
    case InvalidatedState => d == ProvenanceIntegrity
    case Incompatible => Clashes(r, q, d)
    case IncompleteProvenance => Lacks(r, q, d)
    case _ => false
  }

  /** The outcome and the dimensions reported, from the record's validity and fields and the
      request's: incompatible exactly if some field is set on both sides and differs,
      incomplete exactly if none is and some requested field is not recorded, and so on. */
  lemma ReuseIff(r: RecordData, q: ReuseRequest)
    ensures forall e :: Reuse(r, q).eligibility == e <==> Deserves(r.classification.validity, r, q, e)
    ensures forall d :: d in Reuse(r, q).failedDimensions <==> Blames(Reuse(r, q).eligibility, r, q, d)
  {
    ListsFromFields(r, q);
  }

  /** Dimensions are reported in a fixed order, each once. */
  ghost predicate InReportOrder(ds: seq<Dimension>) {
    forall i, j :: 0 <= i < j < |ds| ==> PlaceOf(ds[i]) < PlaceOf(ds[j])
  }

  lemma ReportedInOrder(r: RecordData, q: ReuseRequest)
    ensures InReportOrder(Reuse(r, q).failedDimensions)
  {
    SameKinds(r, q);
    MismatchesInOrder(r, q, 21);
    AbsencesInOrder(r, q, 21);
    assert Checks(r, q)[..21] == Checks(r, q);
  }

  lemma {:induction false} MismatchesInOrder(r: RecordData, q: ReuseRequest, n: nat)
    requires n <= 21 == |Checks(r, q)|
    ensures InReportOrder(Mismatches(Checks(r, q)[..n]))
    ensures forall i :: 0 <= i < |Mismatches(Checks(r, q)[..n])| ==> PlaceOf(Mismatches(Checks(r, q)[..n])[i]) < n
  {
    if n > 0 {
      MismatchesInOrder(r, q, n - 1);
      CheckIs(r, q, n - 1);
      assert Checks(r, q)[..n][..n - 1] == Checks(r, q)[..n - 1];
    }
  }

  lemma {:induction false} AbsencesInOrder(r: RecordData, q: ReuseRequest, n: nat)
    requires n <= 21 == |Checks(r, q)|
    ensures InReportOrder(Absences(Checks(r, q)[..n]))
    ensures forall i :: 0 <= i < |Absences(Checks(r, q)[..n])| ==> PlaceOf(Absences(Checks(r, q)[..n])[i]) < n
  {
    if n > 0 {
      AbsencesInOrder(r, q, n - 1);
      CheckIs(r, q, n - 1);
      assert Checks(r, q)[..n][..n - 1] == Checks(r, q)[..n - 1];
    }
  }

  /** q2 asks for at least what q1 asks for. */
  predicate Strengthens(q2: ReuseRequest, q1: ReuseRequest) {
    && FitsScalar(q1.modelId, q2.modelId) && FitsScalar(q1.modelGeneration, q2.modelGeneration)
    && FitsText(q1.modelRevision, q2.modelRevision) && FitsText(q1.tokenizer, q2.tokenizer)
    && FitsScalar(q1.adapterId, q2.adapterId) && FitsScalar(q1.adapterGeneration, q2.adapterGeneration)
    && FitsText(q1.adapterRevision, q2.adapterRevision)
    && FitsScalar(q1.compositionGeneration, q2.compositionGeneration)
    && FitsText(q1.compositionFingerprint, q2.compositionFingerprint)
    && FitsScalar(q1.runtimeId, q2.runtimeId) && FitsScalar(q1.runtimeGeneration, q2.runtimeGeneration)
    && FitsScalar(q1.backendId, q2.backendId) && FitsScalar(q1.toolchainId, q2.toolchainId)
    && FitsText(q1.architecture, q2.architecture) && FitsText(q1.computeCapability, q2.computeCapability)
    && FitsText(q1.abi, q2.abi) && FitsText(q1.dtype, q2.dtype) && FitsText(q1.layout, q2.layout)
    && FitsText(q1.shape, q2.shape) && FitsScalar(q1.policyGeneration, q2.policyGeneration)
    && FitsScalar(q1.artifactGeneration, q2.artifactGeneration)
  }

  /** Asking for more never gains eligibility. */
  lemma StrengtheningNeverGains(r: RecordData, q1: ReuseRequest, q2: ReuseRequest)
    requires Strengthens(q2, q1) && Reuse(r, q2).eligibility == Eligible
    ensures Reuse(r, q1).eligibility == Eligible
  {
    EligibleIffFits(r, q2);
    EligibleIffFits(r, q1);
  }
}
