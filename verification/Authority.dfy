/** Mutation authority and fencing (authority.hpp). */
module Fence {
  import opened Ids

  /** The values considered current; also the form they are persisted in. */
  datatype Authority = Authority(
    epoch: u64, boots: map<WorkerId, u64>, attemptId: u64, attemptGeneration: u64,
    stateGeneration: u64, provenanceGeneration: u64, artifactGeneration: u64, modelGeneration: u64,
    adapterGeneration: u64, compositionGeneration: u64, policyGeneration: u64, dependencyGeneration: u64)

  datatype Claim = Claim(
    workerId: WorkerId, workerBoot: u64, attemptId: u64, attemptGeneration: u64,
    stateGeneration: u64, provenanceGeneration: u64, coordinatorEpoch: u64,
    artifactGeneration: Option<u64>, modelGeneration: Option<u64>, adapterGeneration: Option<u64>,
    compositionGeneration: Option<u64>, policyGeneration: Option<u64>, dependencyGeneration: Option<u64>)

  datatype FenceDimension =
    | CoordinatorEpoch | WorkerBoot | AttemptId | AttemptGeneration | StateGeneration
    | ProvenanceGeneration | ArtifactGeneration | ModelGeneration | AdapterGeneration
    | CompositionGeneration | PolicyGeneration | DependencyGeneration

  datatype Verdict = Accept | Reject(dimension: FenceDimension)

  const Initial := Authority(1, map[], 0, 0, 0, 0, 0, 0, 0, 0, 0, 0)

  // ------------------------------------------------------------------ evaluation

  predicate StaleValue(claimed: u64, current: u64) {
    claimed != 0 && current != 0 && claimed != current
  }

  predicate StaleOption(claimed: Option<u64>, current: u64) {
    claimed.Some? && current != 0 && claimed.value != current
  }

  /** evaluate_claim: the first stale dimension, in this order. */
  function Evaluate(a: Authority, c: Claim): Verdict {
    if c.coordinatorEpoch != a.epoch then Reject(CoordinatorEpoch)
    else if c.workerId != 0 && (c.workerId !in a.boots || a.boots[c.workerId] != c.workerBoot) then Reject(WorkerBoot)
    else if StaleValue(c.attemptId, a.attemptId) then Reject(AttemptId)
    else if StaleValue(c.attemptGeneration, a.attemptGeneration) then Reject(AttemptGeneration)
    else if StaleValue(c.stateGeneration, a.stateGeneration) then Reject(StateGeneration)
    else if StaleValue(c.provenanceGeneration, a.provenanceGeneration) then Reject(ProvenanceGeneration)
    else if StaleOption(c.artifactGeneration, a.artifactGeneration) then Reject(ArtifactGeneration)
    else if StaleOption(c.modelGeneration, a.modelGeneration) then Reject(ModelGeneration)
    else if StaleOption(c.adapterGeneration, a.adapterGeneration) then Reject(AdapterGeneration)
    else if StaleOption(c.compositionGeneration, a.compositionGeneration) then Reject(CompositionGeneration)
    else if StaleOption(c.policyGeneration, a.policyGeneration) then Reject(PolicyGeneration)
    else if StaleOption(c.dependencyGeneration, a.dependencyGeneration) then Reject(DependencyGeneration)
    else Accept
  }

  /** One fenced dimension on its own: an unset side constrains nothing, except that the
      epoch always counts and a named worker must be registered. */
  predicate Fresh(a: Authority, c: Claim, d: FenceDimension) {
    match d
    case CoordinatorEpoch => c.coordinatorEpoch == a.epoch
    case WorkerBoot => c.workerId == 0 || (c.workerId in a.boots && a.boots[c.workerId] == c.workerBoot)
    case AttemptId => c.attemptId == 0 || a.attemptId == 0 || c.attemptId == a.attemptId
    case AttemptGeneration =>
      c.attemptGeneration == 0 || a.attemptGeneration == 0 || c.attemptGeneration == a.attemptGeneration
    case StateGeneration => c.stateGeneration == 0 || a.stateGeneration == 0 || c.stateGeneration == a.stateGeneration
    case ProvenanceGeneration =>
      c.provenanceGeneration == 0 || a.provenanceGeneration == 0 || c.provenanceGeneration == a.provenanceGeneration
    case ArtifactGeneration => a.artifactGeneration == 0 || c.artifactGeneration == None ||
      c.artifactGeneration == Some(a.artifactGeneration)
    case ModelGeneration => a.modelGeneration == 0 || c.modelGeneration == None ||
      c.modelGeneration == Some(a.modelGeneration)
    case AdapterGeneration => a.adapterGeneration == 0 || c.adapterGeneration == None ||
      c.adapterGeneration == Some(a.adapterGeneration)
    case CompositionGeneration =>
      a.compositionGeneration == 0 || c.compositionGeneration == None ||
        c.compositionGeneration == Some(a.compositionGeneration)
    case PolicyGeneration => a.policyGeneration == 0 || c.policyGeneration == None ||
      c.policyGeneration == Some(a.policyGeneration)
    case DependencyGeneration =>
      a.dependencyGeneration == 0 || c.dependencyGeneration == None ||
        c.dependencyGeneration == Some(a.dependencyGeneration)
  }

  function Position(d: FenceDimension): nat {
    match d
    case CoordinatorEpoch => 0 case WorkerBoot => 1 case AttemptId => 2 case AttemptGeneration => 3
    case StateGeneration => 4 case ProvenanceGeneration => 5 case ArtifactGeneration => 6
    case ModelGeneration => 7 case AdapterGeneration => 8 case CompositionGeneration => 9
    case PolicyGeneration => 10 case DependencyGeneration => 11
  }

  lemma PositionsDiffer(d: FenceDimension, e: FenceDimension)
    ensures Position(d) == Position(e) ==> d == e
  {
  }

  ghost predicate AllFresh(a: Authority, c: Claim) {
    forall d :: Fresh(a, c, d)
  }

  /** A claim is accepted exactly when every dimension is fresh; a rejection names the
      first one that is not. */
  lemma EvaluateMeans(a: Authority, c: Claim)
    ensures Evaluate(a, c) == Accept <==> AllFresh(a, c)
    ensures Evaluate(a, c).Reject? ==>
              !Fresh(a, c, Evaluate(a, c).dimension) &&
              forall d :: Position(d) < Position(Evaluate(a, c).dimension) ==> Fresh(a, c, d)
  {
    var v := Evaluate(a, c);
    forall d | v == Accept || Position(d) < Position(v.dimension) ensures Fresh(a, c, d) { FreshBefore(a, c, d); }
    if v.Reject? { StaleThere(a, c); }
  }

  lemma FreshBefore(a: Authority, c: Claim, d: FenceDimension)
    requires Evaluate(a, c).Reject? ==> Position(d) < Position(Evaluate(a, c).dimension)
    ensures Fresh(a, c, d)
  {
    match d
    case CoordinatorEpoch =>
    case WorkerBoot =>
    case AttemptId =>
    case AttemptGeneration =>
    case StateGeneration =>
    case ProvenanceGeneration =>
    case ArtifactGeneration =>
    case ModelGeneration =>
    case AdapterGeneration =>
    case CompositionGeneration =>
    case PolicyGeneration =>
    case DependencyGeneration =>
  }

  lemma StaleThere(a: Authority, c: Claim)
    requires Evaluate(a, c).Reject?
    ensures !Fresh(a, c, Evaluate(a, c).dimension)
  {
  }

  // -------------------------------------------------------------- state changes

  datatype Change =
    | RollEpoch
    | RegisterBoot(worker: WorkerId, boot: u64)
    | BeginAttempt(id: u64, generation: u64)
    | SetGeneration(dimension: FenceDimension, value: u64)

  /** Only the epoch is a counter (64-bit, so it wraps); the rest are plain setters. */
  function Apply(a: Authority, ch: Change): Authority {
    match ch
    case RollEpoch => a.(epoch := (a.epoch + 1) % TWO64)
    case RegisterBoot(w, b) => a.(boots := a.boots[w := b])
    case BeginAttempt(id, g) => a.(attemptId := id, attemptGeneration := g)
    case SetGeneration(d, v) =>
      match d {
        case StateGeneration => a.(stateGeneration := v)
        case ProvenanceGeneration => a.(provenanceGeneration := v)
        case ArtifactGeneration => a.(artifactGeneration := v)
        case ModelGeneration => a.(modelGeneration := v)
        case AdapterGeneration => a.(adapterGeneration := v)
        case CompositionGeneration => a.(compositionGeneration := v)
        case PolicyGeneration => a.(policyGeneration := v)
        case DependencyGeneration => a.(dependencyGeneration := v)
        case _ => a  // no setter exists for the remaining dimensions
      }
  }

  function ApplyAll(a: Authority, chs: seq<Change>): Authority
    decreases |chs|
  {
    if chs == [] then a else ApplyAll(Apply(a, chs[0]), chs[1..])
  }

  function Rolls(chs: seq<Change>): nat {
    if chs == [] then 0 else (if chs[0] == RollEpoch then 1 else 0) + Rolls(chs[1..])
  }

  /** The epoch counts the rolls, modulo 2^64. */
  lemma {:induction false} EpochCountsRolls(a: Authority, chs: seq<Change>)
    ensures ApplyAll(a, chs).epoch == (a.epoch + Rolls(chs)) % TWO64
    decreases |chs|
  {
    if chs != [] { EpochCountsRolls(Apply(a, chs[0]), chs[1..]); }
  }

  /** Fencing over runs: a claim made under the present epoch is refused after any further
      history, exactly because (and exactly when) the number of rolls is not a multiple of
      2^64; whatever else changed does not matter. */
  lemma OldEpochStaysFenced(a: Authority, c: Claim, chs: seq<Change>)
    requires c.coordinatorEpoch == a.epoch
    ensures Evaluate(ApplyAll(a, chs), c) == Reject(CoordinatorEpoch) <==> Rolls(chs) % TWO64 != 0
  {
    EpochCountsRolls(a, chs);
  }

  /** Registering a different boot (a worker restart) fences every claim under the old one. */
  lemma OldBootStaysFenced(a: Authority, c: Claim, boot: u64, chs: seq<Change>)
    requires c.workerId != 0 && boot != c.workerBoot
    requires forall i :: 0 <= i < |chs| ==> chs[i] != RegisterBoot(c.workerId, c.workerBoot)
    ensures Evaluate(ApplyAll(Apply(a, RegisterBoot(c.workerId, boot)), chs), c).Reject?
  {
    BootNeverReturns(Apply(a, RegisterBoot(c.workerId, boot)), c, chs);
  }

  lemma {:induction false} BootNeverReturns(a: Authority, c: Claim, chs: seq<Change>)
    requires c.workerId in a.boots && a.boots[c.workerId] != c.workerBoot
    requires forall i :: 0 <= i < |chs| ==> chs[i] != RegisterBoot(c.workerId, c.workerBoot)
    ensures c.workerId in ApplyAll(a, chs).boots && ApplyAll(a, chs).boots[c.workerId] != c.workerBoot
    decreases |chs|
  {
    if chs != [] { BootNeverReturns(Apply(a, chs[0]), c, chs[1..]); }
  }

  // -------------------------------------------------- what later changes do to a claim

  /** What a claim asks of a dimension other than the epoch, if it asks anything. */
  function Asked(c: Claim, d: FenceDimension): Option<u64> {
    match d
    case CoordinatorEpoch => None
    case WorkerBoot => if c.workerId == 0 then None else Some(c.workerBoot)
    case AttemptId => NonZeroOrNone(c.attemptId)
    case AttemptGeneration => NonZeroOrNone(c.attemptGeneration)
    case StateGeneration => NonZeroOrNone(c.stateGeneration)
    case ProvenanceGeneration => NonZeroOrNone(c.provenanceGeneration)
    case ArtifactGeneration => c.artifactGeneration
    case ModelGeneration => c.modelGeneration
    case AdapterGeneration => c.adapterGeneration
    case CompositionGeneration => c.compositionGeneration
    case PolicyGeneration => c.policyGeneration
    case DependencyGeneration => c.dependencyGeneration
  }

  /** Zero counts as absent. */
  function NonZeroOrNone(v: u64): Option<u64> {
    if v == 0 then None else Some(v)
  }

  /** The value a change gives to the thing dimension d of the claim is compared with. */
  function Given(ch: Change, c: Claim, d: FenceDimension): Option<u64> {
    match ch
    case RollEpoch => None
    case RegisterBoot(w, b) => if d == WorkerBoot && w == c.workerId then Some(b) else None
    case BeginAttempt(id, g) =>
      if d == AttemptId then Some(id) else if d == AttemptGeneration then Some(g) else None
    case SetGeneration(x, v) => if d == x && Position(d) >= Position(StateGeneration) then Some(v) else None
  }

  /** A given value leaves the dimension fresh: nothing is asked, it is what is asked, or it
      is the zero that switches the dimension off (a boot cannot be switched off). */
  predicate Suits(v: u64, c: Claim, d: FenceDimension) {
    Asked(c, d) == None || Asked(c, d) == Some(v) || (v == 0 && d != WorkerBoot)
  }

  /** The last change that gives dimension d a value, if any does, gives one that suits. */
  predicate LastSuits(chs: seq<Change>, c: Claim, d: FenceDimension)
    decreases |chs|
  {
    chs == [] ||
    var last := Given(chs[|chs| - 1], c, d);
    if last.Some? then Suits(last.value, c, d) else LastSuits(chs[..|chs| - 1], c, d)
  }

  lemma {:induction false} ApplyAllSnoc(a: Authority, chs: seq<Change>, ch: Change)
    ensures ApplyAll(a, chs + [ch]) == Apply(ApplyAll(a, chs), ch)
    decreases |chs|
  {
    if chs == [] {
      assert (chs + [ch])[1..] == [];
    } else {
      assert (chs + [ch])[1..] == chs[1..] + [ch];
      ApplyAllSnoc(Apply(a, chs[0]), chs[1..], ch);
    }
  }

  lemma ChangeKeepsOrGives(a: Authority, ch: Change, c: Claim, d: FenceDimension)
    requires d != CoordinatorEpoch
    ensures var v := Given(ch, c, d);
            Fresh(Apply(a, ch), c, d) <==> if v.Some? then Suits(v.value, c, d) else Fresh(a, c, d)
  {
  }

  /** After any history a dimension other than the epoch is still fresh exactly when the last
      change to it, if there was one, suits the claim. */
  lemma {:induction false} StillFreshIff(a: Authority, chs: seq<Change>, c: Claim, d: FenceDimension)
    requires d != CoordinatorEpoch && Fresh(a, c, d)
    ensures Fresh(ApplyAll(a, chs), c, d) <==> LastSuits(chs, c, d)
    decreases |chs|
  {
    if chs != [] {
      var front, ch := chs[..|chs| - 1], chs[|chs| - 1];
      assert chs == front + [ch];
      ApplyAllSnoc(a, front, ch);
      StillFreshIff(a, front, c, d);
      ChangeKeepsOrGives(ApplyAll(a, front), ch, c, d);
    }
  }

  /** The history has rolled the epoch a multiple of 2^64 times, and the last boot, attempt and
      generation changes all suit the claim. */
  ghost predicate Harmless(chs: seq<Change>, c: Claim) {
    Rolls(chs) % TWO64 == 0 && forall d :: d != CoordinatorEpoch ==> LastSuits(chs, c, d)
  }

  /** An accepted claim is still accepted after a history exactly when that was harmless. */
  lemma StillAcceptedIff(a: Authority, chs: seq<Change>, c: Claim)
    requires Evaluate(a, c) == Accept
    ensures Evaluate(ApplyAll(a, chs), c) == Accept <==> Harmless(chs, c)
  {
    var b := ApplyAll(a, chs);
    EvaluateMeans(a, c);
    EvaluateMeans(b, c);
    EpochKept(a, chs, c);
    forall d | d != CoordinatorEpoch ensures Fresh(b, c, d) <==> LastSuits(chs, c, d) {
      assert Fresh(a, c, d);
      StillFreshIff(a, chs, c, d);
    }
  }

  lemma EpochKept(a: Authority, chs: seq<Change>, c: Claim)
    requires Fresh(a, c, CoordinatorEpoch)
    ensures Fresh(ApplyAll(a, chs), c, CoordinatorEpoch) <==> Rolls(chs) % TWO64 == 0
  {
    EpochCountsRolls(a, chs);
  }

  // ------------------------------------------------- when one authority accepts no more

  /** The value a dimension other than epoch and boot is compared with. */
  function Current(a: Authority, d: FenceDimension): u64 {
    match d
    case AttemptId => a.attemptId
    case AttemptGeneration => a.attemptGeneration
    case StateGeneration => a.stateGeneration
    case ProvenanceGeneration => a.provenanceGeneration
    case ArtifactGeneration => a.artifactGeneration
    case ModelGeneration => a.modelGeneration
    case AdapterGeneration => a.adapterGeneration
    case CompositionGeneration => a.compositionGeneration
    case PolicyGeneration => a.policyGeneration
    case DependencyGeneration => a.dependencyGeneration
    case _ => 0
  }

  /** b is at least as tight as a: same epoch, only boots that a has too, and every other
      value that a has set is the one b has set. */
  ghost predicate Tighter(b: Authority, a: Authority) {
    && b.epoch == a.epoch
    && (forall w :: w in b.boots && w != 0 ==> w in a.boots && a.boots[w] == b.boots[w])
    && forall d :: Current(a, d) == 0 || Current(a, d) == Current(b, d)
  }

  /** A claim that asks for the epoch only. */
  function Anonymous(epoch: u64): Claim {
    Claim(0, 0, 0, 0, 0, 0, epoch, None, None, None, None, None, None)
  }

  /** A claim that asks for the epoch and one further value. */
  function AskingFor(epoch: u64, d: FenceDimension, v: u64): Claim {
    var c := Anonymous(epoch);
    match d
    case AttemptId => c.(attemptId := v)
    case AttemptGeneration => c.(attemptGeneration := v)
    case StateGeneration => c.(stateGeneration := v)
    case ProvenanceGeneration => c.(provenanceGeneration := v)
    case ArtifactGeneration => c.(artifactGeneration := Some(v))
    case ModelGeneration => c.(modelGeneration := Some(v))
    case AdapterGeneration => c.(adapterGeneration := Some(v))
    case CompositionGeneration => c.(compositionGeneration := Some(v))
    case PolicyGeneration => c.(policyGeneration := Some(v))
    case DependencyGeneration => c.(dependencyGeneration := Some(v))
    case _ => c
  }

  lemma AskingAccepted(a: Authority, d: FenceDimension, v: u64)
    requires v != 0
    ensures Evaluate(a, AskingFor(a.epoch, d, v)) == Accept <==> Current(a, d) == 0 || Current(a, d) == v
  {
    match d
    case CoordinatorEpoch =>
    case WorkerBoot =>
    case AttemptId =>
    case AttemptGeneration =>
    case StateGeneration =>
    case ProvenanceGeneration =>
    case ArtifactGeneration =>
    case ModelGeneration =>
    case AdapterGeneration =>
    case CompositionGeneration =>
    case PolicyGeneration =>
    case DependencyGeneration =>
  }

  ghost predicate AcceptsNoMore(b: Authority, a: Authority) {
    forall c :: Evaluate(b, c) == Accept ==> Evaluate(a, c) == Accept
  }

  lemma TighterAcceptsNoMore(b: Authority, a: Authority, c: Claim)
    requires Tighter(b, a) && Evaluate(b, c) == Accept
    ensures Evaluate(a, c) == Accept
  {
    EvaluateMeans(a, c);
    EvaluateMeans(b, c);
    forall d ensures Fresh(a, c, d) { TighterFresh(b, a, c, d); }
  }

  lemma TighterFresh(b: Authority, a: Authority, c: Claim, d: FenceDimension)
    requires Tighter(b, a) && AllFresh(b, c)
    ensures Fresh(a, c, d)
  {
    assert Fresh(b, c, d) && (Current(a, d) == 0 || Current(a, d) == Current(b, d));
  }

  lemma NoMoreIsTighterAt(b: Authority, a: Authority, d: FenceDimension)
    requires AcceptsNoMore(b, a) && a.epoch == b.epoch
    ensures Current(a, d) == 0 || Current(a, d) == Current(b, d)
  {
    var v := if Current(b, d) != 0 then Current(b, d) else if Current(a, d) == 1 then 2 else 1;
    AskingAccepted(a, d, v);
    AskingAccepted(b, d, v);
  }

  /** One authority accepts no claim that another does not, exactly when it is tighter. */
  lemma AcceptsNoMoreIff(b: Authority, a: Authority)
    ensures AcceptsNoMore(b, a) <==> Tighter(b, a)
  {
    if Tighter(b, a) {
      forall c | Evaluate(b, c) == Accept ensures Evaluate(a, c) == Accept { TighterAcceptsNoMore(b, a, c); }
    }
    if AcceptsNoMore(b, a) {
      assert Evaluate(b, Anonymous(b.epoch)) == Accept;
      forall w | w in b.boots && w != 0 ensures w in a.boots && a.boots[w] == b.boots[w] {
        assert Evaluate(b, Anonymous(b.epoch).(workerId := w, workerBoot := b.boots[w])) == Accept;
      }
      forall d ensures Current(a, d) == 0 || Current(a, d) == Current(b, d) { NoMoreIsTighterAt(b, a, d); }
    }
  }

  // ------------------------------------------------------------------- the object

  class AuthorityState {
    var epoch: u64
    var boot: map<WorkerId, u64>
    var attemptId: u64
    var attemptGeneration: u64
    var stateGeneration: u64
    var provenanceGeneration: u64
    var artifactGeneration: u64
    var modelGeneration: u64
    var adapterGeneration: u64
    var compositionGeneration: u64
    var policyGeneration: u64
    var dependencyGeneration: u64

    function View(): Authority
      reads this
    {
      Authority(epoch, boot, attemptId, attemptGeneration, stateGeneration, provenanceGeneration, artifactGeneration,
                modelGeneration, adapterGeneration, compositionGeneration, policyGeneration, dependencyGeneration)
    }

    constructor ()
      ensures View() == Initial
    {
      epoch, boot, attemptId, attemptGeneration, stateGeneration, provenanceGeneration := 1, map[], 0, 0, 0, 0;
      artifactGeneration, modelGeneration, adapterGeneration, compositionGeneration := 0, 0, 0, 0;
      policyGeneration, dependencyGeneration := 0, 0;
    }

    method RollEpoch() returns (e: u64)
      modifies this
      ensures View() == Apply(old(View()), Change.RollEpoch) && e == View().epoch
    {
      epoch := (epoch + 1) % TWO64;
      e := epoch;
    }

    /** Zero is not an epoch: setting it means starting over at one. */
    method SetEpoch(e: u64)
      modifies this
      ensures View() == old(View()).(epoch := if e == 0 then 1 else e)
    {
      epoch := if e == 0 then 1 else e;
    }

    method RegisterBoot(w: WorkerId, b: u64)
      modifies this`boot
      ensures View() == Apply(old(View()), Change.RegisterBoot(w, b)) && boot == old(boot)[w := b]
    {
      boot := boot[w := b];
    }

    method BeginAttempt(id: u64, g: u64)
      modifies this
      ensures View() == Apply(old(View()), Change.BeginAttempt(id, g))
    {
      attemptId, attemptGeneration := id, g;
    }

    /** The eight generation setters. */
    method SetGeneration(d: FenceDimension, g: u64)
      modifies this
      ensures View() == Apply(old(View()), Change.SetGeneration(d, g))
    {
      match d {
        case StateGeneration => stateGeneration := g;
        case ProvenanceGeneration => provenanceGeneration := g;
        case ArtifactGeneration => artifactGeneration := g;
        case ModelGeneration => modelGeneration := g;
        case AdapterGeneration => adapterGeneration := g;
        case CompositionGeneration => compositionGeneration := g;
        case PolicyGeneration => policyGeneration := g;
        case DependencyGeneration => dependencyGeneration := g;
        case _ =>
      }
    }

    function EvaluateClaim(c: Claim): (v: Verdict)
      reads this
      ensures v == Accept <==> AllFresh(View(), c)
    {
      EvaluateMeans(View(), c);
      Evaluate(View(), c)
    }
  }
}
