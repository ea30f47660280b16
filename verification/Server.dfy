/** The coordinator's request handling (handle_connection of coordinator.cpp), one request at
    a time, over the real store: what each opcode does to the store and the counters. */
module CoordinatorServer {
  import opened Ids
  import opened Records
  import opened Registry
  import opened ProvenanceStore
  import F = Fence
  import W = Wire
  import P = Protocol

  class Server {
    const store: Store
    var accepted: nat
    var rejected: nat

    constructor (s: Store)
      ensures store == s && accepted == rejected == 0
    {
      store, accepted, rejected := s, 0, 0;
    }

    /** Publish (and PublishStale): every frame is counted exactly once.  A payload that
        carries a record and a claim has the outcome of their fenced publish; any other is
        malformed, and a rejection that touches nothing. */
    method Publish(payload: Bytes)
      requires store.Coherent()
      modifies this, store, store.graph
      ensures store.Coherent() && (old(store.Aligned()) ==> store.Aligned())
      ensures store.graph == old(store.graph) && store.authority == old(store.authority)
      ensures Counted(old(store.Abs()), P.Decoding(payload), store.Abs(),
                      accepted - old(accepted), rejected - old(rejected))
    {
      var decoded := Decode(payload);
      PublishDecoded(decoded);
    }

    static method Decode(payload: Bytes) returns (decoded: Option<(RecordData, F.Claim)>)
      ensures decoded == P.Decoding(payload)
    {
      decoded := P.DecodePublish(payload);
    }

    /** The same, given what the payload decoded to. */
    method PublishDecoded(decoded: Option<(RecordData, F.Claim)>)
      requires store.Coherent()
      modifies this, store, store.graph
      ensures store.Coherent() && (old(store.Aligned()) ==> store.Aligned())
      ensures store.graph == old(store.graph) && store.authority == old(store.authority)
      ensures Counted(old(store.Abs()), decoded, store.Abs(), accepted - old(accepted), rejected - old(rejected))
    {
      if decoded.None? {
        Tally(false);
        return;
      }
      var r := store.PublishFenced(decoded.value.0, decoded.value.1);
      Tally(r.Published?);
    }

    method Tally(ok: bool)
      modifies this`accepted, this`rejected
      ensures accepted == old(accepted) + (if ok then 1 else 0)
      ensures rejected == old(rejected) + (if ok then 0 else 1)
    {
      if ok { accepted := accepted + 1; } else { rejected := rejected + 1; }
    }

    /** Hello: registers the boot of the worker that names itself; shorter payloads change nothing. */
    method Hello(payload: Bytes)
      modifies store.authority
      ensures |payload| < 16 ==> store.Abs() == old(store.Abs())
      ensures forall w, b, extra :: payload == W.E64(w, W.E64(b, extra)) ==>
                store.Abs() == old(store.Abs()).(authority := F.Apply(old(store.Abs()).authority, F.RegisterBoot(w, b)))
    {
      if |payload| < 16 { return; }
      var r := new W.BinaryReader(payload);
      var w := r.U64();
      if w.None? { return; }
      var b := r.U64();
      if b.None? { return; }
      store.RegisterBoot(w.value, b.value);
    }

    method RollEpoch() returns (e: u64)
      modifies store.authority
      ensures store.Abs() == old(store.Abs()).(authority := F.Apply(old(store.Abs()).authority, F.RollEpoch))
      ensures e == store.Abs().authority.epoch
    {
      e := store.RollEpoch();
    }

    /** SetAuthority, its text already parsed: zero leaves a value alone, and an attempt needs
        both its parts. */
    method SetAuthority(state: u64, prov: u64, dep: u64, model: u64, attempt: u64, attemptGen: u64, policy: u64)
      modifies store.authority
      ensures store.Abs() == old(store.Abs()).(
                authority := F.ApplyAll(old(store.Abs()).authority,
                                        Changes(state, prov, dep, model, attempt, attemptGen, policy)))
      ensures Adopted(old(store.Abs()).authority, store.Abs().authority,
                      state, prov, dep, model, attempt, attemptGen, policy)
    {
      ChangesMean(store.Abs().authority, state, prov, dep, model, attempt, attemptGen, policy);
      var changes := Changes(state, prov, dep, model, attempt, attemptGen, policy);
      ghost var st := store.Abs();
      for i := 0 to |changes|
        invariant F.ApplyAll(store.Abs().authority, changes[i..]) == F.ApplyAll(st.authority, changes)
        invariant store.Abs() == st.(authority := store.Abs().authority)
      {
        assert changes[i..][1..] == changes[i + 1..];
        match changes[i] {
          case SetGeneration(d, v) => store.SetGeneration(d, v);
          case BeginAttempt(id, g) => store.BeginAttempt(id, g);
          case _ =>
        }
      }
    }
  }

  /** One publish frame: what it does to the store, and to one of the two counters. */
  ghost predicate Counted(st: State, decoded: Option<(RecordData, F.Claim)>, next: State,
                          accepted: int, rejected: int)
  {
    && next == AfterPublish(st, decoded)
    && (if IsAccepted(st, decoded) then Recorded(st, next, decoded.value.0) else next == st)
    && accepted == (if IsAccepted(st, decoded) then 1 else 0)
    && rejected == (if IsAccepted(st, decoded) then 0 else 1)
  }

  ghost predicate IsAccepted(st: State, decoded: Option<(RecordData, F.Claim)>) {
    decoded.Some? && Publishable(st, decoded.value.0, decoded.value.1)
  }

  ghost function AfterPublish(st: State, decoded: Option<(RecordData, F.Claim)>): State {
    if decoded.None? then st else FencedPublish(st, decoded.value.0, decoded.value.1)
  }

  function Changes(state: u64, prov: u64, dep: u64, model: u64, attempt: u64, attemptGen: u64,
                   policy: u64): (r: seq<F.Change>)
    ensures forall i :: 0 <= i < |r| ==> r[i].SetGeneration? || r[i].BeginAttempt?
  {
    Unless(state, F.StateGeneration) + Unless(prov, F.ProvenanceGeneration) + Unless(dep, F.DependencyGeneration) +
    Unless(model, F.ModelGeneration) +
    (if attempt != 0 && attemptGen != 0 then [F.BeginAttempt(attempt, attemptGen)] else []) +
    Unless(policy, F.PolicyGeneration)
  }

  function Unless(v: u64, d: F.FenceDimension): seq<F.Change> {
    if v != 0 then [F.SetGeneration(d, v)] else []
  }

  /** Each word but zero has become its own generation, an attempt both its parts or neither, and
      nothing else has changed. */
  ghost predicate Adopted(a: F.Authority, b: F.Authority, state: u64, prov: u64, dep: u64, model: u64,
                          attempt: u64, attemptGen: u64, policy: u64)
  {
    && b.stateGeneration == (if state == 0 then a.stateGeneration else state)
    && b.provenanceGeneration == (if prov == 0 then a.provenanceGeneration else prov)
    && b.dependencyGeneration == (if dep == 0 then a.dependencyGeneration else dep)
    && b.modelGeneration == (if model == 0 then a.modelGeneration else model)
    && b.policyGeneration == (if policy == 0 then a.policyGeneration else policy)
    && b.attemptId == (if attempt == 0 || attemptGen == 0 then a.attemptId else attempt)
    && b.attemptGeneration == (if attempt == 0 || attemptGen == 0 then a.attemptGeneration else attemptGen)
    && b.epoch == a.epoch && b.boots == a.boots && b.artifactGeneration == a.artifactGeneration
    && b.adapterGeneration == a.adapterGeneration && b.compositionGeneration == a.compositionGeneration
  }

  lemma ChangesMean(a: F.Authority, state: u64, prov: u64, dep: u64, model: u64, attempt: u64, attemptGen: u64,
                    policy: u64)
    ensures Adopted(a, F.ApplyAll(a, Changes(state, prov, dep, model, attempt, attemptGen, policy)),
                    state, prov, dep, model, attempt, attemptGen, policy)
  {
    var t := if attempt != 0 && attemptGen != 0 then [F.BeginAttempt(attempt, attemptGen)] else [];
    var x := F.ApplyAll(a, []);
    assert Changes(state, prov, dep, model, attempt, attemptGen, policy) ==
           [] + Unless(state, F.StateGeneration) + Unless(prov, F.ProvenanceGeneration) +
           Unless(dep, F.DependencyGeneration) + Unless(model, F.ModelGeneration) + t +
           Unless(policy, F.PolicyGeneration);
    var cs, x1 := ApplyUnless(a, [], x, state, F.StateGeneration);
    var cp, x2 := ApplyUnless(a, cs, x1, prov, F.ProvenanceGeneration);
    var cd, x3 := ApplyUnless(a, cp, x2, dep, F.DependencyGeneration);
    var cm, x4 := ApplyUnless(a, cd, x3, model, F.ModelGeneration);
    ApplyJoined(a, cm, t);
    var x5 := F.ApplyAll(a, cm + t);
    var cq, x6 := ApplyUnless(a, cm + t, x5, policy, F.PolicyGeneration);
  }

  lemma ApplyUnless(a: F.Authority, chs: seq<F.Change>, x: F.Authority, v: u64, d: F.FenceDimension)
    returns (next: seq<F.Change>, y: F.Authority)
    requires x == F.ApplyAll(a, chs) && F.Position(d) >= F.Position(F.StateGeneration)
    ensures next == chs + Unless(v, d) && y == F.ApplyAll(a, next)
    ensures y == F.Apply(x, F.SetGeneration(d, if v == 0 then F.Current(x, d) else v))
  {
    next := chs + Unless(v, d);
    y := F.ApplyAll(a, next);
    ApplyJoined(a, chs, Unless(v, d));
  }

  /** At most one more change, applied last. */
  lemma ApplyJoined(a: F.Authority, chs: seq<F.Change>, more: seq<F.Change>)
    requires |more| <= 1
    ensures F.ApplyAll(a, chs + more) ==
            (if more == [] then F.ApplyAll(a, chs) else F.Apply(F.ApplyAll(a, chs), more[0]))
  {
    if more == [] { assert chs + more == chs; } else { F.ApplyAllSnoc(a, chs, more[0]); assert more == [more[0]]; }
  }
}
