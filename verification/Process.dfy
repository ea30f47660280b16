/** The coordinator across its lifetimes (coordinator.cpp): the concurrent machine, the
    snapshot files it saves on request, and starts of a new process, on a file or empty. */
module Process {
  import opened Ids
  import opened Records
  import opened Registry
  import opened SnapshotCodec
  import opened SnapshotFile
  import F = Fence
  import C = Coordinator
  import L = Lifetimes
  import Runs
  import Durability
  import FileIntegrity

  /** start: the store this process began with; taken: every snapshot ever taken, by the step
      it was taken at; pending: those this process has still to write. */
  datatype System = System(
    machine: C.Machine, start: State, clock: nat,
    taken: map<nat, Snapshot>, pending: set<nat>, files: map<nat, Bytes>)

  datatype Action =
    | Work(action: C.Action)
    | Take                     // a Save request takes its snapshot, under the store's lock,
    | Write(at: nat)           // and writes the file later, outside it
    | Load(at: nat, handlers: nat, snapshot: Snapshot)
    | StartEmpty(handlers: nat)

  function Deployed(handlers: nat): System {
    System(C.Begin(Empty, handlers), Empty, 0, map[], {}, map[])
  }

  /** A new process: what was not written by the old one never will be. */
  function Started(s: System, st: State, handlers: nat): System {
    s.(machine := C.Begin(st, handlers), start := st, pending := {}, clock := s.clock + 1)
  }

  ghost predicate Step(s: System, a: Action, t: System) {
    match a
    case Work(b) =>
      C.Step(s.machine, b, t.machine) && t == s.(machine := t.machine, clock := s.clock + 1)
    case Take =>
      t == s.(taken := s.taken[s.clock := TakeSnapshot(s.machine.store)], pending := s.pending + {s.clock},
              clock := s.clock + 1)
    case Write(k) =>
      && k in s.pending && k in s.taken
      && t == s.(pending := s.pending - {k}, files := Written(s.files, k, s.taken[k]), clock := s.clock + 1)
    case Load(k, handlers, snapshot) =>
      k in s.files && Accepted(s.files[k], snapshot) && t == Started(s, Restore(snapshot).0, handlers)
    case StartEmpty(handlers) => t == Started(s, Empty, handlers)
  }

  /** Nothing is written of a snapshot with too long a string. */
  ghost function Written(files: map<nat, Bytes>, k: nat, s: Snapshot): map<nat, Bytes> {
    if Writable(s) then files[k := FileBytes(0, Encoded(s))] else files
  }

  ghost predicate IsDeployment(ss: seq<System>, acts: seq<Action>) {
    && |ss| == |acts| + 1 && (exists handlers :: ss[0] == Deployed(handlers))
    && forall i :: 0 <= i < |acts| ==> StepOf(ss, acts, i)
  }

  ghost predicate StepOf(ss: seq<System>, acts: seq<Action>, i: nat)
    requires i < |acts| && |ss| == |acts| + 1
  {
    Step(ss[i], acts[i], ss[i + 1])
  }

  // --------------------------------------------------------------- what always holds

  ghost predicate Agree<A, B>(files: map<nat, A>, taken: map<nat, B>, ok: (A, B) -> bool) {
    forall k :: k in files ==> k in taken && ok(files[k], taken[k])
  }

  lemma AgreeWritten<A, B>(files: map<nat, A>, taken: map<nat, B>, ok: (A, B) -> bool, k: nat, v: A)
    requires Agree(files, taken, ok) && k in taken && ok(v, taken[k])
    ensures Agree(files[k := v], taken, ok)
  {
  }

  lemma AgreeTaken<A, B>(files: map<nat, A>, taken: map<nat, B>, ok: (A, B) -> bool, k: nat, s: B)
    requires Agree(files, taken, ok) && k !in taken
    ensures Agree(files, taken[k := s], ok)
  {
  }

  ghost predicate IsFileOf(bytes: Bytes, s: Snapshot) {
    Writable(s) && bytes == FileBytes(0, Encoded(s))
  }

  /** The files hold just the bytes of snapshots taken, by the steps they were taken at. */
  ghost predicate FilesTrue(s: System) {
    && (forall k :: k in s.taken ==> k < s.clock)
    && s.pending <= s.taken.Keys
    && Agree(s.files, s.taken, IsFileOf)
  }

  /** Snapshot k is that of the store at step k. */
  ghost predicate TakenAt(ss: seq<System>, acts: seq<Action>, s: System, k: nat) {
    && k < |acts| < |ss| && acts[k] == Take && k in s.taken
    && s.taken[k] == TakeSnapshot(ss[k].machine.store)
  }

  ghost predicate AllTaken(ss: seq<System>, acts: seq<Action>, s: System) {
    forall k :: k in s.taken ==> TakenAt(ss, acts, s, k)
  }

  /** The process keeps the invariant of its machine, relative to the store it started with. */
  ghost predicate Sane(s: System) {
    Runs.Consistent(s.start) && C.Inv(s.machine, s.start) && FilesTrue(s)
  }

  lemma StartedSane(s: System, st: State, handlers: nat)
    requires FilesTrue(s) && Runs.Consistent(st)
    ensures Sane(Started(s, st, handlers))
  {
    C.BeginInv(st, handlers);
  }

  /** What a file gives back is the store at the step its snapshot was taken. */
  lemma LoadedIs(s: System, k: nat, st: State, v: Snapshot)
    requires FilesTrue(s) && k in s.files && k in s.taken && s.taken[k] == TakeSnapshot(st)
    requires Runs.Consistent(st) && Accepted(s.files[k], v)
    ensures v == TakeSnapshot(st) && Restore(v) == (Runs.Recovered(st), Restored)
  {
    Durability.RecordsListed(st.records);
    FileIntegrity.SaveThenLoad(TakeSnapshot(st), v);
    Runs.RestoreOfSnapshot(st);
  }

  lemma StepFiles(s: System, a: Action, t: System)
    requires FilesTrue(s) && Step(s, a, t)
    ensures FilesTrue(t) && t.clock == s.clock + 1
  {
    match a
    case Take => AgreeTaken(s.files, s.taken, IsFileOf, s.clock, TakeSnapshot(s.machine.store));
    case Write(k) => WrittenAgree(s.files, s.taken, k);
    case _ =>
  }

  lemma WrittenAgree(files: map<nat, Bytes>, taken: map<nat, Snapshot>, k: nat)
    requires Agree(files, taken, IsFileOf) && k in taken
    ensures Agree(Written(files, k, taken[k]), taken, IsFileOf)
  {
    if Writable(taken[k]) { AgreeWritten(files, taken, IsFileOf, k, FileBytes(0, Encoded(taken[k]))); }
  }

  lemma StepSane(s: System, a: Action, t: System)
    requires Sane(s) && Step(s, a, t)
    requires a.Load? ==> Runs.Consistent(Restore(a.snapshot).0)
    ensures Sane(t)
  {
    StepFiles(s, a, t);
    match a
    case Work(b) => C.StepKeepsInv(s.machine, b, t.machine, s.start);
    case Take =>
    case Write(k) =>
    case Load(_, handlers, v) => StartedSane(s, Restore(v).0, handlers);
    case StartEmpty(handlers) =>
      Runs.EmptyConsistent();
      StartedSane(s, Empty, handlers);
  }

  lemma StepTaken(ss: seq<System>, acts: seq<Action>, j: nat)
    requires j < |acts| < |ss| && Step(ss[j], acts[j], ss[j + 1])
    requires AllTaken(ss, acts, ss[j]) && ss[j].clock == j
    ensures AllTaken(ss, acts, ss[j + 1]) && ss[j + 1].clock == j + 1
  {
    var s, t := ss[j], ss[j + 1];
    forall k | k in t.taken ensures TakenAt(ss, acts, t, k) {
      if k in s.taken { assert TakenAt(ss, acts, s, k); }
    }
  }

  /** The process is sane, and every snapshot is of the store at the step it names. */
  ghost predicate SaneAt(ss: seq<System>, acts: seq<Action>, j: nat)
    requires j < |ss|
  {
    Sane(ss[j]) && AllTaken(ss, acts, ss[j]) && ss[j].clock == j
  }

  /** Over every deployment, through all its saves and starts: each process keeps the
      coordinator's invariant relative to the store it started with, and the files hold
      snapshots of stores there have been. */
  lemma {:induction false} DeploymentSane(ss: seq<System>, acts: seq<Action>, j: nat)
    requires IsDeployment(ss, acts) && j <= |acts|
    ensures SaneAt(ss, acts, j)
    decreases j, 0
  {
    if j == 0 {
      FirstSane(ss, acts);
    } else {
      SaneNext(ss, acts, j - 1, j);
    }
  }

  lemma SaneNext(ss: seq<System>, acts: seq<Action>, i: nat, j: nat)
    requires IsDeployment(ss, acts) && i < |acts| && j == i + 1
    ensures SaneAt(ss, acts, j)
    decreases i, 2
  {
    DeploymentSane(ss, acts, i);
    StepAt(ss, acts, i);
    if acts[i].Load? { LoadSane(ss, acts, i); }
    StepSane(ss[i], acts[i], ss[i + 1]);
    StepTaken(ss, acts, i);
  }

  lemma FirstSane(ss: seq<System>, acts: seq<Action>)
    requires IsDeployment(ss, acts)
    ensures SaneAt(ss, acts, 0)
  {
    var handlers :| ss[0] == Deployed(handlers);
    DeployedSane(handlers);
  }

  lemma DeployedSane(handlers: nat)
    ensures Sane(Deployed(handlers))
  {
    Runs.EmptyConsistent();
    C.BeginInv(Empty, handlers);
  }

  lemma StepAt(ss: seq<System>, acts: seq<Action>, i: nat)
    requires IsDeployment(ss, acts) && i < |acts|
    ensures Step(ss[i], acts[i], ss[i + 1])
  {
    assert StepOf(ss, acts, i);
  }

  lemma LoadSane(ss: seq<System>, acts: seq<Action>, i: nat)
    requires IsDeployment(ss, acts) && i < |acts| && acts[i].Load?
    requires SaneAt(ss, acts, i)
    ensures acts[i].at < i && acts[acts[i].at] == Take
    ensures acts[i].snapshot == TakeSnapshot(ss[acts[i].at].machine.store)
    ensures Runs.Consistent(Restore(acts[i].snapshot).0)
    decreases i, 1
  {
    StepAt(ss, acts, i);
    var k := acts[i].at;
    assert TakenAt(ss, acts, ss[i], k);
    DeploymentSane(ss, acts, k);
    var st := ss[k].machine.store;
    LoadedIs(ss[i], k, st, acts[i].snapshot);
    Runs.RecoveredConsistent(st);
  }

  // ----------------------------------------------- a deployment is a history of its store

  /** What an action is to the store. */
  ghost function EventOf(s: System, a: Action): L.Event {
    match a
    case Work(b) =>
      (match b
       case Insert(h) =>
         if h < |s.machine.pcs| && s.machine.pcs[h].Checked? then L.Work(Runs.PublishOp(s.machine.pcs[h].call.data))
         else L.Quiet
       case Change(ch) => L.Work(Runs.AuthorityOp(ch))
       case _ => L.Quiet)
    case Take => L.Save
    case Write(_) => L.Quiet
    case Load(k, _, _) => L.Restart(k)
    case StartEmpty(_) => L.StartEmpty
  }

  ghost function Stores(ss: seq<System>): seq<State> {
    seq(|ss|, i requires 0 <= i < |ss| => ss[i].machine.store)
  }

  ghost function Events(ss: seq<System>, acts: seq<Action>): seq<L.Event>
    requires |ss| == |acts| + 1
  {
    seq(|acts|, i requires 0 <= i < |acts| => EventOf(ss[i], acts[i]))
  }

  /** Whatever interleaving, saving and restarting there is, the store goes through a history
      of publishes, authority changes, saves and restarts, so all that is known of those holds
      of the coordinator. */
  lemma DeploymentIsHistory(ss: seq<System>, acts: seq<Action>)
    requires IsDeployment(ss, acts)
    ensures L.IsHistory(Stores(ss), Events(ss, acts)) && Stores(ss)[0] == Empty
  {
    var sts, es := Stores(ss), Events(ss, acts);
    forall i | 0 <= i < |es| ensures L.Next(sts, es, i) { EventNext(ss, acts, i); }
    FirstEmpty(ss, acts);
  }

  lemma FirstEmpty(ss: seq<System>, acts: seq<Action>)
    requires IsDeployment(ss, acts)
    ensures ss[0].machine.store == Empty
  {
  }

  lemma EventNext(ss: seq<System>, acts: seq<Action>, i: nat)
    requires IsDeployment(ss, acts) && i < |acts|
    ensures L.Next(Stores(ss), Events(ss, acts), i)
  {
    if acts[i].Load? { LoadEvent(ss, acts, i); } else { OtherEvent(ss, acts, i); }
  }

  lemma LoadEvent(ss: seq<System>, acts: seq<Action>, i: nat)
    requires IsDeployment(ss, acts) && i < |acts| && acts[i].Load?
    ensures L.Next(Stores(ss), Events(ss, acts), i)
  {
    var k := acts[i].at;
    var st := LoadedFrom(ss, acts, i, k);
    var next := LoadStarts(ss, acts, i);
    EventsAt(ss, acts, i, k);
    Reloaded(acts[i].snapshot, st, next);
    L.RestartNext(Stores(ss), Events(ss, acts), i, k, st, next);
  }

  lemma Reloaded(v: Snapshot, st: State, next: State)
    requires v == TakeSnapshot(st) && next == Restore(v).0
    ensures next == Restore(TakeSnapshot(st)).0
  {
  }

  lemma EventsAt(ss: seq<System>, acts: seq<Action>, i: nat, k: nat)
    requires |ss| == |acts| + 1 && k < i < |acts| && acts[k] == Take && acts[i].Load? && acts[i].at == k
    ensures Events(ss, acts)[k] == L.Save && Events(ss, acts)[i] == L.Restart(k)
  {
  }

  /** What is loaded is the snapshot of the store at the step it was taken. */
  lemma LoadedFrom(ss: seq<System>, acts: seq<Action>, i: nat, k: nat) returns (st: State)
    requires IsDeployment(ss, acts) && i < |acts| && acts[i].Load? && k == acts[i].at
    ensures k < i && acts[k] == Take && st == ss[k].machine.store == Stores(ss)[k]
    ensures acts[i].snapshot == TakeSnapshot(st)
  {
    DeploymentSane(ss, acts, i);
    LoadSane(ss, acts, i);
    st := ss[k].machine.store;
  }

  lemma LoadStarts(ss: seq<System>, acts: seq<Action>, i: nat) returns (next: State)
    requires IsDeployment(ss, acts) && i < |acts| && acts[i].Load?
    ensures next == Stores(ss)[i + 1] && next == Restore(acts[i].snapshot).0
  {
    StepAt(ss, acts, i);
    next := ss[i + 1].machine.store;
  }

  lemma OtherEvent(ss: seq<System>, acts: seq<Action>, i: nat)
    requires IsDeployment(ss, acts) && i < |acts| && !acts[i].Load?
    ensures L.Next(Stores(ss), Events(ss, acts), i)
  {
    EventMovesAt(ss, acts, i);
    var sts, es := Stores(ss), Events(ss, acts);
    assert es[i] == EventOf(ss[i], acts[i]);
    assert sts[i + 1] == ss[i + 1].machine.store && sts[i] == ss[i].machine.store;
    L.MovesNext(sts, es, i);
  }

  lemma EventMovesAt(ss: seq<System>, acts: seq<Action>, i: nat)
    requires IsDeployment(ss, acts) && i < |acts| && !acts[i].Load?
    ensures L.Moves(EventOf(ss[i], acts[i]), ss[i].machine.store, ss[i + 1].machine.store)
    ensures !EventOf(ss[i], acts[i]).Restart?
  {
    StepAt(ss, acts, i);
    EventMoves(ss[i], acts[i], ss[i + 1]);
  }

  lemma EventMoves(s: System, a: Action, t: System)
    requires Step(s, a, t) && !a.Load?
    ensures L.Moves(EventOf(s, a), s.machine.store, t.machine.store) && !EventOf(s, a).Restart?
  {
    if a.Work? {
      match a.action
      case Insert(h) => InsertMoves(s.machine, h, t.machine);
      case _ =>
    }
  }

  lemma InsertMoves(m: C.Machine, h: nat, n: C.Machine)
    requires C.Step(m, C.Insert(h), n)
    ensures h < |m.pcs| && m.pcs[h].Checked? && n.store == Publish(m.store, m.pcs[h].call.data)
  {
  }

  /** Fencing of the coordinator across saves and restarts: a claim that some store of the
      deployment accepted, of a worker known to it or anonymous, is accepted by a store that
      descends from it exactly if the authority changes on the line between are harmless. */
  lemma DeploymentFencedIff(ss: seq<System>, acts: seq<Action>, i: nat, n: nat, c: F.Claim)
    requires IsDeployment(ss, acts) && i <= n <= |acts|
    requires var es := Events(ss, acts); var st := ss[i].machine.store;
             L.OnLine(es, i, n) && L.Knows(st, c.workerId) && F.Evaluate(st.authority, c) == F.Accept
    ensures F.Evaluate(ss[n].machine.store.authority, c) == F.Accept <==>
            F.Harmless(L.ChangesOnLine(Stores(ss), Events(ss, acts), i, n), c)
  {
    DeploymentIsHistory(ss, acts);
    Runs.EmptyConsistent();
    L.FencedIff(Stores(ss), Events(ss, acts), i, n, c);
  }

  // --------------------------------------------------------- each lifetime on its own

  ghost predicate IsLifetime(ms: seq<C.Machine>, works: seq<C.Action>, handlers: nat, s: System) {
    C.IsHistory(ms, works, s.start, handlers) && ms[|works|] == s.machine
  }

  lemma LifetimeNext(ms: seq<C.Machine>, works: seq<C.Action>, handlers: nat, s: System, b: C.Action, t: System)
    requires IsLifetime(ms, works, handlers, s) && C.Step(s.machine, b, t.machine) && t.start == s.start
    ensures IsLifetime(ms + [t.machine], works + [b], handlers, t)
  {
    var ns, bs := ms + [t.machine], works + [b];
    forall i | 0 <= i < |bs| ensures C.Step(ns[i], bs[i], ns[i + 1]) {
      if i < |works| { assert C.Step(ms[i], works[i], ms[i + 1]); }
    }
  }

  /** Since its process started, the machine has gone through a history of the concurrent
      coordinator, so what is known of those histories holds within every lifetime. */
  lemma {:induction false} LifetimeIsHistory(ss: seq<System>, acts: seq<Action>, j: nat)
    returns (ms: seq<C.Machine>, works: seq<C.Action>, handlers: nat)
    requires IsDeployment(ss, acts) && j <= |acts|
    ensures IsLifetime(ms, works, handlers, ss[j])
    decreases j
  {
    StartConsistent(ss, acts, j);
    if j == 0 {
      handlers :| ss[0] == Deployed(handlers);
      ms, works := [ss[0].machine], [];
    } else {
      ms, works, handlers := LifetimeIsHistory(ss, acts, j - 1);
      StepAt(ss, acts, j - 1);
      ms, works, handlers := LifetimeStep(ms, works, handlers, ss[j - 1], acts[j - 1], ss[j]);
    }
  }

  lemma StartConsistent(ss: seq<System>, acts: seq<Action>, j: nat)
    requires IsDeployment(ss, acts) && j <= |acts|
    ensures Runs.Consistent(ss[j].start)
  {
    DeploymentSane(ss, acts, j);
  }

  lemma LifetimeStep(ms: seq<C.Machine>, works: seq<C.Action>, handlers: nat, s: System, a: Action, t: System)
    returns (ns: seq<C.Machine>, bs: seq<C.Action>, hs: nat)
    requires IsLifetime(ms, works, handlers, s) && Step(s, a, t) && Runs.Consistent(t.start)
    ensures IsLifetime(ns, bs, hs, t)
  {
    ns, bs, hs := ms, works, handlers;
    match a
    case Work(b) =>
      LifetimeNext(ms, works, handlers, s, b, t);
      ns, bs := ms + [t.machine], works + [b];
    case Load(_, h, _) =>
      LifetimeBegins(t, h);
      ns, bs, hs := [t.machine], [], h;
    case StartEmpty(h) =>
      LifetimeBegins(t, h);
      ns, bs, hs := [t.machine], [], h;
    case _ => LifetimeSame(ms, works, handlers, s, t);
  }

  lemma LifetimeBegins(t: System, handlers: nat)
    requires t.machine == C.Begin(t.start, handlers) && Runs.Consistent(t.start)
    ensures IsLifetime([t.machine], [], handlers, t)
  {
  }

  lemma LifetimeSame(ms: seq<C.Machine>, works: seq<C.Action>, handlers: nat, s: System, t: System)
    requires IsLifetime(ms, works, handlers, s) && t.machine == s.machine && t.start == s.start
    ensures IsLifetime(ms, works, handlers, t)
  {
  }
}
