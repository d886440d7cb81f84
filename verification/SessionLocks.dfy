/**
 The locks of the synchronous sessions: a bucket lock of the concurrent session map, held only to
 look an entry up, and one mutex per session, held across the remote call.
 */
module SessionLocks {
  import opened Sequences

  type Tid = nat
  type Sid = nat
  type Ref = nat

  /** What a call does with its map entry: insert it, copy its reference, or remove it. */
  datatype Access = Insert | Use | Remove

  datatype Pc =
    | WantBucket(sid: Sid, access: Access)
    | HoldBucket(sid: Sid, access: Access)
    | WantMutex(ref: Ref)
    | Inside(ref: Ref)

  /**
   `pc` has an entry for each thread inside a session call; `on` is the session of its last call, and
   `made` the session each reference was made for.
   */
  datatype State = State(
    sessions: map<Sid, Ref>,
    made: seq<Sid>,
    bucket: map<nat, Tid>,
    mutex: map<Ref, Tid>,
    pc: map<Tid, Pc>,
    on: map<Tid, Sid>)

  const INIT: State := State(map[], [], map[], map[], map[], map[])

  datatype Step =
    | Begin(t: Tid, sid: Sid, access: Access)
    | Acquire(t: Tid)
    | Look(t: Tid)
    | Lock(t: Tid)
    | Leave(t: Tid)

  /** How session ids fall into buckets is up to the map. */
  type Hash = Sid -> nat

  predicate Enabled(h: Hash, s: State, step: Step) {
    match step
    case Begin(t, _, _) => t !in s.pc
    case Acquire(t) => t in s.pc && s.pc[t].WantBucket? && h(s.pc[t].sid) !in s.bucket
    case Look(t) => t in s.pc && s.pc[t].HoldBucket?
    case Lock(t) => t in s.pc && s.pc[t].WantMutex? && s.pc[t].ref !in s.mutex
    case Leave(t) => t in s.pc && s.pc[t].Inside?
  }

  /**
   Looking up copies the reference and lets the bucket go before anything else happens; an insert
   leaves an existing entry alone.
   */
  function Next(h: Hash, s: State, step: Step): State
    requires Enabled(h, s, step)
  {
    match step
    case Begin(t, sid, access) => s.(pc := s.pc[t := WantBucket(sid, access)], on := s.on[t := sid])
    case Acquire(t) =>
      s.(bucket := s.bucket[h(s.pc[t].sid) := t],
         pc := s.pc[t := HoldBucket(s.pc[t].sid, s.pc[t].access)])
    case Look(t) =>
      var sid := s.pc[t].sid;
      var free := s.bucket - {h(sid)};
      (match s.pc[t].access
       case Insert =>
         s.(sessions := if sid in s.sessions then s.sessions else s.sessions[sid := |s.made|],
            made := s.made + [sid], bucket := free, pc := s.pc - {t})
       case Use =>
         s.(bucket := free, pc := if sid in s.sessions then s.pc[t := WantMutex(s.sessions[sid])] else s.pc - {t})
       case Remove =>
         s.(bucket := free, sessions := s.sessions - {sid},
            pc := if sid in s.sessions then s.pc[t := WantMutex(s.sessions[sid])] else s.pc - {t}))
    case Lock(t) => s.(mutex := s.mutex[s.pc[t].ref := t], pc := s.pc[t := Inside(s.pc[t].ref)])
    case Leave(t) => s.(mutex := s.mutex - {s.pc[t].ref}, pc := s.pc - {t})
  }

  function Do(h: Hash, s: State, step: Step): State {
    if Enabled(h, s, step) then Next(h, s, step) else s
  }

  function Continue(h: Hash, s: State, steps: seq<Step>): State {
    if steps == [] then s else Do(h, Continue(h, s, steps[..|steps| - 1]), steps[|steps| - 1])
  }

  function After(h: Hash, steps: seq<Step>): State {
    Continue(h, INIT, steps)
  }

  /** A bucket is held by exactly the thread whose position says so. */
  ghost predicate BucketInv(h: Hash, s: State) {
    && (forall b :: b in s.bucket ==>
       s.bucket[b] in s.pc && s.pc[s.bucket[b]].HoldBucket? && h(s.pc[s.bucket[b]].sid) == b)
    && (forall t :: t in s.pc && s.pc[t].HoldBucket? ==> h(s.pc[t].sid) in s.bucket && s.bucket[h(s.pc[t].sid)] == t)
  }

  /** And so is a session mutex. */
  ghost predicate MutexInv(s: State) {
    && (forall r :: r in s.mutex ==> s.mutex[r] in s.pc && s.pc[s.mutex[r]] == Inside(r))
    && (forall t :: t in s.pc && s.pc[t].Inside? ==> s.pc[t].ref in s.mutex && s.mutex[s.pc[t].ref] == t)
  }

  ghost predicate Inv(h: Hash, s: State) {
    BucketInv(h, s) && MutexInv(s)
  }

  lemma TakeBucket(h: Hash, s: State, step: Step)
    requires BucketInv(h, s) && Enabled(h, s, step) && step.Acquire?
    ensures BucketInv(h, Next(h, s, step))
  {
  }

  /** Thread `t` gives its bucket back, whatever it does next. */
  lemma DropBucket(h: Hash, s: State, u: State, t: Tid)
    requires BucketInv(h, s) && t in s.pc && s.pc[t].HoldBucket? && u.bucket == s.bucket - {h(s.pc[t].sid)}
    requires t in u.pc ==> !u.pc[t].HoldBucket?
    requires forall v :: v != t ==> (v in u.pc <==> v in s.pc) && (v in s.pc ==> u.pc[v] == s.pc[v])
    ensures BucketInv(h, u)
  {
  }

  lemma LetBucketGo(h: Hash, s: State, step: Step)
    requires BucketInv(h, s) && Enabled(h, s, step) && step.Look?
    ensures BucketInv(h, Next(h, s, step))
  {
    DropBucket(h, s, Next(h, s, step), step.t);
  }

  lemma StepBucket(h: Hash, s: State, step: Step)
    requires BucketInv(h, s) && Enabled(h, s, step)
    ensures BucketInv(h, Next(h, s, step))
  {
    match step
    case Begin(_, _, _) =>
    case Acquire(_) => TakeBucket(h, s, step);
    case Look(_) => LetBucketGo(h, s, step);
    case Lock(_) =>
    case Leave(_) =>
  }

  lemma TakeMutex(h: Hash, s: State, step: Step)
    requires MutexInv(s) && Enabled(h, s, step) && step.Lock?
    ensures MutexInv(Next(h, s, step))
  {
  }

  lemma LetMutexGo(h: Hash, s: State, step: Step)
    requires MutexInv(s) && Enabled(h, s, step) && step.Leave?
    ensures MutexInv(Next(h, s, step))
  {
  }

  lemma KeepMutex(s: State, t: State, who: Tid)
    requires MutexInv(s) && t.mutex == s.mutex && (who in s.pc ==> !s.pc[who].Inside?)
             && (who in t.pc ==> !t.pc[who].Inside?)
    requires forall u :: u != who ==> (u in t.pc <==> u in s.pc) && (u in s.pc ==> t.pc[u] == s.pc[u])
    ensures MutexInv(t)
  {
  }

  lemma StepMutex(h: Hash, s: State, step: Step)
    requires MutexInv(s) && Enabled(h, s, step)
    ensures MutexInv(Next(h, s, step))
  {
    match step
    case Begin(t, _, _) => KeepMutex(s, Next(h, s, step), t);
    case Acquire(t) => KeepMutex(s, Next(h, s, step), t);
    case Look(t) => KeepMutex(s, Next(h, s, step), t);
    case Lock(_) => TakeMutex(h, s, step);
    case Leave(_) => LetMutexGo(h, s, step);
  }

  lemma StepInv(h: Hash, s: State, step: Step)
    requires Inv(h, s) && Enabled(h, s, step)
    ensures Inv(h, Next(h, s, step))
  {
    StepBucket(h, s, step);
    StepMutex(h, s, step);
  }

  lemma {:induction false} RunInv(h: Hash, steps: seq<Step>)
    ensures Inv(h, After(h, steps))
  {
    if steps != [] {
      RunInv(h, steps[..|steps| - 1]);
      var s := After(h, steps[..|steps| - 1]);
      if Enabled(h, s, steps[|steps| - 1]) { StepInv(h, s, steps[|steps| - 1]); }
    }
  }

  /** At most one thread is inside the closure of a session. */
  lemma MutualExclusion(h: Hash, steps: seq<Step>, t: Tid, u: Tid)
    requires var s := After(h, steps); t in s.pc && u in s.pc && s.pc[t].Inside? && s.pc[t] == s.pc[u]
    ensures t == u
  {
    RunInv(h, steps);
  }

  /** `t` is blocked on a lock that `u` holds. */
  predicate WaitsFor(h: Hash, s: State, t: Tid, u: Tid) {
    t in s.pc && match s.pc[t]
                 case WantBucket(sid, _) => h(sid) in s.bucket && s.bucket[h(sid)] == u
                 case WantMutex(r) => r in s.mutex && s.mutex[r] == u
                 case _ => false
  }

  /** The thread's own next step. */
  function OwnStep(s: State, t: Tid): Step
    requires t in s.pc
  {
    match s.pc[t]
    case WantBucket(_, _) => Acquire(t)
    case HoldBucket(_, _) => Look(t)
    case WantMutex(_) => Lock(t)
    case Inside(_) => Leave(t)
  }

  /** A thread is stuck exactly when it waits for another, and a thread that others wait for is never stuck. */
  lemma HoldersNeverWait(h: Hash, steps: seq<Step>, t: Tid)
    requires t in After(h, steps).pc
    ensures var s := After(h, steps);
            && (!Enabled(h, s, OwnStep(s, t)) <==> exists u :: WaitsFor(h, s, t, u))
            && forall u :: WaitsFor(h, s, t, u) ==>
               u in s.pc && Enabled(h, s, OwnStep(s, u)) && forall v :: !WaitsFor(h, s, u, v)
  {
    RunInv(h, steps);
    var s := After(h, steps);
    if !Enabled(h, s, OwnStep(s, t)) {
      match s.pc[t]
      case WantBucket(sid, _) => assert WaitsFor(h, s, t, s.bucket[h(sid)]);
      case WantMutex(r) => assert WaitsFor(h, s, t, s.mutex[r]);
    }
  }

  /** Whenever a call is in progress, some call can go on. */
  lemma DeadlockFree(h: Hash, steps: seq<Step>, t: Tid)
    requires t in After(h, steps).pc
    ensures var s := After(h, steps); exists u :: u in s.pc && Enabled(h, s, OwnStep(s, u))
  {
    var s := After(h, steps);
    HoldersNeverWait(h, steps, t);
    if u :| WaitsFor(h, s, t, u) { assert u in s.pc; }
  }

  /** `t` waits for `u` over a lock, or through the server. */
  predicate Waits(h: Hash, s: State, remote: set<(Tid, Tid)>, t: Tid, u: Tid) {
    WaitsFor(h, s, t, u) || (t, u) in remote
  }

  /** A closed walk: each thread waits for the next, and the last is the first. */
  predicate Cycle(h: Hash, s: State, remote: set<(Tid, Tid)>, ts: seq<Tid>) {
    && |ts| >= 2 && ts[0] == ts[|ts| - 1]
    && forall i, j :: 0 <= i < |ts| && 0 <= j < |ts| && j == i + 1 ==> Waits(h, s, remote, ts[i], ts[j])
  }

  lemma TwoWaits(h: Hash, s: State, remote: set<(Tid, Tid)>, t: Tid, u: Tid, v: Tid)
    requires Inv(h, s) && Waits(h, s, remote, t, u) && Waits(h, s, remote, u, v)
    requires forall e :: e in remote ==> e.0 in s.pc && s.pc[e.0].Inside?
    ensures t in s.pc && u in s.pc && !s.pc[t].WantBucket?
            && !s.pc[t].HoldBucket? && (s.pc[t].Inside? || s.pc[u].Inside?)
  {
  }

  /**
   Threads inside a closure may also wait for one another through the server, in any way. Even so, no
   wait cycle involves a bucket lock, and without such waits there is no cycle at all.
   */
  lemma BucketsNeverInCycles(h: Hash, steps: seq<Step>, remote: set<(Tid, Tid)>, ts: seq<Tid>)
    requires forall e :: e in remote ==> e.0 in After(h, steps).pc && After(h, steps).pc[e.0].Inside?
    requires Cycle(h, After(h, steps), remote, ts)
    ensures var s := After(h, steps);
            && (forall i :: 0 <= i < |ts| ==> ts[i] in s.pc && !s.pc[ts[i]].WantBucket? && !s.pc[ts[i]].HoldBucket?)
            && remote != {}
  {
    RunInv(h, steps);
    var s := After(h, steps);
    var last := |ts| - 1;
    forall i | 0 <= i < last ensures ts[i] in s.pc && !s.pc[ts[i]].WantBucket? && !s.pc[ts[i]].HoldBucket? {
      var k := if i + 1 == last then 1 else i + 2;
      assert Waits(h, s, remote, ts[i], ts[i + 1]) && Waits(h, s, remote, ts[i + 1], ts[k]);
      TwoWaits(h, s, remote, ts[i], ts[i + 1], ts[k]);
    }
    var k := if last == 1 then 1 else 2;
    assert Waits(h, s, remote, ts[0], ts[1]) && Waits(h, s, remote, ts[1], ts[k]);
    TwoWaits(h, s, remote, ts[0], ts[1], ts[k]);
    var u := if s.pc[ts[0]].Inside? then (ts[0], ts[1]) else (ts[1], ts[k]);
    assert u in remote;
  }

  // ----- closing a session others are using -----

  /** A live session has a reference made for it. */
  ghost predicate SessionRefs(s: State) {
    forall a :: a in s.sessions ==> s.sessions[a] < |s.made| && s.made[s.sessions[a]] == a
  }

  /** What the thread looks up, waits for or is inside of belongs to the session its call is on. */
  predicate OwnCall(s: State, t: Tid)
    requires t in s.pc
  {
    t in s.on && match s.pc[t]
                 case WantBucket(sid, _) => s.on[t] == sid
                 case HoldBucket(sid, _) => s.on[t] == sid
                 case WantMutex(r) => r < |s.made| && s.made[r] == s.on[t]
                 case Inside(r) => r < |s.made| && s.made[r] == s.on[t]
  }

  ghost predicate RefsInv(s: State) {
    SessionRefs(s) && forall t :: t in s.pc ==> OwnCall(s, t)
  }

  lemma StepSessions(h: Hash, s: State, step: Step)
    requires SessionRefs(s)
    ensures SessionRefs(Do(h, s, step))
  {
  }

  lemma StepCall(h: Hash, s: State, step: Step, t: Tid)
    requires SessionRefs(s) && (t in s.pc ==> OwnCall(s, t)) && t in Do(h, s, step).pc
    ensures OwnCall(Do(h, s, step), t)
  {
    if !Enabled(h, s, step) || step.t != t {
      KeepCall(s, Do(h, s, step), t);
    } else if step.Look? {
      LookCall(h, s, t);
    }
  }

  lemma KeepCall(s: State, u: State, t: Tid)
    requires t in s.pc && OwnCall(s, t) && t in u.pc && u.pc[t] == s.pc[t]
    requires t in u.on && u.on[t] == s.on[t] && s.made <= u.made
    ensures OwnCall(u, t)
  {
  }

  lemma LookCall(h: Hash, s: State, t: Tid)
    requires SessionRefs(s) && Enabled(h, s, Look(t)) && OwnCall(s, t) && t in Next(h, s, Look(t)).pc
    ensures OwnCall(Next(h, s, Look(t)), t)
  {
  }

  lemma StepRefs(h: Hash, s: State, step: Step)
    requires RefsInv(s)
    ensures RefsInv(Do(h, s, step))
  {
    StepSessions(h, s, step);
    forall t | t in Do(h, s, step).pc ensures OwnCall(Do(h, s, step), t) {
      StepCall(h, s, step, t);
    }
  }

  lemma {:induction false} RunRefs(h: Hash, steps: seq<Step>)
    ensures RefsInv(After(h, steps))
  {
    if steps != [] {
      RunRefs(h, steps[..|steps| - 1]);
      StepRefs(h, After(h, steps[..|steps| - 1]), steps[|steps| - 1]);
    }
  }

  /** The session that the step takes out of the map, if it takes one. */
  function Removed(s: State, step: Step): set<Sid> {
    if step.Look? && step.t in s.pc && s.pc[step.t].HoldBucket? && s.pc[step.t].access == Remove then {s.pc[step.t].sid}
    else {}
  }

  /** The session that the step would put into the map. */
  function Offered(s: State, step: Step): set<Sid> {
    if step.Look? && step.t in s.pc && s.pc[step.t].HoldBucket? && s.pc[step.t].access == Insert then {s.pc[step.t].sid}
    else {}
  }

  /** A session keeps its reference until a close takes it out, and only an insert of its own puts it in. */
  lemma SessionsKept(h: Hash, s: State, step: Step, a: Sid)
    ensures var t := Do(h, s, step);
            && (a in t.sessions <==> (a in s.sessions && a !in Removed(s, step)) || a in Offered(s, step))
            && (a in s.sessions && a in t.sessions ==> t.sessions[a] == s.sessions[a])
  {
  }

  /** Over every run, a call waits for, and enters the closure of, a reference made for its own session. */
  lemma OwnSessionOnly(h: Hash, steps: seq<Step>, t: Tid)
    requires var s := After(h, steps); t in s.pc && (s.pc[t].WantMutex? || s.pc[t].Inside?)
    ensures var s := After(h, steps); t in s.on && s.pc[t].ref < |s.made| && s.made[s.pc[t].ref] == s.on[t]
  {
    RunRefs(h, steps);
    assert OwnCall(After(h, steps), t);
  }

  /** The reference was handed out and is no longer in the map. */
  ghost predicate Gone(s: State, r: Ref) {
    r < |s.made| && forall a :: a in s.sessions ==> s.sessions[a] != r
  }

  /** The thread has copied the reference and is waiting for the session's mutex or inside its closure. */
  predicate Holding(s: State, t: Tid, r: Ref) {
    t in s.pc && (s.pc[t] == WantMutex(r) || s.pc[t] == Inside(r))
  }

  lemma GoneStep(h: Hash, s: State, step: Step, r: Ref, t: Tid)
    requires Gone(s, r)
    ensures Gone(Do(h, s, step), r) && (Holding(Do(h, s, step), t, r) ==> Holding(s, t, r))
  {
  }

  lemma {:induction false} GoneRun(h: Hash, s: State, steps: seq<Step>, r: Ref, t: Tid)
    requires Gone(s, r)
    ensures Gone(Continue(h, s, steps), r) && (Holding(Continue(h, s, steps), t, r) ==> Holding(s, t, r))
  {
    if steps != [] {
      GoneRun(h, s, steps[..|steps| - 1], r, t);
      GoneStep(h, Continue(h, s, steps[..|steps| - 1]), steps[|steps| - 1], r, t);
    }
  }

  predicate InsideAfter(h: Hash, s: State, steps: seq<Step>, t: Tid, r: Ref) {
    var after := Continue(h, s, steps);
    t in after.pc && after.pc[t] == Inside(r)
  }

  lemma {:induction false} ContinuePush(h: Hash, s: State, steps: seq<Step>, step: Step)
    ensures Continue(h, s, steps + [step]) == Do(h, Continue(h, s, steps), step)
  {
    assert (steps + [step])[..|steps|] == steps;
  }

  lemma GetsInFree(h: Hash, s: State, t: Tid, r: Ref)
    requires t in s.pc && s.pc[t] == WantMutex(r) && r !in s.mutex
    ensures Do(h, s, Lock(t)).pc == s.pc[t := Inside(r)]
  {
  }

  lemma GetsInNext(h: Hash, s: State, t: Tid, r: Ref)
    requires MutexInv(s) && t in s.pc && s.pc[t] == WantMutex(r) && r in s.mutex
    ensures var left := Do(h, s, Leave(s.mutex[r])); t in left.pc && left.pc[t] == WantMutex(r) && r !in left.mutex
  {
  }

  /** A thread that holds the reference gets in, at the latest when the one inside leaves. */
  lemma {:induction false} HolderGetsIn(h: Hash, s: State, t: Tid, r: Ref) returns (steps: seq<Step>)
    requires MutexInv(s) && Holding(s, t, r)
    ensures InsideAfter(h, s, steps, t, r)
  {
    if s.pc[t] == Inside(r) {
      steps := [];
    } else {
      var first := if r in s.mutex then [Leave(s.mutex[r])] else [];
      if r in s.mutex {
        GetsInNext(h, s, t, r);
        ContinuePush(h, s, [], first[0]);
        assert [] + [first[0]] == first;
      }
      GetsInFree(h, Continue(h, s, first), t, r);
      ContinuePush(h, s, first, Lock(t));
      steps := first + [Lock(t)];
    }
  }

  /**
   When a close takes a session out of the map, the threads that may still come to be inside the
   session's closure are exactly the closing one and those that had copied the reference before.
   */
  lemma ClosedToOthersExactly(h: Hash, steps: seq<Step>, closer: Tid, t: Tid)
    requires var s := After(h, steps);
             && closer in s.pc && s.pc[closer].HoldBucket? && s.pc[closer].access == Remove
             && s.pc[closer].sid in s.sessions
    ensures var s := After(h, steps);
            var r := s.sessions[s.pc[closer].sid];
            (exists more :: InsideAfter(h, Do(h, s, Look(closer)), more, t, r)) <==> t == closer || Holding(s, t, r)
  {
    var s := After(h, steps);
    var r, gone := s.sessions[s.pc[closer].sid], Do(h, s, Look(closer));
    RunRefs(h, steps);
    RunInv(h, steps);
    StepInv(h, s, Look(closer));
    assert Holding(gone, t, r) <==> t == closer || Holding(s, t, r);
    forall more | InsideAfter(h, gone, more, t, r) ensures Holding(gone, t, r) {
      GoneRun(h, gone, more, r, t);
    }
    if Holding(gone, t, r) {
      var more := HolderGetsIn(h, gone, t, r);
    }
  }

  /** A call from its start to the lookup, on session 0, while no other is looking. */
  function Call(h: Hash, s: State, t: Tid, access: Access): State {
    Continue(h, s, [Begin(t, 0, access), Acquire(t), Look(t)])
  }

  lemma {:induction false} ThreeSteps(h: Hash, s: State, a: Step, b: Step, c: Step)
    ensures Continue(h, s, [a, b, c]) == Do(h, Do(h, Do(h, s, a), b), c)
  {
    assert [] + [a] == [a] && [a] + [b] == [a, b] && [a, b] + [c] == [a, b, c];
    ContinuePush(h, s, [], a);
    ContinuePush(h, s, [a], b);
    ContinuePush(h, s, [a, b], c);
  }

  lemma CallLooks(h: Hash, s: State, t: Tid, access: Access)
    requires s.bucket == map[] && t !in s.pc
    ensures var held := s.(bucket := map[h(0) := t], pc := s.pc[t := HoldBucket(0, access)], on := s.on[t := 0]);
            Call(h, s, t, access) == Do(h, held, Look(t))
  {
    ThreeSteps(h, s, Begin(t, 0, access), Acquire(t), Look(t));
    var begun := Do(h, s, Begin(t, 0, access));
    assert begun == s.(pc := s.pc[t := WantBucket(0, access)], on := s.on[t := 0]);
    assert begun.pc[t := HoldBucket(0, access)] == s.pc[t := HoldBucket(0, access)];
  }

  lemma Opens(h: Hash)
    ensures Call(h, INIT, 0, Insert) == State(map[0 := 0], [0], map[], map[], map[], map[0 := 0])
  {
    CallLooks(h, INIT, 0, Insert);
    assert map[h(0) := 0] - {h(0)} == map[];
    assert map[0 := HoldBucket(0, Insert)] - {0} == map[];
  }

  lemma Uses(h: Hash, s: State, t: Tid)
    requires s.bucket == map[] && t !in s.pc && 0 in s.sessions
    ensures Call(h, s, t, Use) == s.(pc := s.pc[t := WantMutex(s.sessions[0])], on := s.on[t := 0])
  {
    CallLooks(h, s, t, Use);
    assert map[h(0) := t] - {h(0)} == map[];
    assert s.pc[t := HoldBucket(0, Use)][t := WantMutex(s.sessions[0])] == s.pc[t := WantMutex(s.sessions[0])];
  }

  lemma Removes(h: Hash, s: State, t: Tid)
    requires s.bucket == map[] && t !in s.pc && 0 in s.sessions
    ensures Call(h, s, t, Remove)
            == s.(sessions := s.sessions - {0}, pc := s.pc[t := WantMutex(s.sessions[0])], on := s.on[t := 0])
  {
    CallLooks(h, s, t, Remove);
    assert map[h(0) := t] - {h(0)} == map[];
    assert s.pc[t := HoldBucket(0, Remove)][t := WantMutex(s.sessions[0])] == s.pc[t := WantMutex(s.sessions[0])];
  }

  lemma PassesThrough(h: Hash, s: State, t: Tid, r: Ref)
    requires t in s.pc && s.pc[t] == WantMutex(r) && r !in s.mutex
    ensures Do(h, Do(h, s, Lock(t)), Leave(t)) == s.(pc := s.pc - {t})
  {
    assert s.mutex[r := t] - {r} == s.mutex;
    assert s.pc[t := Inside(r)] - {t} == s.pc - {t};
  }

  /**
   Thread 1 looks a session up, and thread 2 closes it and returns; thread 1 then still enters its closure.
   */
  lemma EntersAfterClose(h: Hash)
    ensures var looked := Call(h, Call(h, Call(h, INIT, 0, Insert), 1, Use), 2, Remove);
            var closed := Do(h, Do(h, looked, Lock(2)), Leave(2));
            && closed.sessions == map[] && closed.pc == map[1 := WantMutex(0)]
            && InsideAfter(h, closed, [Lock(1)], 1, 0)
  {
    Opens(h);
    var s := State(map[0 := 0], [0], map[], map[], map[], map[0 := 0]);
    Uses(h, s, 1);
    var used := s.(pc := map[1 := WantMutex(0)], on := s.on[1 := 0]);
    Removes(h, used, 2);
    var looked := used.(sessions := map[], pc := map[1 := WantMutex(0), 2 := WantMutex(0)], on := used.on[2 := 0]);
    assert map[0 := 0] - {0} == map[];
    assert used.pc[2 := WantMutex(0)] == looked.pc;
    PassesThrough(h, looked, 2, 0);
    assert looked.pc - {2} == map[1 := WantMutex(0)];
    var closed := looked.(pc := map[1 := WantMutex(0)]);
    ContinuePush(h, closed, [], Lock(1));
    assert [] + [Lock(1)] == [Lock(1)];
  }
}
