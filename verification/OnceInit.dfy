/**
 First use of the async manager under races: every caller that finds no manager starts one of its
 own, a set-once cell keeps the first, and a manager that loses the race is dropped with its sender.
 */
module OnceInit {
  import opened Wrappers

  type Tid = nat

  datatype Phase =
    | NeedStart           // found the cell empty
    | Holding(m: nat)     // has started a manager of its own
    | Reread              // has offered it to the cell

  datatype State = State(
    cell: Option<nat>,          // the set-once cell
    phase: map<Tid, Phase>,     // threads inside `async_manager`
    count: nat,                 // managers started so far
    alive: set<nat>,            // managers whose one sender still exists
    running: set<nat>,          // managers whose worker loop has not ended
    pending: multiset<nat>,     // commands sent and not yet taken, by manager
    returned: seq<nat>,         // managers handed to callers
    broken: bool,               // some caller found the cell empty after setting it
    calls: nat,                 // uses of `async_manager` begun
    failed: nat,                // those that could not start a manager
    sent: nat,                  // commands sent
    taken: nat)                 // commands taken by workers

  const INIT: State := State(None, map[], 0, {}, {}, multiset{}, [], false, 0, 0, 0, 0)

  datatype Step =
    | Check(t: Tid) | StartOk(t: Tid) | StartFail(t: Tid) | Set(t: Tid) | Get(t: Tid)
    | Send(i: nat) | Take(m: nat) | End(m: nat)

  /** A worker's loop ends when no sender is left and nothing is queued. */
  predicate Enabled(s: State, step: Step) {
    match step
    case Check(t) => t !in s.phase
    case StartOk(t) => t in s.phase && s.phase[t].NeedStart?
    case StartFail(t) => t in s.phase && s.phase[t].NeedStart?
    case Set(t) => t in s.phase && s.phase[t].Holding?
    case Get(t) => t in s.phase && s.phase[t].Reread?
    case Send(i) => i < |s.returned|
    case Take(m) => m in s.running && m in s.pending
    case End(m) => m in s.running && m !in s.alive && m !in s.pending
  }

  function Next(s: State, step: Step): State
    requires Enabled(s, step)
  {
    match step
    case Check(t) =>
      if s.cell.Some? then s.(returned := s.returned + [s.cell.value], calls := s.calls + 1)
      else s.(phase := s.phase[t := NeedStart], calls := s.calls + 1)
    case StartOk(t) =>
      s.(phase := s.phase[t := Holding(s.count)], count := s.count + 1,
         alive := s.alive + {s.count}, running := s.running + {s.count})
    case StartFail(t) => s.(phase := s.phase - {t}, failed := s.failed + 1)
    case Set(t) =>
      var m := s.phase[t].m;
      if s.cell.None? then s.(cell := Some(m), phase := s.phase[t := Reread])
      else s.(alive := s.alive - {m}, phase := s.phase[t := Reread])
    case Get(t) =>
      if s.cell.Some? then s.(returned := s.returned + [s.cell.value], phase := s.phase - {t})
      else s.(broken := true, phase := s.phase - {t})
    case Send(i) => s.(pending := s.pending + multiset{s.returned[i]}, sent := s.sent + 1)
    case Take(m) => s.(pending := s.pending - multiset{m}, taken := s.taken + 1)
    case End(m) => s.(running := s.running - {m})
  }

  function After(s: State, steps: seq<Step>): State {
    if steps == [] then s
    else
      var t := After(s, steps[..|steps| - 1]);
      if Enabled(t, steps[|steps| - 1]) then Next(t, steps[|steps| - 1]) else t
  }

  predicate Held(s: State, m: nat) {
    exists t :: t in s.phase && s.phase[t] == Holding(m)
  }

  /** Callers only ever see the cell's manager, and only once the cell is set. */
  ghost predicate CellInv(s: State) {
    && !s.broken
    && (forall i :: 0 <= i < |s.returned| ==> s.cell == Some(s.returned[i]))
    && (forall t :: t in s.phase && s.phase[t].Reread? ==> s.cell.Some?)
    && (forall m :: m in s.pending ==> s.cell == Some(m))
  }

  /** No manager is held twice, or held and in the cell. */
  ghost predicate HeldInv(s: State) {
    && (s.cell.Some? ==> s.cell.value < s.count)
    && (forall t :: t in s.phase && s.phase[t].Holding? ==> s.phase[t].m < s.count && s.cell != Some(s.phase[t].m))
    && (forall t, u :: t in s.phase && u in s.phase && t != u && s.phase[t].Holding? ==> s.phase[t] != s.phase[u])
  }

  /** A sender exists exactly for the cell's manager and for those still held. */
  ghost predicate LifeInv(s: State) {
    && (forall m :: m in s.alive <==> s.cell == Some(m) || Held(s, m))
    && (forall m :: m in s.alive ==> m in s.running)
    && (forall m :: m in s.running ==> m < s.count)
  }

  ghost predicate Inv(s: State) {
    CellInv(s) && HeldInv(s) && LifeInv(s)
  }

  lemma HeldAfter(s: State, step: Step, m: nat)
    requires HeldInv(s) && Enabled(s, step)
    ensures Held(Next(s, step), m) <==>
            match step
            case StartOk(_) => Held(s, m) || m == s.count
            case Set(t) => Held(s, m) && m != s.phase[t].m
            case _ => Held(s, m)
  {
    var n := Next(s, step);
    if t :| t in s.phase && s.phase[t] == Holding(m) {
      if !(step.Set? && step.t == t) { assert t in n.phase && n.phase[t] == Holding(m); }
    }
    if step.StartOk? { assert n.phase[step.t] == Holding(s.count); }
  }

  /** Threads on their way to the manager. */
  lemma CallCell(s: State, step: Step)
    requires CellInv(s) && Enabled(s, step) && (step.Check? || step.StartOk? || step.StartFail? || step.Get?)
    ensures CellInv(Next(s, step))
  {
  }

  lemma SetCell(s: State, step: Step)
    requires CellInv(s) && Enabled(s, step) && step.Set?
    ensures CellInv(Next(s, step))
  {
    assert s.cell.None? ==> s.returned == [] by {
      if s.returned != [] { assert s.cell == Some(s.returned[0]); }
    }
  }

  lemma WorkCell(s: State, step: Step)
    requires CellInv(s) && Enabled(s, step) && (step.Send? || step.Take? || step.End?)
    ensures CellInv(Next(s, step))
  {
    forall m | m in Next(s, step).pending ensures s.cell == Some(m) {
      assert m in s.pending || (step.Send? && m == s.returned[step.i]);
    }
  }

  lemma StepCell(s: State, step: Step)
    requires CellInv(s) && Enabled(s, step)
    ensures CellInv(Next(s, step))
  {
    if step.Set? {
      SetCell(s, step);
    } else if step.Send? || step.Take? || step.End? {
      WorkCell(s, step);
    } else {
      CallCell(s, step);
    }
  }

  lemma StepHeld(s: State, step: Step)
    requires HeldInv(s) && Enabled(s, step)
    ensures HeldInv(Next(s, step))
  {
  }

  lemma StepLife(s: State, step: Step)
    requires HeldInv(s) && LifeInv(s) && Enabled(s, step)
    ensures LifeInv(Next(s, step))
  {
    forall m ensures m in Next(s, step).alive <==> Next(s, step).cell == Some(m) || Held(Next(s, step), m) {
      HeldAfter(s, step, m);
    }
  }

  lemma StepInv(s: State, step: Step)
    requires Inv(s) && Enabled(s, step)
    ensures Inv(Next(s, step))
  {
    StepCell(s, step);
    StepHeld(s, step);
    StepLife(s, step);
  }

  lemma {:induction false} RunInv(s: State, steps: seq<Step>)
    requires Inv(s)
    ensures Inv(After(s, steps))
  {
    if steps != [] {
      RunInv(s, steps[..|steps| - 1]);
      var t := After(s, steps[..|steps| - 1]);
      if Enabled(t, steps[|steps| - 1]) { StepInv(t, steps[|steps| - 1]); }
    }
  }

  /**
   In every interleaving, all callers get the one manager in the cell, and none finds the cell empty after
   setting it.
   */
  lemma {:induction false} OneManager(steps: seq<Step>)
    ensures var s := After(INIT, steps);
            && !s.broken
            && forall i, j :: 0 <= i < |s.returned| && 0 <= j < |s.returned| ==> s.returned[i] == s.returned[j]
  {
    RunInv(INIT, steps);
    var s := After(INIT, steps);
    forall i, j | 0 <= i < |s.returned| && 0 <= j < |s.returned| ensures s.returned[i] == s.returned[j] {
      assert s.cell == Some(s.returned[i]) && s.cell == Some(s.returned[j]);
    }
  }

  /** Every use so far has returned, failed to start or is under way, and every command is taken or pending. */
  ghost predicate Accounted(s: State) {
    s.calls == |s.returned| + s.failed + |s.phase| && s.sent == s.taken + |s.pending|
  }

  lemma StepAccounted(s: State, step: Step)
    requires CellInv(s) && Accounted(s) && Enabled(s, step)
    ensures Accounted(Next(s, step))
  {
    match step
    case Check(t) => PhaseAdds(s.phase, t, NeedStart);
    case StartOk(t) => PhaseStays(s.phase, t, Holding(s.count));
    case StartFail(t) => PhaseDrops(s.phase, t);
    case Set(t) => PhaseStays(s.phase, t, Reread);
    case Get(t) => PhaseDrops(s.phase, t);
    case Send(_) =>
    case Take(_) =>
    case End(_) =>
  }

  lemma PhaseAdds(phase: map<Tid, Phase>, t: Tid, p: Phase)
    requires t !in phase
    ensures |phase[t := p]| == |phase| + 1
  {
    assert phase[t := p].Keys == phase.Keys + {t};
    assert |phase[t := p].Keys| == |phase.Keys| + 1;
  }

  lemma PhaseStays(phase: map<Tid, Phase>, t: Tid, p: Phase)
    requires t in phase
    ensures |phase[t := p]| == |phase|
  {
    assert phase[t := p].Keys == phase.Keys;
    assert |phase[t := p].Keys| == |phase.Keys|;
  }

  lemma PhaseDrops(phase: map<Tid, Phase>, t: Tid)
    requires t in phase
    ensures |phase - {t}| == |phase| - 1
  {
    assert (phase - {t}).Keys == phase.Keys - {t};
    assert |(phase - {t}).Keys| == |phase.Keys| - 1;
  }

  /** No use of the manager and no command is lost in any interleaving. */
  lemma {:induction false} NothingLost(steps: seq<Step>)
    ensures Accounted(After(INIT, steps))
  {
    if steps != [] {
      var front := steps[..|steps| - 1];
      NothingLost(front);
      RunInv(INIT, front);
      var s := After(INIT, front);
      if Enabled(s, steps[|steps| - 1]) { StepAccounted(s, steps[|steps| - 1]); }
    }
  }

  /** A started manager that is neither in the cell nor still held by its starter. */
  ghost predicate Lost(s: State, m: nat) {
    m < s.count && s.cell.Some? && s.cell != Some(m) && !Held(s, m)
  }

  lemma {:induction false} LostStays(s: State, steps: seq<Step>, m: nat)
    requires Inv(s) && Lost(s, m)
    ensures Lost(After(s, steps), m)
    ensures m !in s.running ==> m !in After(s, steps).running
  {
    if steps != [] {
      var front, step := steps[..|steps| - 1], steps[|steps| - 1];
      LostStays(s, front, m);
      RunInv(s, front);
      var t := After(s, front);
      if Enabled(t, step) { HeldAfter(t, step, m); }
    }
  }

  /** From any reachable point on, a lost manager's loop can end at once whenever it has not, and never restarts. */
  lemma {:induction false} LosersEnd(before: seq<Step>, after: seq<Step>, m: nat)
    requires Lost(After(INIT, before), m)
    ensures var s := After(After(INIT, before), after);
            && (m in s.running ==> Enabled(s, End(m)) && m !in Next(s, End(m)).running)
            && (m !in After(INIT, before).running ==> m !in s.running)
  {
    RunInv(INIT, before);
    RunInv(After(INIT, before), after);
    LostStays(After(INIT, before), after, m);
  }

  /** The winner's worker runs on, and every manager has one of the three fates. */
  lemma {:induction false} WinnerRuns(steps: seq<Step>, m: nat)
    requires m < After(INIT, steps).count
    ensures var s := After(INIT, steps);
            && (s.cell == Some(m) ==> m in s.alive && m in s.running)
            && (s.cell.Some? ==> s.cell == Some(m) || Held(s, m) || Lost(s, m))
  {
    RunInv(INIT, steps);
  }
}
