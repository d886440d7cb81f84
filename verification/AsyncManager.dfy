/**
 The async session manager: callers send commands with a one-slot reply channel each to a single
 worker, which owns the live sessions and answers in order.

 A command's reply channel is named by the position of its send among all sends.
 */
module AsyncManager {
  import opened Machine
  import opened Wrappers

  type Tid = nat
  type SessionId = nat

  datatype Kind = Open(worker: nat) | Close | Get | Put | Range | Query | Command | Batch

  /** `ticket` counts the session ids handed out before the one an open carries. */
  datatype Call = Call(caller: Tid, kind: Kind, session: SessionId, ticket: nat)

  datatype Session = Session(client: nat, remote: nat)

  /** What the remote side did; `value` is the remote session id of an open, or the result of a request. */
  datatype Remote = Remote(ok: bool, value: nat)

  /** An acknowledgement, a result, or one of the two errors. */
  datatype Answer = Ack | Done(value: nat) | SessionMissing | RemoteError

  /** A request on a session's own connection; a batch carries no remote session id. */
  datatype Request = Request(client: nat, remote: Option<nat>)

  datatype Handled = Handled(answer: Answer, request: Option<Request>)

  type Sessions = map<SessionId, Session>

  // ----- handling one command -----

  /** Opens, closes and puts are only acknowledged; the other requests pass the remote result on. */
  function Answered(kind: Kind, remote: Remote): Answer {
    if !remote.ok then RemoteError
    else if kind.Open? || kind.Close? || kind.Put? then Ack
    else Done(remote.value)
  }

  /** A close removes the session before it asks the remote side, whatever that answers. */
  function Execute(sessions: Sessions, call: Call, remote: Remote, client: nat): (Sessions, Handled) {
    var o := call.session;
    if call.kind.Open? then
      (if remote.ok then sessions[o := Session(client, remote.value)] else sessions,
       Handled(Answered(call.kind, remote), None))
    else if o !in sessions then (sessions, Handled(SessionMissing, None))
    else
      var s := sessions[o];
      var request := Request(s.client, if call.kind.Batch? then None else Some(s.remote));
      (if call.kind.Close? then sessions - {o} else sessions, Handled(Answered(call.kind, remote), Some(request)))
  }

  /** The worker's handler, updating its sessions in place. */
  class Worker {
    var sessions: Sessions

    constructor ()
      ensures sessions == map[]
    {
      sessions := map[];
    }

    method HandleAsyncCommand(call: Call, remote: Remote, client: nat)
      returns (answer: Answer, request: Option<Request>)
      modifies this
      ensures (sessions, Handled(answer, request)) == Execute(old(sessions), call, remote, client)
    {
      request := None;
      var o := call.session;
      match call.kind {
        case Open(_) =>
          if !remote.ok { return RemoteError, None; }
          sessions := sessions[o := Session(client, remote.value)];
          answer := Ack;
        case Close =>
          if o !in sessions { return SessionMissing, None; }
          var session := sessions[o];
          sessions := sessions - {o};
          request := Some(Request(session.client, Some(session.remote)));
          answer := if remote.ok then Ack else RemoteError;
        case Put =>
          if o !in sessions { return SessionMissing, None; }
          request := Some(Request(sessions[o].client, Some(sessions[o].remote)));
          answer := if remote.ok then Ack else RemoteError;
        case Batch =>
          if o !in sessions { return SessionMissing, None; }
          request := Some(Request(sessions[o].client, None));
          answer := if remote.ok then Done(remote.value) else RemoteError;
        case _ =>
          if o !in sessions { return SessionMissing, None; }
          request := Some(Request(sessions[o].client, Some(sessions[o].remote)));
          answer := if remote.ok then Done(remote.value) else RemoteError;
      }
    }
  }

  // ----- the protocol -----

  /** What a caller makes of its answer: an acknowledged open returns the local session id. */
  function ResultOf(call: Call, answer: Answer): Answer {
    if call.kind.Open? && answer.Ack? then Done(call.session) else answer
  }

  datatype Return = Return(caller: Tid, chan: nat, result: Answer)

  datatype State = State(
    tickets: nat,                  // session ids handed out so far
    prepared: map<Tid, nat>,       // threads that hold an id and have not sent yet
    calls: seq<Call>,              // every send, in order
    queue: seq<nat>,               // channels of commands not yet taken by the worker
    busy: Option<nat>,             // channel of the command the worker is handling
    handled: seq<Handled>,         // what the worker did, in order
    remotes: seq<Remote>,          // what the remote side did for each handled command
    replies: map<nat, Answer>,     // filled one-slot reply channels
    waiting: map<Tid, nat>,        // threads blocked on their channel
    returned: seq<Return>,         // replies taken
    sessions: Sessions)

  const INIT: State := State(0, map[], [], [], None, [], [], map[], map[], [], map[])

  datatype Step =
    | Prepare(t: Tid)
    | Abandon(t: Tid)
    | Send(t: Tid, kind: Kind, session: SessionId)
    | Take
    | Finish(remote: Remote)
    | Receive(t: Tid)

  function IdOf(ticket: nat): SessionId {
    (1 + ticket) % U64_LIMIT
  }

  /** The worker's reply blocks while the channel's slot is full, so it needs an empty one. */
  predicate Enabled(s: State, step: Step) {
    match step
    case Prepare(t) => t !in s.waiting && t !in s.prepared
    case Abandon(t) => t in s.prepared
    case Send(t, kind, _) => t !in s.waiting && (kind.Open? <==> t in s.prepared)
    case Take => s.busy.None? && s.queue != []
    case Finish(_) => s.busy.Some? && s.busy.value !in s.replies && s.busy.value < |s.calls|
    case Receive(t) => t in s.waiting && s.waiting[t] in s.replies && s.waiting[t] < |s.calls|
  }

  function Next(s: State, step: Step): State
    requires Enabled(s, step)
  {
    match step
    case Prepare(t) => s.(prepared := s.prepared[t := s.tickets], tickets := s.tickets + 1)
    case Abandon(t) => s.(prepared := s.prepared - {t})
    case Send(t, kind, session) =>
      var call := if kind.Open? then Call(t, kind, IdOf(s.prepared[t]), s.prepared[t]) else Call(t, kind, session, 0);
      s.(calls := s.calls + [call], queue := s.queue + [|s.calls|],
         waiting := s.waiting[t := |s.calls|], prepared := s.prepared - {t})
    case Take => s.(busy := Some(s.queue[0]), queue := s.queue[1..])
    case Finish(remote) =>
      var c := s.busy.value;
      var (sessions, h) := Execute(s.sessions, s.calls[c], remote, |s.handled|);
      s.(busy := None, handled := s.handled + [h], remotes := s.remotes + [remote],
         replies := s.replies[c := h.answer], sessions := sessions)
    case Receive(t) =>
      var c := s.waiting[t];
      var result := ResultOf(s.calls[c], s.replies[c]);
      s.(replies := s.replies - {c}, waiting := s.waiting - {t}, returned := s.returned + [Return(t, c, result)])
  }

  /** Any interleaving: steps that cannot be taken at their turn are skipped. */
  function After(steps: seq<Step>): State {
    if steps == [] then INIT
    else
      var s := After(steps[..|steps| - 1]);
      if Enabled(s, steps[|steps| - 1]) then Next(s, steps[|steps| - 1]) else s
  }

  // ----- what every step keeps -----

  function Working(s: State): nat {
    if s.busy.Some? then 1 else 0
  }

  /** Commands are taken in the order they were sent. */
  ghost predicate InOrder(s: State) {
    && |s.handled| == |s.remotes|
    && |s.handled| + Working(s) + |s.queue| == |s.calls|
    && (s.busy.Some? ==> s.busy.value == |s.handled|)
    && (forall i :: 0 <= i < |s.queue| ==> s.queue[i] == |s.handled| + Working(s) + i)
  }

  predicate HasReturned(s: State, c: nat) {
    exists i :: 0 <= i < |s.returned| && s.returned[i].chan == c
  }

  /** A filled channel holds the answer of its own command, which nobody has taken yet. */
  ghost predicate Slots(s: State) {
    && (forall c :: c in s.replies ==> c < |s.handled| && s.replies[c] == s.handled[c].answer && !HasReturned(s, c))
    && (forall c :: 0 <= c < |s.handled| && c !in s.replies ==> HasReturned(s, c))
  }

  /** A taken answer went to the caller of its command. */
  ghost predicate RightCaller(s: State, r: Return) {
    && r.chan < |s.handled| && r.chan < |s.calls| && r.caller == s.calls[r.chan].caller
    && r.result == ResultOf(s.calls[r.chan], s.handled[r.chan].answer)
  }

  ghost predicate Returns(s: State) {
    && (forall i :: 0 <= i < |s.returned| ==> RightCaller(s, s.returned[i]))
    && (forall i, j :: 0 <= i < j < |s.returned| ==> s.returned[i].chan != s.returned[j].chan)
  }

  /** A thread waits on exactly the channel of its one unanswered call. */
  ghost predicate Waits(s: State) {
    && (forall t :: t in s.waiting ==>
       s.waiting[t] < |s.calls| && s.calls[s.waiting[t]].caller == t && !HasReturned(s, s.waiting[t]))
    && (forall c :: 0 <= c < |s.calls| && !HasReturned(s, c) ==>
       s.calls[c].caller in s.waiting && s.waiting[s.calls[c].caller] == c)
  }

  /** No two opens, sent or about to be, carry the same ticket. */
  ghost predicate Tickets(s: State) {
    && (forall c :: 0 <= c < |s.calls| && s.calls[c].kind.Open? ==>
          s.calls[c].ticket < s.tickets && s.calls[c].session == IdOf(s.calls[c].ticket))
    && (forall t :: t in s.prepared ==> s.prepared[t] < s.tickets)
    && (forall c, d :: 0 <= c < d < |s.calls| && s.calls[c].kind.Open? && s.calls[d].kind.Open? ==>
          s.calls[c].ticket != s.calls[d].ticket)
    && (forall c, t :: 0 <= c < |s.calls| && s.calls[c].kind.Open? && t in s.prepared ==>
       s.calls[c].ticket != s.prepared[t])
    && (forall t, u :: t in s.prepared && u in s.prepared && t != u ==> s.prepared[t] != s.prepared[u])
  }

  /** The sessions after the first `n` commands, and what the next command did to them. */
  function SessionsAt(calls: seq<Call>, remotes: seq<Remote>, n: nat): Sessions
    requires n <= |remotes| <= |calls|
  {
    if n == 0 then map[] else Execute(SessionsAt(calls, remotes, n - 1), calls[n - 1], remotes[n - 1], n - 1).0
  }

  /** What the worker does for command `i` in the sessions left by the commands before it. */
  function HandledAt(calls: seq<Call>, remotes: seq<Remote>, i: nat): Handled
    requires i < |remotes| <= |calls|
  {
    Execute(SessionsAt(calls, remotes, i), calls[i], remotes[i], i).1
  }

  ghost predicate History(s: State) {
    && |s.handled| == |s.remotes| <= |s.calls|
    && s.sessions == SessionsAt(s.calls, s.remotes, |s.remotes|)
    && forall i :: 0 <= i < |s.handled| ==> s.handled[i] == HandledAt(s.calls, s.remotes, i)
  }

  ghost predicate Inv(s: State) {
    InOrder(s) && Slots(s) && Returns(s) && Waits(s) && Tickets(s) && History(s)
  }

  lemma {:induction false} StepInOrder(s: State, step: Step)
    requires InOrder(s) && Enabled(s, step)
    ensures InOrder(Next(s, step))
  {
  }

  lemma ReturnedGrows(s: State, t: State, r: Return)
    requires t.returned == s.returned + [r]
    ensures forall c :: HasReturned(t, c) <==> HasReturned(s, c) || c == r.chan
  {
    forall c ensures HasReturned(t, c) <==> HasReturned(s, c) || c == r.chan {
      if i :| 0 <= i < |s.returned| && s.returned[i].chan == c { assert t.returned[i] == s.returned[i]; }
      assert t.returned[|s.returned|] == r;
    }
  }

  lemma ReturnedSame(s: State, t: State)
    requires t.returned == s.returned
    ensures forall c :: HasReturned(t, c) <==> HasReturned(s, c)
  {
  }

  /** Only commands before the worker's current one have been answered. */
  lemma UnhandledNotReturned(s: State, c: nat)
    requires Returns(s) && c >= |s.handled|
    ensures !HasReturned(s, c)
  {
    assert forall i :: 0 <= i < |s.returned| ==> RightCaller(s, s.returned[i]);
  }

  lemma {:induction false} StepSlots(s: State, step: Step)
    requires InOrder(s) && Slots(s) && Returns(s) && Enabled(s, step)
    ensures Slots(Next(s, step))
  {
    var t := Next(s, step);
    if step.Receive? {
      ReturnedGrows(s, t, t.returned[|s.returned|]);
    } else {
      ReturnedSame(s, t);
      if step.Finish? { UnhandledNotReturned(s, s.busy.value); }
    }
  }

  lemma {:induction false} StepReturns(s: State, step: Step)
    requires InOrder(s) && Slots(s) && Returns(s) && Waits(s) && Enabled(s, step)
    ensures Returns(Next(s, step))
  {
    var t := Next(s, step);
    forall i | 0 <= i < |s.returned| ensures RightCaller(t, s.returned[i]) {
      assert RightCaller(s, s.returned[i]);
    }
    if step.Receive? {
      var c := s.waiting[step.t];
      assert !HasReturned(s, c) && RightCaller(t, Return(step.t, c, ResultOf(s.calls[c], s.replies[c])));
    }
  }

  lemma {:induction false} ReceiveWaits(s: State, step: Step)
    requires Waits(s) && Enabled(s, step) && step.Receive?
    ensures Waits(Next(s, step))
  {
    ReturnedGrows(s, Next(s, step), Next(s, step).returned[|s.returned|]);
  }

  lemma {:induction false} SendWaits(s: State, step: Step)
    requires InOrder(s) && Returns(s) && Waits(s) && Enabled(s, step) && step.Send?
    ensures Waits(Next(s, step))
  {
    var t := Next(s, step);
    ReturnedSame(s, t);
    UnhandledNotReturned(s, |s.calls|);
    assert forall c :: 0 <= c < |s.calls| ==> t.calls[c] == s.calls[c];
  }

  lemma {:induction false} StepWaits(s: State, step: Step)
    requires InOrder(s) && Returns(s) && Waits(s) && Enabled(s, step)
    ensures Waits(Next(s, step))
  {
    if step.Receive? {
      ReceiveWaits(s, step);
    } else if step.Send? {
      SendWaits(s, step);
    } else {
      ReturnedSame(s, Next(s, step));
    }
  }

  lemma {:induction false} StepTickets(s: State, step: Step)
    requires Tickets(s) && Enabled(s, step)
    ensures Tickets(Next(s, step))
  {
    var t := Next(s, step);
    if step.Send? {
      SendTickets(s, step);
    } else {
      assert t.calls == s.calls;
    }
  }

  lemma {:induction false} SendTickets(s: State, step: Step)
    requires Tickets(s) && Enabled(s, step) && step.Send?
    ensures Tickets(Next(s, step))
  {
    var t := Next(s, step);
    assert forall c :: 0 <= c < |s.calls| ==> t.calls[c] == s.calls[c];
  }

  lemma {:induction false} SessionsKept(s: State, t: State, n: nat)
    requires |s.remotes| <= |s.calls| && s.calls <= t.calls && s.remotes <= t.remotes
             && |t.remotes| <= |t.calls| && n <= |s.remotes|
    ensures SessionsAt(t.calls, t.remotes, n) == SessionsAt(s.calls, s.remotes, n)
  {
    if n > 0 { SessionsKept(s, t, n - 1); }
  }

  lemma HandledKept(s: State, t: State)
    requires History(s) && s.calls <= t.calls && s.remotes <= t.remotes && |t.remotes| <= |t.calls|
    ensures forall i :: 0 <= i < |s.handled| ==> s.handled[i] == HandledAt(t.calls, t.remotes, i)
    ensures s.sessions == SessionsAt(t.calls, t.remotes, |s.remotes|)
  {
    SessionsKept(s, t, |s.remotes|);
    forall i | 0 <= i < |s.handled| ensures s.handled[i] == HandledAt(t.calls, t.remotes, i) {
      SessionsKept(s, t, i);
      assert s.handled[i] == HandledAt(s.calls, s.remotes, i);
    }
  }

  lemma {:induction false} StepHistory(s: State, step: Step)
    requires InOrder(s) && History(s) && Enabled(s, step)
    ensures History(Next(s, step))
  {
    var t := Next(s, step);
    HandledKept(s, t);
    if step.Finish? {
      var n := |s.handled|;
      assert t.handled == s.handled + [HandledAt(t.calls, t.remotes, n)];
      assert t.sessions == SessionsAt(t.calls, t.remotes, n + 1);
    }
  }

  lemma {:induction false} StepInv(s: State, step: Step)
    requires Inv(s) && Enabled(s, step)
    ensures Inv(Next(s, step))
  {
    StepInOrder(s, step);
    StepSlots(s, step);
    StepReturns(s, step);
    StepWaits(s, step);
    StepTickets(s, step);
    StepHistory(s, step);
  }

  lemma {:induction false} RunInv(steps: seq<Step>)
    ensures Inv(After(steps))
  {
    if steps != [] {
      RunInv(steps[..|steps| - 1]);
      var s := After(steps[..|steps| - 1]);
      if Enabled(s, steps[|steps| - 1]) { StepInv(s, steps[|steps| - 1]); }
    }
  }

  // ----- what holds in every run -----

  /** What a caller asks for: an open takes the id prepared for it, the others name a session. */
  datatype Asked = Asked(caller: Tid, kind: Kind, session: Option<SessionId>)

  function AskedBy(call: Call): Asked {
    Asked(call.caller, call.kind, if call.kind.Open? then None else Some(call.session))
  }

  /** The sends of a run that took place, in order. */
  function Sends(steps: seq<Step>): seq<Asked> {
    if steps == [] then []
    else
      var front, step := steps[..|steps| - 1], steps[|steps| - 1];
      if step.Send? && Enabled(After(front), step)
      then Sends(front) + [Asked(step.t, step.kind, if step.kind.Open? then None else Some(step.session))]
      else Sends(front)
  }

  /** The worker's commands are the callers' sends, each as it was asked for, in order. */
  lemma {:induction false} CommandsAreSends(steps: seq<Step>)
    ensures var calls := After(steps).calls;
            |calls| == |Sends(steps)| && forall i :: 0 <= i < |calls| ==> AskedBy(calls[i]) == Sends(steps)[i]
  {
    if steps != [] {
      CommandsAreSends(steps[..|steps| - 1]);
      var s := After(steps[..|steps| - 1]);
      if Enabled(s, steps[|steps| - 1]) { OneMoreCall(s, steps[|steps| - 1]); }
    }
  }

  lemma OneMoreCall(s: State, step: Step)
    requires Enabled(s, step)
    ensures var calls := Next(s, step).calls;
            if !step.Send? then calls == s.calls
            else
              && |calls| == |s.calls| + 1 && calls[..|s.calls|] == s.calls
              && AskedBy(calls[|s.calls|])
                 == Asked(step.t, step.kind, if step.kind.Open? then None else Some(step.session))
  {
  }

  predicate Queued(s: State, c: nat) {
    c in s.queue
  }

  predicate BeingHandled(s: State, c: nat) {
    s.busy == Some(c)
  }

  lemma QueuedExactly(s: State, c: nat)
    requires InOrder(s) && c < |s.calls|
    ensures Queued(s, c) <==> c >= |s.handled| + Working(s)
  {
    if c >= |s.handled| + Working(s) { assert s.queue[c - |s.handled| - Working(s)] == c; }
  }

  lemma AnsweredExactly(s: State, c: nat)
    requires Slots(s) && Returns(s)
    ensures c in s.replies ==> c < |s.handled| && !HasReturned(s, c)
    ensures HasReturned(s, c) ==> c < |s.handled| && c !in s.replies
    ensures c < |s.handled| ==> c in s.replies || HasReturned(s, c)
  {
    if c >= |s.handled| { UnhandledNotReturned(s, c); }
  }

  function Count(a: bool, b: bool, c: bool, d: bool): nat {
    (if a then 1 else 0) + (if b then 1 else 0) + (if c then 1 else 0) + (if d then 1 else 0)
  }

  lemma OnePlaceIn(s: State, c: nat)
    requires InOrder(s) && Slots(s) && Returns(s) && c < |s.calls|
    ensures Count(Queued(s, c), BeingHandled(s, c), c in s.replies, HasReturned(s, c)) == 1
  {
    QueuedExactly(s, c);
    AnsweredExactly(s, c);
  }

  /** Every command sent is in exactly one place: waiting, in work, answered in its channel, or returned. */
  lemma {:induction false} OnePlace(steps: seq<Step>, c: nat)
    requires c < |After(steps).calls|
    ensures var s := After(steps);
            Count(Queued(s, c), BeingHandled(s, c), c in s.replies, HasReturned(s, c)) == 1
  {
    RunInv(steps);
    OnePlaceIn(After(steps), c);
  }

  /**
   A reply is returned to the caller of its command, is what it makes of that command's answer, and is
   returned once.
   */
  lemma {:induction false} RepliesReachTheirCaller(steps: seq<Step>, i: nat)
    requires i < |After(steps).returned|
    ensures var s := After(steps);
            var r := s.returned[i];
            && r.chan < |s.handled| <= |s.calls|
            && r.caller == s.calls[r.chan].caller && r.result == ResultOf(s.calls[r.chan], s.handled[r.chan].answer)
            && forall j :: 0 <= j < |s.returned| && j != i ==> s.returned[j].chan != r.chan
  {
    RunInv(steps);
  }

  /** What is left for the worker to do. */
  function Pending(s: State): nat {
    2 * |s.queue| + Working(s)
  }

  /** The worker never blocks on a reply: while commands are pending it can step, and each step leaves less to do. */
  lemma {:induction false} WorkerNeverBlocks(steps: seq<Step>, remote: Remote)
    requires Pending(After(steps)) > 0
    ensures var s := After(steps);
            var step := if s.busy.Some? then Finish(remote) else Take;
            Enabled(s, step) && Pending(Next(s, step)) < Pending(s)
  {
    RunInv(steps);
  }

  /** A blocked caller whose command has been handled can always go on, and returns that command's answer. */
  lemma {:induction false} CallerGetsAnswer(steps: seq<Step>, t: Tid)
    requires t in After(steps).waiting
    ensures var s := After(steps);
            var c := s.waiting[t];
            c < |s.handled| <= |s.calls| ==>
              && Enabled(s, Receive(t))
              && Next(s, Receive(t)).returned == s.returned + [Return(t, c, ResultOf(s.calls[c], s.handled[c].answer))]
  {
    RunInv(steps);
  }

  predicate OpensAt(s: State, i: nat, o: SessionId)
    requires i < |s.remotes| <= |s.calls|
  {
    s.calls[i].kind.Open? && s.calls[i].session == o && s.remotes[i].ok
  }

  predicate ClosesAt(s: State, i: nat, o: SessionId)
    requires i < |s.remotes| <= |s.calls|
  {
    s.calls[i].kind.Close? && s.calls[i].session == o
  }

  /** `i` is the last open of `o` that took effect among the first `n` commands, and no close of `o` came after it. */
  predicate LiveSince(s: State, n: nat, o: SessionId, i: int)
    requires n <= |s.remotes| <= |s.calls|
  {
    0 <= i < n && OpensAt(s, i, o) && forall j :: i < j < n ==> !OpensAt(s, j, o) && !ClosesAt(s, j, o)
  }

  lemma {:induction false} LiveAt(s: State, n: nat, o: SessionId)
    requires n <= |s.remotes| <= |s.calls|
    ensures o in SessionsAt(s.calls, s.remotes, n) <==> exists i :: LiveSince(s, n, o, i)
    ensures forall i :: LiveSince(s, n, o, i) ==> SessionsAt(s.calls, s.remotes, n)[o] == Session(i, s.remotes[i].value)
  {
    if n > 0 {
      LiveAt(s, n - 1, o);
      var m := n - 1;
      if !OpensAt(s, m, o) && !ClosesAt(s, m, o) {
        if i :| LiveSince(s, m, o, i) { assert LiveSince(s, n, o, i); }
      }
      if OpensAt(s, m, o) { assert LiveSince(s, n, o, m); }
      forall i | LiveSince(s, n, o, i) ensures if OpensAt(s, m, o) then i == m else LiveSince(s, m, o, i) {
      }
    }
  }

  /**
   The live sessions are exactly those opened successfully and not closed since, each with the remote id of
   that open.
   */
  lemma {:induction false} LiveExactly(steps: seq<Step>, o: SessionId)
    ensures var s := After(steps);
            && |s.remotes| <= |s.calls|
            && (o in s.sessions <==> exists i :: LiveSince(s, |s.remotes|, o, i))
            && forall i :: LiveSince(s, |s.remotes|, o, i) ==> s.sessions[o] == Session(i, s.remotes[i].value)
  {
    RunInv(steps);
    LiveAt(After(steps), |After(steps).remotes|, o);
  }

  /**
   Every request goes out on the connection of its session's open, with the remote id fixed there; a batch
   names none.
   */
  lemma {:induction false} RequestsKeepTheirSession(steps: seq<Step>, n: nat)
    requires n < |After(steps).handled| && After(steps).handled[n].request.Some?
    ensures var s := After(steps);
            && n < |s.remotes| <= |s.calls|
            && exists i :: LiveSince(s, n, s.calls[n].session, i)
                 && s.handled[n].request.value
                    == Request(i, if s.calls[n].kind.Batch? then None else Some(s.remotes[i].value))
  {
    RunInv(steps);
    var s := After(steps);
    LiveAt(s, n, s.calls[n].session);
    var i :| LiveSince(s, n, s.calls[n].session, i);
  }

  /** Ids are counted up from one, and zero follows the largest 64-bit number. */
  lemma IdsCountUp(ticket: nat)
    ensures IdOf(0) == 1
    ensures IdOf(ticket + 1) == if IdOf(ticket) == 0xFFFF_FFFF_FFFF_FFFF then 0 else IdOf(ticket) + 1
  {
    var q := (1 + ticket) / U64_LIMIT;
    assert 1 + ticket == q * U64_LIMIT + IdOf(ticket);
  }

  lemma IdsDiffer(a: nat, b: nat)
    requires a < U64_LIMIT && b < U64_LIMIT && IdOf(a) == IdOf(b)
    ensures a == b
  {
  }

  lemma OneOpenPerId(s: State, c: nat, d: nat)
    requires Tickets(s) && s.tickets <= U64_LIMIT && c < |s.calls| && d < |s.calls|
    requires s.calls[c].kind.Open? && s.calls[d].kind.Open? && s.calls[c].session == s.calls[d].session
    ensures c == d
  {
    assert s.calls[c].session == IdOf(s.calls[c].ticket);
    assert s.calls[d].session == IdOf(s.calls[d].ticket);
    IdsDiffer(s.calls[c].ticket, s.calls[d].ticket);
  }

  /** Until the 64-bit id counter wraps, an open never finds its session id in use. */
  lemma {:induction false} OpenNeverOverwrites(steps: seq<Step>, c: nat)
    requires After(steps).tickets <= U64_LIMIT && After(steps).busy == Some(c)
    requires c < |After(steps).calls| && After(steps).calls[c].kind.Open?
    ensures After(steps).calls[c].session !in After(steps).sessions
  {
    RunInv(steps);
    var s := After(steps);
    var o := s.calls[c].session;
    LiveAt(s, |s.remotes|, o);
    if i :| LiveSince(s, |s.remotes|, o, i) {
      OneOpenPerId(s, i, c);
    }
  }

  /** The open at `i` took effect, and its session has been neither closed nor overwritten since. */
  predicate StillOpen(s: State, i: int)
    requires |s.remotes| <= |s.calls|
  {
    0 <= i < |s.remotes| && LiveSince(s, |s.remotes|, s.calls[i].session, i)
  }

  lemma SameIdExactly(a: nat, b: nat)
    ensures IdOf(a) == IdOf(b) <==> a % U64_LIMIT == b % U64_LIMIT
  {
  }

  /** An open is about to overwrite a session exactly when one opened some multiple of 2^64 ids away is still open. */
  lemma {:induction false} OverwritesExactly(steps: seq<Step>, c: nat)
    requires After(steps).busy == Some(c) && c < |After(steps).calls| && After(steps).calls[c].kind.Open?
    ensures var s := After(steps);
            && |s.remotes| <= |s.calls|
            && (s.calls[c].session in s.sessions <==>
                  exists i :: StillOpen(s, i) && s.calls[i].ticket % U64_LIMIT == s.calls[c].ticket % U64_LIMIT)
  {
    RunInv(steps);
    OverwritesIn(After(steps), c);
  }

  lemma {:induction false} OverwritesIn(s: State, c: nat)
    requires Tickets(s) && History(s) && c < |s.calls| && s.calls[c].kind.Open?
    ensures s.calls[c].session in s.sessions <==>
            exists i :: StillOpen(s, i) && s.calls[i].ticket % U64_LIMIT == s.calls[c].ticket % U64_LIMIT
  {
    var o := s.calls[c].session;
    LiveAt(s, |s.remotes|, o);
    if i :| LiveSince(s, |s.remotes|, o, i) {
      assert OpensAt(s, i, o);
      SameIdExactly(s.calls[i].ticket, s.calls[c].ticket);
      assert StillOpen(s, i);
    }
    if i :| StillOpen(s, i) && s.calls[i].ticket % U64_LIMIT == s.calls[c].ticket % U64_LIMIT {
      assert OpensAt(s, i, s.calls[i].session);
      SameIdExactly(s.calls[i].ticket, s.calls[c].ticket);
      assert LiveSince(s, |s.remotes|, o, i);
    }
  }

  /** Takes `n` session ids without using them. */
  function Waste(t: Tid, n: nat): seq<Step> {
    if n == 0 then [] else Waste(t, n - 1) + [Prepare(t), Abandon(t)]
  }

  lemma {:induction false} AfterStep(steps: seq<Step>, step: Step)
    ensures After(steps + [step]) == if Enabled(After(steps), step) then Next(After(steps), step) else After(steps)
  {
    assert (steps + [step])[..|steps|] == steps;
  }

  lemma {:induction false} WasteOne(steps: seq<Step>, t: Tid)
    requires t !in After(steps).waiting && t !in After(steps).prepared
    ensures After(steps + [Prepare(t)] + [Abandon(t)]) == After(steps).(tickets := After(steps).tickets + 1)
  {
    AfterStep(steps, Prepare(t));
    AfterStep(steps + [Prepare(t)], Abandon(t));
    var s := After(steps);
    assert (s.prepared[t := s.tickets]) - {t} == s.prepared;
  }

  lemma WasteEnd(steps: seq<Step>, t: Tid, n: nat)
    requires n > 0
    ensures steps + Waste(t, n) == steps + Waste(t, n - 1) + [Prepare(t)] + [Abandon(t)]
  {
    assert [Prepare(t), Abandon(t)] == [Prepare(t)] + [Abandon(t)];
  }

  lemma {:induction false} WasteAdvances(steps: seq<Step>, t: Tid, n: nat)
    requires t !in After(steps).waiting && t !in After(steps).prepared
    ensures After(steps + Waste(t, n)) == After(steps).(tickets := After(steps).tickets + n)
  {
    if n == 0 {
      assert steps + [] == steps;
    } else {
      WasteAdvances(steps, t, n - 1);
      var before := steps + Waste(t, n - 1);
      WasteOne(before, t);
      WasteEnd(steps, t, n);
    }
  }

  /** The session a run of three steps opens under the first id. */
  function OpenOne(): seq<Step> {
    [Prepare(0), Send(0, Open(0), 0), Take, Finish(Remote(true, 7))]
  }

  lemma {:induction false} OpenOneOpens()
    ensures var s := After(OpenOne());
            && s.sessions == map[1 := Session(0, 7)] && s.tickets == 1
            && |s.calls| == 1 && s.queue == [] && s.busy.None?
            && s.prepared == map[] && s.waiting == map[0 := 0]
  {
    var steps := OpenOne();
    AfterStep([], steps[0]);
    AfterStep(steps[..1], steps[1]);
    AfterStep(steps[..2], steps[2]);
    AfterStep(steps[..3], steps[3]);
    assert [] + [steps[0]] == steps[..1];
    assert steps[..1] + [steps[1]] == steps[..2]
           && steps[..2] + [steps[2]] == steps[..3] && steps[..3] + [steps[3]] == steps;
    assert IdOf(0) == 1;
  }

  /** A worker at rest with one live session, whose id the counter gives out again next. */
  predicate Wrapped(s: State) {
    && s.tickets == U64_LIMIT && s.sessions == map[1 := Session(0, 7)]
    && |s.calls| == 1 && s.queue == [] && s.busy.None?
    && s.prepared == map[] && s.waiting == map[0 := 0]
  }

  lemma WrappedOpens(s: State)
    requires Wrapped(s)
    ensures Enabled(s, Prepare(1))
    ensures var s1 := Next(s, Prepare(1));
            && Enabled(s1, Send(1, Open(0), 0))
            && var s2 := Next(s1, Send(1, Open(0), 0));
               && Enabled(s2, Take)
               && var s3 := Next(s2, Take);
                  && s3.tickets == U64_LIMIT + 1 && s3.busy == Some(1) && |s3.calls| == 2
                  && s3.calls[1].kind.Open? && s3.calls[1].session in s3.sessions
  {
    assert IdOf(U64_LIMIT) == 1;
  }

  /** One id past the limit suffices: the counter has wrapped, and an open is about to overwrite a live session. */
  lemma OpenOverwritesAfterWrap() returns (steps: seq<Step>)
    ensures var s := After(steps);
            && s.tickets == U64_LIMIT + 1 && s.busy == Some(1) && |s.calls| == 2 && s.calls[1].kind.Open?
            && s.calls[1].session in s.sessions
  {
    OpenOneOpens();
    WasteAdvances(OpenOne(), 1, U64_LIMIT - 1);
    var wasted := OpenOne() + Waste(1, U64_LIMIT - 1);
    WrappedOpens(After(wasted));
    AfterStep(wasted, Prepare(1));
    var p := wasted + [Prepare(1)];
    AfterStep(p, Send(1, Open(0), 0));
    var q := p + [Send(1, Open(0), 0)];
    AfterStep(q, Take);
    steps := q + [Take];
  }

  /** The session of command `n` was open at its turn. */
  ghost predicate LiveAtTurn(s: State, n: nat)
    requires n < |s.remotes| <= |s.calls|
  {
    exists i :: LiveSince(s, n, s.calls[n].session, i)
  }

  /**
   A command fails for want of its session exactly when it is not an open and that session is not live at
   its turn; otherwise it fails exactly when the remote side does. Closes and puts are acknowledged, as is
   an open to the caller, who has the session id; the others get the value of their own remote result.
   */
  lemma {:induction false} AnswersExact(steps: seq<Step>, n: nat)
    requires n < |After(steps).handled|
    ensures var s := After(steps);
            && n < |s.remotes| <= |s.calls|
            && var (kind, answer) := (s.calls[n].kind, s.handled[n].answer);
               && (answer == SessionMissing <==> !kind.Open? && !LiveAtTurn(s, n))
               && (answer == RemoteError <==> (kind.Open? || LiveAtTurn(s, n)) && !s.remotes[n].ok)
               && (answer == Ack || answer.Done? <==> (kind.Open? || LiveAtTurn(s, n)) && s.remotes[n].ok)
               && (answer == Ack ==> kind.Open? || kind == Close || kind == Put)
               && (answer.Done? ==> kind in {Get, Range, Query, Command, Batch} && answer.value == s.remotes[n].value)
               && (s.handled[n].request.Some? <==> !kind.Open? && LiveAtTurn(s, n))
  {
    RunInv(steps);
    LiveAt(After(steps), n, After(steps).calls[n].session);
  }

  /** What a caller is told about its command. */
  ghost predicate Told(s: State, n: nat, result: Answer)
    requires n < |s.remotes| <= |s.calls|
  {
    var (kind, remote) := (s.calls[n].kind, s.remotes[n]);
    if !kind.Open? && !LiveAtTurn(s, n) then result == SessionMissing
    else if !remote.ok then result == RemoteError
    else if kind.Open? then result == Done(s.calls[n].session)
    else if kind == Close || kind == Put then result == Ack
    else result == Done(remote.value)
  }

  /** Over every run, every result returned is the one its command earned, and goes to the caller of the command. */
  lemma {:induction false} ResultsExact(steps: seq<Step>, i: nat)
    requires i < |After(steps).returned|
    ensures var s := After(steps);
            var r := s.returned[i];
            && r.chan < |s.remotes| <= |s.calls|
            && r.caller == s.calls[r.chan].caller && Told(s, r.chan, r.result)
  {
    RunInv(steps);
    var s := After(steps);
    assert RightCaller(s, s.returned[i]);
    AnswersExact(steps, s.returned[i].chan);
  }

  /** An open that returns an id returns the one it was given, and that session was live once it was handled. */
  lemma {:induction false} OpenReturnsItsSession(steps: seq<Step>, i: nat)
    requires i < |After(steps).returned|
    ensures var s := After(steps);
            var r := s.returned[i];
            && r.chan < |s.remotes| <= |s.calls|
            && (s.calls[r.chan].kind.Open? && r.result.Done? ==>
                  && r.result.value == s.calls[r.chan].session == IdOf(s.calls[r.chan].ticket)
                  && LiveSince(s, r.chan + 1, r.result.value, r.chan))
  {
    RunInv(steps);
    var s := After(steps);
    assert RightCaller(s, s.returned[i]);
  }
}
