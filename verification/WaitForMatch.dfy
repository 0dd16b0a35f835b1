/** `UAMPWaitForMatchAction`: a match pushed over the WebSocket, the replies to polls of /v1/me, and a
    timeout race to end the wait. */
module WaitForMatch {

  datatype Broadcast = OnFound(matchId: string) | OnTimeout(code: string)

  /** What the game thread may see next. Requests are numbered in the order they are sent; `live` is the
      `liveMatchId` of the reply, empty when there is none or the request failed. */
  datatype Event =
    | PollTick
    | TimeoutTick
    | Push(matchId: string)
    | Reply(request: nat, live: string)
    | SubsystemGone
    | ContextGone

  /** The node's fields, its two timers, its binding, and what it has done so far. */
  datatype Wait = Wait(
    timed: bool,            // Timeout > 0
    done: bool,
    bound: bool,
    polling: bool,
    timing: bool,
    subsystem: bool,        // the weak pointer is valid
    context: bool,          // the world context object is valid
    sent: nat,
    inFlight: set<nat>,
    log: seq<Broadcast>,
    released: nat)          // calls of SetReadyToDestroy

  // ----- what each handler does -----

  function Cleaned(w: Wait): Wait {
    w.(bound := w.bound && !w.subsystem, polling := w.polling && !w.context, timing := w.timing && !w.context)
  }

  function Ended(w: Wait, b: Broadcast): Wait {
    if w.done then w else Cleaned(w).(done := true, log := w.log + [b], released := w.released + 1)
  }

  function Checked(w: Wait): Wait {
    if w.done || !w.subsystem then w else w.(sent := w.sent + 1, inFlight := w.inFlight + {w.sent})
  }

  const NOTHING := Wait(false, false, false, false, false, false, false, 0, {}, [], 0)

  function Activated(timed: bool, world: bool, subsystem: bool): Wait {
    var w := NOTHING.(timed := timed, context := world);
    if !world then w.(log := [OnTimeout("no_world")], released := 1)
    else if !subsystem then w.(log := [OnTimeout("no_subsystem")], released := 1)
    else Checked(w.(subsystem := true, bound := true, polling := true, timing := timed))
  }

  /** One event. A tick of a timer that is not set, a push to a node that is not bound and a reply to no
      request do not happen. */
  function Step(w: Wait, e: Event): Wait {
    match e
    case PollTick => if w.polling then Checked(w) else w
    case TimeoutTick => if w.timing then Ended(w.(timing := false), OnTimeout("timeout")) else w
    case Push(id) => if w.subsystem && w.bound then Ended(w, OnFound(id)) else w
    case Reply(r, live) =>
      if r !in w.inFlight then w else
      var after := w.(inFlight := w.inFlight - {r});
      if live == "" then after else Ended(after, OnFound(live))
    case SubsystemGone => w.(subsystem := false)
    case ContextGone => w.(context := false)
  }

  function Run(start: Wait, trace: seq<Event>): Wait {
    if trace == [] then start else Step(Run(start, trace[..|trace| - 1]), trace[|trace| - 1])
  }

  // ----- the node -----

  class WaitForMatchAction {
    var timeout: real
    var bDone: bool
    var bound: bool
    var pollTimer: bool
    var timeoutTimer: bool
    var subsystem: bool
    var worldCtx: bool
    var sent: nat
    var inFlight: set<nat>
    var broadcasts: seq<Broadcast>
    var released: nat

    function View(): Wait
      reads this
    {
      Wait(timeout > 0.0, bDone, bound, pollTimer, timeoutTimer, subsystem, worldCtx, sent, inFlight, broadcasts, released)
    }

    constructor (timeoutSeconds: real, world: bool)
      ensures timeout == timeoutSeconds && View() == NOTHING.(timed := timeoutSeconds > 0.0, context := world)
    {
      timeout, bDone, bound, pollTimer, timeoutTimer := timeoutSeconds, false, false, false, false;
      subsystem, worldCtx, sent, inFlight, broadcasts, released := false, world, 0, {}, [], 0;
    }

    /** Called once, on the new node. */
    method Activate(subsystemFound: bool)
      requires View() == NOTHING.(timed := timeout > 0.0, context := worldCtx)
      modifies this
      ensures View() == Activated(timeout > 0.0, old(worldCtx), subsystemFound) && timeout == old(timeout)
    {
      if !worldCtx {
        broadcasts := broadcasts + [OnTimeout("no_world")];
        released := released + 1;
        return;
      }
      subsystem := subsystemFound;
      if !subsystem {
        broadcasts := broadcasts + [OnTimeout("no_subsystem")];
        released := released + 1;
        return;
      }
      bound := true;
      pollTimer := true;
      if timeout > 0.0 {
        timeoutTimer := true;
      }
      CheckOnce();
    }

    method CheckOnce()
      modifies this
      ensures View() == Checked(old(View())) && timeout == old(timeout)
    {
      if bDone || !subsystem {
        return;
      }
      inFlight := inFlight + {sent};
      sent := sent + 1;
    }

    /** The callback of a request. */
    method OnReply(request: nat, live: string)
      requires request in inFlight
      modifies this
      ensures View() == Step(old(View()), Reply(request, live)) && timeout == old(timeout)
    {
      inFlight := inFlight - {request};
      if bDone {
        return;
      }
      if live != "" {
        Finish(live);
      }
    }

    method Finish(matchId: string)
      modifies this
      ensures View() == Ended(old(View()), OnFound(matchId)) && timeout == old(timeout)
    {
      if bDone {
        return;
      }
      bDone := true;
      Cleanup();
      broadcasts := broadcasts + [OnFound(matchId)];
      released := released + 1;
    }

    method TimedOut()
      modifies this
      ensures View() == Ended(old(View()), OnTimeout("timeout")) && timeout == old(timeout)
    {
      if bDone {
        return;
      }
      bDone := true;
      Cleanup();
      broadcasts := broadcasts + [OnTimeout("timeout")];
      released := released + 1;
    }

    method Cleanup()
      modifies this
      ensures View() == Cleaned(old(View())) && timeout == old(timeout)
    {
      if subsystem {
        bound := false;
      }
      if worldCtx {
        pollTimer := false;
        timeoutTimer := false;
      }
    }

    /** The engine delivers an event to whatever is still set, bound or waiting for it. */
    method Deliver(e: Event)
      modifies this
      ensures View() == Step(old(View()), e) && timeout == old(timeout)
    {
      match e
      case PollTick =>
        if pollTimer {
          CheckOnce();
        }
      case TimeoutTick =>
        if timeoutTimer {
          timeoutTimer := false;
          TimedOut();
        }
      case Push(id) =>
        if subsystem && bound {
          Finish(id);
        }
      case Reply(r, live) =>
        if r in inFlight {
          OnReply(r, live);
        }
      case SubsystemGone => subsystem := false;
      case ContextGone => worldCtx := false;
    }
  }

  /** A whole wait: the node is made and activated, and meets the events of `trace`. */
  method RunWait(timeoutSeconds: real, world: bool, subsystemFound: bool, trace: seq<Event>) returns (broadcasts: seq<Broadcast>)
    ensures broadcasts == Run(Activated(timeoutSeconds > 0.0, world, subsystemFound), trace).log
  {
    var node := new WaitForMatchAction(timeoutSeconds, world);
    node.Activate(subsystemFound);
    var start := Activated(timeoutSeconds > 0.0, world, subsystemFound);
    var i := 0;
    assert trace[..0] == [];
    while i < |trace|
      invariant 0 <= i <= |trace|
      invariant node.View() == Run(start, trace[..i])
    {
      assert trace[..i + 1][..i] == trace[..i];
      node.Deliver(trace[i]);
      i := i + 1;
    }
    assert trace[..i] == trace;
    broadcasts := node.broadcasts;
  }

  // ----- the reference: the first decisive event wins -----

  predicate Alive(trace: seq<Event>) {
    SubsystemGone !in trace
  }

  /** Requests sent: one at activation and one at every poll tick while the subsystem lives. */
  function Sent(trace: seq<Event>): nat {
    if trace == [] then 1 else
    var before := trace[..|trace| - 1];
    Sent(before) + if trace[|trace| - 1] == PollTick && Alive(before) then 1 else 0
  }

  /** The request was answered in `trace`. */
  predicate Answered(trace: seq<Event>, r: nat) {
    exists j | 0 <= j < |trace| :: trace[j].Reply? && trace[j].request == r < Sent(trace[..j])
  }

  /** After `trace`, `e` would end a wait that nothing has ended yet. */
  predicate Decisive(timed: bool, trace: seq<Event>, e: Event) {
    match e
    case Push(_) => Alive(trace)
    case TimeoutTick => timed
    case Reply(r, live) => live != "" && r < Sent(trace) && !Answered(trace, r)
    case _ => false
  }

  predicate DecisiveAt(timed: bool, trace: seq<Event>, i: nat)
    requires i < |trace|
  {
    Decisive(timed, trace[..i], trace[i])
  }

  predicate Undecided(timed: bool, trace: seq<Event>, n: nat)
    requires n <= |trace|
  {
    forall j | 0 <= j < n :: !DecisiveAt(timed, trace, j)
  }

  function OutcomeOf(e: Event): (b: Broadcast)
    requires e.Push? || e.Reply? || e.TimeoutTick?
  {
    match e
    case Push(id) => OnFound(id)
    case Reply(_, live) => OnFound(live)
    case _ => OnTimeout("timeout")
  }

  // ----- the race -----

  function Start(timed: bool): Wait {
    Activated(timed, true, true)
  }

  /** While nothing decisive has happened everything is still set, and the requests in flight are those sent
      and not answered. */
  ghost predicate Waiting(timed: bool, trace: seq<Event>, w: Wait) {
    && !w.done && w.bound && w.polling && w.timing == timed && w.log == [] && w.released == 0
    && w.subsystem == Alive(trace) && w.context == (ContextGone !in trace) && w.sent == Sent(trace)
    && forall r: nat :: r in w.inFlight <==> r < Sent(trace) && !Answered(trace, r)
  }

  lemma AnsweredStep(trace: seq<Event>, e: Event, r: nat)
    ensures Answered(trace + [e], r) <==> Answered(trace, r) || (e.Reply? && e.request == r < Sent(trace))
  {
    var longer := trace + [e];
    assert longer[..|trace|] == trace;
    forall j | 0 <= j < |trace|
      ensures longer[..j] == trace[..j] && longer[j] == trace[j]
    {
    }
    if e.Reply? && e.request == r < Sent(trace) {
      assert longer[|trace|] == e;
    }
  }

  lemma SentStep(trace: seq<Event>, e: Event)
    ensures Sent(trace + [e]) == Sent(trace) + if e == PollTick && Alive(trace) then 1 else 0
  {
    assert (trace + [e])[..|trace|] == trace;
  }

  lemma AliveStep(trace: seq<Event>, e: Event)
    ensures Alive(trace + [e]) <==> Alive(trace) && e != SubsystemGone
  {
  }

  lemma {:induction false} AnsweredWereSent(trace: seq<Event>, r: nat)
    requires Answered(trace, r)
    ensures r < Sent(trace)
  {
    var n := |trace| - 1;
    var before, e := trace[..n], trace[n];
    assert before + [e] == trace;
    SentStep(before, e);
    AnsweredStep(before, e, r);
    if Answered(before, r) {
      AnsweredWereSent(before, r);
    }
  }

  /** An indecisive event leaves the wait going. */
  lemma WaitingStep(timed: bool, trace: seq<Event>, w: Wait, e: Event)
    requires Waiting(timed, trace, w) && !Decisive(timed, trace, e)
    ensures Waiting(timed, trace + [e], Step(w, e))
  {
    hide Answered, Sent, Alive;
    SentStep(trace, e);
    AliveStep(trace, e);
    var after := Step(w, e);
    forall r: nat
      ensures r in after.inFlight <==> r < Sent(trace + [e]) && !Answered(trace + [e], r)
    {
      AnsweredStep(trace, e, r);
      if Answered(trace, r) {
        AnsweredWereSent(trace, r);
      }
    }
  }

  lemma {:induction false} StillWaiting(timed: bool, trace: seq<Event>)
    requires Undecided(timed, trace, |trace|)
    ensures Waiting(timed, trace, Run(Start(timed), trace))
  {
    if trace == [] {
      forall r: nat
        ensures !Answered(trace, r)
      {
      }
    } else {
      var n := |trace| - 1;
      var before := trace[..n];
      assert before + [trace[n]] == trace;
      forall j | 0 <= j < n
        ensures !DecisiveAt(timed, before, j)
      {
        assert !DecisiveAt(timed, trace, j) && before[..j] == trace[..j];
      }
      StillWaiting(timed, before);
      assert !DecisiveAt(timed, trace, n);
      WaitingStep(timed, before, Run(Start(timed), before), trace[n]);
    }
  }

  /** A decisive event ends the wait with its own outcome; the binding stays only in a subsystem that has gone,
      the timers only if the context object has. */
  lemma DecisiveEnds(timed: bool, trace: seq<Event>, w: Wait, e: Event)
    requires Waiting(timed, trace, w) && Decisive(timed, trace, e)
    ensures Step(w, e).done && Step(w, e).log == [OutcomeOf(e)] && Step(w, e).released == 1
    ensures Step(w, e).bound == (SubsystemGone in trace) && Step(w, e).polling == (ContextGone in trace)
    ensures Step(w, e).timing == (timed && ContextGone in trace && e != TimeoutTick)
  {
    hide Answered, Sent;
  }

  lemma DoneStep(w: Wait, e: Event)
    requires w.done
    ensures Step(w, e).done && Step(w, e).log == w.log && Step(w, e).sent == w.sent && Step(w, e).released == w.released
    ensures Step(w, e).bound == w.bound && Step(w, e).polling == w.polling
  {
  }

  /** Once done, no event broadcasts, sends or releases anything again. */
  lemma {:induction false} NothingAfterwards(w: Wait, trace: seq<Event>)
    requires w.done
    ensures Run(w, trace).done && Run(w, trace).log == w.log
    ensures Run(w, trace).sent == w.sent && Run(w, trace).released == w.released
  {
    hide Step;
    if trace != [] {
      var n := |trace| - 1;
      NothingAfterwards(w, trace[..n]);
      DoneStep(Run(w, trace[..n]), trace[n]);
    }
  }

  lemma {:induction false} RunSplits(start: Wait, a: seq<Event>, b: seq<Event>)
    ensures Run(start, a + b) == Run(Run(start, a), b)
    decreases |b|
  {
    if b == [] {
      assert a + b == a;
    } else {
      var n := |b| - 1;
      assert (a + b)[..|a + b| - 1] == a + b[..n];
      RunSplits(start, a, b[..n]);
    }
  }

  /** Over every trace the first decisive event decides: its outcome is broadcast, once, and nothing else
      ever is; without one nothing is broadcast and the wait goes on. */
  lemma {:induction false} FirstDecisiveWins(timed: bool, trace: seq<Event>)
    ensures var w := Run(Start(timed), trace);
      && (w.done <==> !Undecided(timed, trace, |trace|))
      && (!w.done ==> w.log == [] && w.released == 0)
    ensures forall i | 0 <= i < |trace| && Undecided(timed, trace, i) && DecisiveAt(timed, trace, i) ::
      DecisiveEvent(trace[i]) && Run(Start(timed), trace).log == [OutcomeOf(trace[i])] && Run(Start(timed), trace).released == 1
  {
    if Undecided(timed, trace, |trace|) {
      StillWaiting(timed, trace);
    } else {
      var k := FirstIndex(timed, trace, |trace|);
      EndsAt(timed, trace, k);
      forall i | 0 <= i < |trace| && Undecided(timed, trace, i) && DecisiveAt(timed, trace, i)
        ensures i == k
      {
      }
    }
  }

  predicate DecisiveEvent(e: Event) {
    e.Push? || e.Reply? || e.TimeoutTick?
  }

  ghost function FirstIndex(timed: bool, trace: seq<Event>, n: nat): (k: nat)
    requires n <= |trace| && !Undecided(timed, trace, n)
    ensures k < n && DecisiveAt(timed, trace, k) && Undecided(timed, trace, k)
  {
    if Undecided(timed, trace, n - 1) then n - 1 else FirstIndex(timed, trace, n - 1)
  }

  /** Once done, no event sets or clears the binding or the poll timer. */
  lemma {:induction false} NothingChanges(w: Wait, trace: seq<Event>)
    requires w.done
    ensures Run(w, trace).done && Run(w, trace).bound == w.bound && Run(w, trace).polling == w.polling
  {
    hide Step;
    if trace != [] {
      var n := |trace| - 1;
      NothingChanges(w, trace[..n]);
      DoneStep(Run(w, trace[..n]), trace[n]);
    }
  }

  /** What the first decisive event leaves: its outcome as the only broadcast, the binding exactly if the
      subsystem had gone before it, the poll timer exactly if the context object had. */
  lemma EndsAt(timed: bool, trace: seq<Event>, i: nat)
    requires i < |trace| && Undecided(timed, trace, i) && DecisiveAt(timed, trace, i)
    ensures DecisiveEvent(trace[i])
    ensures Run(Start(timed), trace).done && Run(Start(timed), trace).log == [OutcomeOf(trace[i])]
    ensures Run(Start(timed), trace).released == 1
    ensures Run(Start(timed), trace).bound == (SubsystemGone in trace[..i])
    ensures Run(Start(timed), trace).polling == (ContextGone in trace[..i])
  {
    hide Decisive, Waiting, Run, Step, Start, OutcomeOf;
    var before := trace[..i];
    assert DecisiveEvent(trace[i]) by {
      DecisiveIs(timed, before, trace[i]);
    }
    forall j | 0 <= j < i
      ensures !DecisiveAt(timed, before, j)
    {
      assert !DecisiveAt(timed, trace, j) && before[..j] == trace[..j];
    }
    StillWaiting(timed, before);
    DecisiveEnds(timed, before, Run(Start(timed), before), trace[i]);
    var upTo := trace[..i + 1];
    RunStep(Start(timed), trace, i);
    assert trace == upTo + trace[i + 1..];
    RunSplits(Start(timed), upTo, trace[i + 1..]);
    NothingAfterwards(Run(Start(timed), upTo), trace[i + 1..]);
    NothingChanges(Run(Start(timed), upTo), trace[i + 1..]);
  }

  lemma RunStep(start: Wait, trace: seq<Event>, i: nat)
    requires i < |trace|
    ensures Run(start, trace[..i + 1]) == Step(Run(start, trace[..i]), trace[i])
  {
    hide Step;
    assert trace[..i + 1][..i] == trace[..i];
  }

  lemma DecisiveIs(timed: bool, trace: seq<Event>, e: Event)
    requires Decisive(timed, trace, e)
    ensures DecisiveEvent(e)
  {
  }

  /** Without a world or a subsystem the failure is the only broadcast, although the done flag stays down:
      nothing is set or bound that could call the node. */
  lemma {:induction false} FailedActivationIsFinal(timed: bool, world: bool, trace: seq<Event>)
    ensures var w := Run(Activated(timed, world, false), trace);
      && w.log == [OnTimeout(if world then "no_subsystem" else "no_world")] && w.released == 1
      && !w.done && !w.bound && !w.polling && !w.timing && w.inFlight == {} && w.sent == 0
  {
    if trace != [] {
      FailedActivationIsFinal(timed, world, trace[..|trace| - 1]);
    }
  }

  /** At most one broadcast in any wait, and the node is released exactly when it is made. */
  lemma {:induction false} AtMostOneBroadcast(timed: bool, world: bool, subsystem: bool, trace: seq<Event>)
    ensures var w := Run(Activated(timed, world, subsystem), trace); |w.log| <= 1 && w.released == |w.log|
  {
    if world && subsystem {
      FirstDecisiveWins(timed, trace);
      if !Undecided(timed, trace, |trace|) {
        EndsAt(timed, trace, FirstIndex(timed, trace, |trace|));
      }
    } else {
      FailedActivationIsFinal(timed, world, trace);
      assert Activated(timed, world, subsystem) == Activated(timed, world, false);
    }
  }

  // ----- what is left behind -----

  /** A wait that is over leaves its timers set only if the context object had gone, and its binding only in
      a subsystem that had. */
  predicate Tidy(w: Wait) {
    w.done ==> (w.context ==> !w.polling && !w.timing) && (w.subsystem ==> !w.bound)
  }

  lemma TidyEnded(w: Wait, b: Broadcast)
    requires Tidy(w)
    ensures Tidy(Ended(w, b))
  {
  }

  lemma TidyStep(w: Wait, e: Event)
    requires Tidy(w)
    ensures Tidy(Step(w, e))
  {
    hide Ended;
    match e
    case TimeoutTick => TidyEnded(w.(timing := false), OnTimeout("timeout"));
    case Push(id) => TidyEnded(w, OnFound(id));
    case Reply(r, live) => TidyEnded(w.(inFlight := w.inFlight - {r}), OnFound(live));
    case _ =>
  }

  lemma {:induction false} AlwaysTidy(timed: bool, world: bool, subsystem: bool, trace: seq<Event>)
    ensures Tidy(Run(Activated(timed, world, subsystem), trace))
  {
    hide Step, Tidy;
    var start := Activated(timed, world, subsystem);
    if trace == [] {
      TidyStart(timed, world, subsystem);
    } else {
      var n := |trace| - 1;
      AlwaysTidy(timed, world, subsystem, trace[..n]);
      TidyStep(Run(start, trace[..n]), trace[n]);
    }
  }

  lemma TidyStart(timed: bool, world: bool, subsystem: bool)
    ensures Tidy(Activated(timed, world, subsystem))
  {
  }
}
