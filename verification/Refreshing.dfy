/**
 Refreshes in whole runs of the interceptor: which credentials reach the authenticator and why, which
 credential is current, in which order callers wait, and in which order they are served.
 */
module Refreshing {
  import opened Options
  import opened Authentication

  /** A refresh of a credential, started at a time. */
  datatype Refresh = Refresh(credential: Credential, at: real)

  /** The refresh that an event starts: it asks for one, and the window has room. */
  function Started(s: System, e: Event): seq<Refresh> {
    if Wanted(s, e).Some? && !WindowFull(s.core, e.now) then [Refresh(Wanted(s, e).value, e.later)] else []
  }

  /** All that the events of a run start, in order. */
  function AllStarted(start: System, events: seq<Event>): seq<Refresh>
    requires Run(start, events).Some?
    decreases |events|
  {
    if events == [] then []
    else
      var before := events[..|events| - 1];
      AllStarted(start, before) + Started(Run(start, before).value, events[|events| - 1])
  }

  /** The credentials that the queue is going to hand to the authenticator. */
  function Dispatched(queue: seq<Block>): seq<Credential> {
    if queue == [] then []
    else (if queue[0].StartRefresh? then [queue[0].credential] else []) + Dispatched(queue[1..])
  }

  /** The credentials that were handed to the authenticator or are going to be, with the timestamps. */
  predicate Recorded(s: System, refreshes: seq<Refresh>) {
    var credentials := s.handed + Dispatched(s.core.queue);
    && |credentials| == |s.core.stamps| == |refreshes|
    && forall i :: 0 <= i < |refreshes| ==> refreshes[i] == Refresh(credentials[i], s.core.stamps[i])
  }

  lemma {:induction false} DispatchedAppend(queue: seq<Block>, b: Block)
    ensures Dispatched(queue + [b]) == Dispatched(queue) + (if b.StartRefresh? then [b.credential] else [])
  {
    hide Dispatched;
    DispatchedFirst(queue + [b]);
    if queue == [] {
      NoneDispatched();
      assert (queue + [b])[1..] == [];
    } else {
      DispatchedFirst(queue);
      assert (queue + [b])[1..] == queue[1..] + [b];
      DispatchedAppend(queue[1..], b);
    }
  }

  lemma NoneDispatched()
    ensures Dispatched([]) == []
  {
  }

  lemma DispatchedFirst(queue: seq<Block>)
    requires queue != []
    ensures Dispatched(queue) == (if queue[0].StartRefresh? then [queue[0].credential] else []) + Dispatched(queue[1..])
  {
  }

  /** What a lock region adds: the credential to the queue, and the time to the timestamps. */
  predicate Adds(c: Core, c2: Core, refreshes: seq<Refresh>) {
    if |refreshes| == 1 then
      Dispatched(c2.queue) == Dispatched(c.queue) + [refreshes[0].credential] && c2.stamps == c.stamps + [refreshes[0].at]
    else refreshes == [] && Dispatched(c2.queue) == Dispatched(c.queue) && c2.stamps == c.stamps
  }

  lemma RefreshedAdds(c: Core, credential: Credential, now: real, later: real)
    ensures Adds(c, Refreshed(c, credential, now, later), if Excessive(c, now) then [] else [Refresh(credential, later)])
  {
    hide Excessive;
    DispatchedAppend(c.queue, StartRefresh(credential));
    DispatchedAppend(c.queue, Reject(ExcessiveRefresh, c.adaptOperations, c.requestsToRetry));
  }

  lemma AdaptedAdds(c: Core, op: nat, requiresRefresh: bool, now: real, later: real)
    ensures Adds(c, Adapted(c, op, requiresRefresh, now, later).0,
      if !c.isRefreshing && requiresRefresh && c.credential.Some? && !Excessive(c, now) then [Refresh(c.credential.value, later)] else [])
  {
    hide Refreshed;
    if !c.isRefreshing && requiresRefresh && c.credential.Some? {
      RefreshedAdds(c.(adaptOperations := c.adaptOperations + [op]), c.credential.value, now, later);
    }
  }

  lemma QueuedAdds(c: Core, completion: nat, credential: Credential, now: real, later: real)
    ensures Adds(c, Queued(c, completion, credential, now, later),
      if !c.isRefreshing && !Excessive(c, now) then [Refresh(credential, later)] else [])
  {
    hide Refreshed;
    if !c.isRefreshing { RefreshedAdds(c.(requestsToRetry := c.requestsToRetry + [completion]), credential, now, later); }
  }

  lemma Adding(s: System, t: System, refreshes: seq<Refresh>, more: seq<Refresh>)
    requires Recorded(s, refreshes) && Adds(s.core, t.core, more) && t.handed == s.handed
    ensures Recorded(t, refreshes + more)
  {
    assert more == [] ==> refreshes + more == refreshes;
    var before, after := s.handed + Dispatched(s.core.queue), t.handed + Dispatched(t.core.queue);
    assert |more| == 1 ==> after == before + [more[0].credential];
  }

  /** What is left of the block at the head hands out the same, and a refresh that begins is handed over. */
  lemma HeadRecorded(s: System, b: Block)
    requires s.core.queue != []
    ensures !b.StartRefresh? && !s.core.queue[0].StartRefresh? ==> Dispatched(WithHead(s.core, b).queue) == Dispatched(s.core.queue)
    ensures s.core.queue[0].StartRefresh? ==> Dispatched(s.core.queue) == [s.core.queue[0].credential] + Dispatched(s.core.queue[1..])
    ensures !s.core.queue[0].StartRefresh? ==> Dispatched(s.core.queue) == Dispatched(s.core.queue[1..])
  {
    assert WithHead(s.core, b).queue[1..] == s.core.queue[1..];
  }

  lemma SameRecord(s: System, t: System, refreshes: seq<Refresh>)
    requires Recorded(s, refreshes) && t.core.stamps == s.core.stamps
    requires t.handed + Dispatched(t.core.queue) == s.handed + Dispatched(s.core.queue)
    ensures Recorded(t, refreshes + [])
  {
    assert refreshes + [] == refreshes;
  }

  lemma QueueRecorded(s: System, e: Event, refreshes: seq<Refresh>)
    requires e.RunQueue? && Step(s, e).Some? && Recorded(s, refreshes) && StampsPast(s)
    ensures Recorded(Step(s, e).value, refreshes + Started(s, e))
  {
    hide Adapted, Dispatched, Recorded, Adds, Excessive, WindowFull;
    var t, b := Step(s, e).value, s.core.queue[0];
    match b
    case StartRefresh(c) =>
      HeadRecorded(s, b);
      assert s.handed + ([c] + Dispatched(t.core.queue)) == s.handed + [c] + Dispatched(t.core.queue);
      SameRecord(s, t, refreshes);
    case Replay(ops, completions) =>
      if ops != [] {
        ReplayRecorded(s, e, refreshes);
      } else {
        HeadRecorded(s, Replay(ops, if completions == [] then [] else completions[1..]));
        SameRecord(s, t, refreshes);
      }
    case Reject(error, ops, completions) =>
      HeadRecorded(s, if ops != [] then Reject(error, ops[1..], completions)
                      else Reject(error, ops, if completions == [] then [] else completions[1..]));
      SameRecord(s, t, refreshes);
  }

  lemma ReplayRecorded(s: System, e: Event, refreshes: seq<Refresh>)
    requires e.RunQueue? && Step(s, e).Some? && Recorded(s, refreshes) && StampsPast(s)
    requires s.core.queue[0].Replay? && s.core.queue[0].ops != []
    ensures Recorded(Step(s, e).value, refreshes + Started(s, e))
  {
    hide Adapted, Recorded, Excessive, WindowFull, Dispatched;
    var b := s.core.queue[0];
    var left := Replay(b.ops[1..], b.completions);
    var waiting := WithHead(s.core, left);
    HeadRecorded(s, left);
    ExcessiveIsFull(s, e.now);
    SameWindow(s.core, waiting, e.now);
    AdaptedAdds(waiting, b.ops[0], e.requiresRefresh, e.now, e.later);
    Adding(s, Step(s, e).value, refreshes, Started(s, e));
  }

  lemma StepRecorded(s: System, e: Event, refreshes: seq<Refresh>)
    requires Step(s, e).Some? && Recorded(s, refreshes) && StampsPast(s)
    ensures Recorded(Step(s, e).value, refreshes + Started(s, e))
  {
    hide RunHead, Adapted, Queued, Recorded, Excessive, WindowFull, Dispatched, StampsPast;
    var t := Step(s, e).value;
    match e
    case CallAdapt(op, requiresRefresh, now, later) =>
      ExcessiveIsFull(s, now);
      AdaptedAdds(s.core, op, requiresRefresh, now, later);
      Adding(s, t, refreshes, Started(s, e));
    case DecideRetry(k, authenticated, now, later) =>
      ExcessiveIsFull(s, now);
      if authenticated {
        QueuedAdds(s.core, s.held[k].completion, s.held[k].credential, now, later);
        Adding(s, t, refreshes, Started(s, e));
      } else {
        SameRecord(s, t, refreshes);
      }
    case RunQueue(_, _, _) => QueueRecorded(s, e, refreshes);
    case RefreshDone(outcome) =>
      DispatchedAppend(s.core.queue, t.core.queue[|s.core.queue|]);
      SameRecord(s, t, refreshes);
    case _ => SameRecord(s, t, refreshes);
  }

  lemma {:induction false} RunRecorded(start: System, events: seq<Event>)
    requires Run(start, events).Some? && Recorded(start, []) && StampsPast(start)
    ensures Recorded(Run(start, events).value, AllStarted(start, events)) && StampsPast(Run(start, events).value)
    decreases |events|
  {
    hide Step, Recorded, StampsPast, Started;
    if events != [] {
      var before, e := events[..|events| - 1], events[|events| - 1];
      RunRecorded(start, before);
      StepRecorded(Run(start, before).value, e, AllStarted(start, before));
      StepStamps(Run(start, before).value, e);
    }
  }

  /**
   In every run the credentials that are handed to the authenticator, and the times that are recorded for
   them, are those for which the events of the run ask, one by one and in order: when an operation is adapted
   that requires a refresh, the current one; when a request was authenticated with the credential that was
   read for it, that one; neither while a refresh is outstanding or the window is full.
   */
  lemma RefreshesAreAskedFor(credential: Option<Credential>, window: Option<Window>, clock: real, events: seq<Event>)
    requires Run(Initial(credential, window, clock), events).Some?
    ensures var start := Initial(credential, window, clock);
            Recorded(Run(start, events).value, AllStarted(start, events))
  {
    hide Run, AllStarted;
    RunRecorded(Initial(credential, window, clock), events);
  }

  predicate StartedAt(start: System, events: seq<Event>, n: nat, r: Refresh) {
    n < |events| && Run(start, events[..n]).Some? && Started(Run(start, events[..n]).value, events[n]) == [r]
  }

  lemma {:induction false} StartedSomewhere(start: System, events: seq<Event>, i: nat) returns (n: nat)
    requires Run(start, events).Some? && i < |AllStarted(start, events)|
    ensures StartedAt(start, events, n, AllStarted(start, events)[i])
    decreases |events|
  {
    hide Step, Started;
    var before := events[..|events| - 1];
    if i < |AllStarted(start, before)| {
      n := StartedSomewhere(start, before, i);
      assert events[..n] == before[..n];
    } else {
      n := |before|;
      OneAtMost(Run(start, before).value, events[n]);
    }
  }

  lemma OneAtMost(s: System, e: Event)
    ensures |Started(s, e)| <= 1
  {
    hide Wanted, WindowFull;
  }

  /** Every credential that reaches the authenticator does so because of an event that asked for it. */
  lemma HandedHasReason(credential: Option<Credential>, window: Option<Window>, clock: real, events: seq<Event>, i: nat)
      returns (n: nat)
    requires Run(Initial(credential, window, clock), events).Some?
    requires i < |Run(Initial(credential, window, clock), events).value.handed|
    ensures var start := Initial(credential, window, clock);
            var s := Run(start, events).value;
            && i < |s.core.stamps|
            && n < |events| && Run(start, events[..n]).Some?
            && Wanted(Run(start, events[..n]).value, events[n]) == Some(s.handed[i])
            && s.core.stamps[i] == events[n].later
            && !WindowFull(Run(start, events[..n]).value.core, events[n].now)
  {
    hide Run, AllStarted, Wanted, WindowFull;
    var start := Initial(credential, window, clock);
    RefreshesAreAskedFor(credential, window, clock, events);
    n := StartedSomewhere(start, events, i);
  }

  // ---------------------------------------------------------------------------------------
  // The credential that a retry compares with, and the current one
  // ---------------------------------------------------------------------------------------

  /** The event found this credential current for the retry. */
  predicate ReadAt(start: System, events: seq<Event>, n: nat, completion: nat, credential: Credential) {
    && n < |events| && Run(start, events[..n]).Some?
    && events[n] == CallRetry(completion, true, true) && Run(start, events[..n]).value.core.credential == Some(credential)
  }

  lemma StillHeld(held: seq<Held>, k: nat, h: Held)
    requires k < |held| && h in Without(held, k)
    ensures h in held
  {
  }

  lemma NewlyHeld(s: System, e: Event, h: Held)
    requires Step(s, e).Some? && h in Step(s, e).value.held && h !in s.held && h.Comparing?
    ensures e == CallRetry(h.completion, true, true) && s.core.credential == Some(h.credential)
  {
    hide RunHead, Adapted, Queued, Without;
    if e.DecideRetry? || e.Deliver? { StillHeld(s.held, e.k, h); }
    if e.RunQueue? { QueueHoldsNothing(s, e); }
  }

  lemma QueueHoldsNothing(s: System, e: Event)
    requires e.RunQueue? && Step(s, e).Some?
    ensures Step(s, e).value.held == s.held
  {
    hide Adapted;
  }

  /** A thread that compares does so with the credential that was current when it was called. */
  lemma {:induction false} ComparedWasCurrent(start: System, events: seq<Event>, h: Held) returns (n: nat)
    requires start.held == [] && Run(start, events).Some? && h in Run(start, events).value.held && h.Comparing?
    ensures ReadAt(start, events, n, h.completion, h.credential)
    decreases |events|
  {
    hide Step;
    var before := events[..|events| - 1];
    var s := Run(start, before).value;
    if h in s.held {
      n := ComparedWasCurrent(start, before, h);
      assert events[..n] == before[..n];
    } else {
      n := |before|;
      NewlyHeld(s, events[n], h);
    }
  }

  /** The last credential that was set or came out of a refresh. */
  function Latest(credential: Option<Credential>, events: seq<Event>): Option<Credential>
    decreases |events|
  {
    if events == [] then credential
    else match events[|events| - 1]
      case SetCredential(c) => c
      case RefreshDone(Renewed(c)) => Some(c)
      case _ => Latest(credential, events[..|events| - 1])
  }

  lemma SameCredential(s: System, e: Event)
    requires Step(s, e).Some?
    ensures Step(s, e).value.core.credential == match e
      case SetCredential(c) => c
      case RefreshDone(Renewed(c)) => Some(c)
      case _ => s.core.credential
  {
  }

  lemma {:induction false} CurrentIsLatest(start: System, events: seq<Event>)
    requires Run(start, events).Some?
    ensures Run(start, events).value.core.credential == Latest(start.core.credential, events)
    decreases |events|
  {
    hide Step;
    if events != [] {
      CurrentIsLatest(start, events[..|events| - 1]);
      SameCredential(Run(start, events[..|events| - 1]).value, events[|events| - 1]);
    }
  }

  // ---------------------------------------------------------------------------------------
  // Order
  // ---------------------------------------------------------------------------------------

  /** The operation that an event makes wait. */
  function JoiningOp(s: System, e: Event): seq<nat> {
    if AdaptedOp(s, e).Some? && (s.core.isRefreshing || Wanted(s, e).Some?) then [AdaptedOp(s, e).value] else []
  }

  /** The completion that an event makes wait. */
  function JoiningRetry(s: System, e: Event): seq<nat> {
    if e.DecideRetry? && e.authenticated && e.k < |s.held| && s.held[e.k].Comparing? then [s.held[e.k].completion] else []
  }

  /** What releases everybody who waits, and what they are told. */
  function Released(s: System, e: Event, ops: seq<nat>, completions: seq<nat>): Option<Block> {
    match e
    case RefreshDone(Renewed(_)) => Some(Replay(ops, completions))
    case RefreshDone(Broken(code)) => Some(Reject(RefreshFailed(code), ops, completions))
    case _ =>
      if Wanted(s, e).Some? && WindowFull(s.core, e.now) then Some(Reject(ExcessiveRefresh, ops, completions)) else None
  }

  predicate InOrder(c: Core, ops: seq<nat>, completions: seq<nat>, released: Option<Block>) {
    if released.None? then c.adaptOperations == ops && c.requestsToRetry == completions
    else c.adaptOperations == c.requestsToRetry == [] && c.queue != [] && c.queue[|c.queue| - 1] == released.value
  }

  /** Callers wait in the order in which they came, and are released together, in that order. */
  lemma WaitersInOrder(s: System, e: Event)
    requires Step(s, e).Some? && StampsPast(s)
    ensures var ops, completions := s.core.adaptOperations + JoiningOp(s, e), s.core.requestsToRetry + JoiningRetry(s, e);
            InOrder(Step(s, e).value.core, ops, completions, Released(s, e, ops, completions))
  {
    hide WindowFull, Excessive, StampsPast;
    match e
    case CallAdapt(op, requiresRefresh, now, later) =>
      ExcessiveIsFull(s, now);
      SameWindow(s.core, s.core.(adaptOperations := s.core.adaptOperations + [op]), now);
    case DecideRetry(k, authenticated, now, later) =>
      ExcessiveIsFull(s, now);
      SameWindow(s.core, s.core.(requestsToRetry := s.core.requestsToRetry + [s.held[k].completion]), now);
      assert s.core.adaptOperations + [] == s.core.adaptOperations && s.core.requestsToRetry + [] == s.core.requestsToRetry;
    case RunQueue(requiresRefresh, now, later) => QueueInOrder(s, e);
    case _ =>
  }

  lemma QueueInOrder(s: System, e: Event)
    requires e.RunQueue? && Step(s, e).Some? && StampsPast(s)
    ensures var ops, completions := s.core.adaptOperations + JoiningOp(s, e), s.core.requestsToRetry + JoiningRetry(s, e);
            InOrder(Step(s, e).value.core, ops, completions, Released(s, e, ops, completions))
  {
    hide WindowFull, Excessive, StampsPast;
    ExcessiveIsFull(s, e.now);
    var b := s.core.queue[0];
    assert s.core.adaptOperations + [] == s.core.adaptOperations && s.core.requestsToRetry + [] == s.core.requestsToRetry;
    if b.Replay? && b.ops != [] {
      var waiting := WithHead(s.core, Replay(b.ops[1..], b.completions));
      SameWindow(s.core, waiting.(adaptOperations := waiting.adaptOperations + [b.ops[0]]), e.now);
    }
  }

  function Told(calls: seq<Call>, outcome: Outcome): seq<Delivery> {
    seq(|calls|, i requires 0 <= i < |calls| => Delivery(calls[i], outcome))
  }

  /** The queue goes on with its block `n` times. */
  function Turns(s: System, n: nat): (events: seq<Event>)
    ensures |events| == n
  {
    seq(n, _ => RunQueue(false, s.clock, s.clock))
  }

  /** A block that has nothing to adapt again. */
  predicate Tells(b: Block) {
    b.Reject? || (b.Replay? && b.ops == [])
  }

  function OutcomeOf(b: Block): Outcome {
    if b.Reject? then Failure(b.error) else Retry
  }

  /** What is left of a block when its first caller has been told. */
  function Rest(b: Block): Block
    requires Tells(b) && BlockCalls(b) != []
  {
    match b
    case Replay(ops, completions) => Replay(ops, completions[1..])
    case Reject(error, ops, completions) =>
      if ops != [] then Reject(error, ops[1..], completions) else Reject(error, ops, completions[1..])
  }

  lemma TellsFirst(s: System, b: Block, rest: seq<Block>)
    requires s.core.queue == [b] + rest && s.replaying.None? && Tells(b)
    ensures BlockCalls(b) == [] ==> Step(s, RunQueue(false, s.clock, s.clock)) == Some(s.(core := s.core.(queue := rest)))
    ensures BlockCalls(b) != [] ==>
      && Tells(Rest(b)) && OutcomeOf(Rest(b)) == OutcomeOf(b) && BlockCalls(b) == [BlockCalls(b)[0]] + BlockCalls(Rest(b))
      && Step(s, RunQueue(false, s.clock, s.clock)) == Some(s.(
           core := s.core.(queue := [Rest(b)] + rest), delivered := s.delivered + [Delivery(BlockCalls(b)[0], OutcomeOf(b))]))
  {
    hide AdaptCalls, RetryCalls;
    FirstOp(b.ops, b.completions);
    NobodyCalled();
    assert ([b] + rest)[1..] == rest;
  }

  lemma ToldFirst(calls: seq<Call>, outcome: Outcome, delivered: seq<Delivery>)
    requires calls != []
    ensures delivered + Told(calls, outcome) == delivered + [Delivery(calls[0], outcome)] + Told(calls[1..], outcome)
  {
    assert Told(calls, outcome) == [Delivery(calls[0], outcome)] + Told(calls[1..], outcome);
  }

  /** A block tells everybody in it, operations before completions, in order, and is done. */
  lemma {:induction false} BlockTells(s: System, b: Block, rest: seq<Block>)
    requires s.core.queue == [b] + rest && s.replaying.None? && Tells(b)
    ensures Run(s, Turns(s, |BlockCalls(b)| + 1)) == Some(s.(
      core := s.core.(queue := rest), delivered := s.delivered + Told(BlockCalls(b), if b.Reject? then Failure(b.error) else Retry)))
    decreases |BlockCalls(b)|
  {
    hide Step, Run, BlockCalls, Tells, Rest, Told;
    var e, n := RunQueue(false, s.clock, s.clock), |BlockCalls(b)|;
    TellsFirst(s, b, rest);
    RunNothing(s);
    RunAppends(s, [], e);
    assert [] + [e] == [e];
    if n == 0 {
      assert Turns(s, 1) == [e];
      ToldNobody(s, b);
    } else {
      var t := Step(s, e).value;
      BlockTells(t, Rest(b), rest);
      assert Turns(s, n + 1) == [e] + Turns(t, n);
      RunConcat(s, [e], Turns(t, n));
      ToldFirst(BlockCalls(b), OutcomeOf(b), s.delivered);
    }
  }

  lemma ToldNobody(s: System, b: Block)
    requires BlockCalls(b) == []
    ensures s.delivered + Told(BlockCalls(b), OutcomeOf(b)) == s.delivered
  {
  }
}
