/**
 Alamofire's `AuthenticationInterceptor`: requests arrive on any thread, a lock guards the state, one
 refresh of the credential serves everybody who waits for it, and a sliding window limits refreshes.

 A lock region is one step. Blocks that are dispatched run one after the other on a serial queue.
 Adapt operations and retry completions are known by numbers.
 */
module Authentication {
  import opened Options

  datatype Credential = Credential(id: nat)

  datatype Error = MissingCredential | ExcessiveRefresh | RefreshFailed(code: int)

  datatype Window = Window(interval: real, maximumAttempts: int)

  datatype AdaptResult = Adapt(credential: Credential) | DoNotAdapt(error: Error) | AdaptDeferred

  /** The blocks that lock regions dispatch. */
  datatype Block =
    | StartRefresh(credential: Credential)
    | Replay(ops: seq<nat>, completions: seq<nat>)
    | Reject(error: Error, ops: seq<nat>, completions: seq<nat>)

  /** `MutableState` together with the dispatch queue. */
  datatype Core = Core(
    credential: Option<Credential>, isRefreshing: bool, stamps: seq<real>, window: Option<Window>,
    adaptOperations: seq<nat>, requestsToRetry: seq<nat>, queue: seq<Block>)

  // ---------------------------------------------------------------------------------------
  // What the lock regions compute
  // ---------------------------------------------------------------------------------------

  function CountSince(stamps: seq<real>, min: real): nat {
    if stamps == [] then 0
    else CountSince(stamps[..|stamps| - 1], min) + (if min <= stamps[|stamps| - 1] then 1 else 0)
  }

  predicate Excessive(c: Core, now: real) {
    c.window.Some? && CountSince(c.stamps, now - c.window.value.interval) >= c.window.value.maximumAttempts
  }

  function Drained(c: Core, block: Block): Core {
    c.(adaptOperations := [], requestsToRetry := [], isRefreshing := false, queue := c.queue + [block])
  }

  function Succeeded(c: Core, credential: Credential): Core {
    Drained(c.(credential := Some(credential)), Replay(c.adaptOperations, c.requestsToRetry))
  }

  function Failed(c: Core, error: Error): Core {
    Drained(c, Reject(error, c.adaptOperations, c.requestsToRetry))
  }

  /** The clock is read twice: to look at the window, and later for the new timestamp. */
  function Refreshed(c: Core, credential: Credential, now: real, later: real): Core {
    if Excessive(c, now) then Failed(c, ExcessiveRefresh)
    else c.(stamps := c.stamps + [later], isRefreshing := true, queue := c.queue + [StartRefresh(credential)])
  }

  function Adapted(c: Core, op: nat, requiresRefresh: bool, now: real, later: real): (Core, AdaptResult) {
    if c.isRefreshing then (c.(adaptOperations := c.adaptOperations + [op]), AdaptDeferred)
    else if c.credential.None? then (c, DoNotAdapt(MissingCredential))
    else if requiresRefresh then
      (Refreshed(c.(adaptOperations := c.adaptOperations + [op]), c.credential.value, now, later), AdaptDeferred)
    else (c, Adapt(c.credential.value))
  }

  function Queued(c: Core, completion: nat, credential: Credential, now: real, later: real): Core {
    var c1 := c.(requestsToRetry := c.requestsToRetry + [completion]);
    if c.isRefreshing then c1 else Refreshed(c1, credential, now, later)
  }

  /** The object itself, with its lock held inside each method. */
  class AuthenticationInterceptor {
    var credential: Option<Credential>
    var isRefreshing: bool
    var refreshTimestamps: seq<real>
    const refreshWindow: Option<Window>
    var adaptOperations: seq<nat>
    var requestsToRetry: seq<nat>
    var queue: seq<Block>

    function State(): Core
      reads this
    {
      Core(credential, isRefreshing, refreshTimestamps, refreshWindow, adaptOperations, requestsToRetry, queue)
    }

    constructor (credential: Option<Credential>, refreshWindow: Option<Window>)
      ensures State() == Core(credential, false, [], refreshWindow, [], [], [])
    {
      this.credential := credential;
      this.refreshWindow := refreshWindow;
      isRefreshing, refreshTimestamps, adaptOperations, requestsToRetry, queue := false, [], [], [], [];
    }

    /** The lock region of `adapt`. */
    method AdaptRegion(op: nat, requiresRefresh: bool, now: real, later: real) returns (r: AdaptResult)
      modifies this
      ensures (State(), r) == Adapted(old(State()), op, requiresRefresh, now, later)
      ensures CoreCalls(State()) == old(CoreCalls(State())) + (if r.AdaptDeferred? then multiset{AdaptCall(op)} else multiset{})
    {
      AdaptedCalls(State(), op, requiresRefresh, now, later);
      if isRefreshing {
        adaptOperations := adaptOperations + [op];
        return AdaptDeferred;
      }
      if credential.None? {
        return DoNotAdapt(MissingCredential);
      }
      if requiresRefresh {
        adaptOperations := adaptOperations + [op];
        Refresh(credential.value, now, later);
        return AdaptDeferred;
      }
      return Adapt(credential.value);
    }

    /** The second lock region of `retry`; the credential was read under an earlier lock. */
    method RetryRegion(completion: nat, read: Credential, now: real, later: real)
      modifies this
      ensures State() == Queued(old(State()), completion, read, now, later)
      ensures CoreCalls(State()) == old(CoreCalls(State())) + multiset{RetryCall(completion)}
    {
      QueuedCalls(State(), completion, read, now, later);
      requestsToRetry := requestsToRetry + [completion];
      if isRefreshing {
        return;
      }
      Refresh(read, now, later);
    }

    /** `refresh`, inside the lock */
    method Refresh(c: Credential, now: real, later: real)
      modifies this
      ensures State() == Refreshed(old(State()), c, now, later)
      ensures CoreCalls(State()) == old(CoreCalls(State()))
    {
      RefreshedCalls(State(), c, now, later);
      var excessive := IsRefreshExcessive(now);
      if excessive {
        HandleRefreshFailure(ExcessiveRefresh);
        return;
      }
      refreshTimestamps := refreshTimestamps + [later];
      isRefreshing := true;
      queue := queue + [StartRefresh(c)];
    }

    /** `isRefreshExcessive` */
    method IsRefreshExcessive(now: real) returns (excessive: bool)
      ensures excessive <==> Excessive(State(), now)
    {
      if refreshWindow.None? {
        return false;
      }
      var min := now - refreshWindow.value.interval;
      var attempts := 0;
      for i := 0 to |refreshTimestamps|
        invariant attempts == CountSince(refreshTimestamps[..i], min)
      {
        assert refreshTimestamps[..i + 1][..i] == refreshTimestamps[..i];
        if min <= refreshTimestamps[i] {
          attempts := attempts + 1;
        }
      }
      assert refreshTimestamps[..|refreshTimestamps|] == refreshTimestamps;
      return attempts >= refreshWindow.value.maximumAttempts;
    }

    /** `handleRefreshSuccess` */
    method HandleRefreshSuccess(c: Credential)
      modifies this
      ensures State() == Succeeded(old(State()), c)
      ensures WaitingCalls(State()) == [] && queue == old(queue) + [queue[|old(queue)|]]
      ensures BlockCalls(queue[|old(queue)|]) == old(WaitingCalls(State()))
    {
      NobodyCalled();
      credential := Some(c);
      var ops, completions := adaptOperations, requestsToRetry;
      adaptOperations, requestsToRetry := [], [];
      isRefreshing := false;
      queue := queue + [Replay(ops, completions)];
    }

    /** `handleRefreshFailure` */
    method HandleRefreshFailure(error: Error)
      modifies this
      ensures State() == Failed(old(State()), error)
      ensures WaitingCalls(State()) == [] && queue == old(queue) + [queue[|old(queue)|]]
      ensures BlockCalls(queue[|old(queue)|]) == old(WaitingCalls(State()))
    {
      NobodyCalled();
      var ops, completions := adaptOperations, requestsToRetry;
      adaptOperations, requestsToRetry := [], [];
      isRefreshing := false;
      queue := queue + [Reject(error, ops, completions)];
    }
  }

  // ---------------------------------------------------------------------------------------
  // The system: threads, the queue, the authenticator and a clock around the lock regions
  // ---------------------------------------------------------------------------------------

  /** Something whose completion is owed to a caller. */
  datatype Call = AdaptCall(op: nat) | RetryCall(completion: nat)

  datatype Outcome = Authenticated(credential: Credential) | Retry | DoNotRetry | Failure(error: Error)

  datatype Delivery = Delivery(call: Call, outcome: Outcome)

  /** What a thread holds between a lock region and its next step. */
  datatype Held =
    | Owing(delivery: Delivery)
    | Comparing(completion: nat, credential: Credential)

  datatype System = System(
    core: Core,
    refreshes: nat,              // calls of the authenticator's refresh that have not completed
    held: seq<Held>,             // by threads that called `adapt` or `retry`
    replaying: Option<Delivery>, // by the queue, for an operation that it adapts again
    delivered: seq<Delivery>,
    issued: seq<Call>,
    clock: real,
    handed: seq<Credential>)     // to the authenticator, to be refreshed

  datatype RefreshOutcome = Renewed(credential: Credential) | Broken(code: int)

  datatype Event =
    | CallAdapt(op: nat, requiresRefresh: bool, now: real, later: real)
    | CallRetry(completion: nat, answered: bool, authFailure: bool)
    | DecideRetry(k: nat, authenticated: bool, now: real, later: real)
    | Deliver(k: nat)
    | RunQueue(requiresRefresh: bool, now: real, later: real)
    | DeliverReplayed
    | RefreshDone(outcome: RefreshOutcome)
    | SetCredential(credential: Option<Credential>)

  /** The outcome that `adapt` delivers outside the lock, unless the operation was deferred. */
  function Owed(op: nat, r: AdaptResult): Option<Delivery> {
    match r
    case Adapt(c) => Some(Delivery(AdaptCall(op), Authenticated(c)))
    case DoNotAdapt(e) => Some(Delivery(AdaptCall(op), Failure(e)))
    case AdaptDeferred => None
  }

  function Without<T>(s: seq<T>, k: nat): seq<T>
    requires k < |s|
  {
    s[..k] + s[k + 1..]
  }

  function Hold(s: System, d: Option<Delivery>): System {
    if d.Some? then s.(held := s.held + [Owing(d.value)]) else s
  }

  function Sent(s: System, d: Delivery): System {
    s.(delivered := s.delivered + [d])
  }

  /** One step of the block at the head of the queue; it waits while an operation it adapts is on its way. */
  function RunHead(s: System, requiresRefresh: bool, now: real, later: real): Option<System> {
    if s.core.queue == [] || s.replaying.Some? then None
    else
      var rest := s.core.queue[1..];
      match s.core.queue[0]
      case StartRefresh(c) => Some(s.(core := s.core.(queue := rest), refreshes := s.refreshes + 1, handed := s.handed + [c]))
      case Replay(ops, completions) =>
        if ops != [] then
          var waiting := s.core.(queue := [Replay(ops[1..], completions)] + rest);
          var (core, r) := Adapted(waiting, ops[0], requiresRefresh, now, later);
          Some(s.(core := core, replaying := Owed(ops[0], r), clock := later))
        else if completions != [] then
          Some(Sent(s.(core := s.core.(queue := [Replay(ops, completions[1..])] + rest)), Delivery(RetryCall(completions[0]), Retry)))
        else Some(s.(core := s.core.(queue := rest)))
      case Reject(error, ops, completions) =>
        if ops != [] then
          Some(Sent(s.(core := s.core.(queue := [Reject(error, ops[1..], completions)] + rest)), Delivery(AdaptCall(ops[0]), Failure(error))))
        else if completions != [] then
          Some(Sent(s.(core := s.core.(queue := [Reject(error, ops, completions[1..])] + rest)), Delivery(RetryCall(completions[0]), Failure(error))))
        else Some(s.(core := s.core.(queue := rest)))
  }

  predicate ClockGoesOn(s: System, now: real, later: real) {
    s.clock <= now <= later
  }

  /** The state after an event, if the event can happen. Calls have numbers of their own. */
  function Step(s: System, e: Event): Option<System> {
    match e
    case CallAdapt(op, requiresRefresh, now, later) =>
      if AdaptCall(op) in s.issued || !ClockGoesOn(s, now, later) then None
      else
        var (core, r) := Adapted(s.core, op, requiresRefresh, now, later);
        Some(Hold(s.(core := core, issued := s.issued + [AdaptCall(op)], clock := later), Owed(op, r)))
    case CallRetry(completion, answered, authFailure) =>
      if RetryCall(completion) in s.issued then None
      else
        var s1 := s.(issued := s.issued + [RetryCall(completion)]);
        if !answered || !authFailure then Some(Sent(s1, Delivery(RetryCall(completion), DoNotRetry)))
        else if s.core.credential.None? then Some(Sent(s1, Delivery(RetryCall(completion), Failure(MissingCredential))))
        else Some(s1.(held := s1.held + [Comparing(completion, s.core.credential.value)]))
    case DecideRetry(k, authenticated, now, later) =>
      if k >= |s.held| || !s.held[k].Comparing? || !ClockGoesOn(s, now, later) then None
      else
        var h := s.held[k];
        var s1 := s.(held := Without(s.held, k));
        if !authenticated then Some(Sent(s1, Delivery(RetryCall(h.completion), Retry)))
        else Some(s1.(core := Queued(s.core, h.completion, h.credential, now, later), clock := later))
    case Deliver(k) =>
      if k >= |s.held| || !s.held[k].Owing? then None
      else Some(Sent(s.(held := Without(s.held, k)), s.held[k].delivery))
    case RunQueue(requiresRefresh, now, later) =>
      if !ClockGoesOn(s, now, later) then None else RunHead(s, requiresRefresh, now, later)
    case DeliverReplayed =>
      if s.replaying.None? then None else Some(Sent(s.(replaying := None), s.replaying.value))
    case RefreshDone(outcome) =>
      if s.refreshes == 0 then None
      else
        var core := if outcome.Renewed? then Succeeded(s.core, outcome.credential) else Failed(s.core, RefreshFailed(outcome.code));
        Some(s.(core := core, refreshes := s.refreshes - 1))
    case SetCredential(credential) => Some(s.(core := s.core.(credential := credential)))
  }

  function Initial(credential: Option<Credential>, window: Option<Window>, clock: real): System {
    System(Core(credential, false, [], window, [], [], []), 0, [], None, [], [], clock, [])
  }

  /** The state after a whole run. */
  function Run(s: System, events: seq<Event>): Option<System>
    decreases |events|
  {
    if events == [] then Some(s)
    else match Run(s, events[..|events| - 1])
      case None => None
      case Some(s') => Step(s', events[|events| - 1])
  }

  // ---------------------------------------------------------------------------------------
  // Where calls are
  // ---------------------------------------------------------------------------------------

  function AdaptCalls(ops: seq<nat>): (calls: seq<Call>)
    ensures |calls| == |ops|
  {
    seq(|ops|, i requires 0 <= i < |ops| => AdaptCall(ops[i]))
  }

  function RetryCalls(completions: seq<nat>): (calls: seq<Call>)
    ensures |calls| == |completions|
  {
    seq(|completions|, i requires 0 <= i < |completions| => RetryCall(completions[i]))
  }

  /** The calls that a block will complete or adapt again. */
  function BlockCalls(b: Block): seq<Call> {
    if b.StartRefresh? then [] else AdaptCalls(b.ops) + RetryCalls(b.completions)
  }

  function QueueCalls(queue: seq<Block>): seq<Call> {
    if queue == [] then [] else BlockCalls(queue[0]) + QueueCalls(queue[1..])
  }

  function WaitingCalls(c: Core): seq<Call> {
    AdaptCalls(c.adaptOperations) + RetryCalls(c.requestsToRetry)
  }

  function CoreCalls(c: Core): multiset<Call> {
    multiset(WaitingCalls(c)) + multiset(QueueCalls(c.queue))
  }

  function HeldCall(h: Held): Call {
    if h.Owing? then h.delivery.call else RetryCall(h.completion)
  }

  function HeldCalls(held: seq<Held>): (calls: seq<Call>)
    ensures |calls| == |held|
  {
    seq(|held|, i requires 0 <= i < |held| => HeldCall(held[i]))
  }

  function DeliveredCalls(delivered: seq<Delivery>): (calls: seq<Call>)
    ensures |calls| == |delivered|
  {
    seq(|delivered|, i requires 0 <= i < |delivered| => delivered[i].call)
  }

  function ReplayingCalls(replaying: Option<Delivery>): seq<Call> {
    if replaying.Some? then [replaying.value.call] else []
  }

  /** All places a call can be in, each call as often as it is there. */
  function Places(s: System): multiset<Call> {
    CoreCalls(s.core) + multiset(HeldCalls(s.held)) + multiset(ReplayingCalls(s.replaying)) + multiset(DeliveredCalls(s.delivered))
  }

  lemma AdaptCallsAppend(a: seq<nat>, b: seq<nat>)
    ensures AdaptCalls(a + b) == AdaptCalls(a) + AdaptCalls(b)
  {
  }

  lemma RetryCallsAppend(a: seq<nat>, b: seq<nat>)
    ensures RetryCalls(a + b) == RetryCalls(a) + RetryCalls(b)
  {
  }

  lemma {:induction false} QueueCallsAppend(queue: seq<Block>, b: Block)
    ensures QueueCalls(queue + [b]) == QueueCalls(queue) + BlockCalls(b)
  {
    if queue == [] {
      assert queue + [b] == [b] && [b][1..] == [];
    } else {
      assert (queue + [b])[1..] == queue[1..] + [b];
      QueueCallsAppend(queue[1..], b);
    }
  }

  lemma QueueCallsHead(queue: seq<Block>)
    requires queue != []
    ensures multiset(QueueCalls(queue)) == multiset(BlockCalls(queue[0])) + multiset(QueueCalls(queue[1..]))
  {
  }

  lemma NobodyCalled()
    ensures AdaptCalls([]) + RetryCalls([]) == []
  {
  }

  // What lock regions do to the places.

  lemma DrainedCalls(c: Core, block: Block)
    requires multiset(BlockCalls(block)) == multiset(WaitingCalls(c))
    ensures CoreCalls(Drained(c, block)) == CoreCalls(c)
  {
    QueueCallsAppend(c.queue, block);
    assert AdaptCalls([]) == [] && RetryCalls([]) == [];
    assert WaitingCalls(Drained(c, block)) == [];
  }

  lemma RefreshedCalls(c: Core, credential: Credential, now: real, later: real)
    ensures CoreCalls(Refreshed(c, credential, now, later)) == CoreCalls(c)
  {
    if Excessive(c, now) {
      DrainedCalls(c, Reject(ExcessiveRefresh, c.adaptOperations, c.requestsToRetry));
    } else {
      QueueCallsAppend(c.queue, StartRefresh(credential));
    }
  }

  lemma WaitingMore(c: Core, op: nat)
    ensures CoreCalls(c.(adaptOperations := c.adaptOperations + [op])) == CoreCalls(c) + multiset{AdaptCall(op)}
    ensures CoreCalls(c.(requestsToRetry := c.requestsToRetry + [op])) == CoreCalls(c) + multiset{RetryCall(op)}
  {
    AdaptCallsAppend(c.adaptOperations, [op]);
    RetryCallsAppend(c.requestsToRetry, [op]);
    assert AdaptCalls([op]) == [AdaptCall(op)] && RetryCalls([op]) == [RetryCall(op)];
  }

  /** `adapt` either defers the operation, which then waits or is dispatched, or hands it back. */
  lemma AdaptedCalls(c: Core, op: nat, requiresRefresh: bool, now: real, later: real)
    ensures var (core, r) := Adapted(c, op, requiresRefresh, now, later);
            CoreCalls(core) == CoreCalls(c) + (if r.AdaptDeferred? then multiset{AdaptCall(op)} else multiset{})
  {
    WaitingMore(c, op);
    if !c.isRefreshing && c.credential.Some? && requiresRefresh {
      RefreshedCalls(c.(adaptOperations := c.adaptOperations + [op]), c.credential.value, now, later);
    }
  }

  lemma QueuedCalls(c: Core, completion: nat, credential: Credential, now: real, later: real)
    ensures CoreCalls(Queued(c, completion, credential, now, later)) == CoreCalls(c) + multiset{RetryCall(completion)}
  {
    WaitingMore(c, completion);
    RefreshedCalls(c.(requestsToRetry := c.requestsToRetry + [completion]), credential, now, later);
  }

  // ---------------------------------------------------------------------------------------
  // The invariant
  // ---------------------------------------------------------------------------------------

  function Starts(queue: seq<Block>): nat {
    if queue == [] then 0 else (if queue[0].StartRefresh? then 1 else 0) + Starts(queue[1..])
  }

  lemma {:induction false} StartsAppend(queue: seq<Block>, b: Block)
    ensures Starts(queue + [b]) == Starts(queue) + (if b.StartRefresh? then 1 else 0)
  {
    if queue == [] {
      assert (queue + [b])[1..] == [];
    } else {
      assert (queue + [b])[1..] == queue[1..] + [b];
      StartsAppend(queue[1..], b);
    }
  }

  predicate NoDuplicates(calls: seq<Call>) {
    forall i, j :: 0 <= i < j < |calls| ==> calls[i] != calls[j]
  }

  /** One refresh is outstanding when `isRefreshing` is set, and none otherwise; only then does anybody wait. */
  predicate OneRefresh(c: Core, refreshes: nat) {
    && Starts(c.queue) + refreshes == (if c.isRefreshing then 1 else 0)
    && (c.adaptOperations != [] || c.requestsToRetry != [] ==> c.isRefreshing)
  }

  predicate Invariant(s: System) {
    && OneRefresh(s.core, s.refreshes)
    && Places(s) == multiset(s.issued)
    && NoDuplicates(s.issued)
  }

  lemma RefreshedOne(c: Core, credential: Credential, now: real, later: real, refreshes: nat)
    requires Starts(c.queue) + refreshes == 0 && !c.isRefreshing
    ensures OneRefresh(Refreshed(c, credential, now, later), refreshes)
  {
    StartsAppend(c.queue, StartRefresh(credential));
    StartsAppend(c.queue, Reject(ExcessiveRefresh, c.adaptOperations, c.requestsToRetry));
  }

  lemma AdaptedOne(c: Core, op: nat, requiresRefresh: bool, now: real, later: real, refreshes: nat)
    requires OneRefresh(c, refreshes)
    ensures OneRefresh(Adapted(c, op, requiresRefresh, now, later).0, refreshes)
  {
    if !c.isRefreshing && c.credential.Some? && requiresRefresh {
      RefreshedOne(c.(adaptOperations := c.adaptOperations + [op]), c.credential.value, now, later, refreshes);
    }
  }

  lemma QueuedOne(c: Core, completion: nat, credential: Credential, now: real, later: real, refreshes: nat)
    requires OneRefresh(c, refreshes)
    ensures OneRefresh(Queued(c, completion, credential, now, later), refreshes)
  {
    if !c.isRefreshing {
      RefreshedOne(c.(requestsToRetry := c.requestsToRetry + [completion]), credential, now, later, refreshes);
    }
  }

  lemma HeldWithout(held: seq<Held>, k: nat)
    requires k < |held|
    ensures multiset(HeldCalls(held)) == multiset(HeldCalls(Without(held, k))) + multiset{HeldCall(held[k])}
  {
    var calls := HeldCalls(held);
    assert calls == calls[..k] + [calls[k]] + calls[k + 1..];
    assert HeldCalls(Without(held, k)) == calls[..k] + calls[k + 1..];
  }

  lemma HeldMore(held: seq<Held>, h: Held)
    ensures multiset(HeldCalls(held + [h])) == multiset(HeldCalls(held)) + multiset{HeldCall(h)}
  {
    assert HeldCalls(held + [h]) == HeldCalls(held) + [HeldCall(h)];
  }

  lemma DeliveredMore(delivered: seq<Delivery>, d: Delivery)
    ensures multiset(DeliveredCalls(delivered + [d])) == multiset(DeliveredCalls(delivered)) + multiset{d.call}
  {
    assert DeliveredCalls(delivered + [d]) == DeliveredCalls(delivered) + [d.call];
  }

  lemma IssuedMore(issued: seq<Call>, call: Call)
    requires NoDuplicates(issued) && call !in issued
    ensures NoDuplicates(issued + [call]) && multiset(issued + [call]) == multiset(issued) + multiset{call}
  {
  }

  lemma CallAdaptKeeps(s: System, op: nat, requiresRefresh: bool, now: real, later: real)
    requires Invariant(s) && Step(s, CallAdapt(op, requiresRefresh, now, later)).Some?
    ensures Invariant(Step(s, CallAdapt(op, requiresRefresh, now, later)).value)
  {
    hide CoreCalls, OneRefresh, Adapted, NoDuplicates;
    AdaptedOne(s.core, op, requiresRefresh, now, later, s.refreshes);
    AdaptedCalls(s.core, op, requiresRefresh, now, later);
    IssuedMore(s.issued, AdaptCall(op));
    var d := Owed(op, Adapted(s.core, op, requiresRefresh, now, later).1);
    if d.Some? { HeldMore(s.held, Owing(d.value)); }
  }

  lemma CallRetryKeeps(s: System, completion: nat, answered: bool, authFailure: bool)
    requires Invariant(s) && Step(s, CallRetry(completion, answered, authFailure)).Some?
    ensures Invariant(Step(s, CallRetry(completion, answered, authFailure)).value)
  {
    hide CoreCalls, OneRefresh, NoDuplicates;
    IssuedMore(s.issued, RetryCall(completion));
    DeliveredMore(s.delivered, Delivery(RetryCall(completion), DoNotRetry));
    DeliveredMore(s.delivered, Delivery(RetryCall(completion), Failure(MissingCredential)));
    if s.core.credential.Some? { HeldMore(s.held, Comparing(completion, s.core.credential.value)); }
  }

  lemma DecideRetryKeeps(s: System, k: nat, authenticated: bool, now: real, later: real)
    requires Invariant(s) && Step(s, DecideRetry(k, authenticated, now, later)).Some?
    ensures Invariant(Step(s, DecideRetry(k, authenticated, now, later)).value)
  {
    hide CoreCalls, OneRefresh, NoDuplicates, Queued, HeldCalls, DeliveredCalls;
    var h := s.held[k];
    HeldWithout(s.held, k);
    DeliveredMore(s.delivered, Delivery(RetryCall(h.completion), Retry));
    QueuedOne(s.core, h.completion, h.credential, now, later, s.refreshes);
    QueuedCalls(s.core, h.completion, h.credential, now, later);
  }

  lemma DeliverKeeps(s: System, k: nat)
    requires Invariant(s) && Step(s, Deliver(k)).Some?
    ensures Invariant(Step(s, Deliver(k)).value)
  {
    hide CoreCalls, OneRefresh, NoDuplicates, HeldCalls, DeliveredCalls;
    HeldWithout(s.held, k);
    DeliveredMore(s.delivered, s.held[k].delivery);
  }

  lemma RefreshDoneKeeps(s: System, outcome: RefreshOutcome)
    requires Invariant(s) && Step(s, RefreshDone(outcome)).Some?
    ensures Invariant(Step(s, RefreshDone(outcome)).value)
  {
    hide NoDuplicates, HeldCalls, DeliveredCalls, WaitingCalls, QueueCalls;
    var c := s.core;
    var block := if outcome.Renewed? then Replay(c.adaptOperations, c.requestsToRetry)
                 else Reject(RefreshFailed(outcome.code), c.adaptOperations, c.requestsToRetry);
    StartsAppend(c.queue, block);
    assert WaitingCalls(c) == AdaptCalls(c.adaptOperations) + RetryCalls(c.requestsToRetry) by { WaitingIs(c); }
    var c1 := if outcome.Renewed? then c.(credential := Some(outcome.credential)) else c;
    assert WaitingCalls(c1) == WaitingCalls(c) by { WaitingIs(c); WaitingIs(c1); }
    DrainedCalls(c1, block);
  }

  lemma WaitingIs(c: Core)
    ensures WaitingCalls(c) == AdaptCalls(c.adaptOperations) + RetryCalls(c.requestsToRetry)
  {
  }

  /** Replacing the block at the head of the queue by what is left of it. */
  function WithHead(c: Core, b: Block): Core
    requires c.queue != []
  {
    c.(queue := [b] + c.queue[1..])
  }

  lemma HeadCalls(c: Core, b: Block, taken: seq<Call>)
    requires c.queue != [] && BlockCalls(c.queue[0]) == taken + BlockCalls(b)
    requires !b.StartRefresh? && !c.queue[0].StartRefresh?
    ensures CoreCalls(c) == CoreCalls(WithHead(c, b)) + multiset(taken)
    ensures Starts(WithHead(c, b).queue) == Starts(c.queue)
  {
    QueueCallsHead(c.queue);
    QueueCallsHead(WithHead(c, b).queue);
    assert WithHead(c, b).queue[1..] == c.queue[1..];
    assert WaitingCalls(WithHead(c, b)) == WaitingCalls(c);
  }

  lemma PopCalls(c: Core)
    requires c.queue != [] && BlockCalls(c.queue[0]) == []
    ensures CoreCalls(c.(queue := c.queue[1..])) == CoreCalls(c)
    ensures Starts(c.queue) == (if c.queue[0].StartRefresh? then 1 else 0) + Starts(c.queue[1..])
  {
    QueueCallsHead(c.queue);
    assert WaitingCalls(c.(queue := c.queue[1..])) == WaitingCalls(c);
  }

  lemma FirstOp(ops: seq<nat>, completions: seq<nat>)
    ensures ops != [] ==> AdaptCalls(ops) + RetryCalls(completions) == [AdaptCall(ops[0])] + (AdaptCalls(ops[1..]) + RetryCalls(completions))
    ensures ops == [] && completions != [] ==>
      AdaptCalls(ops) + RetryCalls(completions) == [RetryCall(completions[0])] + (AdaptCalls(ops) + RetryCalls(completions[1..]))
  {
    if ops != [] { AdaptCallsAppend([ops[0]], ops[1..]); assert [ops[0]] + ops[1..] == ops; }
    if completions != [] { RetryCallsAppend([completions[0]], completions[1..]); assert [completions[0]] + completions[1..] == completions; }
  }

  lemma OneRefreshSameWaiting(c: Core, c2: Core, refreshes: nat, refreshes2: nat)
    requires OneRefresh(c, refreshes) && Starts(c2.queue) + refreshes2 == Starts(c.queue) + refreshes
    requires c2.isRefreshing == c.isRefreshing && c2.adaptOperations == c.adaptOperations && c2.requestsToRetry == c.requestsToRetry
    ensures OneRefresh(c2, refreshes2)
  {
  }

  /** The head block starts the refresh, or is finished. */
  lemma PopKeeps(s: System, handed: seq<Credential>)
    requires Invariant(s) && s.core.queue != [] && s.replaying.None? && BlockCalls(s.core.queue[0]) == []
    ensures Invariant(s.(core := s.core.(queue := s.core.queue[1..]),
                         refreshes := s.refreshes + (if s.core.queue[0].StartRefresh? then 1 else 0), handed := handed))
  {
    hide NoDuplicates, HeldCalls, DeliveredCalls, CoreCalls, OneRefresh, Starts;
    PopCalls(s.core);
    OneRefreshSameWaiting(s.core, s.core.(queue := s.core.queue[1..]), s.refreshes,
                          s.refreshes + (if s.core.queue[0].StartRefresh? then 1 else 0));
  }

  /** The head block completes its next call. */
  lemma CompleteKeeps(s: System, b: Block, d: Delivery)
    requires Invariant(s) && s.core.queue != [] && !b.StartRefresh? && !s.core.queue[0].StartRefresh?
    requires BlockCalls(s.core.queue[0]) == [d.call] + BlockCalls(b)
    ensures Invariant(Sent(s.(core := WithHead(s.core, b)), d))
  {
    hide NoDuplicates, HeldCalls, DeliveredCalls, CoreCalls, OneRefresh, Starts;
    HeadCalls(s.core, b, [d.call]);
    OneRefreshSameWaiting(s.core, WithHead(s.core, b), s.refreshes, s.refreshes);
    DeliveredMore(s.delivered, d);
  }

  /** The head block adapts its next operation again. */
  lemma ReplayKeeps(s: System, ops: seq<nat>, completions: seq<nat>, requiresRefresh: bool, now: real, later: real)
    requires Invariant(s) && s.core.queue != [] && s.replaying.None?
    requires ops != [] && s.core.queue[0] == Replay(ops, completions)
    ensures var (core, r) := Adapted(WithHead(s.core, Replay(ops[1..], completions)), ops[0], requiresRefresh, now, later);
            Invariant(s.(core := core, replaying := Owed(ops[0], r), clock := later))
  {
    hide NoDuplicates, HeldCalls, DeliveredCalls, CoreCalls, OneRefresh, Starts, Adapted;
    var b := Replay(ops[1..], completions);
    FirstOp(ops, completions);
    HeadCalls(s.core, b, [AdaptCall(ops[0])]);
    var c := WithHead(s.core, b);
    OneRefreshSameWaiting(s.core, c, s.refreshes, s.refreshes);
    AdaptedOne(c, ops[0], requiresRefresh, now, later, s.refreshes);
    AdaptedCalls(c, ops[0], requiresRefresh, now, later);
  }

  lemma RunQueueKeeps(s: System, requiresRefresh: bool, now: real, later: real)
    requires Invariant(s) && Step(s, RunQueue(requiresRefresh, now, later)).Some?
    ensures Invariant(Step(s, RunQueue(requiresRefresh, now, later)).value)
  {
    hide Invariant, Adapted, AdaptCalls, RetryCalls;
    match s.core.queue[0]
    case StartRefresh(c) => PopKeeps(s, s.handed + [c]);
    case Replay(ops, completions) =>
      FirstOp(ops, completions);
      if ops != [] {
        ReplayKeeps(s, ops, completions, requiresRefresh, now, later);
      } else if completions != [] {
        CompleteKeeps(s, Replay(ops, completions[1..]), Delivery(RetryCall(completions[0]), Retry));
      } else {
        PopKeeps(s, s.handed);
      }
    case Reject(error, ops, completions) =>
      FirstOp(ops, completions);
      if ops != [] {
        CompleteKeeps(s, Reject(error, ops[1..], completions), Delivery(AdaptCall(ops[0]), Failure(error)));
      } else if completions != [] {
        CompleteKeeps(s, Reject(error, ops, completions[1..]), Delivery(RetryCall(completions[0]), Failure(error)));
      } else {
        PopKeeps(s, s.handed);
      }
  }

  lemma DeliverReplayedKeeps(s: System)
    requires Invariant(s) && Step(s, DeliverReplayed).Some?
    ensures Invariant(Step(s, DeliverReplayed).value)
  {
    hide NoDuplicates, HeldCalls, DeliveredCalls, CoreCalls, OneRefresh;
    DeliveredMore(s.delivered, s.replaying.value);
  }

  lemma SetCredentialKeeps(s: System, credential: Option<Credential>)
    requires Invariant(s)
    ensures Invariant(Step(s, SetCredential(credential)).value)
  {
    assert WaitingCalls(s.core.(credential := credential)) == WaitingCalls(s.core);
  }

  /** Every event keeps the invariant. */
  lemma StepKeeps(s: System, e: Event)
    requires Invariant(s) && Step(s, e).Some?
    ensures Invariant(Step(s, e).value)
  {
    hide Invariant, Step;
    match e
    case CallAdapt(op, requiresRefresh, now, later) => CallAdaptKeeps(s, op, requiresRefresh, now, later);
    case CallRetry(completion, answered, authFailure) => CallRetryKeeps(s, completion, answered, authFailure);
    case DecideRetry(k, authenticated, now, later) => DecideRetryKeeps(s, k, authenticated, now, later);
    case Deliver(k) => DeliverKeeps(s, k);
    case RunQueue(requiresRefresh, now, later) => RunQueueKeeps(s, requiresRefresh, now, later);
    case DeliverReplayed => DeliverReplayedKeeps(s);
    case RefreshDone(outcome) => RefreshDoneKeeps(s, outcome);
    case SetCredential(credential) => SetCredentialKeeps(s, credential);
  }

  lemma {:induction false} RunKeeps(s: System, events: seq<Event>)
    requires Invariant(s) && Run(s, events).Some?
    ensures Invariant(Run(s, events).value)
    decreases |events|
  {
    hide Invariant, Step;
    if events != [] {
      RunKeeps(s, events[..|events| - 1]);
      StepKeeps(Run(s, events[..|events| - 1]).value, events[|events| - 1]);
    }
  }

  // ---------------------------------------------------------------------------------------
  // What holds in every reachable state
  // ---------------------------------------------------------------------------------------

  lemma {:induction false} NoDuplicatesOnce(calls: seq<Call>, call: Call)
    requires NoDuplicates(calls)
    ensures multiset(calls)[call] == if call in calls then 1 else 0
  {
    if calls != [] {
      var rest := calls[..|calls| - 1];
      NoDuplicatesOnce(rest, call);
      assert calls == rest + [calls[|calls| - 1]];
    }
  }

  /**
   In every reachable state each call that was made is in exactly one place: waiting for a refresh, in a
   dispatched block, in the hands of a thread, or delivered. No other call is anywhere. While no refresh
   is outstanding nobody waits, and there is never more than one.
   */
  lemma ExactlyOnePlace(credential: Option<Credential>, window: Option<Window>, clock: real, events: seq<Event>, call: Call)
    requires Run(Initial(credential, window, clock), events).Some?
    ensures var s := Run(Initial(credential, window, clock), events).value;
            && Places(s)[call] == (if call in s.issued then 1 else 0)
            && Starts(s.core.queue) + s.refreshes == (if s.core.isRefreshing then 1 else 0)
            && (s.core.adaptOperations != [] || s.core.requestsToRetry != [] ==> s.core.isRefreshing)
  {
    hide Run, Step, Places, NoDuplicates;
    InitialInvariant(credential, window, clock);
    RunKeeps(Initial(credential, window, clock), events);
    NoDuplicatesOnce(Run(Initial(credential, window, clock), events).value.issued, call);
  }

  lemma InitialInvariant(credential: Option<Credential>, window: Option<Window>, clock: real)
    ensures Invariant(Initial(credential, window, clock))
  {
    assert WaitingCalls(Initial(credential, window, clock).core) == [];
  }

  /** Nothing is under way: no refresh, no block, and no thread between two steps. */
  predicate Quiet(s: System) {
    s.refreshes == 0 && s.core.queue == [] && s.held == [] && s.replaying.None?
  }

  /** When a run has come to rest, every call that was made has been completed exactly once. */
  lemma AllDelivered(credential: Option<Credential>, window: Option<Window>, clock: real, events: seq<Event>)
    requires Run(Initial(credential, window, clock), events).Some?
    requires Quiet(Run(Initial(credential, window, clock), events).value)
    ensures var s := Run(Initial(credential, window, clock), events).value;
            multiset(DeliveredCalls(s.delivered)) == multiset(s.issued) && NoDuplicates(s.issued)
  {
    hide Run, Step, NoDuplicates, DeliveredCalls;
    InitialInvariant(credential, window, clock);
    RunKeeps(Initial(credential, window, clock), events);
    var s := Run(Initial(credential, window, clock), events).value;
    assert WaitingCalls(s.core) == [];
    assert HeldCalls(s.held) == [];
  }

  /** Somebody who waits can go on: the refresh is about to start, or its outcome is awaited. */
  lemma WaitersAreServed(s: System)
    requires Invariant(s) && WaitingCalls(s.core) != []
    ensures s.refreshes == 1 || exists i :: 0 <= i < |s.core.queue| && s.core.queue[i].StartRefresh?
  {
    if s.refreshes == 0 { StartsFound(s.core.queue); }
  }

  lemma {:induction false} StartsFound(queue: seq<Block>)
    requires Starts(queue) > 0
    ensures exists i :: 0 <= i < |queue| && queue[i].StartRefresh?
  {
    if !queue[0].StartRefresh? {
      StartsFound(queue[1..]);
      var i :| 0 <= i < |queue[1..]| && queue[1..][i].StartRefresh?;
      assert queue[i + 1].StartRefresh?;
    }
  }

  /**
   The outcome of a refresh releases everybody who waits, in the order in which they came, into one
   block: to be adapted again and retried with the new credential, or to be told the error.
   */
  lemma OutcomeReleasesAll(s: System, outcome: RefreshOutcome)
    requires Invariant(s) && s.refreshes > 0
    ensures var t := Step(s, RefreshDone(outcome)).value;
            && s.refreshes == 1 && t.refreshes == 0 && Starts(t.core.queue) == 0 && !t.core.isRefreshing
            && WaitingCalls(t.core) == []
            && |t.core.queue| == |s.core.queue| + 1 && t.core.queue[..|s.core.queue|] == s.core.queue
            && BlockCalls(t.core.queue[|s.core.queue|]) == WaitingCalls(s.core)
            && (outcome.Renewed? ==> t.core.queue[|s.core.queue|].Replay? && t.core.credential == Some(outcome.credential))
            && (outcome.Broken? ==> t.core.queue[|s.core.queue|].Reject? && t.core.queue[|s.core.queue|].error == RefreshFailed(outcome.code)
                                    && t.core.credential == s.core.credential)
  {
    hide Places;
    var c := s.core;
    StartsAppend(c.queue, Replay(c.adaptOperations, c.requestsToRetry));
    StartsAppend(c.queue, Step(s, RefreshDone(outcome)).value.core.queue[|c.queue|]);
    assert AdaptCalls([]) + RetryCalls([]) == [];
  }

  // ---------------------------------------------------------------------------------------
  // Every run can come to rest
  // ---------------------------------------------------------------------------------------

  lemma RunAppends(s: System, events: seq<Event>, e: Event)
    ensures Run(s, events + [e]) == if Run(s, events).Some? then Step(Run(s, events).value, e) else None
  {
    assert (events + [e])[..|events|] == events;
  }

  lemma {:induction false} RunConcat(s: System, events: seq<Event>, more: seq<Event>)
    requires Run(s, events).Some?
    ensures Run(s, events + more) == Run(Run(s, events).value, more)
    decreases |more|
  {
    hide Step, Run;
    if more == [] {
      assert events + more == events;
      RunNothing(Run(s, events).value);
    } else {
      var before, e := more[..|more| - 1], more[|more| - 1];
      RunConcat(s, events, before);
      RunAppends(s, events + before, e);
      RunAppends(Run(s, events).value, before, e);
      assert before + [e] == more && events + before + [e] == events + more;
    }
  }

  lemma RunNothing(s: System)
    ensures Run(s, []) == Some(s)
  {
  }

  function BlockWeight(b: Block): nat {
    match b
    case StartRefresh(_) => 4
    case Replay(ops, completions) => 1 + 4 * |ops| + 2 * |completions|
    case Reject(_, ops, completions) => 1 + 2 * |ops| + 2 * |completions|
  }

  function QueueWeight(queue: seq<Block>): nat {
    if queue == [] then 0 else BlockWeight(queue[0]) + QueueWeight(queue[1..])
  }

  lemma {:induction false} QueueWeightAppend(queue: seq<Block>, b: Block)
    ensures QueueWeight(queue + [b]) == QueueWeight(queue) + BlockWeight(b)
  {
    hide BlockWeight;
    if queue == [] {
      assert (queue + [b])[1..] == [];
    } else {
      assert (queue + [b])[1..] == queue[1..] + [b];
      QueueWeightAppend(queue[1..], b);
    }
  }

  /** How many steps may still be needed. */
  function Weight(s: System): nat {
    QueueWeight(s.core.queue) + 3 * (|s.core.adaptOperations| + |s.core.requestsToRetry|) + 2 * s.refreshes
    + |s.held| + (if s.replaying.Some? then 1 else 0)
  }

  /** Something that can happen next: a thread goes on, the queue does, or the refresh fails. */
  function NextEvent(s: System): Event {
    if s.held != [] then if s.held[0].Owing? then Deliver(0) else DecideRetry(0, false, s.clock, s.clock)
    else if s.replaying.Some? then DeliverReplayed
    else if s.core.queue != [] then RunQueue(false, s.clock, s.clock)
    else RefreshDone(Broken(0))
  }

  lemma QueueProgress(s: System)
    requires s.core.queue != [] && s.replaying.None?
    ensures var t := RunHead(s, false, s.clock, s.clock); t.Some? && Weight(t.value) < Weight(s) && t.value.issued == s.issued
  {
    var b, rest := s.core.queue[0], s.core.queue[1..];
    assert ([Replay([], [])] + rest)[1..] == rest;
    match b
    case StartRefresh(_) =>
    case Replay(ops, completions) =>
      var b' := if ops != [] then Replay(ops[1..], completions) else if completions != [] then Replay(ops, completions[1..]) else b;
      assert ([b'] + rest)[1..] == rest;
    case Reject(error, ops, completions) =>
      var b' := if ops != [] then Reject(error, ops[1..], completions) else if completions != [] then Reject(error, ops, completions[1..]) else b;
      assert ([b'] + rest)[1..] == rest;
  }

  lemma Progress(s: System)
    requires !Quiet(s)
    ensures var t := Step(s, NextEvent(s)); t.Some? && Weight(t.value) < Weight(s) && t.value.issued == s.issued
  {
    hide RunHead, QueueWeight;
    if s.held == [] && s.replaying.None? {
      if s.core.queue != [] {
        QueueProgress(s);
      } else {
        QueueWeightAppend(s.core.queue, Reject(RefreshFailed(0), s.core.adaptOperations, s.core.requestsToRetry));
      }
    }
  }

  lemma {:induction false} ComesToRest(s: System) returns (events: seq<Event>)
    ensures Run(s, events).Some? && Quiet(Run(s, events).value) && Run(s, events).value.issued == s.issued
    decreases Weight(s)
  {
    hide Step, Run, Weight;
    RunNothing(s);
    if Quiet(s) {
      events := [];
    } else {
      Progress(s);
      var e := NextEvent(s);
      var t := Step(s, e).value;
      var rest := ComesToRest(t);
      RunAppends(s, [], e);
      assert [] + [e] == [e];
      RunConcat(s, [e], rest);
      events := [e] + rest;
    }
  }

  /**
   Nobody is left waiting for good: every run can be continued, without new calls, to a state in which every
   call that was made has been completed exactly once.
   */
  lemma EveryCallCanComplete(credential: Option<Credential>, window: Option<Window>, clock: real, events: seq<Event>)
      returns (more: seq<Event>)
    requires Run(Initial(credential, window, clock), events).Some?
    ensures Run(Initial(credential, window, clock), events + more).Some?
    ensures var s, t := Run(Initial(credential, window, clock), events).value, Run(Initial(credential, window, clock), events + more).value;
            Quiet(t) && t.issued == s.issued && multiset(DeliveredCalls(t.delivered)) == multiset(s.issued) && NoDuplicates(s.issued)
  {
    hide Run, Quiet, NoDuplicates, DeliveredCalls;
    var start := Initial(credential, window, clock);
    more := ComesToRest(Run(start, events).value);
    RunConcat(start, events, more);
    AllDelivered(credential, window, clock, events + more);
  }

  // ---------------------------------------------------------------------------------------
  // Every calm schedule comes to rest
  // ---------------------------------------------------------------------------------------

  /** No new call, no interference, and no operation that is adapted again asks for another refresh. */
  predicate Calm(e: Event) {
    match e
    case CallAdapt(_, _, _, _) => false
    case CallRetry(_, _, _) => false
    case SetCredential(_) => false
    case RunQueue(requiresRefresh, _, _) => !requiresRefresh
    case _ => true
  }

  /** The refreshes that can still complete: dispatched, called, or still to be asked for by a thread. */
  function Pending(s: System): nat {
    Starts(s.core.queue) + s.refreshes + Comparisons(s.held)
  }

  function Comparisons(held: seq<Held>): nat {
    if held == [] then 0 else (if held[0].Comparing? then 1 else 0) + Comparisons(held[1..])
  }

  function HeldWork(held: seq<Held>): nat {
    if held == [] then 0 else (if held[0].Comparing? then 7 else 1) + HeldWork(held[1..])
  }

  function BlockWork(b: Block): nat {
    if b.StartRefresh? then 2 else BlockWeight(b)
  }

  function QueueWork(queue: seq<Block>): nat {
    if queue == [] then 0 else BlockWork(queue[0]) + QueueWork(queue[1..])
  }

  /** The steps that are left while no refresh completes. */
  function Work(s: System): nat {
    QueueWork(s.core.queue) + 3 * (|s.core.adaptOperations| + |s.core.requestsToRetry|) + s.refreshes
    + HeldWork(s.held) + (if s.replaying.Some? then 1 else 0)
  }

  lemma {:induction false} HeldWorkWithout(held: seq<Held>, k: nat)
    requires k < |held|
    ensures HeldWork(held) == HeldWork(Without(held, k)) + (if held[k].Comparing? then 7 else 1)
    ensures Comparisons(held) == Comparisons(Without(held, k)) + (if held[k].Comparing? then 1 else 0)
  {
    if k == 0 {
      assert Without(held, 0) == held[1..];
    } else {
      HeldWorkWithout(held[1..], k - 1);
      assert Without(held, k)[1..] == Without(held[1..], k - 1);
    }
  }

  lemma {:induction false} QueueWorkAppend(queue: seq<Block>, b: Block)
    ensures QueueWork(queue + [b]) == QueueWork(queue) + BlockWork(b)
  {
    hide BlockWork;
    if queue == [] {
      assert (queue + [b])[1..] == [];
    } else {
      assert (queue + [b])[1..] == queue[1..] + [b];
      QueueWorkAppend(queue[1..], b);
    }
  }

  /** One step brings a system closer to rest: fewer refreshes to come, or as many and less work. */
  predicate Closer(s: System, t: System) {
    Pending(t) < Pending(s) || (Pending(t) == Pending(s) && Work(t) < Work(s))
  }

  lemma DecisionLowers(s: System, e: Event)
    requires e.DecideRetry? && Step(s, e).Some?
    ensures Closer(s, Step(s, e).value)
  {
    hide QueueWork, Starts, HeldWork, Comparisons, Excessive;
    HeldWorkWithout(s.held, e.k);
    if e.authenticated {
      var h, c := s.held[e.k], s.core;
      StartsAppend(c.queue, StartRefresh(h.credential));
      QueueWorkAppend(c.queue, StartRefresh(h.credential));
      StartsAppend(c.queue, Reject(ExcessiveRefresh, c.adaptOperations, c.requestsToRetry + [h.completion]));
    }
  }

  lemma RefreshLowers(s: System, outcome: RefreshOutcome)
    requires s.refreshes > 0
    ensures Closer(s, Step(s, RefreshDone(outcome)).value)
  {
    hide HeldWork, Comparisons, Starts;
    var c := s.core;
    StartsAppend(c.queue, Replay(c.adaptOperations, c.requestsToRetry));
    StartsAppend(c.queue, Reject(RefreshFailed(if outcome.Broken? then outcome.code else 0), c.adaptOperations, c.requestsToRetry));
  }

  /** Taking a block from the queue, or putting what is left of it back. */
  lemma HeadWork(c: Core, b: Block)
    requires c.queue != []
    ensures QueueWork(c.queue) == BlockWork(c.queue[0]) + QueueWork(c.queue[1..])
    ensures QueueWork(WithHead(c, b).queue) == BlockWork(b) + QueueWork(c.queue[1..])
    ensures Starts(c.queue) == (if c.queue[0].StartRefresh? then 1 else 0) + Starts(c.queue[1..])
    ensures Starts(WithHead(c, b).queue) == (if b.StartRefresh? then 1 else 0) + Starts(c.queue[1..])
  {
    hide BlockWork;
    assert WithHead(c, b).queue[1..] == c.queue[1..];
  }

  lemma QueueLowers(s: System, now: real, later: real)
    requires RunHead(s, false, now, later).Some?
    ensures Closer(s, RunHead(s, false, now, later).value)
  {
    hide QueueWork, Starts, HeldWork, Comparisons;
    var b := s.core.queue[0];
    match b
    case StartRefresh(_) => HeadWork(s.core, b);
    case Replay(ops, completions) =>
      HeadWork(s.core, if ops != [] then Replay(ops[1..], completions) else if completions != [] then Replay(ops, completions[1..]) else b);
    case Reject(error, ops, completions) =>
      HeadWork(s.core, if ops != [] then Reject(error, ops[1..], completions) else if completions != [] then Reject(error, ops, completions[1..]) else b);
  }

  lemma CalmLowers(s: System, e: Event)
    requires Calm(e) && Step(s, e).Some?
    ensures Closer(s, Step(s, e).value) && Step(s, e).value.issued == s.issued
  {
    hide QueueWork, Starts, HeldWork, Comparisons;
    match e
    case DecideRetry(_, _, _, _) => DecisionLowers(s, e);
    case Deliver(k) => HeldWorkWithout(s.held, k);
    case RunQueue(_, now, later) => QueueLowers(s, now, later);
    case DeliverReplayed =>
    case RefreshDone(outcome) => RefreshLowers(s, outcome);
  }

  function Prefix(schedule: nat -> Event, n: nat): (events: seq<Event>)
    ensures |events| == n
  {
    seq(n, k requires 0 <= k < n => schedule(k))
  }

  /** No calm schedule goes on for ever, in whatever order it lets threads, queue and authenticator act. */
  lemma {:induction false} ScheduleEnds(s: System, schedule: nat -> Event) returns (n: nat)
    requires forall k: nat :: Calm(schedule(k))
    ensures Run(s, Prefix(schedule, n)).None?
    decreases Pending(s), Work(s)
  {
    hide Step, Run, Pending, Work, Calm;
    var e := schedule(0);
    RunNothing(s);
    RunAppends(s, [], e);
    assert [] + [e] == [e] == Prefix(schedule, 1);
    if Step(s, e).None? {
      n := 1;
    } else {
      CalmLowers(s, e);
      var later := (k: nat) => schedule(k + 1);
      var m := ScheduleEnds(Step(s, e).value, later);
      n := m + 1;
      RunConcat(s, [e], Prefix(later, m));
      assert Prefix(schedule, n) == [e] + Prefix(later, m);
    }
  }

  lemma {:induction false} CalmRunIssues(s: System, events: seq<Event>)
    requires Run(s, events).Some? && forall k :: 0 <= k < |events| ==> Calm(events[k])
    ensures Run(s, events).value.issued == s.issued
    decreases |events|
  {
    hide Step, Calm;
    if events != [] {
      CalmRunIssues(s, events[..|events| - 1]);
      CalmLowers(Run(s, events[..|events| - 1]).value, events[|events| - 1]);
    }
  }

  /** Where a calm schedule ends because nothing calm can happen any more, everything is delivered, exactly once. */
  lemma EndOfScheduleDelivers(
      credential: Option<Credential>, window: Option<Window>, clock: real, events: seq<Event>, more: seq<Event>)
    requires Run(Initial(credential, window, clock), events).Some? && Run(Initial(credential, window, clock), events + more).Some?
    requires forall k :: 0 <= k < |more| ==> Calm(more[k])
    requires forall e :: Calm(e) ==> Step(Run(Initial(credential, window, clock), events + more).value, e).None?
    ensures var s, t := Run(Initial(credential, window, clock), events).value, Run(Initial(credential, window, clock), events + more).value;
            Quiet(t) && t.issued == s.issued && multiset(DeliveredCalls(t.delivered)) == multiset(s.issued) && NoDuplicates(s.issued)
  {
    hide Run, Step, Quiet, NoDuplicates, DeliveredCalls;
    var start := Initial(credential, window, clock);
    var s, t := Run(start, events).value, Run(start, events + more).value;
    RunConcat(start, events, more);
    CalmRunIssues(s, more);
    assert Calm(NextEvent(t));
    if !Quiet(t) { Progress(t); }
    AllDelivered(credential, window, clock, events + more);
  }

  // ---------------------------------------------------------------------------------------
  // The sliding window
  // ---------------------------------------------------------------------------------------

  function CountIn(stamps: seq<real>, lo: real, hi: real): nat {
    if stamps == [] then 0
    else CountIn(stamps[..|stamps| - 1], lo, hi) + (if lo <= stamps[|stamps| - 1] <= hi then 1 else 0)
  }

  lemma {:induction false} CountInSince(stamps: seq<real>, lo: real, hi: real, min: real)
    requires min <= lo
    ensures CountIn(stamps, lo, hi) <= CountSince(stamps, min)
    decreases |stamps|
  {
    if stamps != [] { CountInSince(stamps[..|stamps| - 1], lo, hi, min); }
  }

  predicate WithinWindow(stamps: seq<real>, w: Window, lo: real) {
    CountIn(stamps, lo, lo + w.interval) <= (if w.maximumAttempts > 0 then w.maximumAttempts else 0)
  }

  /** A refresh is started only where it keeps every window, wherever it begins, within bounds. */
  lemma RefreshedWindow(c: Core, credential: Credential, now: real, later: real, lo: real)
    requires now <= later && c.window.Some? && WithinWindow(c.stamps, c.window.value, lo)
    ensures WithinWindow(Refreshed(c, credential, now, later).stamps, c.window.value, lo)
  {
    if !Excessive(c, now) {
      var w := c.window.value;
      var stamps := c.stamps + [later];
      assert stamps[..|stamps| - 1] == c.stamps;
      if lo <= later <= lo + w.interval { CountInSince(c.stamps, lo, lo + w.interval, now - w.interval); }
    }
  }

  lemma StepWindow(s: System, e: Event, lo: real)
    requires Step(s, e).Some? && s.core.window.Some? && WithinWindow(s.core.stamps, s.core.window.value, lo)
    ensures Step(s, e).value.core.window == s.core.window
    ensures WithinWindow(Step(s, e).value.core.stamps, s.core.window.value, lo)
  {
    hide WithinWindow, Refreshed;
    match e
    case CallAdapt(op, requiresRefresh, now, later) => AdaptedWindow(s.core, op, requiresRefresh, now, later, lo);
    case DecideRetry(k, authenticated, now, later) =>
      var h := s.held[k];
      QueuedWindow(s.core, h.completion, h.credential, now, later, lo);
    case RunQueue(requiresRefresh, now, later) =>
      if s.core.queue[0].Replay? && s.core.queue[0].ops != [] {
        var b := s.core.queue[0];
        AdaptedWindow(WithHead(s.core, Replay(b.ops[1..], b.completions)), b.ops[0], requiresRefresh, now, later, lo);
      }
    case _ =>
  }

  lemma AdaptedWindow(c: Core, op: nat, requiresRefresh: bool, now: real, later: real, lo: real)
    requires now <= later && c.window.Some? && WithinWindow(c.stamps, c.window.value, lo)
    ensures Adapted(c, op, requiresRefresh, now, later).0.window == c.window
    ensures WithinWindow(Adapted(c, op, requiresRefresh, now, later).0.stamps, c.window.value, lo)
  {
    hide WithinWindow;
    if !c.isRefreshing && c.credential.Some? && requiresRefresh {
      RefreshedWindow(c.(adaptOperations := c.adaptOperations + [op]), c.credential.value, now, later, lo);
    }
  }

  lemma QueuedWindow(c: Core, completion: nat, credential: Credential, now: real, later: real, lo: real)
    requires now <= later && c.window.Some? && WithinWindow(c.stamps, c.window.value, lo)
    ensures Queued(c, completion, credential, now, later).window == c.window
    ensures WithinWindow(Queued(c, completion, credential, now, later).stamps, c.window.value, lo)
  {
    hide WithinWindow;
    RefreshedWindow(c.(requestsToRetry := c.requestsToRetry + [completion]), credential, now, later, lo);
  }

  lemma {:induction false} RunWindow(s: System, events: seq<Event>, lo: real)
    requires Run(s, events).Some? && s.core.window.Some? && WithinWindow(s.core.stamps, s.core.window.value, lo)
    ensures Run(s, events).value.core.window == s.core.window
    ensures WithinWindow(Run(s, events).value.core.stamps, s.core.window.value, lo)
    decreases |events|
  {
    hide WithinWindow, Step;
    if events != [] {
      RunWindow(s, events[..|events| - 1], lo);
      StepWindow(Run(s, events[..|events| - 1]).value, events[|events| - 1], lo);
    }
  }

  /**
   Over a whole run, any closed time interval of the length of the window contains at most
   `maximumAttempts` started refreshes, and none at all if that number is not positive.
   */
  lemma SlidingWindow(credential: Option<Credential>, window: Window, clock: real, events: seq<Event>, lo: real)
    requires Run(Initial(credential, Some(window), clock), events).Some?
    ensures var stamps := Run(Initial(credential, Some(window), clock), events).value.core.stamps;
            CountIn(stamps, lo, lo + window.interval) <= (if window.maximumAttempts > 0 then window.maximumAttempts else 0)
  {
    RunWindow(Initial(credential, Some(window), clock), events, lo);
  }

  // ---------------------------------------------------------------------------------------
  // Timestamps and refreshes
  // ---------------------------------------------------------------------------------------

  function Completions(events: seq<Event>): nat {
    if events == [] then 0
    else Completions(events[..|events| - 1]) + (if events[|events| - 1].RefreshDone? then 1 else 0)
  }

  /** Refreshes that were started and have not completed, less the timestamps. */
  function Balance(c: Core, refreshes: nat): int {
    Starts(c.queue) + refreshes - |c.stamps|
  }

  lemma RefreshedBalance(c: Core, credential: Credential, now: real, later: real, refreshes: nat)
    ensures Balance(Refreshed(c, credential, now, later), refreshes) == Balance(c, refreshes)
  {
    StartsAppend(c.queue, StartRefresh(credential));
    StartsAppend(c.queue, Reject(ExcessiveRefresh, c.adaptOperations, c.requestsToRetry));
  }

  lemma AdaptedBalance(c: Core, op: nat, requiresRefresh: bool, now: real, later: real, refreshes: nat)
    ensures Balance(Adapted(c, op, requiresRefresh, now, later).0, refreshes) == Balance(c, refreshes)
  {
    hide Refreshed;
    if !c.isRefreshing && c.credential.Some? && requiresRefresh {
      RefreshedBalance(c.(adaptOperations := c.adaptOperations + [op]), c.credential.value, now, later, refreshes);
    }
  }

  lemma QueueBalance(s: System, requiresRefresh: bool, now: real, later: real)
    requires RunHead(s, requiresRefresh, now, later).Some?
    ensures var t := RunHead(s, requiresRefresh, now, later).value;
            Balance(t.core, t.refreshes) == Balance(s.core, s.refreshes)
  {
    hide Adapted;
    var b := s.core.queue[0];
    if b.Replay? && b.ops != [] {
      var waiting := s.core.(queue := [Replay(b.ops[1..], b.completions)] + s.core.queue[1..]);
      AdaptedBalance(waiting, b.ops[0], requiresRefresh, now, later, s.refreshes);
    }
  }

  lemma StepBalance(s: System, e: Event)
    requires Step(s, e).Some?
    ensures var t := Step(s, e).value;
            Balance(t.core, t.refreshes) == Balance(s.core, s.refreshes) - (if e.RefreshDone? then 1 else 0)
  {
    hide Refreshed, Adapted, RunHead;
    match e
    case CallAdapt(op, requiresRefresh, now, later) => AdaptedBalance(s.core, op, requiresRefresh, now, later, s.refreshes);
    case DecideRetry(k, authenticated, now, later) =>
      var h := s.held[k];
      RefreshedBalance(s.core.(requestsToRetry := s.core.requestsToRetry + [h.completion]), h.credential, now, later, s.refreshes);
    case RunQueue(requiresRefresh, now, later) => QueueBalance(s, requiresRefresh, now, later);
    case RefreshDone(outcome) =>
      StartsAppend(s.core.queue, Replay(s.core.adaptOperations, s.core.requestsToRetry));
      StartsAppend(s.core.queue, Step(s, e).value.core.queue[|s.core.queue|]);
    case _ =>
  }

  lemma {:induction false} RunBalance(s: System, events: seq<Event>)
    requires Run(s, events).Some?
    ensures var t := Run(s, events).value;
            Balance(t.core, t.refreshes) == Balance(s.core, s.refreshes) - Completions(events)
    decreases |events|
  {
    hide Step, Balance;
    if events != [] {
      RunBalance(s, events[..|events| - 1]);
      StepBalance(Run(s, events[..|events| - 1]).value, events[|events| - 1]);
    }
  }

  /**
   There is one timestamp for each refresh that was started, and for nothing else: as many as outcomes
   have come in, and one more while a refresh is outstanding.
   */
  lemma RefreshesCounted(credential: Option<Credential>, window: Option<Window>, clock: real, events: seq<Event>)
    requires Run(Initial(credential, window, clock), events).Some?
    ensures var core := Run(Initial(credential, window, clock), events).value.core;
            |core.stamps| == Completions(events) + (if core.isRefreshing then 1 else 0)
  {
    hide Run, Step, Places, NoDuplicates;
    var s := Initial(credential, window, clock);
    InitialInvariant(credential, window, clock);
    RunKeeps(s, events);
    RunBalance(s, events);
  }

  // ---------------------------------------------------------------------------------------
  // Outcomes have their reasons
  // ---------------------------------------------------------------------------------------

  /** The operation that an event adapts, for the first time or again. */
  function AdaptedOp(s: System, e: Event): Option<nat> {
    match e
    case CallAdapt(op, _, _, _) => Some(op)
    case RunQueue(_, _, _) =>
      if s.core.queue != [] && s.core.queue[0].Replay? && s.core.queue[0].ops != [] then Some(s.core.queue[0].ops[0]) else None
    case _ => None
  }

  /** At `now`, as many refreshes as are allowed have been started within the window that ends there. */
  predicate WindowFull(c: Core, now: real) {
    c.window.Some? && CountIn(c.stamps, now - c.window.value.interval, now) >= c.window.value.maximumAttempts
  }

  /** The credential for which an event asks for a refresh, unless one is outstanding. */
  function Wanted(s: System, e: Event): (r: Option<Credential>)
    ensures r.Some? ==> e.CallAdapt? || e.RunQueue? || e.DecideRetry?
  {
    if s.core.isRefreshing then None
    else match e
      case CallAdapt(_, requiresRefresh, _, _) => if requiresRefresh then s.core.credential else None
      case RunQueue(requiresRefresh, _, _) => if requiresRefresh && AdaptedOp(s, e).Some? then s.core.credential else None
      case DecideRetry(k, authenticated, _, _) =>
        if authenticated && k < |s.held| && s.held[k].Comparing? then Some(s.held[k].credential) else None
      case _ => None
  }

  /** The event asks for a refresh on behalf of the call, and the window is full. */
  predicate RefreshRefused(s: System, e: Event, call: Call) {
    && Wanted(s, e).Some? && WindowFull(s.core, e.now)
    && match e
       case CallAdapt(op, _, _, _) => call == AdaptCall(op)
       case RunQueue(_, _, _) => AdaptedOp(s, e).Some? && call == AdaptCall(AdaptedOp(s, e).value)
       case DecideRetry(k, _, _, _) => k < |s.held| && s.held[k].Comparing? && call == RetryCall(s.held[k].completion)
       case _ => false
  }

  /** The event finds that the request of this completion was authenticated with another credential. */
  predicate FoundOutdated(s: System, e: Event, completion: nat) {
    e.DecideRetry? && e.k < |s.held| && s.held[e.k].Comparing? && s.held[e.k].completion == completion && !e.authenticated
  }

  /** The event in this state is the reason of the outcome for that very call. */
  predicate Reason(s: System, e: Event, d: Delivery) {
    match d.outcome
    case Authenticated(c) =>
      && d.call.AdaptCall? && AdaptedOp(s, e) == Some(d.call.op)
      && !s.core.isRefreshing && s.core.credential == Some(c) && !e.requiresRefresh
    case Retry =>
      && d.call.RetryCall?
      && (FoundOutdated(s, e, d.call.completion)
          || (e.RefreshDone? && e.outcome.Renewed? && d.call.completion in s.core.requestsToRetry))
    case DoNotRetry => d.call.RetryCall? && e.CallRetry? && e.completion == d.call.completion && !(e.answered && e.authFailure)
    case Failure(MissingCredential) =>
      && s.core.credential.None?
      && (if d.call.AdaptCall? then AdaptedOp(s, e) == Some(d.call.op) && !s.core.isRefreshing
          else e == CallRetry(d.call.completion, true, true))
    case Failure(ExcessiveRefresh) => RefreshRefused(s, e, d.call)
    case Failure(RefreshFailed(code)) => e == RefreshDone(Broken(code)) && d.call in WaitingCalls(s.core)
  }

  predicate ReasonAt(start: System, events: seq<Event>, n: nat, d: Delivery) {
    n < |events| && Run(start, events[..n]).Some? && Reason(Run(start, events[..n]).value, events[n], d)
  }

  ghost predicate HasReason(start: System, events: seq<Event>, d: Delivery) {
    exists n: nat :: ReasonAt(start, events, n, d)
  }

  ghost function Reasons(start: System, events: seq<Event>): iset<Delivery> {
    iset d | HasReason(start, events, d)
  }

  // What is going to be delivered, in blocks and in the hands of threads, has its reason already.

  ghost predicate BlockReasoned(reasons: iset<Delivery>, b: Block) {
    match b
    case StartRefresh(_) => true
    case Replay(_, completions) => forall k :: k in completions ==> Delivery(RetryCall(k), Retry) in reasons
    case Reject(e, ops, completions) =>
      && (forall op :: op in ops ==> Delivery(AdaptCall(op), Failure(e)) in reasons)
      && (forall k :: k in completions ==> Delivery(RetryCall(k), Failure(e)) in reasons)
  }

  ghost predicate QueueReasoned(reasons: iset<Delivery>, queue: seq<Block>) {
    forall i :: 0 <= i < |queue| ==> BlockReasoned(reasons, queue[i])
  }

  ghost predicate Reasoned(reasons: iset<Delivery>, s: System) {
    && QueueReasoned(reasons, s.core.queue)
    && (forall i :: 0 <= i < |s.held| && s.held[i].Owing? ==> s.held[i].delivery in reasons)
    && (s.replaying.Some? ==> s.replaying.value in reasons)
    && (forall i :: 0 <= i < |s.delivered| ==> s.delivered[i] in reasons)
  }

  predicate StampsPast(s: System) {
    forall i :: 0 <= i < |s.core.stamps| ==> s.core.stamps[i] <= s.clock
  }

  /** The check that only looks back counts what lies in the window, since no timestamp is in the future. */
  lemma {:induction false} CountSinceIsIn(stamps: seq<real>, min: real, hi: real)
    requires forall i :: 0 <= i < |stamps| ==> stamps[i] <= hi
    ensures CountSince(stamps, min) == CountIn(stamps, min, hi)
    decreases |stamps|
  {
    if stamps != [] { CountSinceIsIn(stamps[..|stamps| - 1], min, hi); }
  }

  lemma ExcessiveIsFull(s: System, now: real)
    requires StampsPast(s) && s.clock <= now
    ensures Excessive(s.core, now) <==> WindowFull(s.core, now)
  {
    if s.core.window.Some? { CountSinceIsIn(s.core.stamps, now - s.core.window.value.interval, now); }
  }

  lemma MoreReasons(reasons: iset<Delivery>, more: iset<Delivery>, s: System)
    requires Reasoned(reasons, s) && reasons <= more
    ensures Reasoned(more, s)
  {
    forall i | 0 <= i < |s.core.queue| ensures BlockReasoned(more, s.core.queue[i]) {
      assert BlockReasoned(reasons, s.core.queue[i]);
    }
  }

  lemma QueueMore(reasons: iset<Delivery>, queue: seq<Block>, b: Block)
    requires QueueReasoned(reasons, queue) && BlockReasoned(reasons, b)
    ensures QueueReasoned(reasons, queue + [b])
  {
    hide BlockReasoned;
  }

  lemma RefreshedReason(reasons: iset<Delivery>, c: Core, credential: Credential, now: real, later: real)
    requires QueueReasoned(reasons, c.queue)
    requires Excessive(c, now) ==> BlockReasoned(reasons, Reject(ExcessiveRefresh, c.adaptOperations, c.requestsToRetry))
    ensures QueueReasoned(reasons, Refreshed(c, credential, now, later).queue)
  {
    hide QueueReasoned;
    if Excessive(c, now) {
      QueueMore(reasons, c.queue, Reject(ExcessiveRefresh, c.adaptOperations, c.requestsToRetry));
    } else {
      QueueMore(reasons, c.queue, StartRefresh(credential));
    }
  }

  /** Adapting, where nobody else waits. */
  lemma AdaptedReason(reasons: iset<Delivery>, c: Core, op: nat, requiresRefresh: bool, now: real, later: real)
    requires QueueReasoned(reasons, c.queue)
    requires !c.isRefreshing ==> c.adaptOperations == [] && c.requestsToRetry == []
    requires !c.isRefreshing && c.credential.None? ==> Delivery(AdaptCall(op), Failure(MissingCredential)) in reasons
    requires !c.isRefreshing && c.credential.Some? && !requiresRefresh ==> Delivery(AdaptCall(op), Authenticated(c.credential.value)) in reasons
    requires !c.isRefreshing && c.credential.Some? && requiresRefresh && Excessive(c, now)
      ==> Delivery(AdaptCall(op), Failure(ExcessiveRefresh)) in reasons
    ensures var (core, r) := Adapted(c, op, requiresRefresh, now, later);
            QueueReasoned(reasons, core.queue) && (Owed(op, r).Some? ==> Owed(op, r).value in reasons)
  {
    hide QueueReasoned, Refreshed;
    if !c.isRefreshing && c.credential.Some? && requiresRefresh {
      RefreshedReason(reasons, c.(adaptOperations := c.adaptOperations + [op]), c.credential.value, now, later);
    }
  }

  lemma QueuedReason(reasons: iset<Delivery>, c: Core, completion: nat, credential: Credential, now: real, later: real)
    requires QueueReasoned(reasons, c.queue)
    requires !c.isRefreshing ==> c.adaptOperations == [] && c.requestsToRetry == []
    requires !c.isRefreshing && Excessive(c, now) ==> Delivery(RetryCall(completion), Failure(ExcessiveRefresh)) in reasons
    ensures QueueReasoned(reasons, Queued(c, completion, credential, now, later).queue)
  {
    hide QueueReasoned, Refreshed;
    if !c.isRefreshing {
      RefreshedReason(reasons, c.(requestsToRetry := c.requestsToRetry + [completion]), credential, now, later);
    }
  }

  /** All that the event is a reason for is among the reasons. */
  ghost predicate Covers(reasons: iset<Delivery>, s: System, e: Event) {
    forall d :: Reason(s, e, d) ==> d in reasons
  }

  predicate NobodyWaitsIdly(c: Core) {
    !c.isRefreshing ==> c.adaptOperations == [] && c.requestsToRetry == []
  }

  lemma CallReason(reasons: iset<Delivery>, s: System, e: Event)
    requires Reasoned(reasons, s) && Covers(reasons, s, e) && Step(s, e).Some? && StampsPast(s) && NobodyWaitsIdly(s.core)
    requires e.CallAdapt? || e.CallRetry?
    ensures Reasoned(reasons, Step(s, e).value)
  {
    hide QueueReasoned, Adapted, Excessive, WindowFull;
    if e.CallAdapt? {
      ExcessiveIsFull(s, e.now);
      var call := AdaptCall(e.op);
      assert s.core.credential.None? && !s.core.isRefreshing ==> Reason(s, e, Delivery(call, Failure(MissingCredential)));
      assert s.core.credential.Some? && !s.core.isRefreshing && !e.requiresRefresh
        ==> Reason(s, e, Delivery(call, Authenticated(s.core.credential.value)));
      assert !s.core.isRefreshing && s.core.credential.Some? && e.requiresRefresh && Excessive(s.core, e.now)
        ==> Reason(s, e, Delivery(call, Failure(ExcessiveRefresh)));
      AdaptedReason(reasons, s.core, e.op, e.requiresRefresh, e.now, e.later);
    } else {
      var call := RetryCall(e.completion);
      assert !(e.answered && e.authFailure) ==> Reason(s, e, Delivery(call, DoNotRetry));
      assert e.answered && e.authFailure && s.core.credential.None? ==> Reason(s, e, Delivery(call, Failure(MissingCredential)));
    }
  }

  lemma HeldReason(reasons: iset<Delivery>, s: System, e: Event)
    requires Reasoned(reasons, s) && Covers(reasons, s, e) && Step(s, e).Some? && StampsPast(s) && NobodyWaitsIdly(s.core)
    requires e.DecideRetry? || e.Deliver?
    ensures Reasoned(reasons, Step(s, e).value)
  {
    hide QueueReasoned, Queued, Excessive, WindowFull;
    if e.DecideRetry? {
      var h := s.held[e.k];
      assert !e.authenticated ==> Reason(s, e, Delivery(RetryCall(h.completion), Retry));
      if e.authenticated {
        ExcessiveIsFull(s, e.now);
        assert !s.core.isRefreshing && Excessive(s.core, e.now) ==> Reason(s, e, Delivery(RetryCall(h.completion), Failure(ExcessiveRefresh)));
        QueuedReason(reasons, s.core, h.completion, h.credential, e.now, e.later);
      }
    }
  }

  lemma OutcomeReason(reasons: iset<Delivery>, s: System, outcome: RefreshOutcome)
    requires Reasoned(reasons, s) && Covers(reasons, s, RefreshDone(outcome)) && s.refreshes > 0
    ensures Reasoned(reasons, Step(s, RefreshDone(outcome)).value)
  {
    hide QueueReasoned;
    var c, e := s.core, RefreshDone(outcome);
    var block := if outcome.Renewed? then Replay(c.adaptOperations, c.requestsToRetry)
                 else Reject(RefreshFailed(outcome.code), c.adaptOperations, c.requestsToRetry);
    if outcome.Renewed? {
      forall k | k in c.requestsToRetry ensures Delivery(RetryCall(k), Retry) in reasons {
        assert Reason(s, e, Delivery(RetryCall(k), Retry));
      }
    } else {
      WaitersCalled(c);
      forall op | op in c.adaptOperations ensures Delivery(AdaptCall(op), Failure(RefreshFailed(outcome.code))) in reasons {
        assert Reason(s, e, Delivery(AdaptCall(op), Failure(RefreshFailed(outcome.code))));
      }
      forall k | k in c.requestsToRetry ensures Delivery(RetryCall(k), Failure(RefreshFailed(outcome.code))) in reasons {
        assert Reason(s, e, Delivery(RetryCall(k), Failure(RefreshFailed(outcome.code))));
      }
    }
    QueueMore(reasons, c.queue, block);
  }

  lemma WaitersCalled(c: Core)
    ensures forall op :: op in c.adaptOperations ==> AdaptCall(op) in WaitingCalls(c)
    ensures forall k :: k in c.requestsToRetry ==> RetryCall(k) in WaitingCalls(c)
  {
    forall op | op in c.adaptOperations ensures AdaptCall(op) in WaitingCalls(c) {
      var i :| 0 <= i < |c.adaptOperations| && c.adaptOperations[i] == op;
      assert WaitingCalls(c)[i] == AdaptCall(op);
    }
    forall k | k in c.requestsToRetry ensures RetryCall(k) in WaitingCalls(c) {
      var i :| 0 <= i < |c.requestsToRetry| && c.requestsToRetry[i] == k;
      assert WaitingCalls(c)[|c.adaptOperations| + i] == RetryCall(k);
    }
  }

  /** The head block adapts its next operation again. */
  lemma ReplayReason(reasons: iset<Delivery>, s: System, e: Event)
    requires Reasoned(reasons, s) && Covers(reasons, s, e) && Step(s, e).Some? && StampsPast(s) && NobodyWaitsIdly(s.core)
    requires e.RunQueue? && s.core.queue[0].Replay? && s.core.queue[0].ops != []
    ensures Reasoned(reasons, Step(s, e).value)
  {
    hide Adapted, Excessive, WindowFull, QueueReasoned;
    ExcessiveIsFull(s, e.now);
    var b := s.core.queue[0];
    var call, waiting := AdaptCall(b.ops[0]), WithHead(s.core, Replay(b.ops[1..], b.completions));
    HeadReasoned(reasons, s.core, Replay(b.ops[1..], b.completions));
    assert s.core.credential.None? && !s.core.isRefreshing ==> Reason(s, e, Delivery(call, Failure(MissingCredential)));
    assert s.core.credential.Some? && !s.core.isRefreshing && !e.requiresRefresh
      ==> Reason(s, e, Delivery(call, Authenticated(s.core.credential.value)));
    assert !s.core.isRefreshing && s.core.credential.Some? && e.requiresRefresh && Excessive(s.core, e.now)
      ==> Reason(s, e, Delivery(call, Failure(ExcessiveRefresh)));
    SameWindow(s.core, waiting, e.now);
    AdaptedReason(reasons, waiting, b.ops[0], e.requiresRefresh, e.now, e.later);
  }

  /** What is left of the head block has its reasons. */
  lemma HeadReasoned(reasons: iset<Delivery>, c: Core, b: Block)
    requires c.queue != [] && QueueReasoned(reasons, c.queue)
    requires BlockReasoned(reasons, c.queue[0]) ==> BlockReasoned(reasons, b)
    ensures QueueReasoned(reasons, WithHead(c, b).queue) && QueueReasoned(reasons, c.queue[1..]) && BlockReasoned(reasons, c.queue[0])
  {
    hide BlockReasoned;
  }

  /** The head block completes its next call, starts the refresh, or is finished. */
  lemma HeadReason(reasons: iset<Delivery>, s: System, e: Event)
    requires Reasoned(reasons, s) && Step(s, e).Some? && e.RunQueue?
    requires !(s.core.queue[0].Replay? && s.core.queue[0].ops != [])
    ensures Reasoned(reasons, Step(s, e).value)
  {
    hide Adapted, QueueReasoned;
    match s.core.queue[0]
    case StartRefresh(_) => HeadReasoned(reasons, s.core, s.core.queue[0]);
    case Replay(ops, completions) =>
      HeadReasoned(reasons, s.core, if completions == [] then s.core.queue[0] else Replay(ops, completions[1..]));
    case Reject(error, ops, completions) =>
      HeadReasoned(reasons, s.core,
        if ops != [] then Reject(error, ops[1..], completions)
        else if completions != [] then Reject(error, ops, completions[1..]) else s.core.queue[0]);
  }

  lemma SameWindow(c: Core, c2: Core, now: real)
    requires c.window == c2.window && c.stamps == c2.stamps
    ensures Excessive(c, now) == Excessive(c2, now)
  {
  }

  lemma {:induction false} StepReason(reasons: iset<Delivery>, s: System, e: Event)
    requires Reasoned(reasons, s) && Covers(reasons, s, e) && Step(s, e).Some? && StampsPast(s) && NobodyWaitsIdly(s.core)
    ensures Reasoned(reasons, Step(s, e).value)
  {
    hide Covers, NobodyWaitsIdly, StampsPast, QueueReasoned, Adapted, Queued;
    match e
    case CallAdapt(_, _, _, _) => CallReason(reasons, s, e);
    case CallRetry(_, _, _) => CallReason(reasons, s, e);
    case DecideRetry(_, _, _, _) => HeldReason(reasons, s, e);
    case Deliver(_) => HeldReason(reasons, s, e);
    case RunQueue(_, _, _) =>
      if s.core.queue[0].Replay? && s.core.queue[0].ops != [] { ReplayReason(reasons, s, e); } else { HeadReason(reasons, s, e); }
    case DeliverReplayed =>
    case RefreshDone(outcome) => OutcomeReason(reasons, s, outcome);
    case SetCredential(_) =>
  }

  lemma AdaptedStamps(c: Core, op: nat, requiresRefresh: bool, now: real, later: real)
    ensures var stamps := Adapted(c, op, requiresRefresh, now, later).0.stamps; stamps == c.stamps || stamps == c.stamps + [later]
  {
  }

  lemma StepStamps(s: System, e: Event)
    requires StampsPast(s) && Step(s, e).Some?
    ensures StampsPast(Step(s, e).value)
  {
    hide Adapted;
    match e
    case CallAdapt(op, requiresRefresh, now, later) => AdaptedStamps(s.core, op, requiresRefresh, now, later);
    case RunQueue(requiresRefresh, now, later) =>
      var b := s.core.queue[0];
      if b.Replay? && b.ops != [] {
        AdaptedStamps(WithHead(s.core, Replay(b.ops[1..], b.completions)), b.ops[0], requiresRefresh, now, later);
      }
    case _ =>
  }

  /** Reasons stay as a run goes on, and its last event adds its own. */
  lemma ReasonsGrow(start: System, events: seq<Event>)
    requires events != [] && Run(start, events[..|events| - 1]).Some?
    ensures Reasons(start, events[..|events| - 1]) <= Reasons(start, events)
    ensures Covers(Reasons(start, events), Run(start, events[..|events| - 1]).value, events[|events| - 1])
  {
    hide Run, Reason;
    var before := events[..|events| - 1];
    forall d | d in Reasons(start, before) ensures d in Reasons(start, events) {
      var n: nat :| ReasonAt(start, before, n, d);
      assert events[..n] == before[..n];
      assert ReasonAt(start, events, n, d);
    }
    forall d | Reason(Run(start, before).value, events[|before|], d) ensures d in Reasons(start, events) {
      assert ReasonAt(start, events, |before|, d);
    }
  }

  lemma {:induction false} RunReason(start: System, events: seq<Event>)
    requires Invariant(start) && StampsPast(start) && Reasoned(iset{}, start) && Run(start, events).Some?
    ensures Reasoned(Reasons(start, events), Run(start, events).value) && StampsPast(Run(start, events).value)
    decreases |events|
  {
    hide Step, Reasoned, Reasons, StampsPast, Covers, Invariant;
    if events == [] {
      MoreReasons(iset{}, Reasons(start, events), start);
    } else {
      var before, e := events[..|events| - 1], events[|events| - 1];
      var s := Run(start, before).value;
      RunReason(start, before);
      RunKeeps(start, before);
      ReasonsGrow(start, events);
      MoreReasons(Reasons(start, before), Reasons(start, events), s);
      assert NobodyWaitsIdly(s.core) by { NobodyWaits(s); }
      StepReason(Reasons(start, events), s, e);
      StepStamps(s, e);
    }
  }

  lemma NobodyWaits(s: System)
    requires Invariant(s)
    ensures NobodyWaitsIdly(s.core)
  {
  }

  /**
   Every outcome that is delivered in any run has its reason in that run, an event for that very call: a
   request is adapted with the credential that was current when it was; a retry is told to go ahead because
   its own request was outdated, or because it waited when a refresh succeeded; a missing credential was
   missing when this call looked; an excessive refresh was refused to this call with the window full.
   */
  lemma OutcomesHaveReasons(credential: Option<Credential>, window: Option<Window>, clock: real, events: seq<Event>, d: Delivery)
    requires Run(Initial(credential, window, clock), events).Some?
    requires d in Run(Initial(credential, window, clock), events).value.delivered
    ensures HasReason(Initial(credential, window, clock), events, d)
  {
    hide Run, HasReason, Invariant;
    var start := Initial(credential, window, clock);
    InitialInvariant(credential, window, clock);
    RunReason(start, events);
    assert d in Reasons(start, events);
  }
}
