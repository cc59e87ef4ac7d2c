/**
 What the event queue guarantees in every interleaving (src/queue_handler.cpp, src/Event.cpp, src/CommandQueue.cpp,
 src/barriers.cpp): order, when actions run, progress, and what finish waits for.
 */
module EventGuarantees {
  import opened Events
  import opened EventInvariants
  import opened EventProtocol
  import opened EventReferences
  import opened Wrappers

  // ---------- status ----------

  lemma GrownTwice(a: State, b: State, c: State)
    requires Grown(a, b) && Grown(b, c)
    ensures Grown(a, c)
  {
  }

  /** No status ever goes up and no final status ever changes, whatever the threads do. */
  lemma {:induction false} RunGrown(s: State, steps: seq<Step>)
    requires Good(s) && IsRun(s, steps)
    ensures Grown(s, After(s, steps))
    decreases |steps|
  {
    if steps != [] {
      StepKeepsGood(s, steps[0]);
      RunGrown(Apply(s, steps[0]), steps[1..]);
      GrownTwice(s, Apply(s, steps[0]), After(s, steps));
    }
  }

  /**
   In every reachable state every accepted callback of a command was called once if its level is reached, else not, and
   with its level or with the error the command ended with.
   */
  lemma CallbacksOnce(steps: seq<Step>, e: nat)
    requires IsRun(INITIAL, steps) && e < |After(INITIAL, steps).events| && !After(INITIAL, steps).events[e].user
    ensures var t := After(INITIAL, steps).events[e];
      && (forall id: nat | id < |t.accepted| ::
            CallCount(t.event.calls, id) == if t.event.status <= t.accepted[id].level then 1 else 0)
      && (forall call | call in t.event.calls ::
            call.data < |t.accepted| && RightArgument(call.argument, t.accepted[call.data], t.event.status))
  {
    Reachable(steps);
    var s := After(INITIAL, steps);
    assert EventRight(s, e);
    var t := s.events[e];
    forall id: nat | id < |t.accepted|
      ensures CallCount(t.event.calls, id) == if t.event.status <= t.accepted[id].level then 1 else 0
    {
      assert CalledOnce(t.event, false, t.accepted[id], id);
    }
  }

  /**
   A callback of a user event has been called exactly if it was registered late, in every reachable state; so of those
   whose level is reached exactly the late ones have been called.
   */
  lemma UserCallbacksExact(steps: seq<Step>, e: nat)
    requires IsRun(INITIAL, steps) && e < |After(INITIAL, steps).events| && After(INITIAL, steps).events[e].user
    ensures var t := After(INITIAL, steps).events[e];
      && (forall id: nat | id < |t.accepted| ::
            && CallCount(t.event.calls, id) == (if t.accepted[id].Late() then 1 else 0)
            && (t.accepted[id].Late() ==> t.event.status <= t.accepted[id].level))
      && (forall call | call in t.event.calls ::
            call.data < |t.accepted| && RightArgument(call.argument, t.accepted[call.data], t.event.status))
  {
    Reachable(steps);
    var s := After(INITIAL, steps);
    assert EventRight(s, e);
    var t := s.events[e];
    forall id: nat | id < |t.accepted|
      ensures CallCount(t.event.calls, id) == (if t.accepted[id].Late() then 1 else 0)
      ensures t.accepted[id].Late() ==> t.event.status <= t.accepted[id].level
    {
      assert CalledOnce(t.event, true, t.accepted[id], id);
    }
  }

  // ---------- user statuses on commands ----------

  /**
   Called on a command, setUserEventStatus always succeeds once; it takes back what was reached exactly if the command
   has ended with another status.
   */
  lemma CommandStatusSetExact(s: State, e: nat, status: int)
    requires Good(s) && e < |s.events| && !s.events[e].user && status <= 0
    ensures SetUserEventStatus(s.events[e].event, status).Success?
    ensures var t := s.events[e];
      Later(t, t.(event := SetUserEventStatus(t.event, status).value)) <==>
      !IsFinal(t.event.status) || t.event.status == status
  {
    assert EventRight(s, e);
  }

  /**
   What becomes of a status set early: each step of the handler keeps it, unless it announces the event as submitted or
   running, or ends it with something else.
   */
  lemma EarlyStatusKeptExact(s: State, result: int)
    requires !s.handler.Idle? && s.handler.e < |s.events| && IsFinal(s.events[s.handler.e].event.status)
    requires s.events[s.handler.e].event.references > 0
    ensures s.handler.e < |HandlerApply(s, result).events|
    ensures var status := s.events[s.handler.e].event.status;
      HandlerApply(s, result).events[s.handler.e].event.status == status <==>
      match s.handler
      case Peeked(_) => false
      case Starting(_) => false
      case Aborting(_) => status == CL_EXEC_STATUS_ERROR_FOR_EVENTS_IN_WAIT_LIST
      case Acted(_, r) => status == r
      case _ => true
  {
    hide Fire;
  }

  // ---------- how an event ends ----------

  /**
   Whatever the threads do after the action of an event has returned, the event ends with what it returned, and keeps
   that status.
   */
  lemma EndsAsActionReturned(s: State, result: int, steps: seq<Step>)
    requires Good(s) && s.handler.Running? && result <= 0
    requires IsRun(HandlerApply(s, result), steps) && Processed(After(HandlerApply(s, result), steps), s.handler.e)
    ensures After(HandlerApply(s, result), steps).events[s.handler.e].event.status == result
  {
    var e, a := s.handler.e, HandlerApply(s, result);
    HeadFacts(s);
    StepKeepsGood(s, Handle(result));
    assert a.handler == Acted(e, result);
    assert EventRight(a, e);
    RunKeepsGood(a, steps);
    RunGrown(a, steps);
    var b := After(a, steps);
    assert EventRight(b, e) && b.events[e].outcome == Some(result);
    ProcessedOutcome(b, e);
  }

  /** The status of a processed event is what its action returned, or the error if that did not run. */
  lemma ProcessedOutcome(s: State, e: nat)
    requires Good(s) && Processed(s, e)
    ensures s.events[e].outcome == if s.events[e].runs == 1 then Some(s.events[e].event.status) else None
  {
    ProcessedIsFinal(s, e);
    assert EventRight(s, e);
    if s.handler.Acted? {
      HeadFacts(s);
    }
  }

  /** The first status that a user gives a user event is the one it has from then on, and no other is accepted. */
  lemma EndsAsUserSaid(s: State, e: nat, status: int, steps: seq<Step>)
    requires Good(s) && ClientEnabled(s, SetUserStatus(e, status)) && status <= 0
    requires s.events[e].event.status == CL_SUBMITTED
    requires IsRun(ClientApply(s, SetUserStatus(e, status)), steps)
    ensures var s' := After(ClientApply(s, SetUserStatus(e, status)), steps);
      && e < |s'.events| && s'.events[e].event.status == status
      && forall other: int :: SetUserEventStatus(s'.events[e].event, other).Failure?
  {
    var a := ClientApply(s, SetUserStatus(e, status));
    assert EventRight(s, e);
    StepKeepsGood(s, Client(SetUserStatus(e, status)));
    assert a.events[e].outcome == Some(status) && EventRight(a, e);
    RunKeepsGood(a, steps);
    RunGrown(a, steps);
    assert EventRight(After(a, steps), e);
  }

  // ---------- order ----------

  predicate Processed(s: State, e: nat) {
    e < |s.events| && s.events[e].Pushed() && s.events[e].position < s.popped
  }

  lemma ProcessedIsFinal(s: State, e: nat)
    requires Good(s) && Processed(s, e)
    ensures IsFinal(s.events[e].event.status) && Decided(s, e)
  {
    assert EventRight(s, e);
  }

  /** When an action runs, everything pushed before is finished and nothing pushed after has begun. */
  lemma ActionRunsInOrder(s: State, x: nat)
    requires Good(s) && s.handler.Running? && x < |s.events| && s.events[x].Pushed()
    ensures s.events[x].position < s.events[s.handler.e].position ==> IsFinal(s.events[x].event.status)
    ensures s.events[x].position > s.events[s.handler.e].position ==>
              s.events[x].event.status == CL_QUEUED && s.events[x].runs == 0
    ensures s.events[s.handler.e].runs == 0
  {
    HeadFacts(s);
    assert EventRight(s, x);
  }

  /** The head waits only for a user event whose status has not been set. */
  lemma PendingOnUserEvent(s: State, result: int)
    requires Good(s) && result <= 0 && s.handler.Checking? && HandlerApply(s, result).handler.Idle?
    ensures var waits := s.events[s.handler.e].waits;
      && s.handler.i < |waits| && waits[s.handler.i] < |s.events|
      && s.events[waits[s.handler.i]].user && !s.events[waits[s.handler.i]].event.userStatusSet
  {
    HeadFacts(s);
    var w := s.events[s.handler.e].waits[s.handler.i];
    assert w in s.events[s.handler.e].waits;
    assert EventRight(s, w);
  }

  // ---------- ancestors ----------

  /** A way from e along wait lists: every event on it is in the wait list of the one before. */
  predicate WaitPath(s: State, e: nat, path: seq<nat>)
    decreases |path|
  {
    path == [] || (e < |s.events| && path[0] in s.events[e].waits && WaitPath(s, path[0], path[1..]))
  }

  predicate PathComplete(s: State, path: seq<nat>) {
    forall x | x in path :: s.StatusOf(x) == CL_COMPLETE
  }

  lemma {:induction false} RanPath(s: State, e: nat, path: seq<nat>)
    requires Good(s) && Processed(s, e) && s.events[e].runs == 1 && WaitPath(s, e, path)
    ensures PathComplete(s, path)
    decreases |path|
  {
    if path != [] {
      var w := path[0];
      ProcessedIsFinal(s, e);
      assert EventRight(s, e) && w in s.events[e].waits;
      assert s.StatusOf(w) == CL_COMPLETE;
      assert EventRight(s, w);
      if s.events[w].user {
        assert path[1..] == [];
      } else {
        ProcessedIsFinal(s, w);
        RanPath(s, w, path[1..]);
      }
      forall x | x in path ensures s.StatusOf(x) == CL_COMPLETE {
        assert x == w || x in path[1..];
      }
    }
  }

  ghost predicate AncestorsComplete(s: State, e: nat) {
    forall path :: WaitPath(s, e, path) ==> PathComplete(s, path)
  }

  /**
   The action of a processed event ran exactly when all events it waits for, directly or through others, are complete;
   otherwise the event has the error for its wait list.
   */
  lemma RanIffAncestorsComplete(s: State, e: nat)
    requires Good(s) && Processed(s, e)
    ensures s.events[e].runs == (if AncestorsComplete(s, e) then 1 else 0)
    ensures !AncestorsComplete(s, e) ==> s.events[e].event.status == CL_EXEC_STATUS_ERROR_FOR_EVENTS_IN_WAIT_LIST
  {
    ProcessedIsFinal(s, e);
    if s.events[e].runs == 1 {
      forall path | WaitPath(s, e, path) ensures PathComplete(s, path) {
        RanPath(s, e, path);
      }
    } else {
      var w :| w in s.events[e].waits && s.StatusOf(w) < 0;
      FailedAncestor(s, e, w);
    }
  }

  // ---------- progress ----------

  /** No user event in the head's wait list is still open. */
  predicate HeadReady(s: State) {
    s.popped < |s.pushed| && s.pushed[s.popped] < |s.events| &&
    forall w | w in s.events[s.pushed[s.popped]].waits :: w < |s.events| && s.events[w].user ==> IsFinal(s.StatusOf(w))
  }

  /** Steps the handler needs at most for an event with n waits of which m are still held. */
  function RankOf(handler: Handler, n: nat, m: nat): nat {
    match handler
    case Idle => 2 * n + 8
    case Peeked(_) => 2 * n + 7
    case Checking(_, i) => if i <= n then n + 6 + (n - i) else 0
    case Starting(_) => n + 5
    case Running(_) => n + 4
    case Acted(_, _) => n + 3
    case Releasing(_) => n + 2
    case Aborting(_) => n + 2
    case Clearing(_) => m + 1
  }

  /** Steps the handler needs at most until it has removed the head. */
  function Rank(s: State): nat {
    if s.popped >= |s.pushed| || s.pushed[s.popped] >= |s.events| then 0
    else
      var t := s.events[s.pushed[s.popped]];
      RankOf(s.handler, |t.waits|, |t.event.waitList|)
  }

  lemma ReadyIsNotPending(s: State, w: nat)
    requires Good(s) && HeadReady(s) && w in s.events[s.pushed[s.popped]].waits
    ensures IsFinal(s.StatusOf(w))
  {
    var e := s.pushed[s.popped];
    assert EventRight(s, e) && EventRight(s, w);
  }

  lemma ReadyStays(s: State, s': State)
    requires Good(s) && HeadReady(s) && Grown(s, s') && s'.popped == s.popped
    ensures HeadReady(s') && s'.pushed[s.popped] == s.pushed[s.popped]
    ensures s'.events[s.pushed[s.popped]].waits == s.events[s.pushed[s.popped]].waits
  {
    var e := s.pushed[s.popped];
    assert EventRight(s, e);
    forall w | w in s'.events[e].waits ensures w < |s'.events| && s'.events[w].user ==> IsFinal(s'.StatusOf(w)) {
      assert w in s.events[e].waits && w < |s.events|;
    }
  }

  /** The handler works on the head, whose wait list it still holds completely until it clears it. */
  predicate OnHead(s: State, e: nat) {
    && IsHead(s, e) && e < |s.events| && (s.handler.Idle? || s.handler.e == e)
    && (!s.handler.Clearing? ==> s.events[e].event.waitList == s.events[e].waits)
  }

  lemma RankDropsChecking(s: State, e: nat, result: int)
    requires OnHead(s, e) && s.handler.Checking? && s.handler.i <= |s.events[e].waits|
    requires s.handler.i < |s.events[e].waits| ==> IsFinal(s.StatusOf(s.events[e].waits[s.handler.i]))
    ensures Rank(HandlerApply(s, result)) < Rank(s)
  {
    assert HandlerApply(s, result).events == s.events;
  }

  lemma RankDropsClearing(s: State, e: nat, result: int)
    requires OnHead(s, e) && s.handler.Clearing? && s.events[e].event.waitList != []
    ensures Rank(HandlerApply(s, result)) < Rank(s)
  {
    var s' := HandlerApply(s, result);
    assert |s'.events[e].event.waitList| == |s.events[e].event.waitList| - 1;
  }

  lemma RankDropsElse(s: State, e: nat, result: int)
    requires OnHead(s, e) && !s.handler.Checking? && !s.handler.Clearing?
    ensures Rank(HandlerApply(s, result)) < Rank(s)
  {
    hide Fire;
    var s' := HandlerApply(s, result);
    assert s'.pushed == s.pushed && s'.popped == s.popped && |s'.events| == |s.events|;
    assert s'.events[e].waits == s.events[e].waits && s'.events[e].event.waitList == s.events[e].event.waitList;
  }

  lemma RankDrops(s: State, e: nat, result: int)
    requires OnHead(s, e) && HandlerApply(s, result).popped == s.popped
    requires s.handler.Checking? ==> s.handler.i <= |s.events[e].waits|
    requires s.handler.Checking? && s.handler.i < |s.events[e].waits| ==>
               IsFinal(s.StatusOf(s.events[e].waits[s.handler.i]))
    ensures Rank(HandlerApply(s, result)) < Rank(s)
  {
    if s.handler.Checking? {
      RankDropsChecking(s, e, result);
    } else if s.handler.Clearing? {
      RankDropsClearing(s, e, result);
    } else {
      RankDropsElse(s, e, result);
    }
  }

  /** Every step of the handler brings the head closer to its end. */
  lemma HandlerAdvances(s: State, result: int)
    requires Good(s) && HeadReady(s) && result <= 0
    ensures var s' := HandlerApply(s, result);
      s'.popped == s.popped + 1 || (s'.popped == s.popped && Rank(s') < Rank(s) && HeadReady(s'))
  {
    var e, s' := s.pushed[s.popped], HandlerApply(s, result);
    StepKeepsGood(s, Handle(result));
    HandlerFields(s, result);
    assert EventRight(s, e);
    if s'.popped == s.popped {
      ReadyStays(s, s');
      if s.handler.Checking? && s.handler.i < |s.events[e].waits| {
        ReadyIsNotPending(s, s.events[e].waits[s.handler.i]);
      }
      if s.handler.Checking? {
        HeadFacts(s);
      }
      RankDrops(s, e, result);
    }
  }

  /** Clients cannot set it back. */
  lemma ClientKeepsRank(s: State, c: ClientStep)
    requires Good(s) && HeadReady(s) && ClientEnabled(s, c)
    ensures var s' := ClientApply(s, c);
      s'.popped == s.popped && Rank(s') == Rank(s) && HeadReady(s')
  {
    var e, s' := s.pushed[s.popped], ClientApply(s, c);
    StepKeepsGood(s, Client(c));
    ClientFields(s, c);
    ReadyStays(s, s');
    ClientKeepsWaitList(s, c, e);
  }

  lemma ClientKeepsWaitList(s: State, c: ClientStep, e: nat)
    requires ClientEnabled(s, c) && e < |s.events| && s.events[e].Pushed()
    ensures e < |ClientApply(s, c).events| && ClientApply(s, c).events[e].event.waitList == s.events[e].event.waitList
  {
    if Subject(c) != Some(e) {
      ClientOthers(s, c, e);
    }
  }

  function HandlerSteps(steps: seq<Step>): nat {
    if steps == [] then 0 else (if steps[0].Handle? then 1 else 0) + HandlerSteps(steps[1..])
  }

  /**
   However the threads interleave: once the user events the head waits for are set, it is removed after at most Rank
   steps of the handler.
   */
  lemma {:induction false} HeadIsRemoved(s: State, steps: seq<Step>)
    requires Good(s) && HeadReady(s) && IsRun(s, steps) && HandlerSteps(steps) >= Rank(s)
    ensures After(s, steps).popped > s.popped
    decreases |steps|
  {
    RankPositive(s);
    var s' := Apply(s, steps[0]);
    StepKeepsGood(s, steps[0]);
    match steps[0]
    case Client(c) =>
      ClientKeepsRank(s, c);
      HeadIsRemoved(s', steps[1..]);
    case Handle(result) =>
      HandlerAdvances(s, result);
      if s'.popped == s.popped {
        HeadIsRemoved(s', steps[1..]);
      } else {
        PoppedGrows(s', steps[1..]);
      }
  }

  lemma RankPositive(s: State)
    requires Good(s) && HeadReady(s)
    ensures Rank(s) > 0
  {
    assert EventRight(s, s.pushed[s.popped]);
  }

  lemma {:induction false} PoppedGrows(s: State, steps: seq<Step>)
    requires Good(s) && IsRun(s, steps)
    ensures After(s, steps).popped >= s.popped
    decreases |steps|
  {
    if steps != [] {
      StepKeepsGood(s, steps[0]);
      match steps[0] {
        case Client(c) => ClientFields(s, c);
        case Handle(result) => HandlerFields(s, result);
      }
      PoppedGrows(Apply(s, steps[0]), steps[1..]);
    }
  }

  /** No user event that one of the first n pushed events waits for is still open. */
  predicate ReadyUpTo(s: State, n: nat) {
    n <= |s.pushed| &&
    forall k: nat | s.popped <= k < n :: s.pushed[k] < |s.events| &&
      forall w | w in s.events[s.pushed[k]].waits :: w < |s.events| && s.events[w].user ==> IsFinal(s.StatusOf(w))
  }

  function WorkFrom(s: State, k: nat, n: nat): nat
    decreases n - k
  {
    if k >= n || k >= |s.pushed| || s.pushed[k] >= |s.events| then 0
    else 2 * |s.events[s.pushed[k]].waits| + 8 + WorkFrom(s, k + 1, n)
  }

  /** Steps the handler needs at most until the first n pushed events are removed. */
  function Work(s: State, n: nat): nat {
    if s.popped >= n then 0 else Rank(s) + WorkFrom(s, s.popped + 1, n)
  }

  lemma {:induction false} WorkStays(s: State, s': State, k: nat, n: nat)
    requires Good(s) && Grown(s, s') && n <= |s.pushed|
    ensures WorkFrom(s', k, n) == WorkFrom(s, k, n)
    decreases n - k
  {
    if k < n {
      assert s'.pushed[k] == s.pushed[k] && s.events[s.pushed[k]].Pushed();
      WorkStays(s, s', k + 1, n);
    }
  }

  lemma ReadyUpToStays(s: State, s': State, n: nat)
    requires Good(s) && ReadyUpTo(s, n) && Grown(s, s') && s.popped <= s'.popped
    ensures ReadyUpTo(s', n)
  {
    forall k: nat | s'.popped <= k < n
      ensures s'.pushed[k] == s.pushed[k] && s'.events[s.pushed[k]].waits == s.events[s.pushed[k]].waits
      ensures forall w | w in s.events[s.pushed[k]].waits ::
        w < |s.events| && (s'.events[w].user ==> IsFinal(s'.StatusOf(w)))
    {
      assert EventRight(s, s.pushed[k]) && s.events[s.pushed[k]].Pushed();
    }
  }

  lemma NextHeadWork(s: State, n: nat)
    requires s.handler.Idle? && n <= |s.pushed| && Ordered(s)
    ensures Work(s, n) == WorkFrom(s, s.popped, n)
  {
  }

  lemma WorkOfRank(s: State, s': State, n: nat, less: nat)
    requires Good(s) && Grown(s, s') && n <= |s.pushed| && s'.popped == s.popped < n && Rank(s') + less <= Rank(s)
    ensures Work(s', n) + less <= Work(s, n)
  {
    WorkStays(s, s', s.popped + 1, n);
  }

  lemma WorkOfHead(s: State, s': State, n: nat)
    requires Good(s) && Good(s') && Grown(s, s') && n <= |s.pushed|
    requires s'.popped == s.popped + 1 <= n && s'.handler.Idle?
    requires Rank(s) > 0
    ensures Work(s', n) + 1 <= Work(s, n)
  {
    hide Good, Grown, Ordered, Rank, WorkFrom;
    WorkStays(s, s', s.popped + 1, n);
    GoodOrdered(s');
    GrownPushed(s, s');
    NextHeadWork(s', n);
  }

  lemma GoodOrdered(s: State)
    requires Good(s)
    ensures Ordered(s)
  {
  }

  lemma GrownPushed(s: State, s': State)
    requires Grown(s, s')
    ensures |s.pushed| <= |s'.pushed|
  {
  }

  lemma HandlerWorks(s: State, result: int, n: nat)
    requires Good(s) && ReadyUpTo(s, n) && s.popped < n && result <= 0
    ensures Work(HandlerApply(s, result), n) + 1 <= Work(s, n) && s.popped <= HandlerApply(s, result).popped
  {
    var s' := HandlerApply(s, result);
    assert HeadReady(s);
    StepKeepsGood(s, Handle(result));
    HandlerAdvances(s, result);
    HandlerFields(s, result);
    RankPositive(s);
    if s'.popped == s.popped {
      WorkOfRank(s, s', n, 1);
    } else {
      WorkOfHead(s, s', n);
    }
  }

  lemma ClientAddsNoWork(s: State, c: ClientStep, n: nat)
    requires Good(s) && ReadyUpTo(s, n) && s.popped < n && ClientEnabled(s, c)
    ensures Work(ClientApply(s, c), n) <= Work(s, n) && s.popped == ClientApply(s, c).popped
  {
    assert HeadReady(s);
    StepKeepsGood(s, Client(c));
    ClientKeepsRank(s, c);
    WorkOfRank(s, ClientApply(s, c), n, 0);
  }

  /** A step of the handler does some of the work, a step of a client adds none. */
  lemma WorkDone(s: State, step: Step, n: nat)
    requires Good(s) && ReadyUpTo(s, n) && s.popped < n && Enabled(s, step)
    ensures Work(Apply(s, step), n) + (if step.Handle? then 1 else 0) <= Work(s, n)
    ensures ReadyUpTo(Apply(s, step), n)
  {
    StepKeepsGood(s, step);
    match step {
      case Client(c) => ClientAddsNoWork(s, c, n);
      case Handle(result) => HandlerWorks(s, result, n);
    }
    ReadyUpToStays(s, Apply(s, step), n);
  }

  /**
   The queue drains, whatever is pushed meanwhile: once no user event that an event in the deque waits for is open, all
   of them are removed after a bounded number of steps of the handler.
   */
  lemma {:induction false} QueueDrains(s: State, steps: seq<Step>, n: nat)
    requires Good(s) && ReadyUpTo(s, n) && IsRun(s, steps) && HandlerSteps(steps) >= Work(s, n)
    ensures After(s, steps).popped >= n
    decreases |steps|
  {
    if s.popped >= n {
      PoppedGrows(s, steps);
    } else {
      assert HeadReady(s);
      RankPositive(s);
      StepKeepsGood(s, steps[0]);
      WorkDone(s, steps[0], n);
      QueueDrains(Apply(s, steps[0]), steps[1..], n);
    }
  }

  // ---------- finish ----------

  lemma {:induction false} FirstOfExact(s: State, k: nat, queue: nat)
    requires Good(s)
    ensures match FirstOf(s, k, queue)
            case None => forall i: nat | k <= i < |s.pushed| :: s.events[s.pushed[i]].event.queue != Some(queue)
            case Some(e) =>
              exists i: nat :: k <= i < |s.pushed| && s.pushed[i] == e && s.events[e].event.queue == Some(queue) &&
                forall j: nat | k <= j < i :: s.events[s.pushed[j]].event.queue != Some(queue)
    decreases |s.pushed| - k
  {
    if k < |s.pushed| && s.events[s.pushed[k]].event.queue != Some(queue) {
      FirstOfExact(s, k + 1, queue);
    }
  }

  /** When peek finds no event of the queue, all events ever pushed to it are processed. */
  lemma NothingLeft(s: State, queue: nat, e: nat)
    requires Good(s) && FirstOf(s, s.popped, queue).None?
    requires e < |s.events| && s.events[e].Pushed() && s.events[e].event.queue == Some(queue)
    ensures Processed(s, e) && IsFinal(s.events[e].event.status)
  {
    FirstOfExact(s, s.popped, queue);
    assert s.pushed[s.events[e].position] == e;
    ProcessedIsFinal(s, e);
  }

  /** So when finish returns, every event pushed to the queue before it was called has ended and left the deque. */
  lemma FinishWaits(s: State, steps: seq<Step>, queue: nat, e: nat)
    requires Good(s) && IsRun(s, steps) && FirstOf(After(s, steps), After(s, steps).popped, queue).None?
    requires e < |s.events| && s.events[e].Pushed() && s.events[e].event.queue == Some(queue)
    ensures Processed(After(s, steps), e) && IsFinal(After(s, steps).events[e].event.status)
  {
    RunKeepsGood(s, steps);
    RunGrown(s, steps);
    NothingLeft(After(s, steps), queue, e);
  }

  // ---------- references ----------

  /** What is left of an event's references after it was processed: one more if its action did not run. */
  lemma ReferencesLeft(s: State, e: nat)
    requires Good(s) && Processed(s, e)
    ensures s.events[e].event.references
            == s.events[e].clients + One(s.events[e].stage == Queued) + One(!AncestorsComplete(s, e))
               + WaitRefs(s.events, e) + multiset(s.peeks)[e]
  {
    assert EventRight(s, e) && Counted(s, e);
    RanIffAncestorsComplete(s, e);
    ProcessedIsFinal(s, e);
  }

  /** A deleted event is in nobody's hands. */
  lemma DeletedIsUnused(s: State, e: nat)
    requires Good(s) && e < |s.events| && s.events[e].event.references == 0
    ensures s.events[e].clients == 0 && !s.events[e].InCall() && !InBuffer(s, s.events[e]) && e !in s.peeks
    ensures s.handler.Idle? || s.handler.e != e
    ensures forall x: nat | x < |s.events| :: e !in s.events[x].event.waitList
  {
    assert Counted(s, e);
    if !s.handler.Idle? {
      HeadIsAlive(s);
    }
    forall x: nat | x < |s.events| ensures e !in s.events[x].event.waitList {
      if e in s.events[x].event.waitList {
        HasWaitRef(s.events, x, e);
      }
    }
  }

  /** An event that failed because of its wait list is never deleted. */
  lemma AbortedIsNeverDeleted(s: State, steps: seq<Step>, e: nat)
    requires Good(s) && IsRun(s, steps) && Processed(s, e) && s.events[e].runs == 0
    ensures var s' := After(s, steps);
      e < |s'.events| && s'.events[e].event.references > 0
  {
    var s' := After(s, steps);
    RunKeepsGood(s, steps);
    RunGrown(s, steps);
    PoppedGrows(s, steps);
    ProcessedIsFinal(s, e);
    var w :| w in s.events[e].waits && s.StatusOf(w) < 0;
    FailedAncestor(s', e, w);
    ReferencesLeft(s', e);
  }

  lemma FailedAncestor(s: State, e: nat, w: nat)
    requires e < |s.events| && w in s.events[e].waits && s.StatusOf(w) < 0
    ensures !AncestorsComplete(s, e)
  {
    assert WaitPath(s, w, []) && [w][1..] == [];
    assert WaitPath(s, e, [w]) && w in [w];
    assert !PathComplete(s, [w]);
  }

  // ---------- a run ----------

  /** N steps of the handler with the same result. */
  function HandlerOnly(n: nat, result: int): (steps: seq<Step>)
    ensures |steps| == n
  {
    if n == 0 then [] else [Handle(result)] + HandlerOnly(n - 1, result)
  }

  lemma {:induction false} HandlerOnlyRun(s: State, n: nat, result: int)
    requires result <= 0
    ensures IsRun(s, HandlerOnly(n, result)) && HandlerSteps(HandlerOnly(n, result)) == n
    decreases n
  {
    if n > 0 {
      assert HandlerOnly(n, result)[1..] == HandlerOnly(n - 1, result);
      HandlerOnlyRun(HandlerApply(s, result), n - 1, result);
    }
  }

  /** The state after a client has enqueued one event without a wait list. */
  function OneEnqueued(queue: nat): State {
    var t := NewTracked(false);
    State([t.(event := t.event.(queue := Some(queue), references := 3), stage := Queued, queueHeld := true)],
          [0], 0, [], Idle)
  }

  lemma OneEnqueuedReached(queue: nat) returns (steps: seq<Step>)
    ensures IsRun(INITIAL, steps) && After(INITIAL, steps) == OneEnqueued(queue)
  {
    steps := [Client(CreateEvent), Client(Prepare(0, queue)), Client(Push(0))];
    var a := Apply(INITIAL, steps[0]);
    var b := Apply(a, steps[1]);
    var c := Apply(b, steps[2]);
    assert a.events == [NewTracked(false)];
    assert c == OneEnqueued(queue);
    assert IsRun(c, []) && After(c, []) == c;
    hide IsRun, After, Apply;
    RunFrom(b, c, steps[2], []);
    RunFrom(a, b, steps[1], [steps[2]]);
    RunFrom(INITIAL, a, steps[0], [steps[1], steps[2]]);
  }

  lemma RunFrom(s: State, s': State, step: Step, rest: seq<Step>)
    requires Enabled(s, step) && Apply(s, step) == s' && IsRun(s', rest)
    ensures IsRun(s, [step] + rest) && After(s, [step] + rest) == After(s', rest)
  {
    assert ([step] + rest)[1..] == rest;
  }

  /** An enqueued event without a wait list is run by eight steps of the handler, its action once. */
  lemma OneEventRuns(queue: nat, result: int)
    requires result <= 0
    ensures var s := OneEnqueued(queue);
      && Good(s) && IsRun(s, HandlerOnly(8, result))
      && Processed(After(s, HandlerOnly(8, result)), 0) && After(s, HandlerOnly(8, result)).events[0].runs == 1
  {
    var s, steps := OneEnqueued(queue), HandlerOnly(8, result);
    var before := OneEnqueuedReached(queue);
    Reachable(before);
    HandlerOnlyRun(s, 8, result);
    HeadIsRemoved(s, steps);
    RunKeepsGood(s, steps);
    RunGrown(s, steps);
    var s' := After(s, steps);
    assert Processed(s', 0);
    RanIffAncestorsComplete(s', 0);
    assert s.events[0].Pushed() && s'.events[0].waits == [];
    ProcessedIsFinal(s', 0);
  }
}
