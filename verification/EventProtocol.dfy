/**
 The life of events between client threads and the queue handler (src/queue_handler.cpp, src/Event.cpp,
 src/CommandQueue.cpp): every lock-protected region is one step, and the steps of all threads interleave freely.
 */
module EventProtocol {
  import opened Events
  import opened Sequences
  import opened Wrappers

  /** How far the call that enqueues an event has come. */
  datatype Stage = Created | Prepared | Queued | Returned | Failed

  /**
   An event with the history the properties speak about: references owned by clients, whether the reference taken when
   the event was prepared is still held, the complete wait list, the position in the order of pushing, how often the
   action ran, how that or the user said the event ends, and which callbacks were accepted.
   */
  datatype Tracked = Tracked(event: Event, user: bool, stage: Stage, clients: nat, queueHeld: bool, waits: seq<nat>,
                             position: nat, runs: nat, outcome: Option<int>, accepted: seq<Registration>)
  {
    predicate Pushed() {
      !user && (stage == Queued || stage == Returned)
    }

    /** The reference an event is created with belongs to the enqueuing call until that returns. */
    predicate InCall() {
      stage == Created || stage == Prepared || stage == Queued
    }
  }

  /** Where the handler thread is in its loop. */
  datatype Handler =
    | Idle
    | Peeked(e: nat)
    | Checking(e: nat, i: nat)
    | Aborting(e: nat)
    | Starting(e: nat)
    | Running(e: nat)
    | Acted(e: nat, result: int)
    | Releasing(e: nat)
    | Clearing(e: nat)

  /** The deque is pushed[popped..]; peeks are the wrappers held by calls of finish. */
  datatype State = State(events: seq<Tracked>, pushed: seq<nat>, popped: nat, peeks: seq<nat>, handler: Handler)
  {
    function StatusOf(e: nat): int {
      if e < |events| then events[e].event.status else CL_QUEUED
    }

    function With(e: nat, t: Tracked): State {
      if e < |events| then this.(events := events[e := t]) else this
    }

    function WithEvent(e: nat, event: Event): State {
      if e < |events| then With(e, events[e].(event := event)) else this
    }

    function Retained(e: nat): State {
      if e < |events| then WithEvent(e, Retain(events[e].event)) else this
    }

    function Released(e: nat): State {
      if e < |events| then WithEvent(e, Release(events[e].event)) else this
    }

    function Updated(e: nat, status: int): State {
      if e < |events| then WithEvent(e, UpdateStatus(events[e].event, status, true)) else this
    }

    function At(next: Handler): State {
      this.(handler := next)
    }
  }

  datatype ClientStep =
    | CreateUserEvent
    | CreateEvent
    | AddToWaitList(e: nat, w: nat)
    | Prepare(e: nat, queue: nat)
    | Push(e: nat)
    | ReturnEvent(e: nat, keep: bool)
    | Fail(e: nat)
    | DropWait(e: nat)
    | SetUserStatus(e: nat, status: int)
    | Register(e: nat, level: int)
    | ClientRetain(e: nat)
    | ClientRelease(e: nat)
    | Peek(queue: nat)
    | Unpeek(i: nat)

  datatype Step = Client(c: ClientStep) | Handle(result: int)

  const INITIAL := State([], [], 0, [], Idle)

  // ---------- client threads ----------

  predicate ClientEnabled(s: State, c: ClientStep) {
    match c
    case CreateUserEvent => true
    case CreateEvent => true
    // a client passes events it has a handle of
    case AddToWaitList(e, w) =>
      e < |s.events| && s.events[e].stage == Created && w < |s.events| && s.events[w].clients > 0
    case Prepare(e, _) => e < |s.events| && s.events[e].stage == Created
    case Push(e) => e < |s.events| && s.events[e].stage == Prepared
    case ReturnEvent(e, _) => e < |s.events| && s.events[e].stage == Queued
    case Fail(e) => e < |s.events| && s.events[e].stage == Created
    case DropWait(e) => e < |s.events| && s.events[e].stage == Failed && s.events[e].event.waitList != []
    // OpenCL allows this on user events only; the code does not check it, see UserStatusOnCommand
    case SetUserStatus(e, _) => e < |s.events| && s.events[e].clients > 0 && s.events[e].user
    case Register(e, _) => e < |s.events| && s.events[e].clients > 0
    case ClientRetain(e) => e < |s.events| && s.events[e].clients > 0
    case ClientRelease(e) => e < |s.events| && s.events[e].clients > 0
    case Peek(_) => true
    case Unpeek(i) => i < |s.peeks|
  }

  /** What clients can do does not depend on the handler and the deque: nobody waits for the handler to do its steps. */
  lemma ClientsUnhindered(s: State, c: ClientStep, handler: Handler, pushed: seq<nat>, popped: nat)
    ensures ClientEnabled(s, c) <==> ClientEnabled(s.(handler := handler, pushed := pushed, popped := popped), c)
    ensures c.CreateUserEvent? || c.CreateEvent? || c.Peek? ==> ClientEnabled(s, c)
    ensures (c.Register? || c.ClientRetain? || c.ClientRelease?) && c.e < |s.events| && s.events[c.e].clients > 0 ==>
      ClientEnabled(s, c)
    ensures c.SetUserStatus? && c.e < |s.events| && s.events[c.e].clients > 0 && s.events[c.e].user ==>
      ClientEnabled(s, c)
  {
  }

  function NewTracked(user: bool): Tracked {
    if user then Tracked(NewEvent(CL_SUBMITTED), true, Returned, 1, false, [], 0, 0, None, [])
    else Tracked(NewEvent(CL_QUEUED), false, Created, 0, false, [], 0, 0, None, [])
  }

  /** The first event of the deque that belongs to a command queue. */
  function FirstOf(s: State, k: nat, queue: nat): Option<nat>
    decreases |s.pushed| - k
  {
    if k >= |s.pushed| then None
    else if s.pushed[k] < |s.events| && s.events[s.pushed[k]].event.queue == Some(queue) then Some(s.pushed[k])
    else FirstOf(s, k + 1, queue)
  }

  function RegisterCallback(t: Tracked, level: int): Tracked {
    match SetCallback(t.event, level, |t.accepted|)
    case Success(event) =>
      t.(event := event, accepted := t.accepted + [Registration(level, t.event.status)])
    case Failure(_) => t
  }

  function ClientApply(s: State, c: ClientStep): State
    requires ClientEnabled(s, c)
  {
    match c
    case CreateUserEvent => s.(events := s.events + [NewTracked(true)])
    case CreateEvent => s.(events := s.events + [NewTracked(false)])
    case AddToWaitList(e, w) =>
      var t := s.events[e];
      s.With(e, t.(event := t.event.(waitList := t.event.waitList + [w]), waits := t.waits + [w])).Retained(w)
    case Prepare(e, queue) =>
      var t := s.events[e];
      (match PrepareToQueue(t.event, queue)
       case Success(event) => s.With(e, t.(event := event, stage := Prepared, queueHeld := true))
       case Failure(_) => s)
    case Push(e) =>
      var t := s.events[e];
      s.With(e, t.(event := Retain(t.event), stage := Queued, position := |s.pushed|)).(pushed := s.pushed + [e])
    case ReturnEvent(e, keep) =>
      var t := s.events[e];
      if keep then s.With(e, t.(stage := Returned, clients := t.clients + 1))
      else s.With(e, t.(event := Release(t.event), stage := Returned))
    case Fail(e) =>
      var t := s.events[e];
      s.With(e, t.(event := Release(t.event), stage := Failed))
    case DropWait(e) =>
      var t := s.events[e];
      var n := |t.event.waitList| - 1;
      s.With(e, t.(event := t.event.(waitList := t.event.waitList[..n]))).Released(t.event.waitList[n])
    case SetUserStatus(e, status) =>
      (match SetUserEventStatus(s.events[e].event, status)
       case Success(event) => s.With(e, s.events[e].(event := event, outcome := Some(status)))
       case Failure(_) => s)
    case Register(e, level) => s.With(e, RegisterCallback(s.events[e], level))
    case ClientRetain(e) =>
      var t := s.events[e];
      s.With(e, t.(event := Retain(t.event), clients := t.clients + 1))
    case ClientRelease(e) =>
      var t := s.events[e];
      s.With(e, t.(event := Release(t.event), clients := t.clients - 1))
    case Peek(queue) =>
      (match FirstOf(s, s.popped, queue)
       case Some(e) => s.(peeks := s.peeks + [e]).Retained(e)
       case None => s)
    case Unpeek(i) => s.(peeks := Without(s.peeks, i)).Released(s.peeks[i])
  }

  // ---------- the handler thread ----------

  /** The next step of runEventQueue. Result is what the action returns, if this step runs it. */
  function HandlerApply(s: State, result: int): State {
    match s.handler
    case Idle => if s.popped < |s.pushed| then s.At(Peeked(s.pushed[s.popped])) else s
    case Peeked(e) => s.Updated(e, CL_SUBMITTED).At(Checking(e, 0))
    case Checking(e, i) =>
      if e >= |s.events| then s
      else
        var waitList := s.events[e].event.waitList;
        if i >= |waitList| then s.At(Starting(e))
        else if s.StatusOf(waitList[i]) < 0 then s.At(Aborting(e))
        else if s.StatusOf(waitList[i]) != CL_COMPLETE then s.At(Idle)
        else s.At(Checking(e, i + 1))
    case Aborting(e) => s.Updated(e, CL_EXEC_STATUS_ERROR_FOR_EVENTS_IN_WAIT_LIST).At(Clearing(e))
    case Starting(e) => s.Updated(e, CL_RUNNING).At(Running(e))
    case Running(e) =>
      if e >= |s.events| then s
      else s.With(e, s.events[e].(runs := s.events[e].runs + 1, outcome := Some(result))).At(Acted(e, result))
    case Acted(e, status) => s.Updated(e, status).At(Releasing(e))
    case Releasing(e) =>
      if e >= |s.events| then s
      else
        var t := s.events[e];
        if t.event.references > 0 then s.With(e, t.(event := Release(t.event), queueHeld := false)).At(Clearing(e))
        else s.WithEvent(e, UpdateStatus(t.event, CL_INVALID_EVENT, false)).At(Clearing(e))
    case Clearing(e) =>
      if e >= |s.events| then s
      else
        var t := s.events[e];
        if t.event.waitList != [] then
          s.With(e, t.(event := t.event.(waitList := t.event.waitList[1..]))).Released(t.event.waitList[0])
        else s.Released(e).At(Idle).(popped := s.popped + 1)
  }

  // ---------- runs ----------

  predicate Enabled(s: State, step: Step) {
    match step
    case Client(c) => ClientEnabled(s, c)
    case Handle(result) => result <= 0
  }

  function Apply(s: State, step: Step): State
    requires Enabled(s, step)
  {
    match step
    case Client(c) => ClientApply(s, c)
    case Handle(result) => HandlerApply(s, result)
  }

  /** The states passed from s on, one step after the other. */
  predicate IsRun(s: State, steps: seq<Step>)
    decreases |steps|
  {
    steps == [] || (Enabled(s, steps[0]) && IsRun(Apply(s, steps[0]), steps[1..]))
  }

  function After(s: State, steps: seq<Step>): State
    requires IsRun(s, steps)
    decreases |steps|
  {
    if steps == [] then s else After(Apply(s, steps[0]), steps[1..])
  }

  // ---------- the invariant ----------

  predicate IsHead(s: State, e: nat) {
    s.popped < |s.pushed| && s.pushed[s.popped] == e
  }

  /** The handler works on the head of the deque. */
  predicate HandlerOnHead(s: State) {
    s.popped <= |s.pushed| && (s.handler.Idle? || IsHead(s, s.handler.e))
  }

  predicate Ordered(s: State) {
    && (forall k: nat | k < |s.pushed| ::
          s.pushed[k] < |s.events| && s.events[s.pushed[k]].Pushed() && s.events[s.pushed[k]].position == k)
    && (forall e: nat | e < |s.events| && s.events[e].Pushed() ::
          s.events[e].position < |s.pushed| && s.pushed[s.events[e].position] == e)
  }

  /** Members of wait lists are user events or were pushed before. */
  predicate WaitsEarlier(s: State, e: nat)
    requires e < |s.events|
  {
    forall w | w in s.events[e].waits ::
      && w < |s.events|
      && (|| s.events[w].user
          || (&& s.events[w].Pushed()
              && (s.events[e].Pushed() ==> s.events[w].position < s.events[e].position)))
  }

  /** The wait list an event holds is complete until it is cleared. */
  predicate WaitListKept(s: State, e: nat)
    requires e < |s.events|
  {
    var t := s.events[e];
    && (forall w | w in t.event.waitList :: w in t.waits)
    && (t.stage == Failed || (t.Pushed() && t.position <= s.popped) || t.event.waitList == t.waits)
    && (t.Pushed() && t.position == s.popped && !s.handler.Clearing? ==> t.event.waitList == t.waits)
    && (t.Pushed() && t.position < s.popped ==> t.event.waitList == [])
  }

  predicate StatusRight(s: State, e: nat)
    requires e < |s.events|
  {
    var t := s.events[e];
    var status := t.event.status;
    if t.user then if t.event.userStatusSet then status <= 0 else status == CL_SUBMITTED
    else if !t.Pushed() || t.position > s.popped then status == CL_QUEUED
    else if t.position < s.popped then status <= 0
    else match s.handler
         case Idle => status == CL_QUEUED || status == CL_SUBMITTED
         case Peeked(_) => status == CL_QUEUED || status == CL_SUBMITTED
         case Checking(_, _) => status == CL_SUBMITTED
         case Aborting(_) => status == CL_SUBMITTED
         case Starting(_) => status == CL_SUBMITTED
         case Running(_) => status == CL_RUNNING
         case Acted(_, result) => status == CL_RUNNING && result <= 0
         case Releasing(_) => status <= 0
         case Clearing(_) => status <= 0
  }

  /** An event ends as its action, or the user, said. */
  predicate OutcomeRight(s: State, e: nat)
    requires e < |s.events|
  {
    var t := s.events[e];
    if t.user then
      (t.event.userStatusSet <==> t.outcome.Some?) && (t.outcome.Some? ==> t.event.status == t.outcome.value)
    else if t.runs == 0 then t.outcome.None?
    else if s.handler.Acted? && s.handler.e == e then t.outcome == Some(s.handler.result)
    else t.outcome == Some(t.event.status)
  }

  predicate AllComplete(s: State, waits: seq<nat>) {
    forall w | w in waits :: s.StatusOf(w) == CL_COMPLETE
  }

  predicate SomeFailed(s: State, waits: seq<nat>) {
    exists w :: w in waits && s.StatusOf(w) < 0
  }

  /** The action ran, after a complete wait list, or it did not because of an error in the wait list. */
  predicate Decided(s: State, e: nat)
    requires e < |s.events|
  {
    var t := s.events[e];
    if t.runs == 0 then
      t.event.status == CL_EXEC_STATUS_ERROR_FOR_EVENTS_IN_WAIT_LIST && SomeFailed(s, t.waits)
    else t.runs == 1 && AllComplete(s, t.waits)
  }

  predicate DecisionRight(s: State, e: nat)
    requires e < |s.events|
  {
    var t := s.events[e];
    if !t.Pushed() || t.position > s.popped then t.runs == 0
    else if t.position < s.popped then Decided(s, e)
    else match s.handler
         case Idle => t.runs == 0
         case Peeked(_) => t.runs == 0
         case Checking(_, i) => t.runs == 0 && i <= |t.waits| && AllComplete(s, t.waits[..i])
         case Aborting(_) => t.runs == 0 && SomeFailed(s, t.waits)
         case Starting(_) => t.runs == 0 && AllComplete(s, t.waits)
         case Running(_) => t.runs == 0 && AllComplete(s, t.waits)
         case Acted(_, _) => t.runs == 1 && AllComplete(s, t.waits)
         case Releasing(_) => t.runs == 1 && AllComplete(s, t.waits)
         case Clearing(_) => Decided(s, e)
  }

  /** When the reference taken by prepareToQueue is still there: after an error in the wait list it stays for ever. */
  predicate QueueHeldRight(s: State, e: nat)
    requires e < |s.events|
  {
    var t := s.events[e];
    t.queueHeld <==>
      || t.stage == Prepared
      || (t.Pushed() && (t.position > s.popped || (t.position == s.popped && !s.handler.Clearing?) || t.runs == 0))
  }

  /** User events are never enqueued, others never completed by the user. */
  predicate UseRight(s: State, e: nat)
    requires e < |s.events|
  {
    var t := s.events[e];
    && (t.user ==> t.stage == Returned && t.waits == [])
    && (t.event.queue.Some? <==> !t.user && t.stage != Created && t.stage != Failed)
    && (!t.user ==> !t.event.userStatusSet)
  }

  /** A client has a handle of an event only after the enqueuing call has returned. */
  predicate HandleRight(t: Tracked) {
    t.clients > 0 ==> t.stage == Returned
  }
}
