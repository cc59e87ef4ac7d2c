/**
 Events (src/Event.cpp, src/Object.h): what the operations on one event do, as functions on values, and the rules for
 callbacks and for the execution status that follow from them.
 */
module Events {
  import opened Wrappers

  /** A registered callback function; data stands for the function and its user data. */
  datatype Callback = Callback(level: int, data: nat)

  /** An invocation of a callback function. */
  datatype Call = Call(data: nat, argument: int)

  /** The fields of an event. Wait-list entries and the command queue are named by number; calls is what was invoked. */
  datatype Event = Event(status: int, userStatusSet: bool, callbacks: seq<Callback>, calls: seq<Call>,
                         waitList: seq<nat>, queue: Option<nat>, references: nat)

  datatype WaitListStatus = ERROR | PENDING | FINISHED

  function NewEvent(status: int): Event {
    Event(status, false, [], [], [], None, 1)
  }

  predicate IsFinal(status: int) {
    status == CL_COMPLETE || status < 0
  }

  // ---------- operations ----------

  /** The calls due when the status changes. */
  function Fire(callbacks: seq<Callback>, previous: int, status: int): seq<Call> {
    if callbacks == [] then []
    else
      var c := callbacks[|callbacks| - 1];
      Fire(callbacks[..|callbacks| - 1], previous, status) +
      if previous > c.level >= status then [Call(c.data, status)] else []
  }

  /** Callbacks are called in the order in which they were registered, each if its level lies between the statuses. */
  lemma FireInOrder(a: seq<Callback>, c: Callback, b: seq<Callback>, previous: int, status: int)
    ensures Fire([], previous, status) == []
    ensures Fire(a + [c] + b, previous, status)
            == Fire(a, previous, status)
               + (if previous > c.level && status <= c.level then [Call(c.data, status)] else [])
               + Fire(b, previous, status)
  {
    FireAppend(a + [c], b, previous, status);
    FireSnoc(a, c, previous, status);
  }

  lemma FireSnoc(a: seq<Callback>, c: Callback, previous: int, status: int)
    ensures Fire(a + [c], previous, status)
            == Fire(a, previous, status) + if previous > c.level >= status then [Call(c.data, status)] else []
  {
    assert (a + [c])[..|a|] == a;
  }

  lemma {:induction false} FireAppend(a: seq<Callback>, b: seq<Callback>, previous: int, status: int)
    ensures Fire(a + b, previous, status) == Fire(a, previous, status) + Fire(b, previous, status)
  {
    if b == [] {
      assert a + b == a;
    } else {
      hide Fire;
      var n := |b| - 1;
      FireAppend(a, b[..n], previous, status);
      FireSnoc(a + b[..n], b[n], previous, status);
      FireSnoc(b[..n], b[n], previous, status);
      assert a + b == a + b[..n] + [b[n]] && b == b[..n] + [b[n]];
    }
  }

  function UpdateStatus(e: Event, status: int, fireCallbacks: bool): Event {
    if status == e.status then e
    else e.(status := status,
            calls := e.calls + if fireCallbacks then Fire(e.callbacks, e.status, status) else [])
  }

  predicate ValidLevel(level: int) {
    level == CL_SUBMITTED || level == CL_RUNNING || level == CL_COMPLETE
  }

  /** A callback whose status is already reached is called immediately, with the error if there is one. */
  function SetCallback(e: Event, level: int, data: nat): Result<Event> {
    if !ValidLevel(level) then Failure(CL_INVALID_VALUE)
    else if e.status > level then Success(e.(callbacks := e.callbacks + [Callback(level, data)]))
    else Success(e.(calls := e.calls + [Call(data, if e.status < 0 then e.status else level)]))
  }

  function SetUserEventStatus(e: Event, status: int): Result<Event> {
    if status != CL_COMPLETE && status >= 0 then Failure(CL_INVALID_VALUE)
    else if e.userStatusSet then Failure(CL_INVALID_OPERATION)
    else Success(e.(status := status, userStatusSet := true))
  }

  /** A released object stays at zero references. */
  function Retain(e: Event): Event {
    if e.references > 0 then e.(references := e.references + 1) else e
  }

  function Release(e: Event): Event {
    if e.references > 0 then e.(references := e.references - 1) else e
  }

  function PrepareToQueue(e: Event, queue: nat): Result<Event> {
    if e.queue.Some? then Failure(CL_INVALID_COMMAND_QUEUE)
    else if e.references == 0 then Failure(CL_INVALID_EVENT)
    else Success(Retain(e.(queue := Some(queue))))
  }

  /** The first event of the wait list that is not complete decides. */
  function WaitListStatusOf(statuses: seq<int>): WaitListStatus {
    if statuses == [] then FINISHED
    else if statuses[0] < 0 then ERROR
    else if statuses[0] != CL_COMPLETE then PENDING
    else WaitListStatusOf(statuses[1..])
  }

  /** Finished means all complete; an error or an unfinished event is reported only behind complete ones. */
  lemma {:induction false} WaitListStatusExact(statuses: seq<int>)
    ensures WaitListStatusOf(statuses) == FINISHED <==> forall i | 0 <= i < |statuses| :: statuses[i] == CL_COMPLETE
    ensures WaitListStatusOf(statuses) == ERROR <==>
            exists i | 0 <= i < |statuses| ::
              statuses[i] < 0 && forall j | 0 <= j < i :: statuses[j] == CL_COMPLETE
  {
    if statuses != [] {
      var rest := statuses[1..];
      WaitListStatusExact(rest);
      forall i | 0 <= i < |statuses| ensures i > 0 ==> statuses[i] == rest[i - 1] {
      }
      if statuses[0] == CL_COMPLETE {
        if WaitListStatusOf(rest) == ERROR {
          var i :| 0 <= i < |rest| && rest[i] < 0 && forall j | 0 <= j < i :: rest[j] == CL_COMPLETE;
          assert statuses[i + 1] < 0 && forall j | 0 <= j < i + 1 :: statuses[j] == CL_COMPLETE;
        }
        if i :| 0 <= i < |statuses| && statuses[i] < 0 && forall j | 0 <= j < i :: statuses[j] == CL_COMPLETE {
          assert rest[i - 1] < 0;
          forall j | 0 <= j < i - 1 ensures rest[j] == CL_COMPLETE {
            assert rest[j] == statuses[j + 1];
          }
        }
      }
    }
  }

  /**
   One turn of the handler's loop for the head of the deque, when nobody interferes: verdict is the state of its wait
   list, result what its action returns.
   */
  function Handled(e: Event, verdict: WaitListStatus, result: int): Event {
    var submitted := UpdateStatus(e, CL_SUBMITTED, true);
    match verdict
    case PENDING => submitted
    case ERROR =>
      Release(UpdateStatus(submitted, CL_EXEC_STATUS_ERROR_FOR_EVENTS_IN_WAIT_LIST, true).(waitList := []))
    case FINISHED =>
      Release(HandlerRelease(UpdateStatus(UpdateStatus(submitted, CL_RUNNING, true), result, true)).(waitList := []))
  }

  /** A failing release is recorded without calling anybody. */
  function HandlerRelease(e: Event): Event {
    if e.references > 0 then Release(e) else UpdateStatus(e, CL_INVALID_EVENT, false)
  }

  /** What is left of the fields of an event after a turn, and how it ends: as its action did, or with an error. */
  lemma HandledExact(e: Event, verdict: WaitListStatus, result: int)
    ensures var e' := Handled(e, verdict, result);
      && e'.status == (match verdict
                       case PENDING => CL_SUBMITTED
                       case ERROR => CL_EXEC_STATUS_ERROR_FOR_EVENTS_IN_WAIT_LIST
                       case FINISHED => if e.references > 0 then result else CL_INVALID_EVENT)
      && e'.references == (match verdict
                           case PENDING => e.references
                           case ERROR => if e.references > 1 then e.references - 1 else 0
                           case FINISHED => if e.references > 2 then e.references - 2 else 0)
      && e'.waitList == (if verdict.PENDING? then e.waitList else [])
      && e'.callbacks == e.callbacks && e'.queue == e.queue && e'.userStatusSet == e.userStatusSet
      && e.calls <= e'.calls
  {
  }

  /** Its callbacks hear of the statuses one after the other: submitted, running, and the result or the error. */
  lemma HandledCalls(e: Event, verdict: WaitListStatus, result: int)
    requires e.status == CL_QUEUED && result <= 0
    ensures Handled(e, verdict, result).calls
            == e.calls + Fire(e.callbacks, CL_QUEUED, CL_SUBMITTED)
               + match verdict
                 case PENDING => []
                 case ERROR => Fire(e.callbacks, CL_SUBMITTED, CL_EXEC_STATUS_ERROR_FOR_EVENTS_IN_WAIT_LIST)
                 case FINISHED => Fire(e.callbacks, CL_SUBMITTED, CL_RUNNING) + Fire(e.callbacks, CL_RUNNING, result)
  {
  }

  // ---------- callbacks ----------

  /** A callback that was accepted, with the status of the event at that time; late ones were called at once. */
  datatype Registration = Registration(level: int, status: int)
  {
    predicate Late() {
      status <= level
    }
  }

  function CallCount(calls: seq<Call>, id: nat): nat {
    if calls == [] then 0
    else CallCount(calls[..|calls| - 1], id) + if calls[|calls| - 1].data == id then 1 else 0
  }

  function Pending(callbacks: seq<Callback>, id: nat): nat {
    if callbacks == [] then 0
    else Pending(callbacks[..|callbacks| - 1], id) + if callbacks[|callbacks| - 1].data == id then 1 else 0
  }

  lemma {:induction false} CallCountAppend(a: seq<Call>, b: seq<Call>, id: nat)
    ensures CallCount(a + b, id) == CallCount(a, id) + CallCount(b, id)
  {
    if b == [] {
      assert a + b == a;
    } else {
      CallCountAppend(a, b[..|b| - 1], id);
      assert (a + b)[..|a + b| - 1] == a + b[..|b| - 1];
    }
  }

  lemma PendingSnoc(callbacks: seq<Callback>, c: Callback, id: nat)
    ensures Pending(callbacks + [c], id) == Pending(callbacks, id) + if c.data == id then 1 else 0
  {
    assert (callbacks + [c])[..|callbacks|] == callbacks;
  }

  /** All callbacks with this identification have this level. */
  predicate LevelOf(callbacks: seq<Callback>, id: nat, level: int) {
    forall c | c in callbacks :: c.data == id ==> c.level == level
  }

  lemma {:induction false} FireCount(callbacks: seq<Callback>, id: nat, level: int, previous: int, status: int)
    requires LevelOf(callbacks, id, level)
    ensures CallCount(Fire(callbacks, previous, status), id)
            == if previous > level >= status then Pending(callbacks, id) else 0
    ensures forall call | call in Fire(callbacks, previous, status) :: call.argument == status
  {
    if callbacks != [] {
      var n := |callbacks| - 1;
      FireCount(callbacks[..n], id, level, previous, status);
      var due := if previous > callbacks[n].level >= status then [Call(callbacks[n].data, status)] else [];
      CallCountAppend(Fire(callbacks[..n], previous, status), due, id);
      assert callbacks[n] in callbacks;
    }
  }

  /**
   What the function of a registration is called with for an event that has this status now: late ones with the error
   there was, or their level, others with the status that is reached.
   */
  predicate RightArgument(argument: int, r: Registration, status: int) {
    if r.Late() then argument == if r.status < 0 then r.status else r.level
    else && (argument == r.level || (argument < 0 && argument == status))
         && (r.level == CL_COMPLETE && status < 0 ==> argument == status)
  }

  predicate KeptLevels(callbacks: seq<Callback>, accepted: seq<Registration>) {
    forall c | c in callbacks :: c.data < |accepted| && c.level == accepted[c.data].level
  }

  predicate CallsRight(calls: seq<Call>, accepted: seq<Registration>, status: int) {
    forall call | call in calls ::
      && call.data < |accepted| && status <= accepted[call.data].level
      && RightArgument(call.argument, accepted[call.data], status)
  }

  predicate CalledOnce(e: Event, user: bool, r: Registration, id: nat) {
    && ValidLevel(r.level) && (r.Late() ==> e.status <= r.level) && (r.status < 0 ==> e.status == r.status)
    && Pending(e.callbacks, id) == (if r.Late() then 0 else 1)
    && CallCount(e.calls, id) == if r.Late() || (!user && e.status <= r.level) then 1 else 0
  }

  /**
   Every accepted callback has been called exactly once if its level has been reached and not at all otherwise; the
   callbacks of user events are only called when they are registered late.
   */
  predicate CallbacksExact(e: Event, user: bool, accepted: seq<Registration>) {
    && KeptLevels(e.callbacks, accepted) && CallsRight(e.calls, accepted, e.status)
    && forall id: nat | id < |accepted| :: CalledOnce(e, user, accepted[id], id)
  }

  /** The steps an execution status takes: one further, or to an error. */
  predicate Advances(previous: int, status: int) {
    previous > 0 && (status == previous - 1 || status < 0)
  }

  lemma CallsOnUpdate(e: Event, status: int, accepted: seq<Registration>, id: nat)
    requires CallbacksExact(e, false, accepted) && status < e.status && e.status > 0 && id < |accepted|
    ensures CalledOnce(UpdateStatus(e, status, true), false, accepted[id], id)
  {
    assert CalledOnce(e, false, accepted[id], id);
    FireCount(e.callbacks, id, accepted[id].level, e.status, status);
    CallCountAppend(e.calls, Fire(e.callbacks, e.status, status), id);
  }

  lemma {:induction false} FiredData(callbacks: seq<Callback>, previous: int, status: int)
    ensures forall call | call in Fire(callbacks, previous, status) :: call.argument == status &&
              exists c :: c in callbacks && c.data == call.data && previous > c.level >= status
  {
    if callbacks != [] {
      var n := |callbacks| - 1;
      FiredData(callbacks[..n], previous, status);
      forall call | call in Fire(callbacks, previous, status)
        ensures exists c :: c in callbacks && c.data == call.data && previous > c.level >= status
      {
        if call in Fire(callbacks[..n], previous, status) {
          var c :| c in callbacks[..n] && c.data == call.data && previous > c.level >= status;
          assert c in callbacks;
        } else {
          assert callbacks[n] in callbacks && callbacks[n].data == call.data;
        }
      }
    }
  }

  /** Updating the status of a command calls each callback whose level is reached by it, once. */
  lemma CallbacksAdvance(e: Event, status: int, accepted: seq<Registration>)
    requires CallbacksExact(e, false, accepted) && Advances(e.status, status)
    ensures CallbacksExact(UpdateStatus(e, status, true), false, accepted)
  {
    var next, due := UpdateStatus(e, status, true), Fire(e.callbacks, e.status, status);
    FiredData(e.callbacks, e.status, status);
    forall call | call in next.calls
      ensures call.data < |accepted| && status <= accepted[call.data].level
      ensures RightArgument(call.argument, accepted[call.data], status)
    {
      if call in e.calls {
      } else {
        assert call in due;
      }
    }
    forall id: nat | id < |accepted|
      ensures CalledOnce(next, false, accepted[id], id)
    {
      CallsOnUpdate(e, status, accepted, id);
    }
  }

  lemma {:induction false} NoCallFor(calls: seq<Call>, id: nat)
    requires forall call | call in calls :: call.data != id
    ensures CallCount(calls, id) == 0
  {
    if calls != [] {
      var n := |calls| - 1;
      assert calls[n] in calls && forall call | call in calls[..n] :: call in calls;
      NoCallFor(calls[..n], id);
    }
  }

  lemma {:induction false} NoneFor(callbacks: seq<Callback>, id: nat)
    requires forall c | c in callbacks :: c.data != id
    ensures Pending(callbacks, id) == 0
  {
    if callbacks != [] {
      var n := |callbacks| - 1;
      assert callbacks[n] in callbacks && forall c | c in callbacks[..n] :: c in callbacks;
      NoneFor(callbacks[..n], id);
    }
  }

  lemma RegisterCounts(e: Event, level: int, n: nat, id: nat)
    requires ValidLevel(level)
    ensures var next := SetCallback(e, level, n).value;
      && Pending(next.callbacks, id) == Pending(e.callbacks, id) + (if id == n && e.status > level then 1 else 0)
      && CallCount(next.calls, id) == CallCount(e.calls, id) + (if id == n && e.status <= level then 1 else 0)
  {
    var next := SetCallback(e, level, n).value;
    if e.status > level {
      PendingSnoc(e.callbacks, Callback(level, n), id);
    } else {
      assert next.calls[..|e.calls|] == e.calls;
    }
  }

  lemma RegisterOther(e: Event, user: bool, accepted: seq<Registration>, level: int, id: nat)
    requires CallbacksExact(e, user, accepted) && ValidLevel(level) && id < |accepted|
    ensures CalledOnce(SetCallback(e, level, |accepted|).value, user, accepted[id], id)
  {
    assert CalledOnce(e, user, accepted[id], id);
    RegisterCounts(e, level, |accepted|, id);
  }

  lemma RegisterThis(e: Event, user: bool, accepted: seq<Registration>, level: int)
    requires CallbacksExact(e, user, accepted) && ValidLevel(level)
    ensures CalledOnce(SetCallback(e, level, |accepted|).value, user, Registration(level, e.status),
                       |accepted|)
  {
    NoneFor(e.callbacks, |accepted|);
    NoCallFor(e.calls, |accepted|);
    RegisterCounts(e, level, |accepted|, |accepted|);
  }

  lemma RegisterKept(callbacks: seq<Callback>, accepted: seq<Registration>, r: Registration)
    requires KeptLevels(callbacks, accepted)
    ensures KeptLevels(callbacks, accepted + [r])
    ensures KeptLevels(callbacks + [Callback(r.level, |accepted|)], accepted + [r])
  {
  }

  lemma RegisterCalled(calls: seq<Call>, accepted: seq<Registration>, status: int, r: Registration, argument: int)
    requires CallsRight(calls, accepted, status)
    ensures CallsRight(calls, accepted + [r], status)
    ensures status <= r.level && RightArgument(argument, r, status) ==>
              CallsRight(calls + [Call(|accepted|, argument)], accepted + [r], status)
  {
  }

  /** An accepted registration is called now or kept for later. */
  lemma CallbacksRegister(e: Event, user: bool, accepted: seq<Registration>, level: int)
    requires CallbacksExact(e, user, accepted) && ValidLevel(level)
    ensures CallbacksExact(SetCallback(e, level, |accepted|).value, user,
                           accepted + [Registration(level, e.status)])
  {
    var n := |accepted|;
    var next, r := SetCallback(e, level, n).value, Registration(level, e.status);
    var all := accepted + [r];
    RegisterKept(e.callbacks, accepted, r);
    RegisterCalled(e.calls, accepted, e.status, r, if e.status < 0 then e.status else level);
    forall id: nat | id < |all| ensures CalledOnce(next, user, all[id], id) {
      if id < n {
        RegisterOther(e, user, accepted, level, id);
      } else {
        RegisterThis(e, user, accepted, level);
      }
    }
  }

  /** Setting the status of a user event calls nothing. */
  lemma CallbacksUserSet(e: Event, accepted: seq<Registration>, status: int)
    requires CallbacksExact(e, true, accepted) && e.status == CL_SUBMITTED && status <= 0 && !e.userStatusSet
    ensures CallbacksExact(SetUserEventStatus(e, status).value, true, accepted)
  {
    var next := SetUserEventStatus(e, status).value;
    forall id: nat | id < |accepted| ensures CalledOnce(next, true, accepted[id], id) {
      assert CalledOnce(e, true, accepted[id], id);
    }
  }

  /** So a callback registered for a user event in time is never called, although its level is reached. */
  lemma UserCallbackMissed(level: int, data: nat, status: int)
    requires (level == CL_RUNNING || level == CL_COMPLETE) && status <= 0
    ensures var e := SetUserEventStatus(SetCallback(NewEvent(CL_SUBMITTED), level, data).value, status).value;
      e.status <= level && CallCount(e.calls, data) == 0 && Pending(e.callbacks, data) == 1
  {
    PendingSnoc([], Callback(level, data), data);
    assert [] + [Callback(level, data)] == [Callback(level, data)];
  }

  /** setUserEventStatus does not look at the kind of event: it can complete a running command, which then goes back. */
  lemma UserStatusOnCommand(e: Event)
    requires e.status == CL_QUEUED && !e.userStatusSet
    ensures var completed := SetUserEventStatus(e, CL_COMPLETE);
      completed.Success? && UpdateStatus(completed.value, CL_SUBMITTED, true).status > completed.value.status
  {
  }
}
