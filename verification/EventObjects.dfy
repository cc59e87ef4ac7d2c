/**
 Event, EventQueue and CommandQueue as objects (src/Event.cpp, src/queue_handler.cpp, src/CommandQueue.cpp,
 src/Object.h): every method does to its fields what the functions on values say.
 */
module EventObjects {
  import opened Events
  import opened Wrappers

  class EventObject {
    const id: nat
    const hasAction: bool
    var status: int
    var userStatusSet: bool
    var callbacks: seq<Callback>
    var calls: seq<Call>
    var waitList: seq<EventObject>
    var queue: Option<nat>
    var references: nat

    function View(): Event
      reads this
    {
      Event(status, userStatusSet, callbacks, calls, Ids(waitList), queue, references)
    }

    constructor (id: nat, status: int, hasAction: bool)
      ensures View() == NewEvent(status) && this.id == id && this.hasAction == hasAction
      ensures this.status == status && references == 1 && !userStatusSet && queue == None
      ensures callbacks == [] && calls == [] && waitList == []
    {
      this.id := id;
      this.hasAction := hasAction;
      this.status := status;
      userStatusSet, callbacks, calls, waitList, queue, references := false, [], [], [], None, 1;
    }

    method GetStatus() returns (r: int)
      ensures r == status
    {
      r := status;
    }

    method IsFinished() returns (r: bool)
      ensures r == IsFinal(status)
    {
      r := status == CL_COMPLETE || status < 0;
    }

    method SetUserEventStatus(executionStatus: int) returns (code: int)
      modifies `status, `userStatusSet
      ensures Answers(Events.SetUserEventStatus(old(View()), executionStatus), old(View()), View(), code)
      ensures code == if executionStatus > 0 then CL_INVALID_VALUE
                      else if old(userStatusSet) then CL_INVALID_OPERATION else CL_SUCCESS
      ensures code == CL_SUCCESS ==> status == executionStatus && userStatusSet
      ensures code != CL_SUCCESS ==> status == old(status) && userStatusSet == old(userStatusSet)
    {
      if executionStatus != CL_COMPLETE && executionStatus >= 0 {
        return CL_INVALID_VALUE;
      }
      if userStatusSet {
        return CL_INVALID_OPERATION;
      }
      status := executionStatus;
      userStatusSet := true;
      return CL_SUCCESS;
    }

    method SetCallback(level: int, data: nat) returns (code: int)
      modifies `callbacks, `calls
      ensures Answers(Events.SetCallback(old(View()), level, data), old(View()), View(), code)
      ensures code == if level == CL_SUBMITTED || level == CL_RUNNING || level == CL_COMPLETE then CL_SUCCESS
                      else CL_INVALID_VALUE
      ensures callbacks == old(callbacks) + if code == CL_SUCCESS && status > level then [Callback(level, data)] else []
      ensures calls == old(calls) + if code == CL_SUCCESS && status <= level
                                    then [Call(data, if status < 0 then status else level)] else []
    {
      if level != CL_SUBMITTED && level != CL_RUNNING && level != CL_COMPLETE {
        return CL_INVALID_VALUE;
      }
      if status > level {
        callbacks := callbacks + [Callback(level, data)];
      } else {
        calls := calls + [Call(data, if status < 0 then status else level)];
      }
      return CL_SUCCESS;
    }

    method FireCallbacks(previous: int)
      modifies `calls
      ensures calls == old(calls) + Fire(callbacks, previous, status)
    {
      for i := 0 to |callbacks|
        invariant calls == old(calls) + Fire(callbacks[..i], previous, status)
      {
        assert callbacks[..i + 1][..i] == callbacks[..i];
        if previous > callbacks[i].level && status <= callbacks[i].level {
          calls := calls + [Call(callbacks[i].data, status)];
        }
      }
      assert callbacks[..|callbacks|] == callbacks;
    }

    method UpdateStatus(next: int, fireCallbacks: bool)
      modifies `status, `calls
      ensures View() == Events.UpdateStatus(old(View()), next, fireCallbacks)
      ensures status == next
      ensures calls == old(calls) + if fireCallbacks && next != old(status) then Fire(callbacks, old(status), next)
                                    else []
    {
      if next == status {
        return;
      }
      var previous := status;
      status := next;
      if fireCallbacks {
        FireCallbacks(previous);
      }
    }

    method Retain() returns (code: int)
      modifies `references
      ensures View() == Events.Retain(old(View()))
      ensures references == if old(references) > 0 then old(references) + 1 else 0
      ensures code == if old(references) > 0 then CL_SUCCESS else CL_INVALID_EVENT
    {
      if references == 0 {
        return CL_INVALID_EVENT;
      }
      references := references + 1;
      return CL_SUCCESS;
    }

    method Release() returns (code: int)
      modifies `references
      ensures View() == Events.Release(old(View()))
      ensures references == if old(references) > 0 then old(references) - 1 else 0
      ensures code == if old(references) > 0 then CL_SUCCESS else CL_INVALID_EVENT
    {
      if references == 0 {
        return CL_INVALID_EVENT;
      }
      references := references - 1;
      return CL_SUCCESS;
    }

    method PrepareToQueue(commandQueue: nat) returns (code: int)
      modifies `queue, `references
      ensures old(references) > 0 ==>
                Answers(Events.PrepareToQueue(old(View()), commandQueue), old(View()), View(), code)
      ensures old(references) == 0 && old(queue).None? ==>
                code == CL_INVALID_EVENT && View() == old(View()).(queue := Some(commandQueue))
      ensures old(queue).Some? ==> code == CL_INVALID_COMMAND_QUEUE && View() == old(View())
      ensures old(references) > 0 && old(queue).None? ==>
                code == CL_SUCCESS && queue == Some(commandQueue) && references == old(references) + 1
    {
      if queue.Some? {
        return CL_INVALID_COMMAND_QUEUE;
      }
      queue := Some(commandQueue);
      code := Retain();
    }

    method SetAsResultOrRelease(condition: int, wanted: bool) returns (code: int)
      modifies `references
      ensures condition == CL_SUCCESS && wanted ==> code == CL_SUCCESS && View() == old(View())
      ensures !(condition == CL_SUCCESS && wanted) ==> View() == Events.Release(old(View()))
      ensures !(condition == CL_SUCCESS && wanted) ==>
                references == if old(references) > 0 then old(references) - 1 else 0
      ensures condition != CL_SUCCESS ==> code == condition
      ensures condition == CL_SUCCESS && !wanted ==>
                code == if old(references) > 0 then CL_SUCCESS else CL_INVALID_EVENT
    {
      if condition == CL_SUCCESS && wanted {
        return CL_SUCCESS;
      }
      code := Release();
      if condition != CL_SUCCESS {
        code := condition;
      }
    }

    /** Every event of the list is retained as often as it is listed. */
    method SetEventWaitList(events: seq<EventObject>)
      requires this !in events && forall e | e in events :: e.references > 0
      modifies `waitList, events`references
      ensures waitList == old(waitList) + events
      ensures forall e | e in events :: e.references == old(e.references) + multiset(events)[e]
    {
      for i := 0 to |events|
        invariant waitList == old(waitList) + events[..i]
        invariant forall e | e in events :: e.references == old(e.references) + multiset(events[..i])[e]
      {
        assert events[..i + 1] == events[..i] + [events[i]];
        var _ := events[i].Retain();
        waitList := waitList + [events[i]];
      }
      assert events[..|events|] == events;
    }

    method GetWaitListStatus() returns (r: WaitListStatus)
      ensures r == WaitListStatusOf(Statuses(waitList))
      ensures r == FINISHED <==> forall i | 0 <= i < |waitList| :: waitList[i].status == CL_COMPLETE
      ensures r == ERROR <==>
              exists i | 0 <= i < |waitList| ::
                waitList[i].status < 0 && forall j | 0 <= j < i :: waitList[j].status == CL_COMPLETE
    {
      StatusListExact(waitList);
      for i := 0 to |waitList|
        invariant WaitListStatusOf(Statuses(waitList)) == WaitListStatusOf(Statuses(waitList)[i..])
      {
        assert Statuses(waitList)[i..][1..] == Statuses(waitList)[i + 1..];
        var status := waitList[i].GetStatus();
        if status < 0 {
          return ERROR;
        }
        if status != CL_COMPLETE {
          return PENDING;
        }
      }
      return FINISHED;
    }

    /** The end of an event whose wait list is decided. */
    method Settle(verdict: WaitListStatus, result: int)
      requires verdict != PENDING
      modifies `status, `calls, `references
      ensures View() ==
              if verdict == ERROR then
                Events.UpdateStatus(old(View()), CL_EXEC_STATUS_ERROR_FOR_EVENTS_IN_WAIT_LIST, true)
              else
                HandlerRelease(Events.UpdateStatus(Events.UpdateStatus(old(View()), CL_RUNNING, true),
                                                   if hasAction then result else CL_INVALID_OPERATION, true))
      ensures status == if verdict == ERROR then CL_EXEC_STATUS_ERROR_FOR_EVENTS_IN_WAIT_LIST
                        else if old(references) == 0 then CL_INVALID_EVENT
                        else if hasAction then result else CL_INVALID_OPERATION
      ensures references == if verdict == ERROR || old(references) == 0 then old(references) else old(references) - 1
    {
      if verdict == ERROR {
        UpdateStatus(CL_EXEC_STATUS_ERROR_FOR_EVENTS_IN_WAIT_LIST, true);
      } else {
        UpdateStatus(CL_RUNNING, true);
        UpdateStatus(if hasAction then result else CL_INVALID_OPERATION, true);
        var code := Release();
        if code != CL_SUCCESS {
          UpdateStatus(code, false);
        }
      }
    }

    /** Every event of the wait list is released as often as it was listed. */
    method ClearWaitList()
      requires this !in waitList
      modifies `waitList, waitList`references
      ensures waitList == []
      ensures forall e | e in old(waitList) :: e.references == Minus(old(e.references), multiset(old(waitList))[e])
    {
      for i := 0 to |waitList|
        invariant waitList == old(waitList)
        invariant forall e | e in old(waitList) :: e.references == Minus(old(e.references), multiset(waitList[..i])[e])
      {
        assert waitList[..i + 1] == waitList[..i] + [waitList[i]];
        var _ := waitList[i].Release();
      }
      assert waitList[..|waitList|] == waitList;
      waitList := [];
    }
  }

  /** The queue handler with its deque, shared by all command queues. */
  class EventQueue {
    var eventBuffer: seq<EventObject>

    constructor ()
      ensures eventBuffer == []
    {
      eventBuffer := [];
    }

    method PushEvent(event: EventObject)
      requires event.references > 0
      modifies this, event`references
      ensures eventBuffer == old(eventBuffer) + [event] && event.View() == Events.Retain(old(event.View()))
      ensures event.references == old(event.references) + 1
    {
      var _ := event.Retain();
      eventBuffer := eventBuffer + [event];
    }

    method PeekQueue() returns (event: EventObject?)
      ensures if eventBuffer == [] then event == null else event == eventBuffer[0]
    {
      event := if eventBuffer == [] then null else eventBuffer[0];
    }

    method PopFromEventQueue()
      modifies this, (if eventBuffer == [] then {} else {eventBuffer[0]})`references
      ensures old(eventBuffer) == [] ==> eventBuffer == []
      ensures old(eventBuffer) != [] ==>
                eventBuffer == old(eventBuffer)[1..] &&
                old(eventBuffer)[0].View() == Events.Release(old(eventBuffer[0].View())) &&
                old(eventBuffer)[0].references == Minus(old(eventBuffer[0].references), 1)
    {
      if eventBuffer == [] {
        return;
      }
      var _ := eventBuffer[0].Release();
      eventBuffer := eventBuffer[1..];
    }

    /** The first event in the deque that belongs to a command queue. */
    method Peek(queue: nat) returns (event: EventObject?)
      requires forall e | e in eventBuffer :: e.references > 0
      modifies eventBuffer`references
      ensures event == null ==> forall e | e in eventBuffer :: e.queue != Some(queue)
      ensures event != null ==>
                exists i :: 0 <= i < |eventBuffer| && eventBuffer[i] == event && event.queue == Some(queue) &&
                  event.View() == Events.Retain(old(eventBuffer[i].View())) &&
                  event.references == old(eventBuffer[i].references) + 1 &&
                  forall j | 0 <= j < i :: eventBuffer[j].queue != Some(queue)
    {
      for i := 0 to |eventBuffer|
        invariant forall j | 0 <= j < i :: eventBuffer[j].queue != Some(queue)
      {
        if eventBuffer[i].queue == Some(queue) {
          event := eventBuffer[i];
          var _ := event.Retain();
          return;
        }
      }
      event := null;
    }

    /** enqueueEvent of a command queue. */
    method EnqueueEvent(event: EventObject, commandQueue: nat, queueAlive: bool) returns (code: int)
      modifies this, event
      ensures code == CL_SUCCESS <==>
              queueAlive && old(event.references) > 0 && !IsFinal(old(event.status)) && event.hasAction
              && old(event.queue).None?
      ensures code == CL_SUCCESS ==>
                eventBuffer == old(eventBuffer) + [event] &&
                event.View() == old(event.View()).(queue := Some(commandQueue), references := old(event.references) + 2)
      ensures code != CL_SUCCESS ==> eventBuffer == old(eventBuffer) && event.View() == old(event.View())
      ensures code == CL_INVALID_COMMAND_QUEUE <==>
              !queueAlive || (old(event.references) > 0 && !IsFinal(old(event.status)) && event.hasAction
                              && old(event.queue).Some?)
      ensures code == CL_SUCCESS || code == CL_INVALID_COMMAND_QUEUE || code == CL_INVALID_EVENT
    {
      if !queueAlive {
        return CL_INVALID_COMMAND_QUEUE;
      }
      if event.references == 0 {
        return CL_INVALID_EVENT;
      }
      var finished := event.IsFinished();
      if finished {
        return CL_INVALID_EVENT;
      }
      if !event.hasAction {
        return CL_INVALID_EVENT;
      }
      code := event.PrepareToQueue(commandQueue);
      if code == CL_SUCCESS {
        PushEvent(event);
      }
    }

    /** One turn of runEventQueue without interference; result is what the action would return. */
    method HandleNext(result: int) returns (handled: bool)
      requires eventBuffer != [] ==> eventBuffer[0] !in eventBuffer[0].waitList
      modifies this, if eventBuffer == [] then {} else {eventBuffer[0]}
      modifies (if eventBuffer == [] then [] else eventBuffer[0].waitList)`references
      ensures old(eventBuffer) == [] ==> !handled && eventBuffer == []
      ensures old(eventBuffer) != [] ==>
                var e := old(eventBuffer)[0];
                var verdict := WaitListStatusOf(old(Statuses(eventBuffer[0].waitList)));
                && handled == (verdict != PENDING)
                && eventBuffer == (if handled then old(eventBuffer)[1..] else old(eventBuffer))
                && e.View() == Handled(old(eventBuffer[0].View()), verdict,
                                       if e.hasAction then result else CL_INVALID_OPERATION)
                && e.status == (if verdict == PENDING then CL_SUBMITTED
                                else if verdict == ERROR then CL_EXEC_STATUS_ERROR_FOR_EVENTS_IN_WAIT_LIST
                                else if old(eventBuffer[0].references) == 0 then CL_INVALID_EVENT
                                else if e.hasAction then result else CL_INVALID_OPERATION)
                && e.references == Minus(old(eventBuffer[0].references),
                                         if verdict == PENDING then 0 else if verdict == ERROR then 1 else 2)
      ensures old(eventBuffer) != [] ==> forall w | w in old(eventBuffer[0].waitList) ::
                w.references == if handled then Minus(old(w.references), multiset(old(eventBuffer[0].waitList))[w])
                                else old(w.references)
    {
      var event := PeekQueue();
      if event == null {
        return false;
      }
      event.UpdateStatus(CL_SUBMITTED, true);
      assert Statuses(event.waitList) == old(Statuses(eventBuffer[0].waitList));
      var verdict := event.GetWaitListStatus();
      if verdict == PENDING {
        return false;
      }
      event.Settle(verdict, result);
      event.ClearWaitList();
      PopFromEventQueue();
      return true;
    }
  }

  lemma StatusListExact(list: seq<EventObject>)
    ensures WaitListStatusOf(Statuses(list)) == FINISHED <==>
            forall i | 0 <= i < |list| :: list[i].status == CL_COMPLETE
    ensures WaitListStatusOf(Statuses(list)) == ERROR <==>
            exists i | 0 <= i < |list| ::
              list[i].status < 0 && forall j | 0 <= j < i :: list[j].status == CL_COMPLETE
  {
    var statuses := Statuses(list);
    WaitListStatusExact(statuses);
    assert forall i | 0 <= i < |list| :: statuses[i] == list[i].status;
    if i :| 0 <= i < |list| && list[i].status < 0 && forall j | 0 <= j < i :: list[j].status == CL_COMPLETE {
      assert statuses[i] < 0 && forall j | 0 <= j < i :: statuses[j] == CL_COMPLETE;
    }
    if i :| 0 <= i < |list| && statuses[i] < 0 && forall j | 0 <= j < i :: statuses[j] == CL_COMPLETE {
      assert forall j | 0 <= j < i :: list[j].status == CL_COMPLETE by {
        assert forall j | 0 <= j < i :: list[j].status == statuses[j];
      }
    }
  }

  function Minus(n: nat, k: nat): nat {
    if k < n then n - k else 0
  }

  function Ids(list: seq<EventObject>): seq<nat> {
    seq(|list|, i requires 0 <= i < |list| => list[i].id)
  }

  function Statuses(list: seq<EventObject>): seq<int>
    reads list
  {
    seq(|list|, i requires 0 <= i < |list| reads list => list[i].status)
  }

  /** A call succeeds with the new value of an event, or fails with an error code and changes nothing. */
  predicate Answers(r: Result<Event>, before: Event, after: Event, code: int) {
    match r
    case Success(e) => code == CL_SUCCESS && after == e
    case Failure(error) => code == error && after == before
  }
}
