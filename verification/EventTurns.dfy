/**
 The fine steps of the handler against its loop (src/queue_handler.cpp): when no client interferes, they add up to one
 turn of runEventQueue as the objects perform it.
 */
module EventTurns {
  import opened Events
  import opened EventInvariants
  import opened EventProtocol
  import opened Wrappers

  /** N steps of the handler alone. */
  function Solo(s: State, n: nat, result: int): State
    decreases n
  {
    if n == 0 then s else Solo(HandlerApply(s, result), n - 1, result)
  }

  lemma {:induction false} SoloAdd(s: State, m: nat, n: nat, result: int)
    ensures Solo(s, m + n, result) == Solo(Solo(s, m, result), n, result)
    decreases m
  {
    hide HandlerApply;
    if m > 0 {
      SoloAdd(HandlerApply(s, result), m - 1, n, result);
    }
  }

  function StatusList(s: State, list: seq<nat>): seq<int> {
    seq(|list|, k requires 0 <= k < |list| => s.StatusOf(list[k]))
  }

  /** Reading the wait list one by one gives the verdict on the whole. */
  lemma {:induction false} ScanSolo(s: State, e: nat, i: nat, result: int) returns (n: nat)
    requires s.handler == Checking(e, i) && e < |s.events| && i <= |s.events[e].event.waitList|
    ensures Solo(s, n, result)
            == match WaitListStatusOf(StatusList(s, s.events[e].event.waitList[i..]))
               case FINISHED => s.At(Starting(e))
               case ERROR => s.At(Aborting(e))
               case PENDING => s.At(Idle)
    decreases |s.events[e].event.waitList| - i
  {
    var waitList := s.events[e].event.waitList;
    if i == |waitList| {
      n := 1;
    } else {
      assert StatusList(s, waitList[i..])[0] == s.StatusOf(waitList[i]);
      if s.StatusOf(waitList[i]) != CL_COMPLETE {
        n := 1;
      } else {
        assert StatusList(s, waitList[i..])[1..] == StatusList(s, waitList[i + 1..]);
        var rest := ScanSolo(s.At(Checking(e, i + 1)), e, i + 1, result);
        assert StatusList(s.At(Checking(e, i + 1)), waitList[i + 1..]) == StatusList(s, waitList[i + 1..]);
        n := rest + 1;
      }
    }
  }

  lemma {:induction false} ClearSolo(s: State, e: nat, result: int) returns (n: nat)
    requires s.handler == Clearing(e) && e < |s.events| && e !in s.events[e].event.waitList
    ensures var s' := Solo(s, n, result);
      && s'.handler == Idle && s'.popped == s.popped + 1 && e < |s'.events|
      && s'.events[e].event == Release(s.events[e].event.(waitList := []))
    decreases |s.events[e].event.waitList|
  {
    if s.events[e].event.waitList == [] {
      n := 1;
    } else {
      var next := HandlerApply(s, result);
      assert next.events[e].event == s.events[e].event.(waitList := s.events[e].event.waitList[1..]);
      var rest := ClearSolo(next, e, result);
      n := rest + 1;
    }
  }

  /** From the verdict on, for an event that is not in its own wait list. */
  lemma SettleSolo(s: State, e: nat, result: int) returns (n: nat)
    requires (s.handler == Starting(e) || s.handler == Aborting(e)) && e < |s.events|
    requires e !in s.events[e].event.waitList
    ensures var s', t := Solo(s, n, result), s.events[e].event;
      && s'.handler == Idle && s'.popped == s.popped + 1 && e < |s'.events|
      && s'.events[e].event ==
         if s.handler.Aborting? then
           Release(UpdateStatus(t, CL_EXEC_STATUS_ERROR_FOR_EVENTS_IN_WAIT_LIST, true).(waitList := []))
         else
           Release(HandlerRelease(UpdateStatus(UpdateStatus(t, CL_RUNNING, true), result, true)).(waitList := []))
  {
    hide UpdateStatus, HandlerRelease, HandlerApply, Release;
    var steps := if s.handler.Aborting? then 1 else 4;
    var mid := Solo(s, steps, result);
    SettleSteps(s, e, result);
    var rest := ClearSolo(mid, e, result);
    SoloAdd(s, steps, rest, result);
    n := steps + rest;
  }

  lemma SettleSteps(s: State, e: nat, result: int)
    requires (s.handler == Starting(e) || s.handler == Aborting(e)) && e < |s.events|
    ensures var s', t := Solo(s, if s.handler.Aborting? then 1 else 4, result), s.events[e].event;
      && s'.handler == Clearing(e) && s'.popped == s.popped && e < |s'.events|
      && s'.events[e].event ==
         if s.handler.Aborting? then UpdateStatus(t, CL_EXEC_STATUS_ERROR_FOR_EVENTS_IN_WAIT_LIST, true)
         else HandlerRelease(UpdateStatus(UpdateStatus(t, CL_RUNNING, true), result, true))
    ensures Solo(s, if s.handler.Aborting? then 1 else 4, result).events[e].event.waitList == s.events[e].event.waitList
  {
    hide Fire;
    if s.handler.Starting? {
      var a := HandlerApply(s, result);
      var b := HandlerApply(a, result);
      var c := HandlerApply(b, result);
      var d := HandlerApply(c, result);
      assert Solo(s, 4, result) == Solo(a, 3, result) == Solo(b, 2, result) == Solo(c, 1, result) == d;
    } else {
      assert Solo(s, 1, result) == HandlerApply(s, result);
    }
  }

  lemma NotOwnWait(s: State, e: nat)
    requires Inv(s) && s.handler == Peeked(e)
    ensures e < |s.events| && e !in s.events[e].event.waitList
  {
    HeadFacts(s);
  }

  /** One turn of the loop. */
  lemma TurnIsHandled(s: State, e: nat, result: int) returns (n: nat)
    requires Inv(s) && s.handler == Peeked(e) && e < |s.events|
    ensures var s', verdict := Solo(s, n, result), WaitListStatusOf(StatusList(s, s.events[e].event.waitList));
      && s'.handler == Idle && e < |s'.events| && s'.events[e].event == Handled(s.events[e].event, verdict, result)
      && s'.popped == s.popped + if verdict == PENDING then 0 else 1
  {
    NotOwnWait(s, e);
    var a := HandlerApply(s, result);
    var waitList := s.events[e].event.waitList;
    assert a.events[e].event == UpdateStatus(s.events[e].event, CL_SUBMITTED, true);
    assert waitList[0..] == waitList && StatusList(a, waitList) == StatusList(s, waitList);
    var m := ScanSolo(a, e, 0, result);
    var b := Solo(a, m, result);
    n := m + 1;
    if b.handler != Idle {
      var rest := SettleSolo(b, e, result);
      SoloAdd(a, m, rest, result);
      n := m + rest + 1;
    }
  }
}
