/**
 Reference counting (src/Object.h, src/Event.cpp, src/queue_handler.cpp): in every interleaving the count of an event is
 the number of its users, so nobody uses a deleted event.
 */
module EventReferences {
  import opened Events
  import opened EventInvariants
  import opened EventProtocol
  import opened Sequences

  /** Wrappers of x in the wait lists of all events. */
  function WaitRefs(events: seq<Tracked>, x: nat): nat {
    if events == [] then 0
    else WaitRefs(events[..|events| - 1], x) + multiset(events[|events| - 1].event.waitList)[x]
  }

  function One(b: bool): nat {
    if b then 1 else 0
  }

  predicate InBuffer(s: State, t: Tracked) {
    t.Pushed() && t.position >= s.popped
  }

  /** References that clients, the enqueuing call, the queue and the deque hold. */
  function Own(s: State, t: Tracked): nat {
    t.clients + One(t.InCall()) + One(t.queueHeld) + One(InBuffer(s, t))
  }

  /** All references to event x. */
  function Held(s: State, x: nat): nat
    requires x < |s.events|
  {
    Own(s, s.events[x]) + WaitRefs(s.events, x) + multiset(s.peeks)[x]
  }

  predicate RefsRight(s: State) {
    && (forall x: nat | x < |s.events| :: s.events[x].event.references == Held(s, x))
    && (forall p | p in s.peeks :: p < |s.events|)
  }

  lemma {:induction false} WaitRefsUpdate(events: seq<Tracked>, e: nat, t: Tracked, x: nat)
    requires e < |events|
    ensures WaitRefs(events[e := t], x) + multiset(events[e].event.waitList)[x]
            == WaitRefs(events, x) + multiset(t.event.waitList)[x]
  {
    var n := |events| - 1;
    if e < n {
      WaitRefsUpdate(events[..n], e, t, x);
      assert events[e := t][..n] == events[..n][e := t];
    } else {
      assert events[e := t][..n] == events[..n];
    }
  }

  lemma WaitRefsSnoc(events: seq<Tracked>, t: Tracked, x: nat)
    ensures WaitRefs(events + [t], x) == WaitRefs(events, x) + multiset(t.event.waitList)[x]
  {
    assert (events + [t])[..|events|] == events;
  }

  lemma {:induction false} WaitRefsNone(events: seq<Tracked>, x: nat)
    requires forall e: nat | e < |events| :: x !in events[e].event.waitList
    ensures WaitRefs(events, x) == 0
  {
    if events != [] {
      WaitRefsNone(events[..|events| - 1], x);
    }
  }

  /** One more or one less reference does not change anybody's wait list. */
  lemma SameWaitRefs(s: State, e: nat, event: Event, x: nat)
    requires e < |s.events| && event.waitList == s.events[e].event.waitList
    ensures WaitRefs(s.WithEvent(e, event).events, x) == WaitRefs(s.events, x)
  {
    WaitRefsUpdate(s.events, e, s.events[e].(event := event), x);
  }

  // ---------- steps that change one event ----------

  predicate Counted(s: State, x: nat)
    requires x < |s.events|
  {
    s.events[x].event.references == Held(s, x)
  }

  /** The references of one event change with what it holds itself. */
  lemma OneEvent(s: State, s': State, e: nat, t: Tracked, x: nat)
    requires RefsRight(s) && e < |s.events| && x < |s.events|
    requires s'.events == s.events[e := t] && s'.peeks == s.peeks && s'.popped == s.popped
    requires t.event.waitList == s.events[e].event.waitList
    requires t.event.references + Own(s, s.events[e]) == s.events[e].event.references + Own(s', t)
    ensures x < |s'.events| && Counted(s', x)
  {
    WaitRefsUpdate(s.events, e, t, x);
    assert Counted(s, x);
  }

  lemma EnqueueRefs(s: State, c: ClientStep, x: nat)
    requires Inv(s) && RefsRight(s) && ClientEnabled(s, c) && x < |s.events|
    requires c.Prepare? || c.Push? || c.ReturnEvent? || c.Fail?
    ensures x < |ClientApply(s, c).events| && Counted(ClientApply(s, c), x)
  {
    hide CallbacksExact, WaitsEarlier, DecisionRight, WaitRefs, StatusRight, WaitListKept;
    var s' := ClientApply(s, c);
    assert EventRight(s, c.e) && Counted(s, c.e);
    assert s'.events == s.events[c.e := s'.events[c.e]];
    OneEvent(s, s', c.e, s'.events[c.e], x);
  }

  lemma HandleRefs(s: State, c: ClientStep, x: nat)
    requires Inv(s) && RefsRight(s) && ClientEnabled(s, c) && x < |s.events|
    requires c.SetUserStatus? || c.Register? || c.ClientRetain? || c.ClientRelease?
    ensures x < |ClientApply(s, c).events| && Counted(ClientApply(s, c), x)
  {
    hide WaitsEarlier, DecisionRight, WaitRefs, CallbacksExact;
    var s' := ClientApply(s, c);
    assert EventRight(s, c.e) && Counted(s, c.e);
    assert s'.events == s.events[c.e := s'.events[c.e]];
    OneEvent(s, s', c.e, s'.events[c.e], x);
  }

  // ---------- steps that move a wrapper ----------

  lemma MultisetSnoc(s: seq<nat>, y: nat, x: nat)
    ensures multiset(s + [y])[x] == multiset(s)[x] + One(x == y)
  {
  }

  /** A new wrapper that is not counted yet is counted by retaining. */
  lemma RetainCounts(s: State, w: nat, x: nat)
    requires w < |s.events| && x < |s.events| && s.events[w].event.references > 0
    requires s.events[x].event.references + One(x == w) == Held(s, x)
    ensures x < |s.Retained(w).events| && Counted(s.Retained(w), x)
  {
    SameWaitRefs(s, w, Retain(s.events[w].event), x);
  }

  /** A wrapper that is gone but still counted is discounted by releasing. */
  lemma ReleaseCounts(s: State, w: nat, x: nat)
    requires w < |s.events| && x < |s.events| && s.events[w].event.references > 0
    requires s.events[x].event.references == Held(s, x) + One(x == w)
    ensures x < |s.Released(w).events| && Counted(s.Released(w), x)
  {
    SameWaitRefs(s, w, Release(s.events[w].event), x);
  }

  /** Only the wait list of one event changes. */
  lemma WaitListHeld(s: State, e: nat, t: Tracked, x: nat)
    requires e < |s.events| && x < |s.events| && Own(s, t) == Own(s, s.events[e])
    ensures Held(s.With(e, t), x) + multiset(s.events[e].event.waitList)[x]
            == Held(s, x) + multiset(t.event.waitList)[x]
  {
    WaitRefsUpdate(s.events, e, t, x);
  }

  lemma AddToWaitListRefs(s: State, e: nat, w: nat, x: nat)
    requires Inv(s) && RefsRight(s) && ClientEnabled(s, AddToWaitList(e, w)) && x < |s.events|
    ensures x < |ClientApply(s, AddToWaitList(e, w)).events| && Counted(ClientApply(s, AddToWaitList(e, w)), x)
  {
    var t := s.events[e];
    var t' := t.(event := t.event.(waitList := t.event.waitList + [w]), waits := t.waits + [w]);
    assert EventRight(s, e) && Counted(s, w) && Counted(s, x);
    WaitListHeld(s, e, t', x);
    MultisetSnoc(t.event.waitList, w, x);
    RetainCounts(s.With(e, t'), w, x);
  }

  lemma DropWaitRefs(s: State, e: nat, x: nat)
    requires Inv(s) && RefsRight(s) && ClientEnabled(s, DropWait(e)) && x < |s.events|
    ensures x < |ClientApply(s, DropWait(e)).events| && Counted(ClientApply(s, DropWait(e)), x)
  {
    hide CallbacksExact, WaitsEarlier, DecisionRight, StatusRight, WaitListKept, WaitRefs, Release;
    var t := s.events[e];
    var n := |t.event.waitList| - 1;
    var w := t.event.waitList[n];
    var t' := t.(event := t.event.(waitList := t.event.waitList[..n]));
    assert t.event.waitList == t.event.waitList[..n] + [w];
    WaitEntry(s, e, w);
    assert Counted(s, w) && Counted(s, x);
    WaitListHeld(s, e, t', x);
    MultisetSnoc(t.event.waitList[..n], w, x);
    ReleaseCounts(s.With(e, t'), w, x);
  }

  /** Entries of wait lists are events that have not been deleted. */
  lemma WaitEntry(s: State, e: nat, w: nat)
    requires Inv(s) && RefsRight(s) && e < |s.events| && w in s.events[e].event.waitList
    ensures w < |s.events| && s.events[w].event.references > 0
  {
    assert EventRight(s, e);
    HasWaitRef(s.events, e, w);
    assert Counted(s, w);
  }

  /** A wait list's entry is referenced. */
  lemma HasWaitRef(events: seq<Tracked>, e: nat, w: nat)
    requires e < |events| && w in events[e].event.waitList
    ensures WaitRefs(events, w) > 0
  {
    var t := events[e].(event := events[e].event.(waitList := []));
    WaitRefsUpdate(events, e, t, w);
  }

  lemma {:induction false} FirstOfInBuffer(s: State, k: nat, queue: nat)
    ensures var f := FirstOf(s, k, queue);
      f.Some? ==> f.value < |s.events| && exists i: nat :: k <= i < |s.pushed| && s.pushed[i] == f.value
    decreases |s.pushed| - k
  {
    if k < |s.pushed| {
      FirstOfInBuffer(s, k + 1, queue);
    }
  }

  lemma PeekRefs(s: State, queue: nat, x: nat)
    requires Inv(s) && RefsRight(s) && x < |s.events|
    ensures x < |ClientApply(s, Peek(queue)).events| && Counted(ClientApply(s, Peek(queue)), x)
  {
    hide PlaceRight, CallbacksExact, WaitRefs, FirstOf;
    assert Counted(s, x);
    var f := FirstOf(s, s.popped, queue);
    FirstOfInBuffer(s, s.popped, queue);
    if f.Some? {
      var i: nat :| s.popped <= i < |s.pushed| && s.pushed[i] == f.value;
      BufferedAlive(s, i);
      MultisetSnoc(s.peeks, f.value, x);
      RetainCounts(s.(peeks := s.peeks + [f.value]), f.value, x);
    }
  }

  /** The deque's wrapper keeps an event alive. */
  lemma BufferedAlive(s: State, i: nat)
    requires Inv(s) && RefsRight(s) && s.popped <= i < |s.pushed|
    ensures s.pushed[i] < |s.events| && s.events[s.pushed[i]].event.references > 0
  {
    assert InBuffer(s, s.events[s.pushed[i]]) && Counted(s, s.pushed[i]);
  }

  lemma UnpeekRefs(s: State, i: nat, x: nat)
    requires Inv(s) && RefsRight(s) && ClientEnabled(s, Unpeek(i)) && x < |s.events|
    ensures x < |ClientApply(s, Unpeek(i)).events| && Counted(ClientApply(s, Unpeek(i)), x)
  {
    var e := s.peeks[i];
    assert e in s.peeks && Counted(s, x) && Counted(s, e);
    MultisetWithout(s.peeks, i);
    assert multiset(s.peeks)[e] > 0;
    ReleaseCounts(s.(peeks := Without(s.peeks, i)), e, x);
  }

  lemma CreateRefs(s: State, c: ClientStep, x: nat)
    requires Inv(s) && RefsRight(s) && (c.CreateEvent? || c.CreateUserEvent?) && x <= |s.events|
    ensures x < |ClientApply(s, c).events| && Counted(ClientApply(s, c), x)
  {
    var t := NewTracked(c.CreateUserEvent?);
    WaitRefsSnoc(s.events, t, x);
    if x < |s.events| {
      assert Counted(s, x);
    } else {
      forall e: nat | e < |s.events| ensures x !in s.events[e].event.waitList {
        assert EventRight(s, e);
      }
      WaitRefsNone(s.events, x);
      assert x !in s.peeks;
    }
  }

  lemma ClientRefs(s: State, c: ClientStep, x: nat)
    requires Inv(s) && RefsRight(s) && ClientEnabled(s, c) && x < |ClientApply(s, c).events|
    ensures Counted(ClientApply(s, c), x)
  {
    ClientFields(s, c);
    match c
    case CreateUserEvent => CreateRefs(s, c, x);
    case CreateEvent => CreateRefs(s, c, x);
    case AddToWaitList(e, w) => AddToWaitListRefs(s, e, w, x);
    case DropWait(e) => DropWaitRefs(s, e, x);
    case Peek(queue) => PeekRefs(s, queue, x);
    case Unpeek(i) => UnpeekRefs(s, i, x);
    case Prepare(_, _) => EnqueueRefs(s, c, x);
    case Push(_) => EnqueueRefs(s, c, x);
    case ReturnEvent(_, _) => EnqueueRefs(s, c, x);
    case Fail(_) => EnqueueRefs(s, c, x);
    case SetUserStatus(_, _) => HandleRefs(s, c, x);
    case Register(_, _) => HandleRefs(s, c, x);
    case ClientRetain(_) => HandleRefs(s, c, x);
    case ClientRelease(_) => HandleRefs(s, c, x);
  }

  lemma PeeksAfter(s: State, c: ClientStep)
    requires ClientEnabled(s, c)
    ensures c.Peek? ==>
      var f := FirstOf(s, s.popped, c.queue);
      ClientApply(s, c).peeks == if f.Some? then s.peeks + [f.value] else s.peeks
    ensures c.Unpeek? ==> ClientApply(s, c).peeks == Without(s.peeks, c.i)
    ensures !c.Peek? && !c.Unpeek? ==> ClientApply(s, c).peeks == s.peeks
  {
    hide FirstOf, Without, Retain, Release, SetUserEventStatus, PrepareToQueue, RegisterCallback;
  }

  lemma ClientPeeks(s: State, c: ClientStep, p: nat)
    requires Inv(s) && RefsRight(s) && ClientEnabled(s, c) && p in ClientApply(s, c).peeks
    ensures p < |ClientApply(s, c).events|
  {
    ClientFields(s, c);
    PeeksAfter(s, c);
    hide ClientApply;
    if c.Peek? {
      FirstOfInBuffer(s, s.popped, c.queue);
      var f := FirstOf(s, s.popped, c.queue);
      assert p in s.peeks || (f.Some? && p == f.value);
    } else {
      assert p in s.peeks;
    }
  }

  lemma ClientKeepsRefs(s: State, c: ClientStep)
    requires Inv(s) && RefsRight(s) && ClientEnabled(s, c)
    ensures RefsRight(ClientApply(s, c))
  {
    var s' := ClientApply(s, c);
    forall x: nat | x < |s'.events| ensures s'.events[x].event.references == Held(s', x) {
      ClientRefs(s, c, x);
    }
    forall p | p in s'.peeks ensures p < |s'.events| {
      ClientPeeks(s, c, p);
    }
  }

  // ---------- the handler ----------

  /** The handler's event is still in the deque, so it is alive. */
  lemma HeadIsAlive(s: State)
    requires Inv(s) && RefsRight(s) && !s.handler.Idle?
    ensures s.handler.e < |s.events| && s.events[s.handler.e].event.references > 0 && HeadAlive(s)
  {
    HeadFacts(s);
    BufferedAlive(s, s.popped);
  }

  lemma HandlerUpdateRefs(s: State, result: int, x: nat)
    requires Inv(s) && RefsRight(s) && result <= 0 && x < |s.events| && !s.handler.Clearing?
    ensures x < |HandlerApply(s, result).events| && Counted(HandlerApply(s, result), x)
  {
    hide CallbacksExact, WaitsEarlier, WaitRefs, Fire;
    var s' := HandlerApply(s, result);
    assert Counted(s, x);
    if !s.handler.Idle? {
      var e := s.handler.e;
      HeadFacts(s);
      HeadIsAlive(s);
      assert s'.events == s.events[e := s'.events[e]];
      OneEvent(s, s', e, s'.events[e], x);
    }
  }

  lemma HandlerClearRefs(s: State, result: int, x: nat)
    requires Inv(s) && RefsRight(s) && result <= 0 && x < |s.events| && s.handler.Clearing?
    ensures x < |HandlerApply(s, result).events| && Counted(HandlerApply(s, result), x)
  {
    hide CallbacksExact, WaitsEarlier, DecisionRight, StatusRight, WaitRefs, Release;
    HeadFacts(s);
    var e := s.handler.e;
    if s.events[e].event.waitList != [] {
      ClearOneRefs(s, e, x);
      var mid := HandlerApply(s, result);
      assert mid == s.With(e, Cleared(s.events[e])).Released(s.events[e].event.waitList[0]);
    } else {
      HeadIsAlive(s);
      PopHeld(s, e, x);
      assert Counted(s, x);
      ReleaseCounts(s.At(Idle).(popped := s.popped + 1), e, x);
    }
  }

  function Cleared(t: Tracked): Tracked
    requires t.event.waitList != []
  {
    t.(event := t.event.(waitList := t.event.waitList[1..]))
  }

  lemma ClearOneRefs(s: State, e: nat, x: nat)
    requires Inv(s) && RefsRight(s) && e < |s.events| && x < |s.events| && s.events[e].event.waitList != []
    ensures var s' := s.With(e, Cleared(s.events[e])).Released(s.events[e].event.waitList[0]);
      x < |s'.events| && Counted(s', x)
  {
    var t := s.events[e];
    var w := t.event.waitList[0];
    assert t.event.waitList == [w] + t.event.waitList[1..];
    WaitEntry(s, e, w);
    assert Counted(s, x);
    WaitListHeld(s, e, Cleared(t), x);
    ReleaseCounts(s.With(e, Cleared(t)), w, x);
  }

  lemma PopHeld(s: State, e: nat, x: nat)
    requires Inv(s) && IsHead(s, e) && x < |s.events|
    ensures Held(s.At(Idle).(popped := s.popped + 1), x) + One(x == e) == Held(s, x)
  {
    assert s.pushed[s.popped] == e;
  }

  lemma HandlerRefs(s: State, result: int)
    requires Inv(s) && RefsRight(s) && result <= 0
    ensures RefsRight(HandlerApply(s, result))
  {
    HandlerFields(s, result);
    var s' := HandlerApply(s, result);
    forall x: nat | x < |s'.events| ensures s'.events[x].event.references == Held(s', x) {
      if s.handler.Clearing? {
        HandlerClearRefs(s, result, x);
      } else {
        HandlerUpdateRefs(s, result, x);
      }
    }
  }

  // ---------- every run ----------

  predicate Good(s: State) {
    Inv(s) && RefsRight(s)
  }

  lemma StepKeepsGood(s: State, step: Step)
    requires Good(s) && Enabled(s, step)
    ensures Good(Apply(s, step)) && Grown(s, Apply(s, step))
  {
    match step
    case Client(c) =>
      ClientKeepsInv(s, c);
      ClientGrown(s, c);
      ClientKeepsRefs(s, c);
    case Handle(result) =>
      if !s.handler.Idle? {
        HeadIsAlive(s);
      }
      HandlerKeepsInv(s, result);
      HandlerGrown(s, result);
      HandlerRefs(s, result);
  }

  /** Every state of every interleaving that starts with no events. */
  lemma {:induction false} RunKeepsGood(s: State, steps: seq<Step>)
    requires Good(s) && IsRun(s, steps)
    ensures Good(After(s, steps))
    decreases |steps|
  {
    if steps != [] {
      StepKeepsGood(s, steps[0]);
      RunKeepsGood(Apply(s, steps[0]), steps[1..]);
    }
  }

  lemma Reachable(steps: seq<Step>)
    requires IsRun(INITIAL, steps)
    ensures Good(After(INITIAL, steps))
  {
    RunKeepsGood(INITIAL, steps);
  }
}
