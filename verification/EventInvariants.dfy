/**
 What every interleaving keeps (src/queue_handler.cpp, src/Event.cpp): each part of the invariant is kept by the steps
 of clients and by those of the handler.
 */
module EventInvariants {
  import opened Events
  import opened EventProtocol
  import opened Sequences
  import opened Wrappers

  predicate PlaceRight(s: State, e: nat)
    requires e < |s.events|
  {
    && WaitsEarlier(s, e) && WaitListKept(s, e) && StatusRight(s, e) && DecisionRight(s, e) && QueueHeldRight(s, e)
    && OutcomeRight(s, e) && UseRight(s, e) && HandleRight(s.events[e])
  }

  predicate EventRight(s: State, e: nat)
    requires e < |s.events|
  {
    PlaceRight(s, e) && CallbacksExact(s.events[e].event, s.events[e].user, s.events[e].accepted)
  }

  predicate Inv(s: State) {
    HandlerOnHead(s) && Ordered(s) && forall e: nat | e < |s.events| :: EventRight(s, e)
  }

  // ---------- events a step does not change ----------

  predicate SameButReferences(t: Tracked, t': Tracked) {
    && t' == t.(event := t.event.(references := t'.event.references), clients := t'.clients)
    && (HandleRight(t) ==> HandleRight(t'))
  }

  predicate SamePlace(t: Tracked, t': Tracked) {
    && t' == t.(event := t.event.(references := t'.event.references, callbacks := t'.event.callbacks,
                                    calls := t'.event.calls),
                clients := t'.clients, accepted := t'.accepted)
    && (HandleRight(t) ==> HandleRight(t'))
  }

  /** The event a client's step changes in more than its references. */
  function Subject(c: ClientStep): Option<nat> {
    match c
    case AddToWaitList(e, _) => Some(e)
    case Prepare(e, _) => Some(e)
    case Push(e) => Some(e)
    case ReturnEvent(e, _) => Some(e)
    case Fail(e) => Some(e)
    case DropWait(e) => Some(e)
    case SetUserStatus(e, _) => Some(e)
    case Register(e, _) => Some(e)
    case _ => None
  }

  lemma ClientOthers(s: State, c: ClientStep, x: nat)
    requires ClientEnabled(s, c) && x < |s.events| && Subject(c) != Some(x)
    ensures x < |ClientApply(s, c).events| && SameButReferences(s.events[x], ClientApply(s, c).events[x])
  {
    hide SetUserEventStatus, PrepareToQueue, FirstOf, RegisterCallback, Without, Retain, Release;
    match c
    case AddToWaitList(e, w) =>
      var t := s.events[e];
      RetainedOnly(s.With(e, t.(event := t.event.(waitList := t.event.waitList + [w]), waits := t.waits + [w])), w, x);
    case DropWait(e) =>
      var t := s.events[e];
      var n := |t.event.waitList| - 1;
      ReleasedOnly(s.With(e, t.(event := t.event.(waitList := t.event.waitList[..n]))), t.event.waitList[n], x);
    case Peek(queue) =>
      var first := FirstOf(s, s.popped, queue);
      if first.Some? {
        RetainedOnly(s.(peeks := s.peeks + [first.value]), first.value, x);
      }
    case Unpeek(i) => ReleasedOnly(s.(peeks := Without(s.peeks, i)), s.peeks[i], x);
    case ClientRetain(e) => HandleOthers(s, c, x);
    case ClientRelease(e) => HandleOthers(s, c, x);
    case _ => assert ClientApply(s, c).events[x] == s.events[x];
  }

  lemma HandleOthers(s: State, c: ClientStep, x: nat)
    requires ClientEnabled(s, c) && x < |s.events| && (c.ClientRetain? || c.ClientRelease?)
    ensures x < |ClientApply(s, c).events| && SameButReferences(s.events[x], ClientApply(s, c).events[x])
  {
  }

  lemma RetainedOnly(s: State, w: nat, x: nat)
    requires x < |s.events|
    ensures |s.Retained(w).events| == |s.events| && SameButReferences(s.events[x], s.Retained(w).events[x])
  {
  }

  lemma ReleasedOnly(s: State, w: nat, x: nat)
    requires x < |s.events|
    ensures |s.Released(w).events| == |s.events| && SameButReferences(s.events[x], s.Released(w).events[x])
  {
  }

  lemma ClientFields(s: State, c: ClientStep)
    requires ClientEnabled(s, c)
    ensures var s' := ClientApply(s, c);
      && s'.handler == s.handler && s'.popped == s.popped
      && s'.pushed == (if c.Push? then s.pushed + [c.e] else s.pushed)
      && |s'.events| == |s.events| + if c.CreateUserEvent? || c.CreateEvent? then 1 else 0
  {
  }

  /** What no step changes about an event, and that a status only goes down and a final one stays. */
  predicate Later(t: Tracked, t': Tracked) {
    && t'.user == t.user && t'.event.status <= t.event.status
    && (IsFinal(t.event.status) ==> t'.event.status == t.event.status)
    && (t.Pushed() ==> t'.Pushed() && t'.position == t.position && t'.waits == t.waits)
    && (t.event.queue.Some? ==> t'.event.queue == t.event.queue)
    && (t.outcome.Some? ==> t'.outcome == t.outcome)
  }

  lemma SubjectLater(s: State, c: ClientStep, x: nat)
    requires Inv(s) && ClientEnabled(s, c) && Subject(c) == Some(x)
    ensures x < |ClientApply(s, c).events| && Later(s.events[x], ClientApply(s, c).events[x])
  {
    hide CallbacksExact, WaitsEarlier, DecisionRight, Fire;
    assert EventRight(s, x);
  }

  /** The events of s are still there, later in their lives. */
  predicate Grown(s: State, s': State) {
    && |s.events| <= |s'.events| && s.pushed <= s'.pushed
    && forall x: nat | x < |s.events| :: Later(s.events[x], s'.events[x])
  }

  lemma ClientGrown(s: State, c: ClientStep)
    requires Inv(s) && ClientEnabled(s, c)
    ensures Grown(s, ClientApply(s, c))
  {
    ClientFields(s, c);
    forall x: nat | x < |s.events| ensures Later(s.events[x], ClientApply(s, c).events[x]) {
      if Subject(c) == Some(x) {
        SubjectLater(s, c, x);
      } else {
        ClientOthers(s, c, x);
      }
    }
  }

  lemma CompleteStays(s: State, s': State, waits: seq<nat>)
    requires Grown(s, s') && forall w | w in waits :: w < |s.events|
    ensures AllComplete(s, waits) ==> AllComplete(s', waits)
    ensures SomeFailed(s, waits) ==> SomeFailed(s', waits)
  {
    if SomeFailed(s, waits) {
      var w :| w in waits && s.StatusOf(w) < 0;
      assert s'.StatusOf(w) < 0;
    }
  }

  /** Neither the handler nor the deque's front has moved. */
  predicate Unmoved(s: State, s': State) {
    s'.handler == s.handler && s'.popped == s.popped
  }

  lemma OtherWaits(s: State, s': State, x: nat)
    requires Grown(s, s') && x < |s.events| && WaitsEarlier(s, x) && SamePlace(s.events[x], s'.events[x])
    ensures WaitsEarlier(s', x)
  {
  }

  lemma OtherDecision(s: State, s': State, x: nat)
    requires Grown(s, s') && Unmoved(s, s') && x < |s.events| && WaitsEarlier(s, x)
    requires SamePlace(s.events[x], s'.events[x]) && DecisionRight(s, x)
    ensures DecisionRight(s', x)
  {
    var t := s.events[x];
    CompleteStays(s, s', t.waits);
    if t.Pushed() && t.position == s.popped && s.handler.Checking? {
      CompleteStays(s, s', t.waits[..s.handler.i]);
    }
  }

  lemma OtherPlace(s: State, s': State, x: nat)
    requires Grown(s, s') && Unmoved(s, s') && x < |s.events| && PlaceRight(s, x)
    requires SamePlace(s.events[x], s'.events[x])
    ensures PlaceRight(s', x)
  {
    OtherWaits(s, s', x);
    OtherDecision(s, s', x);
  }

  // ---------- the event a client's step changes ----------

  lemma AddToWaitListRight(s: State, e: nat, w: nat)
    requires Inv(s) && ClientEnabled(s, AddToWaitList(e, w))
    ensures EventRight(ClientApply(s, AddToWaitList(e, w)), e)
  {
    var s' := ClientApply(s, AddToWaitList(e, w));
    ClientGrown(s, AddToWaitList(e, w));
    assert EventRight(s, e) && EventRight(s, w);
    assert s'.events[e].waits == s.events[e].waits + [w];
    assert WaitsEarlier(s', e);
  }

  lemma PrepareRight(s: State, e: nat, queue: nat)
    requires Inv(s) && ClientEnabled(s, Prepare(e, queue))
    ensures EventRight(ClientApply(s, Prepare(e, queue)), e)
  {
    ClientGrown(s, Prepare(e, queue));
    assert EventRight(s, e);
  }

  lemma PushRight(s: State, e: nat)
    requires Inv(s) && ClientEnabled(s, Push(e))
    ensures EventRight(ClientApply(s, Push(e)), e)
  {
    ClientGrown(s, Push(e));
    assert EventRight(s, e);
  }

  lemma ReturnRight(s: State, e: nat, keep: bool)
    requires Inv(s) && ClientEnabled(s, ReturnEvent(e, keep))
    ensures EventRight(ClientApply(s, ReturnEvent(e, keep)), e)
  {
    hide CallbacksExact;
    ClientGrown(s, ReturnEvent(e, keep));
    assert EventRight(s, e);
    CallbacksSame(s.events[e].event, ClientApply(s, ReturnEvent(e, keep)).events[e].event, s.events[e].user,
                  s.events[e].accepted);
    CompleteStays(s, ClientApply(s, ReturnEvent(e, keep)), s.events[e].waits);
  }

  lemma FailRight(s: State, e: nat)
    requires Inv(s) && ClientEnabled(s, Fail(e))
    ensures EventRight(ClientApply(s, Fail(e)), e)
  {
    ClientGrown(s, Fail(e));
    assert EventRight(s, e);
  }

  lemma DropWaitRight(s: State, e: nat)
    requires Inv(s) && ClientEnabled(s, DropWait(e))
    ensures EventRight(ClientApply(s, DropWait(e)), e)
  {
    ClientGrown(s, DropWait(e));
    assert EventRight(s, e);
  }

  lemma SetUserStatusRight(s: State, e: nat, status: int)
    requires Inv(s) && ClientEnabled(s, SetUserStatus(e, status))
    ensures EventRight(ClientApply(s, SetUserStatus(e, status)), e)
  {
    ClientGrown(s, SetUserStatus(e, status));
    assert EventRight(s, e);
    var t := s.events[e];
    if SetUserEventStatus(t.event, status).Success? {
      CallbacksUserSet(t.event, t.accepted, status);
    }
  }

  lemma RegisterRight(s: State, e: nat, level: int)
    requires Inv(s) && ClientEnabled(s, Register(e, level))
    ensures EventRight(ClientApply(s, Register(e, level)), e)
  {
    ClientGrown(s, Register(e, level));
    assert EventRight(s, e);
    OtherPlace(s, ClientApply(s, Register(e, level)), e);
    if ValidLevel(level) {
      CallbacksRegister(s.events[e].event, s.events[e].user, s.events[e].accepted, level);
    }
  }

  // ---------- clients keep the invariant ----------

  lemma CallbacksSame(e: Event, e': Event, user: bool, accepted: seq<Registration>)
    requires CallbacksExact(e, user, accepted)
    requires e'.callbacks == e.callbacks && e'.calls == e.calls && e'.status == e.status
    ensures CallbacksExact(e', user, accepted)
  {
    forall id: nat | id < |accepted| ensures CalledOnce(e', user, accepted[id], id) {
      assert CalledOnce(e, user, accepted[id], id);
    }
  }

  lemma SubjectRight(s: State, c: ClientStep, x: nat)
    requires Inv(s) && ClientEnabled(s, c) && Subject(c) == Some(x)
    ensures x < |ClientApply(s, c).events| && EventRight(ClientApply(s, c), x)
  {
    match c
    case AddToWaitList(e, w) => AddToWaitListRight(s, e, w);
    case Prepare(e, queue) => PrepareRight(s, e, queue);
    case Push(e) => PushRight(s, e);
    case ReturnEvent(e, keep) => ReturnRight(s, e, keep);
    case Fail(e) => FailRight(s, e);
    case DropWait(e) => DropWaitRight(s, e);
    case SetUserStatus(e, status) => SetUserStatusRight(s, e, status);
    case Register(e, level) => RegisterRight(s, e, level);
    case _ =>
  }

  lemma NewRight(s: State, c: ClientStep)
    requires Inv(s) && (c.CreateUserEvent? || c.CreateEvent?)
    ensures EventRight(ClientApply(s, c), |s.events|)
  {
    var t := NewTracked(c.CreateUserEvent?);
    assert ClientApply(s, c).events[|s.events|] == t;
    assert t.waits == [] && t.accepted == [];
  }

  lemma ClientRight(s: State, c: ClientStep, x: nat)
    requires Inv(s) && ClientEnabled(s, c) && x < |ClientApply(s, c).events|
    ensures EventRight(ClientApply(s, c), x)
  {
    var s' := ClientApply(s, c);
    ClientFields(s, c);
    if x == |s.events| {
      NewRight(s, c);
    } else if Subject(c) == Some(x) {
      SubjectRight(s, c, x);
    } else {
      ClientOthers(s, c, x);
      ClientGrown(s, c);
      assert EventRight(s, x);
      OtherPlace(s, s', x);
      CallbacksSame(s.events[x].event, s'.events[x].event, s.events[x].user, s.events[x].accepted);
    }
  }

  /** Only pushing makes an event a member of the order. */
  lemma ClientPushed(s: State, c: ClientStep, x: nat)
    requires Inv(s) && ClientEnabled(s, c) && x < |ClientApply(s, c).events|
    ensures ClientApply(s, c).events[x].Pushed() <==> (x < |s.events| && s.events[x].Pushed()) || c == Push(x)
    ensures c == Push(x) ==> ClientApply(s, c).events[x].position == |s.pushed|
  {
    hide CallbacksExact, WaitsEarlier, DecisionRight, StatusRight, WaitListKept, QueueHeldRight, FirstOf, SetCallback;
    ClientFields(s, c);
    if x < |s.events| {
      assert EventRight(s, x);
    }
    if x < |s.events| && Subject(c) != Some(x) {
      ClientOthers(s, c, x);
    }
  }

  lemma ClientOrder(s: State, c: ClientStep)
    requires Inv(s) && ClientEnabled(s, c)
    ensures HandlerOnHead(ClientApply(s, c)) && Ordered(ClientApply(s, c))
  {
    var s' := ClientApply(s, c);
    ClientFields(s, c);
    ClientGrown(s, c);
    forall x: nat | x < |s'.events| && s'.events[x].Pushed()
      ensures s'.events[x].position < |s'.pushed| && s'.pushed[s'.events[x].position] == x
    {
      ClientPushed(s, c, x);
    }
    forall k: nat | k < |s'.pushed|
      ensures s'.pushed[k] < |s'.events| && s'.events[s'.pushed[k]].Pushed() && s'.events[s'.pushed[k]].position == k
    {
      if k == |s.pushed| {
        ClientPushed(s, c, s'.pushed[k]);
      }
    }
  }

  lemma ClientKeepsInv(s: State, c: ClientStep)
    requires Inv(s) && ClientEnabled(s, c)
    ensures Inv(ClientApply(s, c))
  {
    ClientOrder(s, c);
    forall x: nat | x < |ClientApply(s, c).events| ensures EventRight(ClientApply(s, c), x) {
      ClientRight(s, c, x);
    }
  }

  // ---------- the handler keeps the invariant ----------

  /** Where the handler is working, the head of the deque is. */
  lemma HeadFacts(s: State)
    requires Inv(s) && !s.handler.Idle?
    ensures var e := s.handler.e;
      e < |s.events| && s.events[e].Pushed() && s.events[e].position == s.popped < |s.pushed| && EventRight(s, e)
  {
    assert s.pushed[s.popped] == s.handler.e;
    assert EventRight(s, s.handler.e);
  }

  lemma HandlerOthers(s: State, result: int, x: nat)
    requires x < |s.events| && (s.handler.Idle? || s.handler.e != x)
    ensures x < |HandlerApply(s, result).events|
    ensures SameButReferences(s.events[x], HandlerApply(s, result).events[x])
  {
    hide UpdateStatus, Retain, Release;
    if s.handler.Clearing? && s.handler.e < |s.events| && s.events[s.handler.e].event.waitList != [] {
      ClearingOthers(s, result, x);
    } else {
      assert HandlerApply(s, result).events[x] == s.events[x];
    }
  }

  lemma ClearingOthers(s: State, result: int, x: nat)
    requires x < |s.events| && s.handler.Clearing? && s.handler.e < |s.events| && s.handler.e != x
    requires s.events[s.handler.e].event.waitList != []
    ensures x < |HandlerApply(s, result).events|
    ensures SameButReferences(s.events[x], HandlerApply(s, result).events[x])
  {
    var t := s.events[s.handler.e];
    ReleasedOnly(s.With(s.handler.e, t.(event := t.event.(waitList := t.event.waitList[1..]))), t.event.waitList[0], x);
  }

  /** The event the handler releases has not been deleted yet. */
  predicate HeadAlive(s: State) {
    s.handler.Releasing? && s.handler.e < |s.events| ==> s.events[s.handler.e].event.references > 0
  }

  lemma HandlerHead(s: State, result: int)
    requires Inv(s) && HeadAlive(s) && result <= 0 && !s.handler.Idle?
    ensures var e := s.handler.e;
      && e < |s.events| && e < |HandlerApply(s, result).events|
      && Later(s.events[e], HandlerApply(s, result).events[e])
  {
    hide CallbacksExact, WaitsEarlier, Fire;
    HeadFacts(s);
  }

  lemma HandlerFields(s: State, result: int)
    requires Inv(s)
    ensures var s' := HandlerApply(s, result);
      && |s'.events| == |s.events| && s'.pushed == s.pushed && s'.peeks == s.peeks
      && (s'.popped == s.popped || (s'.popped == s.popped + 1 <= |s.pushed| && s.handler.Clearing? && s'.handler.Idle?))
  {
    if !s.handler.Idle? {
      HeadFacts(s);
    }
  }

  lemma HandlerGrown(s: State, result: int)
    requires Inv(s) && HeadAlive(s) && result <= 0
    ensures Grown(s, HandlerApply(s, result))
  {
    HandlerFields(s, result);
    forall x: nat | x < |s.events| ensures Later(s.events[x], HandlerApply(s, result).events[x]) {
      if !s.handler.Idle? && x == s.handler.e {
        HandlerHead(s, result);
      } else {
        HandlerOthers(s, result, x);
      }
    }
  }

  /** Events behind or before the head do not notice what the handler does, except that one becomes the head. */
  lemma AwayFromHead(s: State, s': State, x: nat)
    requires Grown(s, s') && x < |s.events| && PlaceRight(s, x) && SamePlace(s.events[x], s'.events[x])
    requires !s.events[x].Pushed() || s.events[x].position != s.popped
    requires s'.popped == s.popped || (s'.popped == s.popped + 1 && s'.handler.Idle?)
    requires (s.handler.Acted? ==> s.handler.e != x) && (s'.handler.Acted? ==> s'.handler.e != x)
    ensures PlaceRight(s', x)
  {
    OtherWaits(s, s', x);
    CompleteStays(s, s', s.events[x].waits);
  }

  lemma UpdatedRight(s: State, result: int)
    requires Inv(s) && result <= 0 && (s.handler.Peeked? || s.handler.Starting? || s.handler.Acted?)
    ensures EventRight(HandlerApply(s, result), s.handler.e)
  {
    hide CallbacksExact, Fire;
    var e, s' := s.handler.e, HandlerApply(s, result);
    HeadFacts(s);
    HandlerGrown(s, result);
    CompleteStays(s, s', s.events[e].waits);
    PushedWaits(s, s', e);
    if !(s.handler.Peeked? && s.events[e].event.status == CL_SUBMITTED) {
      CallbacksAdvance(s.events[e].event, s'.events[e].event.status, s.events[e].accepted);
    }
  }

  lemma PushedWaits(s: State, s': State, x: nat)
    requires Grown(s, s') && x < |s.events| && WaitsEarlier(s, x) && s.events[x].Pushed()
    requires s'.events[x].waits == s.events[x].waits
    ensures WaitsEarlier(s', x)
  {
  }

  lemma AbortedRight(s: State, result: int)
    requires Inv(s) && result <= 0 && s.handler.Aborting?
    ensures EventRight(HandlerApply(s, result), s.handler.e)
  {
    hide CallbacksExact, Fire;
    var e, s' := s.handler.e, HandlerApply(s, result);
    HeadFacts(s);
    HandlerGrown(s, result);
    CompleteStays(s, s', s.events[e].waits);
    PushedWaits(s, s', e);
    CallbacksAdvance(s.events[e].event, s'.events[e].event.status, s.events[e].accepted);
  }

  lemma ReleasedRight(s: State, result: int)
    requires Inv(s) && HeadAlive(s) && result <= 0 && (s.handler.Releasing? || s.handler.Running?)
    ensures EventRight(HandlerApply(s, result), s.handler.e)
  {
    var e, s' := s.handler.e, HandlerApply(s, result);
    HeadFacts(s);
    HandlerGrown(s, result);
    CompleteStays(s, s', s.events[e].waits);
    PushedWaits(s, s', e);
    CallbacksSame(s.events[e].event, s'.events[e].event, s.events[e].user, s.events[e].accepted);
  }

  lemma CheckedRight(s: State, result: int)
    requires Inv(s) && result <= 0 && s.handler.Checking?
    ensures EventRight(HandlerApply(s, result), s.handler.e)
  {
    var e, i, s' := s.handler.e, s.handler.i, HandlerApply(s, result);
    HeadFacts(s);
    HandlerGrown(s, result);
    var waits := s.events[e].waits;
    assert s'.events == s.events && s.events[e].event.waitList == waits;
    PushedWaits(s, s', e);
    if i == |waits| {
      assert waits[..i] == waits;
    } else {
      assert waits[i] in waits && waits[..i + 1] == waits[..i] + [waits[i]];
    }
  }

  lemma ClearedRight(s: State, result: int)
    requires Inv(s) && result <= 0 && s.handler.Clearing?
    ensures EventRight(HandlerApply(s, result), s.handler.e)
  {
    hide CallbacksExact;
    var e, s' := s.handler.e, HandlerApply(s, result);
    HeadFacts(s);
    HandlerGrown(s, result);
    CompleteStays(s, s', s.events[e].waits);
    PushedWaits(s, s', e);
    ClearedFields(s, result);
    CallbacksSame(s.events[e].event, s'.events[e].event, s.events[e].user, s.events[e].accepted);
  }

  lemma ClearedFields(s: State, result: int)
    requires s.handler.Clearing? && s.handler.e < |s.events|
    ensures var e, s' := s.handler.e, HandlerApply(s, result);
      && |s'.events| == |s.events|
      && var t, t' := s.events[e], s'.events[e];
         && t' == t.(event := t.event.(references := t'.event.references, waitList := t'.event.waitList))
         && t'.event.waitList == (if t.event.waitList == [] then [] else t.event.waitList[1..])
         && s'.popped == (if t.event.waitList == [] then s.popped + 1 else s.popped)
         && (t.event.waitList != [] ==> s'.handler == s.handler)
  {
  }

  lemma PeekedRight(s: State, result: int, x: nat)
    requires Inv(s) && result <= 0 && s.handler.Idle? && x < |s.events|
    ensures EventRight(HandlerApply(s, result), x)
  {
    assert EventRight(s, x);
    assert HandlerApply(s, result).events == s.events;
    PushedWaitsSame(s, HandlerApply(s, result), x);
  }

  lemma PushedWaitsSame(s: State, s': State, x: nat)
    requires s'.events == s.events && x < |s.events| && WaitsEarlier(s, x)
    ensures WaitsEarlier(s', x)
    ensures AllComplete(s, s.events[x].waits) ==> AllComplete(s', s.events[x].waits)
    ensures SomeFailed(s, s.events[x].waits) ==> SomeFailed(s', s.events[x].waits)
  {
    if SomeFailed(s, s.events[x].waits) {
      var w :| w in s.events[x].waits && s.StatusOf(w) < 0;
      assert s'.StatusOf(w) < 0;
    }
  }

  lemma HandlerRight(s: State, result: int, x: nat)
    requires Inv(s) && HeadAlive(s) && result <= 0 && x < |s.events|
    ensures x < |HandlerApply(s, result).events| && EventRight(HandlerApply(s, result), x)
  {
    var s' := HandlerApply(s, result);
    HandlerFields(s, result);
    if s.handler.Idle? {
      PeekedRight(s, result, x);
    } else if s.handler.e != x {
      HeadFacts(s);
      HandlerOthers(s, result, x);
      HandlerGrown(s, result);
      assert EventRight(s, x);
      AwayFromHead(s, s', x);
      CallbacksSame(s.events[x].event, s'.events[x].event, s.events[x].user, s.events[x].accepted);
    } else {
      match s.handler
      case Peeked(_) => UpdatedRight(s, result);
      case Starting(_) => UpdatedRight(s, result);
      case Acted(_, _) => UpdatedRight(s, result);
      case Checking(_, _) => CheckedRight(s, result);
      case Aborting(_) => AbortedRight(s, result);
      case Running(_) => ReleasedRight(s, result);
      case Releasing(_) => ReleasedRight(s, result);
      case Clearing(_) => ClearedRight(s, result);
    }
  }

  lemma HandlerOrder(s: State, result: int)
    requires Inv(s) && HeadAlive(s) && result <= 0
    ensures HandlerOnHead(HandlerApply(s, result)) && Ordered(HandlerApply(s, result))
  {
    var s' := HandlerApply(s, result);
    HandlerFields(s, result);
    HandlerGrown(s, result);
    if !s.handler.Idle? {
      HeadFacts(s);
    }
    forall x: nat | x < |s'.events| && s'.events[x].Pushed()
      ensures s'.events[x].position < |s'.pushed| && s'.pushed[s'.events[x].position] == x
    {
      if s.handler.Idle? || s.handler.e != x {
        HandlerOthers(s, result, x);
      }
    }
  }

  lemma HandlerKeepsInv(s: State, result: int)
    requires Inv(s) && HeadAlive(s) && result <= 0
    ensures Inv(HandlerApply(s, result))
  {
    HandlerOrder(s, result);
    HandlerFields(s, result);
    forall x: nat | x < |HandlerApply(s, result).events| ensures EventRight(HandlerApply(s, result), x) {
      HandlerRight(s, result, x);
    }
  }
}
