/**
 The list of mappings of a buffer (src/Buffer.cpp): mapping adds an entry, unmapping marks one entry and erases it when
 the queue handler gets to it.
 */
module Mappings {
  import opened Sequences
  import opened Wrappers

  /** An entry; its number stands for the list iterator that the queued actions keep. */
  datatype MappingInfo = MappingInfo(id: nat, hostPointer: nat, unmapScheduled: bool, skipPopulatingBuffer: bool,
                                     skipWritingBack: bool)

  // ---------- operations on the list ----------

  /** An entry that an unmap of this pointer can take. */
  predicate Free(m: MappingInfo, pointer: nat) {
    m.hostPointer == pointer && !m.unmapScheduled
  }

  function FirstFree(mappings: seq<MappingInfo>, pointer: nat): Option<nat> {
    if mappings == [] then None
    else if Free(mappings[0], pointer) then Some(0)
    else
      match FirstFree(mappings[1..], pointer)
      case Some(i) => Some(i + 1)
      case None => None
  }

  lemma {:induction false} FirstFreeExact(mappings: seq<MappingInfo>, pointer: nat)
    ensures match FirstFree(mappings, pointer)
            case None => forall m | m in mappings :: !Free(m, pointer)
            case Some(i) =>
              i < |mappings| && Free(mappings[i], pointer) && forall j | 0 <= j < i :: !Free(mappings[j], pointer)
  {
    if mappings != [] {
      FirstFreeExact(mappings[1..], pointer);
      forall m | m in mappings ensures m == mappings[0] || m in mappings[1..] {
      }
    }
  }

  function Scheduled(mappings: seq<MappingInfo>, i: nat): seq<MappingInfo>
    requires i < |mappings|
  {
    mappings[i := mappings[i].(unmapScheduled := true)]
  }

  function Erased(mappings: seq<MappingInfo>, id: nat): seq<MappingInfo> {
    if mappings == [] then []
    else if mappings[0].id == id then mappings[1..]
    else [mappings[0]] + Erased(mappings[1..], id)
  }

  class MappingList {
    var mappings: seq<MappingInfo>
    var count: nat

    constructor ()
      ensures mappings == [] && count == 0
    {
      mappings, count := [], 0;
    }

    /** The part of enqueueMap that is done under the lock. */
    method Add(hostPointer: nat, invalidate: bool, readOnly: bool) returns (id: nat)
      modifies this
      ensures id == old(count) && count == old(count) + 1
      ensures mappings == old(mappings) + [MappingInfo(id, hostPointer, false, invalidate, readOnly)]
    {
      id := count;
      mappings := mappings + [MappingInfo(id, hostPointer, false, invalidate, readOnly)];
      count := count + 1;
    }

    /** The part of enqueueUnmap that is done under the lock. */
    method Schedule(pointer: nat) returns (r: Result<nat>)
      modifies `mappings
      ensures pointer == 0 || FirstFree(old(mappings), pointer).None? ==>
                r == Failure(CL_INVALID_VALUE) && mappings == old(mappings)
      ensures pointer != 0 && FirstFree(old(mappings), pointer).Some? ==>
                var i := FirstFree(old(mappings), pointer).value;
                i < |old(mappings)| && r == Success(old(mappings)[i].id) && mappings == Scheduled(old(mappings), i)
      ensures r.Success? <==> pointer != 0 && exists m :: m in old(mappings) && m.hostPointer == pointer
                                                          && !m.unmapScheduled
      ensures r.Failure? ==> r.error == CL_INVALID_VALUE && mappings == old(mappings)
      ensures r.Success? ==>
                exists i :: 0 <= i < |old(mappings)| && r.value == old(mappings)[i].id
                  && old(mappings)[i].hostPointer == pointer && !old(mappings)[i].unmapScheduled
                  && (forall j | 0 <= j < i ::
                        old(mappings)[j].hostPointer != pointer || old(mappings)[j].unmapScheduled)
                  && mappings == old(mappings)[i := old(mappings)[i].(unmapScheduled := true)]
    {
      FirstFreeExact(mappings, pointer);
      if pointer == 0 {
        return Failure(CL_INVALID_VALUE);
      }
      for i := 0 to |mappings|
        invariant mappings == old(mappings)
        invariant forall j | 0 <= j < i :: !Free(mappings[j], pointer)
      {
        if mappings[i].hostPointer == pointer && !mappings[i].unmapScheduled {
          assert mappings[i] in mappings && Free(mappings[i], pointer);
          mappings := mappings[i := mappings[i].(unmapScheduled := true)];
          return Success(mappings[i].id);
        }
      }
      return Failure(CL_INVALID_VALUE);
    }

    /** What the unmap action does to the list: the entry it names, and no other, is unlinked. */
    method Erase(id: nat)
      requires DistinctIds(mappings, count) && exists m :: m in mappings && m.id == id
      modifies `mappings
      ensures |mappings| == |old(mappings)| - 1 && DistinctIds(mappings, count)
      ensures forall m :: m in mappings <==> m in old(mappings) && m.id != id
      ensures forall pointer :: FreeCount(mappings, pointer) + Freed(old(mappings), id, pointer)
                                == FreeCount(old(mappings), pointer)
      ensures mappings == Erased(old(mappings), id)
    {
      var i := 0;
      while mappings[i].id != id
        invariant i < |mappings| && mappings == old(mappings)
        invariant forall j | 0 <= j < i :: mappings[j].id != id
        decreases |mappings| - i
      {
        assert exists m :: m in mappings && m.id == id;
        i := i + 1;
      }
      ErasedAt(mappings, count, i);
      RemovedDistinct(mappings, count, i);
      RemovedMembers(mappings, count, i);
      RemovedFree(mappings, count, i);
      mappings := mappings[..i] + mappings[i + 1..];
    }
  }

  /** Whether the entry with this number could still be unmapped through this pointer. */
  function Freed(mappings: seq<MappingInfo>, id: nat, pointer: nat): nat {
    if exists m :: m in mappings && m.id == id && Free(m, pointer) then 1 else 0
  }

  // ---------- the life of mappings ----------

  /**
   The list with its history: the pointers of all entries ever added and of all entries ever marked, the entries named
   by unmap actions and by map actions still to run, and the entries unmap actions have erased.
   */
  datatype Ledger = Ledger(mappings: seq<MappingInfo>, count: nat, added: seq<nat>, marked: seq<nat>,
                           queued: seq<nat>, maps: seq<nat>, erased: seq<nat>)

  /**
   Map adds an entry, whether or not its event can be enqueued; Unmap marks an entry. Each leaves an action behind if
   its event can be enqueued, which other threads can get in front of. An action runs, or is dropped when the event's
   wait list has failed.
   */
  datatype Step =
    | Map(pointer: nat, invalidate: bool, readOnly: bool, enqueued: bool)
    | Unmap(pointer: nat, enqueued: bool)
    | EndMap(i: nat)
    | RunUnmap(k: nat)
    | DropUnmap(k: nat)

  const EMPTY := Ledger([], 0, [], [], [], [], [])

  predicate Enabled(s: Ledger, step: Step) {
    && ((step.RunUnmap? || step.DropUnmap?) ==> step.k < |s.queued|)
    && (step.EndMap? ==> step.i < |s.maps|)
  }

  function Apply(s: Ledger, step: Step): Ledger
    requires Enabled(s, step)
  {
    match step
    case Map(pointer, invalidate, readOnly, enqueued) =>
      s.(mappings := s.mappings + [MappingInfo(s.count, pointer, false, invalidate, readOnly)], count := s.count + 1,
         added := s.added + [pointer], maps := if enqueued then s.maps + [s.count] else s.maps)
    case Unmap(pointer, enqueued) =>
      if pointer == 0 then s
      else
        (match FirstFree(s.mappings, pointer)
         case None => s
         case Some(i) =>
           if i >= |s.mappings| then s
           else
             s.(mappings := Scheduled(s.mappings, i), marked := s.marked + [pointer],
                queued := if enqueued then s.queued + [s.mappings[i].id] else s.queued))
    case EndMap(i) => s.(maps := Without(s.maps, i))
    case RunUnmap(k) =>
      s.(mappings := Erased(s.mappings, s.queued[k]), queued := Without(s.queued, k),
         erased := s.erased + [s.queued[k]])
    case DropUnmap(k) => s.(queued := Without(s.queued, k))
  }

  /** The steps do to the list what the methods of MappingList do. */
  lemma StepsOnList(s: Ledger, step: Step)
    requires Enabled(s, step)
    ensures step.Map? ==>
      Apply(s, step).mappings
      == s.mappings + [MappingInfo(s.count, step.pointer, false, step.invalidate, step.readOnly)]
    ensures step.Unmap? && step.pointer != 0 && FirstFree(s.mappings, step.pointer).Some? ==>
      var i := FirstFree(s.mappings, step.pointer).value;
      i < |s.mappings| && Apply(s, step).mappings == s.mappings[i := s.mappings[i].(unmapScheduled := true)]
    ensures step.Unmap? && (step.pointer == 0 || FirstFree(s.mappings, step.pointer).None?) ==> Apply(s, step) == s
    ensures step.DropUnmap? || step.EndMap? ==> Apply(s, step).mappings == s.mappings
  {
    if step.Unmap? {
      FirstFreeExact(s.mappings, step.pointer);
    }
  }

  /** Entries with this number that are marked. */
  predicate Marked(mappings: seq<MappingInfo>, id: nat) {
    exists m :: m in mappings && m.id == id && m.unmapScheduled
  }

  /** There is an entry with this number; a map action needs the one it was made for. */
  predicate Listed(mappings: seq<MappingInfo>, id: nat) {
    exists m :: m in mappings && m.id == id
  }

  predicate DistinctIds(mappings: seq<MappingInfo>, count: nat) {
    && (forall i | 0 <= i < |mappings| :: mappings[i].id < count)
    && (forall i, j | 0 <= i < j < |mappings| :: mappings[i].id != mappings[j].id)
  }

  function FreeCount(mappings: seq<MappingInfo>, pointer: nat): nat {
    if mappings == [] then 0 else (if Free(mappings[0], pointer) then 1 else 0) + FreeCount(mappings[1..], pointer)
  }

  predicate Balanced(s: Ledger, pointer: nat) {
    FreeCount(s.mappings, pointer) + multiset(s.marked)[pointer] == multiset(s.added)[pointer]
  }

  /**
   No two entries share a number; live entries are the added ones without the erased ones; queued unmaps name different
   entries, all in the list and marked; map actions name entries that have been added.
   */
  predicate Inv(s: Ledger) {
    && DistinctIds(s.mappings, s.count)
    && |s.mappings| + |s.erased| == |s.added| == s.count
    && (forall id: nat | id < s.count :: Listed(s.mappings, id) <==> id !in s.erased)
    && (forall id | id in s.erased :: id < s.count)
    && (forall id | id in s.maps :: id < s.count)
    && (forall k: nat | k < |s.queued| :: Marked(s.mappings, s.queued[k]))
    && (forall k: nat, l: nat | k < l < |s.queued| :: s.queued[k] != s.queued[l])
  }

  // ---------- counting ----------

  lemma {:induction false} FreeCountSnoc(mappings: seq<MappingInfo>, m: MappingInfo, pointer: nat)
    ensures FreeCount(mappings + [m], pointer) == FreeCount(mappings, pointer) + if Free(m, pointer) then 1 else 0
  {
    if mappings == [] {
      assert [m][1..] == [];
    } else {
      assert (mappings + [m])[1..] == mappings[1..] + [m];
      FreeCountSnoc(mappings[1..], m, pointer);
    }
  }

  lemma {:induction false} FreeCountScheduled(mappings: seq<MappingInfo>, i: nat, pointer: nat)
    requires i < |mappings| && !mappings[i].unmapScheduled
    ensures FreeCount(Scheduled(mappings, i), pointer) + (if mappings[i].hostPointer == pointer then 1 else 0)
            == FreeCount(mappings, pointer)
  {
    if i == 0 {
      assert Scheduled(mappings, 0)[1..] == mappings[1..];
    } else {
      assert Scheduled(mappings, i)[1..] == Scheduled(mappings[1..], i - 1);
      FreeCountScheduled(mappings[1..], i - 1, pointer);
    }
  }

  lemma {:induction false} ErasedAt(mappings: seq<MappingInfo>, count: nat, i: nat)
    requires DistinctIds(mappings, count) && i < |mappings|
    ensures Erased(mappings, mappings[i].id) == mappings[..i] + mappings[i + 1..]
  {
    if i > 0 {
      ErasedAt(mappings[1..], count, i - 1);
    }
  }

  /** The entry with a number. */
  lemma MarkedAt(mappings: seq<MappingInfo>, count: nat, id: nat) returns (i: nat)
    requires DistinctIds(mappings, count) && Marked(mappings, id)
    ensures i < |mappings| && mappings[i].id == id && mappings[i].unmapScheduled
    ensures forall m | m in mappings :: m.id == id ==> m == mappings[i]
  {
    var m :| m in mappings && m.id == id && m.unmapScheduled;
    i :| 0 <= i < |mappings| && mappings[i] == m;
  }

  lemma RemovedDistinct(mappings: seq<MappingInfo>, count: nat, i: nat)
    requires DistinctIds(mappings, count) && i < |mappings|
    ensures DistinctIds(mappings[..i] + mappings[i + 1..], count)
  {
  }

  lemma RemovedMembers(mappings: seq<MappingInfo>, count: nat, i: nat)
    requires DistinctIds(mappings, count) && i < |mappings|
    ensures forall m :: m in mappings[..i] + mappings[i + 1..] <==> m in mappings && m.id != mappings[i].id
  {
    var rest := mappings[..i] + mappings[i + 1..];
    forall m | m in mappings && m.id != mappings[i].id ensures m in rest {
      var j :| 0 <= j < |mappings| && mappings[j] == m;
      assert rest[if j < i then j else j - 1] == m;
    }
  }

  lemma {:induction false} FreeCountRemoved(mappings: seq<MappingInfo>, i: nat, pointer: nat)
    requires i < |mappings|
    ensures FreeCount(mappings[..i] + mappings[i + 1..], pointer) + (if Free(mappings[i], pointer) then 1 else 0)
            == FreeCount(mappings, pointer)
  {
    var rest := mappings[..i] + mappings[i + 1..];
    if i == 0 {
      assert rest == mappings[1..];
    } else {
      FreeCountRemoved(mappings[1..], i - 1, pointer);
      assert rest[1..] == mappings[1..][..i - 1] + mappings[1..][i..];
    }
  }

  lemma RemovedFree(mappings: seq<MappingInfo>, count: nat, i: nat)
    requires DistinctIds(mappings, count) && i < |mappings|
    ensures forall pointer :: FreeCount(mappings[..i] + mappings[i + 1..], pointer)
                              + Freed(mappings, mappings[i].id, pointer) == FreeCount(mappings, pointer)
  {
    forall pointer
      ensures FreeCount(mappings[..i] + mappings[i + 1..], pointer) + Freed(mappings, mappings[i].id, pointer)
              == FreeCount(mappings, pointer)
    {
      FreeCountRemoved(mappings, i, pointer);
      assert mappings[i] in mappings;
      if exists m :: m in mappings && m.id == mappings[i].id && Free(m, pointer) {
        var m :| m in mappings && m.id == mappings[i].id && Free(m, pointer);
        assert m == mappings[i];
      }
    }
  }

  /** Erasing a marked entry removes it and leaves all others. */
  lemma ErasedExact(mappings: seq<MappingInfo>, count: nat, id: nat)
    requires DistinctIds(mappings, count) && Marked(mappings, id)
    ensures |Erased(mappings, id)| == |mappings| - 1 && DistinctIds(Erased(mappings, id), count)
    ensures forall m :: m in Erased(mappings, id) <==> m in mappings && m.id != id
    ensures forall pointer :: FreeCount(Erased(mappings, id), pointer) == FreeCount(mappings, pointer)
  {
    var i := MarkedAt(mappings, count, id);
    ErasedAt(mappings, count, i);
    RemovedDistinct(mappings, count, i);
    RemovedMembers(mappings, count, i);
    RemovedFree(mappings, count, i);
  }

  // ---------- every interleaving ----------

  lemma MapKeepsInv(s: Ledger, step: Step)
    requires Inv(s) && step.Map?
    ensures Inv(Apply(s, step))
    ensures forall p :: Balanced(s, p) ==> Balanced(Apply(s, step), p)
  {
    var s' := Apply(s, step);
    var m := MappingInfo(s.count, step.pointer, false, step.invalidate, step.readOnly);
    forall k: nat | k < |s.queued| ensures Marked(s'.mappings, s.queued[k]) {
      assert Marked(s.mappings, s.queued[k]);
      var x :| x in s.mappings && x.id == s.queued[k] && x.unmapScheduled;
      assert x in s'.mappings;
    }
    forall id: nat | id < s'.count ensures Listed(s'.mappings, id) <==> id !in s'.erased {
      assert s'.mappings[|s.mappings|] == m && m in s'.mappings;
      if id < s.count && Listed(s.mappings, id) {
        var x :| x in s.mappings && x.id == id;
        assert x in s'.mappings;
      }
    }
    forall p ensures Balanced(s, p) ==> Balanced(s', p) {
      FreeCountSnoc(s.mappings, m, p);
    }
  }

  lemma ScheduledListed(mappings: seq<MappingInfo>, i: nat, id: nat)
    requires i < |mappings|
    ensures Listed(Scheduled(mappings, i), id) <==> Listed(mappings, id)
  {
    var marked := Scheduled(mappings, i);
    if Listed(mappings, id) {
      var j :| 0 <= j < |mappings| && mappings[j].id == id;
      assert marked[j] in marked && marked[j].id == id;
    }
    if Listed(marked, id) {
      var j :| 0 <= j < |marked| && marked[j].id == id;
      assert mappings[j] in mappings && mappings[j].id == id;
    }
  }

  lemma ScheduledMarked(mappings: seq<MappingInfo>, i: nat, id: nat)
    requires i < |mappings| && Marked(mappings, id)
    ensures Marked(Scheduled(mappings, i), id)
  {
    var m :| m in mappings && m.id == id && m.unmapScheduled;
    var j :| 0 <= j < |mappings| && mappings[j] == m;
    assert Scheduled(mappings, i)[j] in Scheduled(mappings, i);
  }

  lemma UnmapKeepsInv(s: Ledger, step: Step)
    requires Inv(s) && step.Unmap?
    ensures Inv(Apply(s, step))
    ensures forall p :: Balanced(s, p) ==> Balanced(Apply(s, step), p)
  {
    var s' := Apply(s, step);
    FirstFreeExact(s.mappings, step.pointer);
    if s' != s {
      var i := FirstFree(s.mappings, step.pointer).value;
      forall k: nat | k < |s'.queued| ensures Marked(s'.mappings, s'.queued[k]) {
        if k < |s.queued| {
          ScheduledMarked(s.mappings, i, s.queued[k]);
        } else {
          assert Scheduled(s.mappings, i)[i] in Scheduled(s.mappings, i);
        }
      }
      forall k: nat | k < |s.queued| ensures s.queued[k] != s.mappings[i].id {
        var j := MarkedAt(s.mappings, s.count, s.queued[k]);
      }
      forall id: nat | id < s.count ensures Listed(s'.mappings, id) <==> id !in s'.erased {
        ScheduledListed(s.mappings, i, id);
      }
      forall p ensures Balanced(s, p) ==> Balanced(s', p) {
        FreeCountScheduled(s.mappings, i, p);
      }
    }
  }

  lemma ErasedListed(s: Ledger, k: nat)
    requires Inv(s) && k < |s.queued|
    ensures forall id: nat | id < s.count ::
      Listed(Erased(s.mappings, s.queued[k]), id) <==> id !in s.erased + [s.queued[k]]
    ensures s.queued[k] < s.count
  {
    ErasedExact(s.mappings, s.count, s.queued[k]);
    hide Erased;
    assert Marked(s.mappings, s.queued[k]);
    forall id: nat | id < s.count
      ensures Listed(Erased(s.mappings, s.queued[k]), id) <==> id !in s.erased + [s.queued[k]]
    {
      assert Listed(Erased(s.mappings, s.queued[k]), id) <==> Listed(s.mappings, id) && id != s.queued[k];
    }
  }

  lemma RunKeepsInv(s: Ledger, k: nat)
    requires Inv(s) && k < |s.queued|
    ensures Inv(Apply(s, RunUnmap(k)))
    ensures forall p :: Balanced(s, p) ==> Balanced(Apply(s, RunUnmap(k)), p)
  {
    var s' := Apply(s, RunUnmap(k));
    ErasedExact(s.mappings, s.count, s.queued[k]);
    ErasedListed(s, k);
    hide Erased, FreeCount, Listed;
    forall l: nat | l < |s'.queued| ensures Marked(s'.mappings, s'.queued[l]) {
      var l' := if l < k then l else l + 1;
      assert s'.queued[l] == s.queued[l'] && s.queued[l'] != s.queued[k];
      var m :| m in s.mappings && m.id == s.queued[l'] && m.unmapScheduled;
      assert m in s'.mappings;
    }
  }

  predicate IsRun(s: Ledger, steps: seq<Step>)
    decreases |steps|
  {
    steps == [] || (Enabled(s, steps[0]) && IsRun(Apply(s, steps[0]), steps[1..]))
  }

  function After(s: Ledger, steps: seq<Step>): Ledger
    requires IsRun(s, steps)
    decreases |steps|
  {
    if steps == [] then s else After(Apply(s, steps[0]), steps[1..])
  }

  lemma StepKeepsInv(s: Ledger, step: Step)
    requires Inv(s) && Enabled(s, step)
    ensures Inv(Apply(s, step))
    ensures forall p :: Balanced(s, p) ==> Balanced(Apply(s, step), p)
  {
    match step
    case Map(_, _, _, _) => MapKeepsInv(s, step);
    case Unmap(_, _) => UnmapKeepsInv(s, step);
    case EndMap(i) => assert forall id | id in Without(s.maps, i) :: id in s.maps;
    case RunUnmap(k) => RunKeepsInv(s, k);
    case DropUnmap(k) =>
  }

  lemma {:induction false} RunKeepsBalance(s: Ledger, steps: seq<Step>)
    requires Inv(s) && IsRun(s, steps)
    ensures Inv(After(s, steps))
    ensures forall p :: Balanced(s, p) ==> Balanced(After(s, steps), p)
    decreases |steps|
  {
    if steps != [] {
      StepKeepsInv(s, steps[0]);
      RunKeepsBalance(Apply(s, steps[0]), steps[1..]);
    }
  }

  /**
   In every interleaving: the live entries are the added ones without the erased ones, a queued unmap erases exactly one
   entry, which no other queued unmap names, and of each pointer as many entries can still be unmapped as were added
   and not marked.
   */
  lemma MappingsReachable(steps: seq<Step>, pointer: nat)
    requires IsRun(EMPTY, steps)
    ensures var s := After(EMPTY, steps);
      && Inv(s) && Balanced(s, pointer)
      && forall k: nat | k < |s.queued| ::
           |Erased(s.mappings, s.queued[k])| == |s.mappings| - 1 && s.queued[k] !in Without(s.queued, k)
  {
    RunKeepsBalance(EMPTY, steps);
    assert Balanced(EMPTY, pointer);
    var s := After(EMPTY, steps);
    forall k: nat | k < |s.queued|
      ensures |Erased(s.mappings, s.queued[k])| == |s.mappings| - 1 && s.queued[k] !in Without(s.queued, k)
    {
      ErasedExact(s.mappings, s.count, s.queued[k]);
    }
  }

  /** In every interleaving a map action still finds its entry exactly if no unmap action has erased it. */
  lemma MapFindsEntry(steps: seq<Step>, i: nat)
    requires IsRun(EMPTY, steps) && i < |After(EMPTY, steps).maps|
    ensures var s := After(EMPTY, steps); Listed(s.mappings, s.maps[i]) <==> s.maps[i] !in s.erased
  {
    RunKeepsBalance(EMPTY, steps);
    var s := After(EMPTY, steps);
    assert s.maps[i] in s.maps;
  }

  /**
   Two threads map the same memory, and the second one unmaps it before the first one has enqueued its map action: the
   unmap takes the first entry, and the map action comes too late.
   */
  lemma MapTooLate(pointer: nat)
    requires pointer != 0
    ensures var steps := [Map(pointer, false, false, true), Map(pointer, false, false, true), EndMap(1),
                          Unmap(pointer, true), RunUnmap(0)];
      && IsRun(EMPTY, steps)
      && var s := After(EMPTY, steps); s.maps == [0] && s.erased == [0] && !Listed(s.mappings, 0)
  {
    var m0, m1 := MappingInfo(0, pointer, false, false, false), MappingInfo(1, pointer, false, false, false);
    var a := Ledger([m0], 1, [pointer], [], [], [0], []);
    var b := Ledger([m0, m1], 2, [pointer, pointer], [], [], [0, 1], []);
    var c := b.(maps := [0]);
    var d := c.(mappings := [m0.(unmapScheduled := true), m1], marked := [pointer], queued := [0]);
    var e := d.(mappings := [m1], queued := [], erased := [0]);
    FirstUnmapped(c, m0, m1, pointer);
    LastErased(d, m0.(unmapScheduled := true), m1);
    hide FirstFree, Erased, Scheduled, IsRun, After;
    RunNone(e);
    RunFrom(d, e, RunUnmap(0), []);
    RunFrom(c, d, Unmap(pointer, true), [RunUnmap(0)]);
    RunFrom(b, c, EndMap(1), [Unmap(pointer, true), RunUnmap(0)]);
    RunFrom(a, b, Map(pointer, false, false, true), [EndMap(1), Unmap(pointer, true), RunUnmap(0)]);
    RunFrom(EMPTY, a, Map(pointer, false, false, true),
            [Map(pointer, false, false, true), EndMap(1), Unmap(pointer, true), RunUnmap(0)]);
  }

  lemma FirstUnmapped(s: Ledger, m0: MappingInfo, m1: MappingInfo, pointer: nat)
    requires s.mappings == [m0, m1] && Free(m0, pointer) && pointer != 0
    ensures Apply(s, Unmap(pointer, true))
            == s.(mappings := [m0.(unmapScheduled := true), m1], marked := s.marked + [pointer],
                  queued := s.queued + [m0.id])
  {
  }

  lemma LastErased(s: Ledger, m0: MappingInfo, m1: MappingInfo)
    requires s.mappings == [m0, m1] && s.queued == [m0.id]
    ensures Apply(s, RunUnmap(0)) == s.(mappings := [m1], queued := [], erased := s.erased + [m0.id])
  {
  }

  lemma RunNone(s: Ledger)
    ensures IsRun(s, []) && After(s, []) == s
  {
  }

  lemma RunFrom(s: Ledger, s': Ledger, step: Step, rest: seq<Step>)
    requires Enabled(s, step) && Apply(s, step) == s' && IsRun(s', rest)
    ensures IsRun(s, [step] + rest) && After(s, [step] + rest) == After(s', rest)
  {
    assert ([step] + rest)[1..] == rest;
  }

  /** An unmap is accepted exactly while the pointer has been mapped more often than unmapped. */
  lemma UnmapAccepted(steps: seq<Step>, pointer: nat, enqueued: bool)
    requires IsRun(EMPTY, steps) && pointer != 0
    ensures var s := After(EMPTY, steps);
      Apply(s, Unmap(pointer, enqueued)).marked == s.marked + [pointer]
      <==> multiset(s.marked)[pointer] < multiset(s.added)[pointer]
  {
    var s := After(EMPTY, steps);
    MappingsReachable(steps, pointer);
    FirstFreeExact(s.mappings, pointer);
    FreeCountPositive(s.mappings, pointer);
    assert s.marked != s.marked + [pointer];
  }

  lemma {:induction false} FreeCountPositive(mappings: seq<MappingInfo>, pointer: nat)
    ensures FreeCount(mappings, pointer) > 0 <==> exists m :: m in mappings && Free(m, pointer)
  {
    if mappings != [] {
      FreeCountPositive(mappings[1..], pointer);
      assert forall m | m in mappings :: m == mappings[0] || m in mappings[1..];
    }
  }
}
