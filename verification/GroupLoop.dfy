/**
 The launch loop of executeKernel (src/executor.cpp): work-group after work-group is launched from alternating UNIFORM
 blocks, the next block being rewritten while the current one is executed.
 */
module GroupLoop {
  import opened Arithmetic
  import opened Boxes
  import opened KernelLaunch
  import opened LaunchBuffers
  import opened Uniforms
  import opened WorkItems
  import WorkSizes
  import opened Wrappers

  // ---------- what a run of the loop shows ----------

  /** The UNIFORM block the QPUs are executing after these steps. */
  function Running(trace: seq<Step>): Option<nat> {
    if trace == [] then None
    else
      var n := |trace| - 1;
      match trace[n]
      case Launch(block, _) => Some(block)
      case Wait(_) => None
      case Write(_, _) => Running(trace[..n])
  }

  /** While block b is executed, only the other UNIFORM block may be written. */
  predicate InOtherBlock(s: Setup, b: nat, from: nat, to: nat) {
    b < 2 && s.UniformStart(1 - b) <= from && to <= s.UniformStart(2 - b)
  }

  /** One execution at a time, and nothing it reads is written before it has been waited for. */
  predicate Safe(s: Setup, trace: seq<Step>) {
    trace == [] ||
    var n := |trace| - 1;
    && Safe(s, trace[..n])
    && match trace[n]
       case Launch(_, _) => Running(trace[..n]).None?
       case Wait(_) => Running(trace[..n]).Some?
       case Write(from, to) => Running(trace[..n]).None? || InOtherBlock(s, Running(trace[..n]).value, from, to)
  }

  function Launches(trace: seq<Step>): seq<Step> {
    if trace == [] then []
    else
      var n := |trace| - 1;
      Launches(trace[..n]) + if trace[n].Launch? then [trace[n]] else []
  }

  /** What a launch from block b needs to execute a work-group. */
  predicate Ready(s: Setup, mem: seq<nat>, b: nat, group: Point)
    requires s.Valid()
  {
    Prepared(s, mem) && Shows(s, mem, s.UniformStart(b), group)
  }

  /** Launch number k executes work-group number k, from alternating blocks. */
  predicate GroupsInOrder(s: Setup, launches: seq<Step>)
    requires s.Valid()
  {
    forall k: nat | k < |launches| ::
      && launches[k].Launch? && launches[k].block == k % 2
      && Ready(s, launches[k].memory, k % 2, NthGroup(s.nd.Groups(), k))
  }

  lemma {:induction false} WritesAreSafe(s: Setup, trace: seq<Step>, writes: seq<Step>, b: nat)
    requires b < 2 && Safe(s, trace) && Running(trace) == Some(b)
    requires WritesWithin(writes, s.UniformStart(1 - b), s.UniformStart(2 - b))
    ensures Safe(s, trace + writes) && Running(trace + writes) == Some(b)
    ensures Launches(trace + writes) == Launches(trace)
  {
    if writes == [] {
      assert trace + writes == trace;
    } else {
      var n := |writes| - 1;
      WritesAreSafe(s, trace, writes[..n], b);
      assert (trace + writes)[..|trace| + n] == trace + writes[..n];
    }
  }

  lemma StepFacts(s: Setup, trace: seq<Step>, step: Step)
    ensures (trace + [step])[..|trace|] == trace && (trace + [step])[|trace|] == step
  {
  }

  lemma WaitStep(s: Setup, trace: seq<Step>, ok: bool)
    requires Safe(s, trace) && Running(trace).Some?
    ensures Safe(s, trace + [Wait(ok)]) && Running(trace + [Wait(ok)]).None?
    ensures Launches(trace + [Wait(ok)]) == Launches(trace)
  {
    StepFacts(s, trace, Wait(ok));
  }

  lemma LaunchStep(s: Setup, trace: seq<Step>, b: nat, mem: seq<nat>)
    requires Safe(s, trace) && Running(trace).None?
    ensures Safe(s, trace + [Launch(b, mem)]) && Running(trace + [Launch(b, mem)]) == Some(b)
    ensures Launches(trace + [Launch(b, mem)]) == Launches(trace) + [Launch(b, mem)]
  {
    StepFacts(s, trace, Launch(b, mem));
  }

  // ---------- the loop ----------

  /** The optimization that lets one launch execute all work-groups. */
  predicate LoopsGroups(flags: Flags) {
    flags[MAX_GROUP_ID_X] || flags[MAX_GROUP_ID_X + 1] || flags[MAX_GROUP_ID_X + 2]
  }

  /** The loop comes to an end. */
  predicate Stops(s: Setup)
    requires s.nd.Valid()
  {
    LoopsGroups(s.flags) || Ends(s.nd.Groups())
  }

  /** Another launch follows launch number k, unless that fails. */
  predicate GoesOn(s: Setup, k: nat)
    requires s.Valid()
  {
    !LoopsGroups(s.flags) && NthGroup(s.nd.Groups(), k + 1).z < s.nd.Groups().z
  }

  /** The launches a run needs, if the loop comes to an end. */
  function Total(s: Setup): nat
    requires s.Valid()
  {
    if LoopsGroups(s.flags) then 1 else CountedPoints(s.nd.Groups())
  }

  lemma TotalPositive(s: Setup)
    requires s.Valid() && Stops(s)
    ensures Total(s) > 0
  {
    if !LoopsGroups(s.flags) {
      CountedPointsPositive(s.nd.Groups());
    }
  }

  lemma GoesOnExact(s: Setup, k: nat)
    requires s.Valid() && Stops(s) && k < Total(s)
    ensures GoesOn(s, k) <==> k + 1 < Total(s)
  {
    if !LoopsGroups(s.flags) {
      MoreExact(s.nd.Groups(), k);
    }
  }

  /** A run ends if the loop does, or with a wait that fails. */
  ghost predicate Terminates(s: Setup, succeeds: nat -> bool)
    requires s.Valid()
  {
    Stops(s) || exists n: nat :: !succeeds(n)
  }

  /** No run has more launches than this behind it when it goes on. */
  predicate Bounds(s: Setup, succeeds: nat -> bool, bound: nat)
    requires s.Valid()
  {
    if bound > 0 && Stops(s) then bound == Total(s) else !succeeds(bound)
  }

  lemma NotPastBound(s: Setup, succeeds: nat -> bool, bound: nat, k: nat, group: Point)
    requires s.Valid() && Bounds(s, succeeds, bound) && Progress(s, k + 1, k, true, group, succeeds) && succeeds(k)
    ensures k < bound
  {
    hide GoesOn;
    if bound > 0 && Stops(s) {
      GoesOnExact(s, bound - 1);
    }
  }

  lemma RunBound(s: Setup, succeeds: nat -> bool) returns (bound: nat)
    requires s.Valid() && Terminates(s, succeeds)
    ensures Bounds(s, succeeds, bound)
  {
    if Stops(s) {
      TotalPositive(s);
      bound := Total(s);
    } else {
      bound :| !succeeds(bound);
    }
  }

  predicate Alternate(busy: nat, free: nat) {
    (busy == 0 && free == 1) || (busy == 1 && free == 0)
  }

  /** State between two launches: the busy block is executed, both blocks hold the values of some work-group. */
  predicate Between(s: Setup, mem: seq<nat>, trace: seq<Step>, busy: nat, free: nat, current: Point, other: Point)
    requires s.Valid()
  {
    && Alternate(busy, free) && Safe(s, trace) && Running(trace) == Some(busy) && GroupsInOrder(s, Launches(trace))
    && Prepared(s, mem)
    && Shows(s, mem, s.UniformStart(busy), current) && Shows(s, mem, s.UniformStart(free), other)
  }

  lemma RewriteKeeps(s: Setup, before: seq<nat>, now: seq<nat>, busy: nat, free: nat, group: Point, current: Point)
    requires s.Valid() && Alternate(busy, free)
    requires Prepared(s, before) && Shows(s, before, s.UniformStart(busy), current)
    requires Written(before, now, s.UniformStart(free), s.Blocks(group, s.qpus))
    ensures Ready(s, now, free, group) && Shows(s, now, s.UniformStart(busy), current)
  {
    var words := s.Blocks(group, s.qpus);
    PartsInOrder(s);
    BlockSpan(s, group);
    BlockSpan(s, current);
    WrittenHolds(before, now, s.UniformStart(free), words);
    PreparedKept(s, before, now, s.UniformStart(free), words);
    WrittenKeeps(before, now, s.UniformStart(free), words, s.UniformStart(busy), s.Blocks(current, s.qpus));
  }

  /** The UNIFORMs of the next work-group are written to the free block, while the other one is executed. */
  method PrepareNext(mem: array<nat>, s: Setup, trace: seq<Step>, ghost busy: nat, ghost free: nat, starts: seq<nat>,
                     group: Point, ghost current: Point, ghost other: Point) returns (trace': seq<Step>)
    requires s.Valid() && Between(s, mem[..], trace, busy, free, current, other)
    requires Pointers(s, s.UniformStart(free), starts) && |starts| == s.qpus
    modifies mem
    ensures Safe(s, trace') && Running(trace') == Some(busy) && Launches(trace') == Launches(trace)
    ensures Ready(s, mem[..], free, group) && Shows(s, mem[..], s.UniformStart(busy), current)
  {
    hide Splice, Written, Prepared, Holds, Before;
    var writes := RewriteBlock(mem, s, s.UniformStart(free), starts, group, other);
    BlockSpan(s, group);
    WritesAreSafe(s, trace, writes, busy);
    RewriteKeeps(s, old(mem[..]), mem[..], busy, free, group, current);
    trace' := trace + writes;
  }

  /** Both blocks hold a work-group's values; the one to run next is launched. */
  lemma LaunchNext(s: Setup, mem: seq<nat>, trace: seq<Step>, busy: nat, free: nat, group: Point, other: Point)
    requires s.Valid() && Alternate(busy, free) && Safe(s, trace) && Running(trace).None?
    requires GroupsInOrder(s, Launches(trace))
    requires Ready(s, mem, busy, group) && Shows(s, mem, s.UniformStart(free), other)
    requires busy == |Launches(trace)| % 2
    requires group == NthGroup(s.nd.Groups(), |Launches(trace)|)
    ensures Between(s, mem, trace + [Launch(busy, mem)], busy, free, group, other)
    ensures |Launches(trace + [Launch(busy, mem)])| == |Launches(trace)| + 1
  {
    hide Holds, Prepared, NthGroup, Safe, Running, Launches;
    LaunchStep(s, trace, busy, mem);
  }

  /** One turn of the loop. */
  method Relaunch(mem: array<nat>, s: Setup, trace: seq<Step>, current: nat, ghost next: nat, starts: seq<nat>,
                  group: Point, ok: bool, ghost shown: Point, ghost other: Point) returns (trace': seq<Step>)
    requires s.Valid() && Between(s, mem[..], trace, next, current, shown, other)
    requires Pointers(s, s.UniformStart(current), starts) && |starts| == s.qpus && current == |Launches(trace)| % 2
    requires group == NthGroup(s.nd.Groups(), |Launches(trace)|)
    modifies mem
    ensures ok ==> Between(s, mem[..], trace', current, next, group, shown)
    ensures ok ==> |Launches(trace')| == |Launches(trace)| + 1
    ensures !ok ==> Safe(s, trace') && Launches(trace') == Launches(trace)
  {
    trace' := PrepareNext(mem, s, trace, next, current, starts, group, shown, other);
    WaitStep(s, trace', ok);
    trace' := trace' + [Wait(ok)];
    if ok {
      LaunchNext(s, mem[..], trace', current, next, group, shown);
      trace' := trace' + [Launch(current, mem[..])];
    }
  }

  method NextGroup(groups: array<nat>, limits: Point, ghost k: nat) returns (more: bool)
    requires groups.Length == 3 && At(groups) == NthGroup(limits, k)
    modifies groups
    ensures At(groups) == NthGroup(limits, k + 1) && more == (At(groups).z < limits.z)
  {
    more := IncrementIndex(groups, limits, 1);
  }

  /**
   What has been launched when a run ends: all waits but the last were successful, and the run is complete exactly when
   no launch follows and the last one was successful.
   */
  predicate Ended(s: Setup, launched: nat, status: int, succeeds: nat -> bool)
    requires s.Valid()
  {
    && 0 < launched && (forall k: nat | k < launched - 1 :: succeeds(k) && GoesOn(s, k))
    && (if !GoesOn(s, launched - 1) && succeeds(launched - 1) then status == CL_COMPLETE
        else status == CL_OUT_OF_RESOURCES && !succeeds(launched - 1))
  }

  /**
   A run has no more launches than needed, and is complete exactly with all of them: one for a kernel that loops over
   the work-groups itself, else one for each.
   */
  lemma EndedTotal(s: Setup, launched: nat, status: int, succeeds: nat -> bool)
    requires s.Valid() && Stops(s) && Ended(s, launched, status, succeeds)
    ensures 0 < launched <= Total(s)
    ensures status == CL_COMPLETE <==> launched == Total(s) && succeeds(launched - 1)
    ensures s.flags[14] || s.flags[15] || s.flags[16] ==> launched == 1
    ensures !s.flags[14] && !s.flags[15] && !s.flags[16] && Volume(s.nd.Groups()) > 0 ==>
              Total(s) == Volume(s.nd.Groups())
  {
    hide GoesOn;
    TotalPositive(s);
    GoesOnExact(s, Total(s) - 1);
    GoesOnExact(s, launched - 1);
  }

  /** Launch number k is being executed, all before it were successful; more launches follow or not. */
  predicate Progress(s: Setup, launched: nat, k: nat, more: bool, group: Point, succeeds: nat -> bool)
    requires s.Valid()
  {
    && launched == k + 1 && (more <==> GoesOn(s, k)) && (more ==> group == NthGroup(s.nd.Groups(), k + 1))
    && (forall j: nat | j < k :: succeeds(j) && GoesOn(s, j))
  }

  /** The loop variables of executeKernel between two turns. */
  predicate LoopState(s: Setup, mem: seq<nat>, trace: seq<Step>, k: nat, current: nat, next: nat,
                      startsCurrent: seq<nat>, startsNext: seq<nat>, shown: Point, other: Point)
    requires s.Valid()
  {
    && Between(s, mem, trace, current, next, shown, other) && current == k % 2
    && Pointers(s, s.UniformStart(current), startsCurrent) && Pointers(s, s.UniformStart(next), startsNext)
    && |startsCurrent| == s.qpus && |startsNext| == s.qpus && |Launches(trace)| == k + 1
  }

  lemma ParityFlips(k: nat, b: nat, b': nat)
    requires Alternate(b, b') && b == k % 2
    ensures b' == (k + 1) % 2
  {
  }

  lemma ProgressStep(s: Setup, k: nat, group: Point, more: bool, group': Point, succeeds: nat -> bool)
    requires s.Valid() && Progress(s, k + 1, k, true, group, succeeds) && succeeds(k)
    requires group' == NthGroup(s.nd.Groups(), k + 2) && more == (group'.z < s.nd.Groups().z)
    ensures Progress(s, k + 2, k + 1, more, group', succeeds)
  {
  }

  lemma ProgressEnds(s: Setup, k: nat, more: bool, group: Point, succeeds: nat -> bool)
    requires s.Valid() && Progress(s, k + 1, k, more, group, succeeds) && (more ==> !succeeds(k))
    ensures Ended(s, k + 1, if succeeds(k) then CL_COMPLETE else CL_OUT_OF_RESOURCES, succeeds)
  {
  }

  /** One turn of the loop, after the blocks have been swapped. */
  method Turn(mem: array<nat>, s: Setup, trace: seq<Step>, ghost k: nat, current: nat, ghost next: nat,
              startsCurrent: seq<nat>, ghost startsNext: seq<nat>, group: Point, ok: bool,
              ghost shown: Point, ghost other: Point) returns (trace': seq<Step>)
    requires s.Valid() && LoopState(s, mem[..], trace, k, next, current, startsNext, startsCurrent, shown, other)
    requires group == NthGroup(s.nd.Groups(), k + 1)
    modifies mem
    ensures ok ==> LoopState(s, mem[..], trace', k + 1, current, next, startsCurrent, startsNext, group, shown)
    ensures !ok ==> Safe(s, trace') && Launches(trace') == Launches(trace)
  {
    ParityFlips(k, next, current);
    trace' := Relaunch(mem, s, trace, current, next, startsCurrent, group, ok, shown, other);
  }

  /** Launches all work-groups. Whether the k-th execution is waited for successfully is the caller's choice. */
  method LaunchGroups(mem: array<nat>, s: Setup, starts0: seq<nat>, starts1: seq<nat>, succeeds: nat -> bool)
    returns (status: int, trace: seq<Step>)
    requires s.Valid() && Terminates(s, succeeds) && |starts0| == |starts1| == s.qpus
    requires Pointers(s, s.UniformStart(0), starts0) && Pointers(s, s.UniformStart(1), starts1)
    requires Prepared(s, mem[..])
    requires Shows(s, mem[..], s.UniformStart(0), FIRST_GROUP) && Shows(s, mem[..], s.UniformStart(1), FIRST_GROUP)
    modifies mem
    ensures Safe(s, trace) && GroupsInOrder(s, Launches(trace)) && Ended(s, |Launches(trace)|, status, succeeds)
  {
    hide Before, Block, Prepared, Ready, Shows;
    var groups := new nat[3](_ => 0);
    ghost var filled := mem[..];
    trace := FirstLaunch(mem, s, starts0, starts1);
    var more := false;
    if !LoopsGroups(s.flags) {
      more := NextGroup(groups, s.nd.Groups(), 0);
    }
    assert LoopState(s, mem[..], trace, 0, 0, 1, starts0, starts1, FIRST_GROUP, FIRST_GROUP) by {
      assert mem[..] == filled;
    }
    status, trace := Relaunches(mem, s, groups, more, trace, starts0, starts1, succeeds);
  }

  lemma LoopIsSafe(s: Setup, mem: seq<nat>, trace: seq<Step>, k: nat, current: nat, next: nat,
                   startsCurrent: seq<nat>, startsNext: seq<nat>, shown: Point, other: Point, ok: bool)
    requires s.Valid() && LoopState(s, mem, trace, k, current, next, startsCurrent, startsNext, shown, other)
    ensures GroupsInOrder(s, Launches(trace)) && |Launches(trace)| == k + 1
    ensures Safe(s, trace + [Wait(ok)]) && Launches(trace + [Wait(ok)]) == Launches(trace)
  {
    hide Prepared, Shows, Before;
    WaitStep(s, trace, ok);
  }

  /** The launches after the first one. */
  method Relaunches(mem: array<nat>, s: Setup, groups: array<nat>, start: bool, first: seq<Step>,
                    starts0: seq<nat>, starts1: seq<nat>, succeeds: nat -> bool)
    returns (status: int, trace: seq<Step>)
    requires s.Valid() && Terminates(s, succeeds) && groups.Length == 3 && mem != groups
    requires Progress(s, 1, 0, start, At(groups), succeeds)
    requires LoopState(s, mem[..], first, 0, 0, 1, starts0, starts1, FIRST_GROUP, FIRST_GROUP)
    modifies mem, groups
    ensures Safe(s, trace) && GroupsInOrder(s, Launches(trace)) && Ended(s, |Launches(trace)|, status, succeeds)
  {
    hide NthGroup, CountedPoints, Before, Terminates, GoesOn, Bounds, LoopState, GroupsInOrder;
    ghost var bound := RunBound(s, succeeds);
    var k, current, next, more := 0, 0, 1, start;
    var startsCurrent, startsNext := starts0, starts1;
    ghost var shown, other := FIRST_GROUP, FIRST_GROUP;
    trace := first;
    LoopIsSafe(s, mem[..], trace, k, current, next, startsCurrent, startsNext, shown, other, true);
    while more
      invariant Progress(s, |Launches(trace)|, k, more, At(groups), succeeds) && k <= bound
      invariant LoopState(s, mem[..], trace, k, current, next, startsCurrent, startsNext, shown, other)
      decreases bound - k
    {
      ghost var before, turning := trace, mem[..];
      current, next := next, current;
      startsCurrent, startsNext := startsNext, startsCurrent;
      trace := Turn(mem, s, trace, k, current, next, startsCurrent, startsNext, At(groups), succeeds(k), shown, other);
      if !succeeds(k) {
        LoopIsSafe(s, turning, before, k, next, current, startsNext, startsCurrent, shown, other, false);
        ProgressEnds(s, k, more, At(groups), succeeds);
        return CL_OUT_OF_RESOURCES, trace;
      }
      NotPastBound(s, succeeds, bound, k, At(groups));
      ghost var group, turned := At(groups), mem[..];
      more := NextGroup(groups, s.nd.Groups(), k + 1);
      assert mem[..] == turned;
      ProgressStep(s, k, group, more, At(groups), succeeds);
      k, shown, other := k + 1, group, shown;
      LoopIsSafe(s, mem[..], trace, k, current, next, startsCurrent, startsNext, shown, other, true);
    }
    LoopIsSafe(s, mem[..], trace, k, current, next, startsCurrent, startsNext, shown, other, succeeds(k));
    trace := trace + [Wait(succeeds(k))];
    ProgressEnds(s, k, more, At(groups), succeeds);
    status := if succeeds(k) then CL_COMPLETE else CL_OUT_OF_RESOURCES;
  }

  method FirstLaunch(mem: array<nat>, s: Setup, ghost starts0: seq<nat>, ghost starts1: seq<nat>)
    returns (trace: seq<Step>)
    requires s.Valid() && Prepared(s, mem[..]) && |starts0| == |starts1| == s.qpus
    requires Pointers(s, s.UniformStart(0), starts0) && Pointers(s, s.UniformStart(1), starts1)
    requires Shows(s, mem[..], s.UniformStart(0), FIRST_GROUP) && Shows(s, mem[..], s.UniformStart(1), FIRST_GROUP)
    ensures LoopState(s, mem[..], trace, 0, 0, 1, starts0, starts1, FIRST_GROUP, FIRST_GROUP)
  {
    hide Before, Block;
    trace := [Launch(0, mem[..])];
    LaunchNext(s, mem[..], [], 0, 1, FIRST_GROUP, FIRST_GROUP);
    assert [] + trace == trace;
  }

  /**
   executeKernel, for a device buffer that could be allocated or not. The buffer has to have room for its contents,
   which LaunchBuffers.ContentsFitExact decides. Every run that ends at all is covered.
   */
  method ExecuteKernel(s: Setup, haveBuffer: bool, succeeds: nat -> bool) returns (status: int, trace: seq<Step>)
    requires s.nd.mergeFactor > 0 && s.qpus == QpuCount(s.nd.local, s.nd.mergeFactor)
    requires 0 < s.qpus <= s.maxQpus ==> 4 * s.End() <= s.Size() && (s.Valid() ==> Terminates(s, succeeds))
    ensures s.qpus > s.maxQpus ==> status == CL_INVALID_GLOBAL_WORK_SIZE && trace == []
    ensures s.qpus == 0 ==> status == CL_COMPLETE && trace == []
    ensures 0 < s.qpus <= s.maxQpus && !haveBuffer ==> status == CL_OUT_OF_RESOURCES && trace == []
    ensures 0 < s.qpus <= s.maxQpus && haveBuffer ==>
              s.Valid() && Safe(s, trace) && GroupsInOrder(s, Launches(trace)) &&
              Ended(s, |Launches(trace)|, status, succeeds)
  {
    hide Before, Block;
    if s.qpus > s.maxQpus {
      return CL_INVALID_GLOBAL_WORK_SIZE, [];
    }
    if s.qpus == 0 {
      return CL_COMPLETE, [];
    }
    UsedSizesAreValid(s);
    if !haveBuffer {
      return CL_OUT_OF_RESOURCES, [];
    }
    var mem := new nat[s.Size() / 4];
    var starts0 := PrepareBuffer(mem, s);
    var size := s.UniformStart(1) - s.UniformStart(0);
    var starts1 := seq(|starts0|, i requires 0 <= i < |starts0| => starts0[i] + size);
    status, trace := LaunchGroups(mem, s, starts0, starts1, succeeds);
  }

  /** A launch that uses a QPU has no empty dimension. */
  lemma UsedSizesAreValid(s: Setup)
    requires s.nd.mergeFactor > 0 && s.qpus == QpuCount(s.nd.local, s.nd.mergeFactor) && 0 < s.qpus <= s.maxQpus
    ensures s.Valid()
  {
    QpuCountBound(s.nd.local, s.nd.mergeFactor);
    assert Volume(s.nd.local) > 0;
  }

  // ---------- what the kernel sees ----------

  lemma {:induction false} BlocksAt(s: Setup, group: Point, n: nat, q: nat, j: nat)
    requires s.Valid() && q < n <= s.qpus && j < s.Length()
    ensures |s.Blocks(group, q)| + j < |s.Blocks(group, n)|
    ensures s.Blocks(group, n)[|s.Blocks(group, q)| + j] == s.QpuBlock(group, q)[j]
  {
    if q < n - 1 {
      BlocksAt(s, group, n - 1, q, j);
    }
  }

  /** The word at a device address, for a launch whose buffer is at the setup's base. */
  function WordAt(s: Setup, launch: Step, address: nat): nat
    requires launch.Launch?
  {
    if address < s.base || (address - s.base) / 4 >= |launch.memory| then 0
    else launch.memory[(address - s.base) / 4]
  }

  /** The address the launch message gives to QPU q: where its UNIFORMs are, or where the code is. */
  function MessageWord(s: Setup, launch: Step, q: nat, i: nat): nat
    requires launch.Launch?
  {
    var p := s.MessageStart(launch.block) + 2 * q + i;
    if p < |launch.memory| then launch.memory[p] else 0
  }

  /** What QPU q reads for an implicit value, starting where its launch message points. */
  function ReadValue(s: Setup, launch: Step, q: nat, bit: nat): nat
    requires launch.Launch? && bit < UNIFORM_ADDRESS
  {
    WordAt(s, launch, MessageWord(s, launch, q, 0) + 4 * Count(s.flags[..bit]))
  }

  /** Addresses in the buffer fit their words, and messages and UNIFORMs step by the same number of words. */
  predicate Addressable(s: Setup) {
    s.Valid() && s.base + 4 * s.End() < WORD_MODULUS && |ArgumentWords(s.args)| == ElementCount(s.args)
  }

  lemma MessageFound(s: Setup, launch: Step, q: nat)
    requires s.Valid() && launch.Launch? && launch.block < 2 && q < s.qpus && Prepared(s, launch.memory)
    ensures MessageWord(s, launch, q, 0) == s.Address(s.MessageTarget(launch.block, q))
    ensures MessageWord(s, launch, q, 1) == s.Address(s.CodeStart())
  {
    hide Block, Before, Loaded;
    var b := launch.block;
    var p, words := s.MessageStart(b), s.Messages(b, s.qpus);
    assert Holds(launch.memory, p, words) by {
      assert b == 0 || b == 1;
    }
    MessageAt(s, b, s.qpus, q);
    HeldAt(launch.memory, p, words, 2 * q);
    HeldAt(launch.memory, p, words, 2 * q + 1);
  }

  /** The address in a message leads back to the place it was made from. */
  lemma ReadsThrough(s: Setup, launch: Step, address: nat, p: nat, words: seq<nat>, i: nat, j: nat)
    requires launch.Launch? && Holds(launch.memory, p, words) && i + j < |words|
    requires address == s.Address(p + i) && s.base + 4 * (p + i) < WORD_MODULUS
    ensures WordAt(s, launch, address + 4 * j) == words[i + j]
  {
    HeldAt(launch.memory, p, words, i + j);
  }

  lemma BlockAddress(s: Setup, b: nat, group: Point, q: nat)
    requires Addressable(s) && b < 2 && q < s.qpus
    ensures s.MessageTarget(b, q) == s.UniformStart(b) + |s.Blocks(group, q)| <= s.End()
  {
    PartsInOrder(s);
    BlocksLength(s, group, q);
    BlocksRoom(s, group, q);
    assert b == 0 || b == 1;
  }

  /** What a QPU reads at a position of its UNIFORMs. */
  lemma ReadsBlock(s: Setup, launch: Step, group: Point, q: nat, j: nat)
    requires Addressable(s) && launch.Launch? && launch.block < 2 && q < s.qpus && j < s.Length()
    requires Ready(s, launch.memory, launch.block, group)
    ensures WordAt(s, launch, MessageWord(s, launch, q, 0) + 4 * j) == s.QpuBlock(group, q)[j]
  {
    hide Block, Before, Prepared, Holds, WordAt, MessageWord;
    var b := launch.block;
    MessageFound(s, launch, q);
    BlockAddress(s, b, group, q);
    BlocksAt(s, group, s.qpus, q, j);
    ReadsThrough(s, launch, MessageWord(s, launch, q, 0), s.UniformStart(b), s.Blocks(group, s.qpus),
                 |s.Blocks(group, q)|, j);
  }

  lemma HeldAt(mem: seq<nat>, p: nat, words: seq<nat>, j: nat)
    requires Holds(mem, p, words) && j < |words|
    ensures p + j < |mem| && mem[p + j] == words[j]
  {
    assert mem[p..p + |words|][j] == mem[p + j];
  }

  lemma ReadsUsed(s: Setup, launch: Step, group: Point, q: nat, bit: nat)
    requires Addressable(s) && launch.Launch? && launch.block < 2 && q < s.qpus
    requires Ready(s, launch.memory, launch.block, group) && bit < UNIFORM_ADDRESS && s.flags[bit]
    ensures Count(s.flags[..bit]) < s.Length()
    ensures ReadValue(s, launch, q, bit) == Read(s.QpuBlock(group, q), s.flags, bit)
  {
    hide Block, Before, Prepared, WordAt, MessageWord;
    var address := s.OwnAddress(q);
    BlockReads(s.flags, s.nd, s.args, group, Points(s.nd.local)[q], address);
    ReadsBlock(s, launch, group, q, Count(s.flags[..bit]));
  }

  /**
   Whatever a kernel uses, every QPU of a launch reads the values of its own work-item in the launched work-group, and
   starts at the kernel's code.
   */
  lemma QpuReadsUsed(s: Setup, launch: Step, group: Point, q: nat)
    requires Addressable(s) && launch.Launch? && launch.block < 2 && q < s.qpus
    requires Ready(s, launch.memory, launch.block, group)
    ensures forall bit: nat | bit < UNIFORM_ADDRESS && s.flags[bit] ::
      ReadValue(s, launch, q, bit) == s.nd.ImplicitValues(group, Points(s.nd.local)[q])[bit]
    ensures forall j: nat | j < |s.code| :: WordAt(s, launch, MessageWord(s, launch, q, 1) + 4 * j) == s.code[j]
  {
    hide Block, Before, Prepared, WordAt, MessageWord, ReadValue;
    var address := s.OwnAddress(q);
    BlockReads(s.flags, s.nd, s.args, group, Points(s.nd.local)[q], address);
    forall bit: nat | bit < UNIFORM_ADDRESS && s.flags[bit]
      ensures ReadValue(s, launch, q, bit) == s.nd.ImplicitValues(group, Points(s.nd.local)[q])[bit]
    {
      ReadsUsed(s, launch, group, q, bit);
    }
    forall j: nat | j < |s.code|
      ensures WordAt(s, launch, MessageWord(s, launch, q, 1) + 4 * j) == s.code[j]
    {
      ReadsCode(s, launch, q, j);
    }
  }

  lemma ReadsCode(s: Setup, launch: Step, q: nat, j: nat)
    requires Addressable(s) && launch.Launch? && launch.block < 2 && q < s.qpus && j < |s.code|
    requires Prepared(s, launch.memory)
    ensures WordAt(s, launch, MessageWord(s, launch, q, 1) + 4 * j) == s.code[j]
  {
    hide Block, Before, Holds, WordAt, MessageWord;
    MessageFound(s, launch, q);
    PartsInOrder(s);
    ReadsThrough(s, launch, MessageWord(s, launch, q, 1), s.CodeStart(), s.code, 0, j);
  }

  // ---------- what a QPU reads, in terms of the request ----------

  /** The UNIFORM at a position, starting where the launch message points. */
  function UniformRead(s: Setup, launch: Step, q: nat, j: nat): nat
    requires launch.Launch?
  {
    WordAt(s, launch, MessageWord(s, launch, q, 0) + 4 * j)
  }

  predicate ReadsAs(s: Setup, launch: Step, q: nat, bit: nat, value: nat)
    requires launch.Launch? && bit < UNIFORM_ADDRESS
  {
    s.flags[bit] ==> UniformRead(s, launch, q, Count(s.flags[..bit])) == value
  }

  lemma ReadsTold(s: Setup, launch: Step, group: Point, q: nat, bit: nat, value: nat)
    requires Addressable(s) && launch.Launch? && launch.block < 2 && q < s.qpus && bit < UNIFORM_ADDRESS
    requires Ready(s, launch.memory, launch.block, group) && Tells(s.QpuBlock(group, q), s.flags, bit, value)
    ensures ReadsAs(s, launch, q, bit, value)
  {
    hide Block, Before, Prepared, WordAt, MessageWord;
    if s.flags[bit] {
      ReadsBlock(s, launch, group, q, Count(s.flags[..bit]));
    }
  }

  /** Every value that a kernel uses is read as the request has it. */
  lemma QpuReadsRequest(s: Setup, launch: Step, group: Point, q: nat)
    requires Addressable(s) && launch.Launch? && launch.block < 2 && q < s.qpus
    requires Ready(s, launch.memory, launch.block, group)
    ensures ReadsAs(s, launch, q, 0, s.nd.dimensions % 0x1_0000_0000)
    ensures ReadsAs(s, launch, q, 3, s.nd.global.x / s.nd.local.x % 0x1_0000_0000)
    ensures ReadsAs(s, launch, q, 4, s.nd.global.y / s.nd.local.y % 0x1_0000_0000)
    ensures ReadsAs(s, launch, q, 5, s.nd.global.z / s.nd.local.z % 0x1_0000_0000)
    ensures ReadsAs(s, launch, q, 6, group.x % 0x1_0000_0000)
    ensures ReadsAs(s, launch, q, 7, group.y % 0x1_0000_0000)
    ensures ReadsAs(s, launch, q, 8, group.z % 0x1_0000_0000)
    ensures ReadsAs(s, launch, q, 9, s.nd.offset.x % 0x1_0000_0000)
    ensures ReadsAs(s, launch, q, 10, s.nd.offset.y % 0x1_0000_0000)
    ensures ReadsAs(s, launch, q, 11, s.nd.offset.z % 0x1_0000_0000)
    ensures ReadsAs(s, launch, q, 12, s.nd.dataAddress % 0x1_0000_0000)
  {
    hide Block, Before, Ready, Tells, ReadsAs;
    var item, address := Points(s.nd.local)[q], s.OwnAddress(q);
    BlockTellsRequest(s.flags, s.nd, s.args, group, item, address);
    ReadsTold(s, launch, group, q, 0, s.nd.dimensions % 0x1_0000_0000);
    ReadsTold(s, launch, group, q, 3, s.nd.global.x / s.nd.local.x % 0x1_0000_0000);
    ReadsTold(s, launch, group, q, 4, s.nd.global.y / s.nd.local.y % 0x1_0000_0000);
    ReadsTold(s, launch, group, q, 5, s.nd.global.z / s.nd.local.z % 0x1_0000_0000);
    ReadsTold(s, launch, group, q, 6, group.x % 0x1_0000_0000);
    ReadsTold(s, launch, group, q, 7, group.y % 0x1_0000_0000);
    ReadsTold(s, launch, group, q, 8, group.z % 0x1_0000_0000);
    ReadsTold(s, launch, group, q, 9, s.nd.offset.x % 0x1_0000_0000);
    ReadsTold(s, launch, group, q, 10, s.nd.offset.y % 0x1_0000_0000);
    ReadsTold(s, launch, group, q, 11, s.nd.offset.z % 0x1_0000_0000);
    ReadsTold(s, launch, group, q, 12, s.nd.dataAddress % 0x1_0000_0000);
  }

  /** Local sizes and local IDs are read back exactly if they fit their bytes. */
  lemma QpuReadsSizes(s: Setup, launch: Step, group: Point, q: nat)
    requires Addressable(s) && launch.Launch? && launch.block < 2 && q < s.qpus
    requires Ready(s, launch.memory, launch.block, group)
    ensures s.flags[1] ==>
      (TellsBytes(UniformRead(s, launch, q, Count(s.flags[..1])), s.nd.local.x, s.nd.local.y, s.nd.local.z)
       <==> s.nd.local.x < 0x100 && s.nd.local.y < 0x100 && s.nd.local.z < 0x100)
    ensures var first := FirstItem(q, s.nd.local, s.nd.mergeFactor);
      s.flags[2] ==>
        (TellsBytes(UniformRead(s, launch, q, Count(s.flags[..2])), first.x, first.y, first.z)
         <==> first.x < 0x100 && first.y < 0x100 && first.z < 0x100)
  {
    hide Block, Before, Prepared, WordAt, MessageWord, TellsBytes;
    BlockTellsSizes(s.flags, s.nd, s.args, group, Points(s.nd.local)[q], s.OwnAddress(q));
    if s.flags[1] { ReadsBlock(s, launch, group, q, Count(s.flags[..1])); }
    if s.flags[2] { ReadsBlock(s, launch, group, q, Count(s.flags[..2])); }
  }

  /** Every word of every argument is read behind the used values and the words of the arguments before. */
  lemma QpuReadsArgument(s: Setup, launch: Step, group: Point, q: nat, u: nat, i: nat)
    requires Addressable(s) && launch.Launch? && launch.block < 2 && q < s.qpus
    requires Ready(s, launch.memory, launch.block, group) && u < |s.args| && i < |s.args[u].words|
    ensures UniformRead(s, launch, q, Count(s.flags[..13]) + WordsBefore(s.args, u) + i) == s.args[u].words[i]
  {
    hide Block, Before, Prepared, WordAt, MessageWord;
    BlockTellsArgument(s.flags, s.nd, s.args, group, Points(s.nd.local)[q], s.OwnAddress(q), u, i);
    ReadsBlock(s, launch, group, q, Count(s.flags[..13]) + WordsBefore(s.args, u) + i);
  }

  /** Where the global data is at the start of the buffer, the address read leads to it. */
  lemma QpuReadsData(s: Setup, launch: Step, group: Point, q: nat, j: nat)
    requires Addressable(s) && launch.Launch? && launch.block < 2 && q < s.qpus && j < |s.data|
    requires Ready(s, launch.memory, launch.block, group) && s.nd.dataAddress == s.base && s.flags[12]
    ensures WordAt(s, launch, UniformRead(s, launch, q, Count(s.flags[..12])) + 4 * j) == s.data[j]
  {
    hide Block, Before, WordAt, MessageWord, UniformRead, Holds, Prepared;
    QpuReadsRequest(s, launch, group, q);
    DataHeld(s, launch.memory);
    hide Ready;
    assert s.base % 0x1_0000_0000 == s.base;
    ReadsThrough(s, launch, s.base, 0, s.data, 0, j);
  }

  lemma DataHeld(s: Setup, mem: seq<nat>)
    requires s.Valid() && Prepared(s, mem)
    ensures Holds(mem, 0, s.data)
  {
    hide Holds;
  }

  /** The own address, for kernels that loop over the work-groups themselves, leads to the UNIFORMs of the QPU. */
  lemma QpuReadsLimits(s: Setup, launch: Step, group: Point, q: nat)
    requires Addressable(s) && launch.Launch? && launch.block < 2 && q < s.qpus
    requires Ready(s, launch.memory, launch.block, group)
    ensures var n := WordsBefore(s.args, |s.args|);
      && (s.flags[13] ==> UniformRead(s, launch, q, n + Count(s.flags[..13]))
                          == (s.base + 4 * (s.UniformStart(0) + q * s.Length())) % 0x1_0000_0000)
      && (s.flags[14] ==> UniformRead(s, launch, q, n + Count(s.flags[..14]))
                          == s.nd.global.x / s.nd.local.x % 0x1_0000_0000)
      && (s.flags[15] ==> UniformRead(s, launch, q, n + Count(s.flags[..15]))
                          == s.nd.global.y / s.nd.local.y % 0x1_0000_0000)
      && (s.flags[16] ==> UniformRead(s, launch, q, n + Count(s.flags[..16]))
                          == s.nd.global.z / s.nd.local.z % 0x1_0000_0000)
  {
    hide Block, Before, Prepared, WordAt, MessageWord, Ready;
    var n := WordsBefore(s.args, |s.args|);
    BlockTellsLimits(s.flags, s.nd, s.args, group, Points(s.nd.local)[q], s.OwnAddress(q));
    if s.flags[13] { ReadsBlock(s, launch, group, q, n + Count(s.flags[..13])); }
    if s.flags[14] { ReadsBlock(s, launch, group, q, n + Count(s.flags[..14])); }
    if s.flags[15] { ReadsBlock(s, launch, group, q, n + Count(s.flags[..15])); }
    if s.flags[16] { ReadsBlock(s, launch, group, q, n + Count(s.flags[..16])); }
  }

  // ---------- which work-items are executed ----------

  /** The work-group a QPU takes itself for; a kernel that is not passed an ID takes it for 0. */
  function ReadGroup(s: Setup, launch: Step, q: nat): Point
    requires launch.Launch?
  {
    Point(if s.flags[GROUP_ID_X] then ReadValue(s, launch, q, GROUP_ID_X) else 0,
          if s.flags[GROUP_ID_X + 1] then ReadValue(s, launch, q, GROUP_ID_X + 1) else 0,
          if s.flags[GROUP_ID_X + 2] then ReadValue(s, launch, q, GROUP_ID_X + 2) else 0)
  }

  /** Its first local ID. */
  function ReadLocal(s: Setup, launch: Step, q: nat): Point
    requires launch.Launch?
  {
    var ids := ReadValue(s, launch, q, LOCAL_IDS);
    if s.flags[LOCAL_IDS] then Unpacked(ids) else ORIGIN
  }

  /** The IDs that can differ from 0 are passed to the kernel; the QPUs cover a work-group. */
  predicate Identified(s: Setup) {
    && Addressable(s) && s.qpus == QpuCount(s.nd.local, s.nd.mergeFactor)
    && (s.nd.mergeFactor == 1 || (s.nd.local.y == 1 && s.nd.local.z == 1 && s.nd.local.x < 0x1000000))
    && Volume(s.nd.local) < WORD_MODULUS
    && (s.flags[LOCAL_IDS] || s.nd.local == Point(1, 1, 1))
    && var groups := s.nd.Groups();
       && groups.x < WORD_MODULUS && groups.y < WORD_MODULUS && groups.z < WORD_MODULUS
       && (s.flags[GROUP_ID_X] || groups.x <= 1) && (s.flags[GROUP_ID_X + 1] || groups.y <= 1)
       && (s.flags[GROUP_ID_X + 2] || groups.z <= 1)
  }

  /** The local IDs of all QPUs fit the bytes they are packed into. */
  predicate IdsFit(s: Setup) {
    if s.nd.mergeFactor == 1 then s.nd.local.x <= 0x100 && s.nd.local.y <= 0x100 && s.nd.local.z <= 0x100
    else (s.qpus - 1) * s.nd.mergeFactor < 0x100
  }

  /** The local IDs of the QPUs in use are inside the work-group. */
  lemma FirstItemInside(s: Setup, q: nat)
    requires Identified(s) && q < s.qpus
    ensures q < |Points(s.nd.local)| && Inside(FirstItem(q, s.nd.local, s.nd.mergeFactor), s.nd.local)
    ensures s.nd.mergeFactor > 1 ==>
      FirstItem(q, s.nd.local, s.nd.mergeFactor) == Point(q * s.nd.mergeFactor, 0, 0)
  {
    hide Before, Volume;
    QpuCountBound(s.nd.local, s.nd.mergeFactor);
    PointsCoverBox(s.nd.local);
    assert Points(s.nd.local)[q] in Points(s.nd.local);
    if s.nd.mergeFactor > 1 {
      LineFirstItem(q, s.nd.local, s.nd.mergeFactor);
    }
  }

  lemma FirstItemFits(s: Setup, q: nat)
    requires Identified(s) && IdsFit(s) && q < s.qpus
    ensures q < |Points(s.nd.local)| && FitsBytes(FirstItem(q, s.nd.local, s.nd.mergeFactor))
  {
    hide Before;
    FirstItemInside(s, q);
    MulMonotone(q, s.qpus - 1, s.nd.mergeFactor);
  }

  /** A QPU takes itself for what it was launched for, exactly if its local ID fits the bytes it is packed into. */
  lemma QpuSeesItem(s: Setup, launch: Step, group: Point, q: nat)
    requires Identified(s) && launch.Launch? && launch.block < 2 && q < s.qpus && Inside(group, s.nd.Groups())
    requires Ready(s, launch.memory, launch.block, group)
    ensures q < |Points(s.nd.local)| && ReadGroup(s, launch, q) == group
    ensures var first := FirstItem(q, s.nd.local, s.nd.mergeFactor);
      && (ReadLocal(s, launch, q) == first <==> FitsBytes(first))
      && (s.flags[LOCAL_IDS] ==> ReadLocal(s, launch, q) == Unpacked(Pack(first)))
  {
    hide Block, Before, Prepared, WordAt, MessageWord, ReadValue, Pack;
    FirstItemInside(s, q);
    QpuTold(s, launch, group, q);
  }

  lemma QpuTold(s: Setup, launch: Step, group: Point, q: nat)
    requires Identified(s) && launch.Launch? && launch.block < 2 && q < s.qpus && Inside(group, s.nd.Groups())
    requires Ready(s, launch.memory, launch.block, group) && q < |Points(s.nd.local)|
    ensures s.flags[GROUP_ID_X] ==> ReadValue(s, launch, q, GROUP_ID_X) == group.x
    ensures s.flags[GROUP_ID_X + 1] ==> ReadValue(s, launch, q, GROUP_ID_X + 1) == group.y
    ensures s.flags[GROUP_ID_X + 2] ==> ReadValue(s, launch, q, GROUP_ID_X + 2) == group.z
    ensures var first := FirstItem(q, s.nd.local, s.nd.mergeFactor);
      s.flags[LOCAL_IDS] ==>
        ReadValue(s, launch, q, LOCAL_IDS) == Pack(first) && (Unpacked(Pack(first)) == first <==> FitsBytes(first))
  {
    hide Block, Before, Prepared, WordAt, MessageWord, ReadValue, Pack, Unpacked;
    BlockIdentifiesItem(s.flags, s.nd, s.args, group, Points(s.nd.local)[q], s.OwnAddress(q));
    if s.flags[GROUP_ID_X] { ReadsUsed(s, launch, group, q, GROUP_ID_X); }
    if s.flags[GROUP_ID_X + 1] { ReadsUsed(s, launch, group, q, GROUP_ID_X + 1); }
    if s.flags[GROUP_ID_X + 2] { ReadsUsed(s, launch, group, q, GROUP_ID_X + 2); }
    if s.flags[LOCAL_IDS] { ReadsUsed(s, launch, group, q, LOCAL_IDS); }
  }

  /** QPU q of launch k works on point p of the global range, going by what it reads. */
  predicate Executes(s: Setup, launches: seq<Step>, k: nat, q: nat, p: Point) {
    && k < |launches| && q < s.qpus && launches[k].Launch?
    && Reaches(ReadGroup(s, launches[k], q), ReadLocal(s, launches[k], q), p, s.nd.local, s.nd.mergeFactor)
  }

  lemma ExecutesHit(s: Setup, launches: seq<Step>, k: nat, q: nat, p: Point)
    requires Identified(s) && IdsFit(s) && GroupsInOrder(s, launches) && |launches| == |Points(s.nd.Groups())|
    ensures Executes(s, launches, k, q, p) <==> Hits(k, q, p, s.nd.Groups(), s.nd.local, s.nd.mergeFactor)
  {
    hide Before, Ready, ReadGroup, ReadLocal, Reaches;
    QpuCountBound(s.nd.local, s.nd.mergeFactor);
    if k < |launches| && q < s.qpus {
      var groups := s.nd.Groups();
      NthIsPoint(groups, k);
      PointsCoverBox(groups);
      assert Points(groups)[k] in Points(groups);
      QpuSeesItem(s, launches[k], Points(groups)[k], q);
      FirstItemFits(s, q);
    }
  }

  /** Every point of the range is worked on. */
  ghost predicate RangeExecuted(s: Setup, launches: seq<Step>)
    requires s.Valid()
  {
    forall p :: Inside(p, Scaled(s.nd.Groups(), s.nd.local)) ==> exists k: nat, q: nat :: Executes(s, launches, k, q, p)
  }

  /** Points are worked on once at most, and only those of the range. */
  ghost predicate ExecutedOnce(s: Setup, launches: seq<Step>)
    requires s.Valid()
  {
    && (forall k: nat, q: nat, p | Executes(s, launches, k, q, p) :: Inside(p, Scaled(s.nd.Groups(), s.nd.local)))
    && (forall k: nat, q: nat, k': nat, q': nat, p |
          Executes(s, launches, k, q, p) && Executes(s, launches, k', q', p) :: k == k' && q == q')
  }

  /** When all work-groups have been launched, every point of the range is worked on exactly once, and no other. */
  lemma KernelCoversRange(s: Setup, launches: seq<Step>)
    requires Identified(s) && IdsFit(s) && GroupsInOrder(s, launches) && |launches| == |Points(s.nd.Groups())|
    ensures RangeExecuted(s, launches) && ExecutedOnce(s, launches)
  {
    hide Executes, Before, GroupsInOrder, Hits, GroupCovered;
    var groups, local, m := s.nd.Groups(), s.nd.local, s.nd.mergeFactor;
    forall k: nat, q: nat, p ensures Executes(s, launches, k, q, p) <==> Hits(k, q, p, groups, local, m) {
      ExecutesHit(s, launches, k, q, p);
    }
    forall p | Inside(p, Scaled(groups, local)) ensures exists k: nat, q: nat :: Executes(s, launches, k, q, p) {
      GroupCoveredExact(local, m);
      RangeCoveredExact(groups, local, m);
      var k: nat, q: nat :| Hits(k, q, p, groups, local, m);
      assert Executes(s, launches, k, q, p);
    }
    forall k: nat, q: nat, k': nat, q': nat, p | Executes(s, launches, k, q, p) && Executes(s, launches, k', q', p)
      ensures Inside(p, Scaled(groups, local)) && k == k' && q == q'
    {
      RangeHitOnce(k, q, k', q', p, groups, local, m);
    }
  }

  /** An item of the first work-group whose ID does not fit: no QPU that comes to it reads that ID. */
  function LostItem(s: Setup): Point {
    if s.nd.mergeFactor > 1 then Point(if s.qpus > 0 then (s.qpus - 1) * s.nd.mergeFactor else 0, 0, 0)
    else if s.nd.local.x > 0x100 then Point(0x100, 0, 0)
    else if s.nd.local.y > 0x100 then Point(0, 0x100, 0)
    else Point(0, 0, 0x100)
  }

  lemma ReadLocalSmall(s: Setup, launch: Step, q: nat)
    requires launch.Launch?
    ensures FitsBytes(ReadLocal(s, launch, q))
  {
  }

  lemma ByteMisses(group: nat, length: nat, first: nat)
    requires length > 0x100 && first < 0x100
    ensures group * length + first != 0x100
  {
    if group > 0 {
      MulMonotone(1, group, length);
    }
  }

  lemma UnmergedItemLost(s: Setup, group: Point, first: Point)
    requires Identified(s) && !IdsFit(s) && s.nd.mergeFactor == 1 && FitsBytes(first)
    ensures !Reaches(group, first, LostItem(s), s.nd.local, 1)
  {
    hide Identified;
    if s.nd.local.x > 0x100 {
      ByteMisses(group.x, s.nd.local.x, first.x);
    } else if s.nd.local.y > 0x100 {
      ByteMisses(group.y, s.nd.local.y, first.y);
    } else {
      ByteMisses(group.z, s.nd.local.z, first.z);
    }
  }

  /** In a line, the items of the last QPU are not reached from another line, nor by an earlier QPU. */
  lemma LineMissed(group: Point, first: Point, length: nat, m: nat, q: nat, last: nat)
    requires last * m < length && (first.y > 0 || first.z > 0 || (q < last && first.x == q * m))
    ensures !Reaches(group, first, Point(last * m, 0, 0), Point(length, 1, 1), m)
  {
    if q < last {
      MulGap(q, last, m);
    }
    if group.x > 0 {
      MulMonotone(1, group.x, length);
    }
  }

  lemma MergedItemLost(s: Setup, group: Point, q: nat)
    requires Identified(s) && !IdsFit(s) && s.nd.mergeFactor > 1 && q < s.qpus
    ensures !Reaches(group, Unpacked(Pack(Point(q * s.nd.mergeFactor, 0, 0))), LostItem(s), s.nd.local,
                     s.nd.mergeFactor)
  {
    hide Pack, Unpacked, Unpack, Reaches;
    var m, last := s.nd.mergeFactor, s.qpus - 1;
    FirstItemInside(s, q);
    FirstItemInside(s, last);
    if q * m < 0x100 {
      PackExact(Point(q * m, 0, 0));
      MulCancel(q, last, m);
    } else {
      PackOverflows(q * m);
    }
    LineMissed(group, Unpacked(Pack(Point(q * m, 0, 0))), s.nd.local.x, m, q, last);
    assert s.nd.local == Point(s.nd.local.x, 1, 1);
  }

  lemma NotReached(s: Setup, launch: Step, group: Point, q: nat)
    requires Identified(s) && !IdsFit(s) && launch.Launch? && launch.block < 2 && q < s.qpus
    requires Inside(group, s.nd.Groups()) && Ready(s, launch.memory, launch.block, group)
    ensures !Reaches(ReadGroup(s, launch, q), ReadLocal(s, launch, q), LostItem(s), s.nd.local, s.nd.mergeFactor)
  {
    hide Before, Ready, ReadGroup, ReadLocal, Reaches, LostItem, Pack, Unpacked;
    QpuSeesItem(s, launch, group, q);
    if s.nd.mergeFactor == 1 {
      ReadLocalSmall(s, launch, q);
      UnmergedItemLost(s, group, ReadLocal(s, launch, q));
    } else {
      FirstItemInside(s, q);
      MergedItemLost(s, group, q);
    }
  }

  lemma ItemLost(s: Setup, launches: seq<Step>, k: nat, q: nat)
    requires Identified(s) && !IdsFit(s) && GroupsInOrder(s, launches) && |launches| == |Points(s.nd.Groups())|
    ensures !Executes(s, launches, k, q, LostItem(s))
  {
    hide Before, Ready, ReadGroup, ReadLocal, Reaches, IdsFit, LostItem;
    if k < |launches| && q < s.qpus {
      var groups := s.nd.Groups();
      NthIsPoint(groups, k);
      PointsCoverBox(groups);
      assert Points(groups)[k] in Points(groups);
      NotReached(s, launches[k], Points(groups)[k], q);
    }
  }

  lemma LostItemInside(s: Setup)
    requires Identified(s) && !IdsFit(s) && Volume(s.nd.Groups()) > 0
    ensures Inside(LostItem(s), Scaled(s.nd.Groups(), s.nd.local))
  {
    var groups, local := s.nd.Groups(), s.nd.local;
    MulMonotone(1, groups.x, local.x);
    MulMonotone(1, groups.y, local.y);
    MulMonotone(1, groups.z, local.z);
    if s.nd.mergeFactor > 1 {
      FirstItemInside(s, s.qpus - 1);
    }
  }

  /** The whole range is worked on if and only if all local IDs fit their bytes. */
  lemma KernelCoversExact(s: Setup, launches: seq<Step>)
    requires Identified(s) && GroupsInOrder(s, launches) && |launches| == |Points(s.nd.Groups())|
    requires Volume(s.nd.Groups()) > 0
    ensures RangeExecuted(s, launches) <==> IdsFit(s)
    ensures IdsFit(s) ==> ExecutedOnce(s, launches)
  {
    hide Executes, Before, GroupsInOrder, IdsFit, LostItem;
    if IdsFit(s) {
      KernelCoversRange(s, launches);
    } else {
      LostItemInside(s);
      forall k: nat, q: nat ensures !Executes(s, launches, k, q, LostItem(s)) {
        ItemLost(s, launches, k, q);
      }
    }
  }

  // ---------- global IDs ----------

  /** The global offset a QPU reads; a kernel that is not passed one takes it for 0. */
  function ReadOffset(s: Setup, launch: Step, q: nat): Point
    requires launch.Launch?
  {
    Point(if s.flags[9] then UniformRead(s, launch, q, Count(s.flags[..9])) else 0,
          if s.flags[10] then UniformRead(s, launch, q, Count(s.flags[..10])) else 0,
          if s.flags[11] then UniformRead(s, launch, q, Count(s.flags[..11])) else 0)
  }

  /** Offsets that are not 0 are passed to the kernel. */
  predicate OffsetPassed(s: Setup) {
    && s.nd.offset.x < WORD_MODULUS && s.nd.offset.y < WORD_MODULUS && s.nd.offset.z < WORD_MODULUS
    && (s.flags[9] || s.nd.offset.x == 0) && (s.flags[10] || s.nd.offset.y == 0)
    && (s.flags[11] || s.nd.offset.z == 0)
  }

  lemma QpuReadsOffset(s: Setup, launch: Step, group: Point, q: nat)
    requires Addressable(s) && OffsetPassed(s) && launch.Launch? && launch.block < 2 && q < s.qpus
    requires Ready(s, launch.memory, launch.block, group)
    ensures ReadOffset(s, launch, q) == s.nd.offset
  {
    hide Before, Ready, UniformRead;
    QpuReadsRequest(s, launch, group, q);
  }

  /** QPU q of launch k works on the item with this global ID: offset, group and local ID as it reads them. */
  predicate ExecutesId(s: Setup, launches: seq<Step>, k: nat, q: nat, id: Point) {
    && k < |launches| && launches[k].Launch?
    && var offset := ReadOffset(s, launches[k], q);
       && offset.x <= id.x && offset.y <= id.y && offset.z <= id.z
       && Executes(s, launches, k, q, Point(id.x - offset.x, id.y - offset.y, id.z - offset.z))
  }

  lemma ExecutesIdExact(s: Setup, launches: seq<Step>, k: nat, q: nat, id: Point)
    requires Addressable(s) && OffsetPassed(s) && GroupsInOrder(s, launches)
    ensures ExecutesId(s, launches, k, q, id) <==>
      && s.nd.offset.x <= id.x && s.nd.offset.y <= id.y && s.nd.offset.z <= id.z
      && Executes(s, launches, k, q,
                  Point(id.x - s.nd.offset.x, id.y - s.nd.offset.y, id.z - s.nd.offset.z))
  {
    hide Ready, ReadOffset, ReadGroup, ReadLocal, Reaches, OffsetPassed, NthGroup;
    if k < |launches| && q < s.qpus {
      QpuReadsOffset(s, launches[k], NthGroup(s.nd.Groups(), k), q);
    }
  }

  /** Every ID of the box at this offset is worked on. */
  ghost predicate IdsExecuted(s: Setup, launches: seq<Step>, offset: Point, box: Point) {
    forall id :: InRegion(id, offset, box) ==> exists k: nat, q: nat :: ExecutesId(s, launches, k, q, id)
  }

  /** IDs are worked on once at most, and only those of the box. */
  ghost predicate IdsExecutedOnce(s: Setup, launches: seq<Step>, offset: Point, box: Point) {
    && (forall k: nat, q: nat, id | ExecutesId(s, launches, k, q, id) :: InRegion(id, offset, box))
    && (forall k: nat, q: nat, k': nat, q': nat, id |
          ExecutesId(s, launches, k, q, id) && ExecutesId(s, launches, k', q', id) :: k == k' && q == q')
  }

  lemma IdsOfRange(s: Setup, launches: seq<Step>)
    requires Addressable(s) && OffsetPassed(s) && GroupsInOrder(s, launches)
    ensures IdsExecuted(s, launches, s.nd.offset, Scaled(s.nd.Groups(), s.nd.local)) <==> RangeExecuted(s, launches)
    ensures ExecutedOnce(s, launches) ==>
      IdsExecutedOnce(s, launches, s.nd.offset, Scaled(s.nd.Groups(), s.nd.local))
  {
    hide Executes, ExecutesId, GroupsInOrder, OffsetPassed;
    var o, range := s.nd.offset, Scaled(s.nd.Groups(), s.nd.local);
    forall k: nat, q: nat, id
      ensures ExecutesId(s, launches, k, q, id) <==>
        && o.x <= id.x && o.y <= id.y && o.z <= id.z
        && Executes(s, launches, k, q, Point(id.x - o.x, id.y - o.y, id.z - o.z))
    {
      ExecutesIdExact(s, launches, k, q, id);
    }
    if RangeExecuted(s, launches) {
      forall id | InRegion(id, o, range) ensures exists k: nat, q: nat :: ExecutesId(s, launches, k, q, id) {
        var p := Point(id.x - o.x, id.y - o.y, id.z - o.z);
        assert Inside(p, range);
        var k: nat, q: nat :| Executes(s, launches, k, q, p);
        assert ExecutesId(s, launches, k, q, id);
      }
    }
    if IdsExecuted(s, launches, o, range) {
      forall p | Inside(p, range) ensures exists k: nat, q: nat :: Executes(s, launches, k, q, p) {
        var id := Shifted(o, p);
        assert InRegion(id, o, range);
        var k: nat, q: nat :| ExecutesId(s, launches, k, q, id);
        assert Point(id.x - o.x, id.y - o.y, id.z - o.z) == p;
      }
    }
  }

  /**
   A launch of a range that is not empty whose sizes were accepted, and which executeKernel reports as complete, has
   worked on every requested global ID exactly once, if and only if all local IDs fit their bytes.
   */
  lemma CompletedLaunchCovers(s: Setup, d: WorkSizes.Device, launches: seq<Step>, succeeds: nat -> bool)
    requires d.Sane() && d.mergeFactor == s.nd.mergeFactor && Identified(s) && OffsetPassed(s) && !LoopsGroups(s.flags)
    requires s.nd.global.x > 0 && s.nd.global.y > 0 && s.nd.global.z > 0
    requires WorkSizes.CheckSizes(s.nd.offset, s.nd.global, s.nd.local, d) == CL_SUCCESS
    requires GroupsInOrder(s, launches) && Ended(s, |launches|, CL_COMPLETE, succeeds)
    ensures IdsExecuted(s, launches, s.nd.offset, s.nd.global) <==> IdsFit(s)
    ensures IdsFit(s) ==> IdsExecutedOnce(s, launches, s.nd.offset, s.nd.global)
  {
    hide Executes, ExecutesId, Before, IdsFit, GroupsInOrder, Ended, RangeExecuted, ExecutedOnce, IdsExecuted,
         IdsExecutedOnce, OffsetPassed;
    WorkSizes.AcceptedSizesExecute(s.nd.offset, s.nd.global, s.nd.local, d);
    assert Scaled(s.nd.Groups(), s.nd.local) == s.nd.global;
    PointsLength(s.nd.Groups());
    EndedTotal(s, |launches|, CL_COMPLETE, succeeds);
    KernelCoversExact(s, launches);
    IdsOfRange(s, launches);
  }

  /** A group of 450 items on three QPUs with 150 merged items each is accepted, and its last ID does not fit. */
  lemma UnfitIdsAccepted()
    ensures WorkSizes.CheckSizes(ORIGIN, Point(450, 1, 1), Point(450, 1, 1), WorkSizes.Device(12, 150)) == CL_SUCCESS
    ensures QpuCount(Point(450, 1, 1), 150) == 3 && FirstItem(2, Point(450, 1, 1), 150).x == 300
  {
    PointAtRank(Point(2, 0, 0), Point(450, 1, 1));
  }

  // ---------- empty ranges ----------

  /**
   A range that is empty in x or z is not launched zero times: a completed run has executed the first work-group, and
   one per line if only x is empty, all of them outside the range.
   */
  lemma EmptyRangeLaunched(s: Setup, launches: seq<Step>, succeeds: nat -> bool)
    requires s.Valid() && Stops(s) && !LoopsGroups(s.flags) && Volume(s.nd.Groups()) == 0
    requires GroupsInOrder(s, launches) && Ended(s, |launches|, CL_COMPLETE, succeeds)
    ensures var groups := s.nd.Groups();
      && |launches| == (if groups.z == 0 then 1 else groups.y * groups.z) > 0
      && forall k: nat | k < |launches| ::
           Ready(s, launches[k].memory, k % 2, OutsidePoint(groups, k)) && !Inside(OutsidePoint(groups, k), groups)
  {
    hide Ready;
    EndedTotal(s, |launches|, CL_COMPLETE, succeeds);
    EmptyBoxCounted(s.nd.Groups(), 0);
    forall k: nat | k < |launches|
      ensures NthGroup(s.nd.Groups(), k) == OutsidePoint(s.nd.Groups(), k)
      ensures !Inside(OutsidePoint(s.nd.Groups(), k), s.nd.Groups())
    {
      EmptyBoxCounted(s.nd.Groups(), k);
    }
  }

  /** A request that is accepted and that the loop would never be done with. */
  lemma AcceptedNeverEnds(d: WorkSizes.Device)
    requires d.Sane() && d.MaxGroupSize() >= 4
    ensures WorkSizes.CheckSizes(ORIGIN, Point(4, 0, 1), Point(4, 1, 1), d) == CL_SUCCESS
    ensures 0 < QpuCount(Point(4, 1, 1), d.mergeFactor) <= d.qpus
    ensures !exists n :: NthGroup(WorkItems.Groups(Point(4, 0, 1), Point(4, 1, 1)), n).z >= 1
  {
    WorkSizes.AcceptedSizesExecute(ORIGIN, Point(4, 0, 1), Point(4, 1, 1), d);
    CeilDivIsLeast(4, d.mergeFactor, 0);
    EndsExact(Point(1, 0, 1));
  }
}
