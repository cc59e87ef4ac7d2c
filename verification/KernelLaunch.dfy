/**
 Filling the device buffer and launching all work-groups of a kernel (src/executor.cpp): one UNIFORM block is rewritten
 while the other one is being executed.
 */
module KernelLaunch {
  import opened Arithmetic
  import opened Boxes
  import opened LaunchBuffers
  import opened Uniforms
  import opened WorkItems

  /** Words written at p. */
  function Splice(mem: seq<nat>, p: nat, words: seq<nat>): (r: seq<nat>)
    requires p + |words| <= |mem|
    ensures |r| == |mem|
  {
    mem[..p] + words + mem[p + |words|..]
  }

  predicate Written(before: seq<nat>, now: seq<nat>, p: nat, words: seq<nat>) {
    p + |words| <= |before| && now == Splice(before, p, words)
  }

  lemma SpliceTwice(mem: seq<nat>, p: nat, a: seq<nat>, b: seq<nat>)
    requires p + |a| + |b| <= |mem|
    ensures Splice(Splice(mem, p, a), p + |a|, b) == Splice(mem, p, a + b)
  {
  }

  lemma SpliceNothing(mem: seq<nat>, p: nat)
    requires p <= |mem|
    ensures Splice(mem, p, []) == mem
  {
  }

  /** Copies words into the buffer and moves the pointer on. */
  method Put(mem: array<nat>, p: nat, words: seq<nat>) returns (p': nat)
    requires p + |words| <= mem.Length
    modifies mem
    ensures p' == p + |words| && mem[..] == Splice(old(mem[..]), p, words)
  {
    forall i | 0 <= i < |words| {
      mem[p + i] := words[i];
    }
    p' := p + |words|;
  }

  /** Writes the used values one after the other. */
  method PutUsed(mem: array<nat>, p: nat, flags: seq<bool>, values: seq<nat>) returns (p': nat)
    requires |flags| == |values| && p + Count(flags) <= mem.Length
    modifies mem
    ensures p' == p + Count(flags) && mem[..] == Splice(old(mem[..]), p, Emit(flags, values))
  {
    hide Splice, Emit, Count;
    ghost var before := mem[..];
    p' := p;
    UsedNone(before, p, flags, values);
    for i := 0 to |flags|
      invariant Count(flags[..i]) <= Count(flags) && p' == p + Count(flags[..i])
      invariant mem[..] == Splice(before, p, Emit(flags[..i], values[..i]))
    {
      UsedNext(before, p, flags, values, i);
      if flags[i] {
        p' := Put(mem, p', [values[i]]);
      }
    }
    assert flags[..|flags|] == flags && values[..|flags|] == values;
  }

  lemma UsedNone(before: seq<nat>, p: nat, flags: seq<bool>, values: seq<nat>)
    requires |flags| == |values| && p <= |before|
    ensures Count(flags[..0]) == 0 && Splice(before, p, Emit(flags[..0], values[..0])) == before
  {
    assert flags[..0] == [] && values[..0] == [] && Emit([], []) == [];
    SpliceNothing(before, p);
  }

  /** One more value is written, if it is used. */
  lemma UsedNext(before: seq<nat>, p: nat, flags: seq<bool>, values: seq<nat>, i: nat)
    requires |flags| == |values| && i < |flags| && p + Count(flags) <= |before|
    ensures Count(flags[..i]) <= Count(flags[..i + 1]) <= Count(flags)
    ensures Count(flags[..i + 1]) == Count(flags[..i]) + if flags[i] then 1 else 0
    ensures var written := Splice(before, p, Emit(flags[..i], values[..i]));
      Splice(before, p, Emit(flags[..i + 1], values[..i + 1]))
      == if flags[i] then Splice(written, p + Count(flags[..i]), [values[i]]) else written
  {
    hide Splice, Emit, Count;
    assert flags[..i + 1] == flags[..i] + [flags[i]] && values[..i + 1] == values[..i] + [values[i]];
    CountPrefix(flags, i + 1);
    CountSnoc(flags[..i], flags[i]);
    EmitSnoc(flags[..i], values[..i], flags[i], values[i]);
    if flags[i] {
      SpliceTwice(before, p, Emit(flags[..i], values[..i]), [values[i]]);
    } else {
      assert Emit(flags[..i], values[..i]) + [] == Emit(flags[..i], values[..i]);
    }
  }

  lemma {:induction false} CountPrefix(flags: seq<bool>, i: nat)
    requires i <= |flags|
    ensures Count(flags[..i]) <= Count(flags)
  {
    assert flags == flags[..i] + flags[i..];
    CountAppend(flags[..i], flags[i..]);
  }

  /** set_work_item_info. */
  method SetWorkItemInfo(mem: array<nat>, p: nat, flags: Flags, nd: NDRange, group: Point, item: Point)
    returns (p': nat)
    requires nd.Valid() && p + Count(flags[..UNIFORM_ADDRESS]) <= mem.Length
    modifies mem
    ensures p' == p + Count(flags[..UNIFORM_ADDRESS])
    ensures mem[..] == Splice(old(mem[..]), p, Implicit(flags, nd, group, item))
    ensures var b := mem[p..p'];
      && Tells(b, flags, 0, nd.dimensions % 0x1_0000_0000)
      && Tells(b, flags, 1, Pack(nd.local)) && Tells(b, flags, 2, Pack(Point(item.x * nd.mergeFactor, item.y, item.z)))
      && Tells(b, flags, 3, nd.global.x / nd.local.x % 0x1_0000_0000)
      && Tells(b, flags, 4, nd.global.y / nd.local.y % 0x1_0000_0000)
      && Tells(b, flags, 5, nd.global.z / nd.local.z % 0x1_0000_0000)
      && Tells(b, flags, 6, group.x % 0x1_0000_0000) && Tells(b, flags, 7, group.y % 0x1_0000_0000)
      && Tells(b, flags, 8, group.z % 0x1_0000_0000) && Tells(b, flags, 9, nd.offset.x % 0x1_0000_0000)
      && Tells(b, flags, 10, nd.offset.y % 0x1_0000_0000) && Tells(b, flags, 11, nd.offset.z % 0x1_0000_0000)
      && Tells(b, flags, 12, nd.dataAddress % 0x1_0000_0000)
  {
    hide Pack, Tells, Emit, Count;
    ImplicitTellsRequest(flags, nd, group, item);
    p' := PutUsed(mem, p, flags[..UNIFORM_ADDRESS], nd.ImplicitValues(group, item));
    assert mem[p..p'] == Implicit(flags, nd, group, item);
  }

  /** The words of all arguments. */
  method PutArguments(mem: array<nat>, p: nat, args: seq<Argument>) returns (p': nat)
    requires p + |ArgumentWords(args)| <= mem.Length
    modifies mem
    ensures p' == p + |ArgumentWords(args)| && mem[..] == Splice(old(mem[..]), p, ArgumentWords(args))
  {
    ghost var before := mem[..];
    p' := p;
    SpliceNothing(before, p);
    for u := 0 to |args|
      invariant |ArgumentWords(args[..u])| <= |ArgumentWords(args)| && p' == p + |ArgumentWords(args[..u])|
      invariant mem[..] == Splice(before, p, ArgumentWords(args[..u]))
    {
      ArgumentPrefix(args, u + 1);
      assert args[..u + 1][..u] == args[..u];
      SpliceTwice(before, p, ArgumentWords(args[..u]), args[u].words);
      p' := Put(mem, p', args[u].words);
    }
    assert args[..|args|] == args;
  }

  lemma {:induction false} ArgumentPrefix(args: seq<Argument>, u: nat)
    requires u <= |args|
    ensures |ArgumentWords(args[..u])| <= |ArgumentWords(args)|
  {
    if u < |args| {
      ArgumentPrefix(args[..|args| - 1], u);
      assert args[..|args| - 1][..u] == args[..u];
    } else {
      assert args[..u] == args;
    }
  }

  /** All UNIFORMs of one QPU. */
  method PutBlock(mem: array<nat>, p: nat, s: Setup, group: Point, item: Point, address: nat) returns (p': nat)
    requires s.Valid() && p + s.Length() <= mem.Length
    modifies mem
    ensures p' == p + s.Length()
    ensures mem[..] == Splice(old(mem[..]), p, Block(s.flags, s.nd, s.args, group, item, address))
  {
    hide Emit, Block, Splice, ArgumentWords, Count;
    ghost var implicit, tail := Implicit(s.flags, s.nd, group, item), Tail(s.flags, s.nd, address);
    BlockParts(s, group, item, address);
    SpliceThree(mem[..], p, implicit, ArgumentWords(s.args), tail);
    p' := PutParts(mem, p, s, group, item, address, implicit, tail);
  }

  method PutParts(mem: array<nat>, p: nat, s: Setup, group: Point, item: Point, address: nat,
                  ghost implicit: seq<nat>, ghost tail: seq<nat>) returns (p': nat)
    requires s.nd.Valid() && implicit == Implicit(s.flags, s.nd, group, item) && tail == Tail(s.flags, s.nd, address)
    requires p + |implicit| + |ArgumentWords(s.args)| + |tail| <= mem.Length
    modifies mem
    ensures p' == p + |implicit| + |ArgumentWords(s.args)| + |tail|
    ensures mem[..] == Splice(Splice(Splice(old(mem[..]), p, implicit), p + |implicit|, ArgumentWords(s.args)),
                              p + |implicit| + |ArgumentWords(s.args)|, tail)
  {
    hide Tells, Pack, Splice;
    p' := SetWorkItemInfo(mem, p, s.flags, s.nd, group, item);
    p' := PutArguments(mem, p', s.args);
    p' := PutUsed(mem, p', s.flags[UNIFORM_ADDRESS..], s.nd.TailValues(address));
  }

  lemma BlockParts(s: Setup, group: Point, item: Point, address: nat)
    requires s.Valid()
    ensures Block(s.flags, s.nd, s.args, group, item, address)
            == Implicit(s.flags, s.nd, group, item) + ArgumentWords(s.args) + Tail(s.flags, s.nd, address)
    ensures Count(s.flags[..UNIFORM_ADDRESS]) + |ArgumentWords(s.args)| + Count(s.flags[UNIFORM_ADDRESS..])
            == s.Length()
  {
    CountAppend(s.flags[..UNIFORM_ADDRESS], s.flags[UNIFORM_ADDRESS..]);
    assert s.flags == s.flags[..UNIFORM_ADDRESS] + s.flags[UNIFORM_ADDRESS..];
  }

  lemma SpliceThree(mem: seq<nat>, p: nat, a: seq<nat>, b: seq<nat>, c: seq<nat>)
    requires p + |a| + |b| + |c| <= |mem|
    ensures Splice(Splice(Splice(mem, p, a), p + |a|, b), p + |a| + |b|, c) == Splice(mem, p, a + b + c)
  {
    SpliceTwice(mem, p, a, b);
    SpliceTwice(mem, p, a + b, c);
  }

  // ---------- filling the buffer ----------

  predicate Holds(mem: seq<nat>, p: nat, words: seq<nat>) {
    p + |words| <= |mem| && mem[p..p + |words|] == words
  }

  /** The UNIFORMs of QPUs i and up. */
  function BlocksFrom(s: Setup, group: Point, i: nat): (r: seq<nat>)
    requires s.Valid() && i <= s.qpus
    decreases s.qpus - i
  {
    if i == s.qpus then [] else s.QpuBlock(group, i) + BlocksFrom(s, group, i + 1)
  }

  lemma {:induction false} BlocksSplit(s: Setup, group: Point, i: nat)
    requires s.Valid() && i <= s.qpus
    ensures s.Blocks(group, i) + BlocksFrom(s, group, i) == s.Blocks(group, s.qpus)
    decreases s.qpus - i
  {
    if i < s.qpus {
      BlocksSplit(s, group, i + 1);
    }
  }

  /** The UNIFORMs of the first i QPUs have been written. */
  predicate Built(before: seq<nat>, now: seq<nat>, s: Setup, group: Point, i: nat) {
    && s.Valid() && i <= s.qpus && s.UniformStart(0) + |s.Blocks(group, i)| <= |before|
    && now == Splice(before, s.UniformStart(0), s.Blocks(group, i))
  }

  lemma BlocksRoom(s: Setup, group: Point, i: nat)
    requires s.Valid() && i < s.qpus
    ensures |s.Blocks(group, i)| + s.Length() == |s.Blocks(group, i + 1)| <= s.qpus * s.Length()
  {
    BlocksLength(s, group, i);
    MulGap(i, s.qpus, s.Length());
  }

  lemma BuildStep(before: seq<nat>, now: seq<nat>, s: Setup, group: Point, i: nat)
    requires Built(before, now, s, group, i) && i < s.qpus && s.UniformStart(1) <= |before|
    ensures s.UniformStart(0) + |s.Blocks(group, i)| + s.Length() <= |before|
    ensures Built(before, Splice(now, s.UniformStart(0) + |s.Blocks(group, i)|, s.QpuBlock(group, i)), s, group, i + 1)
  {
    BlocksRoom(s, group, i);
    PartsInOrder(s);
    hide Block, Implicit, Tail;
    SpliceTwice(before, s.UniformStart(0), s.Blocks(group, i), s.QpuBlock(group, i));
  }

  method BuildNext(mem: array<nat>, p: nat, s: Setup, group: Point, i: nat, item: Point, ghost before: seq<nat>)
    returns (p': nat)
    requires Built(before, mem[..], s, group, i) && i < s.qpus && s.UniformStart(1) <= |before|
    requires item == Points(s.nd.local)[i] && p == s.UniformStart(0) + |s.Blocks(group, i)|
    modifies mem
    ensures p' == s.UniformStart(0) + |s.Blocks(group, i + 1)|
    ensures Built(before, mem[..], s, group, i + 1)
  {
    BuildStep(before, mem[..], s, group, i);
    BlocksRoom(s, group, i);
    BlocksLength(s, group, i);
    assert s.QpuBlock(group, i) == Block(s.flags, s.nd, s.args, group, item, s.Address(p));
    p' := PutBlock(mem, p, s, group, item, s.Address(p));
  }

  /** Where the UNIFORMs of the first QPUs start. */
  predicate Pointers(s: Setup, u: nat, starts: seq<nat>)
    requires s.Valid()
  {
    |starts| <= s.qpus && forall i | 0 <= i < |starts| :: starts[i] == u + |s.Blocks(FIRST_GROUP, i)|
  }

  lemma PointersSnoc(s: Setup, u: nat, starts: seq<nat>, p: nat)
    requires s.Valid() && Pointers(s, u, starts) && |starts| < s.qpus && p == u + |s.Blocks(FIRST_GROUP, |starts|)|
    ensures Pointers(s, u, starts + [p])
  {
  }

  /** The first UNIFORM block, for the first work-group, and where each QPU's part starts. */
  method BuildBlocks(mem: array<nat>, s: Setup) returns (p: nat, starts: seq<nat>)
    requires s.Valid() && s.UniformStart(1) <= mem.Length
    modifies mem
    ensures p == s.UniformStart(1) && Pointers(s, s.UniformStart(0), starts) && |starts| == s.qpus
    ensures Built(old(mem[..]), mem[..], s, FIRST_GROUP, s.qpus)
  {
    hide Block, Splice, Implicit, Tail;
    ghost var before := mem[..];
    p, starts := s.UniformStart(0), [];
    var local := new nat[3](_ => 0);
    FirstPoint(s.nd.local);
    PartsInOrder(s);
    SpliceNothing(before, p);
    for i := 0 to s.qpus
      invariant p == s.UniformStart(0) + |s.Blocks(FIRST_GROUP, i)| && fresh(local)
      invariant |starts| == i && Pointers(s, s.UniformStart(0), starts)
      invariant i < s.qpus ==> At(local) == Points(s.nd.local)[i]
      invariant Built(before, mem[..], s, FIRST_GROUP, i)
    {
      PointersSnoc(s, s.UniformStart(0), starts, p);
      starts := starts + [p];
      p := BuildNext(mem, p, s, FIRST_GROUP, i, At(local), before);
      NextInOrder(i, s.nd.local);
      var _ := IncrementIndex(local, s.nd.local, 1);
    }
    BlocksLength(s, FIRST_GROUP, s.qpus);
  }

  lemma FirstPoint(b: Point)
    requires b.x > 0 && b.y > 0 && b.z > 0
    ensures |Points(b)| > 0 && Points(b)[0] == Point(0, 0, 0)
  {
    PointAtRank(Point(0, 0, 0), b);
  }

  // ---------- rewriting a block ----------

  /** What the launch loop does to the buffer and the QPUs. Memory is what the QPUs find when they start. */
  datatype Step = Write(from: nat, to: nat) | Launch(block: nat, memory: seq<nat>) | Wait(success: bool)

  /** Words written inside a region written before. */
  lemma SpliceInside(before: seq<nat>, now: seq<nat>, u: nat, region: seq<nat>, region': seq<nat>, at: nat,
                     words: seq<nat>)
    requires u + |region| <= |before| && now == Splice(before, u, region)
    requires at + |words| <= |region| && region' == Splice(region, at, words)
    ensures |region'| == |region| && Splice(now, u + at, words) == Splice(before, u, region')
  {
  }

  /** The UNIFORMs of the first i QPUs are already those of the new work-group. */
  function Refilled(s: Setup, group: Point, was: Point, i: nat): seq<nat>
    requires s.Valid() && i <= s.qpus
  {
    s.Blocks(group, i) + BlocksFrom(s, was, i)
  }

  /** Only the implicit values in front of a QPU's UNIFORMs depend on the work-group. */
  lemma GroupChangesFront(s: Setup, group: Point, was: Point, i: nat) returns (rest: seq<nat>)
    requires s.Valid() && i < s.qpus
    ensures s.QpuBlock(group, i) == Implicit(s.flags, s.nd, group, Points(s.nd.local)[i]) + rest
    ensures s.QpuBlock(was, i) == Implicit(s.flags, s.nd, was, Points(s.nd.local)[i]) + rest
  {
    var item, address := Points(s.nd.local)[i], s.OwnAddress(i);
    rest := ArgumentWords(s.args) + Tail(s.flags, s.nd, address);
    BlockParts(s, group, item, address);
    BlockParts(s, was, item, address);
  }

  lemma RefilledParts(s: Setup, group: Point, was: Point, i: nat) returns (behind: seq<nat>)
    requires s.Valid() && i < s.qpus
    ensures Refilled(s, group, was, i)
            == s.Blocks(group, i) + Implicit(s.flags, s.nd, was, Points(s.nd.local)[i]) + behind
    ensures Refilled(s, group, was, i + 1)
            == s.Blocks(group, i) + Implicit(s.flags, s.nd, group, Points(s.nd.local)[i]) + behind
  {
    var rest := GroupChangesFront(s, group, was, i);
    behind := rest + BlocksFrom(s, was, i + 1);
    assert s.Blocks(group, i + 1) == s.Blocks(group, i) + s.QpuBlock(group, i);
    assert BlocksFrom(s, was, i) == s.QpuBlock(was, i) + BlocksFrom(s, was, i + 1);
  }

  lemma RefillRegion(s: Setup, group: Point, was: Point, i: nat, words: seq<nat>)
    requires s.Valid() && i < s.qpus && words == Implicit(s.flags, s.nd, group, Points(s.nd.local)[i])
    ensures |s.Blocks(group, i)| + |words| <= |Refilled(s, group, was, i)|
    ensures Refilled(s, group, was, i + 1) == Splice(Refilled(s, group, was, i), |s.Blocks(group, i)|, words)
  {
    var behind := RefilledParts(s, group, was, i);
  }

  predicate WritesWithin(writes: seq<Step>, lo: nat, hi: nat) {
    forall k | 0 <= k < |writes| :: writes[k].Write? && lo <= writes[k].from && writes[k].to <= hi
  }

  /** Gives one QPU the values of another work-group. */
  method RewriteNext(mem: array<nat>, s: Setup, p: nat, group: Point, item: Point, ghost before: seq<nat>,
                     ghost u: nat, ghost region: seq<nat>, ghost region': seq<nat>, ghost at: nat) returns (write: Step)
    requires s.nd.Valid() && Written(before, mem[..], u, region)
    requires p == u + at && at + Count(s.flags[..UNIFORM_ADDRESS]) <= |region|
    requires region' == Splice(region, at, Implicit(s.flags, s.nd, group, item))
    modifies mem
    ensures |region'| == |region| && Written(before, mem[..], u, region')
    ensures WritesWithin([write], u, u + |region|)
  {
    hide Implicit, Tells, Pack;
    SpliceInside(before, mem[..], u, region, region', at, Implicit(s.flags, s.nd, group, item));
    hide Splice;
    var end := SetWorkItemInfo(mem, p, s.flags, s.nd, group, item);
    write := Write(p, end);
  }

  method RewriteQpu(mem: array<nat>, s: Setup, start: nat, group: Point, i: nat, item: Point,
                    ghost before: seq<nat>, ghost u: nat, ghost was: Point) returns (write: Step)
    requires s.Valid() && i < s.qpus && item == Points(s.nd.local)[i] && start == u + |s.Blocks(FIRST_GROUP, i)|
    requires Written(before, mem[..], u, Refilled(s, group, was, i))
    modifies mem
    ensures |Refilled(s, group, was, i + 1)| == |Refilled(s, group, was, i)|
    ensures Written(before, mem[..], u, Refilled(s, group, was, i + 1))
    ensures WritesWithin([write], u, u + |Refilled(s, group, was, i)|)
  {
    SameLength(s, group, FIRST_GROUP, i);
    RefillRegion(s, group, was, i, Implicit(s.flags, s.nd, group, item));
    write := RewriteNext(mem, s, start, group, item, before, u, Refilled(s, group, was, i),
                         Refilled(s, group, was, i + 1), |s.Blocks(group, i)|);
  }

  lemma SameLength(s: Setup, a: Point, b: Point, i: nat)
    requires s.Valid() && i <= s.qpus
    ensures |s.Blocks(a, i)| == |s.Blocks(b, i)|
  {
    BlocksLength(s, a, i);
    BlocksLength(s, b, i);
  }

  /** The block at u, which holds the UNIFORMs of one work-group, is given those of another. */
  method RewriteBlock(mem: array<nat>, s: Setup, ghost u: nat, starts: seq<nat>, group: Point, ghost was: Point)
    returns (writes: seq<Step>)
    requires s.Valid() && Pointers(s, u, starts) && |starts| == s.qpus && Holds(mem[..], u, s.Blocks(was, s.qpus))
    modifies mem
    ensures Written(old(mem[..]), mem[..], u, s.Blocks(group, s.qpus))
    ensures WritesWithin(writes, u, u + |s.Blocks(group, s.qpus)|)
  {
    hide Splice, Block, Implicit, Tail;
    ghost var before := mem[..];
    writes := [];
    var local := new nat[3](_ => 0);
    FirstPoint(s.nd.local);
    SpliceHeld(before, u, s.Blocks(was, s.qpus));
    RefilledEnds(s, group, was);
    for i := 0 to s.qpus
      invariant fresh(local) && (i < s.qpus ==> At(local) == Points(s.nd.local)[i])
      invariant Written(before, mem[..], u, Refilled(s, group, was, i))
      invariant WritesWithin(writes, u, u + |Refilled(s, group, was, i)|)
    {
      var write := RewriteQpu(mem, s, starts[i], group, i, At(local), before, u, was);
      WritesSnoc(writes, write, u, u + |Refilled(s, group, was, i)|);
      writes := writes + [write];
      NextInOrder(i, s.nd.local);
      var _ := IncrementIndex(local, s.nd.local, 1);
    }
  }

  lemma RefilledEnds(s: Setup, group: Point, was: Point)
    requires s.Valid()
    ensures Refilled(s, group, was, 0) == s.Blocks(was, s.qpus)
    ensures Refilled(s, group, was, s.qpus) == s.Blocks(group, s.qpus)
  {
    BlocksSplit(s, was, 0);
  }

  lemma WritesSnoc(writes: seq<Step>, write: Step, lo: nat, hi: nat)
    requires WritesWithin(writes, lo, hi) && WritesWithin([write], lo, hi)
    ensures WritesWithin(writes + [write], lo, hi)
  {
    assert [write][0] == write;
  }

  lemma SpliceHeld(mem: seq<nat>, p: nat, words: seq<nat>)
    requires Holds(mem, p, words)
    ensures Splice(mem, p, words) == mem
  {
  }

  // ---------- the first contents ----------

  lemma WrittenHolds(before: seq<nat>, now: seq<nat>, p: nat, words: seq<nat>)
    requires Written(before, now, p, words)
    ensures Holds(now, p, words)
  {
  }

  lemma WrittenKeeps(before: seq<nat>, now: seq<nat>, p: nat, words: seq<nat>, q: nat, kept: seq<nat>)
    requires Written(before, now, p, words) && Holds(before, q, kept) && (p + |words| <= q || q + |kept| <= p)
    ensures Holds(now, q, kept)
  {
    assert forall k | q <= k < q + |kept| :: now[k] == before[k];
  }

  /** The global data and the code are in place. */
  predicate Loaded(s: Setup, mem: seq<nat>) {
    Holds(mem, 0, s.data) && Holds(mem, s.CodeStart(), s.code)
  }

  lemma LoadedKept(s: Setup, before: seq<nat>, now: seq<nat>, p: nat, words: seq<nat>)
    requires Loaded(s, before) && Written(before, now, p, words) && s.UniformStart(0) <= p
    ensures Loaded(s, now)
  {
    PartsInOrder(s);
    WrittenKeeps(before, now, p, words, 0, s.data);
    WrittenKeeps(before, now, p, words, s.CodeStart(), s.code);
  }

  /** Everything that no work-group changes: global data, code and both launch message blocks. */
  predicate Prepared(s: Setup, mem: seq<nat>) {
    && Loaded(s, mem)
    && Holds(mem, s.MessageStart(0), s.Messages(0, s.qpus)) && Holds(mem, s.MessageStart(1), s.Messages(1, s.qpus))
  }

  lemma PreparedKept(s: Setup, before: seq<nat>, now: seq<nat>, p: nat, words: seq<nat>)
    requires Prepared(s, before) && Written(before, now, p, words)
    requires s.UniformStart(0) <= p && p + |words| <= s.MessageStart(0)
    ensures Prepared(s, now)
  {
    PartsInOrder(s);
    LoadedKept(s, before, now, p, words);
    WrittenKeeps(before, now, p, words, s.MessageStart(0), s.Messages(0, s.qpus));
    WrittenKeeps(before, now, p, words, s.MessageStart(1), s.Messages(1, s.qpus));
  }

  /** Both UNIFORM blocks have the length of the first. */
  lemma BlockSpan(s: Setup, group: Point)
    requires s.Valid()
    ensures s.UniformStart(1) == s.UniformStart(0) + |s.Blocks(group, s.qpus)|
    ensures s.UniformStart(2) == s.MessageStart(0) == s.UniformStart(1) + |s.Blocks(group, s.qpus)|
  {
    PartsInOrder(s);
    BlocksLength(s, group, s.qpus);
  }

  method PutMessages(mem: array<nat>, p: nat, s: Setup, b: nat) returns (p': nat)
    requires p + 2 * s.qpus <= mem.Length
    modifies mem
    ensures p' == p + 2 * s.qpus && Written(old(mem[..]), mem[..], p, s.Messages(b, s.qpus))
  {
    ghost var before := mem[..];
    p' := p;
    SpliceNothing(before, p);
    for i := 0 to s.qpus
      invariant p' == p + 2 * i
      invariant Written(before, mem[..], p, s.Messages(b, i))
    {
      ghost var message := [s.Address(s.MessageTarget(b, i)), s.Address(s.CodeStart())];
      SpliceTwice(before, p, s.Messages(b, i), message);
      p' := Put(mem, p', [s.Address(s.MessageTarget(b, i)), s.Address(s.CodeStart())]);
    }
  }

  /** The second UNIFORM block is a copy of the first. */
  method DuplicateBlock(mem: array<nat>, from: nat, to: nat, ghost words: seq<nat>) returns (p: nat)
    requires Holds(mem[..], from, words) && to == from + |words| && to + |words| <= mem.Length
    modifies mem
    ensures p == to + |words| && Written(old(mem[..]), mem[..], to, words)
  {
    p := Put(mem, to, mem[from..to]);
  }

  method LoadProgram(mem: array<nat>, s: Setup) returns (p: nat)
    requires s.UniformStart(0) <= mem.Length
    modifies mem
    ensures p == s.UniformStart(0) && Loaded(s, mem[..])
  {
    PartsInOrder(s);
    p := Put(mem, 0, s.data);
    ghost var before := mem[..];
    WrittenHolds(old(mem[..]), before, 0, s.data);
    p := p + 2 * (s.maxQpus * s.stackFrame);
    p := Put(mem, p, s.code);
    WrittenHolds(before, mem[..], s.CodeStart(), s.code);
    WrittenKeeps(before, mem[..], s.CodeStart(), s.code, 0, s.data);
  }

  /** The UNIFORM block at u holds the values of a work-group for all QPUs. */
  predicate Shows(s: Setup, mem: seq<nat>, u: nat, group: Point)
    requires s.Valid()
  {
    Holds(mem, u, s.Blocks(group, s.qpus))
  }

  method FillBlocks(mem: array<nat>, s: Setup) returns (p: nat, starts: seq<nat>)
    requires s.Valid() && s.UniformStart(2) <= mem.Length && Loaded(s, mem[..])
    modifies mem
    ensures p == s.UniformStart(2) && Pointers(s, s.UniformStart(0), starts) && |starts| == s.qpus
    ensures Loaded(s, mem[..])
    ensures Shows(s, mem[..], s.UniformStart(0), FIRST_GROUP) && Shows(s, mem[..], s.UniformStart(1), FIRST_GROUP)
  {
    ghost var words := s.Blocks(FIRST_GROUP, s.qpus);
    BlockSpan(s, FIRST_GROUP);
    p, starts := BuildBlocks(mem, s);
    ghost var built := mem[..];
    LoadedKept(s, old(mem[..]), built, s.UniformStart(0), words);
    WrittenHolds(old(mem[..]), built, s.UniformStart(0), words);
    p := DuplicateBlock(mem, s.UniformStart(0), p, words);
    LoadedKept(s, built, mem[..], s.UniformStart(1), words);
    WrittenHolds(built, mem[..], s.UniformStart(1), words);
    WrittenKeeps(built, mem[..], s.UniformStart(1), words, s.UniformStart(0), words);
  }

  lemma MessagesKeep(s: Setup, before: seq<nat>, now: seq<nat>, b: nat)
    requires s.Valid() && b < 2 && Written(before, now, s.MessageStart(b), s.Messages(b, s.qpus)) && Loaded(s, before)
    requires Shows(s, before, s.UniformStart(0), FIRST_GROUP) && Shows(s, before, s.UniformStart(1), FIRST_GROUP)
    ensures Loaded(s, now) && Holds(now, s.MessageStart(b), s.Messages(b, s.qpus))
    ensures Shows(s, now, s.UniformStart(0), FIRST_GROUP) && Shows(s, now, s.UniformStart(1), FIRST_GROUP)
  {
    var words := s.Blocks(FIRST_GROUP, s.qpus);
    BlockSpan(s, FIRST_GROUP);
    PartsInOrder(s);
    LoadedKept(s, before, now, s.MessageStart(b), s.Messages(b, s.qpus));
    WrittenHolds(before, now, s.MessageStart(b), s.Messages(b, s.qpus));
    WrittenKeeps(before, now, s.MessageStart(b), s.Messages(b, s.qpus), s.UniformStart(0), words);
    WrittenKeeps(before, now, s.MessageStart(b), s.Messages(b, s.qpus), s.UniformStart(1), words);
  }

  /** Everything the first launch needs. */
  method PrepareBuffer(mem: array<nat>, s: Setup) returns (starts: seq<nat>)
    requires s.Valid() && s.End() <= mem.Length
    modifies mem
    ensures Pointers(s, s.UniformStart(0), starts) && |starts| == s.qpus
    ensures Prepared(s, mem[..])
    ensures Shows(s, mem[..], s.UniformStart(0), FIRST_GROUP) && Shows(s, mem[..], s.UniformStart(1), FIRST_GROUP)
  {
    PartsInOrder(s);
    var p := LoadProgram(mem, s);
    p, starts := FillBlocks(mem, s);
    ghost var filled := mem[..];
    p := PutMessages(mem, p, s, 0);
    ghost var first := mem[..];
    MessagesKeep(s, filled, first, 0);
    p := PutMessages(mem, p, s, 1);
    MessagesKeep(s, first, mem[..], 1);
    WrittenKeeps(first, mem[..], s.MessageStart(1), s.Messages(1, s.qpus), s.MessageStart(0), s.Messages(0, s.qpus));
  }
}
