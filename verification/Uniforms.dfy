/**
 The UNIFORM words of a kernel (src/executor.cpp, src/shared/BinaryHeader.h): which implicit values are emitted for a
 work-item, and what the kernel reads back.
 */
module Uniforms {
  import opened Arithmetic
  import opened Boxes
  import WorkItems

  /** Truncation to an unsigned 32-bit word. */
  function Word(n: nat): nat {
    n % WORD_MODULUS
  }

  // ---------- three bytes in one word ----------

  /** Bit-wise or. */
  function BitOr(a: nat, b: nat): nat
    decreases a + b
  {
    if a == 0 && b == 0 then 0
    else 2 * BitOr(a / 2, b / 2) + if a % 2 == 1 || b % 2 == 1 then 1 else 0
  }

  predicate IsPowerOf2(p: nat) {
    p == 1 || (p > 1 && p % 2 == 0 && IsPowerOf2(p / 2))
  }

  lemma {:induction false} BitOrZero(a: nat)
    ensures BitOr(a, 0) == a
  {
    if a > 0 {
      BitOrZero(a / 2);
    }
  }

  predicate BitSet(n: nat, k: nat) {
    if k == 0 then n % 2 == 1 else BitSet(n / 2, k - 1)
  }

  lemma {:induction false} BitOrExact(a: nat, b: nat, k: nat)
    ensures BitSet(BitOr(a, b), k) <==> BitSet(a, k) || BitSet(b, k)
  {
    BitOrHalves(a, b);
    hide BitOr;
    if k > 0 {
      BitOrExact(a / 2, b / 2, k - 1);
    }
  }

  lemma BitOrHalves(a: nat, b: nat)
    ensures BitOr(a, b) / 2 == BitOr(a / 2, b / 2)
    ensures BitOr(a, b) % 2 == 1 <==> a % 2 == 1 || b % 2 == 1
  {
  }

  /** Below a shifted value, or is addition. */
  lemma {:induction false} BitOrAdds(q: nat, b: nat, p: nat)
    requires IsPowerOf2(p) && b < p
    ensures BitOr(q * p, b) == q * p + b
    decreases p
  {
    if p == 1 {
      BitOrZero(q);
    } else {
      var h := p / 2;
      assert q * p == q * h * 2;
      BitOrAdds(q, b / 2, h);
      if q * p + b > 0 {
        assert (q * p) / 2 == q * h && (q * p) % 2 == 0;
      }
    }
  }

  /** Three values in one word, 8 bits apart. */
  function Pack(p: Point): nat {
    Word(BitOr(BitOr(p.z * 0x10000, p.y * 0x100), p.x))
  }

  /** What the kernel reads for dimension i: shifted by 8 * i bits and masked with 0xFF. */
  function Unpack(w: nat, i: nat): nat
    requires i < 3
  {
    (if i == 0 then w else if i == 1 then w / 0x100 else w / 0x10000) % 0x100
  }

  function Unpacked(w: nat): (p: Point)
    ensures FitsBytes(p)
  {
    Point(Unpack(w, 0), Unpack(w, 1), Unpack(w, 2))
  }

  predicate FitsBytes(p: Point) {
    p.x < 0x100 && p.y < 0x100 && p.z < 0x100
  }

  /** The three values are read back exactly when each fits its byte. */
  lemma PackExact(p: Point)
    ensures Unpacked(Pack(p)) == p <==> FitsBytes(p)
  {
    if FitsBytes(p) {
      PackValue(p);
      UnpackValue(Pack(p), p.x, p.y, p.z);
    }
  }

  /** A single value that does not fit its byte shows up in the bytes of the other two. */
  lemma PackOverflows(x: nat)
    requires 0x100 <= x < 0x1000000
    ensures Unpacked(Pack(Point(x, 0, 0))).y > 0 || Unpacked(Pack(Point(x, 0, 0))).z > 0
  {
    PackSingle(x);
    hide Pack;
    if x < 0x10000 {
      QuotientBound(x, 0x100, 0x100);
    } else {
      QuotientBound(x, 0x10000, 0x100);
    }
  }

  lemma PackSingle(x: nat)
    requires x < WORD_MODULUS
    ensures Pack(Point(x, 0, 0)) == x
  {
    assert BitOr(0, 0) == 0;
    BitOrZeroLeft(x);
  }

  lemma {:induction false} BitOrZeroLeft(b: nat)
    ensures BitOr(0, b) == b
  {
    if b > 0 {
      BitOrZeroLeft(b / 2);
    }
  }

  lemma UnpackValue(w: nat, x: nat, y: nat, z: nat)
    requires x < 0x100 && y < 0x100 && z < 0x100 && w == (z * 0x100 + y) * 0x100 + x
    ensures Unpack(w, 0) == x && Unpack(w, 1) == y && Unpack(w, 2) == z
  {
    assert w / 0x100 == z * 0x100 + y;
    assert w / 0x10000 == z;
  }

  lemma PackValue(p: Point)
    requires p.x < 0x100 && p.y < 0x100 && p.z < 0x100
    ensures Pack(p) == (p.z * 0x100 + p.y) * 0x100 + p.x
  {
    hide IsPowerOf2, BitOr;
    BytePowers();
    BitOrAdds(p.z, p.y * 0x100, 0x10000);
    BitOrAdds(p.z * 0x100 + p.y, p.x, 0x100);
  }

  lemma BytePowers()
    ensures IsPowerOf2(0x100) && IsPowerOf2(0x10000)
  {
    assert IsPowerOf2(2) && IsPowerOf2(8) && IsPowerOf2(32) && IsPowerOf2(128);
    assert IsPowerOf2(0x200) && IsPowerOf2(0x800) && IsPowerOf2(0x2000) && IsPowerOf2(0x8000);
  }

  // ---------- emitting the used values ----------

  function Count(flags: seq<bool>): nat {
    if flags == [] then 0
    else Count(flags[..|flags| - 1]) + if flags[|flags| - 1] then 1 else 0
  }

  /** The values whose flag is set, in order. */
  function Emit(flags: seq<bool>, values: seq<nat>): (r: seq<nat>)
    requires |flags| == |values|
    ensures |r| == Count(flags)
  {
    if flags == [] then []
    else
      var n := |flags| - 1;
      Emit(flags[..n], values[..n]) + if flags[n] then [values[n]] else []
  }

  /** A used value is found behind the used values before it. */
  lemma {:induction false} EmittedAt(flags: seq<bool>, values: seq<nat>, j: nat)
    requires |flags| == |values| && j < |flags| && flags[j]
    ensures Count(flags[..j]) < Count(flags) && Emit(flags, values)[Count(flags[..j])] == values[j]
  {
    var n := |flags| - 1;
    if j < n {
      EmittedAt(flags[..n], values[..n], j);
      assert flags[..n][..j] == flags[..j];
    }
  }

  lemma {:induction false} CountBound(flags: seq<bool>)
    ensures Count(flags) <= |flags|
  {
    if flags != [] {
      CountBound(flags[..|flags| - 1]);
    }
  }

  lemma CountSnoc(flags: seq<bool>, f: bool)
    ensures Count(flags + [f]) == Count(flags) + if f then 1 else 0
  {
    assert (flags + [f])[..|flags|] == flags;
  }

  lemma {:induction false} CountAppend(a: seq<bool>, b: seq<bool>)
    ensures Count(a + b) == Count(a) + Count(b)
  {
    if b == [] {
      assert a + b == a;
    } else {
      var n := |b| - 1;
      CountAppend(a, b[..n]);
      assert a + b == a + b[..n] + [b[n]];
      CountSnoc(a + b[..n], b[n]);
    }
  }

  lemma EmitSnoc(flags: seq<bool>, values: seq<nat>, f: bool, v: nat)
    requires |flags| == |values|
    ensures Emit(flags + [f], values + [v]) == Emit(flags, values) + if f then [v] else []
  {
    assert (flags + [f])[..|flags|] == flags && (values + [v])[..|flags|] == values;
  }

  // ---------- the UNIFORM block of one QPU ----------

  /** Bits of the flags for implicit UNIFORMs; the last four belong to the work-group loop optimization. */
  const LOCAL_IDS: nat := 2
  const GROUP_ID_X: nat := 6
  const UNIFORM_ADDRESS: nat := 13
  const MAX_GROUP_ID_X: nat := 14
  const FLAG_COUNT: nat := 17

  type Flags = f: seq<bool> | |f| == FLAG_COUNT witness seq(FLAG_COUNT, _ => false)

  /** The parts of a launch that all work-groups share. */
  datatype NDRange = NDRange(dimensions: nat, offset: Point, global: Point, local: Point, mergeFactor: nat,
                             dataAddress: nat)
  {
    predicate Valid() {
      local.x > 0 && local.y > 0 && local.z > 0 && mergeFactor > 0
    }

    function Groups(): Point
      requires Valid()
    {
      WorkItems.Groups(global, local)
    }

    /** The values set_work_item_info can emit for one QPU, by flag bit. */
    function ImplicitValues(group: Point, item: Point): (r: seq<nat>)
      requires Valid()
      ensures |r| == UNIFORM_ADDRESS
    {
      [Word(dimensions), Pack(local), Pack(Point(item.x * mergeFactor, item.y, item.z)),
       Word(Groups().x), Word(Groups().y), Word(Groups().z), Word(group.x), Word(group.y), Word(group.z),
       Word(offset.x), Word(offset.y), Word(offset.z), Word(dataAddress)]
    }

    /** The values behind the arguments: the block's own address and the group limits. */
    function TailValues(address: nat): (r: seq<nat>)
      requires Valid()
      ensures |r| == FLAG_COUNT - UNIFORM_ADDRESS
    {
      [address, Word(Groups().x), Word(Groups().y), Word(Groups().z)]
    }
  }

  /** A kernel argument: the number of vector elements of its parameter and the words it is passed as. */
  datatype Argument = Argument(elements: nat, words: seq<nat>)

  function ArgumentWords(args: seq<Argument>): seq<nat> {
    if args == [] then [] else ArgumentWords(args[..|args| - 1]) + args[|args| - 1].words
  }

  /** getExplicitUniformCount. */
  function ElementCount(args: seq<Argument>): nat {
    if args == [] then 0 else ElementCount(args[..|args| - 1]) + args[|args| - 1].elements
  }

  lemma ArgumentsSnoc(args: seq<Argument>, a: Argument)
    ensures ArgumentWords([]) == [] && ElementCount([]) == 0
    ensures ArgumentWords(args + [a]) == ArgumentWords(args) + a.words
    ensures ElementCount(args + [a]) == ElementCount(args) + a.elements
  {
    assert (args + [a])[..|args|] == args;
  }

  function Implicit(flags: Flags, nd: NDRange, group: Point, item: Point): (r: seq<nat>)
    requires nd.Valid()
    ensures |r| == Count(flags[..UNIFORM_ADDRESS])
  {
    Emit(flags[..UNIFORM_ADDRESS], nd.ImplicitValues(group, item))
  }

  function Tail(flags: Flags, nd: NDRange, address: nat): (r: seq<nat>)
    requires nd.Valid()
    ensures |r| == Count(flags[UNIFORM_ADDRESS..])
  {
    Emit(flags[UNIFORM_ADDRESS..], nd.TailValues(address))
  }

  function BlockLength(flags: Flags, args: seq<Argument>): nat {
    Count(flags) + |ArgumentWords(args)|
  }

  /** The UNIFORMs of one QPU: implicit values, arguments, values for the work-group loop. */
  function Block(flags: Flags, nd: NDRange, args: seq<Argument>, group: Point, item: Point, address: nat): (r: seq<nat>)
    requires nd.Valid()
    ensures |r| == BlockLength(flags, args)
  {
    CountAppend(flags[..UNIFORM_ADDRESS], flags[UNIFORM_ADDRESS..]);
    assert flags == flags[..UNIFORM_ADDRESS] + flags[UNIFORM_ADDRESS..];
    Implicit(flags, nd, group, item) + ArgumentWords(args) + Tail(flags, nd, address)
  }

  /** What the kernel reads for a flag bit. */
  function Read(block: seq<nat>, flags: Flags, bit: nat): nat
    requires bit < UNIFORM_ADDRESS && Count(flags[..bit]) < |block|
  {
    block[Count(flags[..bit])]
  }

  /** Every used implicit value is where the kernel reads it, and the arguments are behind them. */
  lemma BlockReads(flags: Flags, nd: NDRange, args: seq<Argument>, group: Point, item: Point, address: nat)
    requires nd.Valid()
    ensures var b := Block(flags, nd, args, group, item, address);
      && (forall bit: nat :: bit < UNIFORM_ADDRESS && flags[bit] ==>
            Count(flags[..bit]) < |b| && Read(b, flags, bit) == nd.ImplicitValues(group, item)[bit])
      && Count(flags[..UNIFORM_ADDRESS]) + |ArgumentWords(args)| <= |b|
      && b[Count(flags[..UNIFORM_ADDRESS])..Count(flags[..UNIFORM_ADDRESS]) + |ArgumentWords(args)|]
         == ArgumentWords(args)
  {
    var b := Block(flags, nd, args, group, item, address);
    forall bit: nat | bit < UNIFORM_ADDRESS && flags[bit]
      ensures Count(flags[..bit]) < |b| && Read(b, flags, bit) == nd.ImplicitValues(group, item)[bit]
    {
      EmittedAt(flags[..UNIFORM_ADDRESS], nd.ImplicitValues(group, item), bit);
      assert flags[..UNIFORM_ADDRESS][..bit] == flags[..bit];
    }
  }

  /** A used group ID is read back as it is, used local IDs exactly if each fits the byte it was packed into. */
  lemma BlockIdentifiesItem(flags: Flags, nd: NDRange, args: seq<Argument>, group: Point, item: Point, address: nat)
    requires nd.Valid() && group.x < WORD_MODULUS && group.y < WORD_MODULUS && group.z < WORD_MODULUS
    ensures var b := Block(flags, nd, args, group, item, address);
      var first := Point(item.x * nd.mergeFactor, item.y, item.z);
      && (flags[GROUP_ID_X] ==> GivesBack(b, flags, GROUP_ID_X, group.x))
      && (flags[GROUP_ID_X + 1] ==> GivesBack(b, flags, GROUP_ID_X + 1, group.y))
      && (flags[GROUP_ID_X + 2] ==> GivesBack(b, flags, GROUP_ID_X + 2, group.z))
      && (flags[LOCAL_IDS] ==>
            GivesBack(b, flags, LOCAL_IDS, Pack(first)) && (Unpacked(Pack(first)) == first <==> FitsBytes(first)))
  {
    hide Block, Pack;
    BlockReads(flags, nd, args, group, item, address);
    PackExact(Point(item.x * nd.mergeFactor, item.y, item.z));
  }

  predicate GivesBack(block: seq<nat>, flags: Flags, bit: nat, value: nat) {
    bit < UNIFORM_ADDRESS && Count(flags[..bit]) < |block| && Read(block, flags, bit) == value
  }

  // ---------- what a kernel reads, in terms of the request ----------

  /** A used value is in the block, and is this. */
  predicate Tells(block: seq<nat>, flags: Flags, bit: nat, value: nat)
    requires bit < UNIFORM_ADDRESS
  {
    flags[bit] ==> Count(flags[..bit]) < |block| && block[Count(flags[..bit])] == value
  }

  /** Every implicit value that a kernel uses is the one of the request, modulo 32 bits. */
  lemma BlockTellsRequest(flags: Flags, nd: NDRange, args: seq<Argument>, group: Point, item: Point, address: nat)
    requires nd.Valid()
    ensures var b := Block(flags, nd, args, group, item, address);
      && Tells(b, flags, 0, nd.dimensions % 0x1_0000_0000)
      && Tells(b, flags, 3, nd.global.x / nd.local.x % 0x1_0000_0000)
      && Tells(b, flags, 4, nd.global.y / nd.local.y % 0x1_0000_0000)
      && Tells(b, flags, 5, nd.global.z / nd.local.z % 0x1_0000_0000)
      && Tells(b, flags, 6, group.x % 0x1_0000_0000)
      && Tells(b, flags, 7, group.y % 0x1_0000_0000)
      && Tells(b, flags, 8, group.z % 0x1_0000_0000)
      && Tells(b, flags, 9, nd.offset.x % 0x1_0000_0000)
      && Tells(b, flags, 10, nd.offset.y % 0x1_0000_0000)
      && Tells(b, flags, 11, nd.offset.z % 0x1_0000_0000)
      && Tells(b, flags, 12, nd.dataAddress % 0x1_0000_0000)
  {
    BlockReads(flags, nd, args, group, item, address);
    hide Block, Pack;
  }

  /** The values of set_work_item_info, the first one in the first place. */
  lemma ImplicitTellsRequest(flags: Flags, nd: NDRange, group: Point, item: Point)
    requires nd.Valid()
    ensures var b := Implicit(flags, nd, group, item);
      && Tells(b, flags, 0, nd.dimensions % 0x1_0000_0000)
      && Tells(b, flags, 1, Pack(nd.local)) && Tells(b, flags, 2, Pack(Point(item.x * nd.mergeFactor, item.y, item.z)))
      && Tells(b, flags, 3, nd.global.x / nd.local.x % 0x1_0000_0000)
      && Tells(b, flags, 4, nd.global.y / nd.local.y % 0x1_0000_0000)
      && Tells(b, flags, 5, nd.global.z / nd.local.z % 0x1_0000_0000)
      && Tells(b, flags, 6, group.x % 0x1_0000_0000)
      && Tells(b, flags, 7, group.y % 0x1_0000_0000)
      && Tells(b, flags, 8, group.z % 0x1_0000_0000)
      && Tells(b, flags, 9, nd.offset.x % 0x1_0000_0000)
      && Tells(b, flags, 10, nd.offset.y % 0x1_0000_0000)
      && Tells(b, flags, 11, nd.offset.z % 0x1_0000_0000)
      && Tells(b, flags, 12, nd.dataAddress % 0x1_0000_0000)
  {
    hide Implicit, Pack, Tells;
    var v := nd.ImplicitValues(group, item);
    forall bit: nat | bit < UNIFORM_ADDRESS ensures Tells(Implicit(flags, nd, group, item), flags, bit, v[bit]) {
      ImplicitTells(flags, nd, group, item, bit);
    }
    assert v[0] == nd.dimensions % 0x1_0000_0000 && v[1] == Pack(nd.local);
    assert v[2] == Pack(Point(item.x * nd.mergeFactor, item.y, item.z));
    assert v[3] == nd.global.x / nd.local.x % 0x1_0000_0000 && v[4] == nd.global.y / nd.local.y % 0x1_0000_0000;
    assert v[5] == nd.global.z / nd.local.z % 0x1_0000_0000;
    assert v[6] == group.x % 0x1_0000_0000 && v[7] == group.y % 0x1_0000_0000 && v[8] == group.z % 0x1_0000_0000;
    assert v[9] == nd.offset.x % 0x1_0000_0000 && v[10] == nd.offset.y % 0x1_0000_0000;
    assert v[11] == nd.offset.z % 0x1_0000_0000 && v[12] == nd.dataAddress % 0x1_0000_0000;
  }

  lemma ImplicitTells(flags: Flags, nd: NDRange, group: Point, item: Point, bit: nat)
    requires nd.Valid() && bit < UNIFORM_ADDRESS
    ensures Tells(Implicit(flags, nd, group, item), flags, bit, nd.ImplicitValues(group, item)[bit])
  {
    if flags[bit] {
      EmittedAt(flags[..UNIFORM_ADDRESS], nd.ImplicitValues(group, item), bit);
      assert flags[..UNIFORM_ADDRESS][..bit] == flags[..bit];
    }
  }

  /** So are the three bytes of the local sizes and of the local IDs, exactly if all three fit. */
  lemma BlockTellsSizes(flags: Flags, nd: NDRange, args: seq<Argument>, group: Point, item: Point, address: nat)
    requires nd.Valid()
    ensures var b := Block(flags, nd, args, group, item, address);
      && (flags[1] ==> && Count(flags[..1]) < |b|
                       && (TellsBytes(b[Count(flags[..1])], nd.local.x, nd.local.y, nd.local.z)
                           <==> nd.local.x < 0x100 && nd.local.y < 0x100 && nd.local.z < 0x100))
      && (flags[2] ==> && Count(flags[..2]) < |b|
                       && (TellsBytes(b[Count(flags[..2])], item.x * nd.mergeFactor, item.y, item.z)
                           <==> item.x * nd.mergeFactor < 0x100 && item.y < 0x100 && item.z < 0x100))
  {
    BlockReads(flags, nd, args, group, item, address);
    hide Block, Pack;
    PackExact(nd.local);
    PackExact(Point(item.x * nd.mergeFactor, item.y, item.z));
  }

  /** The lowest three bytes of a word are these numbers, the lowest byte first. */
  predicate TellsBytes(w: nat, x: nat, y: nat, z: nat) {
    w % 0x100 == x && w / 0x100 % 0x100 == y && w / 0x10000 % 0x100 == z
  }

  /** The words of the first u arguments. */
  function WordsBefore(args: seq<Argument>, u: nat): nat
    requires u <= |args|
  {
    if u == 0 then 0 else WordsBefore(args, u - 1) + |args[u - 1].words|
  }

  lemma {:induction false} ArgumentAt(args: seq<Argument>, u: nat, i: nat)
    requires u < |args| && i < |args[u].words|
    ensures WordsBefore(args, u) + i < |ArgumentWords(args)|
    ensures ArgumentWords(args)[WordsBefore(args, u) + i] == args[u].words[i]
  {
    var n := |args| - 1;
    WordsOfArguments(args, n);
    if u < n {
      ArgumentAt(args[..n], u, i);
      SameWordsBefore(args, n, u);
    }
  }

  lemma {:induction false} WordsOfArguments(args: seq<Argument>, n: nat)
    requires n <= |args|
    ensures |ArgumentWords(args[..n])| == WordsBefore(args, n)
  {
    if n > 0 {
      assert args[..n][..n - 1] == args[..n - 1];
      WordsOfArguments(args, n - 1);
    }
  }

  lemma {:induction false} SameWordsBefore(args: seq<Argument>, n: nat, u: nat)
    requires u <= n <= |args|
    ensures WordsBefore(args[..n], u) == WordsBefore(args, u)
  {
    if u > 0 {
      SameWordsBefore(args, n, u - 1);
    }
  }

  /** The words of every argument are behind all used implicit values and the words of the arguments before it. */
  lemma BlockTellsArgument(flags: Flags, nd: NDRange, args: seq<Argument>, group: Point, item: Point, address: nat,
                           u: nat, i: nat)
    requires nd.Valid() && u < |args| && i < |args[u].words|
    ensures var b, p := Block(flags, nd, args, group, item, address), Count(flags[..13]) + WordsBefore(args, u) + i;
      p < |b| && b[p] == args[u].words[i]
  {
    var b, k := Block(flags, nd, args, group, item, address), Count(flags[..13]);
    BlockReads(flags, nd, args, group, item, address);
    ArgumentAt(args, u, i);
    hide Block;
    assert b[k..k + |ArgumentWords(args)|][WordsBefore(args, u) + i] == b[k + WordsBefore(args, u) + i];
  }

  /** Behind the arguments: the block's own address and the numbers of work-groups, those that are used. */
  lemma BlockTellsLimits(flags: Flags, nd: NDRange, args: seq<Argument>, group: Point, item: Point, address: nat)
    requires nd.Valid()
    ensures var b, n := Block(flags, nd, args, group, item, address), WordsBefore(args, |args|);
      && (flags[13] ==> n + Count(flags[..13]) < |b| && b[n + Count(flags[..13])] == address)
      && (flags[14] ==> && n + Count(flags[..14]) < |b|
                        && b[n + Count(flags[..14])] == nd.global.x / nd.local.x % 0x1_0000_0000)
      && (flags[15] ==> && n + Count(flags[..15]) < |b|
                        && b[n + Count(flags[..15])] == nd.global.y / nd.local.y % 0x1_0000_0000)
      && (flags[16] ==> && n + Count(flags[..16]) < |b|
                        && b[n + Count(flags[..16])] == nd.global.z / nd.local.z % 0x1_0000_0000)
  {
    WordsOfArguments(args, |args|);
    assert args[..|args|] == args;
    forall bit: nat | 13 <= bit < FLAG_COUNT && flags[bit]
      ensures var b, p := Block(flags, nd, args, group, item, address), |ArgumentWords(args)| + Count(flags[..bit]);
        p < |b| && b[p] == nd.TailValues(address)[bit - 13]
    {
      TailRead(flags, nd, args, group, item, address, bit);
    }
  }

  lemma TailRead(flags: Flags, nd: NDRange, args: seq<Argument>, group: Point, item: Point, address: nat, bit: nat)
    requires nd.Valid() && 13 <= bit < FLAG_COUNT && flags[bit]
    ensures var b, p := Block(flags, nd, args, group, item, address), |ArgumentWords(args)| + Count(flags[..bit]);
      p < |b| && b[p] == nd.TailValues(address)[bit - 13]
  {
    EmittedAt(flags[13..], nd.TailValues(address), bit - 13);
    assert flags[..bit] == flags[..13] + flags[13..][..bit - 13];
    CountAppend(flags[..13], flags[13..][..bit - 13]);
  }
}
