/**
 The device buffer of a kernel launch (src/executor.cpp): its layout, its size and its first contents.
 */
module LaunchBuffers {
  import opened Arithmetic
  import opened Boxes
  import opened Uniforms

  const PAGE_ALIGNMENT: nat := 4096
  const MAX_HIDDEN_PARAMETERS: nat := 14

  /** get_size, in bytes; stack frames are counted in 64-bit words. */
  function GetSize(qpus: nat, codeSize: nat, uniforms: nat, dataSize: nat, stackFrame: nat): nat {
    (RawSize(qpus, codeSize, uniforms, dataSize, stackFrame) / PAGE_ALIGNMENT + 1) * PAGE_ALIGNMENT
  }

  function RawSize(qpus: nat, codeSize: nat, uniforms: nat, dataSize: nat, stackFrame: nat): nat {
    codeSize + 2 * 4 * uniforms + dataSize + qpus * stackFrame * 8 + 2 * 2 * 4 * qpus
  }

  /**
   One launch: the kernel's flags, arguments, code and global data (in 32-bit words), its stack frame (in 64-bit words),
   the index space, the QPUs used, the QPUs of the device and the device address of the buffer.
   */
  datatype Setup = Setup(flags: Flags, args: seq<Argument>, code: seq<nat>, data: seq<nat>, stackFrame: nat,
                         nd: NDRange, qpus: nat, maxQpus: nat, base: nat)
  {
    predicate Valid() {
      nd.Valid() && qpus <= maxQpus && qpus <= |Points(nd.local)|
    }

    /** Words per QPU in a UNIFORM block. */
    function Length(): nat {
      BlockLength(flags, args)
    }

    /** Words per QPU assumed by the launch messages. */
    function Stride(): nat {
      Count(flags) + ElementCount(args)
    }

    function StackStart(): nat {
      |data|
    }

    function CodeStart(): nat {
      StackStart() + 2 * (maxQpus * stackFrame)
    }

    /** Start of UNIFORM block b; Uniforms(2) is the end of both. */
    function UniformStart(b: nat): nat {
      CodeStart() + |code| + b * (qpus * Length())
    }

    /** Start of launch message block b; MessageStart(2) is the end of the buffer's contents. */
    function MessageStart(b: nat): nat {
      UniformStart(2) + b * (2 * qpus)
    }

    function End(): nat {
      MessageStart(2)
    }

    function Size(): nat {
      GetSize(maxQpus, 4 * |code|, qpus * (MAX_HIDDEN_PARAMETERS + ElementCount(args)), 4 * |data|, stackFrame)
    }

    /** AS_GPU_ADDRESS of a word of the buffer. */
    function Address(p: nat): nat {
      Word(base + 4 * p)
    }

    /** The address of the UNIFORMs of QPU i that these can contain themselves: that in the first block. */
    function OwnAddress(i: nat): nat {
      Address(UniformStart(0) + i * Length())
    }

    /** Where the launch messages of block b expect the UNIFORMs of QPU i. */
    function MessageTarget(b: nat, i: nat): nat {
      UniformStart(b) + i * Stride()
    }

    /** UNIFORMs of QPU i for a work-group. */
    function QpuBlock(group: Point, i: nat): (r: seq<nat>)
      requires Valid() && i < qpus
      ensures |r| == Length()
    {
      Block(flags, nd, args, group, Points(nd.local)[i], OwnAddress(i))
    }

    /** UNIFORMs of the first n QPUs. */
    function Blocks(group: Point, n: nat): seq<nat>
      requires Valid() && n <= qpus
    {
      if n == 0 then [] else Blocks(group, n - 1) + QpuBlock(group, n - 1)
    }

    /** Launch messages of block b for the first n QPUs: where the UNIFORMs and the code are. */
    function Messages(b: nat, n: nat): (r: seq<nat>)
      ensures |r| == 2 * n
    {
      if n == 0 then []
      else Messages(b, n - 1) + [Address(MessageTarget(b, n - 1)), Address(CodeStart())]
    }
  }

  lemma {:induction false} BlocksLength(s: Setup, group: Point, n: nat)
    requires s.Valid() && n <= s.qpus
    ensures |s.Blocks(group, n)| == n * s.Length()
  {
    if n > 0 {
      BlocksLength(s, group, n - 1);
      assert n * s.Length() == (n - 1) * s.Length() + s.Length();
    }
  }

  /** The parts of the buffer follow each other. */
  lemma PartsInOrder(s: Setup)
    ensures 0 <= s.StackStart() <= s.CodeStart() <= s.UniformStart(0) <= s.UniformStart(1) <= s.MessageStart(0)
            <= s.MessageStart(1) <= s.End()
    ensures s.UniformStart(0) == s.CodeStart() + |s.code|
    ensures s.UniformStart(1) == s.UniformStart(0) + s.qpus * s.Length()
    ensures s.MessageStart(0) == s.UniformStart(1) + s.qpus * s.Length()
    ensures s.MessageStart(1) == s.MessageStart(0) + 2 * s.qpus && s.End() == s.MessageStart(1) + 2 * s.qpus
  {
  }

  /** The UNIFORMs of one block, in words: those written and those get_size is asked for. */
  function WrittenWords(s: Setup): nat {
    s.qpus * s.Length()
  }

  function CountedWords(s: Setup): nat {
    s.qpus * (MAX_HIDDEN_PARAMETERS + ElementCount(s.args))
  }

  /** What the two blocks have too much, less what the messages of unused QPUs leave free; in words per block. */
  function Surplus(s: Setup): int {
    WrittenWords(s) - CountedWords(s) - 2 * (s.maxQpus - s.qpus)
  }

  function Raw(s: Setup): nat {
    RawSize(s.maxQpus, 4 * |s.code|, CountedWords(s), 4 * |s.data|, s.stackFrame)
  }

  /** The contents fit the buffer exactly when the surplus is not above the padding of the last page. */
  lemma ContentsFitExact(s: Setup)
    ensures 4 * s.End() == Raw(s) + 8 * Surplus(s)
    ensures 4 * s.End() <= s.Size() <==> 8 * Surplus(s) <= PAGE_ALIGNMENT - Raw(s) % PAGE_ALIGNMENT
  {
    hide Count, ArgumentWords, ElementCount;
    PartsInOrder(s);
    assert s.maxQpus * s.stackFrame * 8 == 4 * (2 * (s.maxQpus * s.stackFrame));
  }

  /** The same kernel arguments and QPUs with other code and global data. */
  function WithProgram(s: Setup, code: seq<nat>, data: seq<nat>): Setup {
    s.(code := code, data := data)
  }

  /** Code and global data consist of 64-bit words. */
  predicate WholeWords(code: seq<nat>, data: seq<nat>) {
    |code| % 2 == 0 && |data| % 2 == 0
  }

  /** The length of code with which the buffer ends right before a page end. */
  lemma TightCode(s: Setup) returns (code: seq<nat>)
    ensures |code| > 0 && WholeWords(code, []) && Raw(WithProgram(s, code, [])) % PAGE_ALIGNMENT == PAGE_ALIGNMENT - 8
  {
    var fixed := CountedWords(s) + s.maxQpus * s.stackFrame + 2 * s.maxQpus;
    var instructions := 1023 - fixed % 512;
    code := seq(2 * instructions, _ => 0);
    var t := WithProgram(s, code, []);
    assert CountedWords(t) == CountedWords(s);
    assert Raw(t) == 8 * (fixed + instructions);
    TightSum(fixed, instructions);
  }

  lemma TightSum(fixed: nat, n: nat)
    requires n == 1023 - fixed % 512
    ensures (8 * (fixed + n)) % 4096 == 4088
  {
    assert fixed + n == (fixed / 512 + 1) * 512 + 511;
  }

  /**
   Whatever code and global data a program has, its contents fit the buffer, if and only if the UNIFORMs written for all
   QPUs are at most one word per block more than those counted and two words for each QPU that is not used.
   */
  lemma AlwaysFitsExact(s: Setup)
    ensures (forall code: seq<nat>, data: seq<nat> | WholeWords(code, data) ::
               4 * WithProgram(s, code, data).End() <= WithProgram(s, code, data).Size())
            <==> s.qpus * (Count(s.flags) + |ArgumentWords(s.args)|) - s.qpus * (14 + ElementCount(s.args))
                 <= 2 * (s.maxQpus - s.qpus) + 1
  {
    if Surplus(s) <= 1 {
      forall code: seq<nat>, data: seq<nat> | WholeWords(code, data)
        ensures 4 * WithProgram(s, code, data).End() <= WithProgram(s, code, data).Size()
      {
        FitsWithPadding(s, code, data);
      }
    } else {
      var code := TightCode(s);
      ContentsFitExact(WithProgram(s, code, []));
      assert WholeWords(code, []);
    }
  }

  lemma FitsWithPadding(s: Setup, code: seq<nat>, data: seq<nat>)
    requires Surplus(s) <= 1 && WholeWords(code, data)
    ensures 4 * WithProgram(s, code, data).End() <= WithProgram(s, code, data).Size()
  {
    hide Count, ArgumentWords, ElementCount;
    var t := WithProgram(s, code, data);
    ContentsFitExact(t);
    assert Raw(t) == 8 * (|code| / 2 + |data| / 2 + CountedWords(s) + s.maxQpus * s.stackFrame + 2 * s.maxQpus);
    PaddingOfWholeWords(|code| / 2 + |data| / 2 + CountedWords(s) + s.maxQpus * s.stackFrame + 2 * s.maxQpus);
  }

  lemma PaddingOfWholeWords(n: nat)
    ensures (8 * n) % PAGE_ALIGNMENT <= PAGE_ALIGNMENT - 8
  {
    assert 8 * n == n / 512 * 4096 + 8 * (n % 512);
  }

  /** With at most 14 implicit UNIFORMs and arguments of the counted size they always do. */
  lemma ContentsFit(s: Setup)
    requires Count(s.flags) <= MAX_HIDDEN_PARAMETERS && |ArgumentWords(s.args)| == ElementCount(s.args)
    requires s.qpus <= s.maxQpus
    ensures 4 * s.End() <= s.Size()
  {
    ContentsFitExact(s);
    ShorterProduct(s.qpus, s.Length(), MAX_HIDDEN_PARAMETERS + ElementCount(s.args));
  }

  lemma ShorterProduct(n: nat, a: nat, b: nat)
    requires a <= b
    ensures n * a <= n * b
  {
    MulMonotone(a, b, n);
  }

  /** All 17 implicit UNIFORMs on 12 QPUs do not fit when the counted size ends close to a page end. */
  lemma ContentsOverflowExample(s: Setup)
    requires s.flags == seq(FLAG_COUNT, _ => true) && s.args == [] && s.data == [] && s.stackFrame == 0
    requires |s.code| == 638 && s.qpus == s.maxQpus == 12
    ensures 4 * s.End() > s.Size()
  {
    AllCount(FLAG_COUNT);
    assert Raw(s) == 4088;
    ContentsFitExact(s);
  }

  lemma {:induction false} AllCount(n: nat)
    ensures Count(seq(n, _ => true)) == n
  {
    if n > 0 {
      AllCount(n - 1);
      assert seq(n, _ => true)[..n - 1] == seq(n - 1, _ => true);
    }
  }

  lemma {:induction false} MessageAt(s: Setup, b: nat, n: nat, i: nat)
    requires i < n
    ensures s.Messages(b, n)[2 * i] == s.Address(s.MessageTarget(b, i))
    ensures s.Messages(b, n)[2 * i + 1] == s.Address(s.CodeStart())
  {
    if i < n - 1 {
      MessageAt(s, b, n - 1, i);
    }
  }

  /** Message i of block b names the start of QPU i's UNIFORMs. */
  predicate MessageTargets(s: Setup, b: nat, i: nat)
    requires i < s.qpus
  {
    s.Messages(b, s.qpus)[2 * i] == s.Address(s.UniformStart(b) + i * s.Length())
  }

  /** All launch messages are right exactly when one QPU is used or the arguments have as many words as elements. */
  lemma MessagesExact(s: Setup, b: nat)
    requires s.qpus * (s.Length() + s.Stride()) < WORD_MODULUS / 4
    ensures (forall i :: 0 <= i < s.qpus ==> MessageTargets(s, b, i))
            <==> s.qpus <= 1 || |ArgumentWords(s.args)| == ElementCount(s.args)
  {
    forall i | 0 <= i < s.qpus ensures MessageTargets(s, b, i) <==> i * s.Stride() == i * s.Length() {
      OneMessage(s, b, i);
    }
    if s.qpus > 1 && s.Length() != s.Stride() {
      assert !MessageTargets(s, b, 1);
    }
  }

  /** One 64-bit argument on two QPUs: the second message points into the first QPU's UNIFORMs. */
  lemma MessagesExample(s: Setup, b: nat, low: nat, high: nat)
    requires s.qpus == 2 && s.args == [Argument(1, [low, high])]
    ensures s.MessageTarget(b, 1) == s.UniformStart(b) + s.Length() - 1
    ensures !MessageTargets(s, b, 1)
  {
    OneLongArgument(s, low, high);
    MessageAt(s, b, 2, 1);
    AddressesDiffer(s.base + 4 * s.UniformStart(b), s.Stride(), s.Length());
  }

  lemma OneLongArgument(s: Setup, low: nat, high: nat)
    requires s.args == [Argument(1, [low, high])]
    ensures s.Length() == s.Stride() + 1 <= FLAG_COUNT + 2
  {
    assert s.args[..0] == [];
    assert ArgumentWords(s.args) == [low, high] && ElementCount(s.args) == 1;
    CountBound(s.flags);
  }

  lemma OneMessage(s: Setup, b: nat, i: nat)
    requires s.qpus * (s.Length() + s.Stride()) < WORD_MODULUS / 4 && i < s.qpus
    ensures MessageTargets(s, b, i) <==> i * s.Stride() == i * s.Length()
  {
    hide Count, ArgumentWords, ElementCount, Word;
    MessageAt(s, b, s.qpus, i);
    MulMonotone(i, s.qpus, s.Length() + s.Stride());
    assert i * (s.Length() + s.Stride()) == i * s.Length() + i * s.Stride();
    AddressesDiffer(s.base + 4 * s.UniformStart(b), i * s.Stride(), i * s.Length());
  }

  lemma AddressesDiffer(start: nat, p: nat, q: nat)
    requires p < WORD_MODULUS / 4 && q < WORD_MODULUS / 4
    ensures Word(start + 4 * p) == Word(start + 4 * q) <==> p == q
  {
    var a, b := start + 4 * p, start + 4 * q;
    assert a == a / WORD_MODULUS * WORD_MODULUS + Word(a) && b == b / WORD_MODULUS * WORD_MODULUS + Word(b);
  }
}
