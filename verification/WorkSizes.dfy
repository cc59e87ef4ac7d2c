/**
 Choosing and checking the work sizes of a kernel launch (src/Kernel.cpp).
 */
module WorkSizes {
  import opened Arithmetic
  import opened Boxes
  import opened WorkItems
  import opened Wrappers

  /** Largest global size (plus offset) per dimension. */
  const MAX_WORK_ITEM_DIMENSION: nat := 0xFFFF_FFFE

  /** The device: its QPUs and the kernel's merge factor, both 8 bits wide. */
  datatype Device = Device(qpus: nat, mergeFactor: nat)
  {
    predicate Sane() {
      0 < qpus < 256 && 0 < mergeFactor < 256
    }

    function MaxGroupSize(): nat {
      qpus * mergeFactor
    }
  }

  predicate Divides(local: Point, global: Point) {
    && (local.x != 0 ==> global.x % local.x == 0)
    && (local.y != 0 ==> global.y % local.y == 0)
    && (local.z != 0 ==> global.z % local.z == 0)
  }

  method SetAll(a: array<nat>, p: Point)
    requires a.Length == 3
    modifies a
    ensures At(a) == p
  {
    a[0], a[1], a[2] := p.x, p.y, p.z;
  }

  /** The sizes given at compile time can be used for this global size. */
  predicate CompileSizesFit(compile: Point, global: Point, d: Device) {
    && compile != Point(0, 0, 0)
    && Divides(compile, global) && Product(compile) <= d.MaxGroupSize()
  }

  /** Compile-time sizes are given for all dimensions or for none. */
  predicate CompileSizesValid(compile: Point) {
    compile == Point(0, 0, 0) || (compile.x > 0 && compile.y > 0 && compile.z > 0)
  }

  method SplitCompileWorkSize(compile: Point, global: Point, local: array<nat>, d: Device) returns (ok: bool)
    requires local.Length == 3 && CompileSizesValid(compile)
    modifies local
    ensures ok == CompileSizesFit(compile, global, d)
    ensures At(local) == if ok then compile else old(At(local))
  {
    if compile.x == 0 && compile.y == 0 && compile.z == 0 {
      return false;
    }
    var maxGroupSize := d.MaxGroupSize();
    if global.x % compile.x != 0 || global.y % compile.y != 0 || global.z % compile.z != 0 {
      return false;
    }
    if Product(compile) > maxGroupSize {
      return false;
    }
    SetAll(local, compile);
    return true;
  }

  /** d is the largest divisor of n that is not above the limit. */
  predicate IsLargestDivisor(d: nat, n: nat, limit: nat) {
    0 < d <= limit && n % d == 0 && forall e :: d < e <= limit ==> n % e != 0
  }

  /** The whole range becomes one work-group if it is small enough, else only the first dimension is split. */
  predicate IsGlobalSplit(local: Point, global: Point, d: Device) {
    if Product(global) <= d.MaxGroupSize() then local == global
    else local.y == local.z == 1 && IsLargestDivisor(local.x, global.x, d.MaxGroupSize())
  }

  method SplitGlobalWorkSize(global: Point, local: array<nat>, d: Device) returns (err: int)
    requires local.Length == 3 && d.Sane()
    modifies local
    ensures err == CL_SUCCESS && IsGlobalSplit(At(local), global, d)
  {
    var maxGroupSize := d.MaxGroupSize();
    if Product(global) <= maxGroupSize {
      SetAll(local, global);
      return CL_SUCCESS;
    }
    var size := maxGroupSize;
    assert size > 0 by { MulMonotone(1, d.qpus, d.mergeFactor); }
    while size > 0
      invariant size <= maxGroupSize && (size == 0 ==> maxGroupSize > 0 && global.x % 1 != 0)
      invariant forall e :: size < e <= maxGroupSize ==> global.x % e != 0
    {
      if global.x % size == 0 {
        SetAll(local, Point(size, 1, 1));
        if local[0] * local[1] * local[2] <= maxGroupSize {
          return CL_SUCCESS;
        }
      }
      size := size - 1;
    }
    return CL_INVALID_WORK_GROUP_SIZE;
  }

  /** The arguments of clEnqueueNDRangeKernel; offset and local sizes are optional. */
  datatype Request = Request(workDim: nat, offset: Option<Point>, size: Option<Point>, local: Option<Point>)

  /** The first workDim elements of p, the rest filled up. */
  function Extend(p: Point, workDim: nat, fill: nat): Point {
    Point(p.x, if workDim < 2 then fill else p.y, if workDim < 3 then fill else p.z)
  }

  /** Local sizes that contradict the compile-time sizes in all given dimensions. */
  predicate CompileMismatch(compile: Point, local: Point, workDim: nat) {
    && compile.x != 0 && local.x != compile.x
    && (workDim < 2 || local.y != compile.y) && (workDim < 3 || local.z != compile.z)
  }

  /** The last checks of setWorkGroupSizes, in their order. */
  function CheckSizes(offset: Point, global: Point, local: Point, d: Device): int {
    if global.x > MAX_WORK_ITEM_DIMENSION || global.y > MAX_WORK_ITEM_DIMENSION || global.z > MAX_WORK_ITEM_DIMENSION
    then CL_INVALID_GLOBAL_WORK_SIZE
    else if (global.x + offset.x) % WORD_MODULUS > MAX_WORK_ITEM_DIMENSION
            || (global.y + offset.y) % WORD_MODULUS > MAX_WORK_ITEM_DIMENSION
            || (global.z + offset.z) % WORD_MODULUS > MAX_WORK_ITEM_DIMENSION
    then CL_INVALID_GLOBAL_OFFSET
    else if Product(local) > d.MaxGroupSize() then CL_INVALID_WORK_GROUP_SIZE
    else if !Divides(local, global) then CL_INVALID_WORK_GROUP_SIZE
    else CL_SUCCESS
  }

  /** The tests in their order; the first one that fails decides. */
  lemma CheckSizesExact(offset: Point, global: Point, local: Point, d: Device)
    ensures CheckSizes(offset, global, local, d) ==
            if global.x > 0xFFFF_FFFE || global.y > 0xFFFF_FFFE || global.z > 0xFFFF_FFFE
            then CL_INVALID_GLOBAL_WORK_SIZE
            else if (global.x + offset.x) % 0x1_0000_0000 == 0xFFFF_FFFF
                    || (global.y + offset.y) % 0x1_0000_0000 == 0xFFFF_FFFF
                    || (global.z + offset.z) % 0x1_0000_0000 == 0xFFFF_FFFF
            then CL_INVALID_GLOBAL_OFFSET
            else if local.x * local.y * local.z % 0x1_0000_0000 > d.qpus * d.mergeFactor
                    || (local.x != 0 && global.x % local.x != 0) || (local.y != 0 && global.y % local.y != 0)
                    || (local.z != 0 && global.z % local.z != 0)
            then CL_INVALID_WORK_GROUP_SIZE
            else CL_SUCCESS
  {
  }

  /** The offset test lets every sum of 32-bit numbers through but one, as larger ones wrap around. */
  lemma OffsetTestExact(size: nat, offset: nat)
    requires size <= MAX_WORK_ITEM_DIMENSION && offset < WORD_MODULUS
    ensures (size + offset) % WORD_MODULUS <= MAX_WORK_ITEM_DIMENSION <==> size + offset != 0xFFFF_FFFF
  {
  }

  /** The local sizes used for a request. */
  predicate IsLocalChoice(local: Point, r: Request, compile: Point, global: Point, d: Device) {
    match r.local
    case Some(given) => local == Extend(given, r.workDim, 1)
    case None => if CompileSizesFit(compile, global, d) then local == compile else IsGlobalSplit(local, global, d)
  }

  method RunChecks(offsets: array<nat>, sizes: array<nat>, locals: array<nat>, d: Device) returns (err: int)
    requires offsets.Length == sizes.Length == locals.Length == 3
    ensures err == CheckSizes(At(offsets), At(sizes), At(locals), d)
  {
    if sizes[0] > MAX_WORK_ITEM_DIMENSION || sizes[1] > MAX_WORK_ITEM_DIMENSION || sizes[2] > MAX_WORK_ITEM_DIMENSION {
      return CL_INVALID_GLOBAL_WORK_SIZE;
    }
    if (sizes[0] + offsets[0]) % WORD_MODULUS > MAX_WORK_ITEM_DIMENSION
       || (sizes[1] + offsets[1]) % WORD_MODULUS > MAX_WORK_ITEM_DIMENSION
       || (sizes[2] + offsets[2]) % WORD_MODULUS > MAX_WORK_ITEM_DIMENSION {
      return CL_INVALID_GLOBAL_OFFSET;
    }
    if Product(At(locals)) > d.MaxGroupSize() {
      return CL_INVALID_WORK_GROUP_SIZE;
    }
    for i := 0 to 3
      invariant forall j :: 0 <= j < i ==> (locals[j] != 0 ==> sizes[j] % locals[j] == 0)
    {
      if locals[i] != 0 && sizes[i] % locals[i] != 0 {
        return CL_INVALID_WORK_GROUP_SIZE;
      }
    }
    return CL_SUCCESS;
  }

  /** setWorkGroupSizes, after the checks of the context, the program and the arguments. */
  method SetWorkGroupSizes(r: Request, compile: Point, d: Device,
                           offsets: array<nat>, sizes: array<nat>, locals: array<nat>) returns (err: int)
    requires offsets.Length == sizes.Length == locals.Length == 3
    requires offsets != sizes && offsets != locals && sizes != locals
    requires CompileSizesValid(compile) && d.Sane()
    modifies offsets, sizes, locals
    ensures !(1 <= r.workDim <= 3) ==> err == CL_INVALID_WORK_DIMENSION
    ensures 1 <= r.workDim <= 3 && r.size.None? ==> err == CL_INVALID_GLOBAL_WORK_SIZE
    ensures 1 <= r.workDim <= 3 && r.size.Some? ==>
      && sizes[0] == r.size.value.x && sizes[1] == (if r.workDim > 1 then r.size.value.y else 1)
      && sizes[2] == (if r.workDim > 2 then r.size.value.z else 1)
    ensures 1 <= r.workDim <= 3 && r.size.Some? ==>
      && offsets[0] == (if r.offset.Some? then r.offset.value.x else 0)
      && offsets[1] == (if r.offset.Some? && r.workDim > 1 then r.offset.value.y else 0)
      && offsets[2] == (if r.offset.Some? && r.workDim > 2 then r.offset.value.z else 0)
    ensures 1 <= r.workDim <= 3 && r.size.Some? ==>
      var mismatch := r.local.Some? && compile.x != 0 && r.local.value.x != compile.x
                      && (r.workDim == 1 || r.local.value.y != compile.y)
                      && (r.workDim <= 2 || r.local.value.z != compile.z);
      var limit := d.qpus * d.mergeFactor;
      && (!mismatch && r.local.Some? ==>
            && locals[0] == r.local.value.x && locals[1] == (if r.workDim > 1 then r.local.value.y else 1)
            && locals[2] == (if r.workDim > 2 then r.local.value.z else 1))
      && (err == if mismatch then CL_INVALID_WORK_GROUP_SIZE
                 else if sizes[0] > 0xFFFF_FFFE || sizes[1] > 0xFFFF_FFFE || sizes[2] > 0xFFFF_FFFE
                 then CL_INVALID_GLOBAL_WORK_SIZE
                 else if (sizes[0] + offsets[0]) % 0x1_0000_0000 == 0xFFFF_FFFF
                         || (sizes[1] + offsets[1]) % 0x1_0000_0000 == 0xFFFF_FFFF
                         || (sizes[2] + offsets[2]) % 0x1_0000_0000 == 0xFFFF_FFFF
                 then CL_INVALID_GLOBAL_OFFSET
                 else if locals[0] * locals[1] * locals[2] % 0x1_0000_0000 > limit
                         || (locals[0] != 0 && sizes[0] % locals[0] != 0)
                         || (locals[1] != 0 && sizes[1] % locals[1] != 0)
                         || (locals[2] != 0 && sizes[2] % locals[2] != 0)
                 then CL_INVALID_WORK_GROUP_SIZE
                 else CL_SUCCESS)
    ensures 1 <= r.workDim <= 3 && r.size.Some? && r.local.None? ==>
      var limit := d.qpus * d.mergeFactor;
      if && compile.x != 0 && sizes[0] % compile.x == 0 && sizes[1] % compile.y == 0 && sizes[2] % compile.z == 0
         && compile.x * compile.y * compile.z % 0x1_0000_0000 <= limit
      then locals[0] == compile.x && locals[1] == compile.y && locals[2] == compile.z
      else if sizes[0] * sizes[1] * sizes[2] % 0x1_0000_0000 <= limit
      then locals[0] == sizes[0] && locals[1] == sizes[1] && locals[2] == sizes[2]
      else && locals[1] == locals[2] == 1 && 0 < locals[0] <= limit && sizes[0] % locals[0] == 0
           && forall n :: locals[0] < n <= limit ==> sizes[0] % n != 0
  {
    hide CheckSizes, IsGlobalSplit, CompileSizesFit, Product, Divides;
    err := ChooseWorkGroupSizes(r, compile, d, offsets, sizes, locals);
    CheckSizesExact(At(offsets), At(sizes), At(locals), d);
    if r.local.None? && 1 <= r.workDim <= 3 && r.size.Some? {
      OwnChoiceExact(At(locals), compile, At(sizes), d);
    }
  }

  /** The same, in terms of the functions above. */
  method ChooseWorkGroupSizes(r: Request, compile: Point, d: Device,
                              offsets: array<nat>, sizes: array<nat>, locals: array<nat>) returns (err: int)
    requires offsets.Length == sizes.Length == locals.Length == 3
    requires offsets != sizes && offsets != locals && sizes != locals
    requires CompileSizesValid(compile) && d.Sane()
    modifies offsets, sizes, locals
    ensures !(1 <= r.workDim <= 3) ==> err == CL_INVALID_WORK_DIMENSION
    ensures 1 <= r.workDim <= 3 && r.size.None? ==> err == CL_INVALID_GLOBAL_WORK_SIZE
    ensures 1 <= r.workDim <= 3 && r.size.Some? ==>
      && At(sizes) == Extend(r.size.value, r.workDim, 1)
      && At(offsets) == (if r.offset.Some? then Extend(r.offset.value, r.workDim, 0) else Point(0, 0, 0))
      && (if r.local.Some? && CompileMismatch(compile, r.local.value, r.workDim)
          then err == CL_INVALID_WORK_GROUP_SIZE
          else && IsLocalChoice(At(locals), r, compile, At(sizes), d)
               && err == CheckSizes(At(offsets), At(sizes), At(locals), d))
  {
    if r.workDim > 3 || r.workDim < 1 {
      return CL_INVALID_WORK_DIMENSION;
    }
    if r.size.None? {
      return CL_INVALID_GLOBAL_WORK_SIZE;
    }
    SetAll(offsets, if r.offset.None? then Point(0, 0, 0) else Extend(r.offset.value, r.workDim, 0));
    SetAll(sizes, Extend(r.size.value, r.workDim, 1));
    if r.local.None? {
      var ok := SplitCompileWorkSize(compile, At(sizes), locals, d);
      if !ok {
        err := SplitGlobalWorkSize(At(sizes), locals, d);
        if err != CL_SUCCESS {
          return;
        }
      }
    } else if CompileMismatch(compile, r.local.value, r.workDim) {
      return CL_INVALID_WORK_GROUP_SIZE;
    } else {
      SetAll(locals, Extend(r.local.value, r.workDim, 1));
    }
    err := RunChecks(offsets, sizes, locals, d);
  }

  /** The sizes the driver chooses itself: those of the compiler, the whole range, or the largest divisor of a line. */
  lemma OwnChoiceExact(local: Point, compile: Point, global: Point, d: Device)
    requires CompileSizesValid(compile)
    requires if CompileSizesFit(compile, global, d) then local == compile else IsGlobalSplit(local, global, d)
    ensures var limit := d.qpus * d.mergeFactor;
      if && compile.x != 0 && global.x % compile.x == 0 && global.y % compile.y == 0 && global.z % compile.z == 0
         && compile.x * compile.y * compile.z % 0x1_0000_0000 <= limit
      then local == compile
      else if global.x * global.y * global.z % 0x1_0000_0000 <= limit then local == global
      else && local.y == local.z == 1 && 0 < local.x <= limit && global.x % local.x == 0
           && forall n :: local.x < n <= limit ==> global.x % n != 0
  {
  }

  // ---------- what accepted sizes mean for the launch ----------

  /**
   Accepted sizes always fit the device, so the size check of executeKernel never rejects them, and the groups tile the
   global range exactly.
   */
  lemma AcceptedSizesExecute(offset: Point, global: Point, local: Point, d: Device)
    requires d.Sane() && CheckSizes(offset, global, local, d) == CL_SUCCESS
    ensures QpuCount(local, d.mergeFactor) <= d.qpus
    ensures local.x > 0 && local.y > 0 && local.z > 0 ==> Scaled(Groups(global, local), local) == global
  {
    CeilDivIsLeast(Product(local), d.mergeFactor, d.qpus);
  }

  /** The local sizes the driver chooses itself always pass the group checks. */
  lemma OwnChoiceAccepted(local: Point, r: Request, compile: Point, global: Point, d: Device)
    requires d.Sane() && r.local.None? && IsLocalChoice(local, r, compile, global, d)
    ensures Product(local) <= d.MaxGroupSize() && Divides(local, global)
  {
    if !CompileSizesFit(compile, global, d) && Product(global) > d.MaxGroupSize() {
      assert Volume(local) == local.x;
    }
  }

  /**
   An accepted launch without merged work-items works on every point of the global range, each exactly once, if and only
   if the number of items of a group does not wrap around 32 bits.
   */
  lemma AcceptedLaunchCovers(offset: Point, global: Point, local: Point, d: Device)
    requires d.Sane() && d.mergeFactor == 1 && CheckSizes(offset, global, local, d) == CL_SUCCESS
    requires local.x > 0 && local.y > 0 && local.z > 0
    ensures var groups, qpus := Groups(global, local), QpuCount(local, 1);
      && qpus <= |Points(local)|
      && ((forall p | Inside(p, global) :: exists k: nat, q: nat ::
             k < Volume(groups) && q < qpus && Used(k, q, groups, local) && ItemOf(k, q, groups, local) == p)
          <==> Volume(local) < WORD_MODULUS || global.x == 0 || global.y == 0 || global.z == 0)
  {
    var groups, qpus := Groups(global, local), QpuCount(local, 1);
    AcceptedSizesExecute(offset, global, local, d);
    QpuCountBound(local, 1);
    NDRangeCoveredOnce(groups, local);
    assert qpus == Product(local);
    if Volume(local) >= WORD_MODULUS && global.x > 0 && global.y > 0 && global.z > 0 {
      LastItemMissed(groups, local);
    }
  }

  lemma LastItemMissed(groups: Point, local: Point)
    requires local.x > 0 && local.y > 0 && local.z > 0 && groups.x > 0 && groups.y > 0 && groups.z > 0
    requires Volume(local) >= WORD_MODULUS && |Points(local)| == Volume(local)
    ensures var p := GlobalId(Point(0, 0, 0), Point(local.x - 1, local.y - 1, local.z - 1), local);
      && Inside(p, Scaled(groups, local))
      && forall k: nat, q: nat | q < Product(local) && Used(k, q, groups, local) :: ItemOf(k, q, groups, local) != p
  {
    var last := Point(local.x - 1, local.y - 1, local.z - 1);
    GlobalIdInside(Point(0, 0, 0), last, groups, local);
    RankLast(last, local);
    PointAtRank(last, local);
    PointsCoverBox(local);
    PointsCoverBox(groups);
    forall k: nat, q: nat | q < Product(local) && Used(k, q, groups, local)
      ensures ItemOf(k, q, groups, local) != GlobalId(Point(0, 0, 0), last, local)
    {
      if ItemOf(k, q, groups, local) == GlobalId(Point(0, 0, 0), last, local) {
        assert Points(local)[q] in Points(local);
        GlobalIdInjective(Points(groups)[k], Points(local)[q], Point(0, 0, 0), last, local);
        assert false;
      }
    }
  }

  /** An accepted launch whose group size is 0 modulo 32 bits: executeKernel needs no QPU for it and starts nothing. */
  lemma WrappedLaunchExample(d: Device)
    requires d.Sane()
    ensures CheckSizes(ORIGIN, Point(65536, 65536, 1), Point(65536, 65536, 1), d) == CL_SUCCESS
    ensures QpuCount(Point(65536, 65536, 1), d.mergeFactor) == 0
  {
  }

  /** An accepted launch with merged work-items whose second line is worked on by nobody. */
  lemma MergedLaunchExample()
    ensures CheckSizes(ORIGIN, Point(8, 2, 1), Point(8, 2, 1), Device(12, 2)) == CL_SUCCESS
    ensures !GroupCovered(Point(8, 2, 1), 2)
    ensures !RangeCovered(Point(1, 1, 1), Point(8, 2, 1), 2)
  {
    GroupCoveredExact(Point(8, 2, 1), 2);
    RangeCoveredExact(Point(1, 1, 1), Point(8, 2, 1), 2);
  }
}
