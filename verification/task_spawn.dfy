/** The device-side `main` and task callback that the host build emits as
    C text for each program: the power-of-two tests, the choice between the
    core-mapped spawner and the task spawner, and the per-task decode of a
    task id into a workgroup and its local-memory offset. */
module TaskSpawn {
  import opened Base
  import opened Grid
  import Layout

  /** is_log2(x): x & (x - 1) == 0 on a 32-bit int. For x = 0 the
      predecessor is -1, all ones, so the AND is 0 and the test holds. */
  predicate IsLog2(x: nat)
  {
    x == 0 || BitAnd(x, x - 1) == 0
  }

  /** is_log2 accepts exactly 0 and the powers of two. */
  lemma IsLog2Iff(x: nat)
    ensures IsLog2(x) <==> x == 0 || IsPow2(x)
  {
    if x >= 1 {
      BitAndPredecessor(x);
    }
  }

  /** __builtin_clz on a w-bit word: zeros above the highest set bit,
      scanning from bit w-1 down. */
  function LeadingZeros(x: nat, w: nat): (r: nat)
    ensures r <= w
  {
    if w == 0 then 0 else if x >= Pow2(w - 1) then 0 else 1 + LeadingZeros(x, w - 1)
  }

  /** A nonzero w-bit word has its highest set bit at w-1-clz. */
  lemma {:induction false} LeadingZerosBounds(x: nat, w: nat)
    requires 0 < x < Pow2(w)
    ensures LeadingZeros(x, w) < w
    ensures Pow2(w - 1 - LeadingZeros(x, w)) <= x < Pow2(w - LeadingZeros(x, w))
  {
    assert w >= 1;
    if x < Pow2(w - 1) {
      LeadingZerosBounds(x, w - 1);
      assert LeadingZeros(x, w) == 1 + LeadingZeros(x, w - 1);
    } else {
      assert LeadingZeros(x, w) == 0;
    }
  }

  /** log2_fast(x) = 31 - clz(x): the floor of log2 x, for a nonzero word. */
  function Log2Fast(x: nat): (r: nat)
    requires 0 < x < U32
    ensures Pow2(r) <= x < Pow2(r + 1)
  {
    Pow2ThirtyTwo();
    LeadingZerosBounds(x, 32);
    31 - LeadingZeros(x, 32)
  }

  /** A power of two between 2^r and 2^(r+1) is 2^r. */
  lemma {:induction false} Pow2Exact(x: nat, r: nat)
    requires IsPow2(x) && Pow2(r) <= x < Pow2(r + 1)
    ensures x == Pow2(r)
  {
    if r > 0 {
      assert x >= 2;
      Pow2Exact(x / 2, r - 1);
    }
  }

  /** For a power of two, log2_fast is the exact logarithm. */
  lemma Log2FastExact(x: nat)
    requires 0 < x < U32 && IsPow2(x)
    ensures Pow2(Log2Fast(x)) == x
  {
    Pow2Exact(x, Log2Fast(x));
  }

  /** A factor of a power of two is a power of two. */
  lemma {:induction false} Pow2Factor(x: nat, y: nat)
    requires IsPow2(x * y)
    ensures IsPow2(x)
    decreases x + y
  {
    if x * y == 1 {
      assert x == 1;
    } else if x % 2 == 0 {
      assert x * y == 2 * ((x / 2) * y);
      assert (x * y) / 2 == (x / 2) * y;
      Pow2Factor(x / 2, y);
    } else if y % 2 == 0 {
      assert x * y == 2 * (x * (y / 2));
      assert (x * y) / 2 == x * (y / 2);
      Pow2Factor(x, y / 2);
    } else {
      OddProduct(x, y);
      assert false;
    }
  }

  lemma OddProduct(x: nat, y: nat)
    requires x % 2 == 1 && y % 2 == 1
    ensures (x * y) % 2 == 1
  {
    assert x * y == 2 * (x * (y / 2) + x / 2) + 1;
  }

  /** a >> s on a non-negative int. */
  function Shr(a: nat, s: nat): nat
  {
    DivNat(a, Pow2(s));
    a / Pow2(s)
  }

  /** a << s on a non-negative int that does not overflow. */
  function Shl(a: nat, s: nat): nat { a * Pow2(s) }

  /** The scalar fields of wspawn_pocl_kernel_args_t (the context, callback
      and argument pointers are passed through untouched); `localSize` is a
      C int. */
  datatype SpawnArgs = SpawnArgs(localSize: int, isXYpow2: bool, lgXY: nat, lgX: nat)

  /** What the task callback passes to the workgroup function; the local
      offset is a uint32_t parameter. */
  datatype TaskCall = TaskCall(group: Coord, localOffset: nat)

  /** The shift amounts are the exact logarithms of X*Y and X whenever the
      power-of-two flag is set on a nonempty plane. */
  predicate ExactLogs(a: SpawnArgs, ng: Coord)
  {
    a.isXYpow2 && ng.x * ng.y > 0 ==> Pow2(a.lgXY) == ng.x * ng.y && Pow2(a.lgX) == ng.x
  }

  /** The two spawn paths of the emitted main. */
  datatype Entry =
    | SpawnCoreMapped(args: nat)
    | SpawnTasks(args: nat, numTasks: nat, spawn: SpawnArgs)

  /** int overflow is undefined, so the emitted main needs the group counts
      to fit a signed 32-bit int. */
  predicate FitsInt(ng: Coord)
  {
    ng.x * ng.y < 0x8000_0000 && ng.x * ng.y * ng.z < 0x8000_0000
  }

  /** log2_fast of a count below 2^31, or 0 where clz(0) is never read. */
  function Log2OrZero(x: nat): (r: nat)
    requires x < 0x8000_0000
    ensures x > 0 ==> Pow2(r) <= x < Pow2(r + 1)
  {
    if x > 0 then Log2Fast(x) else 0
  }

  /** log2_fast(X), where X*Y fits an int; only read when X*Y > 0. */
  function Log2OfX(x: nat, y: nat): (r: nat)
    requires x * y < 0x8000_0000
    ensures x * y > 0 ==> Pow2(r) <= x < Pow2(r + 1)
  {
    if x * y > 0 then
      MulMono(1, y, x);
      Log2Fast(x)
    else 0
  }

  /** The emitted main: the arguments follow the context at
      ctx + ALIGNED_CTX_SIZE; schedule flag 1 selects the core-mapped
      spawner, anything else the task spawner over X*Y*Z tasks. The
      logarithms of X*Y and X are computed even when unused; when X*Y is 0
      there are no tasks, and clz(0), undefined, is never read (modelled as
      0). */
  function MainEntry(ctxAddr: nat, scheduleFlag: int, ctx: Layout.KernelContext): (e: Entry)
    requires scheduleFlag != 1 ==> FitsInt(ctx.numGroups)
    ensures e.args == ctxAddr + Layout.AlignedCtxSize()
    ensures e.SpawnCoreMapped? <==> scheduleFlag == 1
    ensures e.SpawnTasks? ==> e.numTasks == ctx.numGroups.x * ctx.numGroups.y * ctx.numGroups.z
  {
    var args := ctxAddr + Layout.AlignedCtxSize();
    if scheduleFlag == 1 then SpawnCoreMapped(args)
    else
      var ng := ctx.numGroups;
      var xy := ng.x * ng.y;
      var ls := ctx.localSize;
      var localSize := ToInt32((ls.x * ls.y * ls.z) % U32);
      SpawnTasks(args, xy * ng.z, SpawnArgs(localSize, IsLog2(xy), Log2OrZero(xy), Log2OfX(ng.x, ng.y)))
  }

  /** spawn_pocl_kernel_cb for task `task`: by shifts when X*Y is a power of
      two, else by division. With exact logarithms both paths pass the
      group the division decode names. The local offset is the int product
      task_id * local_size handed over as a uint32_t; a product past the
      int range is taken to wrap. The first ensures, that the grid has a
      column and a row, is what lets the second name the decode. */
  function TaskCallback(a: SpawnArgs, ng: Coord, task: nat): (c: TaskCall)
    requires task < ng.x * ng.y * ng.z
    ensures ng.x >= 1 && ng.y >= 1
    ensures ExactLogs(a, ng) ==> c.group == Decode(task, ng.x, ng.y)
    ensures c.localOffset < U32
    ensures 0 <= task * a.localSize < U32 ==> c.localOffset == task * a.localSize
  {
    PositiveFactors(task, ng);
    var localOffset := (task * a.localSize) % U32;
    if a.isXYpow2 then
      var k := Shr(task, a.lgXY);
      var wg2d := task - Shl(k, a.lgXY);
      var j := Shr(wg2d, a.lgX);
      var i := wg2d - Shl(j, a.lgX);
      if ExactLogs(a, ng) then
        ShiftDecodeAgrees(task, ng.x, ng.y, a.lgXY, a.lgX);
        TaskCall(Coord(i, j, k), localOffset)
      else TaskCall(Coord(i, j, k), localOffset)
    else
      TaskCall(Decode(task, ng.x, ng.y), localOffset)
  }

  /** A grid holding task `task` has at least one column and one row. */
  lemma PositiveFactors(task: nat, ng: Coord)
    requires task < ng.x * ng.y * ng.z
    ensures ng.x >= 1 && ng.y >= 1 && ng.z >= 1 && ng.x * ng.y >= 1
  {
  }

  /** The shift decode equals the division decode whenever the shift
      amounts are the exact logarithms. */
  lemma ShiftDecodeAgrees(task: nat, nx: nat, ny: nat, lgXY: nat, lgX: nat)
    requires nx >= 1 && ny >= 1
    requires Pow2(lgXY) == nx * ny && Pow2(lgX) == nx
    ensures var k := Shr(task, lgXY);
      var wg2d := task - Shl(k, lgXY);
      var j := Shr(wg2d, lgX);
      Coord(wg2d - Shl(j, lgX), j, k) == Decode(task, nx, ny)
  {
  }

  /** Whichever path the emitted main selects, every task's callback runs
      the workgroup the division decode names, with local memory at
      task * (L0*L1*L2) taken modulo 2^32, which is the exact product
      whenever that fits. */
  lemma TaskCallbackDecodes(ctxAddr: nat, scheduleFlag: int, ctx: Layout.KernelContext, task: nat)
    requires FitsInt(ctx.numGroups) && scheduleFlag != 1
    requires task < ctx.numGroups.x * ctx.numGroups.y * ctx.numGroups.z
    ensures var ng := ctx.numGroups;
      var size := ctx.localSize.x * ctx.localSize.y * ctx.localSize.z;
      ng.x >= 1 && ng.y >= 1 &&
      TaskCallback(MainEntry(ctxAddr, scheduleFlag, ctx).spawn, ng, task)
        == TaskCall(Decode(task, ng.x, ng.y), (task * size) % U32)
    ensures var size := ctx.localSize.x * ctx.localSize.y * ctx.localSize.z;
      task * size < U32 ==>
        TaskCallback(MainEntry(ctxAddr, scheduleFlag, ctx).spawn, ctx.numGroups, task).localOffset == task * size
  {
    var size := ctx.localSize.x * ctx.localSize.y * ctx.localSize.z;
    MainSpawnArgs(ctxAddr, scheduleFlag, ctx);
    CallbackOffset(MainEntry(ctxAddr, scheduleFlag, ctx).spawn, ctx.numGroups, task, size);
  }

  /** A local size with the bits of `size` gives the offset task * size
      modulo 2^32, exact when it fits. */
  lemma CallbackOffset(a: SpawnArgs, ng: Coord, task: nat, size: nat)
    requires task < ng.x * ng.y * ng.z
    requires a.localSize % U32 == size % U32
    ensures TaskCallback(a, ng, task).localOffset == (task * size) % U32
    ensures task * size < U32 ==> TaskCallback(a, ng, task).localOffset == task * size
  {
    MulModCongruent(task, a.localSize, size, U32);
    if task * size < U32 {
      ModBelow(task * size, U32);
    }
  }

  /** The spawn arguments main builds: the workgroup's local size as the
      int holding the uint32 product of the three local sizes, and exact
      logarithms whenever the power-of-two flag is set. */
  lemma MainSpawnArgs(ctxAddr: nat, scheduleFlag: int, ctx: Layout.KernelContext)
    requires FitsInt(ctx.numGroups) && scheduleFlag != 1
    ensures var s := MainEntry(ctxAddr, scheduleFlag, ctx).spawn;
      var size := ctx.localSize.x * ctx.localSize.y * ctx.localSize.z;
      && -0x8000_0000 <= s.localSize < 0x8000_0000
      && s.localSize % U32 == size % U32
      && (size < 0x8000_0000 ==> s.localSize == size)
      && ExactLogs(s, ctx.numGroups)
  {
    var ng := ctx.numGroups;
    var xy := ng.x * ng.y;
    var size := ctx.localSize.x * ctx.localSize.y * ctx.localSize.z;
    if size < 0x8000_0000 {
      ModBelow(size, U32);
    }
    if IsLog2(xy) && xy > 0 {
      LogXYExact(xy);
      LogXExact(ng.x, ng.y);
    }
  }

  lemma LogXYExact(xy: nat)
    requires 0 < xy < 0x8000_0000 && IsLog2(xy)
    ensures Pow2(Log2OrZero(xy)) == xy
  {
    IsLog2Iff(xy);
    Log2FastExact(xy);
  }

  lemma LogXExact(x: nat, y: nat)
    requires 0 < x * y < 0x8000_0000 && IsLog2(x * y)
    ensures Pow2(Log2OfX(x, y)) == x
  {
    IsLog2Iff(x * y);
    Pow2Factor(x, y);
    MulMono(1, y, x);
    Log2FastExact(x);
  }

  /** The tasks 0 .. X*Y*Z-1 call the workgroup function once for every
      group of the grid: distinct tasks run distinct groups, and every group
      is run by some task. */
  lemma TasksCoverGrid(ctxAddr: nat, scheduleFlag: int, ctx: Layout.KernelContext)
    requires FitsInt(ctx.numGroups) && scheduleFlag != 1
    ensures var e := MainEntry(ctxAddr, scheduleFlag, ctx);
      var ng := ctx.numGroups;
      && (forall t1, t2 :: 0 <= t1 < t2 < e.numTasks ==>
            TaskCallback(e.spawn, ng, t1).group != TaskCallback(e.spawn, ng, t2).group)
      && (forall c :: InGrid(c, ng.x, ng.y, ng.z) ==>
            exists t :: 0 <= t < e.numTasks && TaskCallback(e.spawn, ng, t).group == c)
  {
    var e := MainEntry(ctxAddr, scheduleFlag, ctx);
    var ng := ctx.numGroups;
    forall t1, t2 | 0 <= t1 < t2 < e.numTasks
      ensures TaskCallback(e.spawn, ng, t1).group != TaskCallback(e.spawn, ng, t2).group
    {
      TaskCallbackDecodes(ctxAddr, scheduleFlag, ctx, t1);
      TaskCallbackDecodes(ctxAddr, scheduleFlag, ctx, t2);
      if Decode(t1, ng.x, ng.y) == Decode(t2, ng.x, ng.y) {
        DecodeInjective(t1, t2, ng.x, ng.y);
      }
    }
    forall c | InGrid(c, ng.x, ng.y, ng.z)
      ensures exists t :: 0 <= t < e.numTasks && TaskCallback(e.spawn, ng, t).group == c
    {
      var t := Encode(c, ng.x, ng.y);
      EncodeBelow(c, ng.x, ng.y, ng.z);
      TaskCallbackDecodes(ctxAddr, scheduleFlag, ctx, t);
      DecodeEncode(c, ng.x, ng.y);
    }
  }
}
