/** The OpenCL C work-item functions on the device (workitems.c). Each reads
    the launch geometry the device runtime keeps for the calling thread
    (gridDim, blockDim, blockIdx, threadIdx) or the work dimension and
    global offset the device entry stored. All of them are 32-bit values
    and the arithmetic is done in uint32. */
module WorkItems {
  import opened Base
  import opened Grid
  import opened Layout
  import opened HostLaunch
  import opened DeviceEntry

  /** What one work-item sees. */
  datatype View = View(gridDim: Coord, blockDim: Coord, blockIdx: Coord, threadIdx: Coord,
                       globalOffset: Coord, workDim: int)

  predicate Coord32(c: Coord)
  {
    c.x < U32 && c.y < U32 && c.z < U32
  }

  /** Every field fits its 32-bit C type. */
  predicate Valid(w: View)
  {
    && Coord32(w.gridDim) && Coord32(w.blockDim) && Coord32(w.blockIdx)
    && Coord32(w.threadIdx) && Coord32(w.globalOffset)
    && -0x8000_0000 <= w.workDim < 0x8000_0000
  }

  /** The thread lies inside its block and the block inside the grid. */
  predicate Inside(w: View)
  {
    && InGrid(w.threadIdx, w.blockDim.x, w.blockDim.y, w.blockDim.z)
    && InGrid(w.blockIdx, w.gridDim.x, w.gridDim.y, w.gridDim.z)
  }

  /** The functions taking a dimension index. */
  datatype Query = NumGroups | LocalSize | GlobalOffset | GroupId | LocalId | GlobalSize | GlobalId

  /** The component a switch on dimindx reads: 1 is y, 2 is z, and every
      other value takes the default branch, x. */
  function Axis(dimindx: nat): (d: nat)
    ensures d < 3
  {
    if dimindx == 1 then 1 else if dimindx == 2 then 2 else 0
  }

  /** A query's value in dimension d, computed without overflow. */
  function Exact(q: Query, w: View, d: nat): nat
  {
    match q
    case NumGroups => Dim(w.gridDim, d)
    case LocalSize => Dim(w.blockDim, d)
    case GlobalOffset => Dim(w.globalOffset, d)
    case GroupId => Dim(w.blockIdx, d)
    case LocalId => Dim(w.threadIdx, d)
    case GlobalSize => Dim(w.blockDim, d) * Dim(w.gridDim, d)
    case GlobalId => Dim(w.blockIdx, d) * Dim(w.blockDim, d) + Dim(w.threadIdx, d) + Dim(w.globalOffset, d)
  }

  /** What section 6.15.1 of the OpenCL C 3.0 specification returns for a
      dimension index out of range: 1 for counts and sizes, 0 for ids and
      offsets. */
  function OutOfRange(q: Query): nat
  {
    if q == NumGroups || q == LocalSize || q == GlobalSize then 1 else 0
  }

  /** get_num_groups ... get_global_id. A sum of products computed in
      uint32 is the exact value modulo 2^32. As written every index other
      than 1 and 2 reads x; corrected, an index of 3 or more gives the
      standard's out-of-range value. */
  function Get(v: Variant, q: Query, w: View, dimindx: nat): (r: nat)
    ensures r < U32
    ensures Valid(w) && dimindx < 3 && q != GlobalSize && q != GlobalId ==> r == Exact(q, w, dimindx)
  {
    if v == Corrected && dimindx >= 3 then OutOfRange(q)
    else Exact(q, w, Axis(dimindx)) % U32
  }

  /** get_work_dim: g_work_dim, an int, returned as uint32. */
  function WorkDim(w: View): (r: nat)
    ensures r < U32
    ensures 0 <= w.workDim < U32 ==> r == w.workDim
    ensures 0 <= w.workDim + U32 && w.workDim < 0 ==> r == w.workDim + U32
  {
    NegativeToUnsigned(w.workDim);
    w.workDim % U32
  }

  /** The two readings agree on the indices 0, 1 and 2; as written every
      other index reads x, where the standard answers 1 or 0. */
  lemma DimIndexFallsToX(q: Query, w: View, dimindx: nat)
    ensures dimindx < 3 ==> Get(AsWritten, q, w, dimindx) == Get(Corrected, q, w, dimindx)
    ensures dimindx >= 3 ==> Get(AsWritten, q, w, dimindx) == Get(AsWritten, q, w, 0)
    ensures dimindx >= 3 ==> Get(Corrected, q, w, dimindx) == OutOfRange(q)
  {
  }

  /** A work-item whose block is 4 wide asking for get_local_size(3) is
      told 4 where the standard says 1. */
  lemma LocalSizeOutOfRange(w: View)
    requires w.blockDim.x == 4
    ensures Get(AsWritten, LocalSize, w, 3) == 4
    ensures Get(Corrected, LocalSize, w, 3) == 1
  {
    ModBelow(4, U32);
  }

  /** Without overflow every query is its exact value; the plain fields
      never overflow. */
  lemma GetExact(v: Variant, q: Query, w: View, d: nat)
    requires Valid(w) && d < 3
    requires Exact(q, w, d) < U32
    ensures Get(v, q, w, d) == Exact(q, w, d)
  {
    ModBelow(Exact(q, w, d), U32);
  }

  /** Inside the grid, a global id less the global offset stays below the
      global size: get_global_id(d) - get_global_offset(d) ranges over
      [0, get_global_size(d)). */
  lemma GlobalIdBelowSize(w: View, d: nat)
    requires Inside(w) && d < 3
    ensures Exact(GlobalId, w, d) - Dim(w.globalOffset, d) < Exact(GlobalSize, w, d)
  {
    var b, n, t := Dim(w.blockIdx, d), Dim(w.blockDim, d), Dim(w.threadIdx, d);
    MulMono(b, Dim(w.gridDim, d) - 1, n);
    assert (Dim(w.gridDim, d) - 1) * n + n == n * Dim(w.gridDim, d);
  }

  /** When the global size fits in 32 bits the global id is the group id
      times the local size plus the local id plus the offset, as the
      standard defines it. */
  lemma GlobalIdComposes(v: Variant, w: View, d: nat)
    requires Valid(w) && Inside(w) && d < 3
    requires Exact(GlobalSize, w, d) + Dim(w.globalOffset, d) < U32
    ensures Get(v, GlobalId, w, d)
            == Get(v, GroupId, w, d) * Get(v, LocalSize, w, d) + Get(v, LocalId, w, d) + Get(v, GlobalOffset, w, d)
  {
    GlobalIdBelowSize(w, d);
    GetExact(v, GlobalId, w, d);
    GetExact(v, GroupId, w, d);
    GetExact(v, LocalSize, w, d);
    GetExact(v, LocalId, w, d);
    GetExact(v, GlobalOffset, w, d);
  }

  /** get_local_linear_id, exactly. */
  function LocalLinearExact(w: View): nat
  {
    w.threadIdx.z * w.blockDim.y * w.blockDim.x + w.threadIdx.y * w.blockDim.x + w.threadIdx.x
  }

  /** get_local_linear_id in uint32. */
  function LocalLinearId(w: View): (r: nat)
    ensures r < U32
  {
    LocalLinearExact(w) % U32
  }

  /** The local linear id is the row-major position of the thread in its
      block, below the block's size. */
  lemma LocalLinearIdEncodes(w: View)
    requires Inside(w)
    requires w.blockDim.x * w.blockDim.y * w.blockDim.z <= U32
    ensures LocalLinearId(w) == Encode(w.threadIdx, w.blockDim.x, w.blockDim.y)
    ensures LocalLinearId(w) < w.blockDim.x * w.blockDim.y * w.blockDim.z
  {
    var t, b := w.threadIdx, w.blockDim;
    assert t.z * b.y * b.x == t.z * (b.x * b.y);
    EncodeBelow(t, b.x, b.y, b.z);
    ModBelow(Encode(t, b.x, b.y), U32);
  }

  /** Two threads of one block with the same local linear id are the same
      thread. */
  lemma LocalLinearIdInjective(w: View, w': View)
    requires Inside(w) && Inside(w') && w.blockDim == w'.blockDim
    requires w.blockDim.x * w.blockDim.y * w.blockDim.z <= U32
    requires LocalLinearId(w) == LocalLinearId(w')
    ensures w.threadIdx == w'.threadIdx
  {
    LocalLinearIdEncodes(w);
    LocalLinearIdEncodes(w');
    DecodeEncode(w.threadIdx, w.blockDim.x, w.blockDim.y);
    DecodeEncode(w'.threadIdx, w.blockDim.x, w.blockDim.y);
  }

  /** The global id less the offset in each dimension. */
  function GlobalCoord(w: View): Coord
  {
    Coord(w.blockIdx.x * w.blockDim.x + w.threadIdx.x,
          w.blockIdx.y * w.blockDim.y + w.threadIdx.y,
          w.blockIdx.z * w.blockDim.z + w.threadIdx.z)
  }

  /** get_global_linear_id, exactly: as written the x term scales the group
      index by blockDim.z; corrected, by blockDim.x. */
  function GlobalLinearExact(v: Variant, w: View): nat
  {
    var g, b := w.gridDim, w.blockDim;
    var xScale := if v == AsWritten then b.z else b.x;
    (w.blockIdx.z * b.z + w.threadIdx.z) * b.y * g.y * b.x * g.x
    + (w.blockIdx.y * b.y + w.threadIdx.y) * b.x * g.x
    + (w.blockIdx.x * xScale + w.threadIdx.x)
  }

  /** get_global_linear_id in uint32. */
  function GlobalLinearId(v: Variant, w: View): (r: nat)
    ensures r < U32
    ensures GlobalLinearExact(v, w) < U32 ==> r == GlobalLinearExact(v, w)
    ensures v == Corrected ==>
              r == Encode(GlobalCoord(w), w.blockDim.x * w.gridDim.x, w.blockDim.y * w.gridDim.y) % U32
  {
    CorrectedGlobalLinear(w);
    GlobalLinearExact(v, w) % U32
  }

  /** Corrected, the global linear id is the row-major position of the
      work-item's global coordinate in the global range. */
  lemma CorrectedGlobalLinear(w: View)
    ensures GlobalLinearExact(Corrected, w)
            == Encode(GlobalCoord(w), w.blockDim.x * w.gridDim.x, w.blockDim.y * w.gridDim.y)
  {
    var g, b, c := w.gridDim, w.blockDim, GlobalCoord(w);
    assert c.z * b.y * g.y * b.x * g.x == c.z * ((b.x * g.x) * (b.y * g.y));
    assert c.y * b.x * g.x == c.y * (b.x * g.x);
  }

  /** As written, the global linear id is the standard's exactly when the
      group's x index is 0 or the block is as wide as it is deep. */
  lemma AsWrittenGlobalLinearIff(w: View)
    ensures GlobalLinearExact(AsWritten, w) == GlobalLinearExact(Corrected, w)
            <==> w.blockIdx.x == 0 || w.blockDim.x == w.blockDim.z
  {
    var i := w.blockIdx.x;
    if i != 0 && w.blockDim.x != w.blockDim.z {
      if w.blockDim.x < w.blockDim.z {
        MulStrict(i, w.blockDim.x, w.blockDim.z);
      } else {
        MulStrict(i, w.blockDim.z, w.blockDim.x);
      }
    }
  }

  /** A positive factor keeps a strict order. */
  lemma MulStrict(i: nat, a: nat, b: nat)
    requires i > 0 && a < b
    ensures i * a < i * b
  {
    assert i * b == i * a + i * (b - a);
    MulAtLeast(i, b - a);
  }

  /** Two work-items of a 2 x 1 x 1 grid of 2 x 1 x 1 blocks: the second
      thread of the first block and the first thread of the second block
      get the same global linear id as written, and different ones
      corrected. */
  lemma GlobalLinearCollision(w: View, w': View)
    requires w.gridDim == w'.gridDim == Coord(2, 1, 1) && w.blockDim == w'.blockDim == Coord(2, 1, 1)
    requires w.blockIdx == Coord(0, 0, 0) && w.threadIdx == Coord(1, 0, 0)
    requires w'.blockIdx == Coord(1, 0, 0) && w'.threadIdx == Coord(0, 0, 0)
    ensures Inside(w) && Inside(w') && GlobalCoord(w) != GlobalCoord(w')
    ensures GlobalLinearId(AsWritten, w) == GlobalLinearId(AsWritten, w') == 1
    ensures GlobalLinearId(Corrected, w) == 1 && GlobalLinearId(Corrected, w') == 2
  {
    ModBelow(1, U32);
    ModBelow(2, U32);
  }

  /** The device entry sets g_work_dim from the header's uint32 work_dim,
      and get_work_dim hands the same uint32 back. */
  lemma WorkDimFromHeader(v: Variant, buf: seq<byte>, ptr: nat, w: View)
    requires IsAlign(ptr) && |buf| >= KernelArgsSize
    requires w.workDim == Main(v, buf, ptr).workDim
    ensures WorkDim(w) == DecodeKernelArgs(buf).workDim
  {
    var x := DecodeKernelArgs(buf).workDim;
    assert x < U32 by { Words32Below(buf, 11); }
    if x >= 0x8000_0000 {
      assert w.workDim == x - U32;
      DivModUnique(x, U32, 0, x);
      assert (x - U32) % U32 == x;
    } else {
      ModBelow(x, U32);
    }
  }
}
