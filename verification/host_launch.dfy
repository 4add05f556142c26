/** One launch by the current host driver (`pocl_vortex_run`): the empty
    NDRange skip, the occupancy check, the buffer of a kernel_args_t header
    followed by the arguments, and the upload of the program binary. */
module HostLaunch {
  import opened Base
  import opened Grid
  import opened Layout
  import opened ArgBuffer
  import opened ArgStores

  /** The NDRange of a command, as pocl_context holds it. */
  datatype NDRange = NDRange(workDim: nat, numGroups: Coord, localSize: Coord, globalOffset: Coord)

  /** Component i of a 3-vector: x, y, then z. */
  function Dim(c: Coord, i: nat): nat
  {
    if i == 0 then c.x else if i == 1 then c.y else c.z
  }

  /** The product of the first n components. */
  function Product(c: Coord, n: nat): nat
    requires n <= 3
  {
    if n == 0 then 1 else Product(c, n - 1) * Dim(c, n - 1)
  }

  /** The same product as the host computes it, in uint32. */
  function Product32(c: Coord, n: nat): (r: nat)
    requires n <= 3
    ensures r < U32
  {
    if n == 0 then 1 else (Product32(c, n - 1) * Dim(c, n - 1)) % U32
  }

  /** Without overflow, the uint32 product is the product. */
  lemma {:induction false} Product32Exact(c: Coord, n: nat)
    requires n <= 3 && Product(c, n) < U32
    ensures Product32(c, n) == Product(c, n)
  {
    if n > 0 {
      var d := Dim(c, n - 1);
      if d == 0 {
        assert Product32(c, n) == 0;
      } else {
        MulAtLeast(d, Product(c, n - 1));
        assert Product(c, n - 1) * d >= Product(c, n - 1) by {
          assert Product(c, n - 1) * d == d * Product(c, n - 1);
        }
        Product32Exact(c, n - 1);
        ModBelow(Product(c, n), U32);
      }
    }
  }

  /** A product of naturals is 0 exactly when one factor is. */
  lemma {:induction false} ProductZero(c: Coord, n: nat)
    requires n <= 3
    ensures Product(c, n) == 0 <==> exists i :: 0 <= i < n && Dim(c, i) == 0
  {
    if n > 0 {
      ProductZero(c, n - 1);
      if Product(c, n - 1) != 0 && Dim(c, n - 1) != 0 {
        MulAtLeast(Dim(c, n - 1), Product(c, n - 1));
        assert Product(c, n) == Dim(c, n - 1) * Product(c, n - 1);
      }
    }
  }

  /** The host returns without launching when either uint32 product over
      the first work_dim dimensions, of the group counts or of the local
      size, is 0. */
  predicate LaunchSkipped(r: NDRange)
    requires r.workDim <= 3
  {
    Product32(r.numGroups, r.workDim) == 0 || Product32(r.localSize, r.workDim) == 0
  }

  /** Without overflow, a launch is skipped exactly when some used
      dimension has no groups or no work-items. */
  lemma SkippedIffEmpty(r: NDRange)
    requires r.workDim <= 3
    requires Product(r.numGroups, r.workDim) < U32 && Product(r.localSize, r.workDim) < U32
    ensures LaunchSkipped(r)
            <==> exists i :: 0 <= i < r.workDim && (Dim(r.numGroups, i) == 0 || Dim(r.localSize, i) == 0)
  {
    Product32Exact(r.numGroups, r.workDim);
    Product32Exact(r.localSize, r.workDim);
    ProductZero(r.numGroups, r.workDim);
    ProductZero(r.localSize, r.workDim);
  }

  /** The group count is computed in uint32: a 65536 x 65536 grid of
      groups counts as 0 groups, and the launch is skipped. */
  lemma GroupCountWraps(r: NDRange)
    requires r == NDRange(2, Coord(65536, 65536, 1), Coord(1, 1, 1), Coord(0, 0, 0))
    ensures LaunchSkipped(r)
    ensures forall i :: 0 <= i < r.workDim ==> Dim(r.numGroups, i) > 0 && Dim(r.localSize, i) > 0
  {
    assert Product32(r.numGroups, 1) == 65536;
    assert 65536 * 65536 == U32;
  }

  /** The occupancy check, made only for groups of more than one
      work-item: `available` is what the device query reports, None when
      the query fails. The comparison converts the int it reports to
      uint32. */
  function Occupancy(groupSize: nat, lms: nat, available: Option<int>): (r: Result<()>)
    ensures groupSize == 1 ==> r.Ok?
    ensures groupSize != 1 && available.Some? && 0 <= available.value + U32 && available.value < 0 ==>
              (r.Abort? <==> lms > available.value + U32)
  {
    if groupSize == 1 then Ok(())
    else
      match available
      case None => Abort("POCL_VORTEX_RUN")
      case Some(a) =>
        NegativeToUnsigned(a);
        if lms > a % U32 then Abort("out of local memory") else Ok(())
  }

  /** With a well-formed report, a launch of several work-items per group
      aborts exactly when it needs more local memory than is available;
      needing exactly what is available passes. Single work-item groups are
      never checked. */
  lemma OccupancyAbortsIff(groupSize: nat, lms: nat, available: Option<int>)
    ensures groupSize == 1 ==> Occupancy(groupSize, lms, available).Ok?
    ensures groupSize != 1 && available.None? ==> Occupancy(groupSize, lms, available).Abort?
    ensures groupSize != 1 && available.Some? && 0 <= available.value < U32 ==>
              (Occupancy(groupSize, lms, available).Abort? <==> lms > available.value)
  {
    if available.Some? && 0 <= available.value < U32 {
      ModBelow(available.value, U32);
    }
  }

  /** aligned_kernel_args_size: the header rounded up to the pointer
      size, 44 bytes on a 32-bit device and 48 on a 64-bit one. */
  function ArgsBase(ptr: nat): (r: nat)
    requires IsAlign(ptr)
    ensures r == if ptr == 4 then 44 else 48
  {
    AlignStep(40, 4, ptr);
    AlignOffset(KernelArgsSize, ptr)
  }

  /** kargs_buffer_size. */
  function KargsSize(items: seq<Arg>, ptr: nat): nat
    requires IsAlign(ptr)
  {
    ArgsBase(ptr) + AbufSize(items, ptr)
  }

  /** The header the host fills from the command. */
  function Header(r: NDRange, kernelId: nat): KernelArgs
  {
    KernelArgs(r.workDim, r.numGroups, r.localSize, r.globalOffset, kernelId)
  }

  /** What a call does: nothing, or start the kernel with an argument
      buffer and a program binary, possibly uploading that binary first. */
  datatype Outcome =
    | Skipped
    | Started(buffer: seq<byte>, binary: nat, uploaded: bool)

  /** The binary a launch runs, given the binary already on the device
      (None before the first upload). As written, the first binary stays
      for every later launch; corrected, a launch of another program
      uploads its own. */
  function BinaryFor(v: Variant, loaded: Option<nat>, program: nat): (r: (nat, bool))
    ensures v == Corrected ==> r.0 == program
  {
    match v
    case AsWritten => if loaded.None? then (program, true) else (loaded.value, false)
    case Corrected => if loaded == Some(program) then (program, false) else (program, true)
  }

  /** One `pocl_vortex_run`: `junk` is what malloc returns for the
      kargs_buffer_size bytes of the host buffer, `program` names the
      command's program binary and `loaded` the binary already on the
      device. */
  function Run(v: Variant, r: NDRange, items: seq<Arg>, ptr: nat, kernelId: nat, program: nat,
               available: Option<int>, loaded: Option<nat>, junk: seq<byte>): (res: Result<Outcome>)
    requires IsAlign(ptr) && r.workDim <= 3 && |junk| == KargsSize(items, ptr)
    ensures res == Ok(Skipped) <==> LaunchSkipped(r)
    ensures res.Ok? && res.value.Started? ==> Plain(items) && |res.value.buffer| == KargsSize(items, ptr)
  {
    if LaunchSkipped(r) then Ok(Skipped)
    else
      match Occupancy(Product32(r.localSize, r.workDim), LocalMemSize(items), available)
      case Abort(e) => Abort(e)
      case Ok(_) =>
        var base := ArgsBase(ptr);
        match HostArgs(v, items, ptr, junk[base..])
        case Abort(e) => Abort(e)
        case Ok(args) =>
          var (binary, uploaded) := BinaryFor(v, loaded, program);
          Ok(Started(EncodeKernelArgs(Header(r, kernelId)) + junk[KernelArgsSize..base] + args, binary, uploaded))
  }

  /** A launch is skipped exactly when the NDRange is empty in uint32; the
      occupancy check comes before any argument is stored, and an image or
      sampler argument then aborts the launch. */
  lemma RunOrder(v: Variant, r: NDRange, items: seq<Arg>, ptr: nat, kernelId: nat, program: nat,
                 available: Option<int>, loaded: Option<nat>, junk: seq<byte>)
    requires IsAlign(ptr) && r.workDim <= 3 && |junk| == KargsSize(items, ptr)
    ensures Run(v, r, items, ptr, kernelId, program, available, loaded, junk) == Ok(Skipped) <==> LaunchSkipped(r)
    ensures !LaunchSkipped(r) && Occupancy(Product32(r.localSize, r.workDim), LocalMemSize(items), available).Abort?
            ==> Run(v, r, items, ptr, kernelId, program, available, loaded, junk)
                == Abort(Occupancy(Product32(r.localSize, r.workDim), LocalMemSize(items), available).reason)
    ensures !LaunchSkipped(r) && Occupancy(Product32(r.localSize, r.workDim), LocalMemSize(items), available).Ok?
            && !Plain(items)
            ==> Run(v, r, items, ptr, kernelId, program, available, loaded, junk) == Abort("POCL_VORTEX_RUN")
  {
  }

  /** A started launch hands the device a buffer of kargs_buffer_size
      bytes: the header, the padding malloc left, then the host's copy of
      the arguments. */
  lemma RunBuffer(v: Variant, r: NDRange, items: seq<Arg>, ptr: nat, kernelId: nat, program: nat,
                  available: Option<int>, loaded: Option<nat>, junk: seq<byte>)
    requires IsAlign(ptr) && r.workDim <= 3 && |junk| == KargsSize(items, ptr)
    requires Run(v, r, items, ptr, kernelId, program, available, loaded, junk).Ok?
    requires Run(v, r, items, ptr, kernelId, program, available, loaded, junk).value.Started?
    ensures var b := Run(v, r, items, ptr, kernelId, program, available, loaded, junk).value.buffer;
      && |b| == KargsSize(items, ptr)
      && b[..KernelArgsSize] == EncodeKernelArgs(Header(r, kernelId))
      && HostArgs(v, items, ptr, junk[ArgsBase(ptr)..]).Ok?
      && b[ArgsBase(ptr)..] == HostArgs(v, items, ptr, junk[ArgsBase(ptr)..]).value
  {
    var base := ArgsBase(ptr);
    var h := EncodeKernelArgs(Header(r, kernelId));
    var pad := junk[KernelArgsSize..base];
    var args := HostArgs(v, items, ptr, junk[base..]).value;
    assert (h + pad + args)[..KernelArgsSize] == h;
    assert (h + pad + args)[base..] == args;
  }

  /** As written, once one program's binary is on the device every later
      launch runs it, whatever program the command belongs to. */
  lemma StaleBinary(r: NDRange, items: seq<Arg>, ptr: nat, kernelId: nat, program: nat,
                    available: Option<int>, first: nat, junk: seq<byte>)
    requires IsAlign(ptr) && r.workDim <= 3 && |junk| == KargsSize(items, ptr)
    requires first != program
    requires Run(AsWritten, r, items, ptr, kernelId, program, available, Some(first), junk).Ok?
    requires Run(AsWritten, r, items, ptr, kernelId, program, available, Some(first), junk).value.Started?
    ensures var o := Run(AsWritten, r, items, ptr, kernelId, program, available, Some(first), junk).value;
      o.binary == first != program && !o.uploaded
  {
  }

  /** Corrected, a started launch always runs its own program's binary,
      and uploads it exactly when it is not the one already loaded. */
  lemma OwnBinary(r: NDRange, items: seq<Arg>, ptr: nat, kernelId: nat, program: nat,
                  available: Option<int>, loaded: Option<nat>, junk: seq<byte>)
    requires IsAlign(ptr) && r.workDim <= 3 && |junk| == KargsSize(items, ptr)
    requires Run(Corrected, r, items, ptr, kernelId, program, available, loaded, junk).Ok?
    requires Run(Corrected, r, items, ptr, kernelId, program, available, loaded, junk).value.Started?
    ensures var o := Run(Corrected, r, items, ptr, kernelId, program, available, loaded, junk).value;
      o.binary == program && (o.uploaded <==> loaded != Some(program))
  {
  }
}
