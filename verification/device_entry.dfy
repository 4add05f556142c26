/** The device's entry point for the current driver (kernel_main.c): it
    reads the kernel_args_t header from the buffer the host started it
    with, sets the work dimension and the global offset the work-item
    functions use, picks the kernel by id and hands it the address of the
    arguments. */
module DeviceEntry {
  import opened Base
  import opened Grid
  import opened Layout
  import opened ArgBuffer
  import opened ArgStores
  import opened ArgReader
  import opened HostLaunch

  /** What `main` sets up before spawning the kernel's threads. */
  datatype Entry = Entry(
    workDim: int,
    globalOffset: Coord,
    numGroups: Coord,
    localSize: Coord,
    kernelId: nat,
    argBase: nat)

  /** Offset i is taken from the header for the used dimensions and is 0
      for the others. */
  function OffsetFor(k: KernelArgs, i: nat, n: int): nat
  {
    if i < n then Dim(k.globalOffset, i) else 0
  }

  /** `main`, on the bytes of the buffer: as written the arguments are
      taken right after the 44-byte header; corrected, after the header
      rounded up to the pointer size, where the host stores them. */
  function Main(v: Variant, buf: seq<byte>, ptr: nat): (e: Entry)
    requires IsAlign(ptr) && |buf| >= KernelArgsSize
    ensures -0x8000_0000 <= e.workDim < 0x8000_0000
    ensures e.workDim <= 0 ==> e.globalOffset == Coord(0, 0, 0)
    ensures e.workDim >= 3 ==> e.globalOffset == DecodeKernelArgs(buf).globalOffset
    ensures KernelArgsSize <= e.argBase <= ArgsBase(ptr)
  {
    var k := DecodeKernelArgs(buf);
    assert k.workDim == KernelArgsWords(k)[0];
    var n := ToInt32(k.workDim);
    Entry(n, Coord(OffsetFor(k, 0, n), OffsetFor(k, 1, n), OffsetFor(k, 2, n)),
          k.numGroups, k.localSize, k.kernelId,
          if v == AsWritten then KernelArgsSize else ArgsBase(ptr))
  }

  /** On a 32-bit device the entry finds the arguments where the host put
      them; on a 64-bit device, as written, it looks 4 bytes too early,
      inside the padding after the header. */
  lemma ArgBaseAgreement(buf: seq<byte>, ptr: nat)
    requires IsAlign(ptr) && |buf| >= KernelArgsSize
    ensures Main(Corrected, buf, ptr).argBase == ArgsBase(ptr)
    ensures Main(AsWritten, buf, ptr).argBase == ArgsBase(ptr) <==> ptr == 4
    ensures ptr == 8 ==> Main(AsWritten, buf, ptr).argBase + 4 == ArgsBase(ptr)
  {
  }

  /** A header the host stored is read back: work_dim, group counts, local
      size and kernel id as stored (within uint32), global offsets for the
      used dimensions and 0 for the rest. */
  lemma EntryReadsHeader(v: Variant, r: NDRange, kernelId: nat, rest: seq<byte>, ptr: nat)
    requires IsAlign(ptr) && 1 <= r.workDim <= 3 && kernelId < U32
    requires r.numGroups.x < U32 && r.numGroups.y < U32 && r.numGroups.z < U32
    requires r.localSize.x < U32 && r.localSize.y < U32 && r.localSize.z < U32
    requires r.globalOffset.x < U32 && r.globalOffset.y < U32 && r.globalOffset.z < U32
    ensures var e := Main(v, EncodeKernelArgs(Header(r, kernelId)) + rest, ptr);
      && e.workDim == r.workDim
      && e.numGroups == r.numGroups && e.localSize == r.localSize && e.kernelId == kernelId
      && (forall i :: 0 <= i < 3 ==> Dim(e.globalOffset, i) == if i < r.workDim then Dim(r.globalOffset, i) else 0)
  {
    var h := EncodeKernelArgs(Header(r, kernelId));
    assert (h + rest)[..KernelArgsSize] == h;
    HeaderPrefix(h, rest);
    KernelArgsRoundTrip(Header(r, kernelId));
    var words := KernelArgsWords(Header(r, kernelId));
    forall i | 0 <= i < 11
      ensures words[i] % U32 == words[i]
    {
      ModBelow(words[i], U32);
    }
    assert seq(11, i requires 0 <= i < 11 => words[i] % U32) == words;
  }

  /** Reading the header looks only at its first 44 bytes. */
  lemma HeaderPrefix(h: seq<byte>, rest: seq<byte>)
    requires |h| == KernelArgsSize
    ensures DecodeKernelArgs(h + rest) == DecodeKernelArgs(h)
  {
    ReadWordsPrefix(h, rest, 11);
  }

  lemma {:induction false} ReadWordsPrefix(h: seq<byte>, rest: seq<byte>, n: nat)
    requires |h| >= 4 * n
    ensures ReadWords32(h + rest, n) == ReadWords32(h, n)
    decreases n
  {
    if n > 0 {
      assert (h + rest)[..4] == h[..4];
      assert (h + rest)[4..] == h[4..] + rest;
      ReadWordsPrefix(h[4..], rest, n - 1);
    }
  }

  /** End to end, corrected: the kernel started by a launch reads, through
      the corrected wrapper at the corrected argument base, exactly the
      value the host meant for each argument. */
  lemma KernelSeesArguments(r: NDRange, params: seq<Param>, items: seq<Arg>, ptr: nat, kernelId: nat,
                            program: nat, available: Option<int>, loaded: Option<nat>, junk: seq<byte>, k: nat)
    requires IsAlign(ptr) && r.workDim <= 3 && |junk| == KargsSize(items, ptr)
    requires Plain(items) && Matches(params, items, ptr) && LocalsNonEmpty(items) && NoWrap(items)
    requires k < |items|
    requires Run(Corrected, r, items, ptr, kernelId, program, available, loaded, junk).Ok?
    requires Run(Corrected, r, items, ptr, kernelId, program, available, loaded, junk).value.Started?
    ensures var b := Run(Corrected, r, items, ptr, kernelId, program, available, loaded, junk).value.buffer;
      var base := Main(Corrected, b, ptr).argBase;
      var l := ReadFrom(Corrected, 0, false, params, ptr)[k];
      && 0 < |l| && base <= |b|
      && l[|l| - 1].at + l[|l| - 1].width <= |b[base..]|
      && Bytes(b[base..], l[|l| - 1]) == Expected(Corrected, items, k, ptr)
  {
    var b := Run(Corrected, r, items, ptr, kernelId, program, available, loaded, junk).value.buffer;
    RunBuffer(Corrected, r, items, ptr, kernelId, program, available, loaded, junk);
    CorrectedReadsArguments(Corrected, params, items, ptr, junk[ArgsBase(ptr)..], k);
  }
}
