/** The launch context both host drivers store in front of the kernel
    arguments: `kernel_context_t`, thirteen 32-bit fields, padded to
    ALIGNED_CTX_SIZE bytes, and the fixed device address the legacy driver
    uploads it to. */
module Layout {
  import opened Base
  import opened Grid

  /** KERNEL_ARG_BASE_ADDR. */
  const KernelArgBaseAddr: nat := 0x7fff0000

  /** sizeof(kernel_context_t): thirteen uint32_t fields, no padding. */
  const KernelContextSize: nat := 13 * 4

  /** ALIGNED_CTX_SIZE: the context size rounded up to whole 32-bit words. */
  function AlignedCtxSize(): (r: nat)
    ensures r % 4 == 0 && KernelContextSize <= r < KernelContextSize + 4
    ensures r == 52
  {
    4 * ((KernelContextSize + 3) / 4)
  }

  /** kernel_context_t, field by field. */
  datatype KernelContext = KernelContext(
    numGroups: Coord,
    globalOffset: Coord,
    localSize: Coord,
    printfBuffer: nat,
    printfBufferPosition: nat,
    printfBufferCapacity: nat,
    workDim: nat)

  /** The fields in declaration order. */
  function ContextWords(c: KernelContext): (r: seq<nat>)
    ensures |r| == 13
  {
    [c.numGroups.x, c.numGroups.y, c.numGroups.z,
     c.globalOffset.x, c.globalOffset.y, c.globalOffset.z,
     c.localSize.x, c.localSize.y, c.localSize.z,
     c.printfBuffer, c.printfBufferPosition, c.printfBufferCapacity,
     c.workDim]
  }

  /** The context as the device reads it from memory. */
  function ContextOfWords(w: seq<nat>): KernelContext
    requires |w| == 13
  {
    KernelContext(Coord(w[0], w[1], w[2]), Coord(w[3], w[4], w[5]), Coord(w[6], w[7], w[8]),
                  w[9], w[10], w[11], w[12])
  }

  /** Each field truncated to its uint32_t slot. */
  function Truncate(c: KernelContext): KernelContext
  {
    ContextOfWords(seq(13, i requires 0 <= i < 13 => ContextWords(c)[i] % U32))
  }

  /** The bytes of a context written by memcpy. */
  function EncodeContext(c: KernelContext): (r: seq<byte>)
    ensures |r| == KernelContextSize
  {
    Words32(ContextWords(c))
  }

  function DecodeContext(b: seq<byte>): KernelContext
    requires |b| >= KernelContextSize
  {
    ContextOfWords(ReadWords32(b, 13))
  }

  /** The device reads back every field the host stored, truncated to 32
      bits. */
  lemma ContextRoundTrip(c: KernelContext)
    ensures DecodeContext(EncodeContext(c)) == Truncate(c)
  {
    Words32RoundTrip(ContextWords(c));
  }

  /** kernel_args_t, the header the current driver stores in front of the
      arguments: eleven uint32_t fields. */
  datatype KernelArgs = KernelArgs(
    workDim: nat,
    numGroups: Coord,
    localSize: Coord,
    globalOffset: Coord,
    kernelId: nat)

  /** sizeof(kernel_args_t). */
  const KernelArgsSize: nat := 11 * 4

  /** The fields in declaration order. */
  function KernelArgsWords(k: KernelArgs): (r: seq<nat>)
    ensures |r| == 11
  {
    [k.workDim,
     k.numGroups.x, k.numGroups.y, k.numGroups.z,
     k.localSize.x, k.localSize.y, k.localSize.z,
     k.globalOffset.x, k.globalOffset.y, k.globalOffset.z,
     k.kernelId]
  }

  function KernelArgsOfWords(w: seq<nat>): KernelArgs
    requires |w| == 11
  {
    KernelArgs(w[0], Coord(w[1], w[2], w[3]), Coord(w[4], w[5], w[6]), Coord(w[7], w[8], w[9]), w[10])
  }

  function EncodeKernelArgs(k: KernelArgs): (r: seq<byte>)
    ensures |r| == KernelArgsSize
  {
    Words32(KernelArgsWords(k))
  }

  /** The header as the device reads it: every field is a uint32. */
  function DecodeKernelArgs(b: seq<byte>): (k: KernelArgs)
    requires |b| >= KernelArgsSize
    ensures forall i :: 0 <= i < 11 ==> KernelArgsWords(k)[i] < U32
  {
    Words32Below(b, 11);
    KernelArgsOfWords(ReadWords32(b, 11))
  }

  /** The device reads back every kernel_args_t field the host stored,
      truncated to 32 bits. */
  lemma KernelArgsRoundTrip(k: KernelArgs)
    ensures DecodeKernelArgs(EncodeKernelArgs(k))
         == KernelArgsOfWords(seq(11, i requires 0 <= i < 11 => KernelArgsWords(k)[i] % U32))
  {
    Words32RoundTrip(KernelArgsWords(k));
  }
}
