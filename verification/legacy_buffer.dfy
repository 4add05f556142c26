/** The argument buffer of the legacy driver (`pocl_vortex_run` in
    vortex.cc): the launch context padded to ALIGNED_CTX_SIZE, a table of
    one 32-bit slot per argument, then a data region. Slots hold the device
    address of the argument's data, which lives at the fixed
    KERNEL_ARG_BASE_ADDR plus its offset in the buffer. Offsets here are
    from the start of the buffer. */
module LegacyBuffer {
  import opened Base
  import opened Layout
  import opened ArgBuffer
  import opened HostLaunch

  /** PRINT_BUFFER_SIZE, stored as the printf capacity. */
  const PrintBufferSize: nat := 1024 * 1024

  /** The largest buffer the driver accepts. */
  const MaxBufSize: nat := 0xffff

  /** The context the legacy driver stores: the command's NDRange and the
      device's printf buffer. */
  function LegacyContext(r: NDRange, printfBuffer: nat, printfPosition: nat): KernelContext
  {
    KernelContext(r.numGroups, r.globalOffset, r.localSize,
                  printfBuffer, printfPosition, PrintBufferSize, r.workDim)
  }

  // ---------------------------------------------------------------------
  // The size pass

  /** The data bytes the size pass reserves for an argument. A local
      pointer on a device that allocates locals itself is a pointer
      argument and reserves 4 bytes like one. */
  function Reserved(a: Arg, alloca: bool): nat
  {
    match a
    case LocalArg(s) => if alloca then 4 else 4 + s
    case ScalarArg(v) => |v|
    case _ => 4
  }

  function ReservedTotal(items: seq<Arg>, alloca: bool): nat
    decreases |items|
  {
    if |items| == 0 then 0 else Reserved(items[0], alloca) + ReservedTotal(items[1..], alloca)
  }

  /** Where the data region starts: after the context and one slot for
      each explicit argument and each automatic local. */
  function DataStart(n: nat, numLocals: nat): nat
  {
    AlignedCtxSize() + 4 * (n + numLocals)
  }

  /** abuf_size. */
  function LegacySize(items: seq<Arg>, numLocals: nat, alloca: bool): nat
  {
    DataStart(|items|, numLocals) + ReservedTotal(items, alloca)
  }

  // ---------------------------------------------------------------------
  // The write pass

  /** The data bytes the write pass actually fills for an argument. */
  function Used(a: Arg): nat
  {
    match a
    case PointerArg(_) => 4
    case ScalarArg(v) => |v|
    case _ => 0
  }

  function UsedTotal(items: seq<Arg>): nat
    decreases |items|
  {
    if |items| == 0 then 0 else Used(items[0]) + UsedTotal(items[1..])
  }

  /** The arguments the write pass stores without aborting: locals only
      when the device allocates them, never images or samplers. */
  predicate Legal(a: Arg, alloca: bool)
  {
    match a
    case LocalArg(_) => alloca
    case ImageArg => false
    case SamplerArg => false
    case _ => true
  }

  /** The data the driver stores for a pointer or scalar argument: a NULL
      pointer as 32 zero bits, a buffer as its device address plus the
      argument's offset within it, cut to 32 bits, a scalar as its bytes. */
  function Payload(a: Arg): seq<byte>
  {
    match a
    case PointerArg(None) => Zeros(4)
    case PointerArg(Some(m)) => LE(m.bufAddress + m.offset, 4)
    case ScalarArg(v) => v
    case _ => []
  }

  /** The word an argument's slot receives: the size of a local, otherwise
      the device address of the argument's data. */
  function SlotWord(a: Arg, at: nat): nat
  {
    if a.LocalArg? then a.size else KernelArgBaseAddr + at
  }

  /** The stores for one argument, with its slot at `slot` and the data
      region's next free byte at `at`: the slot word, then, for anything
      but a local, the data. */
  function StoreArg(buf: seq<byte>, a: Arg, slot: nat, at: nat): (r: seq<byte>)
    requires slot + 4 <= at && at + Used(a) <= |buf|
    ensures |r| == |buf|
  {
    var b := Splice(buf, Write(slot, LE(SlotWord(a, at), 4)));
    if a.LocalArg? then b else Splice(b, Write(at, Payload(a)))
  }

  /** The write-pass loop: each argument's stores in turn, one slot after
      the other, the data region advancing by what each argument fills. */
  function PassBuf(buf: seq<byte>, items: seq<Arg>, slot: nat, at: nat): (r: seq<byte>)
    requires slot + 4 * |items| <= at && at + UsedTotal(items) <= |buf|
    ensures |r| == |buf|
    decreases |items|
  {
    if |items| == 0 then buf
    else PassBuf(StoreArg(buf, items[0], slot, at), items[1..], slot + 4, at + Used(items[0]))
  }

  /** The context zeroed to ALIGNED_CTX_SIZE bytes, then the context
      itself stored over it. */
  function WriteHeader(junk: seq<byte>, ctx: KernelContext): (r: seq<byte>)
    requires AlignedCtxSize() <= |junk|
    ensures |r| == |junk|
  {
    Splice(Splice(junk, Write(0, Zeros(AlignedCtxSize()))), Write(0, EncodeContext(ctx)))
  }

  /** The buffer the legacy driver uploads, from the abuf_size bytes of
      uninitialised staging memory `junk`; an oversized buffer fails the
      size assertion, and a local on a device without local allocation, an
      image or a sampler aborts the process. */
  function LegacyRun(items: seq<Arg>, numLocals: nat, alloca: bool, r: NDRange,
                     printfBuffer: nat, printfPosition: nat, junk: seq<byte>): (res: Result<seq<byte>>)
    requires |junk| == LegacySize(items, numLocals, alloca)
    ensures res.Ok? ==> |res.value| == |junk|
  {
    if LegacySize(items, numLocals, alloca) > MaxBufSize then Abort("abuf_size <= 0xffff")
    else if exists i :: 0 <= i < |items| && !Legal(items[i], alloca) then Abort("std::abort")
    else
      var ctx := LegacyContext(r, printfBuffer, printfPosition);
      UsedWithinReserved(items, alloca);
      Ok(PassBuf(WriteHeader(junk, ctx), items, AlignedCtxSize(), DataStart(|items|, numLocals)))
  }

  /** Where the data of argument k goes. */
  function DataOffset(items: seq<Arg>, numLocals: nat, k: nat): nat
    requires k <= |items|
  {
    DataStart(|items|, numLocals) + UsedTotal(items[..k])
  }

  // ---------------------------------------------------------------------
  // Sizes

  lemma {:induction false} UsedTotalConcat(s: seq<Arg>, t: seq<Arg>)
    ensures UsedTotal(s + t) == UsedTotal(s) + UsedTotal(t)
    decreases |s|
  {
    if |s| == 0 {
      assert s + t == t;
    } else {
      assert (s + t)[1..] == s[1..] + t;
      UsedTotalConcat(s[1..], t);
    }
  }

  /** The number of local arguments. */
  function LocalCount(items: seq<Arg>): nat
    decreases |items|
  {
    if |items| == 0 then 0 else (if items[0].LocalArg? then 1 else 0) + LocalCount(items[1..])
  }

  /** For arguments the write pass accepts, the size pass reserves exactly
      what the write pass fills plus 4 unused bytes per local argument. */
  lemma {:induction false} ReservedSlack(items: seq<Arg>, alloca: bool)
    requires forall i :: 0 <= i < |items| ==> Legal(items[i], alloca)
    ensures ReservedTotal(items, alloca) == UsedTotal(items) + 4 * LocalCount(items)
    decreases |items|
  {
    if |items| > 0 {
      assert Legal(items[0], alloca);
      ReservedSlack(items[1..], alloca);
    }
  }

  /** Whatever the arguments, the write pass fills no more than the size
      pass reserves. */
  lemma {:induction false} UsedWithinReserved(items: seq<Arg>, alloca: bool)
    ensures UsedTotal(items) <= ReservedTotal(items, alloca)
    decreases |items|
  {
    if |items| > 0 {
      UsedWithinReserved(items[1..], alloca);
    }
  }

  /** An accepted buffer: its data region ends exactly at abuf_size less
      the slack of the local arguments, and it fits below 0xffff. */
  lemma LegacySizeAccounts(items: seq<Arg>, numLocals: nat, alloca: bool, r: NDRange,
                           printfBuffer: nat, printfPosition: nat, junk: seq<byte>)
    requires |junk| == LegacySize(items, numLocals, alloca)
    ensures LegacyRun(items, numLocals, alloca, r, printfBuffer, printfPosition, junk).Ok?
            <==> LegacySize(items, numLocals, alloca) <= MaxBufSize
                 && forall i :: 0 <= i < |items| ==> Legal(items[i], alloca)
    ensures LegacyRun(items, numLocals, alloca, r, printfBuffer, printfPosition, junk).Ok? ==>
              LegacySize(items, numLocals, alloca)
              == AlignedCtxSize() + 4 * (|items| + numLocals) + UsedTotal(items) + 4 * LocalCount(items)
  {
    if LegacyRun(items, numLocals, alloca, r, printfBuffer, printfPosition, junk).Ok? {
      ReservedSlack(items, alloca);
    }
  }

  // ---------------------------------------------------------------------
  // What the stores leave

  /** The stores for one argument leave its slot holding its word and its
      data region holding its data. */
  lemma StoreEffect(buf: seq<byte>, a: Arg, slot: nat, at: nat)
    requires slot + 4 <= at && at + Used(a) <= |buf|
    ensures StoreArg(buf, a, slot, at)[slot..slot + 4] == LE(SlotWord(a, at), 4)
    ensures StoreArg(buf, a, slot, at)[at..at + Used(a)] == Payload(a)
  {
    var v := Write(slot, LE(SlotWord(a, at), 4));
    var b := Splice(buf, v);
    SpliceRead(buf, v);
    if !a.LocalArg? {
      var w := Write(at, Payload(a));
      SpliceKeep(b, w, slot, slot + 4);
      SpliceRead(b, w);
    }
  }

  /** The stores for one argument leave every byte outside its slot and
      its data as they were. */
  lemma StoreKeeps(buf: seq<byte>, a: Arg, slot: nat, at: nat, lo: nat, hi: nat)
    requires slot + 4 <= at && at + Used(a) <= |buf|
    requires lo <= hi <= |buf| && (hi <= slot || slot + 4 <= lo) && (hi <= at || at + Used(a) <= lo)
    ensures StoreArg(buf, a, slot, at)[lo..hi] == buf[lo..hi]
  {
    var v := Write(slot, LE(SlotWord(a, at), 4));
    SpliceKeep(buf, v, lo, hi);
    if !a.LocalArg? {
      SpliceKeep(Splice(buf, v), Write(at, Payload(a)), lo, hi);
    }
  }

  /** The write pass leaves every byte outside the slots and the data the
      arguments fill as it was. */
  lemma {:induction false} PassKeeps(buf: seq<byte>, items: seq<Arg>, slot: nat, at: nat, lo: nat, hi: nat)
    requires slot + 4 * |items| <= at && at + UsedTotal(items) <= |buf|
    requires lo <= hi <= |buf|
    requires (hi <= slot || slot + 4 * |items| <= lo) && (hi <= at || at + UsedTotal(items) <= lo)
    ensures PassBuf(buf, items, slot, at)[lo..hi] == buf[lo..hi]
    decreases |items|
  {
    if |items| > 0 {
      var a1 := at + Used(items[0]);
      StoreKeeps(buf, items[0], slot, at, lo, hi);
      PassKeeps(StoreArg(buf, items[0], slot, at), items[1..], slot + 4, a1, lo, hi);
    }
  }

  /** What argument k finds in `b` when the pass over `items` put its
      slots from `slot` and its data from `at`: its slot holds its word and
      its data its value. */
  predicate ReadsBack(b: seq<byte>, items: seq<Arg>, slot: nat, at: nat, k: nat)
    requires k < |items|
  {
    var d := at + UsedTotal(items[..k]);
    && d + Used(items[k]) <= |b| && slot + 4 * k + 4 <= |b|
    && b[slot + 4 * k .. slot + 4 * k + 4] == LE(SlotWord(items[k], d), 4)
    && b[d .. d + Used(items[k])] == Payload(items[k])
  }

  /** Read-back: after the write pass, argument k's slot holds its word and
      its data its value, whatever the other arguments are. */
  lemma {:induction false} PassReadBack(buf: seq<byte>, items: seq<Arg>, slot: nat, at: nat, k: nat)
    requires k < |items|
    requires slot + 4 * |items| <= at && at + UsedTotal(items) <= |buf|
    ensures ReadsBack(PassBuf(buf, items, slot, at), items, slot, at, k)
    decreases k
  {
    var a1 := at + Used(items[0]);
    var buf' := StoreArg(buf, items[0], slot, at);
    if k == 0 {
      StoreEffect(buf, items[0], slot, at);
      PassKeeps(buf', items[1..], slot + 4, a1, slot, slot + 4);
      PassKeeps(buf', items[1..], slot + 4, a1, at, a1);
      FirstFromSlices(PassBuf(buf', items[1..], slot + 4, a1), buf', items, slot, at);
    } else {
      PassReadBack(buf', items[1..], slot + 4, a1, k - 1);
      ShiftReads(PassBuf(buf', items[1..], slot + 4, a1), items, slot, at, k);
    }
  }

  /** The first argument reads back from `b` when `b` keeps its slot and
      its data as its own stores left them in `buf`. */
  lemma FirstFromSlices(b: seq<byte>, buf: seq<byte>, items: seq<Arg>, slot: nat, at: nat)
    requires 0 < |items| && slot + 4 <= at && at + Used(items[0]) <= |buf| == |b|
    requires buf[slot..slot + 4] == LE(SlotWord(items[0], at), 4)
    requires buf[at..at + Used(items[0])] == Payload(items[0])
    requires b[slot..slot + 4] == buf[slot..slot + 4]
    requires b[at..at + Used(items[0])] == buf[at..at + Used(items[0])]
    ensures ReadsBack(b, items, slot, at, 0)
  {
    assert items[..0] == [];
  }

  /** What argument k - 1 of the arguments from the second on finds in `b`
      is what argument k of all of them finds. */
  lemma ShiftReads(b: seq<byte>, items: seq<Arg>, slot: nat, at: nat, k: nat)
    requires 0 < k < |items|
    requires ReadsBack(b, items[1..], slot + 4, at + Used(items[0]), k - 1)
    ensures ReadsBack(b, items, slot, at, k)
  {
    assert items[1..][..k - 1] == items[..k][1..];
    assert UsedTotal(items[..k]) == Used(items[0]) + UsedTotal(items[..k][1..]);
    assert items[1..][k - 1] == items[k];
  }

  /** The context stores leave the context in front of the buffer and the
      rest as it was. */
  lemma HeaderEffect(junk: seq<byte>, ctx: KernelContext)
    requires AlignedCtxSize() <= |junk|
    ensures WriteHeader(junk, ctx) == EncodeContext(ctx) + junk[AlignedCtxSize()..]
  {
    var n := AlignedCtxSize();
    assert Splice(junk, Write(0, Zeros(n)))[n..] == junk[n..];
  }

  /** An accepted launch uploads the write pass applied to the context
      stores. */
  lemma RunIs(items: seq<Arg>, numLocals: nat, alloca: bool, r: NDRange,
              printfBuffer: nat, printfPosition: nat, junk: seq<byte>)
    requires |junk| == LegacySize(items, numLocals, alloca)
    requires LegacyRun(items, numLocals, alloca, r, printfBuffer, printfPosition, junk).Ok?
    ensures DataStart(|items|, numLocals) + UsedTotal(items) <= |junk|
    ensures LegacyRun(items, numLocals, alloca, r, printfBuffer, printfPosition, junk).value
            == PassBuf(WriteHeader(junk, LegacyContext(r, printfBuffer, printfPosition)),
                       items, AlignedCtxSize(), DataStart(|items|, numLocals))
  {
    UsedWithinReserved(items, alloca);
  }

  /** What the device finds through the slots of a launch: the context in
      front, and for argument k a slot holding its word and, at the device
      address in a non-local's slot, the argument's data. */
  lemma LegacyReadBack(items: seq<Arg>, numLocals: nat, alloca: bool, r: NDRange,
                       printfBuffer: nat, printfPosition: nat, junk: seq<byte>, k: nat)
    requires |junk| == LegacySize(items, numLocals, alloca)
    requires LegacyRun(items, numLocals, alloca, r, printfBuffer, printfPosition, junk).Ok?
    requires k < |items|
    ensures var b := LegacyRun(items, numLocals, alloca, r, printfBuffer, printfPosition, junk).value;
      && b[..AlignedCtxSize()] == EncodeContext(LegacyContext(r, printfBuffer, printfPosition))
      && ReadsBack(b, items, AlignedCtxSize(), DataStart(|items|, numLocals), k)
  {
    var ctx := LegacyContext(r, printfBuffer, printfPosition);
    RunIs(items, numLocals, alloca, r, printfBuffer, printfPosition, junk);
    var h := WriteHeader(junk, ctx);
    assert h[..AlignedCtxSize()] == EncodeContext(ctx) by {
      HeaderEffect(junk, ctx);
    }
    PassReadBackFrom(h, EncodeContext(ctx), items, numLocals, k);
  }

  /** The pass over the arguments, from a buffer whose first
      ALIGNED_CTX_SIZE bytes hold `front`, leaves them there and lets
      argument k read back. */
  lemma PassReadBackFrom(h: seq<byte>, front: seq<byte>, items: seq<Arg>, numLocals: nat, k: nat)
    requires k < |items| && DataStart(|items|, numLocals) + UsedTotal(items) <= |h|
    requires h[..AlignedCtxSize()] == front
    ensures var b := PassBuf(h, items, AlignedCtxSize(), DataStart(|items|, numLocals));
      b[..AlignedCtxSize()] == front && ReadsBack(b, items, AlignedCtxSize(), DataStart(|items|, numLocals), k)
  {
    var n := AlignedCtxSize();
    var start := DataStart(|items|, numLocals);
    PassReadBack(h, items, n, start, k);
    PassKeepsFront(h, items, n, start);
  }

  /** The pass leaves the bytes in front of its slots as they were. */
  lemma PassKeepsFront(h: seq<byte>, items: seq<Arg>, n: nat, start: nat)
    requires n + 4 * |items| <= start && start + UsedTotal(items) <= |h|
    ensures PassBuf(h, items, n, start)[..n] == h[..n]
  {
    var b := PassBuf(h, items, n, start);
    PassKeeps(h, items, n, start, 0, n);
    assert b[..n] == b[0..n] && h[..n] == h[0..n];
  }

  /** Nothing else changes: the slots of the automatic locals and the bytes
      reserved past the data keep whatever the staging memory held. */
  lemma LegacyLeavesRest(items: seq<Arg>, numLocals: nat, alloca: bool, r: NDRange,
                         printfBuffer: nat, printfPosition: nat, junk: seq<byte>)
    requires |junk| == LegacySize(items, numLocals, alloca)
    requires LegacyRun(items, numLocals, alloca, r, printfBuffer, printfPosition, junk).Ok?
    ensures var b := LegacyRun(items, numLocals, alloca, r, printfBuffer, printfPosition, junk).value;
      var slotsEnd := AlignedCtxSize() + 4 * |items|;
      var dataEnd := DataOffset(items, numLocals, |items|);
      && b[slotsEnd..DataStart(|items|, numLocals)] == junk[slotsEnd..DataStart(|items|, numLocals)]
      && dataEnd <= |b| && b[dataEnd..] == junk[dataEnd..]
  {
    var ctx := LegacyContext(r, printfBuffer, printfPosition);
    RunIs(items, numLocals, alloca, r, printfBuffer, printfPosition, junk);
    var h := WriteHeader(junk, ctx);
    assert h[AlignedCtxSize()..] == junk[AlignedCtxSize()..] by {
      HeaderEffect(junk, ctx);
    }
    PassLeavesFrom(h, junk, items, numLocals);
  }

  /** The pass over the arguments, from a buffer that agrees with `junk`
      past the context, leaves the automatic-local slots and the bytes past
      the data as `junk` has them. */
  lemma PassLeavesFrom(h: seq<byte>, junk: seq<byte>, items: seq<Arg>, numLocals: nat)
    requires |h| == |junk| && DataStart(|items|, numLocals) + UsedTotal(items) <= |h|
    requires h[AlignedCtxSize()..] == junk[AlignedCtxSize()..]
    ensures var b := PassBuf(h, items, AlignedCtxSize(), DataStart(|items|, numLocals));
      var slotsEnd := AlignedCtxSize() + 4 * |items|;
      var dataEnd := DataOffset(items, numLocals, |items|);
      && b[slotsEnd..DataStart(|items|, numLocals)] == junk[slotsEnd..DataStart(|items|, numLocals)]
      && dataEnd <= |b| && b[dataEnd..] == junk[dataEnd..]
  {
    var n := AlignedCtxSize();
    var start := DataStart(|items|, numLocals);
    var slotsEnd := n + 4 * |items|;
    var b := PassBuf(h, items, n, start);
    assert items[..|items|] == items;
    var dataEnd := start + UsedTotal(items);
    assert b[slotsEnd..start] == junk[slotsEnd..start] by {
      PassKeeps(h, items, n, start, slotsEnd, start);
      SuffixSlice(h, junk, n, slotsEnd, start);
    }
    assert b[dataEnd..] == junk[dataEnd..] by {
      PassKeeps(h, items, n, start, dataEnd, |h|);
      SuffixSlice(h, junk, n, dataEnd, |h|);
      assert b[dataEnd..] == b[dataEnd..|h|];
      assert junk[dataEnd..] == junk[dataEnd..|h|];
    }
  }

  /** Sequences that agree from n on agree on any range past n. */
  lemma SuffixSlice(h: seq<byte>, junk: seq<byte>, n: nat, lo: nat, hi: nat)
    requires |h| == |junk| && n <= lo <= hi <= |h| && h[n..] == junk[n..]
    ensures h[lo..hi] == junk[lo..hi]
  {
    forall p | lo <= p < hi
      ensures h[p] == junk[p]
    {
      assert h[n..][p - n] == junk[n..][p - n];
    }
  }

  /** The data of the arguments lie one after the other from the end of
      the slot table: an argument's data ends where that of any later
      argument begins, or before. */
  lemma DataOffsetsIncrease(items: seq<Arg>, numLocals: nat, j: nat, k: nat)
    requires j < k <= |items|
    ensures AlignedCtxSize() + 4 * |items| <= DataOffset(items, numLocals, 0)
    ensures DataOffset(items, numLocals, j) + Used(items[j]) == DataOffset(items, numLocals, j + 1)
    ensures DataOffset(items, numLocals, j + 1) <= DataOffset(items, numLocals, k)
  {
    assert items[..j + 1] == items[..j] + [items[j]];
    UsedTotalConcat(items[..j], [items[j]]);
    assert items[..k] == items[..j + 1] + items[j + 1..k];
    UsedTotalConcat(items[..j + 1], items[j + 1..k]);
  }

  // ---------------------------------------------------------------------
  // The device side and the kernel binary

  /** The argument pointer the generated wrapper hands the kernel. */
  function WrapperArgs(): nat
  {
    KernelArgBaseAddr + AlignedCtxSize()
  }

  /** A kernel reading its k-th argument through the wrapper's argument
      pointer, on the device memory `b` mapped at KERNEL_ARG_BASE_ADDR,
      finds at args + 4k a device address inside `b` where the value `v`
      lies. */
  predicate WrapperFinds(b: seq<byte>, k: nat, v: seq<byte>)
  {
    var slot := WrapperArgs() - KernelArgBaseAddr + 4 * k;
    && slot + 4 <= |b|
    && var addr := FromLE(b[slot .. slot + 4]);
      && KernelArgBaseAddr <= addr
      && addr - KernelArgBaseAddr + |v| <= |b|
      && b[addr - KernelArgBaseAddr .. addr - KernelArgBaseAddr + |v|] == v
  }

  /** End to end: a kernel reading its k-th pointer or scalar through the
      wrapper's argument pointer finds the argument's data. */
  lemma WrapperFindsArguments(items: seq<Arg>, numLocals: nat, alloca: bool, r: NDRange,
                              printfBuffer: nat, printfPosition: nat, junk: seq<byte>, k: nat)
    requires |junk| == LegacySize(items, numLocals, alloca)
    requires LegacyRun(items, numLocals, alloca, r, printfBuffer, printfPosition, junk).Ok?
    requires k < |items| && !items[k].LocalArg?
    ensures WrapperFinds(LegacyRun(items, numLocals, alloca, r, printfBuffer, printfPosition, junk).value,
                         k, Payload(items[k]))
  {
    var b := LegacyRun(items, numLocals, alloca, r, printfBuffer, printfPosition, junk).value;
    assert |b| <= MaxBufSize;
    LegacyReadBack(items, numLocals, alloca, r, printfBuffer, printfPosition, junk, k);
    SlotLeadsToData(b, items, k, DataStart(|items|, numLocals));
  }

  /** An argument that reads back from slot k, in a buffer that fits the
      16-bit size limit, is found by the wrapper. */
  lemma SlotLeadsToData(b: seq<byte>, items: seq<Arg>, k: nat, start: nat)
    requires k < |items| && !items[k].LocalArg? && |b| <= MaxBufSize
    requires ReadsBack(b, items, AlignedCtxSize(), start, k)
    ensures WrapperFinds(b, k, Payload(items[k]))
  {
    var d := start + UsedTotal(items[..k]);
    LERoundTrip(KernelArgBaseAddr + d, 4);
    Pow256Four();
    PayloadSize(items[k]);
  }

  /** A pointer or scalar's data is as long as what it fills. */
  lemma PayloadSize(a: Arg)
    ensures |Payload(a)| == Used(a)
  {
  }

  /** The device's current binary before and after a launch of `kernel`:
      uploaded when none is loaded or another kernel's is, and recorded. */
  function Reupload(current: Option<nat>, kernel: nat): (r: (bool, Option<nat>))
    ensures r.1 == Some(kernel)
  {
    if current.None? || current.value != kernel then (true, Some(kernel)) else (false, current)
  }

  /** A launch uploads exactly when the device does not already hold the
      kernel's binary, so a second launch of the same kernel never
      uploads. */
  lemma ReuploadOnce(current: Option<nat>, kernel: nat)
    ensures Reupload(current, kernel).0 <==> current != Some(kernel)
    ensures !Reupload(Reupload(current, kernel).1, kernel).0
  {
  }
}
