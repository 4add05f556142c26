/** The kernel-argument buffer as the current driver fills it in
    `pocl_vortex_run`: the size pass that computes abuf_size, and the write
    pass that stores every argument into the host copy of the buffer.
    Offsets are relative to the start of the arguments, which follow the
    kernel_args_t header. */
module ArgBuffer {
  import opened Base

  /** A cl_mem argument: the device address of its buffer and the offset of
      the argument within it (non-zero for sub-buffers). */
  datatype MemRef = MemRef(bufAddress: nat, offset: nat)

  /** One kernel argument, by the kind the metadata gives it. */
  datatype Arg =
    | LocalArg(size: nat)
    | PointerArg(mem: Option<MemRef>)
    | ImageArg
    | SamplerArg
    | ScalarArg(value: seq<byte>)

  /** Both passes visit the explicit arguments, then the automatic locals
      of `meta->local_sizes`, which they treat as local arguments. */
  function Items(args: seq<Arg>, localSizes: seq<nat>): (r: seq<Arg>)
    ensures |r| == |args| + |localSizes|
    ensures forall i :: 0 <= i < |args| ==> r[i] == args[i]
    ensures forall i :: 0 <= i < |localSizes| ==> r[|args| + i] == LocalArg(localSizes[i])
  {
    args + seq(|localSizes|, i requires 0 <= i < |localSizes| => LocalArg(localSizes[i]))
  }

  // ---------------------------------------------------------------------
  // The size pass

  /** The bytes the size pass reserves for an item before rounding: a
      32-bit offset for a local, a pointer for a buffer, image or sampler,
      the value for a scalar. */
  function Width(a: Arg, ptr: nat): nat
  {
    match a
    case LocalArg(_) => 4
    case ScalarArg(v) => |v|
    case _ => ptr
  }

  /** The size pass over `items` from offset `off`. */
  function SizeFrom(off: nat, items: seq<Arg>, ptr: nat): (r: nat)
    requires IsAlign(ptr)
    decreases |items|
  {
    if |items| == 0 then off
    else SizeFrom(AlignOffset(off + Width(items[0], ptr), ptr), items[1..], ptr)
  }

  /** The sizes of the local items, in order. */
  function LocalSizes(items: seq<Arg>): (r: seq<nat>)
    ensures |r| <= |items|
  {
    if |items| == 0 then []
    else (if items[0].LocalArg? then [items[0].size] else []) + LocalSizes(items[1..])
  }

  /** local_mem_size: the uint32 sum of every local size. */
  function LocalMemSize(items: seq<Arg>): (r: nat)
    ensures r < U32
  {
    Sum(LocalSizes(items)) % U32
  }

  /** abuf_size: the size pass, plus one rounded 32-bit slot for the
      local-memory size when there is local memory. */
  function AbufSize(items: seq<Arg>, ptr: nat): (r: nat)
    requires IsAlign(ptr)
    ensures LocalMemSize(items) == 0 ==> r == SizeFrom(0, items, ptr)
    ensures LocalMemSize(items) != 0 ==> SizeFrom(0, items, ptr) + 4 <= r < SizeFrom(0, items, ptr) + 4 + ptr
  {
    var s := SizeFrom(0, items, ptr);
    if LocalMemSize(items) != 0 then AlignOffset(s + 4, ptr) else s
  }

  lemma SizeFromCons(off: nat, items: seq<Arg>, ptr: nat)
    requires IsAlign(ptr) && |items| > 0
    ensures SizeFrom(off, items, ptr) == SizeFrom(AlignOffset(off + Width(items[0], ptr), ptr), items[1..], ptr)
  {
  }

  /** The size pass commutes with a shift of its start by whole slots. */
  lemma {:induction false} SizeFromShift(off: nat, m: nat, items: seq<Arg>, ptr: nat)
    requires IsAlign(ptr) && m % ptr == 0
    ensures SizeFrom(off + m, items, ptr) == SizeFrom(off, items, ptr) + m
    decreases |items|
  {
    if |items| > 0 {
      var w := Width(items[0], ptr);
      AlignShift(off + w, m, ptr);
      assert off + m + w == (off + w) + m;
      SizeFromShift(AlignOffset(off + w, ptr), m, items[1..], ptr);
    }
  }

  /** From an aligned start the size pass ends aligned, and never before
      its start. */
  lemma {:induction false} SizeFromAligned(off: nat, items: seq<Arg>, ptr: nat)
    requires IsAlign(ptr) && off % ptr == 0
    ensures SizeFrom(off, items, ptr) % ptr == 0 && SizeFrom(off, items, ptr) >= off
    decreases |items|
  {
    if |items| > 0 {
      SizeFromAligned(AlignOffset(off + Width(items[0], ptr), ptr), items[1..], ptr);
    }
  }

  /** abuf_size is a whole number of pointer-sized slots, and reserves a
      rounded slot for the size of local memory whenever there is any. */
  lemma AbufSizeAligned(items: seq<Arg>, ptr: nat)
    requires IsAlign(ptr)
    ensures AbufSize(items, ptr) % ptr == 0
    ensures AbufSize(items, ptr) >= SizeFrom(0, items, ptr) + (if LocalMemSize(items) != 0 then 4 else 0)
  {
    SizeFromAligned(0, items, ptr);
  }

  // ---------------------------------------------------------------------
  // The write pass

  /** The address the host stores for a non-NULL buffer argument. */
  function PointerValue(v: Variant, m: MemRef): nat
  {
    match v
    case AsWritten => m.bufAddress
    case Corrected => m.bufAddress + m.offset
  }

  /** The write pass state: `host_args_offset` and the uint32
      `local_mem_offset`. */
  datatype Walk = Walk(off: nat, lmo: nat)

  /** The stores made for one item and the state after it. */
  datatype Emitted = Emitted(chunk: seq<Write>, next: Walk)

  /** The stores made for a run of items, one list per item, and the state
      after the last. */
  datatype Pass = Pass(chunks: seq<seq<Write>>, end: Walk)

  /** An item the write pass can store: images and samplers abort it. */
  predicate Storable(a: Arg) { !a.ImageArg? && !a.SamplerArg? }

  predicate Plain(items: seq<Arg>)
  {
    forall i :: 0 <= i < |items| ==> Storable(items[i])
  }

  /** One storable item of the write pass. A local stores the local-memory
      size first whenever the running local offset is 0, then its own
      offset; a NULL pointer stores ptr zero bytes; a buffer stores its
      address in ptr bytes; a scalar stores its value. */
  function Step(v: Variant, w: Walk, a: Arg, ptr: nat, lms: nat): (e: Emitted)
    requires IsAlign(ptr) && Storable(a)
    ensures 1 <= |e.chunk| <= 2 && (|e.chunk| == 2 <==> a.LocalArg? && w.lmo == 0)
    ensures e.chunk[0].at == w.off
    ensures |e.chunk| == 2 ==> e.chunk[0].End() <= e.chunk[1].at
    ensures e.chunk[|e.chunk| - 1].End() <= e.next.off
  {
    match a
    case LocalArg(size) =>
      if w.lmo == 0 then
        var o := AlignOffset(w.off + 4, ptr);
        Emitted([Write(w.off, LE(lms, 4)), Write(o, LE(w.lmo, 4))],
                Walk(AlignOffset(o + 4, ptr), (w.lmo + size) % U32))
      else
        Emitted([Write(w.off, LE(w.lmo, 4))], Walk(AlignOffset(w.off + 4, ptr), (w.lmo + size) % U32))
    case PointerArg(None) =>
      Emitted([Write(w.off, Zeros(ptr))], Walk(AlignOffset(w.off + ptr, ptr), w.lmo))
    case PointerArg(Some(m)) =>
      Emitted([Write(w.off, LE(PointerValue(v, m), ptr))], Walk(AlignOffset(w.off + ptr, ptr), w.lmo))
    case ScalarArg(value) =>
      Emitted([Write(w.off, value)], Walk(AlignOffset(w.off + |value|, ptr), w.lmo))
  }

  /** The write pass over storable items from state `w`. */
  function Emit(v: Variant, w: Walk, items: seq<Arg>, ptr: nat, lms: nat): (p: Pass)
    requires IsAlign(ptr) && Plain(items)
    ensures |p.chunks| == |items|
    ensures w.off <= p.end.off
    decreases |items|
  {
    if |items| == 0 then Pass([], w)
    else
      PlainTail(items);
      var e := Step(v, w, items[0], ptr, lms);
      var p := Emit(v, e.next, items[1..], ptr, lms);
      Pass([e.chunk] + p.chunks, p.end)
  }

  /** The write pass as the source runs it, item by item: the first image
      or sampler aborts the launch. */
  function WriteFrom(v: Variant, w: Walk, items: seq<Arg>, ptr: nat, lms: nat): (r: Result<Pass>)
    requires IsAlign(ptr)
    ensures r.Ok? <==> Plain(items)
    ensures r.Ok? ==> |r.value.chunks| == |items|
    decreases |items|
  {
    if |items| == 0 then Ok(Pass([], w))
    else if !Storable(items[0]) then Abort("POCL_VORTEX_RUN")
    else
      PlainTail(items);
      var e := Step(v, w, items[0], ptr, lms);
      match WriteFrom(v, e.next, items[1..], ptr, lms)
      case Abort(r) => Abort(r)
      case Ok(p) => Ok(Pass([e.chunk] + p.chunks, p.end))
  }

  lemma PlainTail(items: seq<Arg>)
    requires |items| > 0
    ensures Plain(items) <==> Storable(items[0]) && Plain(items[1..])
  {
    assert forall i :: 0 <= i < |items| - 1 ==> items[1..][i] == items[i + 1];
  }

  /** The write pass aborts exactly when an image or a sampler is among the
      items, and otherwise makes the stores of `Emit`. */
  lemma {:induction false} WriteFromEmit(v: Variant, w: Walk, items: seq<Arg>, ptr: nat, lms: nat)
    requires IsAlign(ptr)
    ensures WriteFrom(v, w, items, ptr, lms).Ok? <==> Plain(items)
    ensures Plain(items) ==> WriteFrom(v, w, items, ptr, lms) == Ok(Emit(v, w, items, ptr, lms))
    decreases |items|
  {
    if |items| > 0 {
      PlainTail(items);
      if Storable(items[0]) {
        WriteFromEmit(v, Step(v, w, items[0], ptr, lms).next, items[1..], ptr, lms);
      }
    }
  }

  /** The stores of a pass, in the order they are made. */
  function Flatten(chunks: seq<seq<Write>>): seq<Write>
  {
    if |chunks| == 0 then [] else chunks[0] + Flatten(chunks[1..])
  }

  // ---------------------------------------------------------------------
  // Where the write pass ends

  /** The number of leading zeros of a list of sizes. */
  function ZeroPrefix(s: seq<nat>): (r: nat)
    ensures r <= |s|
  {
    if |s| == 0 || s[0] != 0 then 0 else 1 + ZeroPrefix(s[1..])
  }

  /** The bytes the write pass spends on stores of the local-memory size:
      one slot for every local it meets while the running local offset is 0. */
  function HeaderBytes(items: seq<Arg>, lmo: nat, ptr: nat): nat
    decreases |items|
  {
    if |items| == 0 then 0
    else if items[0].LocalArg? then
      (if lmo == 0 then ptr else 0) + HeaderBytes(items[1..], (lmo + items[0].size) % U32, ptr)
    else HeaderBytes(items[1..], lmo, ptr)
  }

  lemma LocalSizesTail(items: seq<Arg>)
    requires |items| > 0
    ensures items[0].LocalArg? ==> LocalSizes(items) == [items[0].size] + LocalSizes(items[1..])
    ensures !items[0].LocalArg? ==> LocalSizes(items) == LocalSizes(items[1..])
  {
    if !items[0].LocalArg? {
      assert [] + LocalSizes(items[1..]) == LocalSizes(items[1..]);
    }
  }

  lemma LocalSumTail(items: seq<Arg>)
    requires |items| > 0
    ensures Sum(LocalSizes(items))
            == (if items[0].LocalArg? then items[0].size else 0) + Sum(LocalSizes(items[1..]))
  {
    LocalSizesTail(items);
    if items[0].LocalArg? {
      SumCons(items[0].size, LocalSizes(items[1..]));
    }
  }

  /** One step moves the offset as the size pass does, plus one slot when
      it stores the local-memory size, and adds a local's size to the
      running local offset. */
  lemma StepOffset(v: Variant, w: Walk, a: Arg, ptr: nat, lms: nat)
    requires IsAlign(ptr) && w.off % ptr == 0 && Storable(a)
    ensures Step(v, w, a, ptr, lms).next.off
            == AlignOffset(w.off + Width(a, ptr), ptr) + (if a.LocalArg? && w.lmo == 0 then ptr else 0)
    ensures Step(v, w, a, ptr, lms).next.off % ptr == 0
    ensures Step(v, w, a, ptr, lms).next.lmo == if a.LocalArg? then (w.lmo + a.size) % U32 else w.lmo
  {
    if a.LocalArg? {
      AlignStep(w.off, 4, ptr);
      if w.lmo == 0 {
        AlignStep(w.off + ptr, 4, ptr);
      }
    } else if a.PointerArg? {
      AlignStep(w.off, ptr, ptr);
    }
  }

  /** The running local offset is the uint32 sum of the local sizes met. */
  lemma {:induction false} EmitLocalOffset(v: Variant, w: Walk, items: seq<Arg>, ptr: nat, lms: nat)
    requires IsAlign(ptr) && Plain(items) && w.lmo < U32
    ensures Emit(v, w, items, ptr, lms).end.lmo == (w.lmo + Sum(LocalSizes(items))) % U32
    decreases |items|
  {
    if |items| > 0 {
      PlainTail(items);
      var a := items[0];
      var w' := Step(v, w, a, ptr, lms).next;
      assert w'.lmo == if a.LocalArg? then (w.lmo + a.size) % U32 else w.lmo;
      assert Emit(v, w, items, ptr, lms).end == Emit(v, w', items[1..], ptr, lms).end;
      EmitLocalOffset(v, w', items[1..], ptr, lms);
      LocalSizeStep(items);
      LocalOffsetStep(Emit(v, w', items[1..], ptr, lms).end.lmo, w.lmo, w'.lmo, a.LocalArg?,
                      if a.LocalArg? then a.size else 0, Sum(LocalSizes(items[1..])), Sum(LocalSizes(items)));
    }
  }

  /** The local sizes of a list are those of its head, if a local, and then
      those of its tail. */
  lemma LocalSizeStep(items: seq<Arg>)
    requires |items| > 0
    ensures Sum(LocalSizes(items)) == (if items[0].LocalArg? then items[0].size else 0) + Sum(LocalSizes(items[1..]))
  {
    LocalSizesTail(items);
    if items[0].LocalArg? {
      SumCons(items[0].size, LocalSizes(items[1..]));
    }
  }

  /** One step of `EmitLocalOffset`: a local of `size` bytes moves the
      offset from `lmo` to `next`, and the rest of the walk ends at `end`. */
  lemma LocalOffsetStep(end: nat, lmo: nat, next: nat, local: bool, size: nat, rest: nat, total: nat)
    requires next == if local then (lmo + size) % U32 else lmo
    requires lmo < U32 && total == size + rest && (!local ==> size == 0)
    requires end == (next + rest) % U32
    ensures end == (lmo + total) % U32
  {
    if local {
      ModAddAssoc(lmo, size, rest);
    }
  }

  /** The write pass ends where the size pass does, plus one slot for every
      store of the local-memory size. */
  lemma {:induction false} EmitEnd(v: Variant, w: Walk, items: seq<Arg>, ptr: nat, lms: nat)
    requires IsAlign(ptr) && Plain(items) && w.off % ptr == 0
    ensures Emit(v, w, items, ptr, lms).end.off == SizeFrom(w.off, items, ptr) + HeaderBytes(items, w.lmo, ptr)
    decreases |items|
  {
    if |items| > 0 {
      PlainTail(items);
      var w' := Step(v, w, items[0], ptr, lms).next;
      StepOffset(v, w, items[0], ptr, lms);
      EmitEnd(v, w', items[1..], ptr, lms);
      EndStep(items, w.off, w.lmo, w'.off, w'.lmo, ptr);
    }
  }

  /** One step of `EmitEnd`: the distance to the end is kept. */
  lemma EndStep(items: seq<Arg>, off: nat, lmo: nat, off': nat, lmo': nat, ptr: nat)
    requires IsAlign(ptr) && |items| > 0 && off % ptr == 0
    requires off' == AlignOffset(off + Width(items[0], ptr), ptr)
                     + (if items[0].LocalArg? && lmo == 0 then ptr else 0)
    requires lmo' == if items[0].LocalArg? then (lmo + items[0].size) % U32 else lmo
    ensures SizeFrom(off', items[1..], ptr) + HeaderBytes(items[1..], lmo', ptr)
            == SizeFrom(off, items, ptr) + HeaderBytes(items, lmo, ptr)
  {
    var next := AlignOffset(off + Width(items[0], ptr), ptr);
    SizeFromCons(off, items, ptr);
    if items[0].LocalArg? && lmo == 0 {
      SizeFromShift(next, ptr, items[1..], ptr);
    }
  }

  /** Once the running local offset is non-zero and no uint32 wrap brings
      it back to 0, the size is not stored again. */
  lemma {:induction false} HeadersAfterLocal(items: seq<Arg>, lmo: nat, ptr: nat)
    requires 0 < lmo && lmo + Sum(LocalSizes(items)) < U32
    ensures HeaderBytes(items, lmo, ptr) == 0
    decreases |items|
  {
    if |items| > 0 {
      LocalSizesTail(items);
      if items[0].LocalArg? {
        SumCons(items[0].size, LocalSizes(items[1..]));
        HeadersAfterLocal(items[1..], lmo + items[0].size, ptr);
      } else {
        HeadersAfterLocal(items[1..], lmo, ptr);
      }
    }
  }

  /** Starting from local offset 0 without wrap, the size is stored once
      for the first local of non-zero size (if any), and once more for every
      zero-size local before it. */
  lemma {:induction false} HeadersFromZero(items: seq<Arg>, ptr: nat)
    requires Sum(LocalSizes(items)) < U32
    ensures HeaderBytes(items, 0, ptr)
            == ptr * ZeroPrefix(LocalSizes(items)) + (if Sum(LocalSizes(items)) > 0 then ptr else 0)
    decreases |items|
  {
    if |items| > 0 {
      var rest := items[1..];
      LocalSizesTail(items);
      if items[0].LocalArg? {
        var s := items[0].size;
        SumCons(s, LocalSizes(rest));
        if s == 0 {
          HeadersFromZero(rest, ptr);
          var z := ZeroPrefix(LocalSizes(rest));
          assert ZeroPrefix(LocalSizes(items)) == z + 1;
          assert ptr * (z + 1) == ptr * z + ptr by { MulAddDistrib(z, 1, ptr); }
        } else {
          HeadersAfterLocal(rest, s, ptr);
        }
      } else {
        HeadersFromZero(rest, ptr);
      }
    }
  }

  /** Without uint32 wrap of the local sizes, the write pass from the start
      ends exactly at abuf_size plus one slot for every zero-size local that
      comes before the first local of non-zero size. */
  lemma EmitEndsAtAbufSize(v: Variant, items: seq<Arg>, ptr: nat, lms: nat)
    requires IsAlign(ptr) && Plain(items) && Sum(LocalSizes(items)) < U32
    ensures Emit(v, Walk(0, 0), items, ptr, lms).end.off
            == AbufSize(items, ptr) + ptr * ZeroPrefix(LocalSizes(items))
  {
    EmitEnd(v, Walk(0, 0), items, ptr, lms);
    HeadersFromZero(items, ptr);
    SizeFromAligned(0, items, ptr);
    if Sum(LocalSizes(items)) > 0 {
      AlignStep(SizeFrom(0, items, ptr), 4, ptr);
    }
  }
}
