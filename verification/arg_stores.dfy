/** What the write pass leaves in the host copy of the argument buffer: its
    stores are made left to right without overlap, stay inside abuf_size
    when no zero-size local precedes the first local with memory, and each
    item's last store holds the value the kernel should see for it. */
module ArgStores {
  import opened Base
  import opened ArgBuffer

  /** Stores made left to right, none overlapping a later one. */
  predicate Ordered(ws: seq<Write>)
  {
    forall i, j :: 0 <= i < j < |ws| ==> ws[i].End() <= ws[j].at
  }

  /** Every store lies in the byte range [lo, hi). */
  predicate Within(ws: seq<Write>, lo: nat, hi: nat)
  {
    forall i :: 0 <= i < |ws| ==> lo <= ws[i].at && ws[i].End() <= hi
  }

  /** One item's stores are ordered and lie between the offsets before and
      after it. */
  lemma StepOrdered(v: Variant, w: Walk, a: Arg, ptr: nat, lms: nat)
    requires IsAlign(ptr) && Storable(a)
    ensures Ordered(Step(v, w, a, ptr, lms).chunk)
    ensures Within(Step(v, w, a, ptr, lms).chunk, w.off, Step(v, w, a, ptr, lms).next.off)
    ensures w.off <= Step(v, w, a, ptr, lms).next.off
  {
  }

  /** Two ordered runs of stores, the second starting where the first may
      end, form one ordered run. */
  lemma OrderedConcat(a: seq<Write>, b: seq<Write>, lo: nat, mid: nat, hi: nat)
    requires Ordered(a) && Within(a, lo, mid) && Ordered(b) && Within(b, mid, hi) && lo <= mid <= hi
    ensures Ordered(a + b) && Within(a + b, lo, hi)
  {
    var ab := a + b;
    forall i, j | 0 <= i < j < |ab|
      ensures ab[i].End() <= ab[j].at
    {
      if j < |a| {
        assert ab[i] == a[i] && ab[j] == a[j];
      } else if i < |a| {
        assert ab[i] == a[i] && ab[j] == b[j - |a|];
      } else {
        assert ab[i] == b[i - |a|] && ab[j] == b[j - |a|];
      }
    }
    forall i | 0 <= i < |ab|
      ensures lo <= ab[i].at && ab[i].End() <= hi
    {
      if i < |a| {
        assert ab[i] == a[i];
      } else {
        assert ab[i] == b[i - |a|];
      }
    }
  }

  lemma FlattenCons(c: seq<Write>, cs: seq<seq<Write>>)
    ensures Flatten([c] + cs) == c + Flatten(cs)
  {
    assert ([c] + cs)[1..] == cs;
  }

  /** The write pass makes its stores left to right, without overlap, all
      between the offset it starts from and the offset it ends at. */
  lemma {:induction false} EmitOrdered(v: Variant, w: Walk, items: seq<Arg>, ptr: nat, lms: nat)
    requires IsAlign(ptr) && Plain(items)
    ensures Ordered(Flatten(Emit(v, w, items, ptr, lms).chunks))
    ensures Within(Flatten(Emit(v, w, items, ptr, lms).chunks), w.off, Emit(v, w, items, ptr, lms).end.off)
    ensures w.off <= Emit(v, w, items, ptr, lms).end.off
    decreases |items|
  {
    if |items| > 0 {
      PlainTail(items);
      var e := Step(v, w, items[0], ptr, lms);
      var p := Emit(v, e.next, items[1..], ptr, lms);
      StepOrdered(v, w, items[0], ptr, lms);
      EmitOrdered(v, e.next, items[1..], ptr, lms);
      FlattenCons(e.chunk, p.chunks);
      OrderedConcat(e.chunk, Flatten(p.chunks), w.off, e.next.off, p.end.off);
    }
  }

  /** In an ordered run no store overlaps another. */
  lemma OrderedDisjoint(ws: seq<Write>, k: nat)
    requires Ordered(ws) && k < |ws|
    ensures forall m :: 0 <= m < |ws| && m != k ==> Disjoint(ws[m], ws[k])
  {
    forall m | 0 <= m < |ws| && m != k
      ensures Disjoint(ws[m], ws[k])
    {
      if m < k {
        assert ws[m].End() <= ws[k].at;
      } else {
        assert ws[k].End() <= ws[m].at;
      }
    }
  }

  /** After an ordered run of stores, each store's bytes can be read back
      where it was made. */
  lemma ReadBackStore(buf: seq<byte>, ws: seq<Write>, k: nat)
    requires Ordered(ws) && k < |ws|
    requires forall m :: 0 <= m < |ws| ==> InBounds(ws[m], |buf|)
    ensures ws[k].End() <= |buf|
    ensures ApplyWrites(buf, ws)[ws[k].at .. ws[k].End()] == ws[k].data
  {
    assert InBounds(ws[k], |buf|);
    OrderedDisjoint(ws, k);
    var r := ApplyWrites(buf, ws);
    forall p | ws[k].at <= p < ws[k].End()
      ensures r[p] == ws[k].data[p - ws[k].at]
    {
      ApplyWritesReadBack(buf, ws, k, p);
    }
  }

  /** The stores of item `j` are among the stores of the pass. */
  lemma {:induction false} InFlatten(chunks: seq<seq<Write>>, j: nat, i: nat)
    requires j < |chunks| && i < |chunks[j]|
    ensures exists n :: 0 <= n < |Flatten(chunks)| && Flatten(chunks)[n] == chunks[j][i]
    decreases j
  {
    FlattenCons(chunks[0], chunks[1..]);
    assert chunks == [chunks[0]] + chunks[1..];
    if j == 0 {
      assert Flatten(chunks)[i] == chunks[0][i];
    } else {
      InFlatten(chunks[1..], j - 1, i);
      var n :| 0 <= n < |Flatten(chunks[1..])| && Flatten(chunks[1..])[n] == chunks[1..][j - 1][i];
      assert Flatten(chunks)[|chunks[0]| + n] == chunks[j][i];
    }
  }

  lemma PlainPrefix(items: seq<Arg>, k: nat)
    requires Plain(items) && k <= |items|
    ensures Plain(items[..k])
  {
    assert forall i :: 0 <= i < k ==> items[..k][i] == items[i];
  }

  /** The stores for item k are those of one step from the state the pass
      has reached after the items before it. */
  lemma {:induction false} EmitChunk(v: Variant, w: Walk, items: seq<Arg>, ptr: nat, lms: nat, k: nat)
    requires IsAlign(ptr) && Plain(items) && k < |items|
    ensures (PlainPrefix(items, k);
             Emit(v, w, items, ptr, lms).chunks[k]
             == Step(v, Emit(v, w, items[..k], ptr, lms).end, items[k], ptr, lms).chunk)
    decreases k
  {
    PlainPrefix(items, k);
    PlainTail(items);
    var e := Step(v, w, items[0], ptr, lms);
    if k > 0 {
      var pre := items[..k];
      PlainTail(pre);
      assert pre[0] == items[0] && pre[1..] == items[1..][..k - 1];
      EmitChunk(v, e.next, items[1..], ptr, lms, k - 1);
    }
  }

  /** The value the kernel should see for a storable item: a buffer's
      address, zero for NULL, a scalar's bytes, and for a local argument
      its byte offset in local memory, the sum of the sizes of the locals
      before it. */
  function Expected(v: Variant, items: seq<Arg>, k: nat, ptr: nat): (r: seq<byte>)
    requires k < |items| && Storable(items[k])
  {
    match items[k]
    case LocalArg(_) => LE(Sum(LocalSizes(items[..k])), 4)
    case PointerArg(None) => Zeros(ptr)
    case PointerArg(Some(m)) => LE(PointerValue(v, m), ptr)
    case ScalarArg(value) => value
  }

  /** The stores one item makes from a state whose local offset is `lmo`:
      its last store holds its value, and a local met while the offset is 0
      first stores the local-memory size. */
  lemma StepStores(v: Variant, w: Walk, a: Arg, ptr: nat, lms: nat)
    requires IsAlign(ptr) && Storable(a)
    ensures var c := Step(v, w, a, ptr, lms).chunk;
      && |c| == (if a.LocalArg? && w.lmo == 0 then 2 else 1)
      && (a.LocalArg? ==> c[|c| - 1].data == LE(w.lmo, 4))
      && (a.LocalArg? && w.lmo == 0 ==> c[0].data == LE(lms, 4))
      && (a.PointerArg? && a.mem.None? ==> c[0].data == Zeros(ptr))
      && (a.PointerArg? && a.mem.Some? ==> c[0].data == LE(PointerValue(v, a.mem.value), ptr))
      && (a.ScalarArg? ==> c[0].data == a.value)
  {
  }

  /** From the start of the buffer, item k's last store holds the value
      the kernel should see for it, and the local-memory size is stored
      in front of a local exactly when the local offset has come back to
      0 (uint32 wrap included). */
  lemma ItemStores(v: Variant, items: seq<Arg>, ptr: nat, lms: nat, k: nat)
    requires IsAlign(ptr) && Plain(items) && k < |items|
    ensures var c := Emit(v, Walk(0, 0), items, ptr, lms).chunks[k];
      && |c| == (if items[k].LocalArg? && Sum(LocalSizes(items[..k])) % U32 == 0 then 2 else 1)
      && c[|c| - 1].data == Expected(v, items, k, ptr)
      && (|c| == 2 ==> c[0].data == LE(lms, 4))
  {
    PlainPrefix(items, k);
    EmitChunk(v, Walk(0, 0), items, ptr, lms, k);
    var s := Emit(v, Walk(0, 0), items[..k], ptr, lms).end;
    EmitLocalOffset(v, Walk(0, 0), items[..k], ptr, lms);
    assert s.lmo == Sum(LocalSizes(items[..k])) % U32;
    StepStores(v, s, items[k], ptr, lms);
    if items[k].LocalArg? {
      LETruncates(Sum(LocalSizes(items[..k])), 4);
      Pow256Four();
    }
  }

  // ---------------------------------------------------------------------
  // The host copy of the arguments

  /** No local argument is empty. OpenCL rejects a zero-size local argument
      when it is set, and automatic locals are arrays. */
  predicate LocalsNonEmpty(items: seq<Arg>)
  {
    forall i :: 0 <= i < |items| && items[i].LocalArg? ==> items[i].size > 0
  }

  /** The local sizes add up below 2^32, so the uint32 running offset and
      local_mem_size never wrap. */
  predicate NoWrap(items: seq<Arg>)
  {
    Sum(LocalSizes(items)) < U32
  }

  lemma NonEmptyNoZeroPrefix(items: seq<Arg>)
    requires LocalsNonEmpty(items)
    ensures ZeroPrefix(LocalSizes(items)) == 0
    decreases |items|
  {
    if |items| > 0 {
      LocalSizesTail(items);
      if !items[0].LocalArg? {
        assert forall i :: 0 <= i < |items| - 1 ==> items[1..][i] == items[i + 1];
        NonEmptyNoZeroPrefix(items[1..]);
      }
    }
  }

  /** The argument area of the host buffer after the write pass, starting
      from the bytes malloc returned. An image or a sampler aborts; a store
      reaching past abuf_size, which the source would make past the end of
      its allocation, is reported as an abort too. */
  function HostArgs(v: Variant, items: seq<Arg>, ptr: nat, init: seq<byte>): (r: Result<seq<byte>>)
    requires IsAlign(ptr) && |init| == AbufSize(items, ptr)
    ensures r.Ok? ==> |r.value| == |init|
  {
    if !Plain(items) then Abort("POCL_VORTEX_RUN")
    else
      var ws := Flatten(Emit(v, Walk(0, 0), items, ptr, LocalMemSize(items)).chunks);
      if forall k :: 0 <= k < |ws| ==> InBounds(ws[k], |init|) then Ok(ApplyWrites(init, ws))
      else Abort("store past the end of the argument buffer")
  }

  /** With non-empty locals and no wrap, every store of the write pass
      lies inside the abuf_size bytes the size pass reserved. */
  lemma StoresInBounds(v: Variant, items: seq<Arg>, ptr: nat, lms: nat)
    requires IsAlign(ptr) && Plain(items) && NoWrap(items) && LocalsNonEmpty(items)
    ensures Within(Flatten(Emit(v, Walk(0, 0), items, ptr, lms).chunks), 0, AbufSize(items, ptr))
  {
    EmitOrdered(v, Walk(0, 0), items, ptr, lms);
    EmitEndsAtAbufSize(v, items, ptr, lms);
    NonEmptyNoZeroPrefix(items);
  }

  /** A store of the pass can be read back from the host buffer. */
  lemma HostReadBack(v: Variant, items: seq<Arg>, ptr: nat, init: seq<byte>, k: nat, i: nat)
    requires IsAlign(ptr) && Plain(items) && |init| == AbufSize(items, ptr)
    requires HostArgs(v, items, ptr, init).Ok?
    requires k < |items| && i < |Emit(v, Walk(0, 0), items, ptr, LocalMemSize(items)).chunks[k]|
    ensures var c := Emit(v, Walk(0, 0), items, ptr, LocalMemSize(items)).chunks[k];
      && c[i].End() <= |init|
      && HostArgs(v, items, ptr, init).value[c[i].at .. c[i].End()] == c[i].data
  {
    var chunks := Emit(v, Walk(0, 0), items, ptr, LocalMemSize(items)).chunks;
    var ws := Flatten(chunks);
    EmitOrdered(v, Walk(0, 0), items, ptr, LocalMemSize(items));
    InFlatten(chunks, k, i);
    var n :| 0 <= n < |ws| && ws[n] == chunks[k][i];
    ReadBackStore(init, ws, n);
  }

  /** With non-empty locals and no wrap, the write pass completes on any
      storable arguments, and the host buffer holds each item's value in
      its last store, preceded for the first local by local_mem_size. */
  lemma HostStoresArguments(v: Variant, items: seq<Arg>, ptr: nat, init: seq<byte>, k: nat)
    requires IsAlign(ptr) && Plain(items) && NoWrap(items) && LocalsNonEmpty(items)
    requires |init| == AbufSize(items, ptr) && k < |items|
    ensures HostArgs(v, items, ptr, init).Ok?
    ensures var c := Emit(v, Walk(0, 0), items, ptr, LocalMemSize(items)).chunks[k];
      var buf := HostArgs(v, items, ptr, init).value;
      && 0 < |c| && c[|c| - 1].End() <= |buf| && c[0].End() <= |buf|
      && buf[c[|c| - 1].at .. c[|c| - 1].End()] == Expected(v, items, k, ptr)
      && (|c| == 2 ==> buf[c[0].at .. c[0].End()] == LE(LocalMemSize(items), 4))
  {
    var lms := LocalMemSize(items);
    StoresInBounds(v, items, ptr, lms);
    var ws := Flatten(Emit(v, Walk(0, 0), items, ptr, lms).chunks);
    assert Within(ws, 0, |init|);
    assert forall n :: 0 <= n < |ws| ==> InBounds(ws[n], |init|);
    assert HostArgs(v, items, ptr, init) == Ok(ApplyWrites(init, ws));
    ItemStores(v, items, ptr, LocalMemSize(items), k);
    var c := Emit(v, Walk(0, 0), items, ptr, LocalMemSize(items)).chunks[k];
    HostReadBack(v, items, ptr, init, k, |c| - 1);
    HostReadBack(v, items, ptr, init, k, 0);
  }

  // ---------------------------------------------------------------------
  // Sub-buffers

  /** The value stored for a buffer argument is the address the host
      chooses for it. */
  lemma ExpectedPointer(v: Variant, items: seq<Arg>, k: nat, ptr: nat)
    requires k < |items| && items[k].PointerArg? && items[k].mem.Some?
    ensures Expected(v, items, k, ptr) == LE(PointerValue(v, items[k].mem.value), ptr)
  {
  }

  /** As written, the host stores the address of a cl_mem's whole buffer
      and drops the argument's offset into it: two sub-buffers of one
      buffer reach the kernel as the same pointer, the buffer's start. */
  lemma PointerOffsetIgnored(m1: MemRef, m2: MemRef, ptr: nat)
    requires m1.bufAddress == m2.bufAddress
    ensures LE(PointerValue(AsWritten, m1), ptr) == LE(PointerValue(AsWritten, m2), ptr)
    ensures FromLE(LE(PointerValue(AsWritten, m1), ptr)) == m1.bufAddress % Pow256(ptr)
  {
    LERoundTripTruncated(m1.bufAddress, ptr);
  }

  /** Corrected, the kernel receives the sub-buffer's own address, so
      sub-buffers of one buffer at different offsets (addresses below the
      pointer width) are told apart. */
  lemma SubBufferAddressStored(m1: MemRef, m2: MemRef, ptr: nat)
    requires m1.bufAddress == m2.bufAddress && m1.offset != m2.offset
    requires m1.bufAddress + m1.offset < Pow256(ptr) && m2.bufAddress + m2.offset < Pow256(ptr)
    ensures FromLE(LE(PointerValue(Corrected, m1), ptr)) == m1.bufAddress + m1.offset
    ensures LE(PointerValue(Corrected, m1), ptr) != LE(PointerValue(Corrected, m2), ptr)
  {
    LERoundTrip(m1.bufAddress + m1.offset, ptr);
    LERoundTrip(m2.bufAddress + m2.offset, ptr);
  }
}
