/** The device side of the argument buffer: the loads that the kernel
    wrapper generated by `createArgumentsBuffer` makes, one list per kernel
    parameter, and their agreement with the host's stores. */
module ArgReader {
  import opened Base
  import opened ArgBuffer
  import opened ArgStores

  /** A kernel parameter as the wrapper sees it: a local-memory pointer, or
      a value of the given allocation size (a pointer or a scalar). */
  datatype Param = LocalParam | ValueParam(allocSize: nat)

  /** A load of `width` bytes at byte `at` of the argument area. */
  datatype Load = Load(at: nat, width: nat)

  /** BaseAlignment: 8 for a riscv64 target, 4 otherwise. */
  function BaseAlignment(is64: bool): (r: nat)
    ensures IsAlign(r)
  {
    if is64 then 8 else 4
  }

  /** The loads for one parameter and the wrapper's state after it. */
  datatype Loaded = Loaded(loads: seq<Load>, next: nat, seen: bool)

  /** One parameter of the wrapper. The first local parameter loads
      __local_size and advances; as written, it then loads its own offset
      at the same, stale position, while the evident intent is the
      position after the size. Later locals load only their offset; a value
      loads its allocation size. */
  function ReadParam(v: Variant, off: nat, seen: bool, p: Param, align: nat): (r: Loaded)
    requires IsAlign(align)
    ensures off <= r.next
    ensures r.seen == (seen || p.LocalParam?)
  {
    match p
    case LocalParam =>
      if !seen then
        var o := AlignOffset(off + 4, align);
        var at := if v == AsWritten then off else o;
        Loaded([Load(off, 4), Load(at, 4)], AlignOffset(o + 4, align), true)
      else
        Loaded([Load(off, 4)], AlignOffset(off + 4, align), true)
    case ValueParam(size) =>
      Loaded([Load(off, size)], AlignOffset(off + size, align), seen)
  }

  /** The loads the wrapper makes for `params` from offset `off`. */
  function ReadFrom(v: Variant, off: nat, seen: bool, params: seq<Param>, align: nat): (r: seq<seq<Load>>)
    requires IsAlign(align)
    ensures |r| == |params|
    decreases |params|
  {
    if |params| == 0 then []
    else
      var l := ReadParam(v, off, seen, params[0], align);
      [l.loads] + ReadFrom(v, l.next, l.seen, params[1..], align)
  }

  /** The loads that read back a list of stores. */
  function Shape(ws: seq<Write>): (r: seq<Load>)
    ensures |r| == |ws|
    ensures forall i :: 0 <= i < |ws| ==> r[i] == Load(ws[i].at, |ws[i].data|)
  {
    seq(|ws|, i requires 0 <= i < |ws| => Load(ws[i].at, |ws[i].data|))
  }

  function ShapeAll(chunks: seq<seq<Write>>): (r: seq<seq<Load>>)
    ensures |r| == |chunks|
    ensures forall k :: 0 <= k < |chunks| ==> r[k] == Shape(chunks[k])
  {
    seq(|chunks|, k requires 0 <= k < |chunks| => Shape(chunks[k]))
  }

  /** The wrapper's parameters are the host's items: locals for locals, a
      pointer-sized value for a buffer, the value's size for a scalar. */
  predicate Matches(params: seq<Param>, items: seq<Arg>, ptr: nat)
  {
    && |params| == |items|
    && forall k :: 0 <= k < |items| ==> MatchesOne(params[k], items[k], ptr)
  }

  predicate MatchesOne(p: Param, a: Arg, ptr: nat)
  {
    match a
    case LocalArg(_) => p == LocalParam
    case ScalarArg(value) => p == ValueParam(|value|)
    case _ => p == ValueParam(ptr)
  }

  /** The bytes a load reads. */
  function Bytes(buf: seq<byte>, l: Load): (r: seq<byte>)
    requires l.at + l.width <= |buf|
    ensures |r| == l.width
  {
    buf[l.at .. l.at + l.width]
  }

  lemma MatchesTail(params: seq<Param>, items: seq<Arg>, ptr: nat)
    requires Matches(params, items, ptr) && |items| > 0
    ensures MatchesOne(params[0], items[0], ptr) && Matches(params[1..], items[1..], ptr)
  {
    assert forall k :: 0 <= k < |items| - 1 ==> items[1..][k] == items[k + 1] && params[1..][k] == params[k + 1];
  }

  lemma NonEmptyTail(items: seq<Arg>)
    requires LocalsNonEmpty(items) && |items| > 0
    ensures LocalsNonEmpty(items[1..])
  {
    assert forall k :: 0 <= k < |items| - 1 ==> items[1..][k] == items[k + 1];
  }

  /** One step: the corrected wrapper loads exactly what one host step
      stores, and both move to the same offset, as long as the wrapper has
      seen a local exactly when the host's local offset is non-zero. */
  lemma StepAgrees(w: Walk, seen: bool, p: Param, a: Arg, ptr: nat, lms: nat, hv: Variant)
    requires IsAlign(ptr) && Storable(a) && MatchesOne(p, a, ptr)
    requires seen <==> w.lmo != 0
    ensures Shape(Step(hv, w, a, ptr, lms).chunk) == ReadParam(Corrected, w.off, seen, p, ptr).loads
    ensures Step(hv, w, a, ptr, lms).next.off == ReadParam(Corrected, w.off, seen, p, ptr).next
  {
    // One path per kind of argument, as in the host's switch.
    match a
    case LocalArg(_) =>
      if w.lmo == 0 {
      } else {
      }
    case PointerArg(m) =>
      if m.None? {
      } else {
      }
    case ScalarArg(_) =>
  }

  /** The corrected wrapper reads exactly where the host writes, with the
      same widths, parameter by parameter, when no local is empty and the
      local sizes do not wrap. */
  lemma {:induction false} ReaderAgrees(hv: Variant, w: Walk, seen: bool, params: seq<Param>, items: seq<Arg>, ptr: nat, lms: nat)
    requires IsAlign(ptr) && Plain(items) && Matches(params, items, ptr) && LocalsNonEmpty(items)
    requires seen <==> w.lmo != 0
    requires w.lmo + Sum(LocalSizes(items)) < U32
    ensures ShapeAll(Emit(hv, w, items, ptr, lms).chunks) == ReadFrom(Corrected, w.off, seen, params, ptr)
    decreases |items|
  {
    if |items| > 0 {
      PlainTail(items);
      MatchesTail(params, items, ptr);
      NonEmptyTail(items);
      var e := Step(hv, w, items[0], ptr, lms);
      var l := ReadParam(Corrected, w.off, seen, params[0], ptr);
      StepAgrees(w, seen, params[0], items[0], ptr, lms, hv);
      var size := if items[0].LocalArg? then items[0].size else 0;
      LocalSumTail(items);
      SeenStep(w.lmo, seen, items[0].LocalArg?, size, Sum(LocalSizes(items[1..])), e.next.lmo, l.seen);
      ReaderAgrees(hv, e.next, l.seen, params[1..], items[1..], ptr, lms);
      EmitCons(hv, w, items, ptr, lms);
      ShapeAllCons(e.chunk, Emit(hv, e.next, items[1..], ptr, lms).chunks);
    }
  }

  /** The wrapper's `seen` keeps tracking a non-zero host local offset
      across one item of `size` local bytes (0 for a non-local). */
  lemma SeenStep(lmo: nat, seen: bool, isLocal: bool, size: nat, rest: nat, lmo': nat, seen': bool)
    requires seen <==> lmo != 0
    requires isLocal ==> size > 0
    requires lmo + size + rest < U32
    requires lmo' == if isLocal then (lmo + size) % U32 else lmo
    requires !isLocal ==> size == 0
    requires seen' == (seen || isLocal)
    ensures lmo' + rest < U32
    ensures seen' <==> lmo' != 0
  {
    if isLocal {
      ModBelow(lmo + size, U32);
    }
  }

  lemma EmitCons(v: Variant, w: Walk, items: seq<Arg>, ptr: nat, lms: nat)
    requires IsAlign(ptr) && Plain(items) && |items| > 0
    ensures (PlainTail(items);
             Emit(v, w, items, ptr, lms).chunks
             == [Step(v, w, items[0], ptr, lms).chunk]
                + Emit(v, Step(v, w, items[0], ptr, lms).next, items[1..], ptr, lms).chunks)
  {
    PlainTail(items);
  }

  lemma ShapeAllCons(c: seq<Write>, cs: seq<seq<Write>>)
    ensures ShapeAll([c] + cs) == [Shape(c)] + ShapeAll(cs)
  {
  }

  /** Parameter k reads the host's stores for item k, with non-empty
      locals and no wrap. */
  lemma LoadsMatchStores(hv: Variant, params: seq<Param>, items: seq<Arg>, ptr: nat, k: nat)
    requires IsAlign(ptr) && Plain(items) && Matches(params, items, ptr) && LocalsNonEmpty(items) && NoWrap(items)
    requires k < |items|
    ensures ReadFrom(Corrected, 0, false, params, ptr)[k]
            == Shape(Emit(hv, Walk(0, 0), items, ptr, LocalMemSize(items)).chunks[k])
  {
    ReaderAgrees(hv, Walk(0, 0), false, params, items, ptr, LocalMemSize(items));
  }

  /** End to end: on the buffer the host fills, the corrected wrapper's
      last load for each parameter reads the value the kernel should see —
      the buffer address, zero for NULL, the scalar, or the local's offset
      in local memory — and the first local's first load reads
      local_mem_size. */
  lemma CorrectedReadsArguments(hv: Variant, params: seq<Param>, items: seq<Arg>, ptr: nat, init: seq<byte>, k: nat)
    requires IsAlign(ptr) && Plain(items) && Matches(params, items, ptr) && LocalsNonEmpty(items) && NoWrap(items)
    requires |init| == AbufSize(items, ptr) && k < |items|
    ensures HostArgs(hv, items, ptr, init).Ok?
    ensures var loads := ReadFrom(Corrected, 0, false, params, ptr)[k];
      var buf := HostArgs(hv, items, ptr, init).value;
      && 0 < |loads|
      && loads[|loads| - 1].at + loads[|loads| - 1].width <= |buf|
      && loads[0].at + loads[0].width <= |buf|
      && Bytes(buf, loads[|loads| - 1]) == Expected(hv, items, k, ptr)
      && (|loads| == 2 ==> Bytes(buf, loads[0]) == LE(LocalMemSize(items), 4))
  {
    HostStoresArguments(hv, items, ptr, init, k);
    LoadsMatchStores(hv, params, items, ptr, k);
  }

  // ---------------------------------------------------------------------
  // The wrapper as written

  predicate NoLocalBefore(params: seq<Param>, k: nat)
    requires k <= |params|
  {
    forall j :: 0 <= j < k ==> !params[j].LocalParam?
  }

  /** The wrapper as written loads the same places as the corrected one for
      every parameter but one: the first local, whose offset it loads from
      the slot of __local_size. */
  lemma {:induction false} AsWrittenDiffers(off: nat, seen: bool, params: seq<Param>, align: nat, k: nat)
    requires IsAlign(align) && k < |params|
    ensures var a := ReadFrom(AsWritten, off, seen, params, align)[k];
      var c := ReadFrom(Corrected, off, seen, params, align)[k];
      && |a| == |c| && 0 < |c| && a[0] == c[0]
      && (a != c <==> !seen && params[k].LocalParam? && NoLocalBefore(params, k))
      && (a != c ==> a == [c[0], c[0]])
    decreases k
  {
    var la := ReadParam(AsWritten, off, seen, params[0], align);
    var lc := ReadParam(Corrected, off, seen, params[0], align);
    assert la.next == lc.next && la.seen == lc.seen;
    if k > 0 {
      AsWrittenDiffers(lc.next, lc.seen, params[1..], align, k - 1);
      assert params[1..][k - 1] == params[k];
      assert NoLocalBefore(params, k) <==> !params[0].LocalParam? && NoLocalBefore(params[1..], k - 1) by {
        assert forall j :: 0 <= j < k - 1 ==> params[1..][j] == params[j + 1];
      }
    }
  }

  lemma NoLocalsSumZero(items: seq<Arg>)
    requires forall j :: 0 <= j < |items| ==> !items[j].LocalArg?
    ensures Sum(LocalSizes(items)) == 0
    decreases |items|
  {
    if |items| > 0 {
      LocalSumTail(items);
      assert forall j :: 0 <= j < |items| - 1 ==> items[1..][j] == items[j + 1];
      NoLocalsSumZero(items[1..]);
    }
  }

  /** On the buffer the host fills, the wrapper as written hands the first
      local argument local_mem_size as its offset instead of 0, so that
      argument points just past the local memory it allocated. */
  lemma AsWrittenReadsSizeAsOffset(hv: Variant, params: seq<Param>, items: seq<Arg>, ptr: nat, init: seq<byte>, k: nat)
    requires IsAlign(ptr) && Plain(items) && Matches(params, items, ptr) && LocalsNonEmpty(items) && NoWrap(items)
    requires |init| == AbufSize(items, ptr) && k < |items|
    requires items[k].LocalArg? && forall j :: 0 <= j < k ==> !items[j].LocalArg?
    ensures HostArgs(hv, items, ptr, init).Ok?
    ensures var a := ReadFrom(AsWritten, 0, false, params, ptr)[k];
      var buf := HostArgs(hv, items, ptr, init).value;
      && |a| == 2 && a[1].at + a[1].width <= |buf|
      && Bytes(buf, a[1]) == LE(LocalMemSize(items), 4)
      && FromLE(Bytes(buf, a[1])) == LocalMemSize(items) > 0
      && Expected(hv, items, k, ptr) == LE(0, 4)
  {
    CorrectedReadsArguments(hv, params, items, ptr, init, k);
    assert params[k] == LocalParam;
    assert NoLocalBefore(params, k) by {
      forall j | 0 <= j < k ensures !params[j].LocalParam? {
        assert MatchesOne(params[j], items[j], ptr);
      }
    }
    AsWrittenDiffers(0, false, params, ptr, k);
    assert Sum(LocalSizes(items[..k])) == 0 by {
      assert forall j :: 0 <= j < k ==> items[..k][j] == items[j];
      NoLocalsSumZero(items[..k]);
    }
    assert LocalMemSize(items) > 0 by {
      LocalSizesPositive(items, k);
      ModBelow(Sum(LocalSizes(items)), U32);
    }
    Pow256Four();
    LERoundTrip(LocalMemSize(items), 4);
  }

  /** A non-empty local makes the local sizes add up to something positive. */
  lemma {:induction false} LocalSizesPositive(items: seq<Arg>, k: nat)
    requires k < |items| && items[k].LocalArg? && items[k].size > 0
    ensures Sum(LocalSizes(items)) > 0
    decreases k
  {
    LocalSumTail(items);
    if k > 0 {
      assert items[1..][k - 1] == items[k];
      LocalSizesPositive(items[1..], k - 1);
    }
  }

  /** One 16-byte local argument on a 32-bit device: the corrected wrapper
      loads the size at 0 and the offset at 4, as the host stores them; the
      wrapper as written loads the offset at 0 as well. */
  lemma OneLocalExample(params: seq<Param>)
    requires params == [LocalParam]
    ensures ReadFrom(Corrected, 0, false, params, 4) == [[Load(0, 4), Load(4, 4)]]
    ensures ReadFrom(AsWritten, 0, false, params, 4) == [[Load(0, 4), Load(0, 4)]]
    ensures ShapeAll(Emit(Corrected, Walk(0, 0), [LocalArg(16)], 4, 16).chunks) == [[Load(0, 4), Load(4, 4)]]
  {
    AlignStep(0, 4, 4);
    AlignStep(4, 4, 4);
    assert params[1..] == [];
    var items := [LocalArg(16)];
    assert Plain(items) && items[1..] == [];
    var e := Step(Corrected, Walk(0, 0), items[0], 4, 16);
    assert e.chunk == [Write(0, LE(16, 4)), Write(4, LE(0, 4))];
    assert Emit(Corrected, Walk(0, 0), items, 4, 16).chunks == [e.chunk];
    assert Shape(e.chunk) == [Load(0, 4), Load(4, 4)];
    assert ReadFrom(Corrected, 0, false, params, 4) == [[Load(0, 4), Load(4, 4)]];
    assert ReadFrom(AsWritten, 0, false, params, 4) == [[Load(0, 4), Load(0, 4)]];
  }
}
