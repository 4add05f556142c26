/** The work-item loops the Vortex compiler passes emit around each parallel
    region (WorkitemLoops.cc, WorkitemLoopsVX.cc): every hardware thread of a
    core starts at its own linear local id, steps by the number of hardware
    threads of the core, stops at the work-group size, and decodes each id
    into (x, y, z). Also the unroll-count search and the padding of
    context-array elements. */
module WiLoops {
  import opened Base
  import opened Grid

  /** A core: nHT lanes per warp (vx_num_threads), nHW warps
      (vx_num_warps). */
  datatype Core = Core(nHT: nat, nHW: nat)
  {
    predicate Valid() { nHT >= 1 && nHW >= 1 }
    /** HTpC: the hardware threads of the core, the loop's stride. */
    function Stride(): nat { nHT * nHW }
  }

  /** A hardware thread: lane `tid` of warp `wid`. */
  datatype Hart = Hart(tid: nat, wid: nat)

  predicate OnCore(h: Hart, c: Core)
  {
    h.tid < c.nHT && h.wid < c.nHW
  }

  /** tlid, the first id a hardware thread runs: as written the warp id is
      scaled by the number of warps, corrected by the lanes per warp. */
  function Start(v: Variant, c: Core, h: Hart): (r: nat)
    ensures v == Corrected && OnCore(h, c) ==> r % c.nHT == h.tid && r / c.nHT == h.wid
  {
    var r := if v == AsWritten then h.tid + h.wid * c.nHW else h.tid + h.wid * c.nHT;
    assert v == Corrected && OnCore(h, c) ==> r % c.nHT == h.tid && r / c.nHT == h.wid by {
      if v == Corrected && OnCore(h, c) {
        SplitStart(r, c.nHT, h.tid, h.wid);
      }
    }
    r
  }

  /** The loop: id := start; while id < workload { region(id); id += stride }.
      Returns the ids the region runs with, in order. */
  method ThreadLoop(start: nat, stride: nat, workload: nat) returns (ids: seq<nat>)
    requires stride >= 1
    ensures forall k :: 0 <= k < |ids| ==> ids[k] == start + k * stride && ids[k] < workload
    ensures start + |ids| * stride >= workload
  {
    ids := [];
    var id := start;
    while id < workload
      invariant id == start + |ids| * stride
      invariant forall k :: 0 <= k < |ids| ==> ids[k] == start + k * stride && ids[k] < workload
      decreases workload - id
    {
      ids := ids + [id];
      id := id + stride;
    }
  }

  /** An id the loop starting at `start` reaches before the bound. */
  predicate Visits(start: nat, stride: nat, workload: nat, id: nat)
    requires stride >= 1
  {
    start <= id < workload && (id - start) % stride == 0
  }

  /** The loop runs exactly the ids of its progression below the bound. */
  lemma LoopVisits(ids: seq<nat>, start: nat, stride: nat, workload: nat, id: nat)
    requires stride >= 1
    requires forall k :: 0 <= k < |ids| ==> ids[k] == start + k * stride && ids[k] < workload
    requires start + |ids| * stride >= workload
    ensures id in ids <==> Visits(start, stride, workload, id)
  {
    if id in ids {
      var k :| 0 <= k < |ids| && ids[k] == id;
      DivModUnique(id - start, stride, k, 0);
    }
    if Visits(start, stride, workload, id) {
      var k := (id - start) / stride;
      DivRemainder(id - start, stride);
      if k >= |ids| {
        MulMono(|ids|, k, stride);
        assert false;
      }
      assert ids[k] == id;
    }
  }

  /** The hardware thread that, corrected, runs a given id. */
  function Owner(c: Core, id: nat): (h: Hart)
    requires c.Valid()
    ensures OnCore(h, c)
  {
    var s := id % c.Stride();
    DivBelow(s, c.nHT, c.nHW);
    Hart(s % c.nHT, s / c.nHT)
  }

  /** Corrected starts are the distinct values below the stride. */
  lemma CorrectedStartBelow(c: Core, h: Hart)
    requires c.Valid() && OnCore(h, c)
    ensures Start(Corrected, c, h) < c.Stride()
  {
    RowBelow(Coord(h.tid, h.wid, 0), c.nHT, c.nHW);
  }

  /** Corrected, every id of the work-group is run by exactly one hardware
      thread of the core, the one its remainder by the stride names. */
  lemma CorrectedRunsOnce(c: Core, workload: nat, id: nat, h: Hart)
    requires c.Valid() && OnCore(h, c) && id < workload
    ensures Visits(Start(Corrected, c, h), c.Stride(), workload, id) <==> h == Owner(c, id)
  {
    var S := c.Stride();
    var s := Start(Corrected, c, h);
    CorrectedStartBelow(c, h);
    if Visits(s, S, workload, id) {
      assert id % S == s by { ModOfProgression(id, s, S); }
      SplitStart(s, c.nHT, h.tid, h.wid);
    }
    if h == Owner(c, id) {
      assert s == id % S by { DivRemainder(id % S, c.nHT); }
      ProgressionOfMod(id, S);
    }
  }

  /** An id reached from a start below the stride has that start as its
      remainder. */
  lemma ModOfProgression(id: nat, s: nat, S: nat)
    requires s < S && s <= id && (id - s) % S == 0
    ensures id % S == s
  {
    DivRemainder(id - s, S);
    DivModUnique(id, S, (id - s) / S, s);
  }

  /** Every id is reached from its remainder. */
  lemma ProgressionOfMod(id: nat, S: nat)
    requires S >= 1
    ensures id % S <= id && (id - id % S) % S == 0
  {
    DivRemainder(id, S);
    DivModUnique(id - id % S, S, id / S, 0);
  }

  /** A corrected start determines the lane and the warp. */
  lemma SplitStart(s: nat, nHT: nat, tid: nat, wid: nat)
    requires tid < nHT && s == tid + wid * nHT
    ensures tid == s % nHT && wid == s / nHT
  {
    DivModUnique(s, nHT, wid, tid);
  }

  /** The as-written starts agree with the corrected ones on every hardware
      thread exactly when the core has as many warps as lanes, or one warp. */
  lemma AsWrittenAgreesIff(c: Core)
    requires c.Valid()
    ensures (forall h :: OnCore(h, c) ==> Start(AsWritten, c, h) == Start(Corrected, c, h))
            <==> (c.nHW == c.nHT || c.nHW == 1)
  {
    if c.nHW != c.nHT && c.nHW != 1 {
      assert OnCore(Hart(0, 1), c);
      assert Start(AsWritten, c, Hart(0, 1)) != Start(Corrected, c, Hart(0, 1));
    }
  }

  /** As written, with more warps than lanes, the work-item of id nHT is run
      by no hardware thread. */
  lemma AsWrittenSkips(c: Core, workload: nat, h: Hart)
    requires c.Valid() && c.nHW > c.nHT && OnCore(h, c)
    ensures c.nHT < c.Stride()
    ensures !Visits(Start(AsWritten, c, h), c.Stride(), workload, c.nHT)
  {
    MulMono(2, c.nHW, c.nHT);
    var s := Start(AsWritten, c, h);
    if s <= c.nHT {
      if h.wid >= 1 {
        MulAtLeast(h.wid, c.nHW);
      }
      assert 0 < c.nHT - s < c.Stride();
      ModBelow(c.nHT - s, c.Stride());
    }
  }

  /** As written, with more lanes than warps and at least two warps, lane
      nHW of warp 0 and lane 0 of warp 1 both start at nHW: that work-item
      runs twice. */
  lemma AsWrittenRepeats(c: Core, workload: nat)
    requires c.Valid() && 1 < c.nHW < c.nHT && c.nHW < workload
    ensures OnCore(Hart(c.nHW, 0), c) && OnCore(Hart(0, 1), c)
    ensures Visits(Start(AsWritten, c, Hart(c.nHW, 0)), c.Stride(), workload, c.nHW)
    ensures Visits(Start(AsWritten, c, Hart(0, 1)), c.Stride(), workload, c.nHW)
  {
  }

  /** Two lanes on each of four warps: ids 2 and 3 are never run. */
  lemma SkipExample(c: Core, h: Hart)
    requires c == Core(2, 4) && OnCore(h, c)
    ensures !Visits(Start(AsWritten, c, h), c.Stride(), 8, 2)
    ensures Visits(Start(Corrected, c, Owner(c, 2)), c.Stride(), 8, 2)
  {
    AsWrittenSkips(c, 8, h);
    CorrectedRunsOnce(c, 8, 2, Owner(c, 2));
  }

  /** Corrected, each local id of a work-group of local size L is run by
      exactly one hardware thread: the owner of its linear index, whose loop
      decodes that index back to it. */
  lemma EachLocalIdOnce(c: Core, L: Coord, lid: Coord, h: Hart)
    requires c.Valid() && OnCore(h, c) && InGrid(lid, L.x, L.y, L.z)
    ensures var id := Encode(lid, L.x, L.y);
      && id < L.x * L.y * L.z
      && Decode(id, L.x, L.y) == lid
      && (Visits(Start(Corrected, c, h), c.Stride(), L.x * L.y * L.z, id) <==> h == Owner(c, id))
  {
    var id := Encode(lid, L.x, L.y);
    EncodeBelow(lid, L.x, L.y, L.z);
    DecodeEncode(lid, L.x, L.y);
    CorrectedRunsOnce(c, L.x * L.y * L.z, id, h);
  }

  /** Every id the loop runs decodes to a local id inside the work-group,
      and the linear index of that local id is the id again. */
  lemma LoopDecodes(L: Coord, id: nat)
    requires L.x >= 1 && L.y >= 1 && id < L.x * L.y * L.z
    ensures InGrid(Decode(id, L.x, L.y), L.x, L.y, L.z)
    ensures Encode(Decode(id, L.x, L.y), L.x, L.y) == id
  {
    DecodeInGrid(id, L.x, L.y, L.z);
    EncodeDecode(id, L.x, L.y);
  }

  /** With a dynamic local size, a value kept across a barrier is saved to
      and restored from the slot of the context array at the work-item's
      linear index: every work-item's slot lies inside the array of
      Lx*Ly*Lz entries, and two work-items share a slot only if they are
      the same work-item. */
  lemma ContextSlots(L: Coord, a: Coord, b: Coord)
    requires InGrid(a, L.x, L.y, L.z) && InGrid(b, L.x, L.y, L.z)
    ensures Encode(a, L.x, L.y) < L.x * L.y * L.z
    ensures Encode(a, L.x, L.y) == Encode(b, L.x, L.y) <==> a == b
  {
    EncodeBelow(a, L.x, L.y, L.z);
    DecodeEncode(a, L.x, L.y);
    DecodeEncode(b, L.x, L.y);
  }

  /** The x-only shortcut: id mod Lx is the x the full decode gives. */
  lemma XOnlyMatches(id: nat, lx: nat, ly: nat)
    requires lx >= 1 && ly >= 1
    ensures id % lx == Decode(id, lx, ly).x
  {
    var c := Decode(id, lx, ly);
    EncodeDecode(id, lx, ly);
    assert id == (c.z * ly + c.y) * lx + c.x;
    DivModUnique(id, lx, c.z * ly + c.y, c.x);
  }

  datatype Axis = X | Y | Z

  function Component(c: Coord, a: Axis): nat
  {
    match a
    case X => c.x
    case Y => c.y
    case Z => c.z
  }

  /** What the VX loop computes at the region entry from the axes the
      region loads: only x, by the remainder, when x alone is loaded; all
      three by the full decode otherwise. None is a value never computed. */
  function VxCompute(loads: set<Axis>, id: nat, lx: nat, ly: nat): (r: map<Axis, nat>)
    requires lx >= 1 && ly >= 1
    ensures X in r
  {
    if X in loads && Y !in loads && Z !in loads then map[X := id % lx]
    else var c := Decode(id, lx, ly); map[X := c.x, Y := c.y, Z := c.z]
  }

  /** The loads the VX loop replaces: every load of x, and a load of y or z
      only when the region loads that axis. */
  predicate VxReplaces(loads: set<Axis>, a: Axis)
  {
    a == X || a in loads
  }

  /** Every load the region makes is replaced by a computed value, and that
      value is the full decode's: the uncomputed y and z of the x-only
      shortcut are never used. */
  lemma VxLoadsSeeDecode(loads: set<Axis>, id: nat, lx: nat, ly: nat, a: Axis)
    requires lx >= 1 && ly >= 1 && a in loads
    ensures VxReplaces(loads, a)
    ensures a in VxCompute(loads, id, lx, ly)
    ensures VxCompute(loads, id, lx, ly)[a] == Component(Decode(id, lx, ly), a)
  {
    XOnlyMatches(id, lx, ly);
  }

  /** A requested unroll count fits a work-group of width `lsx`. */
  predicate Fits(u: nat, lsx: nat)
  {
    u >= 1 && lsx % u == 0 && u <= lsx
  }

  /** x halved j times. */
  function Halved(x: nat, j: nat): nat
  {
    DivNat(x, Pow2(j));
    x / Pow2(j)
  }

  /** The unroll-count search: the requested count halved until it divides
      the local size in x and is at most it, or reaches 0. The result is the
      largest count of the halving chain that fits. */
  method UnrollCount(requested: nat, lsx: nat) returns (u: nat)
    ensures u == 0 || Fits(u, lsx)
    ensures u <= requested
    ensures requested >= 1 && lsx >= 1 ==> u >= 1
    ensures forall j :: Fits(Halved(requested, j), lsx) ==> Halved(requested, j) <= u
  {
    u := requested;
    ghost var n: nat := 0;
    while u >= 1
      invariant u == Halved(requested, n) && u <= requested
      invariant requested >= 1 && lsx >= 1 ==> u >= 1
      invariant forall j :: 0 <= j < n ==> !Fits(Halved(requested, j), lsx)
      decreases u
    {
      if lsx % u == 0 && u <= lsx {
        break;
      }
      assert u != 1 || lsx == 0;
      HalveChain(requested, n);
      u := u / 2;
      n := n + 1;
    }
    forall j: nat | Fits(Halved(requested, j), lsx)
      ensures Halved(requested, j) <= u
    {
      if j >= n {
        ChainDecreases(requested, n, j);
      }
    }
  }

  /** One more halving is one more division by two. */
  lemma HalveChain(x: nat, n: nat)
    ensures Halved(x, n + 1) == Halved(x, n) / 2
  {
    DivTwice(x, Pow2(n));
  }

  /** Dividing by p and then by 2 is dividing by 2p. */
  lemma DivTwice(x: nat, p: nat)
    requires p >= 1
    ensures x / (2 * p) == (x / p) / 2
  {
    var q, r := x / p, x % p;
    var a, b := q / 2, q % 2;
    DivRemainder(x, p);
    DivRemainder(q, 2);
    assert x == q * p + r;
    assert q * p == a * (2 * p) + b * p;
    assert b * p + r < 2 * p by {
      if b == 1 { assert b * p == p; } else { assert b * p == 0; }
    }
    DivModUnique(x, 2 * p, a, b * p + r);
  }

  /** The halving chain only goes down. */
  lemma {:induction false} ChainDecreases(x: nat, n: nat, j: nat)
    requires n <= j
    ensures Halved(x, j) <= Halved(x, n)
    decreases j - n
  {
    if n < j {
      ChainDecreases(x, n, j - 1);
      HalveChain(x, j - 1);
    }
  }

  /** Bitwise and with the mask m = 2^w - 2^k of bits k .. w-1 keeps the
      bits of x in that window: together with the low k bits of x they make
      its low w bits. */
  lemma {:induction false} AndWindow(x: nat, w: nat, k: nat, m: nat)
    requires k <= w && m + Pow2(k) == Pow2(w)
    ensures BitAnd(x, m) + x % Pow2(k) == x % Pow2(w)
    decreases w
  {
    if m == 0 {
      assert BitAnd(x, m) == 0;
      assert Pow2(k) == Pow2(w);
    } else if x == 0 {
      assert BitAnd(x, m) == 0;
      ModBelow(0, Pow2(k));
      ModBelow(0, Pow2(w));
    } else if k == 0 {
      AndLowBits(x, w);
      assert m == Pow2(w) - 1;
      assert x % Pow2(k) == 0;
    } else {
      assert Pow2(w) == 2 * Pow2(w - 1) && Pow2(k) == 2 * Pow2(k - 1);
      assert m % 2 == 0 && m / 2 + Pow2(k - 1) == Pow2(w - 1);
      AndWindow(x / 2, w - 1, k - 1, m / 2);
      var h := BitAnd(x / 2, m / 2);
      assert BitAnd(x, m) == 2 * h by {
        BitAndUnfold(x, m);
        assert (x % 2) * (m % 2) == 0;
      }
      ModPow2Split(x, w);
      ModPow2Split(x, k);
      assert h + (x / 2) % Pow2(k - 1) == (x / 2) % Pow2(w - 1);
    }
  }

  /** Bitwise and with 2^k - 1 is the remainder by 2^k. */
  lemma {:induction false} AndLowBits(x: nat, k: nat)
    ensures BitAnd(x, Pow2(k) - 1) == x % Pow2(k)
    decreases k
  {
    if k == 0 {
      assert BitAnd(x, 0) == 0;
    } else if x == 0 {
      assert BitAnd(0, Pow2(k) - 1) == 0;
      ModBelow(0, Pow2(k));
    } else {
      var m := Pow2(k) - 1;
      OddMask(k);
      var h := BitAnd(x / 2, m / 2);
      assert h == (x / 2) % Pow2(k - 1) by { AndLowBits(x / 2, k - 1); }
      assert BitAnd(x, m) == 2 * h + x % 2 by {
        BitAndUnfold(x, m);
        assert (x % 2) * (m % 2) == x % 2;
      }
      ModPow2Split(x, k);
    }
  }

  /** One step of the bitwise and: the lowest bits, then the rest. */
  lemma BitAndUnfold(a: nat, b: nat)
    requires a > 0 && b > 0
    ensures BitAnd(a, b) == 2 * BitAnd(a / 2, b / 2) + (a % 2) * (b % 2)
  {
  }

  /** 2^k - 1 is odd, and halving it gives 2^(k-1) - 1. */
  lemma OddMask(k: nat)
    requires k >= 1
    ensures (Pow2(k) - 1) % 2 == 1 && (Pow2(k) - 1) / 2 == Pow2(k - 1) - 1 && Pow2(k) - 1 > 0
  {
    assert Pow2(k) == 2 * Pow2(k - 1);
  }

  /** The low k bits of x are its lowest bit and the low k-1 bits of x/2. */
  lemma ModPow2Split(x: nat, k: nat)
    requires k >= 1
    ensures x % Pow2(k) == x % 2 + 2 * ((x / 2) % Pow2(k - 1))
  {
    var p := Pow2(k - 1);
    assert Pow2(k) == 2 * p;
    var h := x / 2;
    DivRemainder(x, 2);
    DivRemainder(h, p);
    assert x == 2 * h + x % 2;
    assert h == (h / p) * p + h % p;
    assert x == (h / p) * (2 * p) + (2 * (h % p) + x % 2);
    DivModUnique(x, 2 * p, h / p, 2 * (h % p) + x % 2);
  }

  /** The padded element size of a context array for an alloca of
      `storeSize` bytes aligned to 2^k: when the alignment exceeds 1 and does
      not divide the size, (StoreSize & ~(Alignment - 1)) + Alignment in
      uint64. As written ~(Alignment - 1) is taken in 32-bit unsigned and
      zero-extended, so the mask also clears bits 32 to 63; corrected, the
      mask is 64 bits wide. None is "no padding". */
  function PaddedSize(v: Variant, storeSize: nat, k: nat): (r: Option<nat>)
    requires storeSize < U64 && k < 32
    ensures r.Some? ==> k >= 1 && r.value < U64
  {
    var a := Pow2(k);
    if a > 1 && BitAnd(storeSize, a - 1) != 0 then
      Some((BitAnd(storeSize, ClearMask(v, k)) + a) % U64)
    else None
  }

  /** The context-array element for such an alloca: the source asserts
      that a padded size lies above the store size (WorkitemLoops.cc:1151),
      and a failed assert stops the compiler pass. */
  function PadContextElement(v: Variant, storeSize: nat, k: nat): (r: Result<Option<nat>>)
    requires storeSize < U64 && k < 32
    ensures r.Ok? && r.value.Some? ==> storeSize < r.value.value < U64
    ensures r.Abort? <==> PaddedSize(v, storeSize, k).Some? && PaddedSize(v, storeSize, k).value <= storeSize
  {
    match PaddedSize(v, storeSize, k)
    case None => Ok(None)
    case Some(p) => if p > storeSize then Ok(Some(p)) else Abort("assert(AlignedSize > StoreSize)")
  }

  /** ~(Alignment - 1) for an alignment of 2^k, zero-extended from 32 bits
      as written, 64 bits wide corrected. */
  function ClearMask(v: Variant, k: nat): (m: nat)
    requires k < 32
    ensures m == (if v == AsWritten then U32 else U64) - Pow2(k)
  {
    assert Pow2(k) <= U32 by { Pow2Monotone(k, 32); Pow2ThirtyTwo(); }
    if v == AsWritten then U32 - Pow2(k) else U64 - Pow2(k)
  }

  /** Corrected, an unaligned size is padded to the next multiple of the
      alignment, strictly above it; an aligned one, or alignment 1, is left
      alone. */
  lemma CorrectedPadding(storeSize: nat, k: nat)
    requires storeSize < U64 && k < 32
    requires storeSize + Pow2(k) < U64
    ensures var r := PaddedSize(Corrected, storeSize, k);
      && (r.Some? <==> k >= 1 && storeSize % Pow2(k) != 0)
      && (r.Some? ==> r.value % Pow2(k) == 0 && storeSize < r.value < storeSize + Pow2(k))
    ensures PadContextElement(Corrected, storeSize, k) == Ok(PaddedSize(Corrected, storeSize, k))
  {
    var a := Pow2(k);
    PaddingApplies(Corrected, storeSize, k);
    if k >= 1 && storeSize % a != 0 {
      var low := BitAnd(storeSize, ClearMask(Corrected, k));
      CorrectedMask(storeSize, k);
      NextMultiple(storeSize, a);
      assert (low + a) % U64 == low + a by { ModBelow(low + a, U64); }
    }
  }

  /** The 64-bit mask rounds a size down to a multiple of the alignment. */
  lemma CorrectedMask(storeSize: nat, k: nat)
    requires storeSize < U64 && k < 32
    ensures BitAnd(storeSize, ClearMask(Corrected, k)) == storeSize - storeSize % Pow2(k)
  {
    Pow2SixtyFour();
    Pow2Monotone(k, 64);
    AndWindow(storeSize, 64, k, U64 - Pow2(k));
    ModBelow(storeSize, U64);
  }

  /** Padding applies exactly to sizes the alignment does not divide, and
      then adds the alignment to the masked size. */
  lemma PaddingApplies(v: Variant, storeSize: nat, k: nat)
    requires storeSize < U64 && k < 32
    ensures PaddedSize(v, storeSize, k).Some? <==> k >= 1 && storeSize % Pow2(k) != 0
    ensures PaddedSize(v, storeSize, k).Some? ==>
              PaddedSize(v, storeSize, k).value == (BitAnd(storeSize, ClearMask(v, k)) + Pow2(k)) % U64
  {
    AndLowBits(storeSize, k);
    if k >= 1 {
      OddMask(k);
    }
  }

  /** Rounding down to a multiple of a and adding a gives the next multiple
      of a above an unaligned x. */
  lemma NextMultiple(x: nat, a: nat)
    requires a >= 1 && x % a != 0
    ensures var m := x - x % a + a; m % a == 0 && x < m < x + a
  {
    DivRemainder(x, a);
    var m := x - x % a + a;
    assert m == (x / a + 1) * a;
    DivModUnique(m, a, x / a + 1, 0);
  }

  /** As written, an unaligned size of 4 GiB or more is "padded" to at most
      4 GiB, below the size itself, where corrected it grows past it. */
  lemma AsWrittenPaddingShrinks(storeSize: nat, k: nat)
    requires storeSize < U64 && 1 <= k < 32
    requires U32 <= storeSize && storeSize % Pow2(k) != 0
    ensures PaddedSize(AsWritten, storeSize, k).Some?
    ensures PaddedSize(AsWritten, storeSize, k).value <= U32 <= storeSize
    ensures PadContextElement(AsWritten, storeSize, k).Abort?
  {
    PaddingApplies(AsWritten, storeSize, k);
    var r := BitAnd(storeSize, ClearMask(AsWritten, k)) + Pow2(k);
    assert r <= U32;
    ModBelow(r, U64);
  }
}
