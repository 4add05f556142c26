/** The device-side workgroup distribution of `vx_spawn_kernel`: how many
    cores take part, which workgroups each core takes, how a core spreads
    them over warps and lanes, the narrower remainder phase, and the decode
    of a workgroup id into the (x, y, z) group passed to the kernel. */
module Distribution {
  import opened Base
  import opened Grid

  /** NUM_CORES_MAX: cores with a larger id return at once. */
  const NumCoresMax: nat := 32

  /** The device shape: cores, warps per core, threads per warp. */
  datatype Device = Device(cores: nat, warps: nat, threads: nat)
  {
    predicate Valid() { cores >= 1 && warps >= 1 && threads >= 1 }
    function WarpThreads(): nat { warps * threads }
  }

  /** Number of cores that do work: one per full device-wide batch of
      warps*threads workgroups, at least one and at most all cores. */
  function ActiveCores(q: nat, d: Device): (nc: nat)
    requires d.Valid()
    ensures 1 <= nc <= d.cores
    ensures nc > 1 ==> nc * d.WarpThreads() <= q
  {
    var wt := d.WarpThreads();
    DivNat(q, wt);
    var want := if q > wt then q / wt else 1;
    if want > 1 then
      MulMono(want, q / wt, wt);
      Min(want, d.cores)
    else Min(want, d.cores)
  }

  /** The equal split of a grid over the active cores: nc cores, each
      taking `share` = Q/nc groups, and `left` = Q - nc*(Q/nc) groups over. */
  datatype Split = Split(nc: nat, share: nat, left: nat)
  {
    predicate Valid() { 1 <= nc && left < nc }
  }

  function SplitOf(q: nat, d: Device): (s: Split)
    requires d.Valid()
    ensures s.Valid() && s.nc == ActiveCores(q, d)
    ensures s.nc * s.share + s.left == q
  {
    var nc := ActiveCores(q, d);
    DivRemainder(q, nc);
    Split(nc, q / nc, q - (q / nc) * nc)
  }

  /** What one core does: its first workgroup id (`offset`), its share
      (`wgs_per_core0`), and the split of that share into nW batches of a
      full warp plus rT single lanes, the nW batches handed out fW per warp
      with the first rW warps taking one more. */
  datatype CorePlan = CorePlan(base: nat, count: nat, nW: nat, rT: nat, fW: nat, rW: nat)
  {
    predicate Valid() { rT <= count }
  }

  function MakePlan(base: nat, count: nat, d: Device): (p: CorePlan)
    requires d.Valid()
    ensures p.Valid() && p.base == base && p.count == count
    ensures count == p.nW * d.threads + p.rT && p.rT < d.threads
    ensures p.nW >= d.warps ==> p.fW >= 1 && p.nW == p.fW * d.warps + p.rW && p.rW < d.warps
    ensures p.nW < d.warps ==> p.fW == 1 && p.rW == 0
  {
    var t, w := d.threads, d.warps;
    DivNat(count, t);
    var nW := count / t;
    DivRemainder(count, t);
    var rT := count - nW * t;
    DivRemainder(nW, w);
    // fW = nW >= NW ? nW / NW : 0, and rW = nW - fW*NW when fW != 0; a zero
    // fW, which arises exactly when nW < NW, is then raised to 1.
    if nW >= w then
      var fW := nW / w;
      CorePlan(base, count, nW, rT, fW, nW - fW * w)
    else CorePlan(base, count, nW, rT, 1, 0)
  }

  /** The core that takes the leftover: core NC-1 in the source, which is
      idle whenever fewer than NC cores are active; the last active core
      once corrected. */
  function LeftoverCore(v: Variant, s: Split, d: Device): (r: int)
    ensures v == Corrected && s.Valid() ==> 0 <= r < s.nc
    ensures v == AsWritten && s.nc <= d.cores ==> (r < s.nc <==> s.nc == d.cores)
  {
    match v
    case AsWritten => d.cores - 1
    case Corrected => s.nc - 1
  }

  /** The plan of one core, or None for a core that returns at once. */
  function Plan(v: Variant, s: Split, d: Device, core: nat): (r: Option<CorePlan>)
    requires d.Valid()
    ensures r.Some? <==> core < NumCoresMax && core < s.nc
    ensures r.Some? ==> r.value.Valid() && r.value.base == core * s.share
    ensures r.Some? ==> r.value.count == s.share + if core == LeftoverCore(v, s, d) then s.left else 0
  {
    if core >= NumCoresMax || core >= s.nc then None
    else
      var count := if core == LeftoverCore(v, s, d) then s.share + s.left else s.share;
      MulMono(0, core, s.share);
      Some(MakePlan(core * s.share, count, d))
  }

  /** wK: the first batch of warp `wid`. */
  function WarpStart(p: CorePlan, wid: nat): nat
  {
    p.fW * wid + if wid < p.rW then wid else p.rW
  }

  /** tK: how many consecutive ids each lane of warp `wid` runs. */
  function LaneCount(p: CorePlan, wid: nat): nat
  {
    p.fW + if wid < p.rW then 1 else 0
  }

  /** The ids lane `tid` of warp `wid` runs in the full-warp phase. */
  function LaneIds(p: CorePlan, nt: nat, wid: nat, tid: nat): seq<nat>
  {
    Range(p.base + WarpStart(p, wid) * nt + tid * LaneCount(p, wid), LaneCount(p, wid))
  }

  /** The ids of the first `lanes` lanes of warp `wid`. */
  function WarpIds(p: CorePlan, nt: nat, wid: nat, lanes: nat): seq<nat>
  {
    if lanes == 0 then [] else WarpIds(p, nt, wid, lanes - 1) + LaneIds(p, nt, wid, lanes - 1)
  }

  /** The ids of the first `warps` warps, every lane of each. */
  function PhaseIds(p: CorePlan, nt: nat, warps: nat): seq<nat>
  {
    if warps == 0 then [] else PhaseIds(p, nt, warps - 1) + WarpIds(p, nt, warps - 1, nt)
  }

  /** Warps started for the full-warp phase: min(nW, NW), none when nW is 0. */
  function SpawnedWarps(p: CorePlan, d: Device): nat
  {
    if p.nW >= 1 then (if p.nW < d.warps then p.nW else d.warps) else 0
  }

  /** The remainder phase: rT lanes, one id each. The source starts it at
      `wgs_per_core0 - rT` with no core base; the corrected stub adds it. */
  function RemainderIds(v: Variant, p: CorePlan): (r: seq<nat>)
    requires p.Valid()
    ensures |r| == p.rT
    ensures v == Corrected ==> forall i :: 0 <= i < |r| ==> p.base <= r[i] < p.base + p.count
    ensures v == AsWritten ==> forall i :: 0 <= i < |r| ==> r[i] < p.count
  {
    if p.rT == 0 then []
    else
      match v
      case AsWritten => Range(p.count - p.rT, p.rT)
      case Corrected => Range(p.base + p.count - p.rT, p.rT)
  }

  /** Every workgroup id one core runs, full-warp phase first. */
  function CoreIds(v: Variant, s: Split, d: Device, core: nat): seq<nat>
    requires d.Valid()
  {
    match Plan(v, s, d, core)
    case None => []
    case Some(p) => PhaseIds(p, d.threads, SpawnedWarps(p, d)) + RemainderIds(v, p)
  }

  /** The ids run by the cores below `n`, core by core. */
  function LaunchIds(v: Variant, s: Split, d: Device, n: nat): seq<nat>
    requires d.Valid()
  {
    if n == 0 then [] else LaunchIds(v, s, d, n - 1) + CoreIds(v, s, d, n - 1)
  }

  /** Every workgroup id run on the device for a grid of q groups. */
  function Launch(v: Variant, q: nat, d: Device): (r: seq<nat>)
    requires d.Valid()
    ensures r == LaunchIds(v, SplitOf(q, d), d, ActiveCores(q, d))
  {
    IdleCoresAddNothing(v, SplitOf(q, d), d, d.cores);
    LaunchIds(v, SplitOf(q, d), d, d.cores)
  }

  // ---------------------------------------------------------------------
  // The full-warp phase

  /** Warps abut: warp wid+1 starts where warp wid ends. */
  lemma WarpsAbut(p: CorePlan, wid: nat)
    ensures WarpStart(p, wid + 1) == WarpStart(p, wid) + LaneCount(p, wid)
  {
    assert p.fW * (wid + 1) == p.fW * wid + p.fW;
  }

  /** The lanes of a warp run consecutive ids from the warp's start. */
  lemma {:induction false} WarpIdsCover(p: CorePlan, nt: nat, wid: nat, lanes: nat)
    ensures WarpIds(p, nt, wid, lanes)
         == Range(p.base + WarpStart(p, wid) * nt, lanes * LaneCount(p, wid))
  {
    if lanes > 0 {
      var s := p.base + WarpStart(p, wid) * nt;
      var t := LaneCount(p, wid);
      WarpIdsCover(p, nt, wid, lanes - 1);
      MulAddDistrib(lanes - 1, 1, t);
      RangeSplit(s, (lanes - 1) * t, t);
    }
  }

  /** The first `warps` warps run the consecutive ids up to the start of
      warp `warps`. */
  lemma {:induction false} PhaseIdsCover(p: CorePlan, nt: nat, warps: nat)
    ensures PhaseIds(p, nt, warps) == Range(p.base, WarpStart(p, warps) * nt)
  {
    if warps > 0 {
      var w := warps - 1;
      var a, b := WarpStart(p, w), LaneCount(p, w);
      PhaseIdsCover(p, nt, w);
      WarpIdsCover(p, nt, w, nt);
      WarpsAbut(p, w);
      MulAddDistrib(a, b, nt);
      assert nt * b == b * nt;
      RangeSplit(p.base, a * nt, nt * b);
    }
  }

  /** The spawned warps run exactly the first nW*NT ids of the core, each
      once: the `min(nW, NW)` warps end exactly at batch nW. */
  lemma FullPhaseCovers(base: nat, count: nat, d: Device)
    requires d.Valid()
    ensures var p := MakePlan(base, count, d);
      PhaseIds(p, d.threads, SpawnedWarps(p, d)) == Range(base, p.nW * d.threads)
  {
    var p := MakePlan(base, count, d);
    PhaseIdsCover(p, d.threads, SpawnedWarps(p, d));
    assert WarpStart(p, SpawnedWarps(p, d)) == p.nW;
  }

  /** Once corrected, a core runs exactly its own ids [base, base + count). */
  lemma CorrectedCoreCovers(s: Split, d: Device, core: nat)
    requires d.Valid()
    ensures Plan(Corrected, s, d, core).Some? ==>
      var p := Plan(Corrected, s, d, core).value;
      CoreIds(Corrected, s, d, core) == Range(p.base, p.count)
  {
    if Plan(Corrected, s, d, core).Some? {
      var p := Plan(Corrected, s, d, core).value;
      FullPhaseCovers(p.base, p.count, d);
      RangeSplit(p.base, p.nW * d.threads, p.rT);
    }
  }

  // ---------------------------------------------------------------------
  // The whole launch

  /** Once corrected, the first n active cores run the ids from 0 on: n
      shares, and the leftover once the last active core is included. */
  lemma {:induction false} CorrectedPrefix(s: Split, d: Device, n: nat)
    requires d.Valid() && d.cores <= NumCoresMax
    requires s.Valid() && s.nc <= d.cores && n <= s.nc
    ensures (MulMono(0, n, s.share);
      LaunchIds(Corrected, s, d, n) == Range(0, n * s.share + if n == s.nc then s.left else 0))
  {
    if n > 0 {
      var core := n - 1;
      var extra := if n == s.nc then s.left else 0;
      var lo, len := core * s.share, s.share + extra;
      MulMono(0, core, s.share);
      CorrectedPrefix(s, d, core);
      assert CoreIds(Corrected, s, d, core) == Range(lo, len) by {
        CorrectedCoreCovers(s, d, core);
      }
      AppendRange(Corrected, s, d, core, lo, len);
      NextShare(core, n, s.share, extra);
    }
  }

  lemma NextShare(core: nat, n: nat, share: nat, extra: nat)
    requires n == core + 1
    ensures core * share + (share + extra) == n * share + extra
  {
    MulAddDistrib(core, 1, share);
  }

  /** A core whose ids continue the run of the cores before it extends
      that run. */
  lemma AppendRange(v: Variant, s: Split, d: Device, core: nat, lo: nat, len: nat)
    requires d.Valid()
    requires LaunchIds(v, s, d, core) == Range(0, lo)
    requires CoreIds(v, s, d, core) == Range(lo, len)
    ensures LaunchIds(v, s, d, core + 1) == Range(0, lo + len)
  {
    RangeSplit(0, lo, len);
  }

  /** Cores from nc on return at once and add no ids. */
  lemma {:induction false} IdleCoresAddNothing(v: Variant, s: Split, d: Device, n: nat)
    requires d.Valid()
    requires s.nc <= n
    ensures LaunchIds(v, s, d, n) == LaunchIds(v, s, d, s.nc)
  {
    if n > s.nc {
      var core := n - 1;
      IdleCoresAddNothing(v, s, d, core);
      assert CoreIds(v, s, d, core) == [] by {
        assert Plan(v, s, d, core).None?;
      }
      assert LaunchIds(v, s, d, n) == LaunchIds(v, s, d, core) + [];
    }
  }

  /** With both defects repaired, and no more cores than the stub can
      address, the device runs every workgroup id of the grid exactly once,
      in increasing order core by core. */
  lemma CorrectedLaunchCovers(q: nat, d: Device)
    requires d.Valid() && d.cores <= NumCoresMax
    ensures Launch(Corrected, q, d) == Range(0, q)
  {
    var s := SplitOf(q, d);
    IdleCoresAddNothing(Corrected, s, d, d.cores);
    CorrectedPrefix(s, d, s.nc);
  }

  /** Ids the source runs on a core other than NC-1 lie below
      (core+1)*(Q/nc): the full-warp phase stays inside the core's share,
      and the remainder phase, lacking the core base, inside the first
      share. */
  lemma AsWrittenCoreBelow(s: Split, d: Device, core: nat)
    requires d.Valid()
    requires Plan(AsWritten, s, d, core).Some? && core != d.cores - 1
    ensures forall id :: id in CoreIds(AsWritten, s, d, core) ==> id < (core + 1) * s.share
  {
    var p := Plan(AsWritten, s, d, core).value;
    FullPhaseCovers(p.base, p.count, d);
    MulAddDistrib(core, 1, s.share);
    assert CoreIds(AsWritten, s, d, core)
        == Range(p.base, p.nW * d.threads) + RemainderIds(AsWritten, p);
  }

  /** Ids below a bound, followed by more ids below it, stay below it. */
  lemma AppendBelow(v: Variant, s: Split, d: Device, core: nat, next: nat, bound: int)
    requires d.Valid() && next == core + 1
    requires forall id :: id in LaunchIds(v, s, d, core) ==> id < bound
    requires forall id :: id in CoreIds(v, s, d, core) ==> id < bound
    ensures forall id :: id in LaunchIds(v, s, d, next) ==> id < bound
  {
    assert LaunchIds(v, s, d, next) == LaunchIds(v, s, d, core) + CoreIds(v, s, d, core);
  }

  /** With fewer than NC cores active, every id the source runs lies below
      nc*(Q/nc). */
  lemma {:induction false} AsWrittenBelow(s: Split, d: Device, n: nat)
    requires d.Valid()
    requires s.nc < d.cores
    requires n <= s.nc
    ensures forall id :: id in LaunchIds(AsWritten, s, d, n) ==> id < s.nc * s.share
  {
    if n > 0 {
      var core := n - 1;
      AsWrittenBelow(s, d, core);
      CoreBelowBound(s, d, core);
      AppendBelow(AsWritten, s, d, core, n, s.nc * s.share);
    }
  }

  /** A core below nc that is not core NC-1 runs only ids below nc*(Q/nc). */
  lemma CoreBelowBound(s: Split, d: Device, core: nat)
    requires d.Valid() && s.nc < d.cores && core < s.nc
    ensures forall id :: id in CoreIds(AsWritten, s, d, core) ==> id < s.nc * s.share
  {
    if Plan(AsWritten, s, d, core).Some? {
      AsWrittenCoreBelow(s, d, core);
      MulMono(core + 1, s.nc, s.share);
    }
  }

  /** The source gives the leftover of an uneven split to core NC-1; when
      fewer cores are active that core is idle, and the last id of the grid
      is never run. */
  lemma LaunchDropsLastId(q: nat, d: Device)
    requires d.Valid()
    ensures ActiveCores(q, d) < d.cores && q % ActiveCores(q, d) != 0 ==> q - 1 !in Launch(AsWritten, q, d)
  {
    if ActiveCores(q, d) < d.cores && q % ActiveCores(q, d) != 0 {
      var s := SplitOf(q, d);
      assert s.left != 0 by {
        DivModUnique(q, s.nc, s.share, s.left);
      }
      IdleCoresAddNothing(AsWritten, s, d, d.cores);
      AsWrittenBelow(s, d, s.nc);
    }
  }

  /** Four cores of one two-lane warp, grid of 5: two cores are active, each
      takes two groups, and group 4 is run by nobody. */
  lemma LeftoverDroppedExample(q: nat, d: Device)
    requires q == 5 && d == Device(4, 1, 2)
    ensures ActiveCores(q, d) == 2
    ensures 4 !in Launch(AsWritten, q, d)
    ensures 4 in Launch(Corrected, q, d)
  {
    assert ActiveCores(q, d) == 2 by { assert q / d.WarpThreads() == 2; }
    LaunchDropsLastId(q, d);
    CoveredIdIsRun(q, d, 4);
  }

  /** Once corrected, every id of the grid is run. */
  lemma CoveredIdIsRun(q: nat, d: Device, id: nat)
    requires d.Valid() && d.cores <= NumCoresMax && id < q
    ensures id in Launch(Corrected, q, d)
  {
    CorrectedLaunchCovers(q, d);
    assert Launch(Corrected, q, d)[id] == id;
  }

  /** The split of a grid of 5 over two cores of one two-lane warp. */
  lemma ExampleSplit(q: nat, d: Device)
    requires q == 5 && d == Device(2, 1, 2)
    ensures SplitOf(q, d) == Split(2, 2, 1)
  {
    assert ActiveCores(q, d) == 2 by { assert q / d.WarpThreads() == 2; }
  }

  /** A two-core device runs core 0's ids, then core 1's. */
  lemma TwoCoreLaunch(v: Variant, q: nat, d: Device)
    requires d.Valid() && d.cores == 2
    ensures Launch(v, q, d) == CoreIds(v, SplitOf(q, d), d, 0) + CoreIds(v, SplitOf(q, d), d, 1)
  {
    var s := SplitOf(q, d);
    assert LaunchIds(v, s, d, 1) == CoreIds(v, s, d, 0);
  }

  /** Core 0 of that split, one full warp of two lanes and no remainder,
      runs its two ids. */
  lemma EvenCoreIds(s: Split, d: Device)
    requires s == Split(2, 2, 1) && d == Device(2, 1, 2)
    ensures CoreIds(AsWritten, s, d, 0) == [0, 1]
  {
    assert MakePlan(0, 2, d) == CorePlan(0, 2, 1, 0, 1, 0);
    FullPhaseCovers(0, 2, d);
    assert Range(0, 2) == [0, 1];
  }

  /** Core 1, base 2, one full warp of two lanes and one remainder lane,
      runs 2 and 3 and then, lacking its base, group 2 again. */
  lemma LastCoreIds(s: Split, d: Device)
    requires s == Split(2, 2, 1) && d == Device(2, 1, 2)
    ensures CoreIds(AsWritten, s, d, 1) == [2, 3, 2]
  {
    assert MakePlan(2, 3, d) == CorePlan(2, 3, 1, 1, 1, 0);
    FullPhaseCovers(2, 3, d);
    assert Range(2, 2) == [2, 3];
    assert Range(2, 1) == [2];
  }

  /** Two cores of one two-lane warp, grid of 5: core 0 runs groups 0 and
      1, core 1 runs 2 and 3 and then group 2 again; group 4 is never run. */
  lemma RemainderRerunsIds(q: nat, d: Device)
    requires q == 5 && d == Device(2, 1, 2)
    ensures Launch(AsWritten, q, d) == [0, 1, 2, 3, 2]
  {
    ExampleSplit(q, d);
    EvenCoreIds(SplitOf(q, d), d);
    LastCoreIds(SplitOf(q, d), d);
    TwoCoreLaunch(AsWritten, q, d);
  }

  /** Same device and grid, corrected: every group once, in order. */
  lemma CorrectedExample(q: nat, d: Device)
    requires q == 5 && d == Device(2, 1, 2)
    ensures Launch(Corrected, q, d) == [0, 1, 2, 3, 4]
  {
    CorrectedLaunchCovers(q, d);
    RangeFive(q);
  }

  lemma RangeFive(q: nat)
    requires q == 5
    ensures Range(0, q) == [0, 1, 2, 3, 4]
  {
  }

  // ---------------------------------------------------------------------
  // Group coordinates

  /** The launch context fields the stub reads. */
  datatype Context = Context(numGroups: Coord, globalOffset: Coord)
  {
    predicate Valid() { numGroups.x >= 1 && numGroups.y >= 1 }
    function GroupCount(): nat { numGroups.x * numGroups.y * numGroups.z }
  }

  /** The (group_x, group_y, group_z) a lane passes to the workgroup
      function for id wg: the decoded id plus the global offset. */
  function GroupArgs(ctx: Context, wg: nat): (g: Coord)
    requires ctx.Valid()
    ensures g.x - ctx.globalOffset.x < ctx.numGroups.x
    ensures g.y - ctx.globalOffset.y < ctx.numGroups.y
  {
    var c := Decode(wg, ctx.numGroups.x, ctx.numGroups.y);
    Coord(ctx.globalOffset.x + c.x, ctx.globalOffset.y + c.y, ctx.globalOffset.z + c.z)
  }

  function Shift(ctx: Context, c: Coord): Coord
  {
    Coord(ctx.globalOffset.x + c.x, ctx.globalOffset.y + c.y, ctx.globalOffset.z + c.z)
  }

  /** Once corrected, the workgroup function is called exactly once for
      every group of the X x Y x Z grid, shifted by the global offset. */
  lemma CorrectedCallsEveryGroupOnce(ctx: Context, d: Device)
    requires ctx.Valid() && d.Valid() && d.cores <= NumCoresMax
    ensures var ids := Launch(Corrected, ctx.GroupCount(), d);
      && |ids| == ctx.GroupCount()
      && (forall i, j :: 0 <= i < j < |ids| ==> GroupArgs(ctx, ids[i]) != GroupArgs(ctx, ids[j]))
      && (forall c :: InGrid(c, ctx.numGroups.x, ctx.numGroups.y, ctx.numGroups.z) ==>
            exists i :: 0 <= i < |ids| && GroupArgs(ctx, ids[i]) == Shift(ctx, c))
  {
    var n := ctx.numGroups;
    var q := ctx.GroupCount();
    var ids := Launch(Corrected, q, d);
    CorrectedLaunchCovers(q, d);
    forall i, j | 0 <= i < j < |ids|
      ensures GroupArgs(ctx, ids[i]) != GroupArgs(ctx, ids[j])
    {
      if GroupArgs(ctx, ids[i]) == GroupArgs(ctx, ids[j]) {
        DecodeInjective(ids[i], ids[j], n.x, n.y);
      }
    }
    forall c | InGrid(c, n.x, n.y, n.z)
      ensures exists i :: 0 <= i < |ids| && GroupArgs(ctx, ids[i]) == Shift(ctx, c)
    {
      var i := Encode(c, n.x, n.y);
      EncodeBelow(c, n.x, n.y, n.z);
      DecodeEncode(c, n.x, n.y);
      assert GroupArgs(ctx, ids[i]) == Shift(ctx, c);
    }
  }
}
