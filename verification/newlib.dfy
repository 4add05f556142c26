/** The newlib device (newlib.cc): kernels compiled into the device program
    register themselves in a fixed-size table at start-up; the host side
    looks them up by name, rebuilds their metadata from the registered
    type codes, and runs a kernel by calling its work-group function once
    per group of the grid. */
module Newlib {
  import opened Base
  import opened Grid

  /** MAX_KERNELS. */
  const MaxKernels: nat := 16

  /** The code the generated registration uses for a local argument. */
  const LocalCode: nat := 4

  /** POCL_ARG_TYPE_NONE. */
  const TypeNone: nat := 0

  /** One kernel_info_t: `pfn` stands for the work-group function. */
  datatype KernelInfo = KernelInfo(name: string, pfn: nat, numArgs: nat, numLocals: nat,
                                   argTypes: seq<nat>, localSizes: seq<nat>)

  /** The generated registration emits one type code per argument and one
      size per automatic local. */
  predicate WellFormed(k: KernelInfo)
  {
    |k.argTypes| == k.numArgs && |k.localSizes| == k.numLocals
  }

  /** g_kernels[0 .. g_num_kernels). */
  datatype Registry = Registry(kernels: seq<KernelInfo>)

  predicate RegistryOk(r: Registry)
  {
    |r.kernels| <= MaxKernels && forall i :: 0 <= i < |r.kernels| ==> WellFormed(r.kernels[i])
  }

  /** _pocl_register_kernel: -1 on a full table, otherwise 0 with the
      kernel appended. */
  function Register(r: Registry, k: KernelInfo): (res: (int, Registry))
    requires |r.kernels| <= MaxKernels
    ensures |res.1.kernels| <= MaxKernels
    ensures res.0 == -1 <==> |r.kernels| == MaxKernels
    ensures res.0 == -1 || (res.0 == 0 && |res.1.kernels| == |r.kernels| + 1 && res.1.kernels[|r.kernels|] == k)
  {
    if |r.kernels| == MaxKernels then (-1, r) else (0, Registry(r.kernels + [k]))
  }

  /** A full table refuses and stays as it was; otherwise the kernel takes
      the next index and nothing before it moves. The table never grows
      past MAX_KERNELS. */
  lemma RegisterSpec(r: Registry, k: KernelInfo)
    requires RegistryOk(r) && WellFormed(k)
    ensures var (err, r') := Register(r, k);
      && RegistryOk(r')
      && (err == -1 <==> |r.kernels| == MaxKernels)
      && (err == -1 ==> r' == r)
      && (err == 0 ==> |r'.kernels| == |r.kernels| + 1 && r'.kernels[|r.kernels|] == k
                       && r'.kernels[..|r.kernels|] == r.kernels)
  {
    if |r.kernels| < MaxKernels {
      var r' := Register(r, k).1;
      assert r'.kernels[..|r.kernels|] == r.kernels;
      forall i | 0 <= i < |r'.kernels|
        ensures WellFormed(r'.kernels[i])
      {
        if i < |r.kernels| {
          assert r'.kernels[i] == r.kernels[i];
        }
      }
    }
  }

  /** The lowest index whose name matches, if any. */
  function FirstMatch(ks: seq<KernelInfo>, name: string): (r: Option<nat>)
    ensures r.Some? ==> r.value < |ks|
    decreases |ks|
  {
    if |ks| == 0 then None
    else if ks[0].name == name then Some(0)
    else match FirstMatch(ks[1..], name)
      case None => None
      case Some(i) => Some(i + 1)
  }

  /** FirstMatch finds a matching entry with no match before it, and
      finds nothing only when no entry matches. */
  lemma {:induction false} FirstMatchSpec(ks: seq<KernelInfo>, name: string)
    ensures FirstMatch(ks, name).None? <==> forall i :: 0 <= i < |ks| ==> ks[i].name != name
    ensures FirstMatch(ks, name).Some? ==>
              var i := FirstMatch(ks, name).value;
              ks[i].name == name && forall j :: 0 <= j < i ==> ks[j].name != name
    decreases |ks|
  {
    if |ks| > 0 && ks[0].name != name {
      FirstMatchSpec(ks[1..], name);
      assert forall i :: 1 <= i < |ks| ==> ks[i] == ks[1..][i - 1];
    }
  }

  /** The outputs a query can write. */
  datatype Outputs = Outputs(pfn: nat, numArgs: nat, numLocals: nat, argTypes: seq<nat>, localSizes: seq<nat>)

  /** Which output pointers the caller passed non-null. */
  datatype Wanted = Wanted(pfn: bool, numArgs: bool, numLocals: bool, argTypes: bool, localSizes: bool)

  /** The outputs after a hit on `k`: the wanted ones taken from `k`, the
      others as the caller had them. */
  function Fill(prev: Outputs, want: Wanted, k: KernelInfo): Outputs
  {
    Outputs(if want.pfn then k.pfn else prev.pfn,
            if want.numArgs then k.numArgs else prev.numArgs,
            if want.numLocals then k.numLocals else prev.numLocals,
            if want.argTypes then k.argTypes else prev.argTypes,
            if want.localSizes then k.localSizes else prev.localSizes)
  }

  /** _pocl_query_kernel: the table scanned from index 0; 0 and the
      wanted outputs of the first kernel of that name, or -1 with nothing
      written. */
  method Query(r: Registry, name: string, want: Wanted, prev: Outputs) returns (err: int, out: Outputs)
    ensures err == 0 || err == -1
    ensures err == -1 <==> FirstMatch(r.kernels, name).None?
    ensures err == -1 ==> out == prev
    ensures err == 0 ==> out == Fill(prev, want, r.kernels[FirstMatch(r.kernels, name).value])
  {
    FirstMatchSpec(r.kernels, name);
    var i := 0;
    while i < |r.kernels|
      invariant 0 <= i <= |r.kernels|
      invariant forall j :: 0 <= j < i ==> r.kernels[j].name != name
    {
      var k := r.kernels[i];
      if k.name == name {
        FirstMatchUnique(r.kernels, name, i);
        return 0, Fill(prev, want, k);
      }
      i := i + 1;
    }
    return -1, prev;
  }

  /** A matching index with no match before it is the first match. */
  lemma FirstMatchUnique(ks: seq<KernelInfo>, name: string, i: nat)
    requires i < |ks| && ks[i].name == name
    requires forall j :: 0 <= j < i ==> ks[j].name != name
    ensures FirstMatch(ks, name) == Some(i)
  {
    FirstMatchSpec(ks, name);
  }

  /** pocl_newlib_supports_builtin_kernel: 1 when the query succeeds. */
  method Supports(r: Registry, name: string) returns (yes: int)
    ensures yes == 1 <==> exists i :: 0 <= i < |r.kernels| && r.kernels[i].name == name
    ensures yes == 0 || yes == 1
  {
    var err, _ := Query(r, name, Wanted(false, false, false, false, false), Outputs(0, 0, 0, [], []));
    FirstMatchSpec(r.kernels, name);
    yes := if err == 0 then 1 else 0;
  }

  /** A registered kernel is found under its name, unless an earlier
      registration used the same name, which then wins. */
  lemma RegisterThenFind(r: Registry, k: KernelInfo)
    requires |r.kernels| < MaxKernels
    ensures var r' := Register(r, k).1;
      FirstMatch(r'.kernels, k.name)
      == if FirstMatch(r.kernels, k.name).Some? then FirstMatch(r.kernels, k.name) else Some(|r.kernels|)
  {
    var r' := Register(r, k).1;
    FirstMatchSpec(r.kernels, k.name);
    FirstMatchSpec(r'.kernels, k.name);
    assert forall j :: 0 <= j < |r.kernels| ==> r'.kernels[j] == r.kernels[j];
    match FirstMatch(r.kernels, k.name)
    case Some(i) => FirstMatchUnique(r'.kernels, k.name, i);
    case None => FirstMatchUnique(r'.kernels, k.name, |r.kernels|);
  }

  /** What the metadata records about one argument. */
  datatype ArgInfo = ArgInfo(local: bool, typ: nat)

  /** The code the generator emits for an argument: 4 for a local,
      otherwise its type. */
  function EncodeArg(a: ArgInfo): nat
  {
    if a.local then LocalCode else a.typ
  }

  /** The metadata rebuilt from a code: 4 is a local of type NONE, any
      other code a non-local of that type. */
  function DecodeArg(c: nat): (a: ArgInfo)
    ensures Codable(a) && EncodeArg(a) == c
  {
    if c == LocalCode then ArgInfo(true, TypeNone) else ArgInfo(false, c)
  }

  /** Arguments the codes describe faithfully: locals carry type NONE and
      no other argument has type 4. */
  predicate Codable(a: ArgInfo)
  {
    if a.local then a.typ == TypeNone else a.typ != LocalCode
  }

  /** Every code decodes to an argument that encodes back to it, and every
      codable argument survives the round trip. */
  lemma ArgCodeRoundTrip(c: nat, a: ArgInfo)
    ensures EncodeArg(DecodeArg(c)) == c && Codable(DecodeArg(c))
    ensures Codable(a) ==> DecodeArg(EncodeArg(a)) == a
  {
  }

  /** The metadata the host builds for a kernel. */
  datatype Metadata = Metadata(name: string, pfn: nat, numArgs: nat, numLocals: nat,
                               argInfo: seq<ArgInfo>, localSizes: seq<nat>)

  /** The metadata built from query outputs: the argument codes decoded and
      the local sizes copied one by one. */
  function BuildMetadata(name: string, o: Outputs): (m: Metadata)
    requires |o.argTypes| >= o.numArgs && |o.localSizes| >= o.numLocals
    ensures |m.argInfo| == m.numArgs && |m.localSizes| == m.numLocals
  {
    Metadata(name, o.pfn, o.numArgs, o.numLocals,
             seq(o.numArgs, i requires 0 <= i < o.numArgs => DecodeArg(o.argTypes[i])),
             seq(o.numLocals, i requires 0 <= i < o.numLocals => o.localSizes[i]))
  }

  /** A kernel's registered outputs, as a query with every output wanted
      returns them. */
  function KernelOutputs(k: KernelInfo): Outputs
  {
    Outputs(k.pfn, k.numArgs, k.numLocals, k.argTypes, k.localSizes)
  }

  /** pocl_newlib_get_builtin_kernel_metadata, after the query: `junk`
      stands for the uninitialised locals the query fills. As written a
      failed query is ignored, the metadata is built from `junk` and the
      call succeeds; corrected it returns the query's error. */
  function GetMetadata(v: Variant, r: Registry, name: string, junk: Outputs): (res: (int, Option<Metadata>))
    requires RegistryOk(r) && |junk.argTypes| >= junk.numArgs && |junk.localSizes| >= junk.numLocals
    ensures v == AsWritten ==> res.0 == 0 && res.1.Some?
    ensures v == Corrected ==> (res.0 == 0 <==> FirstMatch(r.kernels, name).Some?)
    ensures res.0 != 0 ==> res.1.None?
    ensures res.0 == 0 && FirstMatch(r.kernels, name).Some? ==>
              res.1 == Some(BuildMetadata(name, KernelOutputs(r.kernels[FirstMatch(r.kernels, name).value])))
  {
    match FirstMatch(r.kernels, name)
    case Some(i) =>
      assert WellFormed(r.kernels[i]);
      (0, Some(BuildMetadata(name, KernelOutputs(r.kernels[i]))))
    case None =>
      if v == Corrected then (-1, None) else (0, Some(BuildMetadata(name, junk)))
  }

  /** For a registered kernel the metadata lists, for each argument,
      exactly the argument the generator encoded, and the local sizes it
      registered. */
  lemma MetadataRoundTrip(name: string, pfn: nat, args: seq<ArgInfo>, localSizes: seq<nat>)
    requires forall i :: 0 <= i < |args| ==> Codable(args[i])
    ensures var k := KernelInfo(name, pfn, |args|, |localSizes|,
                                seq(|args|, i requires 0 <= i < |args| => EncodeArg(args[i])), localSizes);
      BuildMetadata(name, KernelOutputs(k)) == Metadata(name, pfn, |args|, |localSizes|, args, localSizes)
  {
    forall i | 0 <= i < |args|
      ensures DecodeArg(EncodeArg(args[i])) == args[i]
    {
      ArgCodeRoundTrip(0, args[i]);
    }
  }

  /** As written, asking an empty table for a kernel succeeds, with
      metadata made of whatever the uninitialised locals held; corrected,
      the call fails and builds nothing. */
  lemma MissingKernelMetadata(junk: Outputs)
    requires |junk.argTypes| >= junk.numArgs && |junk.localSizes| >= junk.numLocals
    ensures GetMetadata(AsWritten, Registry([]), "k", junk) == (0, Some(BuildMetadata("k", junk)))
    ensures GetMetadata(Corrected, Registry([]), "k", junk) == (-1, None)
  {
  }

  /** The group loop of pocl_newlib_run: z outermost, then y, then x; one
      call per group, recorded as its coordinate. Call i is the group of
      linear id i. */
  method Dispatch(nx: nat, ny: nat, nz: nat) returns (calls: seq<Coord>)
    ensures |calls| == nx * ny * nz
    ensures forall i :: 0 <= i < |calls| ==> InGrid(calls[i], nx, ny, nz) && Encode(calls[i], nx, ny) == i
  {
    calls := [];
    var z := 0;
    while z < nz
      invariant z <= nz
      invariant |calls| == z * (nx * ny)
      invariant forall i :: 0 <= i < |calls| ==> InGrid(calls[i], nx, ny, nz) && Encode(calls[i], nx, ny) == i
    {
      var y := 0;
      while y < ny
        invariant y <= ny
        invariant |calls| == z * (nx * ny) + y * nx
        invariant forall i :: 0 <= i < |calls| ==> InGrid(calls[i], nx, ny, nz) && Encode(calls[i], nx, ny) == i
      {
        var x := 0;
        while x < nx
          invariant x <= nx
          invariant |calls| == z * (nx * ny) + y * nx + x
          invariant forall i :: 0 <= i < |calls| ==> InGrid(calls[i], nx, ny, nz) && Encode(calls[i], nx, ny) == i
        {
          calls := calls + [Coord(x, y, z)];
          x := x + 1;
        }
        y := y + 1;
      }
      assert |calls| == (z + 1) * (nx * ny);
      z := z + 1;
    }
    assert nx * ny * nz == nz * (nx * ny);
  }

  /** Every group of the grid is visited exactly once: at the position of
      its linear id, and nowhere else. */
  lemma DispatchVisitsOnce(calls: seq<Coord>, nx: nat, ny: nat, nz: nat, c: Coord)
    requires |calls| == nx * ny * nz
    requires forall i :: 0 <= i < |calls| ==> InGrid(calls[i], nx, ny, nz) && Encode(calls[i], nx, ny) == i
    requires InGrid(c, nx, ny, nz)
    ensures Encode(c, nx, ny) < |calls| && calls[Encode(c, nx, ny)] == c
    ensures forall i :: 0 <= i < |calls| && calls[i] == c ==> i == Encode(c, nx, ny)
  {
    EncodeBelow(c, nx, ny, nz);
    var i := Encode(c, nx, ny);
    var d := calls[i];
    DecodeEncode(c, nx, ny);
    DecodeEncode(d, nx, ny);
  }
}
