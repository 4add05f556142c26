/** How the current driver names kernels: the NUL-separated name table
    built after compilation (`convertToCharArray`), the lookup that gives a
    kernel its id (`pocl_vortex_create_kernel`), the selector the compiler
    adds to the binary (`addKernelSelect`), the kernel refcounts, and
    `remove_extension` for the binary's path. */
module KernelNames {
  import opened Base

  const NUL: char := 0 as char

  predicate NulFree(s: string)
  {
    forall i :: 0 <= i < |s| ==> s[i] != NUL
  }

  predicate AllNulFree(names: seq<string>)
  {
    forall k :: 0 <= k < |names| ==> NulFree(names[k])
  }

  predicate Distinct(names: seq<string>)
  {
    forall i, j :: 0 <= i < j < |names| ==> names[i] != names[j]
  }

  // ---------------------------------------------------------------------
  // The name table

  /** The table: every name followed by a NUL. */
  function Pack(names: seq<string>): (r: string)
  {
    if |names| == 0 then [] else names[0] + [NUL] + Pack(names[1..])
  }

  /** Where name k starts: the lengths of the names before it, plus one
      NUL each. */
  function Start(names: seq<string>, k: nat): (r: nat)
    requires k <= |names|
  {
    if k == 0 then 0 else |names[0]| + 1 + Start(names[1..], k - 1)
  }

  /** The table is Σ(len + 1) bytes long; name k sits at its start and is
      followed by a NUL. */
  lemma PackLayout(names: seq<string>, k: nat)
    requires k < |names|
    ensures |Pack(names)| == Start(names, |names|)
    ensures Start(names, k) + |names[k]| < |Pack(names)|
    ensures Pack(names)[Start(names, k) .. Start(names, k) + |names[k]|] == names[k]
    ensures Pack(names)[Start(names, k) + |names[k]|] == NUL
    ensures Start(names, k + 1) == Start(names, k) + |names[k]| + 1
  {
    PackLength(names);
    StartNext(names, k);
    StartBelow(names, k + 1);
    PackAt(names, k);
  }

  /** The table holds every name and its NUL. */
  lemma {:induction false} PackLength(names: seq<string>)
    ensures |Pack(names)| == Start(names, |names|)
  {
    if |names| > 0 {
      PackLength(names[1..]);
    }
  }

  /** Name k + 1 starts one NUL after the end of name k. */
  lemma {:induction false} StartNext(names: seq<string>, k: nat)
    requires k < |names|
    ensures Start(names, k + 1) == Start(names, k) + |names[k]| + 1
  {
    if k > 0 {
      StartNext(names[1..], k - 1);
      assert names[1..][k - 1] == names[k];
    }
  }

  /** Starts never pass the end of the table. */
  lemma {:induction false} StartBelow(names: seq<string>, k: nat)
    requires k <= |names|
    ensures Start(names, k) <= Start(names, |names|)
  {
    if k > 0 {
      StartBelow(names[1..], k - 1);
    }
  }

  /** Name k and the NUL after it, at name k's start. */
  lemma {:induction false} PackAt(names: seq<string>, k: nat)
    requires k < |names|
    ensures Start(names, k) + |names[k]| < |Pack(names)|
    ensures Pack(names)[Start(names, k) .. Start(names, k) + |names[k]|] == names[k]
    ensures Pack(names)[Start(names, k) + |names[k]|] == NUL
  {
    var rest := names[1..];
    var head := names[0] + [NUL];
    assert Pack(names) == head + Pack(rest);
    if k > 0 {
      PackAt(rest, k - 1);
      assert rest[k - 1] == names[k];
      SliceAfter(head, Pack(rest), Start(rest, k - 1), Start(rest, k - 1) + |names[k]|);
    }
  }

  /** The C string at `at`: the characters up to the first NUL (or the end
      of the table). */
  function CStr(buf: string, at: nat): (r: string)
    ensures NulFree(r)
    decreases |buf| - at
  {
    if at >= |buf| || buf[at] == NUL then [] else [buf[at]] + CStr(buf, at + 1)
  }

  /** A NUL-free string stored with a NUL after it reads back as itself. */
  lemma {:induction false} CStrAt(buf: string, at: nat, s: string)
    requires NulFree(s) && at + |s| < |buf|
    requires buf[at .. at + |s|] == s && buf[at + |s|] == NUL
    ensures CStr(buf, at) == s
    decreases |s|
  {
    if |s| > 0 {
      assert buf[at] == s[0];
      assert buf[at + 1 .. at + 1 + |s[1..]|] == s[1..];
      CStrAt(buf, at + 1, s[1..]);
    }
  }

  /** The create_kernel walk from name i at `cur`: compare, then step past
      the name and its NUL. */
  function FindFrom(buf: string, cur: nat, i: nat, n: nat, name: string): (r: Option<nat>)
    ensures r.Some? ==> i <= r.value < n
    decreases n - i
  {
    if i >= n then None
    else if CStr(buf, cur) == name then Some(i)
    else FindFrom(buf, cur + |CStr(buf, cur)| + 1, i + 1, n, name)
  }

  /** On the table of NUL-free names, the walk finds the first name equal
      to the one looked up, and nothing when there is none. */
  lemma {:induction false} FindFromPack(names: seq<string>, j: nat, x: string)
    requires AllNulFree(names) && j <= |names|
    ensures var r := FindFrom(Pack(names), Start(names, j), j, |names|, x);
      && (r.Some? ==> names[r.value] == x && forall m :: j <= m < r.value ==> names[m] != x)
      && (r.None? <==> forall m :: j <= m < |names| ==> names[m] != x)
    decreases |names| - j
  {
    if j < |names| {
      PackLayout(names, j);
      CStrAt(Pack(names), Start(names, j), names[j]);
      if names[j] != x {
        FindFromPack(names, j + 1, x);
      }
    }
  }

  /** The id create_kernel gives a kernel name. */
  function KernelIdOf(names: seq<string>, x: string): Option<nat>
  {
    FindFrom(Pack(names), 0, 0, |names|, x)
  }

  /** For distinct NUL-free names, the lookup inverts the packing: name i
      gets id i, and a name not in the table none. */
  lemma KernelIdInverts(names: seq<string>, x: string)
    requires AllNulFree(names) && Distinct(names)
    ensures forall i :: 0 <= i < |names| && names[i] == x ==> KernelIdOf(names, x) == Some(i)
    ensures KernelIdOf(names, x).None? <==> x !in names
  {
    FindFromPack(names, 0, x);
  }

  // ---------------------------------------------------------------------
  // The selector in the binary

  /** A function of the compiled module: its name and whether it is a
      kernel that `processKernels` rewrites. */
  datatype Fn = Fn(name: string, isKernel: bool)

  /** The names `processKernels` collects: each kernel's wrapper takes the
      kernel's name, in module order. */
  function KernelNamesOf(fns: seq<Fn>): (r: seq<string>)
    ensures |r| <= |fns|
  {
    if |fns| == 0 then []
    else (if fns[0].isKernel then [fns[0].name] else []) + KernelNamesOf(fns[1..])
  }

  /** The functions `addKernelSelect` gives a case, in module order: those
      whose name is among the collected names. */
  function SelectorCases(fns: seq<Fn>, collected: seq<string>): (r: seq<string>)
  {
    if |fns| == 0 then []
    else (if fns[0].name in collected then [fns[0].name] else []) + SelectorCases(fns[1..], collected)
  }

  /** `__vx_get_kernel_callback`: case i returns the i-th function, any
      other index (negative ones included) returns null. */
  function Select(cases: seq<string>, index: int): (r: Option<string>)
    ensures r.Some? <==> 0 <= index < |cases|
    ensures r.Some? ==> r.value == cases[index]
  {
    if 0 <= index < |cases| then Some(cases[index]) else None
  }

  predicate DistinctFns(fns: seq<Fn>)
  {
    forall i, j :: 0 <= i < j < |fns| ==> fns[i].name != fns[j].name
  }

  /** A name is collected exactly when some kernel function carries it. */
  lemma {:induction false} KernelNamesIn(fns: seq<Fn>, x: string)
    ensures x in KernelNamesOf(fns) <==> exists i :: 0 <= i < |fns| && fns[i].isKernel && fns[i].name == x
    decreases |fns|
  {
    if |fns| > 0 {
      var rest := fns[1..];
      var head := if fns[0].isKernel then [fns[0].name] else [];
      KernelNamesIn(rest, x);
      assert KernelNamesOf(fns) == head + KernelNamesOf(rest);
      if x in KernelNamesOf(fns) {
        if x in head {
          assert fns[0].isKernel && fns[0].name == x;
        } else {
          var i :| 0 <= i < |rest| && rest[i].isKernel && rest[i].name == x;
          assert fns[i + 1] == rest[i];
        }
      }
      if exists i :: 0 <= i < |fns| && fns[i].isKernel && fns[i].name == x {
        var i :| 0 <= i < |fns| && fns[i].isKernel && fns[i].name == x;
        if i > 0 {
          assert rest[i - 1] == fns[i];
        }
      }
    }
  }

  /** With distinct function names, the selector's cases are exactly the
      collected kernel names, in the same order. */
  lemma {:induction false} CasesAreKernels(fns: seq<Fn>, suffix: nat)
    requires DistinctFns(fns) && suffix <= |fns|
    ensures SelectorCases(fns[suffix..], KernelNamesOf(fns)) == KernelNamesOf(fns[suffix..])
    decreases |fns| - suffix
  {
    var rest := fns[suffix..];
    if |rest| > 0 {
      assert rest[1..] == fns[suffix + 1..];
      CasesAreKernels(fns, suffix + 1);
      KernelNamesIn(fns, rest[0].name);
    }
  }

  /** End to end: with distinct NUL-free function names, the id the host
      gives kernel name x selects, on the device, the function of that
      name. */
  lemma HostIdSelectsKernel(fns: seq<Fn>, x: string)
    requires DistinctFns(fns) && AllNulFree(KernelNamesOf(fns))
    requires x in KernelNamesOf(fns)
    ensures KernelIdOf(KernelNamesOf(fns), x).Some?
    ensures Select(SelectorCases(fns, KernelNamesOf(fns)), KernelIdOf(KernelNamesOf(fns), x).value) == Some(x)
  {
    var names := KernelNamesOf(fns);
    CasesAreKernels(fns, 0);
    assert fns[0..] == fns;
    FindFromPack(names, 0, x);
  }

  // ---------------------------------------------------------------------
  // Kernel refcounts

  /** vortex_kernel_data_t. */
  datatype KernelData = KernelData(kernelId: nat, refcount: nat)

  /** `pocl_vortex_create_kernel`: existing data only gains a reference;
      otherwise the kernel's id is the position of its name in the table,
      which must be found. */
  function CreateKernel(kd: Option<KernelData>, table: string, numKernels: nat, name: string): (r: Result<KernelData>)
    requires kd.Some? ==> kd.value.refcount < U64
    ensures r.Ok? ==> r.value.refcount < U64
    ensures kd.Some? ==> r.Ok? && r.value.kernelId == kd.value.kernelId
                         && r.value.refcount == (kd.value.refcount + 1) % U64
    ensures kd.None? && r.Ok? ==> r.value.refcount == 1 && r.value.kernelId < numKernels
  {
    if kd.Some? then Ok(kd.value.(refcount := Inc64(kd.value.refcount)))
    else
      match FindFrom(table, 0, 0, numKernels, name)
      case None => Abort("assert(found)")
      case Some(i) => Ok(KernelData(i, 1))
  }

  /** `pocl_vortex_free_kernel`: drop a reference and release the data
      when none is left. */
  function FreeKernel(kd: Option<KernelData>): (r: Option<KernelData>)
    requires kd.Some? ==> kd.value.refcount < U64
    ensures kd.None? ==> r.None?
    ensures kd.Some? ==> (r.None? <==> kd.value.refcount == 1)
    ensures r.Some? ==> kd.Some? && r.value.kernelId == kd.value.kernelId
                        && r.value.refcount < U64 && (r.value.refcount + 1) % U64 == kd.value.refcount
  {
    if kd.None? then None
    else if Dec64(kd.value.refcount) == 0 then None
    else Some(kd.value.(refcount := Dec64(kd.value.refcount)))
  }

  /** Creating a kernel and freeing it again leaves its data as it was,
      and a first creation gives the kernel the id of its name. */
  lemma CreateFreeRoundTrip(kd: Option<KernelData>, names: seq<string>, name: string)
    requires kd.Some? ==> 1 <= kd.value.refcount < U64
    requires AllNulFree(names) && Distinct(names) && name in names
    ensures CreateKernel(kd, Pack(names), |names|, name).Ok?
    ensures FreeKernel(Some(CreateKernel(kd, Pack(names), |names|, name).value)) == kd
    ensures kd.None? ==> Some(CreateKernel(kd, Pack(names), |names|, name).value.kernelId) == KernelIdOf(names, name)
  {
    KernelIdInverts(names, name);
    if kd.Some? {
      IncDecInverse(kd.value.refcount);
    }
  }

  // ---------------------------------------------------------------------
  // The binary's path

  /** The position of the last '.', if any. */
  function LastDot(s: string): (r: Option<nat>)
    ensures r.Some? ==> r.value < |s| && s[r.value] == '.' && forall i :: r.value < i < |s| ==> s[i] != '.'
    ensures r.None? ==> forall i :: 0 <= i < |s| ==> s[i] != '.'
  {
    if |s| == 0 then None
    else if s[|s| - 1] == '.' then Some(|s| - 1)
    else LastDot(s[..|s| - 1])
  }

  /** `remove_extension`: cut the string at its last '.'. */
  function RemoveExtension(s: string): (r: string)
    ensures |r| <= |s| && r == s[..|r|]
    ensures |r| < |s| ==> s[|r|] == '.'
  {
    match LastDot(s)
    case None => s
    case Some(d) => s[..d]
  }

  /** The result is a prefix; a string without '.' is unchanged, and
      otherwise exactly the last '.' and what follows it, which holds no
      other '.', are removed. */
  lemma RemoveExtensionSpec(s: string)
    ensures |RemoveExtension(s)| <= |s| && RemoveExtension(s) == s[..|RemoveExtension(s)|]
    ensures ('.' !in s) <==> RemoveExtension(s) == s
    ensures '.' in s ==> var n := |RemoveExtension(s)|;
      s[n] == '.' && forall i :: n < i < |s| ==> s[i] != '.'
  {
    if '.' in s {
      var i :| 0 <= i < |s| && s[i] == '.';
      assert LastDot(s).Some?;
    }
  }

  /** The path of the binary the host uploads: the bitcode path without its
      extension, followed by ".vxbin". */
  function BinaryPath(bc: string): (r: string)
    ensures |r| == |RemoveExtension(bc)| + 6
    ensures r[..|RemoveExtension(bc)|] == RemoveExtension(bc) && r[|RemoveExtension(bc)|..] == ".vxbin"
  {
    RemoveExtension(bc) + ".vxbin"
  }
}
