# A Dafny model of the Vortex back-end of pocl

This project models the core of the pocl back-end for the Vortex RISC-V GPU.
It covers how an OpenCL kernel launch travels from the host driver to the
work-items on the device. It then proves that each step agrees with the next.

The modelled pieces, one Dafny module each:

- **Base**: the shared vocabulary.
  - Option and Result.
  - Powers of two and `alignOffset`.
  - Bitwise AND on naturals.
  - Little-endian byte encodings.
  - Host-buffer stores modelled as `memcpy` splices.
- **Grid**: the row-major 3-D index encoding that the stub, the task spawner, the work-item loops and the newlib device all use.
- **Layout**: the device-visible structs `kernel_args_t` and `kernel_context_t`, and `ALIGNED_CTX_SIZE`.
- **Distribution**: `vx_spawn_kernel` from `_vortex_kernel_stub.h`. It spreads Q work-groups over NC cores, NW warps per core and NT lanes per warp.
- **TaskSpawn**: the task-spawn code the compiler emits as C text. This covers `is_log2`, `log2_fast`, the callback that decodes a task id into a group, and the `main` that spawns the tasks.
- **ArgBuffer**, **ArgStores**, **ArgReader**: the argument buffer of the current driver.
  - The size pass and the write pass of `pocl_vortex_run`.
  - The stores they leave in the host buffer.
  - The loads that the kernel wrapper generated by `createArgumentsBuffer` makes.
  - Agreement between those stores and those loads.
- **HostLaunch**: one `pocl_vortex_run`.
  - The empty-NDRange skip in uint32.
  - The occupancy check.
  - The buffer of header, padding and arguments.
  - The upload of the program binary.
- **DeviceEntry**: the device `main` of `kernel_main.c`. It reads the header, stores the work dimension and global offset, and hands the kernel its argument pointer.
- **KernelNames**: how kernels get ids.
  - The NUL-separated name table.
  - The `create_kernel` lookup.
  - The `__vx_get_kernel_callback` selector the compiler adds.
  - Kernel refcounts.
  - The binary's path.
- **LegacyBuffer**: the argument buffer of the older driver in `vortex.cc`. It holds a context, a slot table and a data region at `KERNEL_ARG_BASE_ADDR`.
- **WorkItems**: the OpenCL C work-item functions of `workitems.c`.
- **Newlib**: the newlib device. It covers the kernel registry, the query, metadata rebuilt from registered type codes, and the work-group loop.
- **WiLoops**: the work-item loops the Vortex compiler passes emit.
  - The per-hardware-thread start and stride.
  - The decode of each id into (x, y, z).
  - The unroll-count search.
  - The padding of context-array elements.
- **Scheduler**: the device's context refcount and its two command lists, with the scheduler that drains the ready list.

Where the code has an evident defect, the model has a `Variant` parameter. `AsWritten` follows the code and `Corrected` follows the evident intent; see "## Findings". Integers are unbounded. Where the model follows the source's uint32, int or size_t wrap-around, the wrap is written out; where it does not, "## Left out" says so. Signed int overflow, which C leaves undefined, is read as two's-complement wrap wherever the model follows it.

## Model

| member | source | states |
|---|---|---|
| Base.Dec64 | lib/CL/devices/vortex/pocl-vortex.c:299 | a size_t decrement is one less modulo 2^64, so a count of 0 wraps to 2^64 - 1 |
| Base.Inc64 | lib/CL/devices/vortex/pocl-vortex.c:289 | a size_t increment is one more modulo 2^64, so 2^64 - 1 wraps to 0 |
| Base.IncDecInverse | lib/CL/devices/vortex/pocl-vortex.c:289-299 | the size_t increment and decrement undo each other on every count, the wrapping ones included |
| Base.ToInt32 | lib/CL/devices/vortex/kernel_main.c:17 | a uint32 stored in a C int becomes the int32 with the same bits: its value modulo 2^32 is the uint32, and values below 2^31 are unchanged |
| Base.AlignOffset | lib/CL/devices/vortex/pocl-vortex.c:441-459 | the model's reading of `alignOffset`, whose definition is not part of this model (see "## Left out"): rounding up to a multiple of the alignment, 4 or 8, at least the offset and less than the offset plus the alignment; the cited lines are where the host calls it |
| Base.AlignOffsetLeast | lib/CL/devices/vortex/pocl-vortex.c:441-459 | under that rounding-up reading of `alignOffset`, the result is the least multiple of the alignment not below the offset |
| Base.AlignOffsetAligned | lib/CL/devices/vortex/pocl-vortex.c:441-459 | under that rounding-up reading of `alignOffset`, an offset that is already aligned stays where it is |
| Base.AlignStep | lib/CL/devices/vortex/pocl-vortex.c:527-553 | under that rounding-up reading of `alignOffset`, the host's step after a store of 1 to a pointer's size of bytes moves an aligned offset to the next alignment boundary |
| Base.AlignShift | lib/CL/devices/vortex/pocl-vortex.c:447-467 | under that rounding-up reading of `alignOffset`, the size pass's rounding commutes with a shift by a multiple of the alignment |
| Base.BitAndPredecessor | lib/CL/pocl_llvm_build_vortex.cc:184-186 | x & (x - 1) is 0 exactly when x is a power of two |
| Base.LERoundTrip | lib/CL/devices/vortex/pocl-vortex.c:527-530 | a value stored by memcpy as n little-endian bytes reads back as itself whenever it fits in n bytes |
| Base.LERoundTripTruncated | lib/CL/devices/vortex/pocl-vortex.c:539-543 | storing the low n bytes of a wider value reads back as the value modulo 256^n |
| Base.Words32RoundTrip | lib/CL/devices/vortex/pocl-vortex.c:506-515 | a struct of uint32 fields stored word by word reads back as each field modulo 2^32 |
| Base.SpliceRead | lib/CL/devices/vortex/pocl-vortex.c:527-553 | a memcpy leaves its data where it wrote it |
| Base.SpliceKeep | lib/CL/devices/vortex/pocl-vortex.c:527-553 | a memcpy leaves every range it does not touch as it was |
| Base.ApplyWritesUntouched | lib/CL/devices/vortex/pocl-vortex.c:517-567 | a byte no store of the write pass covers keeps the value malloc left there |
| Base.ApplyWritesReadBack | lib/CL/devices/vortex/pocl-vortex.c:517-567 | a store that overlaps no other store of the pass reads back unchanged after the whole pass |
| Base.NegativeToUnsigned | lib/CL/devices/vortex/pocl-vortex.c:477-481 | a negative int above -2^32 read as a uint32 is that int plus 2^32, the reading a signed-unsigned comparison gives it |
| Grid.Decode | include/_vortex_kernel_stub.h:59-63 | the decoded x and y lie inside the X x Y plane |
| Grid.EncodeDecode | include/_vortex_kernel_stub.h:59-63 | re-linearising a decoded id, z*XY + y*X + x, gives the id back |
| Grid.DecodeEncode | include/_vortex_kernel_stub.h:59-63 | decoding the linear id of an in-plane coordinate gives the coordinate back |
| Grid.DecodeInGrid | include/_vortex_kernel_stub.h:59-63 | an id below X*Y*Z decodes to a coordinate inside the grid |
| Grid.EncodeBelow | include/_vortex_kernel_stub.h:59-63 | the linear id of a coordinate inside the grid is below X*Y*Z |
| Grid.DecodeInjective | include/_vortex_kernel_stub.h:59-63 | two ids decode to the same group only if they are equal |
| Layout.AlignedCtxSize | lib/CL/devices/vortex/vortex.cc:112-122 | ALIGNED_CTX_SIZE is a multiple of 4 at most 3 bytes above sizeof(kernel_context_t), which with thirteen uint32_t fields makes it 52 |
| Layout.ContextRoundTrip | lib/CL/devices/vortex/vortex.cc:112-120 | the device reads back every kernel_context_t field the host copied, each truncated to its uint32_t slot |
| Layout.KernelArgsRoundTrip | lib/CL/devices/vortex/kernel_args.h:3-9 | the device reads back every kernel_args_t field the host stored, each truncated to 32 bits |
| Layout.EncodeContext | lib/CL/devices/vortex/vortex.cc:112-122 | the host's context image is exactly sizeof(kernel_context_t) bytes, thirteen uint32_t fields |
| Layout.DecodeKernelArgs | lib/CL/devices/vortex/kernel_args.h:3-9 | every field the device reads from the header is a uint32 |
| Distribution.ActiveCores | include/_vortex_kernel_stub.h:120-125 | between 1 and NC cores take part, and more than one only when every active core has at least a full device batch of NW*NT groups |
| Distribution.SplitOf | include/_vortex_kernel_stub.h:127-133 | the active cores times the per-core share, plus a leftover smaller than the core count, is exactly the grid's Q groups |
| Distribution.MakePlan | include/_vortex_kernel_stub.h:135-141 | a core's count is nW warps of NT lanes plus rT < NT lanes; with nW >= NW the warps are fW >= 1 full rounds plus rW < NW extra warps, otherwise fW is raised to 1 and rW is 0 |
| Distribution.Plan | include/_vortex_kernel_stub.h:115-133 | a core works iff its id is below NUM_CORES_MAX and the active count; it starts at core*share and also takes the leftover when it is the leftover core (NC-1 as written, the last active core corrected) |
| Distribution.WarpsAbut | include/_vortex_kernel_stub.h:51-52 | the first id of warp wid+1 is the first id of warp wid plus that warp's lane count tK |
| Distribution.WarpIdsCover | include/_vortex_kernel_stub.h:51-59 | the lanes of one warp run one unbroken range of ids from the warp's start, tK per lane |
| Distribution.PhaseIdsCover | include/_vortex_kernel_stub.h:41-70 | the first w warps together run one unbroken range of ids from the core base |
| Distribution.FullPhaseCovers | include/_vortex_kernel_stub.h:136-152 | the min(nW, NW) spawned warps run exactly the first nW*NT ids of the core, each once |
| Distribution.CorrectedCoreCovers | include/_vortex_kernel_stub.h:144-158 | with the remainder phase offset by the core base, a core runs exactly [base, base + count), in order |
| Distribution.CorrectedPrefix | include/_vortex_kernel_stub.h:103-158 | corrected, the first n active cores run ids 0 .. n*share - 1, plus the leftover once the last active core is included |
| Distribution.IdleCoresAddNothing | include/_vortex_kernel_stub.h:117-125 | cores at or above the active count return at once and add no ids |
| Distribution.CorrectedLaunchCovers | include/_vortex_kernel_stub.h:103-158 | corrected, the launch runs every workgroup id 0 .. Q-1 exactly once and in order |
| Distribution.CoveredIdIsRun | include/_vortex_kernel_stub.h:103-158 | corrected, every id below Q is run |
| Distribution.AsWrittenCoreBelow | include/_vortex_kernel_stub.h:128-133 | as written, a working core other than NC-1 runs only ids below (core+1)*share, its remainder phase landing in the first share |
| Distribution.AsWrittenBelow | include/_vortex_kernel_stub.h:122-133 | as written, with fewer active cores than NC, every id run is below nc*share |
| Distribution.CoreBelowBound | include/_vortex_kernel_stub.h:128-133 | as written, an active core that is not core NC-1 runs only ids below nc*share |
| Distribution.LaunchDropsLastId | include/_vortex_kernel_stub.h:128-133 | as written, when fewer than NC cores are active and they do not divide Q, group Q-1 is never run |
| Distribution.LeftoverDroppedExample | include/_vortex_kernel_stub.h:128-133 | four one-warp two-lane cores with Q = 5: two cores work, group 4 is dropped as written and run once corrected |
| Distribution.ExampleSplit | include/_vortex_kernel_stub.h:120-133 | Q = 5 over two one-warp two-lane cores splits as two shares of 2 with leftover 1 |
| Distribution.TwoCoreLaunch | include/_vortex_kernel_stub.h:103-125 | on a two-core device the launch is core 0's ids followed by core 1's |
| Distribution.EvenCoreIds | include/_vortex_kernel_stub.h:135-152 | core 0 of that split runs groups 0 and 1 in one full warp |
| Distribution.LastCoreIds | include/_vortex_kernel_stub.h:155-158 | core 1 runs groups 2 and 3, then its remainder lane re-runs group 2 |
| Distribution.RemainderRerunsIds | include/_vortex_kernel_stub.h:155-158 | as written, that launch runs [0, 1, 2, 3, 2]: group 2 twice and group 4 never |
| Distribution.CorrectedExample | include/_vortex_kernel_stub.h:155-158 | corrected, the same launch runs [0, 1, 2, 3, 4] |
| Distribution.GroupArgs | include/_vortex_kernel_stub.h:55-67 | the group passed to the workgroup function is the global offset plus a group inside the X x Y grid |
| Distribution.CorrectedCallsEveryGroupOnce | include/_vortex_kernel_stub.h:55-69 | corrected, the workgroup function is called with pairwise different groups, and every group of the grid, shifted by the global offset, is called |
| Distribution.Launch | include/_vortex_kernel_stub.h:103-158 | the group ids a launch runs are exactly those of the active cores' plans: idle cores add none |
| Distribution.RemainderIds | include/_vortex_kernel_stub.h:155-158 | the remainder warp runs rT ids; corrected they lie inside the core's own range, as written they are taken from 0 up to the core's count |
| Distribution.LeftoverCore | include/_vortex_kernel_stub.h:128-133 | corrected, the core that takes the leftover groups is one of the active cores; as written it is an active core only when every core of the device is active |
| TaskSpawn.IsLog2Iff | lib/CL/pocl_llvm_build_vortex.cc:184-186 | is_log2 accepts exactly 0 and the powers of two |
| TaskSpawn.LeadingZerosBounds | lib/CL/pocl_llvm_build_vortex.cc:188-190 | for a nonzero w-bit word, clz is below w and the highest set bit is at w-1-clz, which brackets x between two powers of two |
| TaskSpawn.Log2Fast | lib/CL/pocl_llvm_build_vortex.cc:188-190 | 31 - clz(x) is the floor of log2 x: 2^r <= x < 2^(r+1) |
| TaskSpawn.Log2FastExact | lib/CL/pocl_llvm_build_vortex.cc:188-190 | on a power of two, log2_fast is the exact logarithm |
| TaskSpawn.Pow2Factor | lib/CL/pocl_llvm_build_vortex.cc:230-232 | a factor of a power of two is a power of two, so when X*Y is one, X is too |
| TaskSpawn.MainEntry | lib/CL/pocl_llvm_build_vortex.cc:217-238 | the arguments sit ALIGNED_CTX_SIZE bytes after the context; schedule flag 1, and only 1, selects the core-mapped spawner; otherwise X*Y*Z tasks are spawned |
| TaskSpawn.MainSpawnArgs | lib/CL/pocl_llvm_build_vortex.cc:224-236 | the spawn arguments carry the int with the bits of the uint32 product of the local sizes, which is that product whenever it is below 2^31, and exact logarithms of X*Y and X whenever the power-of-two flag is set on a nonempty plane |
| TaskSpawn.TaskCallback | lib/CL/pocl_llvm_build_vortex.cc:192-214 | with exact logarithms, both paths of the callback pass the group the division decode names; the uint32 local offset is task * local_size whenever that product fits |
| TaskSpawn.ShiftDecodeAgrees | lib/CL/pocl_llvm_build_vortex.cc:196-210 | with exact logarithms, the shift decode gives the same group as the division decode |
| TaskSpawn.TaskCallbackDecodes | lib/CL/pocl_llvm_build_vortex.cc:192-237 | on the task path, every task's callback runs the decoded group with local memory at task * (L0*L1*L2) modulo 2^32, the exact product whenever it fits in 32 bits |
| TaskSpawn.CallbackOffset | lib/CL/pocl_llvm_build_vortex.cc:201-211 | a local size with the bits of L gives the local offset task * L modulo 2^32, and exactly task * L when that fits |
| TaskSpawn.TasksCoverGrid | lib/CL/pocl_llvm_build_vortex.cc:224-237 | the X*Y*Z tasks run pairwise different groups, and every group of the grid is run by some task |
| TaskSpawn.Log2OrZero | lib/CL/pocl_llvm_build_vortex.cc:230-232 | for a positive size the emitted log2 is the floor of its logarithm: 2^r <= x < 2^(r+1) |
| TaskSpawn.Log2OfX | lib/CL/pocl_llvm_build_vortex.cc:230-232 | when the XY plane is non-empty the emitted log2 of X is the floor of its logarithm |
| ArgBuffer.Items | lib/CL/devices/vortex/pocl-vortex.c:447-467 | both passes visit the explicit arguments in order and then one local item per automatic local size |
| ArgBuffer.LocalMemSize | lib/CL/devices/vortex/pocl-vortex.c:444-467 | local_mem_size is the uint32 sum of every local size, so it stays below 2^32 |
| ArgBuffer.SizeFromShift | lib/CL/devices/vortex/pocl-vortex.c:447-467 | starting the size pass whole slots later ends it the same number of bytes later |
| ArgBuffer.SizeFromAligned | lib/CL/devices/vortex/pocl-vortex.c:447-467 | from an aligned start the size pass ends aligned and never before its start |
| ArgBuffer.AbufSizeAligned | lib/CL/devices/vortex/pocl-vortex.c:443-472 | abuf_size is a whole number of pointer slots and holds the per-item slots plus 4 bytes for local_mem_size whenever there is local memory |
| ArgBuffer.WriteFromEmit | lib/CL/devices/vortex/pocl-vortex.c:523-567 | the write pass aborts exactly when an image or sampler argument is present, and otherwise makes the item-by-item stores |
| ArgBuffer.StepOffset | lib/CL/devices/vortex/pocl-vortex.c:523-567 | one item moves host_args_offset as the size pass does, plus one slot when it stores local_mem_size, keeps it aligned, and adds a local's size to local_mem_offset modulo 2^32 |
| ArgBuffer.EmitLocalOffset | lib/CL/devices/vortex/pocl-vortex.c:521-567 | after the pass, local_mem_offset is the uint32 sum of the local sizes met |
| ArgBuffer.EmitEnd | lib/CL/devices/vortex/pocl-vortex.c:519-567 | the write pass ends where the size pass does, plus one slot for every store of local_mem_size |
| ArgBuffer.HeadersAfterLocal | lib/CL/devices/vortex/pocl-vortex.c:526-529 | once local_mem_offset is non-zero and does not wrap back to 0, local_mem_size is not stored again |
| ArgBuffer.HeadersFromZero | lib/CL/devices/vortex/pocl-vortex.c:526-529 | from offset 0 without wrap, local_mem_size is stored once for each zero-size local before the first non-empty local, and once for that local |
| ArgBuffer.EmitEndsAtAbufSize | lib/CL/devices/vortex/pocl-vortex.c:443-567 | without wrap, the write pass ends exactly at abuf_size plus one slot for every zero-size local that comes before the first non-empty one |
| ArgBuffer.AbufSize | lib/CL/devices/vortex/pocl-vortex.c:443-472 | without local memory the buffer is exactly the size pass's total; with it, 4 bytes for local_mem_size and less than one more slot of alignment are added |
| ArgBuffer.Step | lib/CL/devices/vortex/pocl-vortex.c:523-556 | one item makes one store, two exactly for the first local argument (its pointer and the local base); the first starts at host_args_offset, they do not overlap, and the offset ends past them |
| ArgBuffer.Emit | lib/CL/devices/vortex/pocl-vortex.c:517-567 | the write pass never moves host_args_offset back |
| ArgBuffer.WriteFrom | lib/CL/devices/vortex/pocl-vortex.c:523-567 | the pass succeeds exactly when every argument is one it can store, and then stores one chunk run per argument |
| ArgStores.StepOrdered | lib/CL/devices/vortex/pocl-vortex.c:523-556 | one item's memcpy/memset stores go left to right without overlap and lie between host_args_offset before and after it |
| ArgStores.OrderedConcat | lib/CL/devices/vortex/pocl-vortex.c:523-567 | two ordered runs of stores, the second starting where the first may end, form one ordered run |
| ArgStores.EmitOrdered | lib/CL/devices/vortex/pocl-vortex.c:517-567 | the whole write pass stores left to right, without overlap, between its first and last offset |
| ArgStores.OrderedDisjoint | lib/CL/devices/vortex/pocl-vortex.c:517-567 | in an ordered run no store overlaps another |
| ArgStores.ReadBackStore | lib/CL/devices/vortex/pocl-vortex.c:517-567 | after an ordered run of in-bounds stores, every store's bytes read back unchanged |
| ArgStores.EmitChunk | lib/CL/devices/vortex/pocl-vortex.c:523-567 | the stores for item k are one step from the state the pass reaches after items 0 .. k-1 |
| ArgStores.StepStores | lib/CL/devices/vortex/pocl-vortex.c:525-555 | a local stores local_mem_size first iff local_mem_offset is 0, then its offset; a NULL pointer stores ptr zero bytes; a buffer its address; a scalar its bytes |
| ArgStores.ItemStores | lib/CL/devices/vortex/pocl-vortex.c:517-567 | item k's last store holds the value the kernel should see for it, with local_mem_size in front of a local exactly when the uint32 sum of the earlier local sizes is 0 |
| ArgStores.NonEmptyNoZeroPrefix | lib/CL/devices/vortex/pocl-vortex.c:526-529 | with no empty local there are no extra stores of local_mem_size |
| ArgStores.HostArgs | lib/CL/devices/vortex/pocl-vortex.c:487-567 | the host argument area keeps the abuf_size length the size pass gave it |
| ArgStores.StoresInBounds | lib/CL/devices/vortex/pocl-vortex.c:443-567 | with no empty local and no uint32 wrap, every store of the write pass lies inside the abuf_size bytes reserved |
| ArgStores.HostReadBack | lib/CL/devices/vortex/pocl-vortex.c:517-567 | any store of the pass can be read back from the finished host buffer |
| ArgStores.HostStoresArguments | lib/CL/devices/vortex/pocl-vortex.c:443-567 | with no empty local and no wrap, the write pass completes and the buffer holds every item's value, preceded for the first local by local_mem_size |
| ArgStores.ExpectedPointer | lib/CL/devices/vortex/pocl-vortex.c:534-544 | the value stored for a buffer argument is the address chosen for it |
| ArgStores.PointerOffsetIgnored | lib/CL/devices/vortex/pocl-vortex.c:539-543 | as written, two arguments in one buffer reach the kernel as the same pointer, the buffer's start, whatever their offsets |
| ArgStores.SubBufferAddressStored | lib/CL/devices/vortex/pocl-vortex.c:541 | corrected, the kernel receives buf_address + offset, so sub-buffers at different offsets are told apart |
| ArgReader.BaseAlignment | lib/CL/devices/vortex/vortex_utils.cc:103-104 | the wrapper aligns to a valid slot size, 8 on riscv64 and 4 otherwise |
| ArgReader.ReadParam | lib/CL/devices/vortex/vortex_utils.cc:133-158 | a parameter's loads never move the offset back, and the wrapper has allocated local memory after it exactly when it had before or the parameter is a local |
| ArgReader.StepAgrees | lib/CL/devices/vortex/vortex_utils.cc:133-158 | for one matching item, the corrected wrapper loads exactly the places and widths the host stored, and both move to the same offset |
| ArgReader.SeenStep | lib/CL/devices/vortex/vortex_utils.cc:138-147 | the wrapper's "local memory allocated" state keeps tracking a non-zero host local_mem_offset across one item |
| ArgReader.ReaderAgrees | lib/CL/devices/vortex/vortex_utils.cc:133-165 | with no empty local and no wrap, the corrected wrapper's loads, parameter by parameter, are exactly the host's stores |
| ArgReader.LoadsMatchStores | lib/CL/devices/vortex/vortex_utils.cc:133-165 | from the start of the buffer, parameter k's loads are the shape of the host's stores for item k |
| ArgReader.CorrectedReadsArguments | lib/CL/devices/vortex/vortex_utils.cc:133-165 | on the buffer the host fills, the corrected wrapper's last load per parameter reads the buffer address, zero for NULL, the scalar, or the local's offset, and the first local's first load reads local_mem_size |
| ArgReader.AsWrittenDiffers | lib/CL/devices/vortex/vortex_utils.cc:135-150 | as written, the wrapper loads the same places as corrected for every parameter except the first local, whose offset it loads from the __local_size slot |
| ArgReader.AsWrittenReadsSizeAsOffset | lib/CL/devices/vortex/vortex_utils.cc:135-153 | as written, the first local argument receives local_mem_size (non-zero) as its offset where the host meant 0, so it points just past the local memory allocated |
| ArgReader.LocalSizesPositive | lib/CL/devices/vortex/pocl-vortex.c:444-467 | one non-empty local makes the sum of local sizes positive |
| ArgReader.OneLocalExample | lib/CL/devices/vortex/vortex_utils.cc:138-151 | one 16-byte local on a 32-bit device: the host stores the size at 0 and the offset at 4; the corrected wrapper loads at 0 and 4, the wrapper as written at 0 and 0 |
| DeviceEntry.EntryReadsHeader | lib/CL/devices/vortex/kernel_main.c:14-20 | on the buffer a launch builds, the entry reads back the host's work_dim, group counts, local sizes and kernel id, and the global offset of each used dimension, with 0 for the unused ones |
| DeviceEntry.HeaderPrefix | lib/CL/devices/vortex/kernel_main.c:15-20 | the header the entry decodes depends only on the first 44 bytes of the buffer, whatever follows it |
| DeviceEntry.ArgBaseAgreement | lib/CL/devices/vortex/kernel_main.c:22 | corrected, the entry's argument base is the host's aligned_kernel_args_size; as written it agrees exactly on a 32-bit device and on a 64-bit device falls 4 bytes short of where the host stored the arguments |
| DeviceEntry.KernelSeesArguments | lib/CL/devices/vortex/kernel_main.c:22-24 | end to end, corrected: for every argument of a started launch, the last load the kernel wrapper makes for it lies inside the buffer and returns the value the host meant for that argument |
| DeviceEntry.Main | lib/CL/devices/vortex/kernel_main.c:14-25 | work_dim is read as a signed 32-bit int; offsets are 0 for a non-positive work_dim and all three header offsets from work_dim 3 on; the argument base lies past the header |
| HostLaunch.Product32 | lib/CL/devices/vortex/pocl-vortex.c:427-432 | the group and work-item counts are products over the used dimensions taken in uint32, so they stay below 2^32 |
| HostLaunch.Product32Exact | lib/CL/devices/vortex/pocl-vortex.c:427-432 | when the true product fits in 32 bits the uint32 product equals it |
| HostLaunch.ProductZero | lib/CL/devices/vortex/pocl-vortex.c:427-434 | the true product over the used dimensions is 0 exactly when one of those dimensions is 0 |
| HostLaunch.SkippedIffEmpty | lib/CL/devices/vortex/pocl-vortex.c:427-434 | without overflow, the launch is skipped exactly when some used dimension has no groups or no work-items |
| HostLaunch.GroupCountWraps | lib/CL/devices/vortex/pocl-vortex.c:427-434 | a 65536 x 65536 grid of single work-item groups is skipped although every used dimension is positive, because the group count wraps to 0 |
| HostLaunch.OccupancyAbortsIff | lib/CL/devices/vortex/pocl-vortex.c:474-485 | groups of one work-item are never checked; otherwise a failed query aborts, and a valid report aborts exactly when more local memory is needed than is available |
| HostLaunch.ArgsBase | lib/CL/devices/vortex/pocl-vortex.c:439-441 | the arguments start after the 44-byte header rounded up to the pointer size: 44 on a 32-bit device, 48 on a 64-bit one |
| HostLaunch.BinaryFor | lib/CL/devices/vortex/pocl-vortex.c:578-593 | corrected, the binary a launch runs is always its own program's |
| HostLaunch.RunOrder | lib/CL/devices/vortex/pocl-vortex.c:427-596 | a call does nothing exactly when the NDRange is empty in uint32; otherwise a failed occupancy check aborts before any argument is stored, and an image or sampler argument then aborts the launch |
| HostLaunch.RunBuffer | lib/CL/devices/vortex/pocl-vortex.c:487-573 | a started launch uploads a buffer of kargs_buffer_size bytes that begins with the encoded header and holds the host's copy of the arguments from the argument base on |
| HostLaunch.StaleBinary | lib/CL/devices/vortex/pocl-vortex.c:578-593 | as written, once a binary is on the device a launch of another program runs that first binary and uploads nothing |
| HostLaunch.OwnBinary | lib/CL/devices/vortex/pocl-vortex.c:578-593 | corrected, a started launch runs its own program's binary and uploads it exactly when it is not already the one loaded |
| HostLaunch.Occupancy | lib/CL/devices/vortex/pocl-vortex.c:474-485 | a group of size 1 is never checked; otherwise a negative available size is compared as the uint32 it converts to, so only a need above that value aborts |
| HostLaunch.Run | lib/CL/devices/vortex/pocl-vortex.c:427-596 | the launch is skipped exactly when the NDRange is empty in uint32; a started launch has only storable arguments and uploads a buffer as long as the aligned header plus abuf_size |
| KernelNames.PackLayout | lib/CL/devices/vortex/vortex_utils.cc:72-96 | the name table is the sum of (length + 1) over the names long, name k sits at its start with a NUL right after it, and name k + 1 starts one byte past that NUL |
| KernelNames.PackLength | lib/CL/devices/vortex/vortex_utils.cc:74-78 | the buffer holds every name and its terminator and nothing more |
| KernelNames.StartNext | lib/CL/devices/vortex/vortex_utils.cc:86-91 | the copy position advances by the name's length and one more byte for the NUL |
| KernelNames.PackAt | lib/CL/devices/vortex/vortex_utils.cc:86-91 | each name is copied whole at its position and followed by a NUL, inside the buffer |
| KernelNames.CStr | lib/CL/devices/vortex/pocl-vortex.c:380-383 | the C string compared at a position never contains a NUL |
| KernelNames.CStrAt | lib/CL/devices/vortex/pocl-vortex.c:380-383 | a NUL-free name stored with its NUL reads back at its position as itself |
| KernelNames.FindFrom | lib/CL/devices/vortex/pocl-vortex.c:376-386 | a found index lies between the walk's start and num_kernels |
| KernelNames.FindFromPack | lib/CL/devices/vortex/pocl-vortex.c:376-386 | on a table of NUL-free names the walk stops at the first name equal to the kernel's, and finds nothing exactly when no later name equals it |
| KernelNames.KernelIdInverts | lib/CL/devices/vortex/pocl-vortex.c:376-388 | for distinct NUL-free names, the kernel named by entry i of the table gets id i, and a name missing from the table gets no id |
| KernelNames.KernelNamesOf | lib/CL/devices/vortex/vortex_utils.cc:183-194 | processKernels collects at most one name per function of the module |
| KernelNames.KernelNamesIn | lib/CL/devices/vortex/vortex_utils.cc:183-194 | a name is collected exactly when some kernel function of the module carries it |
| KernelNames.Select | lib/CL/devices/vortex/vortex_utils.cc:196-239 | the selector returns a function exactly for indices 0 to the case count minus 1, the one of that case; every other index, negative ones included, gives null |
| KernelNames.CasesAreKernels | lib/CL/devices/vortex/vortex_utils.cc:217-233 | with distinct function names, the selector's cases are exactly the collected kernel names in the same order |
| KernelNames.HostIdSelectsKernel | lib/CL/devices/vortex/vortex_utils.cc:277-281 | end to end: the id the host finds for a collected kernel name selects, on the device, the function of that name |
| KernelNames.CreateFreeRoundTrip | lib/CL/devices/vortex/pocl-vortex.c:362-410 | creating a kernel whose name is in the table succeeds, a first creation gives it the id of its name, and freeing it again leaves its data as before, even when the size_t reference count wraps |
| KernelNames.LastDot | lib/CL/devices/vortex/vortex_utils.cc:65-70 | the position found holds a '.' with none after it, and nothing is found exactly when there is no '.' |
| KernelNames.RemoveExtensionSpec | lib/CL/devices/vortex/vortex_utils.cc:65-70 | the result is a prefix of the path; a path without '.' is unchanged, and otherwise exactly the last '.' and what follows it are cut |
| KernelNames.BinaryPath | lib/CL/devices/vortex/pocl-vortex.c:581-589 | the binary's path is the bitcode path without its extension followed by ".vxbin" |
| KernelNames.CreateKernel | lib/CL/devices/vortex/pocl-vortex.c:361-392 | a kernel with device data gets one more size_t reference and keeps its id; a new one starts at one reference with an id inside the name table |
| KernelNames.FreeKernel | lib/CL/devices/vortex/pocl-vortex.c:398-410 | releasing drops one size_t reference and frees the data exactly when it held the last one; without data nothing happens |
| KernelNames.RemoveExtension | lib/CL/devices/vortex/vortex_utils.cc:65-70 | the result is a prefix of the file name, cut only at a '.' |
| LegacyBuffer.LegacyRun | lib/CL/devices/vortex/vortex.cc:563-667 | an accepted launch uploads exactly abuf_size bytes |
| LegacyBuffer.ReservedSlack | lib/CL/devices/vortex/vortex.cc:565-586 | for the arguments the write pass accepts, the size pass reserves exactly what the stores fill plus 4 bytes per local argument |
| LegacyBuffer.UsedWithinReserved | lib/CL/devices/vortex/vortex.cc:565-664 | whatever the arguments, the write pass fills no more data than the size pass reserved |
| LegacyBuffer.LegacySizeAccounts | lib/CL/devices/vortex/vortex.cc:563-667 | a launch is accepted exactly when abuf_size is at most 0xffff and no argument is a non-alloca local, an image or a sampler; abuf_size is then the context, the slots of arguments and locals, the filled data and 4 bytes per local |
| LegacyBuffer.StoreEffect | lib/CL/devices/vortex/vortex.cc:623-664 | an argument's stores leave its slot holding its word and its data region holding its data |
| LegacyBuffer.StoreKeeps | lib/CL/devices/vortex/vortex.cc:623-664 | an argument's stores touch no byte outside its slot and its data region |
| LegacyBuffer.PassKeeps | lib/CL/devices/vortex/vortex.cc:620-664 | the write pass touches no byte outside the argument slots and the data it fills |
| LegacyBuffer.PassReadBack | lib/CL/devices/vortex/vortex.cc:620-664 | after the write pass, every argument's slot holds its word and its data lies where the slot points |
| LegacyBuffer.FirstFromSlices | lib/CL/devices/vortex/vortex.cc:620-664 | the first argument reads back from any buffer that keeps its slot and its data |
| LegacyBuffer.ShiftReads | lib/CL/devices/vortex/vortex.cc:620-664 | the pass from the second argument on, one slot and one data region later, reads back as the same arguments of the whole pass |
| LegacyBuffer.HeaderEffect | lib/CL/devices/vortex/vortex.cc:603-616 | the context stores put the encoded context in front and leave the rest of the buffer as allocated |
| LegacyBuffer.RunIs | lib/CL/devices/vortex/vortex.cc:596-664 | an accepted launch is the write pass applied to the buffer after the context stores, and its data fits in the buffer |
| LegacyBuffer.LegacyReadBack | lib/CL/devices/vortex/vortex.cc:596-664 | the uploaded buffer starts with the launch's context, and every argument reads back from its slot and data region |
| LegacyBuffer.PassReadBackFrom | lib/CL/devices/vortex/vortex.cc:620-664 | the write pass keeps the context in front and lets every argument read back |
| LegacyBuffer.PassKeepsFront | lib/CL/devices/vortex/vortex.cc:620-664 | the write pass leaves the bytes in front of the slot table as they were |
| LegacyBuffer.LegacyLeavesRest | lib/CL/devices/vortex/vortex.cc:563-664 | nothing else changes: the slots of the automatic locals and the bytes past the filled data are as allocated |
| LegacyBuffer.PassLeavesFrom | lib/CL/devices/vortex/vortex.cc:620-664 | the write pass leaves the local slots and the bytes past the data as they were past the context |
| LegacyBuffer.DataOffsetsIncrease | lib/CL/devices/vortex/vortex.cc:620-664 | the arguments' data lie one after another from the end of the slot table, without gaps or overlap |
| LegacyBuffer.WrapperFindsArguments | lib/CL/devices/vortex/vortex.cc:820-822 | end to end: a kernel reading its k-th pointer or scalar through the generated wrapper's argument pointer finds a device address inside the buffer where that argument's data lies |
| LegacyBuffer.SlotLeadsToData | lib/CL/devices/vortex/vortex.cc:620-664 | in a buffer below the 16-bit size limit, a slot that reads back leads the wrapper to the argument's data |
| LegacyBuffer.PayloadSize | lib/CL/devices/vortex/vortex.cc:644-662 | a pointer or scalar's data is exactly as long as what its stores fill |
| LegacyBuffer.Reupload | lib/CL/devices/vortex/vortex.cc:674-681 | after a launch the device holds the launched kernel's binary |
| LegacyBuffer.ReuploadOnce | lib/CL/devices/vortex/vortex.cc:674-681 | a launch uploads exactly when the device does not already hold that kernel's binary, so relaunching the same kernel never uploads |
| LegacyBuffer.StoreArg | lib/CL/devices/vortex/vortex.cc:620-664 | storing an argument leaves the buffer's length unchanged |
| LegacyBuffer.PassBuf | lib/CL/devices/vortex/vortex.cc:620-664 | the store loop leaves the buffer's length unchanged |
| WorkItems.Axis | lib/kernel/vortex/workitems.c:19-26 | the switch on dimindx always reads one of the three components |
| WorkItems.DimIndexFallsToX | lib/kernel/vortex/workitems.c:19-80 | for indices 0 to 2 the query is the same as written and corrected; as written every larger index answers with the x component, where the standard answers 1 for counts and sizes and 0 for ids and offsets |
| WorkItems.LocalSizeOutOfRange | lib/kernel/vortex/workitems.c:28-35 | a work-item in a block 4 wide asking for get_local_size(3) gets 4 as written and 1 corrected |
| WorkItems.GetExact | lib/kernel/vortex/workitems.c:19-80 | when a query's exact value fits in 32 bits, the uint32 computation returns it |
| WorkItems.GlobalIdBelowSize | lib/kernel/vortex/workitems.c:64-80 | inside the grid, a global id less the global offset is below the global size |
| WorkItems.GlobalIdComposes | lib/kernel/vortex/workitems.c:46-80 | without overflow the global id is the group id times the local size plus the local id plus the global offset, as the other queries return them |
| WorkItems.LocalLinearIdEncodes | lib/kernel/vortex/workitems.c:89-92 | the local linear id is the thread's row-major position in its block and is below the block's size |
| WorkItems.LocalLinearIdInjective | lib/kernel/vortex/workitems.c:89-92 | two threads of one block with the same local linear id are the same thread |
| WorkItems.CorrectedGlobalLinear | lib/kernel/vortex/workitems.c:82-87 | corrected, the global linear id is the row-major position of the work-item's global coordinate in the global range |
| WorkItems.AsWrittenGlobalLinearIff | lib/kernel/vortex/workitems.c:82-87 | as written, the global linear id equals the standard's exactly when the group's x index is 0 or the block is as wide as it is deep |
| WorkItems.GlobalLinearCollision | lib/kernel/vortex/workitems.c:82-87 | in a 2 x 1 x 1 grid of 2 x 1 x 1 blocks two different work-items both get global linear id 1 as written, and 1 and 2 corrected |
| WorkItems.WorkDimFromHeader | lib/CL/devices/vortex/kernel_main.c:17 | get_work_dim returns the work_dim the host stored in the header |
| WorkItems.WorkDim | lib/kernel/vortex/workitems.c:15-17 | get_work_dim returns the header's work_dim as a uint32: unchanged when it is one, plus 2^32 when it is a negative int |
| WorkItems.Get | lib/kernel/vortex/workitems.c:19-80 | for a valid context and an index below 3, every query other than global size and global id answers its exact value |
| WorkItems.GlobalLinearId | lib/kernel/vortex/workitems.c:82-87 | the linear global id is exact whenever the exact value fits in 32 bits, and corrected it linearises the global coordinate modulo 2^32 |
| Newlib.RegisterSpec | lib/CL/devices/newlib/newlib.cc:136-157 | registering in a full table returns -1 and changes nothing; otherwise it returns 0, the kernel takes the next index, earlier entries stay in place, and the table never passes MAX_KERNELS entries |
| Newlib.FirstMatch | lib/CL/devices/newlib/newlib.cc:163-170 | a found index is inside the table |
| Newlib.FirstMatchSpec | lib/CL/devices/newlib/newlib.cc:163-170 | the scan finds nothing exactly when no entry has the name, and otherwise an entry with that name with none before it |
| Newlib.FirstMatchUnique | lib/CL/devices/newlib/newlib.cc:163-170 | an entry with the name and no earlier one with it is the one the scan finds |
| Newlib.Query | lib/CL/devices/newlib/newlib.cc:159-180 | the query returns 0 or -1; -1 exactly when no kernel has the name, writing nothing; 0 with each requested output taken from the first kernel of that name and the others left as they were |
| Newlib.Supports | lib/CL/devices/newlib/newlib.cc:182-188 | a built-in kernel is supported (1) exactly when some registered kernel has its name, and 0 otherwise |
| Newlib.RegisterThenFind | lib/CL/devices/newlib/newlib.cc:136-180 | after a registration the name is found at the new index, unless an earlier kernel already had that name, which then still wins |
| Newlib.ArgCodeRoundTrip | lib/CL/devices/newlib/newlib.cc:590-598 | every code decodes to an argument that encodes back to the same code, and every argument the codes can describe survives the round trip |
| Newlib.BuildMetadata | lib/CL/devices/newlib/newlib.cc:202-226 | the metadata holds one argument entry per argument and one local size per automatic local |
| Newlib.GetMetadata | lib/CL/devices/newlib/newlib.cc:190-229 | for a registered name the call returns 0 with the metadata rebuilt from that kernel's registration; as written it returns 0 with metadata even for a missing name, corrected it then returns the query's error and builds nothing |
| Newlib.MetadataRoundTrip | lib/CL/devices/newlib/newlib.cc:208-226 | for a kernel registered by the generated code whose arguments the codes can describe (locals of type NONE, no other argument of code 4), the metadata lists exactly the encoded arguments and the registered local sizes |
| Newlib.MissingKernelMetadata | lib/CL/devices/newlib/newlib.cc:197-206 | as written, asking an empty table for a kernel returns 0 with metadata made from whatever the uninitialised locals held; corrected it returns -1 with nothing built |
| Newlib.Dispatch | lib/CL/devices/newlib/newlib.cc:451-457 | the group loop makes one call per group of the grid, the i-th call for the group at row-major position i |
| Newlib.DispatchVisitsOnce | lib/CL/devices/newlib/newlib.cc:451-457 | every group of the grid is visited, and only at its row-major position |
| Newlib.Register | lib/CL/devices/newlib/newlib.cc:136-157 | the table never exceeds MAX_KERNELS; registering returns -1 exactly when the table is full, and otherwise 0 with the kernel appended |
| Newlib.DecodeArg | lib/CL/devices/newlib/newlib.cc:590-598 | the argument a code decodes to is one the codes can describe and encodes back to that code |
| WiLoops.ThreadLoop | lib/llvmopencl/WorkitemLoops.cc:470-510 | the loop runs the region with the ids start, start + stride, ... in order, each below the workload, and stops at the first one that is not |
| WiLoops.LoopVisits | lib/llvmopencl/WorkitemLoops.cc:470-510 | an id is run exactly when it is in the loop's progression and below the workload |
| WiLoops.Owner | lib/llvmopencl/WorkitemLoops.cc:415-421 | every id has an owning hardware thread on the core |
| WiLoops.CorrectedStartBelow | lib/llvmopencl/WorkitemLoops.cc:415-421 | corrected, every hardware thread starts below the core's thread count HTpC |
| WiLoops.CorrectedRunsOnce | lib/llvmopencl/WorkitemLoops.cc:415-510 | corrected, every id of the work-group is run by its owner and by no other hardware thread |
| WiLoops.ModOfProgression | lib/llvmopencl/WorkitemLoops.cc:488-510 | an id reached from a start below the stride leaves that start as its remainder |
| WiLoops.ProgressionOfMod | lib/llvmopencl/WorkitemLoops.cc:488-510 | every id is reached from its remainder by the stride |
| WiLoops.SplitStart | lib/llvmopencl/WorkitemLoops.cc:415-421 | a corrected start determines both the lane and the warp |
| WiLoops.AsWrittenAgreesIff | lib/llvmopencl/WorkitemLoops.cc:420 | the as-written starts equal the corrected ones on every hardware thread exactly when the core has as many lanes as warps or a single warp |
| WiLoops.AsWrittenSkips | lib/llvmopencl/WorkitemLoops.cc:420-421 | as written, on a core with more warps than lanes, no hardware thread ever runs the work-item with id nHT |
| WiLoops.AsWrittenRepeats | lib/llvmopencl/WorkitemLoops.cc:420-421 | as written, on a core with more lanes than warps and at least two warps, two different hardware threads run the same work-item |
| WiLoops.SkipExample | lib/llvmopencl/WorkitemLoops.cc:420-421 | with two lanes on each of four warps and a work-group of 8, id 2 is never run as written and is run by its owner corrected |
| WiLoops.EachLocalIdOnce | lib/llvmopencl/WorkitemLoops.cc:415-560 | corrected, each local id of a work-group is run by exactly one hardware thread, whose loop decodes its linear index back to it |
| WiLoops.LoopDecodes | lib/llvmopencl/WorkitemLoops.cc:516-523 | every id the loop runs decodes to a local id inside the work-group whose linear index is that id |
| WiLoops.ContextSlots | lib/llvmopencl/WorkitemLoops.cc:961-990 | the linear work-item index that addresses the context arrays lies inside the array of local-size entries and is different for different work-items, so no two work-items share a saved value |
| WiLoops.XOnlyMatches | lib/llvmopencl/WorkitemLoopsVX.cc:246-254 | the x-only shortcut, the id modulo the local size in x, gives the same x as the full decode |
| WiLoops.VxCompute | lib/llvmopencl/WorkitemLoopsVX.cc:246-254 | the values computed at the region entry always include x |
| WiLoops.VxLoadsSeeDecode | lib/llvmopencl/WorkitemLoopsVX.cc:204-287 | every local id load with a use is replaced, and by the value the full decode gives, so the y and z the shortcut leaves uncomputed are never used |
| WiLoops.UnrollCount | lib/llvmopencl/WorkitemLoops.cc:761-772 | the unroll count found divides the local size in x and is at most it, or is 0; it never exceeds the request, is at least 1 for a positive request and width, and is the largest count of the halving chain that fits |
| WiLoops.ChainDecreases | lib/llvmopencl/WorkitemLoops.cc:767-772 | the halving chain never goes up |
| WiLoops.AndWindow | lib/llvmopencl/WorkitemLoops.cc:1145-1146 | a mask of the bits k to w - 1 keeps exactly the part of the size's low w bits above its low k bits |
| WiLoops.AndLowBits | lib/llvmopencl/WorkitemLoops.cc:1145 | the size anded with alignment - 1 is the size modulo the alignment |
| WiLoops.ClearMask | lib/llvmopencl/WorkitemLoops.cc:1146 | ~(Alignment - 1) is 2^32 less the alignment as written and 2^64 less it corrected |
| WiLoops.CorrectedPadding | lib/llvmopencl/WorkitemLoops.cc:1141-1152 | corrected, padding applies exactly when the alignment exceeds 1 and does not divide the size, and then gives the next multiple of the alignment, strictly above the size, so the AlignedSize > StoreSize assertion never stops the pass |
| WiLoops.CorrectedMask | lib/llvmopencl/WorkitemLoops.cc:1146 | the 64-bit mask rounds the size down to a multiple of the alignment |
| WiLoops.PaddingApplies | lib/llvmopencl/WorkitemLoops.cc:1145-1146 | on both readings, padding applies exactly to sizes the alignment does not divide, and adds the alignment to the masked size |
| WiLoops.NextMultiple | lib/llvmopencl/WorkitemLoops.cc:1146-1151 | rounding an unaligned size down and adding the alignment gives a multiple of it strictly between the size and the size plus the alignment |
| WiLoops.AsWrittenPaddingShrinks | lib/llvmopencl/WorkitemLoops.cc:1141-1151 | as written, an unaligned size of 4 GiB or more is padded to at most 4 GiB, below the size, so the AlignedSize > StoreSize assertion stops the pass |
| WiLoops.Start | lib/llvmopencl/WorkitemLoops.cc:415-421 | corrected, a thread's first id splits back into its thread id and warp id: start % NT == tid and start / NT == wid |
| WiLoops.PaddedSize | lib/llvmopencl/WorkitemLoops.cc:1140-1146 | padding applies only for an alignment of at least 2 and gives a value below 2^64 |
| WiLoops.PadContextElement | lib/llvmopencl/WorkitemLoops.cc:1140-1151 | the pass stops exactly when a padded size does not lie above the store size; an element it keeps lies strictly above the store size and below 2^64 |
| Scheduler.InitContext | lib/CL/devices/vortex/pocl-vortex.c:284-292 | creating a context keeps the size_t count in range and never brings a released device back |
| Scheduler.InitsCount | lib/CL/devices/vortex/pocl-vortex.c:254-292 | from init's count of 0, n context creations give a count of n |
| Scheduler.FreesCount | lib/CL/devices/vortex/pocl-vortex.c:294-304 | releasing k of n contexts leaves n - k, and the n-th release shuts the device down |
| Scheduler.BalancedShutdown | lib/CL/devices/vortex/pocl-vortex.c:284-304 | the device is shut down exactly when every context created on it has been released |
| Scheduler.UnbalancedFreeWraps | lib/CL/devices/vortex/pocl-vortex.c:299 | a release with no context left wraps the size_t count to 2^64 - 1 instead of shutting the device down |
| Scheduler.Remove | lib/CL/devices/vortex/pocl-vortex.c:728 | deleting a node from a list leaves exactly the other nodes of the list |
| Scheduler.RemoveOne | lib/CL/devices/vortex/pocl-vortex.c:728 | on a list without repeats, deleting a listed node takes out exactly one occurrence and keeps the list free of repeats |
| Scheduler.Drain | lib/CL/devices/vortex/pocl-vortex.c:720-735 | on well-formed lists the scheduler executes every ready command, head first, and empties the ready list; it stops only on a head that is not submitted |
| Scheduler.Notify | lib/CL/devices/vortex/pocl-vortex.c:769-795 | a failed dependency fails the event and touches no list; a ready, queued command whose dependencies are met is submitted, moved to the head of the ready list and executed; anything else changes nothing |
| Scheduler.MoveKeepsWf | lib/CL/devices/vortex/pocl-vortex.c:786-789 | moving a queued command from the waiting list to the head of the ready list keeps each node in at most one list, once, with every ready node submitted |
| Scheduler.Submit | lib/CL/devices/vortex/pocl-vortex.c:737-748 | a submitted command is marked ready; with its dependencies met it is executed right away after being pushed to the head of the ready list, otherwise it waits at the head of the command list |
| Scheduler.PushKeepsWf | lib/CL/devices/vortex/pocl-vortex.c:740-742 | pushing a new command to either list keeps the lists well formed |
| Scheduler.PrependDistinct | lib/CL/devices/vortex/pocl-vortex.c:789 | prepending a node not in a list keeps it free of repeats |
| Scheduler.NotifyConserves | lib/CL/devices/vortex/pocl-vortex.c:769-795 | after a notify that moves a command, the waiting, ready and executed commands together are those there were before, and the lists are well formed again |
| Scheduler.FreeContext | lib/CL/devices/vortex/pocl-vortex.c:294-304 | releasing a context drops one size_t reference and shuts the device down exactly when it held the last one; without device data nothing happens |

## Left out

- LLVM IR plumbing is not modelled: control-flow rewiring, metadata, context save and restore, and pass registration. This covers the rest of `WorkitemLoops.cc` and `WorkitemLoopsVX.cc`, and all of `VortexBarrier.cc`, `VortexConvertBarrier.cc`, `VortexPrintf.cc`, `VortexAttribute.cc` and `PrintModule.cc`. The model keeps only the integer arithmetic those passes emit.
- `fast_log2` in `WorkitemLoops.cc:327-334` is left out. It reinterprets the bits of a float, and the model has no floating point.
- Tool and process invocation is I/O and is left out. This covers `compile_vortex_program`, `popen`, and the building of command strings. The kernel list that compilation produces is an input.
- Device-runtime calls (`vx_dev_open`, `vx_mem_alloc`, `vx_copy_*`, `vx_start`, `vx_ready_wait`, `vx_upload_kernel_file`) are assumed to succeed.
  - The local memory that `vx_check_occupancy` reports is the parameter `available`.
  - Device addresses are parameters.
- The bytes `malloc` returns are the parameter `junk` (or `init`). A failed allocation is not modelled.
- The device lock, event updates and `pocl_exec_command` are left out.
  - The lock is concurrency. The lists are modelled as sequential steps.
  - Executing a command is recorded only as its place in `executed`.
- `pocl_command_push` is not part of this model. It is taken to push onto the head of the list it is given.
- `pocl_command_is_ready` is not part of this model, and neither is its assertion in the scheduler. Notify receives whether all dependencies are met as the parameter `depsMet`.
- The printf-buffer flush in `vortex.cc:693-709` and newlib's write to stdout are I/O and are left out. The printf buffer's address and position enter the legacy header as parameters.
- Newlib's argument marshalling through `malloc`, its rounding-mode and flush-to-zero handling, and its SVM helpers are left out. They concern allocation and the floating-point environment.
- `vx_api.c`, `barrier.c` and `printf.c` are hardware intrinsics and warp-mask control, and are not part of this model.
- Images and samplers are modelled only as the paths that abort.
- `POCL_ARG_TYPE` codes are kept abstract. Only code 4, the local qualifier that newlib's metadata decode rewrites, is named.
- The unroll count read with `atoi(getenv(...))` is a parameter of the unroll search.
- The headers `pocl-vortex-config.h`, `kernel_args.h`, `newlib.h` and `vortex_utils.h` contribute only field layouts.
- `dogfood/vecadd3/main.cc` is a demo program and is not part of this model.
- WiLoops.ThreadLoop: ids are unbounded naturals. The 32-bit wrap of `id + nHT*nHW` near 2^32 is not modelled, so the loop is stated only for workloads the hardware can index.
- WiLoops.CorrectedPadding: requires `storeSize + 2^k < 2^64`. The size_t wrap of the padded size at the very top of the range is not stated.
- ArgReader.CorrectedReadsArguments: requires every local to be non-empty and the offsets not to wrap. A zero-size first local makes the host overrun its buffer, as ArgBuffer.HeadersFromZero counts; that case is not part of this agreement.
- DeviceEntry.KernelSeesArguments: has the same non-empty-local and no-wrap requirements as ArgReader.CorrectedReadsArguments.
- HostLaunch.SkippedIffEmpty: requires both products to stay below 2^32. The wrapped case is stated separately by HostLaunch.GroupCountWraps.
- WorkItems.GetExact: requires the exact value to fit in 32 bits. Beyond that the uint32 results wrap.
- WorkItems.LocalLinearIdEncodes: requires the block to hold at most 2^32 threads, for the same reason as WorkItems.GetExact.
- KernelNames.KernelIdInverts: requires distinct, NUL-free names. With duplicate names the lookup returns the first match, and FindFrom states that.
- Every C `assert` on a modelled path is read as a stop of the operation and modelled as an `Abort` result. Builds with NDEBUG compile the asserts out, and the model does not follow them past the failed condition. The asserts concerned:
  - the scheduler's status assert (pocl-vortex.c:727);
  - `assert(found)` in `create_kernel` (pocl-vortex.c:386); without it the kernel would be recorded with `kernel_id = num_kernels`;
  - `assert(abuf_size <= 0xffff)` in the legacy driver (vortex.cc:589); without it the launch would go on with a larger buffer.
  - `assert(AlignedSize > StoreSize)` in the work-item loop pass (WorkitemLoops.cc:1151), modelled by WiLoops.PadContextElement; without it the context array would get elements smaller than the value stored in them.
- Scheduler.Drain: the status assert is modelled as an `Abort` result, as above, not as a stop of the program.
- ArgStores.HostArgs: a store that would land past the allocated buffer is reported as an `Abort`. In C it is a write past the end of the allocation, with no defined result.
- ArgBuffer.Step: `host_args_offset` is a uint32_t (pocl-vortex.c:520), and the model advances it as an unbounded `nat`, in Step, Emit and WriteFrom alike. Its wrap after 2^32 bytes of arguments is not modelled. Such a pass would already have written past the buffer's first 4 GiB. The size_t `abuf_size` (pocl-vortex.c:445) is unbounded in AbufSize for the same reason. The uint32_t `local_mem_offset` and `local_mem_size` do wrap in the model.
- Distribution: the stub's `int` arithmetic is modelled as unbounded. Grids large enough to overflow a 32-bit `int` are not modelled.
- Base.AlignOffset: the definition of `alignOffset` is not part of this model. It is read as rounding up to the next multiple of the alignment, which is 4 or 8 at every call (pocl-vortex.c:441-565, vortex_utils.cc:142-157). Every argument-buffer size and offset rests on this reading: ArgBuffer, ArgStores, ArgReader and DeviceEntry. So does the kernel_main.c:22 finding, where host and device disagree because `alignOffset(44, 8)` is taken to be 48.
- Distribution.RemainderIds: rests on two readings of the stub that its text does not settle.
  - `vx_thread_gid()` (stub:79) is read as the lane 0 .. rT-1 of the remainder phase. Its definition is not part of this model; a core-wide or device-wide thread id would give a different set of ids.
  - The warps of a core are read as running one after another. In the source, spawned warps read `p_wspawn_args->offset` (stub:53) while warp 0 may already be rewriting it for the remainder phase (stub:156). Nothing waits for the warps before `vx_spawn_kernel` returns, and `wspawn_args` lives on warp 0's stack (stub:144-145). Those races are not modelled.
- TaskSpawn.MainEntry: on the task path, requires X*Y and X*Y*Z to stay below 2^31; the core-mapped path needs nothing. The emitted `int X`, `Y`, `Z`, `XY = X * Y` and `num_tasks = XY * Z` (pocl_llvm_build_vortex.cc:224-228) overflow on larger grids, which the host accepts up to 2^32 - 1. C leaves that overflow undefined, and what `vx_spawn_tasks` does with a negative count is not part of this model.
- TaskSpawn.TaskCallbackDecodes: the local offset's int product `task_id * local_size` (pocl_llvm_build_vortex.cc:201, 211) is read as wrapping before it is passed as a uint32_t, which C leaves undefined. The lemma states the offset modulo 2^32, and the exact product only when it fits.

## Findings

| source | as written | input that shows it | evidently intended | confidence | as-written member | corrected member |
|---|---|---|---|---|---|---|
| include/_vortex_kernel_stub.h:155-158 | the remainder phase starts at `wgs_per_core0 - rT` with no core base, so a core other than 0 reruns ids of core 0 (reading `vx_thread_gid()` at stub:79 as the lane 0 .. rT-1, whose definition is not part of this model) | Q = 5 on 2 cores of one 2-lane warp: the groups run are 0, 1, 2, 3, 2 | the remainder starts at the core's base plus `wgs_per_core0 - rT` | not executed | Distribution.RemainderRerunsIds, Distribution.LastCoreIds | Distribution.CorrectedCoreCovers, Distribution.CorrectedExample |
| include/_vortex_kernel_stub.h:128-133 | the leftover `Q - nc*(Q/nc)` goes to core NC-1, which returns at once when fewer than NC cores are active, so those groups never run | Q = 5 on 4 cores of one 2-lane warp: 2 cores are active and group 4 never runs | the last active core, nc-1, takes the leftover | not executed | Distribution.LaunchDropsLastId, Distribution.LeftoverDroppedExample | Distribution.CorrectedLaunchCovers |
| lib/CL/devices/vortex/vortex_utils.cc:135-150 | the wrapper reads the first local's offset at the stale `ArgOffset`, which is the slot of the `__local_size` header | one local argument of 16 bytes, 4-byte pointers: both loads read offset 0 | the offset is read from the slot after the header | not executed | ArgReader.AsWrittenReadsSizeAsOffset, ArgReader.OneLocalExample | ArgReader.CorrectedReadsArguments |
| lib/CL/devices/vortex/pocl-vortex.c:539-543 | a buffer argument is passed as `buf_address`; the sub-buffer address `buf_address + al->offset` is computed and unused | two sub-buffers of one buffer at different offsets are passed the same bytes | the address plus the sub-buffer offset is stored | not executed | ArgStores.PointerOffsetIgnored | ArgStores.SubBufferAddressStored |
| lib/CL/devices/vortex/kernel_main.c:22 | the device reads arguments at `kargs + sizeof(kernel_args_t)`, 44 bytes, while pocl-vortex.c:441 writes them at `alignOffset(44, ptr_size)` | 8-byte pointers: the device reads 4 bytes before the first argument, reading `alignOffset` as rounding up to 48 | the device reads at the aligned offset the host used | not executed | DeviceEntry.ArgBaseAgreement | DeviceEntry.KernelSeesArguments |
| lib/kernel/vortex/workitems.c:82-87 | the x term of `get_global_linear_id` multiplies `blockIdx.x` by `blockDim.z` | a 2x1x1 grid of 2x1x1 blocks: work-items (1,0,0) and (2,0,0) both get linear id 1 | `blockIdx.x*blockDim.x` | not executed | WorkItems.AsWrittenGlobalLinearIff, WorkItems.GlobalLinearCollision | WorkItems.CorrectedGlobalLinear |
| lib/kernel/vortex/workitems.c:19-80 | a `dimindx` of 3 or more falls through to the x value | `get_local_size(3)` in a block 4 wide returns 4 | the values section 6.15.1 of the OpenCL C 3.0 specification gives for an out-of-range index (1 for sizes, 0 for ids) | not executed | WorkItems.LocalSizeOutOfRange | WorkItems.DimIndexFallsToX |
| lib/llvmopencl/WorkitemLoops.cc:420 | each hardware thread starts its loop at `tid + wid*nHW` (also WorkitemLoopsVX.cc:103) | 4 warps of 2 threads, workload 8: no thread runs id 2 | start at `tid + wid*nHT` | not executed | WiLoops.AsWrittenSkips, WiLoops.AsWrittenRepeats, WiLoops.SkipExample | WiLoops.CorrectedRunsOnce, WiLoops.EachLocalIdOnce |
| lib/CL/devices/vortex/pocl-vortex.c:578-593 | the program binary is uploaded only on the first launch, so a later launch of another program runs the first program's binary | launch program A, then program B | upload the binary of the program being launched whenever it differs from the loaded one | not executed | HostLaunch.StaleBinary | HostLaunch.OwnBinary |
| lib/CL/devices/newlib/newlib.cc:197-200 | the result of the kernel query is discarded by `if (err) err;`, so metadata is built from outputs the query never wrote | a kernel name that was never registered | return the error when the query fails | not executed | Newlib.MissingKernelMetadata | Newlib.GetMetadata |
| lib/llvmopencl/WorkitemLoops.cc:1146 | the mask `~(Alignment - 1)` is formed in 32 bits and zero-extended to 64, so it also clears bits 32 to 63 | a StoreSize of 2^32 + 1 with alignment 2: the padded size is at most 2^32, below StoreSize | the mask keeps every bit above the alignment | not executed | WiLoops.AsWrittenPaddingShrinks | WiLoops.CorrectedPadding |
