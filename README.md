# Chimera host and cluster drivers, modelled in Dafny

This project models the software side of the Chimera SoC's host/cluster
interface:

- the host's offload mailbox (`offloadToCluster`, `waitForCluster`) and the
  worker side in the Snitch boot ROM (`cluster_startup`, `cluster_return`);
- the xDMA strided-descriptor driver of the KU Leuven cluster;
- the GEMMX accelerator driver: configuration-word encoders, the streamer
  and GEMM-core CSR sequences, the wait for both units, and the result
  checkers;
- the data-reshuffler driver;
- the Snitch runtime helpers for core identification and DMA starts.

Every driver talks to hardware through registers, so the model is built on one
class, `Registers.RegisterFile<R>`. It keeps the registers' contents as a
`map` that its methods update in place. It also keeps the log of every access:

- `Store` is a store by software;
- `Change` is a value the hardware put there, as seen by a read.

The invariant `Valid()` ties the contents to the log. Each driver is a method
on a register file. Its `ensures` gives the new log as the old log plus a
pure function of its arguments, and gives the new contents as those accesses
applied to the old contents.

Lemmas about these functions state the following:

- which register ends up holding what;
- what is left untouched;
- how the drivers of the two sides meet.

Hardware-owned values are parameters: busy flags, commit and finish counters,
return registers written by the other side, and the cluster's base address.
A spin loop takes the sequence of values its successive reads return. It
either stops at the first value that ends the spin, or reports that the
observations ran out.

Modules, one per file:

- `registers.dfy`: the register file, the log, last-write reasoning, the spin loop and 64-bit address halves.
- `soc_ctrl.dfy`: the SoC-control and CLINT words the mailbox uses.
- `offload.dfy`: `sw/lib/offload.c`.
- `snitch_startup.dfy`: `hw/bootrom/snitch/snitch_startup.c`.
- `protocol.dfy`: the host and worker sides composed, as the offload tests use them.
- `xdma.dfy`: `sw/lib/kultest/snax-kul-cluster-xdma-test.c`.
- `gemmx.dfy`: `sw/lib/kultest/snax-kul-cluster-gemmx-test.c`.
- `data_reshuffler.dfy`: `sw/kul-cluster-test/lib/snax-data-reshuffler-lib.c`.
- `snitch_runtime.dfy`: `sw/include/kultest/snrt/snrt_TO.h`.

## Model

| member | source | states |
|---|---|---|
| Registers.RegisterFile.Write | sw/include/kultest/snrt/snrt_TO.h:242 | a CSR or volatile store sets that one register and appends one `Store` to the log |
| Registers.RegisterFile.Observe | sw/include/kultest/snrt/snrt_TO.h:238-240 | a CSR or volatile read seeing `v` leaves the register holding `v` and appends one `Change` to the log |
| Registers.RegisterFile.StoreAll | sw/lib/kultest/snax-kul-cluster-gemmx-test.c:58-81 | a run of stores leaves the contents as the run committed in order, and logs exactly that run |
| Registers.RegisterFile.Poll | sw/lib/offload.c:67-69 | a spin re-reading a register stops at the first value satisfying its exit condition, or runs out; the register holds the last value read and the log holds every value read |
| Registers.PollExit | sw/lib/offload.c:67-69 | the exit index of a spin is the first observation satisfying the condition; it is `None` exactly when no observation does |
| Registers.CommitAfter | sw/lib/offload.c:72 | after a run of stores a register holds its last write in the run, or its old value when the run does not write it |
| Registers.LastWriteConcat | sw/lib/kultest/snax-kul-cluster-xdma-test.c:24-89 | the last write to a register in two consecutive runs is the second run's, when that run writes it at all |
| Registers.CommitConcat | sw/lib/kultest/snax-kul-cluster-xdma-test.c:24-89 | committing two runs one after the other is committing their concatenation |
| Registers.CommitChanges | sw/lib/offload.c:67-69 | a register observed through a run of values holds the last one |
| Registers.Hi32 | sw/include/kultest/snrt/snrt_TO.h:69-72 | a 64-bit address's high and low 32-bit halves rebuild the address |
| Registers.SetAfterClear | sw/lib/kultest/snax-kul-cluster-xdma-test.c:119-149 | setting bits after clearing the same bits is setting them |
| Offload.InterruptedHart | sw/lib/offload.c:46 | the hart interrupted for cluster `c` is `9c + 1`, so `c` is recovered by division by 9, with remainder 1 |
| Offload.InterruptedHartIncreasing | sw/lib/offload.c:46 | the cluster-to-hart map is strictly increasing, hence injective |
| Offload.PolledSlot | sw/lib/offload.c:53-65 | clusters 0 to 4 poll return registers 1 to 5; a larger id selects no register |
| Offload.HandlerEffect | sw/lib/offload.c:32-36 | publishing the trap handler changes the handler register and nothing else |
| Offload.SetupInterruptHandler | sw/lib/offload.c:32-36 | one store of the handler address |
| Offload.OffloadWrites | sw/lib/offload.c:40-50 | an offload is two stores: the boot address first, then a CLINT word |
| Offload.OffloadEffect | sw/lib/offload.c:40-50 | after an offload the boot address holds the function, the chosen hart's interrupt word holds 1, and every other word is unchanged |
| Offload.OffloadToCluster | sw/lib/offload.c:40-50 | the offload's stores in program order |
| Offload.FirstNonZero | sw/lib/offload.c:67-69 | the spin on a return register ends at the first non-zero observation; it goes on exactly while every observation is 0 |
| Offload.WaitForCluster | sw/lib/offload.c:53-75 | waits only for clusters 0 to 4; once the spin sees a non-zero value it reads the register a second time, clears it and returns what that second read saw; no other register changes |
| SnitchStartup.StartupEffect | hw/bootrom/snitch/snitch_startup.c:47-51 | start-up sets the software-interrupt bit of `mie` and the global enable bit of `mstatus`, keeping every other bit and every other CSR |
| SnitchStartup.ClusterStartup | hw/bootrom/snitch/snitch_startup.c:47-51 | the two read-modify-write CSR updates in program order |
| SnitchStartup.ReturnValue | hw/bootrom/snitch/snitch_startup.c:55 | the reported value is never 0, has bit 0 set and keeps bits 1 to 31 of the result |
| SnitchStartup.OddReturnUnchanged | hw/bootrom/snitch/snitch_startup.c:55 | an odd result is reported unchanged |
| SnitchStartup.HartByte | hw/bootrom/snitch/snitch_startup.c:57-58 | the hart id is read into a `uint8_t`, so only its low byte is kept |
| SnitchStartup.ReturnSlot | hw/bootrom/snitch/snitch_startup.c:60-82 | harts 1, 10, 19, 28 and 37 select return registers 1 to 5; every other hart id selects none |
| SnitchStartup.ReturnEffect | hw/bootrom/snitch/snitch_startup.c:53-85 | a worker's return changes at most its own return register, which then holds the reported value |
| SnitchStartup.ClusterReturn | hw/bootrom/snitch/snitch_startup.c:53-85 | one store of the reported value to the selected register, or no store |
| OffloadProtocol.HartReachesPolledSlot | sw/lib/offload.c:46-65 | the hart the host interrupts for a cluster writes exactly the return register the host then polls for that cluster |
| OffloadProtocol.OffloadRoundTrip | sw/tests/testMemBypass.c:83-85 | offload, worker return and wait, with the worker the only writer of its return register: the host gets the worker's reported value, the mailbox is cleared again, and only the boot address, the interrupt word and that return register were involved |
| OffloadProtocol.MemBypassRoundTrip | sw/tests/testMemBypass.c:83-87 | the bypass test's worker reports 0x050CCE55, which is odd, so the host collects 0x050CCE55 itself |
| OffloadProtocol.BackToBackOffloads | sw/tests/testKULClusterOffload.c:36-48 | two offload/wait pairs on one cluster each collect their own worker's result |
| Xdma.MemcpyStatus | sw/lib/kultest/snax-kul-cluster-xdma-test.c:56-90 | `xdma_memcpy_nd` returns -4 exactly when a side asks for more loops than the hardware has, and 0 otherwise |
| Xdma.MemcpyLast | sw/lib/kultest/snax-kul-cluster-xdma-test.c:24-89 | the last store to each xDMA CSR is the one `ProgrammedLast` names, also on the early -4 returns |
| Xdma.MemcpyEffect | sw/lib/kultest/snax-kul-cluster-xdma-test.c:24-89 | after `xdma_memcpy_nd` every CSR holds what `Programmed` gives it |
| Xdma.MemcpySuccess | sw/lib/kultest/snax-kul-cluster-xdma-test.c:56-83 | on success the loops below the requested rank hold the caller's (bound, stride), and the loops from there to the maximum hold (1, 0) |
| Xdma.AddressSplit | sw/lib/kultest/snax-kul-cluster-xdma-test.c:24-28 | the address CSRs receive the low and high halves of each pointer |
| Xdma.SourceOverflowPartial | sw/lib/kultest/snax-kul-cluster-xdma-test.c:24-61 | a rejected source rank still leaves both addresses split into their halves, every spatial stride and every source loop up to the maximum written, and leaves the destination loops and the enables untouched |
| Xdma.DestinationOverflowPartial | sw/lib/kultest/snax-kul-cluster-xdma-test.c:66-75 | a rejected destination rank leaves the destination bounds and strides up to the maximum written, the source loops past the rank neutralised to (1, 0), and the enables untouched |
| Xdma.SpatialWritesLast | sw/lib/kultest/snax-kul-cluster-xdma-test.c:49-55 | spatial stride `i` of a side holds the caller's stride `i` |
| Xdma.TemporalWritesLast | sw/lib/kultest/snax-kul-cluster-xdma-test.c:57-64 | loop `i` below the rank holds the caller's bound and stride |
| Xdma.NeutralWritesLast | sw/lib/kultest/snax-kul-cluster-xdma-test.c:66-69 | loops from the rank to the maximum hold bound 1 and stride 0 |
| Xdma.WriteSpatial | sw/lib/kultest/snax-kul-cluster-xdma-test.c:49-51 | the spatial-stride loop's stores in order |
| Xdma.WriteTemporal | sw/lib/kultest/snax-kul-cluster-xdma-test.c:57-64 | the temporal loop's stores in order, stopping with false at the first dimension past the maximum |
| Xdma.WriteNeutral | sw/lib/kultest/snax-kul-cluster-xdma-test.c:66-69 | the neutralising loop's stores in order |
| Xdma.WriteParams | sw/lib/kultest/snax-kul-cluster-xdma-test.c:121-123 | the parameter loop's stores in order |
| Xdma.WriteSource | sw/lib/kultest/snax-kul-cluster-xdma-test.c:24-69 | the first half of the descriptor programming, reporting whether the source rank fits |
| Xdma.MemcpyNd | sw/lib/kultest/snax-kul-cluster-xdma-test.c:18-91 | returns `MemcpyStatus` and leaves exactly `MemcpyWrites` applied |
| Xdma.Memcpy1dAsWrittenOverreads | sw/lib/kultest/snax-kul-cluster-xdma-test.c:98-104 | the descriptor built as written is either rejected for its rank or reads past its one-element arrays |
| Xdma.Memcpy1dDescriptor | sw/lib/kultest/snax-kul-cluster-xdma-test.c:98-104 | the corrected descriptor has rank 1 on both sides, one spatial stride of `width / channels` per spatial dimension, and arrays that cover every index read |
| Xdma.Memcpy1dMovesSize | sw/lib/kultest/snax-kul-cluster-xdma-test.c:93-105 | for a size that is a multiple of the beat width, the transfer is accepted with `size / width` beats of stride `width` on both sides |
| Xdma.WholeBeats | sw/lib/kultest/snax-kul-cluster-xdma-test.c:94-100 | the beat count times the width is the size |
| Xdma.Quotient | sw/lib/kultest/snax-kul-cluster-xdma-test.c:100 | unsigned division never exceeds the dividend |
| Xdma.Memcpy1dAsWritten | sw/lib/kultest/snax-kul-cluster-xdma-test.c:98-104 | the descriptor as written: rank 2 on both sides, with one-element bound, stride and spatial-stride arrays |
| Xdma.Memcpy1d | sw/lib/kultest/snax-kul-cluster-xdma-test.c:93-105 | -1 and no store when the size is not a multiple of the width; otherwise the status and stores of the corrected descriptor |
| Xdma.ExtBlocksDisjoint | sw/lib/kultest/snax-kul-cluster-xdma-test.c:112-116 | extension parameter blocks placed at prefix sums do not overlap |
| Xdma.ParamWritesLast | sw/lib/kultest/snax-kul-cluster-xdma-test.c:121-123 | parameter `i` of an extension lands at the block's offset plus `i` |
| Xdma.EnableExtEffect | sw/lib/kultest/snax-kul-cluster-xdma-test.c:108-142 | enabling an existing extension clears only its bypass bit and fills only its own parameter block |
| Xdma.EnableExt | sw/lib/kultest/snax-kul-cluster-xdma-test.c:108-142 | -1 and no store for a missing extension; otherwise 0, the bypass update and the parameter stores |
| Xdma.DisableExt | sw/lib/kultest/snax-kul-cluster-xdma-test.c:144-160 | always 0; sets the extension's bypass bit, or does nothing for a missing extension |
| Xdma.EnableThenDisable | sw/lib/kultest/snax-kul-cluster-xdma-test.c:108-160 | enabling then disabling an extension leaves its bypass bit set and the other bits as they were |
| Xdma.StartTask | sw/lib/kultest/snax-kul-cluster-xdma-test.c:163-170 | starts the DMA and returns a fresh read of the commit counter once it has moved away from the value read before the start |
| Xdma.LastTaskIdNeedsExactCounter | sw/lib/kultest/snax-kul-cluster-xdma-test.c:173-175 | with a plain unsigned comparison, task id 0xFFFFFFFF counts as finished only while the counter is exactly 0xFFFFFFFF |
| Xdma.WaitTask | sw/lib/kultest/snax-kul-cluster-xdma-test.c:177-181 | spins until the finish counter reaches `task_id`, and returns true exactly when some observation does |
| Xdma.IsFinished | sw/lib/kultest/snax-kul-cluster-xdma-test.c:173-175 | id 0 is always finished, a counter equal to the id is finished, and the counter 0xFFFFFFFF finishes every id |
| Gemmx.UnpackPacked | sw/lib/kultest/snax-kul-cluster-gemmx-test.c:11-25 | each byte packed into a word is read back from its own position |
| Gemmx.PackUnpacked | sw/lib/kultest/snax-kul-cluster-gemmx-test.c:11-25 | repacking a word's four bytes gives the word |
| Gemmx.SizeConfig | sw/lib/kultest/snax-kul-cluster-gemmx-test.c:11-14 | N in byte 0, K in byte 1, M in byte 2, Batch in byte 3 |
| Gemmx.SubtractionConfig | sw/lib/kultest/snax-kul-cluster-gemmx-test.c:16-18 | offset a in byte 0, offset b in byte 1, upper half clear |
| Gemmx.Csr0Config | sw/lib/kultest/snax-kul-cluster-gemmx-test.c:20-25 | input zero point, output zero point, max and min in bytes 0 to 3 |
| Gemmx.Csr1Config | sw/lib/kultest/snax-kul-cluster-gemmx-test.c:27-30 | the rounding word is 0 or 1, and 1 exactly when double rounding is on |
| Gemmx.MismatchesBound | sw/lib/kultest/snax-kul-cluster-gemmx-test.c:269-275 | a flat check counts at most one error per element |
| Gemmx.MismatchesZero | sw/lib/kultest/snax-kul-cluster-gemmx-test.c:269-275 | a flat check counts no error exactly when the compared prefixes are equal |
| Gemmx.RowMismatchesZero | sw/lib/kultest/snax-kul-cluster-gemmx-test.c:263-267 | one bank row has at most `block` errors, and none exactly when every element of the row agrees |
| Gemmx.BankedMismatchesBound | sw/lib/kultest/snax-kul-cluster-gemmx-test.c:261-268 | a banked check counts at most `rows * block` errors |
| Gemmx.BankedMismatchesZero | sw/lib/kultest/snax-kul-cluster-gemmx-test.c:261-268 | a banked check counts no error exactly when, in every bank row `i`, element `j` at `i * stride + j` equals golden element `i * block + j` |
| Gemmx.CountMismatches | sw/lib/kultest/snax-kul-cluster-gemmx-test.c:269-275 | the flat loop counts the differing positions |
| Gemmx.CountBankedMismatches | sw/lib/kultest/snax-kul-cluster-gemmx-test.c:261-268 | the nested loop compares element `j` of bank row `i` with golden element `i * block + j` and counts the differences |
| Gemmx.ResultSize | sw/lib/kultest/snax-kul-cluster-gemmx-test.c:258-259 | the element count is `Batch*M*N*meshRow*meshCol` whenever that fits 32 bits, and 0 when any factor is 0 |
| Gemmx.CheckResultD8 | sw/lib/kultest/snax-kul-cluster-gemmx-test.c:254-278 | computes `size` from Batch, M, N and the mesh, then compares 64 results per 256-byte bank row, or flat; never more errors than `size` |
| Gemmx.CheckResultD32 | sw/lib/kultest/snax-kul-cluster-gemmx-test.c:280-305 | computes `size` from Batch, M, N and the mesh, then compares 16 results per 64-word bank row, or flat; never more errors than `size` |
| Gemmx.IndexedWritesLast | sw/lib/kultest/snax-kul-cluster-gemmx-test.c:64-78 | a numbered run of CSRs leaves argument `k` in member `k` and writes no other register |
| Gemmx.StreamerLast | sw/lib/kultest/snax-kul-cluster-gemmx-test.c:33-188 | the last store to each CSR in the streamer sequence is what `StreamerValue` names |
| Gemmx.StreamerAfter | sw/lib/kultest/snax-kul-cluster-gemmx-test.c:33-188 | after the streamer sequence each CSR holds its `StreamerValue`, or its old value when the sequence does not write it |
| Gemmx.OutputStreamSelection | sw/lib/kultest/snax-kul-cluster-gemmx-test.c:108-117 | with the SIMD stage in use D8 gets the caller's bounds and D32 zeros; with it bypassed, the reverse (lines 164-173) |
| Gemmx.PortLoopsWritten | sw/lib/kultest/snax-kul-cluster-gemmx-test.c:64-181 | every port's strides and remap index come from its arguments, as do the bounds of A, B and C; nothing beyond a port's loops is written |
| Gemmx.PortPointersWritten | sw/lib/kultest/snax-kul-cluster-gemmx-test.c:58-162 | each base pointer holds its offset plus the cluster base, kept to 32 bits; A, B and D8 write only their second spatial stride, into register 0, while C and D32 write both |
| Gemmx.ExtensionsWritten | sw/lib/kultest/snax-kul-cluster-gemmx-test.c:148-187 | the channel enable is written as given; broadcast and transpose are written negated into 0 or 1; each is written only when built in |
| Gemmx.SetStreamerCsr | sw/lib/kultest/snax-kul-cluster-gemmx-test.c:33-188 | the streamer sequence's stores in program order |
| Gemmx.CoreLast | sw/lib/kultest/snax-kul-cluster-gemmx-test.c:190-229 | the last store to each core CSR is the matching argument; no other CSR is written |
| Gemmx.CoreAfter | sw/lib/kultest/snax-kul-cluster-gemmx-test.c:190-229 | after `set_gemmx_csr` each argument sits in its own CSR and every other CSR is unchanged |
| Gemmx.CoreEndsWithBypass | sw/lib/kultest/snax-kul-cluster-gemmx-test.c:228 | the SIMD bypass is the last store of the sequence |
| Gemmx.SetGemmxCsr | sw/lib/kultest/snax-kul-cluster-gemmx-test.c:190-229 | the core sequence's stores in program order |
| Gemmx.CallerLoopOrder | sw/lib/kultest/snax-kul-cluster-gemmx-test.c:418-423 | the GEMM core receives K innermost, then N, then M, and `M * N` as the temporal bound |
| Gemmx.CallerArgs | sw/lib/kultest/snax-kul-cluster-gemmx-test.c:410-423 | the convolution test's subtraction word carries both offsets, its SIMD word the zero points and clamps in bytes 0 to 3, its rounding word is 1 exactly when double rounding is on, and the arguments are complete exactly with 2 shifts and 8 multipliers |
| Gemmx.WaitGemm | sw/lib/kultest/snax-kul-cluster-gemmx-test.c:233-236 | two stores of 0 to the streamer start, then the spin on the GEMM busy flag |
| Gemmx.WaitStreamer | sw/lib/kultest/snax-kul-cluster-gemmx-test.c:237-239 | the spin on the streamer busy flag, then the store of 0 to the GEMM start |
| Gemmx.WaitGemmxAndStreamer | sw/lib/kultest/snax-kul-cluster-gemmx-test.c:231-240 | returns true exactly when both busy flags read 0 at some point; then both flags and both start registers hold 0 |
| Gemmx.ReadPerfCounter | sw/lib/kultest/snax-kul-cluster-gemmx-test.c:242-252 | a performance-counter read returns the value the counter holds at that read |
| DataReshuffler.ConfigWritesAt | sw/kul-cluster-test/lib/snax-data-reshuffler-lib.c:12-57 | write `k` of the configuration stores slot `k` to CSR `960 + k` |
| DataReshuffler.ConfigWritesLast | sw/kul-cluster-test/lib/snax-data-reshuffler-lib.c:12-57 | a CSR in the window 960 onwards holds its slot, and no CSR outside the window is written |
| DataReshuffler.SlotLayout | sw/kul-cluster-test/lib/snax-data-reshuffler-lib.c:22-56 | input bounds are at 960-964, output bounds at 965-967, input strides at 968-972, output strides at 973-975, spatial strides at 976-977, and base pointers (`delta + base`, kept to 32 bits) at 978-979 |
| DataReshuffler.ConfigAfter | sw/kul-cluster-test/lib/snax-data-reshuffler-lib.c:12-57 | after `set_data_reshuffler_csr` CSRs 960 to 979 hold the slots and every other CSR is unchanged |
| DataReshuffler.SetDataReshufflerCsr | sw/kul-cluster-test/lib/snax-data-reshuffler-lib.c:12-57 | the twenty stores in program order |
| DataReshuffler.ReshuffleFieldsRoundTrip | sw/kul-cluster-test/lib/snax-data-reshuffler-lib.c:64-69 | the packed word gives back T2Len, reduceLen and opcode exactly when each fits its field |
| DataReshuffler.ReshuffleWord | sw/kul-cluster-test/lib/snax-data-reshuffler-lib.c:66-67 | the opcode's two low bits land in bits 0 and 1, and with fitting reduceLen and opcode bits 8 and up hold T2Len without its top eight bits |
| DataReshuffler.ReshuffleWordCollision | sw/kul-cluster-test/lib/snax-data-reshuffler-lib.c:66-67 | without masking, opcode 4 gives the same word as reduceLen 1 |
| DataReshuffler.SetDataReshuffler | sw/kul-cluster-test/lib/snax-data-reshuffler-lib.c:64-69 | one store of the packed word to CSR 983 |
| DataReshuffler.SetStreamerRunning | sw/kul-cluster-test/lib/snax-data-reshuffler-lib.c:60-62 | start and wait are a single store of 1 or 0 to CSR 980; the wait does not poll |
| DataReshuffler.SetReshufflerRunning | sw/kul-cluster-test/lib/snax-data-reshuffler-lib.c:71-73 | start and wait are a single store of 1 or 0 to CSR 984; the wait does not poll |
| DataReshuffler.ReadPerfCounter | sw/kul-cluster-test/lib/snax-data-reshuffler-lib.c:75-78 | the counter is read from CSR 983, the same CSR the packed word is written to |
| DataReshuffler.TestChunk | sw/kul-cluster-test/lib/snax-data-reshuffler-lib.c:80-93 | counts the differing bytes below `len`; the count is at most `len`, 0 exactly when the bytes agree, and 0 for `len <= 0` |
| SnitchRuntime.CoreIdx | sw/include/kultest/snrt/snrt_TO.h:25-30 | the core index is the low 16 bits of CSR 0xbc3 |
| SnitchRuntime.CoreNum | sw/include/kultest/snrt/snrt_TO.h:32-37 | the core count is the high 16 bits of CSR 0xbc3 |
| SnitchRuntime.CoreInfoSplit | sw/include/kultest/snrt/snrt_TO.h:25-37 | the two halves rebuild the CSR value, and any two 16-bit halves are decoded back |
| SnitchRuntime.ComputeCoreNum | sw/include/kultest/snrt/snrt_TO.h:43-45 | the compute-core count is the core count less the one data mover, and wraps to 0xFFFFFFFF for an empty cluster |
| SnitchRuntime.IsComputeCore | sw/include/kultest/snrt/snrt_TO.h:47-49 | in a non-empty cluster, exactly the cores below the last are compute cores |
| SnitchRuntime.IsDmCore | sw/include/kultest/snrt/snrt_TO.h:51-53 | in a non-empty cluster, exactly the last core and any index past it read as the data mover |
| SnitchRuntime.DmCoreIsLast | sw/include/kultest/snrt/snrt_TO.h:39-53 | in a cluster with at least one core, the data-mover core is exactly the last core |
| SnitchRuntime.EmptyClusterAllCompute | sw/include/kultest/snrt/snrt_TO.h:43-45 | a core count of 0 wraps the compute count to 0xFFFFFFFF, so every core reads as a compute core |
| SnitchRuntime.StartCarriesAddresses | sw/include/kultest/snrt/snrt_TO.h:69-91 | the source and destination instructions carry the full 64-bit addresses, split into halves |
| SnitchRuntime.WithHighHalfSplit | sw/include/kultest/snrt/snrt_TO.h:193-196 | adding the cluster's high half above a 32-bit pointer never carries: the low half stays the pointer |
| SnitchRuntime.NarrowAddress | sw/include/kultest/snrt/snrt_TO.h:112-115 | a widened 32-bit pointer has an empty high half |
| SnitchRuntime.Dma.Start1dWide | sw/include/kultest/snrt/snrt_TO.h:64-109 | size 0 issues nothing and returns 0xFFFFFFFF; otherwise it issues source, destination and copy, and returns the DMA's id |
| SnitchRuntime.Dma.Start1d | sw/include/kultest/snrt/snrt_TO.h:112-115 | the pointers are widened with nothing added |
| SnitchRuntime.Dma.Start2dWide | sw/include/kultest/snrt/snrt_TO.h:118-187 | size 0 issues nothing and returns 0xFFFFFFFF; otherwise it issues source, destination, strides, repetitions and the 2-D copy |
| SnitchRuntime.Dma.Start2d | sw/include/kultest/snrt/snrt_TO.h:190-199 | both pointers get the cluster's high address half above them |
| SnitchRuntime.Start1dAddresses | sw/include/kultest/snrt/snrt_TO.h:112-115 | a 1-D transfer addresses the pointers themselves, with high half 0 |
| SnitchRuntime.Start2dAddresses | sw/include/kultest/snrt/snrt_TO.h:190-199 | a 2-D transfer addresses the pointers with the cluster's high half |

## Left out

- Inline assembly is modelled as events: `csrr`/`csrw`, the `dmsrc`/`dmdst`/`dmstr`/`dmrep`/`dmcpyi` instruction words, and `mhartid` reads. Register accesses are `Store`/`Change` entries; DMA instructions are `DmaInstr` values. Instruction encodings are not modelled.
- `snrt_dma_wait_all`, `snrt_cluster_hw_barrier` and the base-address CSR reads (0xbc1, 0xbc2) are left out; the base addresses are parameters (`base`, `baseHigh`). The transfer id a DMA copy returns is also a parameter (`txid`).
- Spin loops do not terminate by proof. Each spin consumes a finite sequence of observed values and reports when they run out. This covers `waitForCluster`, `xdma_start`, `xdma_wait` and `wait_gemmx_and_streamer`. When the hardware answers is not modelled.
- The test bodies `kul_cluster_gemmx_test` and `kul_cluster_xdma_test` are not part of this model. The one exception is the argument passing of the convolution test into `set_gemmx_csr` (`CallerArgs`). These bodies are stack and global-pointer set-up, DMA transfers, barriers and raw CSR pokes.
- `set_gemmx_start`, `set_gemmx_streamer_start`, `waitClusterBusy`, `setAllClusterClockGating` and `setAllClusterReset` are not part of this model: their definitions are not among the files modelled.
- The CSR addresses from unseen headers are named constructors rather than numbers: the GEMMX `T_BOUND_*`, `BASE_PTR_*` and similar, and the xDMA `XDMA_*` pointers. The xDMA dimensions, beat width and extension tables are fields of `XdmaParams`. `meshRow` and `meshCol` are parameters of `ResultSize`.
- The `#ifdef` blocks of `set_gemmx_streamer_csr` are selected by a `BuildFlags` value.
- `Gemmx.ResultSize`: `Batch*M*N*meshRow*meshCol` is computed in `int32_t`, where overflow is undefined. The model takes the product modulo 2^32, as it is stored in a `uint32_t`.
- `Gemmx.SizeConfig`, `Gemmx.Csr0Config`: shifting a byte of 128 or more into bit 24 of an `int32_t` is undefined in C. The encoders are modelled on bit-vectors, which is what the compiler produces.
- `Gemmx.CheckResultD8`, `Gemmx.CheckResultD32`, `DataReshuffler.TestChunk`: the arrays are sequences. The requires clauses say that they hold every element read, which the C code assumes without checking. Values are compared as the signed bytes or words the C code compares; only equality matters.
- The SoC-control registers are named, not addressed. Offload and worker use `CLUSTER_1..5_RETURN`, while `sw/include/regs/soc_ctrl.h:26-38` defines `CLUSTER_0..4`. The model follows the code's names and does not reconcile the two revisions.
- `Xdma.Memcpy1dDescriptor`: with more than one spatial dimension the strides the hardware expects for the outer spatial dimensions are not known from the code; the model repeats the per-channel stride, and proves only that every lane is written.
- `Offload.WaitForCluster`: the value of the second read is a parameter, as the other side may write between the two reads; `OffloadProtocol.OffloadRoundTrip` covers the case where the worker writes once. For a cluster id above 4 the C code reads through an uninitialised pointer. The model makes `clusterId < 5` a precondition.
- `SnitchStartup.HartByte`: `mhartid` is read into a `uint8_t`, so hart 266 behaves as hart 10. The model keeps that truncation; it does not claim that such harts exist.
- `SnitchRuntime.CoreIdx`, `SnitchRuntime.CoreNum`: the cluster-info value is an unsigned number, and `& 0xffff` and `>> 16` are written as `% 0x10000` and `/ 0x10000`, which are equal on unsigned values.
- Where the repository's design description and the code disagree, the model follows the code. On the code's behaviour:
  - `0x050CCE55 | 1` is `0x050CCE55`, because the constant is already odd.
  - `xdma_memcpy_nd` is not free of writes when it rejects a rank.
  - No busy check precedes an offload.
  - `xdma_is_finished` is a plain unsigned comparison with no wrap-around handling.

## Findings

| source | as written | input that shows it | evidently intended | confidence | as-written member | corrected member |
|---|---|---|---|---|---|---|
| sw/lib/kultest/snax-kul-cluster-xdma-test.c:98-104 | `xdma_memcpy_1d` passes temporal rank 2 on both sides but builds one-element bound and stride arrays (the two-element `bound` is never used) | any size that is a multiple of the width on hardware with at least 2 source loops: `xdma_memcpy_nd` reads `temp_bound_src[1]`, past the array | rank 1 on both sides, one loop of `size / width` beats of `width` bytes | not executed | Xdma.Memcpy1dAsWrittenOverreads | Xdma.Memcpy1d |
| sw/lib/kultest/snax-kul-cluster-xdma-test.c:98-102 | `xdma_memcpy_1d` passes the one-element `spatial_stride` array as both sides' spatial strides, while `xdma_memcpy_nd` writes `XDMA_SRC_SPATIAL_DIM` and `XDMA_DST_SPATIAL_DIM` of them (lines 49-55) | hardware with at least 2 spatial dimensions on either side: `xdma_memcpy_nd` reads `spatial_stride_src[1]`, past the array | one spatial stride per spatial dimension; the model gives each lane the per-channel stride `width / channels` | not executed | Xdma.Memcpy1dAsWrittenOverreads | Xdma.Memcpy1dDescriptor |
