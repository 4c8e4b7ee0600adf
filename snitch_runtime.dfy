// The Snitch runtime helpers the cluster tests use: decoding a core's index
// and the cluster's core count from the cluster-info CSR 0xbc3, telling
// compute cores from the data-mover core, and issuing 1-D and 2-D DMA
// transfers through the cluster DMA's custom instructions.

module SnitchRuntime {
  import opened Registers

  // ---------------------------------------------------------------------
  // Core identification.

  /** Data-mover cores per cluster. */
  const DmCoreNum: nat := 1

  /** `snrt_cluster_core_idx`: the low 16 bits of the cluster-info value
      (`info & 0xffff`). */
  function CoreIdx(info: Uint32): (idx: Uint32)
    ensures idx < 0x1_0000
  {
    info % 0x1_0000
  }

  /** `snrt_cluster_core_num`: the high 16 bits of the cluster-info value
      (`info >> 16`). */
  function CoreNum(info: Uint32): (num: Uint32)
    ensures num < 0x1_0000
  {
    info / 0x1_0000
  }

  /** The two halves rebuild the CSR value, and any pair of halves is
      decoded back. */
  lemma CoreInfoSplit(info: Uint32, idx: Uint32, num: Uint32)
    requires idx < 0x1_0000 && num < 0x1_0000
    ensures CoreNum(info) * 0x1_0000 + CoreIdx(info) == info
    ensures CoreIdx(num * 0x1_0000 + idx) == idx && CoreNum(num * 0x1_0000 + idx) == num
  {
  }

  /** `snrt_cluster_compute_core_num`: all cores but the data mover, in
      unsigned 32-bit arithmetic, so an empty cluster wraps around. */
  function ComputeCoreNum(info: Uint32): (n: Uint32)
    ensures CoreNum(info) >= DmCoreNum ==> n == CoreNum(info) - DmCoreNum
    ensures CoreNum(info) == 0 ==> n == 0xFFFF_FFFF
  {
    (CoreNum(info) - DmCoreNum) % 0x1_0000_0000
  }

  /** `snrt_is_compute_core`: an unsigned comparison of the index with the
      compute-core count; in a non-empty cluster, every core below the
      last. */
  predicate IsComputeCore(info: Uint32): (b: bool)
    ensures CoreNum(info) >= 1 ==> (b <==> CoreIdx(info) < CoreNum(info) - 1)
  {
    CoreIdx(info) < ComputeCoreNum(info)
  }

  /** `snrt_is_dm_core`: in a non-empty cluster, the last core and any index
      past it. */
  predicate IsDmCore(info: Uint32): (b: bool)
    ensures CoreNum(info) >= 1 ==> (b <==> CoreIdx(info) >= CoreNum(info) - 1)
  {
    !IsComputeCore(info)
  }

  /** In a cluster of at least one core, the data mover is exactly the last
      core. */
  lemma DmCoreIsLast(info: Uint32)
    requires 1 <= CoreNum(info) && CoreIdx(info) < CoreNum(info)
    ensures IsDmCore(info) <==> CoreIdx(info) == CoreNum(info) - 1
  {
    LastOfCount(CoreIdx(info), CoreNum(info));
  }

  lemma LastOfCount(idx: Uint32, num: Uint32)
    requires 1 <= num && idx < num
    ensures !(idx < (num - DmCoreNum) % 0x1_0000_0000) <==> idx == num - 1
  {
  }

  /** A core count of 0 wraps the compute count to `2^32 - 1`, so every
      core reads as a compute core and none as the data mover. */
  lemma EmptyClusterAllCompute(info: Uint32)
    requires CoreNum(info) == 0
    ensures ComputeCoreNum(info) == 0xFFFF_FFFF
    ensures IsComputeCore(info) && !IsDmCore(info)
  {
  }

  // ---------------------------------------------------------------------
  // DMA transfers.

  /** The cluster DMA's custom instructions: the source and destination
      addresses as low and high halves, the 2-D strides and repetition
      count, and the copy itself with its size and configuration (0 for
      1-D, 2 for 2-D). */
  datatype DmaInstr =
    | DmSrc(lo: Word, hi: Word)
    | DmDst(lo: Word, hi: Word)
    | DmStr(dstStride: Word, srcStride: Word)
    | DmRep(repeat: Word)
    | DmCpyI(size: Word, config: Word)

  /** The transfer id the start functions return when they issue nothing. */
  const NoTransfer: Word := 0xFFFF_FFFF

  /** The instructions of a 1-D transfer, in issue order. */
  function Start1dInstrs(dst: bv64, src: bv64, size: Word): seq<DmaInstr> {
    [DmSrc(Lo32(src), Hi32(src)), DmDst(Lo32(dst), Hi32(dst)), DmCpyI(size, 0)]
  }

  /** The instructions of a 2-D transfer, in issue order. */
  function Start2dInstrs(dst: bv64, src: bv64, size: Word, dstStride: Word, srcStride: Word, repeat: Word)
    : seq<DmaInstr>
  {
    [DmSrc(Lo32(src), Hi32(src)), DmDst(Lo32(dst), Hi32(dst)),
     DmStr(dstStride, srcStride), DmRep(repeat), DmCpyI(size, 2)]
  }

  /** The 64-bit address an address instruction carries. */
  function Address(i: DmaInstr): bv64
    requires i.DmSrc? || i.DmDst?
  {
    (i.hi as bv64 << 32) | i.lo as bv64
  }

  /** Both address instructions of a transfer carry the full 64-bit
      addresses. */
  lemma StartCarriesAddresses(dst: bv64, src: bv64, size: Word, dstStride: Word, srcStride: Word, repeat: Word)
    ensures Address(Start1dInstrs(dst, src, size)[0]) == src
    ensures Address(Start1dInstrs(dst, src, size)[1]) == dst
    ensures Address(Start2dInstrs(dst, src, size, dstStride, srcStride, repeat)[0]) == src
    ensures Address(Start2dInstrs(dst, src, size, dstStride, srcStride, repeat)[1]) == dst
  {
    assert Address(DmSrc(Lo32(src), Hi32(src))) == src;
    assert Address(DmDst(Lo32(dst), Hi32(dst))) == dst;
  }

  /** A 32-bit pointer widened to 64 bits has an empty high half. */
  lemma NarrowAddress(p: Word)
    ensures Lo32(p as bv64) == p && Hi32(p as bv64) == 0
  {
  }

  /** `dst + (base_addrh << 32)` for a 32-bit `dst`: the cluster's high
      address half above the pointer. */
  function WithHighHalf(p: Word, baseHigh: Word): bv64 {
    p as bv64 + (baseHigh as bv64 << 32)
  }

  /** Adding the high half never carries into it: the low half stays the
      pointer and the high half is the cluster's. */
  lemma WithHighHalfSplit(p: Word, baseHigh: Word)
    ensures Lo32(WithHighHalf(p, baseHigh)) == p
    ensures Hi32(WithHighHalf(p, baseHigh)) == baseHigh
  {
    assert WithHighHalf(p, baseHigh) == (baseHigh as bv64 << 32) | p as bv64;
  }

  /** The cluster DMA as seen by software: the instructions issued so far. */
  class Dma {
    var issued: seq<DmaInstr>

    constructor ()
      ensures issued == []
    {
      issued := [];
    }

    method Issue(i: DmaInstr)
      modifies this
      ensures issued == old(issued) + [i]
    {
      issued := issued + [i];
    }

    /** `snrt_dma_start_1d_wideptr`. A zero-sized transfer issues nothing
        and returns `(uint32_t)-1`; otherwise the source, the destination
        and the copy are issued and the id is the one the DMA hands back,
        `txid`. */
    method Start1dWide(dst: bv64, src: bv64, size: Word, txid: Word) returns (id: Word)
      modifies this
      ensures size == 0 ==> id == NoTransfer && issued == old(issued)
      ensures size != 0 ==> id == txid && issued == old(issued) + Start1dInstrs(dst, src, size)
    {
      if size > 0 {
        Issue(DmSrc(Lo32(src), Hi32(src)));
        Issue(DmDst(Lo32(dst), Hi32(dst)));
        Issue(DmCpyI(size, 0));
        id := txid;
      } else {
        id := NoTransfer;
      }
    }

    /** `snrt_dma_start_1d`: the 32-bit pointers widened with nothing
        added. */
    method Start1d(dst: Word, src: Word, size: Word, txid: Word) returns (id: Word)
      modifies this
      ensures size == 0 ==> id == NoTransfer && issued == old(issued)
      ensures size != 0 ==> id == txid && issued == old(issued) + Start1dInstrs(dst as bv64, src as bv64, size)
    {
      id := Start1dWide(dst as bv64, src as bv64, size, txid);
    }

    /** `snrt_dma_start_2d_wideptr`. */
    method Start2dWide(dst: bv64, src: bv64, size: Word, dstStride: Word, srcStride: Word, repeat: Word, txid: Word)
      returns (id: Word)
      modifies this
      ensures size == 0 ==> id == NoTransfer && issued == old(issued)
      ensures size != 0 ==> (id == txid
        && issued == old(issued) + Start2dInstrs(dst, src, size, dstStride, srcStride, repeat))
    {
      if size > 0 {
        Issue(DmSrc(Lo32(src), Hi32(src)));
        Issue(DmDst(Lo32(dst), Hi32(dst)));
        Issue(DmStr(dstStride, srcStride));
        Issue(DmRep(repeat));
        Issue(DmCpyI(size, 2));
        id := txid;
      } else {
        id := NoTransfer;
      }
    }

    /** `snrt_dma_start_2d`: both pointers get the cluster's high address
        half `baseHigh` (CSR 0xbc2) above them. */
    method Start2d(dst: Word, src: Word, size: Word, dstStride: Word, srcStride: Word, repeat: Word,
                   baseHigh: Word, txid: Word)
      returns (id: Word)
      modifies this
      ensures size == 0 ==> id == NoTransfer && issued == old(issued)
      ensures size != 0 ==> (id == txid
        && issued == old(issued) + Start2dInstrs(WithHighHalf(dst, baseHigh), WithHighHalf(src, baseHigh),
                                                 size, dstStride, srcStride, repeat))
    {
      var dstWide := WithHighHalf(dst, baseHigh);
      var srcWide := WithHighHalf(src, baseHigh);
      id := Start2dWide(dstWide, srcWide, size, dstStride, srcStride, repeat, txid);
    }
  }

  /** A 1-D transfer addresses the pointers themselves, with empty high
      halves. */
  lemma Start1dAddresses(dst: Word, src: Word, size: Word)
    ensures Start1dInstrs(dst as bv64, src as bv64, size)[0] == DmSrc(src, 0)
    ensures Start1dInstrs(dst as bv64, src as bv64, size)[1] == DmDst(dst, 0)
  {
    NarrowAddress(dst);
    NarrowAddress(src);
  }

  /** A 2-D transfer addresses the pointers with the cluster's high half. */
  lemma Start2dAddresses(dst: Word, src: Word, size: Word, dstStride: Word, srcStride: Word, repeat: Word,
                         baseHigh: Word)
    ensures var instrs := Start2dInstrs(WithHighHalf(dst, baseHigh), WithHighHalf(src, baseHigh),
                                        size, dstStride, srcStride, repeat);
      instrs[0] == DmSrc(src, baseHigh) && instrs[1] == DmDst(dst, baseHigh)
  {
    WithHighHalfSplit(dst, baseHigh);
    WithHighHalfSplit(src, baseHigh);
  }
}
