/** The xDMA strided-descriptor driver: a transfer is described by a source
    and a destination address, per-side spatial strides and up to
    XDMA_<side>_TEMP_DIM nested (bound, stride) loops per side, written into
    the xDMA's CSRs; unused loop dimensions are neutralised to (1, 0).
    Extensions in the data path are switched on by clearing their bit in a
    bypass CSR and handed their parameters in a block of CSRs placed after
    the blocks of the extensions before them. A task is started by a write
    and tracked through the commit and finish counters. */
module Xdma {
  import opened Registers

  datatype Side = Src | Dst

  /** The xDMA CSRs, named by role instead of by the addresses the
      CSR-address header assigns them. */
  datatype XdmaCsr =
    | AddrLsb(side: Side)
    | AddrMsb(side: Side)
    | SpatialStride(side: Side, lane: nat)
    | TempBound(side: Side, dim: nat)
    | TempStride(side: Side, dim: nat)
    | EnabledChan(side: Side)
    | EnabledByte
    | Bypass(side: Side)
    | ExtParam(side: Side, index: nat)  // XDMA_<side>_EXT_CSR_PTR + index
    | Start
    | CommitTask
    | FinishTask

  /** The build-time constants of one xDMA instance: spatial and temporal
      ranks, beat width in bytes, spatial channels, and per side the number
      of parameter CSRs of each extension, in extension order. */
  datatype XdmaParams = XdmaParams(
    srcSpatialDim: nat, dstSpatialDim: nat,
    srcTempDim: nat, dstTempDim: nat,
    width: Uint32, spatialChan: Uint32,
    srcExtCsrs: seq<Byte>, dstExtCsrs: seq<Byte>)

  /** A buildable instance: the 1-D helper divides by the beat width and the
      channel count, and an extension's bypass bit `1 << ext` must fit in
      the 32-bit register. */
  predicate ValidParams(p: XdmaParams) {
    p.width > 0 && p.spatialChan > 0
    && |p.srcExtCsrs| <= 32 && |p.dstExtCsrs| <= 32
  }

  function ExtCsrs(p: XdmaParams, side: Side): seq<Byte> {
    if side == Src then p.srcExtCsrs else p.dstExtCsrs
  }

  function Min(a: nat, b: nat): nat {
    if a <= b then a else b
  }

  /** The arguments of `xdma_memcpy_nd`. Addresses are the pointers widened to
      64 bits; the arrays are the caller's `unsigned int` arrays. */
  datatype Descriptor = Descriptor(
    src: bv64, dst: bv64,
    spatialStrideSrc: seq<Word>, spatialStrideDst: seq<Word>,
    tempDimSrc: Uint32, tempStrideSrc: seq<Word>, tempBoundSrc: seq<Word>,
    tempDimDst: Uint32, tempStrideDst: seq<Word>, tempBoundDst: seq<Word>,
    enabledChanSrc: Word, enabledChanDst: Word, enabledByteDst: Word)

  /** The source loop nest stays within the hardware's rank. */
  predicate SrcRankOk(p: XdmaParams, d: Descriptor) {
    d.tempDimSrc <= p.srcTempDim
  }

  /** Both loop nests stay within the hardware's rank. */
  predicate RanksOk(p: XdmaParams, d: Descriptor) {
    SrcRankOk(p, d) && d.tempDimDst <= p.dstTempDim
  }

  /** Every array element `xdma_memcpy_nd` reads exists: all spatial strides,
      the temporal loops it writes before it stops, and the destination's
      only when the source rank was accepted. */
  predicate ArraysCover(p: XdmaParams, d: Descriptor) {
    |d.spatialStrideSrc| >= p.srcSpatialDim && |d.spatialStrideDst| >= p.dstSpatialDim
    && |d.tempBoundSrc| >= Min(d.tempDimSrc, p.srcTempDim)
    && |d.tempStrideSrc| >= Min(d.tempDimSrc, p.srcTempDim)
    && (SrcRankOk(p, d) ==>
          |d.tempBoundDst| >= Min(d.tempDimDst, p.dstTempDim)
          && |d.tempStrideDst| >= Min(d.tempDimDst, p.dstTempDim))
  }

  /** -4 when either loop nest is deeper than the hardware supports; a rank
      equal to the maximum is accepted. */
  function MemcpyStatus(p: XdmaParams, d: Descriptor): (status: int)
    ensures status == -4 <==> d.tempDimSrc > p.srcTempDim || d.tempDimDst > p.dstTempDim
    ensures status == 0 <==> RanksOk(p, d)
  {
    if RanksOk(p, d) then 0 else -4
  }

  // ---------------------------------------------------------------------
  // The CSR stores of one descriptor, run by run.

  function AddressWrites(d: Descriptor): seq<Access<XdmaCsr>> {
    [Store(AddrLsb(Src), Lo32(d.src)), Store(AddrMsb(Src), Hi32(d.src)),
     Store(AddrLsb(Dst), Lo32(d.dst)), Store(AddrMsb(Dst), Hi32(d.dst))]
  }

  /** Spatial strides 0 to n-1 of one side, in order. */
  function SpatialWrites(side: Side, strides: seq<Word>, n: nat): seq<Access<XdmaCsr>>
    requires n <= |strides|
    decreases n
  {
    if n == 0 then []
    else SpatialWrites(side, strides, n - 1) + [Store(SpatialStride(side, n - 1), strides[n - 1])]
  }

  /** Temporal loops 0 to n-1 of one side, each as its bound then its stride. */
  function TemporalWrites(side: Side, bounds: seq<Word>, strides: seq<Word>, n: nat): seq<Access<XdmaCsr>>
    requires n <= |bounds| && n <= |strides|
    decreases n
  {
    if n == 0 then []
    else
      TemporalWrites(side, bounds, strides, n - 1)
        + [Store(TempBound(side, n - 1), bounds[n - 1])]
        + [Store(TempStride(side, n - 1), strides[n - 1])]
  }

  /** Loops lo to hi-1 of one side neutralised: bound 1, stride 0. */
  function NeutralWrites(side: Side, lo: nat, hi: nat): seq<Access<XdmaCsr>>
    requires lo <= hi
    decreases hi
  {
    if hi == lo then []
    else NeutralWrites(side, lo, hi - 1) + [Store(TempBound(side, hi - 1), 1)] + [Store(TempStride(side, hi - 1), 0)]
  }

  function ChannelWrites(d: Descriptor): seq<Access<XdmaCsr>> {
    [Store(EnabledChan(Src), d.enabledChanSrc), Store(EnabledChan(Dst), d.enabledChanDst),
     Store(EnabledByte, d.enabledByteDst)]
  }

  /** Addresses and both sides' spatial strides: always written. */
  function PreambleWrites(p: XdmaParams, d: Descriptor): seq<Access<XdmaCsr>>
    requires ArraysCover(p, d)
  {
    AddressWrites(d)
      + SpatialWrites(Src, d.spatialStrideSrc, p.srcSpatialDim)
      + SpatialWrites(Dst, d.spatialStrideDst, p.dstSpatialDim)
  }

  /** Everything up to the destination's temporal loops. */
  function SourceWrites(p: XdmaParams, d: Descriptor): seq<Access<XdmaCsr>>
    requires ArraysCover(p, d)
  {
    var upToLoops := PreambleWrites(p, d)
      + TemporalWrites(Src, d.tempBoundSrc, d.tempStrideSrc, Min(d.tempDimSrc, p.srcTempDim));
    if !SrcRankOk(p, d) then upToLoops
    else upToLoops + NeutralWrites(Src, d.tempDimSrc, p.srcTempDim)
  }

  /** The CSR stores `xdma_memcpy_nd` issues, up to the point where it
      returns. */
  function MemcpyWrites(p: XdmaParams, d: Descriptor): seq<Access<XdmaCsr>>
    requires ArraysCover(p, d)
  {
    if !SrcRankOk(p, d) then SourceWrites(p, d)
    else
      var upToLoops := SourceWrites(p, d)
        + TemporalWrites(Dst, d.tempBoundDst, d.tempStrideDst, Min(d.tempDimDst, p.dstTempDim));
      if !RanksOk(p, d) then upToLoops
      else upToLoops + NeutralWrites(Dst, d.tempDimDst, p.dstTempDim) + ChannelWrites(d)
  }

  // ---------------------------------------------------------------------
  // What each CSR holds afterwards.

  /** The value the loop register `i` of one side last receives: the
      caller's value below the requested rank, `neutral` from there up to the
      maximum when the rank was accepted, nothing when the loops of this side
      are never reached. */
  function LoopValue(reached: bool, dim: nat, max: nat, vals: seq<Word>, neutral: Word, i: nat): Option<Word>
    requires reached ==> |vals| >= Min(dim, max)
  {
    if !reached then None
    else if i < Min(dim, max) then Some(vals[i])
    else if dim <= max && i < max then Some(neutral)
    else None
  }

  /** The last value `xdma_memcpy_nd` stores into each CSR, if any:
      - the addresses split into their low and high words, and the spatial
        strides, in every outcome;
      - the source loops below the requested rank, even when that rank is
        then rejected; with an accepted rank the loops after it up to the
        maximum hold (1, 0);
      - the destination's loops likewise, but only once the source rank was
        accepted;
      - the enables only on success. */
  function ProgrammedLast(p: XdmaParams, d: Descriptor, r: XdmaCsr): Option<Word>
    requires ArraysCover(p, d)
  {
    match r
    case AddrLsb(side) => Some(if side == Src then Lo32(d.src) else Lo32(d.dst))
    case AddrMsb(side) => Some(if side == Src then Hi32(d.src) else Hi32(d.dst))
    case SpatialStride(side, lane) =>
      if side == Src && lane < p.srcSpatialDim then Some(d.spatialStrideSrc[lane])
      else if side == Dst && lane < p.dstSpatialDim then Some(d.spatialStrideDst[lane])
      else None
    case TempBound(side, i) =>
      if side == Src then LoopValue(true, d.tempDimSrc, p.srcTempDim, d.tempBoundSrc, 1, i)
      else LoopValue(SrcRankOk(p, d), d.tempDimDst, p.dstTempDim, d.tempBoundDst, 1, i)
    case TempStride(side, i) =>
      if side == Src then LoopValue(true, d.tempDimSrc, p.srcTempDim, d.tempStrideSrc, 0, i)
      else LoopValue(SrcRankOk(p, d), d.tempDimDst, p.dstTempDim, d.tempStrideDst, 0, i)
    case EnabledChan(side) =>
      if !RanksOk(p, d) then None
      else Some(if side == Src then d.enabledChanSrc else d.enabledChanDst)
    case EnabledByte => if RanksOk(p, d) then Some(d.enabledByteDst) else None
    case _ => None
  }

  /** The last store of each run to a register. */
  lemma AddressWritesLast(d: Descriptor, r: XdmaCsr)
    ensures LastWrite(AddressWrites(d), r)
         == if r.AddrLsb? || r.AddrMsb? then ProgrammedLastAddress(d, r) else None
  {
    var ws := AddressWrites(d);
    if r == AddrLsb(Src) { LastWriteAt(ws, 0); }
    else if r == AddrMsb(Src) { LastWriteAt(ws, 1); }
    else if r == AddrLsb(Dst) { LastWriteAt(ws, 2); }
    else if r == AddrMsb(Dst) { LastWriteAt(ws, 3); }
    else { assert !Touches(ws, r); }
  }

  /** The address words: low then high word of each pointer. */
  function ProgrammedLastAddress(d: Descriptor, r: XdmaCsr): Option<Word>
    requires r.AddrLsb? || r.AddrMsb?
  {
    var a := if r.side == Src then d.src else d.dst;
    Some(if r.AddrLsb? then Lo32(a) else Hi32(a))
  }

  lemma {:induction false} SpatialWritesLast(side: Side, strides: seq<Word>, n: nat, r: XdmaCsr)
    requires n <= |strides|
    ensures LastWrite(SpatialWrites(side, strides, n), r)
         == if r.SpatialStride? && r.side == side && r.lane < n then Some(strides[r.lane]) else None
    decreases n
  {
    if n > 0 {
      SpatialWritesLast(side, strides, n - 1, r);
      LastWriteSnoc(SpatialWrites(side, strides, n - 1), Store(SpatialStride(side, n - 1), strides[n - 1]), r);
    }
  }

  lemma {:induction false} TemporalWritesLast(side: Side, bounds: seq<Word>, strides: seq<Word>, n: nat, r: XdmaCsr)
    requires n <= |bounds| && n <= |strides|
    ensures LastWrite(TemporalWrites(side, bounds, strides, n), r)
         == if r.TempBound? && r.side == side && r.dim < n then Some(bounds[r.dim])
            else if r.TempStride? && r.side == side && r.dim < n then Some(strides[r.dim])
            else None
    decreases n
  {
    if n > 0 {
      var init := TemporalWrites(side, bounds, strides, n - 1);
      var b := Store(TempBound(side, n - 1), bounds[n - 1]);
      TemporalWritesLast(side, bounds, strides, n - 1, r);
      LastWriteSnoc(init, b, r);
      LastWriteSnoc(init + [b], Store(TempStride(side, n - 1), strides[n - 1]), r);
    }
  }

  lemma {:induction false} NeutralWritesLast(side: Side, lo: nat, hi: nat, r: XdmaCsr)
    requires lo <= hi
    ensures LastWrite(NeutralWrites(side, lo, hi), r)
         == if r.TempBound? && r.side == side && lo <= r.dim < hi then Some(1)
            else if r.TempStride? && r.side == side && lo <= r.dim < hi then Some(0)
            else None
    decreases hi
  {
    if lo < hi {
      var init := NeutralWrites(side, lo, hi - 1);
      var b := Store(TempBound(side, hi - 1), 1);
      NeutralWritesLast(side, lo, hi - 1, r);
      LastWriteSnoc(init, b, r);
      LastWriteSnoc(init + [b], Store(TempStride(side, hi - 1), 0), r);
    }
  }

  lemma ChannelWritesLast(d: Descriptor, r: XdmaCsr)
    ensures LastWrite(ChannelWrites(d), r)
         == if r == EnabledChan(Src) then Some(d.enabledChanSrc)
            else if r == EnabledChan(Dst) then Some(d.enabledChanDst)
            else if r == EnabledByte then Some(d.enabledByteDst)
            else None
  {
    var ws := ChannelWrites(d);
    if r == EnabledChan(Src) { LastWriteAt(ws, 0); }
    else if r == EnabledChan(Dst) { LastWriteAt(ws, 1); }
    else if r == EnabledByte { LastWriteAt(ws, 2); }
    else { assert !Touches(ws, r); }
  }

  /** Loop registers are not touched before the temporal loops. */
  predicate IsLoopCsr(r: XdmaCsr) {
    r.TempBound? || r.TempStride?
  }

  predicate IsEnableCsr(r: XdmaCsr) {
    r.EnabledChan? || r.EnabledByte?
  }

  lemma PreambleLast(p: XdmaParams, d: Descriptor, r: XdmaCsr)
    requires ArraysCover(p, d)
    ensures LastWrite(PreambleWrites(p, d), r)
         == if IsLoopCsr(r) || IsEnableCsr(r) then None else ProgrammedLast(p, d, r)
  {
    var a := AddressWrites(d);
    var s1 := SpatialWrites(Src, d.spatialStrideSrc, p.srcSpatialDim);
    AddressWritesLast(d, r);
    SpatialWritesLast(Src, d.spatialStrideSrc, p.srcSpatialDim, r);
    SpatialWritesLast(Dst, d.spatialStrideDst, p.dstSpatialDim, r);
    LastWriteConcat(a, s1, r);
    LastWriteConcat(a + s1, SpatialWrites(Dst, d.spatialStrideDst, p.dstSpatialDim), r);
  }

  /** The source loops as a function of the loop register alone. */
  lemma SourceLoopsLast(p: XdmaParams, d: Descriptor, r: XdmaCsr)
    requires ArraysCover(p, d) && IsLoopCsr(r) && r.side == Src
    ensures LastWrite(SourceWrites(p, d), r) == ProgrammedLast(p, d, r)
  {
    var n := Min(d.tempDimSrc, p.srcTempDim);
    var t := TemporalWrites(Src, d.tempBoundSrc, d.tempStrideSrc, n);
    PreambleLast(p, d, r);
    TemporalWritesLast(Src, d.tempBoundSrc, d.tempStrideSrc, n, r);
    LastWriteConcat(PreambleWrites(p, d), t, r);
    if SrcRankOk(p, d) {
      NeutralWritesLast(Src, d.tempDimSrc, p.srcTempDim, r);
      LastWriteConcat(PreambleWrites(p, d) + t, NeutralWrites(Src, d.tempDimSrc, p.srcTempDim), r);
    }
  }

  lemma SourceLast(p: XdmaParams, d: Descriptor, r: XdmaCsr)
    requires ArraysCover(p, d)
    ensures LastWrite(SourceWrites(p, d), r)
         == if (IsLoopCsr(r) && r.side == Dst) || IsEnableCsr(r) then None else ProgrammedLast(p, d, r)
  {
    if IsLoopCsr(r) && r.side == Src {
      SourceLoopsLast(p, d, r);
    } else {
      var n := Min(d.tempDimSrc, p.srcTempDim);
      var t := TemporalWrites(Src, d.tempBoundSrc, d.tempStrideSrc, n);
      PreambleLast(p, d, r);
      TemporalWritesLast(Src, d.tempBoundSrc, d.tempStrideSrc, n, r);
      LastWriteConcat(PreambleWrites(p, d), t, r);
      if SrcRankOk(p, d) {
        NeutralWritesLast(Src, d.tempDimSrc, p.srcTempDim, r);
        LastWriteConcat(PreambleWrites(p, d) + t, NeutralWrites(Src, d.tempDimSrc, p.srcTempDim), r);
      }
    }
  }

  /** The destination loops, once the source rank was accepted. */
  lemma DestinationLoopsLast(p: XdmaParams, d: Descriptor, r: XdmaCsr)
    requires ArraysCover(p, d) && SrcRankOk(p, d)
    ensures var t := TemporalWrites(Dst, d.tempBoundDst, d.tempStrideDst, Min(d.tempDimDst, p.dstTempDim));
      LastWrite(SourceWrites(p, d) + t, r)
        == if IsEnableCsr(r) || (IsLoopCsr(r) && r.side == Dst && Min(d.tempDimDst, p.dstTempDim) <= r.dim)
           then None else ProgrammedLast(p, d, r)
  {
    var n := Min(d.tempDimDst, p.dstTempDim);
    var t := TemporalWrites(Dst, d.tempBoundDst, d.tempStrideDst, n);
    SourceLast(p, d, r);
    TemporalWritesLast(Dst, d.tempBoundDst, d.tempStrideDst, n, r);
    LastWriteConcat(SourceWrites(p, d), t, r);
  }

  /** The neutral loops and the enables, once both ranks were accepted. */
  lemma SuccessLast(p: XdmaParams, d: Descriptor, r: XdmaCsr)
    requires ArraysCover(p, d) && RanksOk(p, d)
    ensures LastWrite(MemcpyWrites(p, d), r) == ProgrammedLast(p, d, r)
  {
    var t := TemporalWrites(Dst, d.tempBoundDst, d.tempStrideDst, Min(d.tempDimDst, p.dstTempDim));
    var nw := NeutralWrites(Dst, d.tempDimDst, p.dstTempDim);
    DestinationLoopsLast(p, d, r);
    NeutralWritesLast(Dst, d.tempDimDst, p.dstTempDim, r);
    ChannelWritesLast(d, r);
    LastWriteConcat(SourceWrites(p, d) + t, nw, r);
    LastWriteConcat(SourceWrites(p, d) + t + nw, ChannelWrites(d), r);
  }

  /** The stores `xdma_memcpy_nd` issues leave, as the last store to each
      CSR, exactly what `ProgrammedLast` says. */
  lemma MemcpyLast(p: XdmaParams, d: Descriptor, r: XdmaCsr)
    requires ArraysCover(p, d)
    ensures LastWrite(MemcpyWrites(p, d), r) == ProgrammedLast(p, d, r)
  {
    if RanksOk(p, d) {
      SuccessLast(p, d, r);
    } else if SrcRankOk(p, d) {
      DestinationLoopsLast(p, d, r);
    } else {
      SourceLast(p, d, r);
    }
  }

  /** What a CSR holds after `xdma_memcpy_nd` ran on contents `m`. */
  function Programmed(m: map<XdmaCsr, Word>, p: XdmaParams, d: Descriptor, r: XdmaCsr): Word
    requires ArraysCover(p, d)
  {
    match ProgrammedLast(p, d, r)
    case Some(v) => v
    case None => Value(m, r)
  }

  lemma MemcpyEffect(m: map<XdmaCsr, Word>, p: XdmaParams, d: Descriptor, r: XdmaCsr)
    requires ArraysCover(p, d)
    ensures Value(Commit(m, MemcpyWrites(p, d)), r) == Programmed(m, p, d, r)
  {
    CommitAfter(m, MemcpyWrites(p, d), r);
    MemcpyLast(p, d, r);
  }

  /** On success every loop dimension of both sides is programmed: the
      caller's (bound, stride) below the requested rank and (1, 0) from
      there up to the maximum. */
  lemma MemcpySuccess(m: map<XdmaCsr, Word>, p: XdmaParams, d: Descriptor, i: nat)
    requires ArraysCover(p, d) && MemcpyStatus(p, d) == 0
    ensures var m' := Commit(m, MemcpyWrites(p, d));
      && (i < d.tempDimSrc ==>
            Value(m', TempBound(Src, i)) == d.tempBoundSrc[i] && Value(m', TempStride(Src, i)) == d.tempStrideSrc[i])
      && (d.tempDimSrc <= i < p.srcTempDim ==>
            Value(m', TempBound(Src, i)) == 1 && Value(m', TempStride(Src, i)) == 0)
      && (i < d.tempDimDst ==>
            Value(m', TempBound(Dst, i)) == d.tempBoundDst[i] && Value(m', TempStride(Dst, i)) == d.tempStrideDst[i])
      && (d.tempDimDst <= i < p.dstTempDim ==>
            Value(m', TempBound(Dst, i)) == 1 && Value(m', TempStride(Dst, i)) == 0)
  {
    MemcpyEffect(m, p, d, TempBound(Src, i));
    MemcpyEffect(m, p, d, TempStride(Src, i));
    MemcpyEffect(m, p, d, TempBound(Dst, i));
    MemcpyEffect(m, p, d, TempStride(Dst, i));
  }

  /** The address registers always receive the low and the high word of each
      pointer, from which `Hi32` reassembles it. */
  lemma AddressSplit(m: map<XdmaCsr, Word>, p: XdmaParams, d: Descriptor, side: Side)
    requires ArraysCover(p, d)
    ensures var m' := Commit(m, MemcpyWrites(p, d));
      var a := if side == Src then d.src else d.dst;
      Value(m', AddrLsb(side)) == Lo32(a) && Value(m', AddrMsb(side)) == Hi32(a)
  {
    MemcpyEffect(m, p, d, AddrMsb(side));
    MemcpyEffect(m, p, d, AddrLsb(side));
  }

  /** A rejected source rank is not free of side effects: the addresses, all
      spatial strides and the source loops up to the maximum are already
      programmed, while no destination loop and no enable register is
      touched. */
  lemma SourceOverflowPartial(p: XdmaParams, d: Descriptor, r: XdmaCsr)
    requires ArraysCover(p, d) && !SrcRankOk(p, d)
    ensures MemcpyStatus(p, d) == -4
    ensures r.AddrLsb? ==> LastWrite(MemcpyWrites(p, d), r) == Some(Lo32(if r.side == Src then d.src else d.dst))
    ensures r.AddrMsb? ==> LastWrite(MemcpyWrites(p, d), r) == Some(Hi32(if r.side == Src then d.src else d.dst))
    ensures (r.SpatialStride? && r.side == Src && r.lane < p.srcSpatialDim)
              ==> LastWrite(MemcpyWrites(p, d), r) == Some(d.spatialStrideSrc[r.lane])
    ensures (r.SpatialStride? && r.side == Dst && r.lane < p.dstSpatialDim)
              ==> LastWrite(MemcpyWrites(p, d), r) == Some(d.spatialStrideDst[r.lane])
    ensures (r.TempBound? && r.side == Src && r.dim < p.srcTempDim)
              ==> LastWrite(MemcpyWrites(p, d), r) == Some(d.tempBoundSrc[r.dim])
    ensures (r.TempStride? && r.side == Src && r.dim < p.srcTempDim)
              ==> LastWrite(MemcpyWrites(p, d), r) == Some(d.tempStrideSrc[r.dim])
    ensures (IsLoopCsr(r) && r.side == Dst) || IsEnableCsr(r) ==> !Touches(MemcpyWrites(p, d), r)
  {
    MemcpyLast(p, d, r);
  }

  /** A rejected destination rank leaves every destination loop up to the
      maximum written, the source loops completed with (1, 0), and the
      enable registers untouched. */
  lemma DestinationOverflowPartial(p: XdmaParams, d: Descriptor, r: XdmaCsr)
    requires ArraysCover(p, d) && SrcRankOk(p, d) && !RanksOk(p, d)
    ensures MemcpyStatus(p, d) == -4
    ensures (r.TempBound? && r.side == Dst && r.dim < p.dstTempDim)
              ==> LastWrite(MemcpyWrites(p, d), r) == Some(d.tempBoundDst[r.dim])
    ensures (r.TempStride? && r.side == Dst && r.dim < p.dstTempDim)
              ==> LastWrite(MemcpyWrites(p, d), r) == Some(d.tempStrideDst[r.dim])
    ensures (r.TempBound? && r.side == Src && d.tempDimSrc <= r.dim < p.srcTempDim)
              ==> LastWrite(MemcpyWrites(p, d), r) == Some(1)
    ensures (r.TempStride? && r.side == Src && d.tempDimSrc <= r.dim < p.srcTempDim)
              ==> LastWrite(MemcpyWrites(p, d), r) == Some(0)
    ensures IsEnableCsr(r) ==> !Touches(MemcpyWrites(p, d), r)
  {
    MemcpyLast(p, d, r);
  }

  // ---------------------------------------------------------------------
  // The driver.

  /** Writes spatial strides 0 to n-1 of one side. */
  method WriteSpatial(dma: RegisterFile<XdmaCsr>, side: Side, strides: seq<Word>, n: nat,
                      ghost log: seq<Access<XdmaCsr>>, ghost done: seq<Access<XdmaCsr>>)
    requires dma.Valid() && n <= |strides| && dma.trace == log + done
    modifies dma
    ensures dma.Valid() && dma.origin == old(dma.origin)
    ensures dma.trace == log + (done + SpatialWrites(side, strides, n))
  {
    var i := 0;
    while i < n
      invariant i <= n
      invariant dma.Valid() && dma.origin == old(dma.origin)
      invariant dma.trace == log + (done + SpatialWrites(side, strides, i))
    {
      var w := Store(SpatialStride(side, i), strides[i]);
      dma.WriteNext(SpatialStride(side, i), strides[i], log, done + SpatialWrites(side, strides, i));
      AppendRun(done, SpatialWrites(side, strides, i), [w]);
      i := i + 1;
    }
  }

  /** Writes the caller's loops of one side, giving up with false at the
      first dimension at or past the maximum. */
  method WriteTemporal(dma: RegisterFile<XdmaCsr>, side: Side, bounds: seq<Word>, strides: seq<Word>,
                       dim: nat, max: nat,
                       ghost log: seq<Access<XdmaCsr>>, ghost done: seq<Access<XdmaCsr>>)
    returns (ok: bool)
    requires dma.Valid() && dma.trace == log + done
    requires Min(dim, max) <= |bounds| && Min(dim, max) <= |strides|
    modifies dma
    ensures ok <==> dim <= max
    ensures dma.Valid() && dma.origin == old(dma.origin)
    ensures dma.trace == log + (done + TemporalWrites(side, bounds, strides, Min(dim, max)))
  {
    var i := 0;
    while i < dim
      invariant i <= dim && i <= max
      invariant dma.Valid() && dma.origin == old(dma.origin)
      invariant dma.trace == log + (done + TemporalWrites(side, bounds, strides, i))
    {
      if i >= max {
        return false;
      }
      ghost var t := TemporalWrites(side, bounds, strides, i);
      var b := Store(TempBound(side, i), bounds[i]);
      dma.WriteNext(TempBound(side, i), bounds[i], log, done + t);
      AppendRun(done, t, [b]);
      dma.WriteNext(TempStride(side, i), strides[i], log, done + (t + [b]));
      AppendRun(done, t + [b], [Store(TempStride(side, i), strides[i])]);
      i := i + 1;
    }
    return true;
  }

  /** Neutralises loops lo to hi-1 of one side. */
  method WriteNeutral(dma: RegisterFile<XdmaCsr>, side: Side, lo: nat, hi: nat,
                      ghost log: seq<Access<XdmaCsr>>, ghost done: seq<Access<XdmaCsr>>)
    requires dma.Valid() && lo <= hi && dma.trace == log + done
    modifies dma
    ensures dma.Valid() && dma.origin == old(dma.origin)
    ensures dma.trace == log + (done + NeutralWrites(side, lo, hi))
  {
    var i := lo;
    while i < hi
      invariant lo <= i <= hi
      invariant dma.Valid() && dma.origin == old(dma.origin)
      invariant dma.trace == log + (done + NeutralWrites(side, lo, i))
    {
      ghost var t := NeutralWrites(side, lo, i);
      var b := Store(TempBound(side, i), 1);
      dma.WriteNext(TempBound(side, i), 1, log, done + t);
      AppendRun(done, t, [b]);
      dma.WriteNext(TempStride(side, i), 0, log, done + (t + [b]));
      AppendRun(done, t + [b], [Store(TempStride(side, i), 0)]);
      i := i + 1;
    }
  }

  /** The first half of `xdma_memcpy_nd`: addresses, spatial strides and the
      source loops; false when the source rank is too high. */
  method WriteSource(dma: RegisterFile<XdmaCsr>, p: XdmaParams, d: Descriptor) returns (ok: bool)
    requires dma.Valid() && ArraysCover(p, d)
    modifies dma
    ensures ok == SrcRankOk(p, d)
    ensures dma.Valid() && dma.origin == old(dma.origin)
    ensures dma.trace == old(dma.trace) + SourceWrites(p, d)
  {
    ghost var log := dma.trace;
    dma.StoreAll(AddressWrites(d));
    ghost var done := AddressWrites(d);
    WriteSpatial(dma, Src, d.spatialStrideSrc, p.srcSpatialDim, log, done);
    done := done + SpatialWrites(Src, d.spatialStrideSrc, p.srcSpatialDim);
    WriteSpatial(dma, Dst, d.spatialStrideDst, p.dstSpatialDim, log, done);
    done := done + SpatialWrites(Dst, d.spatialStrideDst, p.dstSpatialDim);
    assert done == PreambleWrites(p, d);
    ok := WriteTemporal(dma, Src, d.tempBoundSrc, d.tempStrideSrc, d.tempDimSrc, p.srcTempDim, log, done);
    done := done + TemporalWrites(Src, d.tempBoundSrc, d.tempStrideSrc, Min(d.tempDimSrc, p.srcTempDim));
    if ok {
      WriteNeutral(dma, Src, d.tempDimSrc, p.srcTempDim, log, done);
    }
  }

  /** `xdma_memcpy_nd`: programs one descriptor, stopping with -4 at the first
      loop dimension beyond the hardware's rank. */
  method MemcpyNd(dma: RegisterFile<XdmaCsr>, p: XdmaParams, d: Descriptor) returns (status: int)
    requires dma.Valid() && ArraysCover(p, d)
    modifies dma
    ensures status == MemcpyStatus(p, d)
    ensures dma.Valid() && dma.origin == old(dma.origin)
    ensures dma.regs == Commit(old(dma.regs), MemcpyWrites(p, d))
    ensures dma.trace == old(dma.trace) + MemcpyWrites(p, d)
  {
    ghost var log := dma.trace;
    var ok := WriteSource(dma, p, d);
    ghost var done := SourceWrites(p, d);
    if !ok {
      status := -4;
      CommitLog(dma, log, done);
      return;
    }
    ok := WriteTemporal(dma, Dst, d.tempBoundDst, d.tempStrideDst, d.tempDimDst, p.dstTempDim, log, done);
    done := done + TemporalWrites(Dst, d.tempBoundDst, d.tempStrideDst, Min(d.tempDimDst, p.dstTempDim));
    if !ok {
      status := -4;
      CommitLog(dma, log, done);
      return;
    }
    WriteNeutral(dma, Dst, d.tempDimDst, p.dstTempDim, log, done);
    done := done + NeutralWrites(Dst, d.tempDimDst, p.dstTempDim);
    dma.StoreAll(ChannelWrites(d));
    AppendRun(log, done, ChannelWrites(d));
    done := done + ChannelWrites(d);
    status := 0;
    CommitLog(dma, log, done);
  }

  // ---------------------------------------------------------------------
  // The one-dimensional helper.

  /** The descriptor `xdma_memcpy_1d` builds as written: one-element spatial
      and temporal arrays, but a temporal rank of 2 on both sides. */
  function Memcpy1dAsWritten(p: XdmaParams, src: bv64, dst: bv64, size: Uint32): (d: Descriptor)
    requires ValidParams(p)
    ensures d.tempDimSrc == 2 && d.tempDimDst == 2
    ensures |d.tempBoundSrc| == |d.tempStrideSrc| == |d.tempBoundDst| == |d.tempStrideDst| == 1
    ensures |d.spatialStrideSrc| == |d.spatialStrideDst| == 1
  {
    var spatial := ToWord(Quotient(p.width, p.spatialChan));
    var stride := ToWord(p.width);
    var bound := ToWord(Quotient(size, p.width));
    Descriptor(src, dst, [spatial], [spatial], 2, [stride], [bound], 2, [stride], [bound],
               0xFFFF_FFFF, 0xFFFF_FFFF, 0xFFFF_FFFF)
  }

  /** C unsigned division of two 32-bit numbers. */
  function Quotient(a: Uint32, b: Uint32): (q: Uint32)
    requires b > 0
    ensures q <= a
  {
    DivisionBound(a, b);
    a / b
  }

  lemma DivisionBound(a: nat, b: nat)
    requires b > 0
    ensures a / b <= a
  {
    var q := a / b;
    assert a == q * b + a % b;
    if q > a {
      MulAtLeast(q, b);
      assert false;
    }
  }

  lemma MulAtLeast(q: nat, b: nat)
    requires b > 0
    ensures q * b >= q
  {
  }

  /** As written, the descriptor either is rejected for its rank or makes
      `xdma_memcpy_nd` read past the one-element arrays. */
  lemma Memcpy1dAsWrittenOverreads(p: XdmaParams, src: bv64, dst: bv64, size: Uint32)
    requires ValidParams(p)
    ensures var d := Memcpy1dAsWritten(p, src, dst, size);
      !ArraysCover(p, d) || MemcpyStatus(p, d) == -4
    ensures p.srcTempDim >= 2 ==> !ArraysCover(p, Memcpy1dAsWritten(p, src, dst, size))
    ensures p.srcSpatialDim >= 2 || p.dstSpatialDim >= 2 ==> !ArraysCover(p, Memcpy1dAsWritten(p, src, dst, size))
  {
  }

  /** The descriptor the helper evidently means: one loop of `size / width`
      beats of `width` bytes on each side, and the per-channel stride on every
      spatial lane. */
  function Memcpy1dDescriptor(p: XdmaParams, src: bv64, dst: bv64, size: Uint32): (d: Descriptor)
    requires ValidParams(p)
    ensures ArraysCover(p, d)
    ensures d.tempDimSrc == 1 && d.tempDimDst == 1
    ensures |d.spatialStrideSrc| == p.srcSpatialDim && |d.spatialStrideDst| == p.dstSpatialDim
    ensures forall i | 0 <= i < |d.spatialStrideSrc| :: d.spatialStrideSrc[i] == ToWord(Quotient(p.width, p.spatialChan))
    ensures forall i | 0 <= i < |d.spatialStrideDst| :: d.spatialStrideDst[i] == ToWord(Quotient(p.width, p.spatialChan))
  {
    var spatial := ToWord(Quotient(p.width, p.spatialChan));
    var stride := ToWord(p.width);
    var bound := ToWord(Quotient(size, p.width));
    Descriptor(src, dst, seq(p.srcSpatialDim, _ => spatial), seq(p.dstSpatialDim, _ => spatial),
               1, [stride], [bound], 1, [stride], [bound], 0xFFFF_FFFF, 0xFFFF_FFFF, 0xFFFF_FFFF)
  }

  /** A size that is a whole number of beats moves exactly `size` bytes: the
      single loop runs `size / width` beats of `width` bytes. */
  lemma Memcpy1dMovesSize(m: map<XdmaCsr, Word>, p: XdmaParams, src: bv64, dst: bv64, size: Uint32)
    requires ValidParams(p) && size % p.width == 0
    requires p.srcTempDim >= 1 && p.dstTempDim >= 1
    ensures var d := Memcpy1dDescriptor(p, src, dst, size);
      var m' := Commit(m, MemcpyWrites(p, d));
      && MemcpyStatus(p, d) == 0
      && Value(m', TempBound(Src, 0)) == ToWord(Quotient(size, p.width))
      && Value(m', TempBound(Dst, 0)) == ToWord(Quotient(size, p.width))
      && Value(m', TempStride(Src, 0)) == ToWord(p.width)
      && Value(m', TempStride(Dst, 0)) == ToWord(p.width)
  {
    var d := Memcpy1dDescriptor(p, src, dst, size);
    MemcpySuccess(m, p, d, 0);
  }

  /** A whole number of beats: the loop bound times the beat width is the size. */
  lemma WholeBeats(size: Uint32, width: Uint32)
    requires width > 0 && size % width == 0
    ensures Quotient(size, width) * width == size
  {
    assert size == (size / width) * width + size % width;
  }

  /** `xdma_memcpy_1d` with the descriptor corrected to rank 1: -1 and no
      store at all when `size` is not a multiple of the beat width, otherwise
      exactly the stores of the one-loop descriptor. */
  method Memcpy1d(dma: RegisterFile<XdmaCsr>, p: XdmaParams, src: bv64, dst: bv64, size: Uint32)
    returns (status: int)
    requires dma.Valid() && ValidParams(p)
    modifies dma
    ensures dma.Valid() && dma.origin == old(dma.origin)
    ensures size % p.width != 0 ==>
              status == -1 && dma.regs == old(dma.regs) && dma.trace == old(dma.trace)
    ensures size % p.width == 0 ==>
              var d := Memcpy1dDescriptor(p, src, dst, size);
              && status == MemcpyStatus(p, d)
              && dma.regs == Commit(old(dma.regs), MemcpyWrites(p, d))
              && dma.trace == old(dma.trace) + MemcpyWrites(p, d)
  {
    if size % p.width != 0 {
      return -1;
    }
    status := MemcpyNd(dma, p, Memcpy1dDescriptor(p, src, dst, size));
  }

  // ---------------------------------------------------------------------
  // Extensions.

  /** `1 << e`: the bypass bit of extension `e`. */
  function Bit(e: nat): Word
    requires e < 32
  {
    if e == 0 then 1 else Bit(e - 1) << 1
  }

  /** The offset of extension `n`'s parameter block: the sizes of the blocks
      of extensions 0 to n-1, summed. */
  function PrefixSum(list: seq<Byte>, n: nat): nat
    requires n <= |list|
    decreases n
  {
    if n == 0 then 0 else PrefixSum(list, n - 1) + list[n - 1]
  }

  /** The block of an earlier extension ends at or before the start of the
      block of a later one, so no parameter CSR belongs to two extensions. */
  lemma {:induction false} ExtBlocksDisjoint(list: seq<Byte>, a: nat, b: nat)
    requires a < b <= |list|
    ensures PrefixSum(list, a) + list[a] <= PrefixSum(list, b)
    decreases b
  {
    if a + 1 < b {
      ExtBlocksDisjoint(list, a, b - 1);
    }
  }

  /** Parameters 0 to n-1 into the block starting at `base`. */
  function ParamWrites(side: Side, base: nat, vals: seq<Word>, n: nat): seq<Access<XdmaCsr>>
    requires n <= |vals|
    decreases n
  {
    if n == 0 then []
    else ParamWrites(side, base, vals, n - 1) + [Store(ExtParam(side, base + n - 1), vals[n - 1])]
  }

  lemma {:induction false} ParamWritesLast(side: Side, base: nat, vals: seq<Word>, n: nat, r: XdmaCsr)
    requires n <= |vals|
    ensures LastWrite(ParamWrites(side, base, vals, n), r)
         == if r.ExtParam? && r.side == side && base <= r.index < base + n then Some(vals[r.index - base])
            else None
    decreases n
  {
    if n > 0 {
      ParamWritesLast(side, base, vals, n - 1, r);
      LastWriteSnoc(ParamWrites(side, base, vals, n - 1), Store(ExtParam(side, base + n - 1), vals[n - 1]), r);
    }
  }

  /** What the caller must supply: the parameters of the extension enabled. */
  predicate EnoughParams(p: XdmaParams, side: Side, ext: nat, vals: seq<Word>) {
    ext < |ExtCsrs(p, side)| ==> ExtCsrs(p, side)[ext] <= |vals|
  }

  /** The stores of `xdma_enable_<side>_ext` from contents `m`: none for an
      extension that does not exist; otherwise the bypass register with bit
      `ext` cleared, then the extension's parameter block. */
  function EnableExtWrites(p: XdmaParams, side: Side, ext: nat, m: map<XdmaCsr, Word>, vals: seq<Word>)
    : seq<Access<XdmaCsr>>
    requires ValidParams(p) && EnoughParams(p, side, ext, vals)
  {
    var list := ExtCsrs(p, side);
    if ext >= |list| then []
    else [Store(Bypass(side), ClearBits(Value(m, Bypass(side)), Bit(ext)))]
           + ParamWrites(side, PrefixSum(list, ext), vals, list[ext])
  }

  /** Enabling an existing extension clears only its bypass bit and fills its
      own parameter block; every other register keeps its value. */
  lemma EnableExtEffect(m: map<XdmaCsr, Word>, p: XdmaParams, side: Side, ext: nat, vals: seq<Word>, r: XdmaCsr)
    requires ValidParams(p) && EnoughParams(p, side, ext, vals) && ext < |ExtCsrs(p, side)|
    ensures var list := ExtCsrs(p, side);
      var base := PrefixSum(list, ext);
      Value(Commit(m, EnableExtWrites(p, side, ext, m, vals)), r)
        == if r == Bypass(side) then ClearBits(Value(m, r), Bit(ext))
           else if r.ExtParam? && r.side == side && base <= r.index < base + list[ext] then vals[r.index - base]
           else Value(m, r)
  {
    var list := ExtCsrs(p, side);
    var head := [Store(Bypass(side), ClearBits(Value(m, Bypass(side)), Bit(ext)))];
    var params := ParamWrites(side, PrefixSum(list, ext), vals, list[ext]);
    CommitAfter(m, head + params, r);
    ParamWritesLast(side, PrefixSum(list, ext), vals, list[ext], r);
    LastWriteConcat(head, params, r);
    LastWriteSingle(head[0], r);
  }

  /** Writes parameters 0 to n-1 into the block starting at `base`. */
  method WriteParams(dma: RegisterFile<XdmaCsr>, side: Side, base: nat, vals: seq<Word>, n: nat,
                     ghost log: seq<Access<XdmaCsr>>, ghost done: seq<Access<XdmaCsr>>)
    requires dma.Valid() && n <= |vals| && dma.trace == log + done
    modifies dma
    ensures dma.Valid() && dma.origin == old(dma.origin)
    ensures dma.trace == log + (done + ParamWrites(side, base, vals, n))
  {
    var i := 0;
    while i < n
      invariant i <= n
      invariant dma.Valid() && dma.origin == old(dma.origin)
      invariant dma.trace == log + (done + ParamWrites(side, base, vals, i))
    {
      dma.WriteNext(ExtParam(side, base + i), vals[i], log, done + ParamWrites(side, base, vals, i));
      AppendRun(done, ParamWrites(side, base, vals, i), [Store(ExtParam(side, base + i), vals[i])]);
      i := i + 1;
    }
  }

  /** `xdma_enable_src_ext` / `xdma_enable_dst_ext`: -1 for an extension that
      does not exist, else 0 after the read-modify-write of the bypass
      register and the parameter stores. */
  method EnableExt(dma: RegisterFile<XdmaCsr>, p: XdmaParams, side: Side, ext: Byte, vals: seq<Word>)
    returns (status: int)
    requires dma.Valid() && ValidParams(p) && EnoughParams(p, side, ext, vals)
    modifies dma
    ensures status == if ext < |ExtCsrs(p, side)| then 0 else -1
    ensures dma.Valid() && dma.origin == old(dma.origin)
    ensures dma.regs == Commit(old(dma.regs), EnableExtWrites(p, side, ext, old(dma.regs), vals))
    ensures dma.trace == old(dma.trace) + EnableExtWrites(p, side, ext, old(dma.regs), vals)
  {
    var list := ExtCsrs(p, side);
    if ext >= |list| {
      return -1;
    }
    var offset: nat := 0;
    var i := 0;
    while i < ext
      invariant i <= ext
      invariant offset == PrefixSum(list, i)
    {
      offset := offset + list[i];
      i := i + 1;
    }
    ghost var log := dma.trace;
    var bypass := ClearBits(dma.Read(Bypass(side)), Bit(ext));
    dma.Write(Bypass(side), bypass);
    WriteParams(dma, side, offset, vals, list[ext], log, [Store(Bypass(side), bypass)]);
    CommitLog(dma, log, [Store(Bypass(side), bypass)] + ParamWrites(side, offset, vals, list[ext]));
    status := 0;
  }

  /** The stores of `xdma_disable_<side>_ext` from contents `m`: the bypass
      register with bit `ext` set, or nothing for an extension that does not
      exist. */
  function DisableExtWrites(p: XdmaParams, side: Side, ext: nat, m: map<XdmaCsr, Word>): seq<Access<XdmaCsr>>
    requires ValidParams(p)
  {
    if ext >= |ExtCsrs(p, side)| then []
    else [Store(Bypass(side), SetBits(Value(m, Bypass(side)), Bit(ext)))]
  }

  /** `xdma_disable_src_ext` / `xdma_disable_dst_ext`: always 0, also for an
      extension that does not exist. */
  method DisableExt(dma: RegisterFile<XdmaCsr>, p: XdmaParams, side: Side, ext: Byte) returns (status: int)
    requires dma.Valid() && ValidParams(p)
    modifies dma
    ensures status == 0
    ensures dma.Valid() && dma.origin == old(dma.origin)
    ensures dma.regs == Commit(old(dma.regs), DisableExtWrites(p, side, ext, old(dma.regs)))
    ensures dma.trace == old(dma.trace) + DisableExtWrites(p, side, ext, old(dma.regs))
  {
    if ext >= |ExtCsrs(p, side)| {
      return 0;
    }
    dma.Write(Bypass(side), SetBits(dma.Read(Bypass(side)), Bit(ext)));
    status := 0;
  }

  /** Enabling and then disabling an extension sets its bypass bit in what
      the register held before the enable, so every other bypass bit is as it
      was (see `SetBits`). */
  lemma EnableThenDisable(m: map<XdmaCsr, Word>, p: XdmaParams, side: Side, ext: nat, vals: seq<Word>)
    requires ValidParams(p) && EnoughParams(p, side, ext, vals) && ext < |ExtCsrs(p, side)|
    ensures var m1 := Commit(m, EnableExtWrites(p, side, ext, m, vals));
      var m2 := Commit(m1, DisableExtWrites(p, side, ext, m1));
      Value(m2, Bypass(side)) == SetBits(Value(m, Bypass(side)), Bit(ext))
  {
    var m1 := Commit(m, EnableExtWrites(p, side, ext, m, vals));
    EnableExtEffect(m, p, side, ext, vals, Bypass(side));
    var w := Store(Bypass(side), SetBits(Value(m1, Bypass(side)), Bit(ext)));
    CommitAfter(m1, [w], Bypass(side));
    LastWriteSingle(w, Bypass(side));
    SetAfterClear(Value(m, Bypass(side)), Bit(ext));
  }

  // ---------------------------------------------------------------------
  // Tasks.

  /** The spin condition of `xdma_start`: the commit counter has moved away
      from the value read before the start. */
  function CommitMoved(before: Word): Word -> bool {
    v => v != before
  }

  /** The accesses of `xdma_start` when the commit counter first reads
      `before`, then `polls` while spinning, and `after` on the final read. */
  function StartAccesses(before: Word, polls: seq<Word>, after: Word): seq<Access<XdmaCsr>>
    requires |polls| > 0
  {
    var exit := PollExit(polls, CommitMoved(before));
    [Change(CommitTask, before)] + [Store(Start, 1)]
      + Changes(CommitTask, polls[..Consumed(exit, |polls|)])
      + (if exit.Some? then [Change(CommitTask, after)] else [])
  }

  /** `xdma_start`: reads the commit counter, writes 1 to the start register,
      spins until the counter differs from the first read, and returns a
      fresh read of it. None: still spinning when the observations end. */
  method StartTask(dma: RegisterFile<XdmaCsr>, before: Word, polls: seq<Word>, after: Word)
    returns (taskId: Option<Word>)
    requires dma.Valid() && |polls| > 0
    modifies dma
    ensures taskId.Some? ==> taskId.value == after
    ensures taskId.Some? <==> exists k | 0 <= k < |polls| :: polls[k] != before
    ensures taskId.Some? ==>
              exists k | 0 <= k < |polls| :: polls[k] != before && forall j | 0 <= j < k :: polls[j] == before
    ensures dma.Read(Start) == 1
    ensures dma.Valid() && dma.origin == old(dma.origin)
    ensures dma.regs == Commit(old(dma.regs), StartAccesses(before, polls, after))
    ensures dma.trace == old(dma.trace) + StartAccesses(before, polls, after)
  {
    ghost var log := dma.trace;
    dma.Observe(CommitTask, before);
    var ret := dma.Read(CommitTask);
    dma.Write(Start, 1);
    ghost var pre := [Change(CommitTask, before)] + [Store(Start, 1)];
    AppendRun(log, [Change(CommitTask, before)], [Store(Start, 1)]);
    var exit := dma.Poll(CommitTask, polls, CommitMoved(ret));
    ghost var spin := Changes(CommitTask, polls[..Consumed(exit, |polls|)]);
    AppendRun(log, pre, spin);
    if exit.Some? {
      dma.Observe(CommitTask, after);
      AppendRun(log, pre + spin, [Change(CommitTask, after)]);
      var v := dma.Read(CommitTask);
      taskId := Some(v);
    } else {
      assert pre + spin + [] == pre + spin;
      taskId := None;
    }
    CommitLog(dma, log, StartAccesses(before, polls, after));
  }

  /** `xdma_is_finished`: the finish counter is at least `task_id`, compared
      as plain unsigned 32-bit numbers. */
  predicate IsFinished(counter: Word, taskId: Word): (b: bool)
    ensures taskId == 0 ==> b
    ensures counter == taskId ==> b
    ensures counter == 0xFFFF_FFFF ==> b
  {
    counter >= taskId
  }

  /** With no wrap-around handling, the last task id 0xFFFF_FFFF counts as
      finished only while the counter reads exactly that value: once the
      counter wraps to 0 and beyond, that id reads as unfinished again. */
  lemma LastTaskIdNeedsExactCounter(counter: Word)
    ensures IsFinished(counter, 0xFFFF_FFFF) <==> counter == 0xFFFF_FFFF
  {
  }

  function Finished(taskId: Word): Word -> bool {
    c => IsFinished(c, taskId)
  }

  /** `xdma_wait`: re-reads the finish counter, whose successive reads return
      `polls`, until `xdma_is_finished` holds. False: still waiting when the
      observations end. */
  method WaitTask(dma: RegisterFile<XdmaCsr>, taskId: Word, polls: seq<Word>) returns (finished: bool)
    requires dma.Valid() && |polls| > 0
    modifies dma
    ensures finished <==> exists k | 0 <= k < |polls| :: IsFinished(polls[k], taskId)
    ensures finished ==> IsFinished(dma.Read(FinishTask), taskId)
    ensures dma.Valid() && dma.origin == old(dma.origin)
    ensures var n := Consumed(PollExit(polls, Finished(taskId)), |polls|);
      && dma.regs == old(dma.regs)[FinishTask := polls[n - 1]]
      && dma.trace == old(dma.trace) + Changes(FinishTask, polls[..n])
  {
    var exit := dma.Poll(FinishTask, polls, Finished(taskId));
    finished := exit.Some?;
  }
}
