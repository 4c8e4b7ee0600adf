/** The GEMMX accelerator driver: the encoders that pack the accelerator's
    configuration words, the streamer and GEMM-core CSR sequences, the wait
    for both units, and the result checkers that count mismatching output
    elements in a flat or a banked layout. */
module Gemmx {
  import opened Registers

  // ---------------------------------------------------------------------
  // Configuration words.

  type Bits8 = bv8

  /** Four bytes into one word, `b3` in bits 24-31 down to `b0` in bits 0-7. */
  function PackBytes(b3: Bits8, b2: Bits8, b1: Bits8, b0: Bits8): Word {
    (b3 as Word << 24) | (b2 as Word << 16) | (b1 as Word << 8) | (b0 as Word)
  }

  /** Byte `i` of a word, byte 0 being bits 0-7. */
  function ByteAt(w: Word, i: nat): Bits8
    requires i < 4
  {
    if i == 0 then (w & 0xFF) as Bits8
    else if i == 1 then ((w >> 8) & 0xFF) as Bits8
    else if i == 2 then ((w >> 16) & 0xFF) as Bits8
    else (w >> 24) as Bits8
  }

  lemma PackedLowBytes(b3: Bits8, b2: Bits8, b1: Bits8, b0: Bits8)
    ensures ByteAt(PackBytes(b3, b2, b1, b0), 0) == b0
    ensures ByteAt(PackBytes(b3, b2, b1, b0), 1) == b1
  {
  }

  lemma PackedHighBytes(b3: Bits8, b2: Bits8, b1: Bits8, b0: Bits8)
    ensures ByteAt(PackBytes(b3, b2, b1, b0), 2) == b2
    ensures ByteAt(PackBytes(b3, b2, b1, b0), 3) == b3
  {
  }

  /** Unpacking a packed word gives back each of its four bytes. */
  lemma UnpackPacked(b3: Bits8, b2: Bits8, b1: Bits8, b0: Bits8)
    ensures var w := PackBytes(b3, b2, b1, b0);
      ByteAt(w, 0) == b0 && ByteAt(w, 1) == b1 && ByteAt(w, 2) == b2 && ByteAt(w, 3) == b3
  {
    PackedLowBytes(b3, b2, b1, b0);
    PackedHighBytes(b3, b2, b1, b0);
  }

  /** Packing the four bytes of a word gives back the word. */
  lemma PackUnpacked(w: Word)
    ensures PackBytes(ByteAt(w, 3), ByteAt(w, 2), ByteAt(w, 1), ByteAt(w, 0)) == w
  {
  }

  /** `gen_size_config`: N in bits 0-7, K in 8-15, M in 16-23, Batch in
      24-31. */
  function SizeConfig(batch: Bits8, m: Bits8, k: Bits8, n: Bits8): (w: Word)
    ensures ByteAt(w, 0) == n && ByteAt(w, 1) == k && ByteAt(w, 2) == m && ByteAt(w, 3) == batch
  {
    UnpackPacked(batch, m, k, n);
    PackBytes(batch, m, k, n)
  }

  /** `gen_subtraction_config` on the two's-complement bytes of its `int8_t`
      arguments: a in bits 0-7, b in 8-15, bits 16-31 clear. */
  function SubtractionConfig(a: Bits8, b: Bits8): (w: Word)
    ensures ByteAt(w, 0) == a && ByteAt(w, 1) == b
    ensures w & 0xFFFF_0000 == 0
  {
    UnpackPacked(0, 0, b, a);
    PackBytes(0, 0, b, a)
  }

  /** `gen_csr0_config`: input zero point in bits 0-7, output zero point in
      8-15, max in 16-23, min in 24-31. */
  function Csr0Config(inputZp: Bits8, outputZp: Bits8, maxInt: Bits8, minInt: Bits8): (w: Word)
    ensures ByteAt(w, 0) == inputZp && ByteAt(w, 1) == outputZp
    ensures ByteAt(w, 2) == maxInt && ByteAt(w, 3) == minInt
  {
    UnpackPacked(minInt, maxInt, outputZp, inputZp);
    PackBytes(minInt, maxInt, outputZp, inputZp)
  }

  /** `gen_csr1_config`: exactly 0 or 1, 1 when double rounding is on. */
  function Csr1Config(doubleRound: bool): (w: Word)
    ensures w == 0 || w == 1
    ensures w == 1 <==> doubleRound
  {
    if doubleRound then 1 else 0
  }

  // ---------------------------------------------------------------------
  // Result checkers.

  /** The number of positions below `n` where `output` and `golden` differ. */
  function Mismatches<T(==)>(output: seq<T>, golden: seq<T>, n: nat): nat
    requires n <= |output| && n <= |golden|
    decreases n
  {
    if n == 0 then 0
    else Mismatches(output, golden, n - 1) + (if output[n - 1] != golden[n - 1] then 1 else 0)
  }

  /** At most one mismatch per position compared. */
  lemma {:induction false} MismatchesBound<T>(output: seq<T>, golden: seq<T>, n: nat)
    requires n <= |output| && n <= |golden|
    ensures Mismatches(output, golden, n) <= n
    decreases n
  {
    if n > 0 {
      MismatchesBound(output, golden, n - 1);
    }
  }

  /** No mismatch exactly when the first `n` elements agree. */
  lemma {:induction false} MismatchesZero<T>(output: seq<T>, golden: seq<T>, n: nat)
    requires n <= |output| && n <= |golden|
    ensures Mismatches(output, golden, n) == 0 <==> output[..n] == golden[..n]
    decreases n
  {
    if n > 0 {
      MismatchesZero(output, golden, n - 1);
      assert output[..n] == output[..n - 1] + [output[n - 1]];
      assert golden[..n] == golden[..n - 1] + [golden[n - 1]];
      if output[..n] == golden[..n] {
        assert output[..n][n - 1] == golden[..n][n - 1];
        assert output[..n][..n - 1] == golden[..n][..n - 1];
      }
    }
  }

  /** Mismatches in row `i` of a banked layout: `output[i*stride + j]` against
      `golden[i*block + j]` for `j` below `n`. */
  function RowMismatches<T(==)>(output: seq<T>, golden: seq<T>, outBase: nat, goldBase: nat, n: nat): nat
    requires outBase + n <= |output| && goldBase + n <= |golden|
    decreases n
  {
    if n == 0 then 0
    else
      RowMismatches(output, golden, outBase, goldBase, n - 1)
        + (if output[outBase + n - 1] != golden[goldBase + n - 1] then 1 else 0)
  }

  /** The sizes a banked comparison of `rows` rows needs. */
  predicate BankedFits<T>(output: seq<T>, golden: seq<T>, stride: nat, block: nat, rows: nat) {
    block <= stride && rows * stride <= |output| + stride - block && rows * block <= |golden|
  }

  lemma RowFits<T>(output: seq<T>, golden: seq<T>, stride: nat, block: nat, rows: nat, i: nat)
    requires BankedFits(output, golden, stride, block, rows) && i < rows
    ensures i * stride + block <= |output| && i * block + block <= |golden|
  {
    MulMonotone(i + 1, rows, stride);
    MulMonotone(i + 1, rows, block);
  }

  lemma MulMonotone(a: nat, b: nat, c: nat)
    requires a <= b
    ensures a * c <= b * c
  {
  }

  /** Mismatches over the first `rows` rows of a banked layout: in row `i`,
      `block` elements starting at `i*stride` in the output against `block`
      elements starting at `i*block` in the golden data. */
  function BankedMismatches<T(==)>(output: seq<T>, golden: seq<T>, stride: nat, block: nat, rows: nat): nat
    requires BankedFits(output, golden, stride, block, rows)
    decreases rows
  {
    if rows == 0 then 0
    else
      RowFits(output, golden, stride, block, rows, rows - 1);
      MulMonotone(rows - 1, rows, stride);
      MulMonotone(rows - 1, rows, block);
      BankedMismatches(output, golden, stride, block, rows - 1)
        + RowMismatches(output, golden, (rows - 1) * stride, (rows - 1) * block, block)
  }

  /** Output element `outBase + j` equals golden element `goldBase + j`. */
  predicate RowAgrees<T(==)>(output: seq<T>, golden: seq<T>, outBase: nat, goldBase: nat, j: nat) {
    outBase + j < |output| && goldBase + j < |golden| && output[outBase + j] == golden[goldBase + j]
  }

  /** A row reports at most one mismatch per element, and none exactly when
      every element of the row agrees. */
  lemma {:induction false} RowMismatchesZero<T>(output: seq<T>, golden: seq<T>, outBase: nat, goldBase: nat, n: nat)
    requires outBase + n <= |output| && goldBase + n <= |golden|
    ensures RowMismatches(output, golden, outBase, goldBase, n) <= n
    ensures (RowMismatches(output, golden, outBase, goldBase, n) == 0)
              <==> (forall j | 0 <= j < n :: RowAgrees(output, golden, outBase, goldBase, j))
    decreases n
  {
    if n > 0 {
      RowMismatchesZero(output, golden, outBase, goldBase, n - 1);
      assert RowAgrees(output, golden, outBase, goldBase, n - 1)
        <==> output[outBase + n - 1] == golden[goldBase + n - 1];
    }
  }

  /** Bank row `i` agrees: `output[i*stride + j]` equals `golden[i*block + j]`
      for every `j` below `block`. */
  predicate BankRowAgrees<T(==)>(output: seq<T>, golden: seq<T>, stride: nat, block: nat, i: nat) {
    forall j | 0 <= j < block :: RowAgrees(output, golden, i * stride, i * block, j)
  }

  /** A banked comparison reports at most one mismatch per compared element. */
  lemma {:induction false} BankedMismatchesBound<T>(output: seq<T>, golden: seq<T>, stride: nat, block: nat, rows: nat)
    requires BankedFits(output, golden, stride, block, rows)
    ensures BankedMismatches(output, golden, stride, block, rows) <= rows * block
    decreases rows
  {
    if rows > 0 {
      var last := rows - 1;
      FitsShrink(output, golden, stride, block, rows);
      BankedMismatchesBound(output, golden, stride, block, last);
      RowFits(output, golden, stride, block, rows, last);
      RowMismatchesZero(output, golden, last * stride, last * block, block);
      AddRow(BankedMismatches(output, golden, stride, block, last),
             RowMismatches(output, golden, last * stride, last * block, block), last, block);
    }
  }

  /** The first `rows - 1` rows fit wherever `rows` rows do. */
  lemma FitsShrink<T>(output: seq<T>, golden: seq<T>, stride: nat, block: nat, rows: nat)
    requires BankedFits(output, golden, stride, block, rows) && rows > 0
    ensures BankedFits(output, golden, stride, block, rows - 1)
  {
    MulMonotone(rows - 1, rows, stride);
    MulMonotone(rows - 1, rows, block);
  }

  lemma AddRow(before: nat, row: nat, last: nat, block: nat)
    requires before <= last * block && row <= block
    ensures before + row <= (last + 1) * block
  {
  }

  /** A banked comparison reports no mismatch exactly when every bank row
      agrees with its block of the golden data. */
  lemma {:induction false} BankedMismatchesZero<T>(output: seq<T>, golden: seq<T>, stride: nat, block: nat, rows: nat)
    requires BankedFits(output, golden, stride, block, rows)
    ensures (BankedMismatches(output, golden, stride, block, rows) == 0)
              <==> (forall i | 0 <= i < rows :: BankRowAgrees(output, golden, stride, block, i))
    decreases rows
  {
    if rows > 0 {
      var last := rows - 1;
      FitsShrink(output, golden, stride, block, rows);
      BankedMismatchesZero(output, golden, stride, block, last);
      RowFits(output, golden, stride, block, rows, last);
      RowMismatchesZero(output, golden, last * stride, last * block, block);
      assert (forall i | 0 <= i < rows :: BankRowAgrees(output, golden, stride, block, i))
        <==> (forall i | 0 <= i < last :: BankRowAgrees(output, golden, stride, block, i))
             && BankRowAgrees(output, golden, stride, block, last);
    }
  }

  /** `check_gemmx_result_*` in the flat layout: counts the positions below
      `n` where the output differs from the golden data. */
  method CountMismatches<T(==)>(output: seq<T>, golden: seq<T>, n: nat) returns (err: nat)
    requires n <= |output| && n <= |golden|
    ensures err == Mismatches(output, golden, n)
  {
    err := 0;
    var i := 0;
    while i < n
      invariant i <= n
      invariant err == Mismatches(output, golden, i)
    {
      if output[i] != golden[i] {
        err := err + 1;
      }
      i := i + 1;
    }
  }

  /** `check_gemmx_result_*` in the banked layout: row `i` compares `block`
      output elements from `i*stride` with `block` golden elements from
      `i*block`. */
  method CountBankedMismatches<T(==)>(output: seq<T>, golden: seq<T>, stride: nat, block: nat, rows: nat)
    returns (err: nat)
    requires BankedFits(output, golden, stride, block, rows)
    ensures err == BankedMismatches(output, golden, stride, block, rows)
  {
    err := 0;
    var i := 0;
    while i < rows
      invariant i <= rows
      invariant BankedFits(output, golden, stride, block, i)
      invariant err == BankedMismatches(output, golden, stride, block, i)
    {
      RowFits(output, golden, stride, block, rows, i);
      var j := 0;
      while j < block
        invariant j <= block
        invariant err == BankedMismatches(output, golden, stride, block, i)
                         + RowMismatches(output, golden, i * stride, i * block, j)
      {
        if output[i * stride + j] != golden[i * block + j] {
          err := err + 1;
        }
        j := j + 1;
      }
      MulMonotone(i + 1, rows, stride);
      MulMonotone(i + 1, rows, block);
      i := i + 1;
    }
  }

  /** The element count both checkers compute, `Batch*M*N*meshRow*meshCol`
      kept to 32 bits as the `uint32_t` it is stored in. */
  function ResultSize(batch: int, m: int, n: int, meshRow: nat, meshCol: nat): (size: Uint32)
    ensures 0 <= batch * m * n * meshRow * meshCol < 0x1_0000_0000 ==> size == batch * m * n * meshRow * meshCol
    ensures (batch == 0 || m == 0 || n == 0 || meshRow == 0 || meshCol == 0) ==> size == 0
  {
    (batch * m * n * meshRow * meshCol) % 0x1_0000_0000
  }

  /** `check_gemmx_result_D8`: 8-bit results; the banked layout holds 64
      results in each 256-byte bank row. Never more than `size` errors. */
  method CheckResultD8(output: seq<Bits8>, golden: seq<Bits8>, batch: int, m: int, n: int,
                         meshRow: nat, meshCol: nat, banked: bool)
    returns (err: nat)
    requires var size := ResultSize(batch, m, n, meshRow, meshCol);
      banked ==> BankedFits(output, golden, 256, 64, size / 64)
    requires var size := ResultSize(batch, m, n, meshRow, meshCol);
      !banked ==> size <= |output| && size <= |golden|
    ensures var size := ResultSize(batch, m, n, meshRow, meshCol);
      banked ==> err == BankedMismatches(output, golden, 256, 64, size / 64)
    ensures !banked ==> err == Mismatches(output, golden, ResultSize(batch, m, n, meshRow, meshCol))
    ensures err <= ResultSize(batch, m, n, meshRow, meshCol)
  {
    var size := ResultSize(batch, m, n, meshRow, meshCol);
    if banked {
      err := CountBankedMismatches(output, golden, 256, 64, size / 64);
      BankedMismatchesBound(output, golden, 256, 64, size / 64);
    } else {
      err := CountMismatches(output, golden, size);
      MismatchesBound(output, golden, size);
    }
  }

  /** `check_gemmx_result_D32`: 32-bit results; the banked layout holds 16
      results in each 64-word bank row. Never more than `size` errors. */
  method CheckResultD32(output: seq<Word>, golden: seq<Word>, batch: int, m: int, n: int,
                         meshRow: nat, meshCol: nat, banked: bool)
    returns (err: nat)
    requires var size := ResultSize(batch, m, n, meshRow, meshCol);
      banked ==> BankedFits(output, golden, 64, 16, size / 16)
    requires var size := ResultSize(batch, m, n, meshRow, meshCol);
      !banked ==> size <= |output| && size <= |golden|
    ensures var size := ResultSize(batch, m, n, meshRow, meshCol);
      banked ==> err == BankedMismatches(output, golden, 64, 16, size / 16)
    ensures !banked ==> err == Mismatches(output, golden, ResultSize(batch, m, n, meshRow, meshCol))
    ensures err <= ResultSize(batch, m, n, meshRow, meshCol)
  {
    var size := ResultSize(batch, m, n, meshRow, meshCol);
    if banked {
      err := CountBankedMismatches(output, golden, 64, 16, size / 16);
      BankedMismatchesBound(output, golden, 64, 16, size / 16);
    } else {
      err := CountMismatches(output, golden, size);
      MismatchesBound(output, golden, size);
    }
  }

  // ---------------------------------------------------------------------
  // Control and status registers.

  /** The five streamer ports: readers A and B, writer D8, and the
      reader-writers C and D32. */
  datatype Port = ReaderA | ReaderB | WriterD8 | ReaderWriterC | ReaderWriterD32

  /** The streamer's and the GEMM core's CSRs, by role. */
  datatype GemmxCsr =
    | BasePtr(port: Port)
    | SStride(port: Port, index: nat)
    | TBound(port: Port, index: nat)
    | TStride(port: Port, index: nat)
    | AddrRemapIndex(port: Port)
    | EnabledChannelC
    | BroadcastC
    | Transpose(port: Port)
    | TBoundK | TBoundN | TBoundM
    | Subtractions | SimdCsr0 | SimdCsr1
    | BitpackedShift(index: nat)
    | SharedMultiplier(index: nat)
    | TemporalLoopBound | BypassSimd
    | StreamerStart | GemmxStart | GemmxBusy | StreamerBusy
    | StreamerPerfCounter | GemmxPerfCounter

  /** A numbered family of CSRs written from consecutive arguments. */
  datatype Family = Bounds(port: Port) | Strides(port: Port) | Shifts | Multipliers

  /** Member `k` of a family. */
  function Indexed(f: Family, k: nat): GemmxCsr {
    match f
    case Bounds(p) => TBound(p, k)
    case Strides(p) => TStride(p, k)
    case Shifts => BitpackedShift(k)
    case Multipliers => SharedMultiplier(k)
  }

  /** The position of `r` in a family, if it belongs to it. */
  function IndexIn(f: Family, r: GemmxCsr): Option<nat> {
    match f
    case Bounds(p) => if r.TBound? && r.port == p then Some(r.index) else None
    case Strides(p) => if r.TStride? && r.port == p then Some(r.index) else None
    case Shifts => if r.BitpackedShift? then Some(r.index) else None
    case Multipliers => if r.SharedMultiplier? then Some(r.index) else None
  }

  lemma IndexedIndex(f: Family, k: nat, r: GemmxCsr)
    ensures Indexed(f, k) == r <==> IndexIn(f, r) == Some(k)
  {
  }

  /** Members 0 to `n-1` of a family written from `vals`, in order. */
  function IndexedWrites(f: Family, vals: seq<Word>, n: nat): (ws: seq<Access<GemmxCsr>>)
    requires n <= |vals|
    ensures |ws| == n
  {
    if n == 0 then [] else IndexedWrites(f, vals, n - 1) + [Store(Indexed(f, n - 1), vals[n - 1])]
  }

  /** The value the first `n` writes of a family from `vals` give `r`: its
      own argument. */
  function IndexedValue(f: Family, vals: seq<Word>, n: nat, r: GemmxCsr): Option<Word>
    requires n <= |vals|
  {
    var k := IndexIn(f, r);
    if k.Some? && k.value < n then Some(vals[k.value]) else None
  }

  lemma {:induction false} IndexedWritesLast(f: Family, vals: seq<Word>, n: nat, r: GemmxCsr)
    requires n <= |vals|
    ensures LastWrite(IndexedWrites(f, vals, n), r) == IndexedValue(f, vals, n, r)
    decreases n
  {
    if n > 0 {
      IndexedWritesLast(f, vals, n - 1, r);
      LastWriteSnoc(IndexedWrites(f, vals, n - 1), Store(Indexed(f, n - 1), vals[n - 1]), r);
      IndexedIndex(f, n - 1, r);
      if Indexed(f, n - 1) == r {
        assert IndexedValue(f, vals, n, r) == Some(vals[n - 1]);
      } else {
        assert IndexedValue(f, vals, n, r) == IndexedValue(f, vals, n - 1, r);
      }
    }
  }

  /** Every access in `ws` is a store. */
  predicate Stores(ws: seq<Access<GemmxCsr>>) {
    forall w | w in ws :: w.Store?
  }

  lemma {:induction false} IndexedWritesStores(f: Family, vals: seq<Word>, n: nat)
    requires n <= |vals|
    ensures Stores(IndexedWrites(f, vals, n))
    decreases n
  {
    if n > 0 {
      IndexedWritesStores(f, vals, n - 1);
    }
  }

  // ---------------------------------------------------------------------
  // Streamer configuration.

  /** One port's arguments to `set_gemmx_streamer_csr`: its two spatial
      strides, its loop bounds and temporal strides from innermost outwards,
      its address-remap index and its offset from the cluster base. */
  datatype PortArgs = PortArgs(slstride0: Word, slstride1: Word, bounds: seq<Word>, strides: seq<Word>, remap: Word, delta: Word)

  datatype StreamerArgs = StreamerArgs(
    a: PortArgs, b: PortArgs, d8: PortArgs, c: PortArgs, d32: PortArgs,
    bypassSimd: Word, transposeA: Word, transposeB: Word, channelEnC: Word, broadcastC: Word)

  /** The build-time extensions that add CSR writes. */
  datatype BuildFlags = BuildFlags(enabledChannelC: bool, cBroadcast: bool, transpose: bool)

  function ArgsOf(args: StreamerArgs, port: Port): PortArgs {
    match port
    case ReaderA => args.a
    case ReaderB => args.b
    case WriterD8 => args.d8
    case ReaderWriterC => args.c
    case ReaderWriterD32 => args.d32
  }

  /** The number of temporal loops of a port: six for A, three elsewhere. */
  function Loops(port: Port): nat {
    if port == ReaderA then 6 else 3
  }

  predicate WellFormed(args: StreamerArgs) {
    && |args.a.bounds| == 6 && |args.a.strides| == 6
    && |args.b.bounds| == 3 && |args.b.strides| == 3
    && |args.d8.bounds| == 3 && |args.d8.strides| == 3
    && |args.c.bounds| == 3 && |args.c.strides| == 3
    && |args.d32.bounds| == 3 && |args.d32.strides| == 3
  }

  /** C and D32 get both spatial strides; A, B and D8 only their second,
      written to spatial-stride register 0. */
  predicate BothSpatial(port: Port) {
    port == ReaderWriterC || port == ReaderWriterD32
  }

  /** The loop bounds written for a port: D8 gets its own only when the SIMD
      stage is used (`bypassSIMD == 0`) and D32 only when it is bypassed; the
      other one gets zeros. */
  function PortBounds(args: StreamerArgs, port: Port): seq<Word> {
    match port
    case WriterD8 => if args.bypassSimd == 0 then args.d8.bounds else [0, 0, 0]
    case ReaderWriterD32 => if args.bypassSimd == 0 then [0, 0, 0] else args.d32.bounds
    case _ => ArgsOf(args, port).bounds
  }

  function SpatialWrites(port: Port, p: PortArgs): seq<Access<GemmxCsr>> {
    if BothSpatial(port) then [Store(SStride(port, 0), p.slstride0), Store(SStride(port, 1), p.slstride1)]
    else [Store(SStride(port, 0), p.slstride1)]
  }

  /** One port's writes: base pointer, spatial strides, loop bounds,
      temporal strides, address-remap index. */
  function PortWrites(port: Port, args: StreamerArgs, base: Word): seq<Access<GemmxCsr>>
    requires WellFormed(args)
  {
    PortRun(port, ArgsOf(args, port), PortBounds(args, port), base)
  }

  function PortRun(port: Port, p: PortArgs, bounds: seq<Word>, base: Word): seq<Access<GemmxCsr>>
    requires |bounds| == Loops(port) && |p.strides| == Loops(port)
  {
    PortPrefix(port, p, base) + LoopWrites(port, p, bounds) + [Store(AddrRemapIndex(port), p.remap)]
  }

  /** `(uint32_t)(delta + base)`: a port's offset from the cluster base,
      kept to 32 bits. */
  function Offset(delta: Word, base: Word): Word {
    delta + base
  }

  /** Base pointer and spatial strides. */
  function PortPrefix(port: Port, p: PortArgs, base: Word): seq<Access<GemmxCsr>> {
    [Store(BasePtr(port), Offset(p.delta, base))] + SpatialWrites(port, p)
  }

  /** Loop bounds, then temporal strides, innermost loop first. */
  function LoopWrites(port: Port, p: PortArgs, bounds: seq<Word>): seq<Access<GemmxCsr>>
    requires |bounds| == Loops(port) && |p.strides| == Loops(port)
  {
    IndexedWrites(Bounds(port), bounds, Loops(port)) + IndexedWrites(Strides(port), p.strides, Loops(port))
  }

  /** The writes of the C-port extensions, each present when built in: the
      channel enable as given, and broadcast as its negation (1 gives 0,
      anything else 1). */
  function ExtensionWritesC(flags: BuildFlags, args: StreamerArgs): seq<Access<GemmxCsr>> {
    (if flags.enabledChannelC then [Store(EnabledChannelC, args.channelEnC)] else [])
      + (if flags.cBroadcast then [Store(BroadcastC, if args.broadcastC == 1 then 0 else 1)] else [])
  }

  /** The transpose extension's writes: each flag negated (0 gives 1,
      anything else 0). */
  function TransposeWrites(flags: BuildFlags, args: StreamerArgs): seq<Access<GemmxCsr>> {
    if flags.transpose then
      [Store(Transpose(ReaderA), if args.transposeA == 0 then 1 else 0),
       Store(Transpose(ReaderB), if args.transposeB == 0 then 1 else 0)]
    else []
  }

  /** `set_gemmx_streamer_csr`'s writes in program order: the input ports
      A and B, the output side (D8, C with its extensions, D32), then the
      transpose extension. */
  function StreamerWrites(flags: BuildFlags, base: Word, args: StreamerArgs): seq<Access<GemmxCsr>>
    requires WellFormed(args)
  {
    InputWrites(base, args) + OutputWrites(flags, base, args) + TransposeWrites(flags, args)
  }

  function InputWrites(base: Word, args: StreamerArgs): seq<Access<GemmxCsr>>
    requires WellFormed(args)
  {
    PortWrites(ReaderA, args, base) + PortWrites(ReaderB, args, base)
  }

  function OutputWrites(flags: BuildFlags, base: Word, args: StreamerArgs): seq<Access<GemmxCsr>>
    requires WellFormed(args)
  {
    PortWrites(WriterD8, args, base) + PortCWrites(flags, base, args) + PortWrites(ReaderWriterD32, args, base)
  }

  function PortCWrites(flags: BuildFlags, base: Word, args: StreamerArgs): seq<Access<GemmxCsr>>
    requires WellFormed(args)
  {
    PortWrites(ReaderWriterC, args, base) + ExtensionWritesC(flags, args)
  }

  /** The port a streamer port register belongs to. */
  function PortOf(r: GemmxCsr): Option<Port> {
    match r
    case BasePtr(p) => Some(p)
    case SStride(p, _) => Some(p)
    case TBound(p, _) => Some(p)
    case TStride(p, _) => Some(p)
    case AddrRemapIndex(p) => Some(p)
    case _ => None
  }

  /** What one port's writes, from the arguments `p` and the loop bounds
      `bounds`, leave in the port register `r`. */
  function RunValue(p: PortArgs, bounds: seq<Word>, base: Word, r: GemmxCsr): Option<Word> {
    match r
    case BasePtr(port) => Some(Offset(p.delta, base))
    case SStride(port, i) =>
      if i == 0 then Some(if BothSpatial(port) then p.slstride0 else p.slstride1)
      else if i == 1 && BothSpatial(port) then Some(p.slstride1)
      else None
    case TBound(_, i) => if i < |bounds| then Some(bounds[i]) else None
    case TStride(_, i) => if i < |p.strides| then Some(p.strides[i]) else None
    case AddrRemapIndex(_) => Some(p.remap)
    case _ => None
  }

  /** What the streamer's port writes leave in the port register `r`. */
  function PortValue(args: StreamerArgs, base: Word, r: GemmxCsr): Option<Word> {
    match PortOf(r)
    case Some(port) => RunValue(ArgsOf(args, port), PortBounds(args, port), base, r)
    case None => None
  }

  lemma SpatialLast(port: Port, p: PortArgs, r: GemmxCsr)
    ensures LastWrite(SpatialWrites(port, p), r)
      == if r == SStride(port, 0) then Some(if BothSpatial(port) then p.slstride0 else p.slstride1)
         else if r == SStride(port, 1) && BothSpatial(port) then Some(p.slstride1)
         else None
  {
    var spatial := SpatialWrites(port, p);
    LastWriteSingle(spatial[0], r);
    if BothSpatial(port) {
      LastWriteSnoc([spatial[0]], spatial[1], r);
    }
  }

  lemma PrefixLast(port: Port, p: PortArgs, base: Word, r: GemmxCsr)
    ensures LastWrite(PortPrefix(port, p, base), r)
      == if PortOf(r) == Some(port) && (r.BasePtr? || r.SStride?) then RunValue(p, [], base, r) else None
  {
    var head := Store(BasePtr(port), Offset(p.delta, base));
    LastWriteConcat([head], SpatialWrites(port, p), r);
    LastWriteSingle(head, r);
    SpatialLast(port, p, r);
  }

  lemma LoopsLast(port: Port, p: PortArgs, bounds: seq<Word>, r: GemmxCsr)
    requires |bounds| == Loops(port) && |p.strides| == Loops(port)
    ensures LastWrite(LoopWrites(port, p, bounds), r)
      == if PortOf(r) == Some(port) && (r.TBound? || r.TStride?) then RunValue(p, bounds, 0, r) else None
  {
    var n := Loops(port);
    LastWriteConcat(IndexedWrites(Bounds(port), bounds, n), IndexedWrites(Strides(port), p.strides, n), r);
    IndexedWritesLast(Bounds(port), bounds, n, r);
    IndexedWritesLast(Strides(port), p.strides, n, r);
  }

  lemma RunLast(port: Port, p: PortArgs, bounds: seq<Word>, base: Word, r: GemmxCsr)
    requires |bounds| == Loops(port) && |p.strides| == Loops(port)
    ensures LastWrite(PortRun(port, p, bounds, base), r)
      == if PortOf(r) == Some(port) then RunValue(p, bounds, base, r) else None
  {
    var tail := Store(AddrRemapIndex(port), p.remap);
    LastWriteConcat(PortPrefix(port, p, base) + LoopWrites(port, p, bounds), [tail], r);
    LastWriteConcat(PortPrefix(port, p, base), LoopWrites(port, p, bounds), r);
    LastWriteSingle(tail, r);
    PrefixLast(port, p, base, r);
    LoopsLast(port, p, bounds, r);
  }

  lemma PortLast(port: Port, args: StreamerArgs, base: Word, r: GemmxCsr)
    requires WellFormed(args)
    ensures LastWrite(PortWrites(port, args, base), r)
      == if PortOf(r) == Some(port) then PortValue(args, base, r) else None
  {
    RunLast(port, ArgsOf(args, port), PortBounds(args, port), base, r);
  }

  lemma InputLast(base: Word, args: StreamerArgs, r: GemmxCsr)
    requires WellFormed(args)
    ensures LastWrite(InputWrites(base, args), r)
      == if PortOf(r) == Some(ReaderA) || PortOf(r) == Some(ReaderB) then PortValue(args, base, r) else None
  {
    LastWriteConcat(PortWrites(ReaderA, args, base), PortWrites(ReaderB, args, base), r);
    PortLast(ReaderA, args, base, r);
    PortLast(ReaderB, args, base, r);
  }

  /** What the C-port extensions leave in `r`. */
  function ExtensionValueC(flags: BuildFlags, args: StreamerArgs, r: GemmxCsr): Option<Word> {
    if r == EnabledChannelC && flags.enabledChannelC then Some(args.channelEnC)
    else if r == BroadcastC && flags.cBroadcast then Some(if args.broadcastC == 1 then 0 else 1)
    else None
  }

  lemma ExtensionLastC(flags: BuildFlags, args: StreamerArgs, r: GemmxCsr)
    ensures LastWrite(ExtensionWritesC(flags, args), r) == ExtensionValueC(flags, args, r)
  {
    var channel := if flags.enabledChannelC then [Store(EnabledChannelC, args.channelEnC)] else [];
    var broadcast := if flags.cBroadcast then [Store(BroadcastC, if args.broadcastC == 1 then 0 else 1)] else [];
    LastWriteConcat(channel, broadcast, r);
    if flags.enabledChannelC {
      LastWriteSingle(channel[0], r);
    }
    if flags.cBroadcast {
      LastWriteSingle(broadcast[0], r);
    }
  }

  lemma PortCLast(flags: BuildFlags, base: Word, args: StreamerArgs, r: GemmxCsr)
    requires WellFormed(args)
    ensures LastWrite(PortCWrites(flags, base, args), r)
      == if PortOf(r) == Some(ReaderWriterC) then PortValue(args, base, r) else ExtensionValueC(flags, args, r)
  {
    LastWriteConcat(PortWrites(ReaderWriterC, args, base), ExtensionWritesC(flags, args), r);
    PortLast(ReaderWriterC, args, base, r);
    ExtensionLastC(flags, args, r);
  }

  lemma OutputLast(flags: BuildFlags, base: Word, args: StreamerArgs, r: GemmxCsr)
    requires WellFormed(args)
    ensures LastWrite(OutputWrites(flags, base, args), r)
      == if PortOf(r) == Some(WriterD8) || PortOf(r) == Some(ReaderWriterC) || PortOf(r) == Some(ReaderWriterD32)
         then PortValue(args, base, r)
         else ExtensionValueC(flags, args, r)
  {
    var d8 := PortWrites(WriterD8, args, base);
    var c := PortCWrites(flags, base, args);
    LastWriteConcat(d8 + c, PortWrites(ReaderWriterD32, args, base), r);
    LastWriteConcat(d8, c, r);
    PortLast(WriterD8, args, base, r);
    PortCLast(flags, base, args, r);
    PortLast(ReaderWriterD32, args, base, r);
  }

  /** What the transpose extension leaves in `r`. */
  function TransposeValue(flags: BuildFlags, args: StreamerArgs, r: GemmxCsr): Option<Word> {
    if !flags.transpose then None
    else if r == Transpose(ReaderA) then Some(if args.transposeA == 0 then 1 else 0)
    else if r == Transpose(ReaderB) then Some(if args.transposeB == 0 then 1 else 0)
    else None
  }

  lemma TransposeLast(flags: BuildFlags, args: StreamerArgs, r: GemmxCsr)
    ensures LastWrite(TransposeWrites(flags, args), r) == TransposeValue(flags, args, r)
  {
    if flags.transpose {
      var ws := TransposeWrites(flags, args);
      LastWriteSnoc([ws[0]], ws[1], r);
      LastWriteSingle(ws[0], r);
    }
  }

  /** What `set_gemmx_streamer_csr` leaves in each register, if it writes
      it: port registers from the ports' writes, the others from the
      extensions built in. */
  function StreamerValue(flags: BuildFlags, base: Word, args: StreamerArgs, r: GemmxCsr): Option<Word> {
    if PortOf(r).Some? then PortValue(args, base, r)
    else Later(ExtensionValueC(flags, args, r), TransposeValue(flags, args, r))
  }

  /** The pieces' last writes, in program order. */
  function PiecesValue(flags: BuildFlags, base: Word, args: StreamerArgs, r: GemmxCsr): Option<Word> {
    var port := PortOf(r);
    Later(
      Later(
        if port == Some(ReaderA) || port == Some(ReaderB) then PortValue(args, base, r) else None,
        if port == Some(WriterD8) || port == Some(ReaderWriterC) || port == Some(ReaderWriterD32)
        then PortValue(args, base, r)
        else ExtensionValueC(flags, args, r)),
      TransposeValue(flags, args, r))
  }

  lemma PiecesLast(flags: BuildFlags, base: Word, args: StreamerArgs, r: GemmxCsr)
    requires WellFormed(args)
    ensures LastWrite(StreamerWrites(flags, base, args), r) == PiecesValue(flags, base, args, r)
  {
    var input := InputWrites(base, args);
    var output := OutputWrites(flags, base, args);
    LastWriteConcat(input + output, TransposeWrites(flags, args), r);
    LastWriteConcat(input, output, r);
    InputLast(base, args, r);
    OutputLast(flags, base, args, r);
    TransposeLast(flags, args, r);
  }

  lemma PiecesValueIsStreamerValue(flags: BuildFlags, base: Word, args: StreamerArgs, r: GemmxCsr)
    ensures PiecesValue(flags, base, args, r) == StreamerValue(flags, base, args, r)
  {
    if PortOf(r).Some? {
      assert ExtensionValueC(flags, args, r) == None && TransposeValue(flags, args, r) == None;
    }
  }

  lemma StreamerLast(flags: BuildFlags, base: Word, args: StreamerArgs, r: GemmxCsr)
    requires WellFormed(args)
    ensures LastWrite(StreamerWrites(flags, base, args), r) == StreamerValue(flags, base, args, r)
  {
    PiecesLast(flags, base, args, r);
    PiecesValueIsStreamerValue(flags, base, args, r);
  }

  /** A register's value after `set_gemmx_streamer_csr`. */
  lemma StreamerAfter(m: map<GemmxCsr, Word>, flags: BuildFlags, base: Word, args: StreamerArgs, r: GemmxCsr)
    requires WellFormed(args)
    ensures Value(Commit(m, StreamerWrites(flags, base, args)), r)
      == match StreamerValue(flags, base, args, r) case Some(v) => v case None => Value(m, r)
  {
    CommitAfter(m, StreamerWrites(flags, base, args), r);
    StreamerLast(flags, base, args, r);
  }

  /** Output-stream selection: with the SIMD stage in use (`bypassSIMD == 0`)
      the D8 writer gets the caller's loop bounds and the D32 port zeros;
      with it bypassed, the reverse. */
  lemma OutputStreamSelection(flags: BuildFlags, base: Word, args: StreamerArgs, k: nat)
    requires WellFormed(args) && k < 3
    ensures StreamerValue(flags, base, args, TBound(WriterD8, k))
         == Some(if args.bypassSimd == 0 then args.d8.bounds[k] else 0)
    ensures StreamerValue(flags, base, args, TBound(ReaderWriterD32, k))
         == Some(if args.bypassSimd == 0 then 0 else args.d32.bounds[k])
  {
  }

  /** Every port's temporal strides and address-remap index come from the
      arguments whatever `bypassSIMD` is, and so do the loop bounds of A, B
      and C; no loop register beyond the port's loops is written. */
  lemma PortLoopsWritten(flags: BuildFlags, base: Word, args: StreamerArgs, port: Port, k: nat)
    requires WellFormed(args)
    ensures StreamerValue(flags, base, args, AddrRemapIndex(port)) == Some(ArgsOf(args, port).remap)
    ensures StreamerValue(flags, base, args, TStride(port, k))
         == if k < Loops(port) then Some(ArgsOf(args, port).strides[k]) else None
    ensures port != WriterD8 && port != ReaderWriterD32 ==>
              (StreamerValue(flags, base, args, TBound(port, k))
                 == if k < Loops(port) then Some(ArgsOf(args, port).bounds[k]) else None)
  {
  }

  /** Every base pointer holds the port's offset plus the cluster base, kept
      to 32 bits. A, B and D8 write only their second spatial stride, into
      spatial-stride register 0; C and D32 write both. */
  lemma PortPointersWritten(flags: BuildFlags, base: Word, args: StreamerArgs, port: Port)
    requires WellFormed(args)
    ensures StreamerValue(flags, base, args, BasePtr(port)) == Some(Offset(ArgsOf(args, port).delta, base))
    ensures StreamerValue(flags, base, args, SStride(port, 0))
         == Some(if BothSpatial(port) then ArgsOf(args, port).slstride0 else ArgsOf(args, port).slstride1)
    ensures StreamerValue(flags, base, args, SStride(port, 1))
         == if BothSpatial(port) then Some(ArgsOf(args, port).slstride1) else None
  {
  }

  /** The build-time extensions: the channel enable as given, broadcast and
      transpose negated into 0 or 1, each written only when built in. */
  lemma ExtensionsWritten(flags: BuildFlags, base: Word, args: StreamerArgs)
    ensures StreamerValue(flags, base, args, EnabledChannelC)
         == if flags.enabledChannelC then Some(args.channelEnC) else None
    ensures StreamerValue(flags, base, args, BroadcastC)
         == if !flags.cBroadcast then None else Some(if args.broadcastC == 1 then 0 else 1)
    ensures StreamerValue(flags, base, args, Transpose(ReaderA))
         == if !flags.transpose then None else Some(if args.transposeA == 0 then 1 else 0)
    ensures StreamerValue(flags, base, args, Transpose(ReaderB))
         == if !flags.transpose then None else Some(if args.transposeB == 0 then 1 else 0)
  {
  }

  /** `set_gemmx_streamer_csr`: the writes in program order; afterwards each
      register holds what `StreamerValue` gives it (see `StreamerAfter`). */
  method SetStreamerCsr(bus: RegisterFile<GemmxCsr>, flags: BuildFlags, base: Word, args: StreamerArgs)
    requires bus.Valid() && WellFormed(args)
    modifies bus
    ensures bus.Valid() && bus.origin == old(bus.origin)
    ensures bus.regs == Commit(old(bus.regs), StreamerWrites(flags, base, args))
    ensures bus.trace == old(bus.trace) + StreamerWrites(flags, base, args)
  {
    var ws := StreamerWrites(flags, base, args);
    StreamerStores(flags, base, args);
    assert forall i | 0 <= i < |ws| :: ws[i].Store? by {
      forall i | 0 <= i < |ws| ensures ws[i].Store? {
        assert ws[i] in ws;
      }
    }
    bus.StoreAll(ws);
  }

  lemma StoresConcat(a: seq<Access<GemmxCsr>>, b: seq<Access<GemmxCsr>>)
    requires Stores(a) && Stores(b)
    ensures Stores(a + b)
  {
  }

  lemma PortStores(port: Port, args: StreamerArgs, base: Word)
    requires WellFormed(args)
    ensures Stores(PortWrites(port, args, base))
  {
    var p := ArgsOf(args, port);
    var bounds := PortBounds(args, port);
    IndexedWritesStores(Bounds(port), bounds, Loops(port));
    IndexedWritesStores(Strides(port), p.strides, Loops(port));
    StoresConcat(IndexedWrites(Bounds(port), bounds, Loops(port)), IndexedWrites(Strides(port), p.strides, Loops(port)));
    StoresConcat([Store(BasePtr(port), Offset(p.delta, base))], SpatialWrites(port, p));
    StoresConcat(PortPrefix(port, p, base), LoopWrites(port, p, bounds));
    StoresConcat(PortPrefix(port, p, base) + LoopWrites(port, p, bounds), [Store(AddrRemapIndex(port), p.remap)]);
  }

  lemma OutputStores(flags: BuildFlags, base: Word, args: StreamerArgs)
    requires WellFormed(args)
    ensures Stores(OutputWrites(flags, base, args))
  {
    PortStores(WriterD8, args, base);
    PortStores(ReaderWriterC, args, base);
    PortStores(ReaderWriterD32, args, base);
    StoresConcat(PortWrites(ReaderWriterC, args, base), ExtensionWritesC(flags, args));
    StoresConcat(PortWrites(WriterD8, args, base), PortCWrites(flags, base, args));
    StoresConcat(PortWrites(WriterD8, args, base) + PortCWrites(flags, base, args), PortWrites(ReaderWriterD32, args, base));
  }

  lemma StreamerStores(flags: BuildFlags, base: Word, args: StreamerArgs)
    requires WellFormed(args)
    ensures Stores(StreamerWrites(flags, base, args))
  {
    PortStores(ReaderA, args, base);
    PortStores(ReaderB, args, base);
    StoresConcat(PortWrites(ReaderA, args, base), PortWrites(ReaderB, args, base));
    OutputStores(flags, base, args);
    StoresConcat(InputWrites(base, args), OutputWrites(flags, base, args));
    StoresConcat(InputWrites(base, args) + OutputWrites(flags, base, args), TransposeWrites(flags, args));
  }

  // ---------------------------------------------------------------------
  // GEMM core configuration.

  /** The arguments of `set_gemmx_csr`: the three loop bounds from the
      innermost loop outwards, the subtraction and SIMD words, two shared
      bit-packed shifts, eight shared multipliers, the temporal loop bound
      and the SIMD bypass. */
  datatype GemmArgs = GemmArgs(
    loop0: Word, loop1: Word, loop2: Word,
    subtractions: Word, csr0: Word, csr1: Word,
    shifts: seq<Word>, multipliers: seq<Word>,
    temporalLoopBound: Word, bypassSimd: Word)

  predicate GemmArgsOk(g: GemmArgs) {
    |g.shifts| == 2 && |g.multipliers| == 8
  }

  /** The loop bounds and the three SIMD configuration words, in program
      order. */
  function CoreHead(g: GemmArgs): seq<Access<GemmxCsr>> {
    [Store(TBoundK, g.loop0)] + [Store(TBoundN, g.loop1)] + [Store(TBoundM, g.loop2)]
      + [Store(Subtractions, g.subtractions)] + [Store(SimdCsr0, g.csr0)] + [Store(SimdCsr1, g.csr1)]
  }

  /** `set_gemmx_csr`'s writes in program order, ending with the bypass. */
  function CoreWrites(g: GemmArgs): seq<Access<GemmxCsr>>
    requires GemmArgsOk(g)
  {
    CoreHead(g)
      + IndexedWrites(Shifts, g.shifts, 2)
      + IndexedWrites(Multipliers, g.multipliers, 8)
      + [Store(TemporalLoopBound, g.temporalLoopBound)]
      + [Store(BypassSimd, g.bypassSimd)]
  }

  /** What `set_gemmx_csr` leaves in each register: every argument in its
      own register, and nothing else written. */
  function CoreValue(g: GemmArgs, r: GemmxCsr): Option<Word>
    requires GemmArgsOk(g)
  {
    match r
    case TBoundK => Some(g.loop0)
    case TBoundN => Some(g.loop1)
    case TBoundM => Some(g.loop2)
    case Subtractions => Some(g.subtractions)
    case SimdCsr0 => Some(g.csr0)
    case SimdCsr1 => Some(g.csr1)
    case BitpackedShift(i) => if i < 2 then Some(g.shifts[i]) else None
    case SharedMultiplier(i) => if i < 8 then Some(g.multipliers[i]) else None
    case TemporalLoopBound => Some(g.temporalLoopBound)
    case BypassSimd => Some(g.bypassSimd)
    case _ => None
  }

/** What the first six writes of `set_gemmx_csr` leave in each register. */
  function HeadValue(g: GemmArgs, r: GemmxCsr): Option<Word> {
    match r
    case TBoundK => Some(g.loop0)
    case TBoundN => Some(g.loop1)
    case TBoundM => Some(g.loop2)
    case Subtractions => Some(g.subtractions)
    case SimdCsr0 => Some(g.csr0)
    case SimdCsr1 => Some(g.csr1)
    case _ => None
  }

  lemma CoreHeadLast(g: GemmArgs, r: GemmxCsr)
    ensures LastWrite(CoreHead(g), r) == HeadValue(g, r)
  {
    var w0 := [Store(TBoundK, g.loop0)];
    var w1 := w0 + [Store(TBoundN, g.loop1)];
    var w2 := w1 + [Store(TBoundM, g.loop2)];
    var w3 := w2 + [Store(Subtractions, g.subtractions)];
    var w4 := w3 + [Store(SimdCsr0, g.csr0)];
    LastWriteSingle(w0[0], r);
    LastWriteSnoc(w0, Store(TBoundN, g.loop1), r);
    LastWriteSnoc(w1, Store(TBoundM, g.loop2), r);
    LastWriteSnoc(w2, Store(Subtractions, g.subtractions), r);
    LastWriteSnoc(w3, Store(SimdCsr0, g.csr0), r);
    LastWriteSnoc(w4, Store(SimdCsr1, g.csr1), r);
  }

  /** The value the head, the shifts and the multipliers leave, piece by piece. */
  function SimdPieces(g: GemmArgs, r: GemmxCsr): Option<Word>
    requires GemmArgsOk(g)
  {
    Later(Later(HeadValue(g, r), IndexedValue(Shifts, g.shifts, 2, r)),
          IndexedValue(Multipliers, g.multipliers, 8, r))
  }

  lemma SimdPiecesValue(g: GemmArgs, r: GemmxCsr)
    requires GemmArgsOk(g) && !r.TemporalLoopBound? && !r.BypassSimd?
    ensures SimdPieces(g, r) == CoreValue(g, r)
  {
  }

  lemma CoreSimdLast(g: GemmArgs, r: GemmxCsr)
    requires GemmArgsOk(g)
    ensures LastWrite(CoreHead(g) + IndexedWrites(Shifts, g.shifts, 2) + IndexedWrites(Multipliers, g.multipliers, 8), r)
      == SimdPieces(g, r)
  {
    var shifts := IndexedWrites(Shifts, g.shifts, 2);
    LastWriteConcat(CoreHead(g) + shifts, IndexedWrites(Multipliers, g.multipliers, 8), r);
    LastWriteConcat(CoreHead(g), shifts, r);
    CoreHeadLast(g, r);
    IndexedWritesLast(Shifts, g.shifts, 2, r);
    IndexedWritesLast(Multipliers, g.multipliers, 8, r);
  }

  lemma CoreLast(g: GemmArgs, r: GemmxCsr)
    requires GemmArgsOk(g)
    ensures LastWrite(CoreWrites(g), r) == CoreValue(g, r)
  {
    var simd := CoreHead(g) + IndexedWrites(Shifts, g.shifts, 2) + IndexedWrites(Multipliers, g.multipliers, 8);
    var bound := Store(TemporalLoopBound, g.temporalLoopBound);
    LastWriteSnoc(simd + [bound], Store(BypassSimd, g.bypassSimd), r);
    LastWriteSnoc(simd, bound, r);
    CoreSimdLast(g, r);
    if !r.TemporalLoopBound? && !r.BypassSimd? {
      SimdPiecesValue(g, r);
    }
  }

  /** After `set_gemmx_csr` every argument sits in its own register and
      every other register is as it was. */
  lemma CoreAfter(m: map<GemmxCsr, Word>, g: GemmArgs, r: GemmxCsr)
    requires GemmArgsOk(g)
    ensures Value(Commit(m, CoreWrites(g)), r)
         == match CoreValue(g, r) case Some(v) => v case None => Value(m, r)
  {
    CommitAfter(m, CoreWrites(g), r);
    CoreLast(g, r);
  }

  /** The last register `set_gemmx_csr` writes is the SIMD bypass. */
  lemma CoreEndsWithBypass(g: GemmArgs)
    requires GemmArgsOk(g)
    ensures var ws := CoreWrites(g); |ws| > 0 && ws[|ws| - 1] == Store(BypassSimd, g.bypassSimd)
  {
  }

  lemma CoreStores(g: GemmArgs)
    requires GemmArgsOk(g)
    ensures Stores(CoreWrites(g))
  {
    IndexedWritesStores(Shifts, g.shifts, 2);
    IndexedWritesStores(Multipliers, g.multipliers, 8);
  }

  /** `set_gemmx_csr`. */
  method SetGemmxCsr(bus: RegisterFile<GemmxCsr>, g: GemmArgs)
    requires bus.Valid() && GemmArgsOk(g)
    modifies bus
    ensures bus.Valid() && bus.origin == old(bus.origin)
    ensures bus.regs == Commit(old(bus.regs), CoreWrites(g))
    ensures bus.trace == old(bus.trace) + CoreWrites(g)
  {
    var ws := CoreWrites(g);
    CoreStores(g);
    assert forall i | 0 <= i < |ws| :: ws[i].Store? by {
      forall i | 0 <= i < |ws| ensures ws[i].Store? {
        assert ws[i] in ws;
      }
    }
    bus.StoreAll(ws);
  }

  /** The arguments the convolution test passes to `set_gemmx_csr`: its
      loop sizes in the order K, N, M, the three encoded SIMD words, and
      `M * N` (kept to 32 bits) as the temporal loop bound. */
  function CallerArgs(
    k: Word, n: Word, m: Word, subtractionA: Bits8, subtractionB: Bits8,
    inputZp: Bits8, outputZp: Bits8, maxInt: Bits8, minInt: Bits8, doubleRound: bool,
    shifts: seq<Word>, multipliers: seq<Word>, bypassSimd: Word): (g: GemmArgs)
    ensures GemmArgsOk(g) <==> |shifts| == 2 && |multipliers| == 8
    ensures ByteAt(g.subtractions, 0) == subtractionA && ByteAt(g.subtractions, 1) == subtractionB
    ensures ByteAt(g.csr0, 0) == inputZp && ByteAt(g.csr0, 1) == outputZp
    ensures ByteAt(g.csr0, 2) == maxInt && ByteAt(g.csr0, 3) == minInt
    ensures g.csr1 == 1 <==> doubleRound
  {
    GemmArgs(k, n, m, SubtractionConfig(subtractionA, subtractionB),
             Csr0Config(inputZp, outputZp, maxInt, minInt), Csr1Config(doubleRound),
             shifts, multipliers, m * n, bypassSimd)
  }

  /** The caller's loop order, as the GEMM core receives it: K is the
      innermost bound, then N, then M, and the temporal loop runs `M * N`
      times. */
  lemma CallerLoopOrder(
    k: Word, n: Word, m: Word, subtractionA: Bits8, subtractionB: Bits8,
    inputZp: Bits8, outputZp: Bits8, maxInt: Bits8, minInt: Bits8, doubleRound: bool,
    shifts: seq<Word>, multipliers: seq<Word>, bypassSimd: Word)
    requires |shifts| == 2 && |multipliers| == 8
    ensures var g := CallerArgs(k, n, m, subtractionA, subtractionB, inputZp, outputZp, maxInt, minInt,
                                doubleRound, shifts, multipliers, bypassSimd);
      && GemmArgsOk(g)
      && CoreValue(g, TBoundK) == Some(k) && CoreValue(g, TBoundN) == Some(n) && CoreValue(g, TBoundM) == Some(m)
      && CoreValue(g, TemporalLoopBound) == Some(m * n)
  {
  }

  // ---------------------------------------------------------------------
  // Waiting for the accelerator.

  /** A busy flag reading 0. */
  function Idle(): Word -> bool {
    v => v == 0
  }

  /** The streamer half of `wait_gemmx_and_streamer`, once the GEMM unit
      has read idle: the streamer spin, then, once that is idle, a store of
      0 to the GEMM start register. */
  function StreamerWaitAccesses(streamerPolls: seq<Word>): seq<Access<GemmxCsr>> {
    var exit := PollExit(streamerPolls, Idle());
    Changes(StreamerBusy, streamerPolls[..Consumed(exit, |streamerPolls|)])
      + (if exit.None? then [] else [Store(GemmxStart, 0)])
  }

  /** The GEMM half of `wait_gemmx_and_streamer`: two stores of 0 to the
      streamer start register, then the spin on the GEMM busy flag. */
  function GemmWaitAccesses(gemmPolls: seq<Word>): seq<Access<GemmxCsr>> {
    [Store(StreamerStart, 0), Store(StreamerStart, 0)]
      + Changes(GemmxBusy, gemmPolls[..Consumed(PollExit(gemmPolls, Idle()), |gemmPolls|)])
  }

  /** The accesses of `wait_gemmx_and_streamer` when the GEMM busy flag reads
      `gemmPolls` and the streamer busy flag `streamerPolls`: the GEMM half,
      and once the GEMM is idle the streamer half. */
  function WaitAccesses(gemmPolls: seq<Word>, streamerPolls: seq<Word>): seq<Access<GemmxCsr>> {
    GemmWaitAccesses(gemmPolls)
      + (if PollExit(gemmPolls, Idle()).None? then [] else StreamerWaitAccesses(streamerPolls))
  }

  /** The streamer half of `wait_gemmx_and_streamer`. */
  method WaitStreamer(bus: RegisterFile<GemmxCsr>, streamerPolls: seq<Word>) returns (done: bool)
    requires bus.Valid() && |streamerPolls| > 0
    modifies bus
    ensures done <==> exists k | 0 <= k < |streamerPolls| :: streamerPolls[k] == 0
    ensures done ==> bus.regs == old(bus.regs)[StreamerBusy := 0][GemmxStart := 0]
    ensures !done ==> bus.regs == old(bus.regs)[StreamerBusy := streamerPolls[|streamerPolls| - 1]]
    ensures bus.Valid() && bus.origin == old(bus.origin)
    ensures bus.trace == old(bus.trace) + StreamerWaitAccesses(streamerPolls)
  {
    var exit := bus.Poll(StreamerBusy, streamerPolls, Idle());
    var run := Changes(StreamerBusy, streamerPolls[..Consumed(exit, |streamerPolls|)]);
    if exit.None? {
      done := false;
      assert StreamerWaitAccesses(streamerPolls) == run + [];
    } else {
      bus.Write(GemmxStart, 0);
      done := true;
      assert StreamerWaitAccesses(streamerPolls) == run + [Store(GemmxStart, 0)];
    }
  }

  /** The GEMM half of `wait_gemmx_and_streamer`. */
  method WaitGemm(bus: RegisterFile<GemmxCsr>, gemmPolls: seq<Word>) returns (idle: bool)
    requires bus.Valid() && |gemmPolls| > 0
    modifies bus
    ensures idle <==> PollExit(gemmPolls, Idle()).Some?
    ensures idle ==> bus.regs == old(bus.regs)[StreamerStart := 0][GemmxBusy := 0]
    ensures bus.Valid() && bus.origin == old(bus.origin)
    ensures bus.trace == old(bus.trace) + GemmWaitAccesses(gemmPolls)
  {
    bus.Write(StreamerStart, 0);
    bus.Write(StreamerStart, 0);
    var exit := bus.Poll(GemmxBusy, gemmPolls, Idle());
    idle := exit.Some?;
  }

  /** `wait_gemmx_and_streamer`. True once both units have read idle; false
      when the observations end first. */
  method WaitGemmxAndStreamer(bus: RegisterFile<GemmxCsr>, gemmPolls: seq<Word>, streamerPolls: seq<Word>)
    returns (done: bool)
    requires bus.Valid() && |gemmPolls| > 0 && |streamerPolls| > 0
    modifies bus
    ensures done <==> (exists k | 0 <= k < |gemmPolls| :: gemmPolls[k] == 0)
                      && (exists k | 0 <= k < |streamerPolls| :: streamerPolls[k] == 0)
    ensures done ==> bus.Read(GemmxBusy) == 0 && bus.Read(StreamerBusy) == 0
    ensures done ==> bus.Read(StreamerStart) == 0 && bus.Read(GemmxStart) == 0
    ensures bus.Valid() && bus.origin == old(bus.origin)
    ensures bus.trace == old(bus.trace) + WaitAccesses(gemmPolls, streamerPolls)
    ensures bus.regs == Commit(old(bus.regs), WaitAccesses(gemmPolls, streamerPolls))
  {
    ghost var log := bus.trace;
    var idle := WaitGemm(bus, gemmPolls);
    if !idle {
      done := false;
      assert WaitAccesses(gemmPolls, streamerPolls) == GemmWaitAccesses(gemmPolls) + [];
    } else {
      done := WaitStreamer(bus, streamerPolls);
    }
    CommitLog(bus, log, WaitAccesses(gemmPolls, streamerPolls));
  }

  /** `read_gemmx_streamer_perf_counter` and `read_gemmx_perf_counter`: one
      read of a read-only counter, whose value `v` the hardware supplies. */
  method ReadPerfCounter(bus: RegisterFile<GemmxCsr>, counter: GemmxCsr, v: Word) returns (count: Word)
    requires bus.Valid() && (counter == StreamerPerfCounter || counter == GemmxPerfCounter)
    modifies bus
    ensures count == v
    ensures bus.Valid() && bus.origin == old(bus.origin)
    ensures bus.regs == old(bus.regs)[counter := v]
    ensures bus.trace == old(bus.trace) + [Change(counter, v)]
  {
    bus.Observe(counter, v);
    count := bus.Read(counter);
  }
}
