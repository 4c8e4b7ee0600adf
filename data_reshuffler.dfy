// The data-reshuffler driver of the KU Leuven cluster tests: the streamer
// configuration at the fixed CSR addresses 960 to 979, the packed
// reshuffle word at 983, the start/stop registers 980 and 984 and the
// byte comparison that checks a reshuffled chunk.

module DataReshuffler {
  import opened Registers
  import Gemmx

  // ---------------------------------------------------------------------
  // CSR addresses.

  /** First of the twenty consecutive streamer configuration CSRs. */
  const ConfigBase: nat := 960
  /** Streamer start/stop register. */
  const StreamerStartCsr: nat := 980
  /** The reshuffle configuration word; reads of it return the performance
      counter. */
  const ReshuffleCsr: nat := 983
  /** Reshuffler start/stop register. */
  const ReshufflerStartCsr: nat := 984

  // ---------------------------------------------------------------------
  // Streamer configuration.

  /** The arguments of `set_data_reshuffler_csr`: five loop bounds and
      strides for the reader, three for the writer, one spatial stride each
      and the two pointer offsets from the cluster base. */
  datatype ReshufflerArgs = ReshufflerArgs(
    boundsIn: seq<Word>, boundsOut: seq<Word>,
    stridesIn: seq<Word>, stridesOut: seq<Word>,
    spatialStrideIn: Word, spatialStrideOut: Word,
    deltaIn: Word, deltaOut: Word)

  predicate ArgsOk(args: ReshufflerArgs) {
    |args.boundsIn| == 5 && |args.boundsOut| == 3 && |args.stridesIn| == 5 && |args.stridesOut| == 3
  }

  /** The values `set_data_reshuffler_csr` writes, in program order. */
  function Slots(args: ReshufflerArgs, base: Word): seq<Word> {
    args.boundsIn + args.boundsOut + args.stridesIn + args.stridesOut
      + [args.spatialStrideIn, args.spatialStrideOut,
         Gemmx.Offset(args.deltaIn, base), Gemmx.Offset(args.deltaOut, base)]
  }

  /** Stores of `slots` to consecutive CSRs from 960 on. */
  function ConfigWrites(slots: seq<Word>): (ws: seq<Access<nat>>)
    ensures |ws| == |slots|
    decreases |slots|
  {
    if |slots| == 0 then []
    else ConfigWrites(slots[..|slots| - 1]) + [Store(ConfigBase + |slots| - 1, slots[|slots| - 1])]
  }

  /** Write `k` stores slot `k` to CSR `960 + k`. */
  lemma {:induction false} ConfigWritesAt(slots: seq<Word>, k: nat)
    requires k < |slots|
    ensures ConfigWrites(slots)[k] == Store(ConfigBase + k, slots[k])
    decreases |slots|
  {
    var n := |slots|;
    if k < n - 1 {
      ConfigWritesAt(slots[..n - 1], k);
    }
  }

  /** The last write to CSR `r`: slot `r - 960` inside the window, none
      outside it. */
  lemma {:induction false} ConfigWritesLast(slots: seq<Word>, r: nat)
    ensures LastWrite(ConfigWrites(slots), r)
         == if ConfigBase <= r < ConfigBase + |slots| then Some(slots[r - ConfigBase]) else None
    decreases |slots|
  {
    var n := |slots|;
    if n > 0 {
      ConfigWritesLast(slots[..n - 1], r);
      LastWriteSnoc(ConfigWrites(slots[..n - 1]), Store(ConfigBase + n - 1, slots[n - 1]), r);
    }
  }

  lemma {:induction false} ConfigWritesStores(slots: seq<Word>)
    ensures forall w | w in ConfigWrites(slots) :: w.Store?
    decreases |slots|
  {
    var n := |slots|;
    if n > 0 {
      ConfigWritesStores(slots[..n - 1]);
    }
  }

  /** The CSR map: reader bounds at 960-964, writer bounds at 965-967,
      reader strides at 968-972, writer strides at 973-975, spatial strides
      at 976 and 977, and both base pointers, `delta + base` kept to 32
      bits, at 978 and 979. */
  lemma SlotLayout(args: ReshufflerArgs, base: Word)
    requires ArgsOk(args)
    ensures var s := Slots(args, base);
      && |s| == 20
      && (forall k | 0 <= k < 5 :: s[k] == args.boundsIn[k])
      && (forall k | 0 <= k < 3 :: s[5 + k] == args.boundsOut[k])
      && (forall k | 0 <= k < 5 :: s[8 + k] == args.stridesIn[k])
      && (forall k | 0 <= k < 3 :: s[13 + k] == args.stridesOut[k])
      && s[16] == args.spatialStrideIn && s[17] == args.spatialStrideOut
      && s[18] == Gemmx.Offset(args.deltaIn, base) && s[19] == Gemmx.Offset(args.deltaOut, base)
  {
  }

  /** After `set_data_reshuffler_csr` the CSRs 960 to 979 hold the slots
      and every other CSR is as it was. */
  lemma ConfigAfter(m: map<nat, Word>, args: ReshufflerArgs, base: Word, r: nat)
    requires ArgsOk(args)
    ensures Value(Commit(m, ConfigWrites(Slots(args, base))), r)
         == if 960 <= r < 980 then Slots(args, base)[r - 960] else Value(m, r)
  {
    CommitAfter(m, ConfigWrites(Slots(args, base)), r);
    ConfigWritesLast(Slots(args, base), r);
  }

  /** `set_data_reshuffler_csr`. */
  method SetDataReshufflerCsr(bus: RegisterFile<nat>, args: ReshufflerArgs, base: Word)
    requires bus.Valid() && ArgsOk(args)
    modifies bus
    ensures bus.Valid() && bus.origin == old(bus.origin)
    ensures bus.regs == Commit(old(bus.regs), ConfigWrites(Slots(args, base)))
    ensures bus.trace == old(bus.trace) + ConfigWrites(Slots(args, base))
  {
    var ws := ConfigWrites(Slots(args, base));
    ConfigWritesStores(Slots(args, base));
    assert forall i | 0 <= i < |ws| :: ws[i].Store? by {
      forall i | 0 <= i < |ws| ensures ws[i].Store? {
        assert ws[i] in ws;
      }
    }
    bus.StoreAll(ws);
  }

  // ---------------------------------------------------------------------
  // The reshuffle word.

  /** `set_data_reshuffler`'s word: `T2Len << 8 | reduceLen << 2 | opcode`,
      each argument cast to 32 bits and none of them masked. The opcode's
      two low bits always land in bits 0 and 1, and the top eight bits of
      `T2Len` are shifted out. */
  function ReshuffleWord(t2Len: Word, reduceLen: Word, opcode: Word): (w: Word)
    ensures w & 0x3 == opcode & 0x3
    ensures reduceLen < 0x40 && opcode < 0x4 ==> w >> 8 == t2Len & 0xFF_FFFF
  {
    (t2Len << 8) | (reduceLen << 2) | opcode
  }

  /** The fields the hardware reads back: bits 8 and up, bits 2 to 7, and
      bits 0 and 1. */
  function ReshuffleFields(w: Word): (Word, Word, Word) {
    (w >> 8, (w >> 2) & 0x3F, w & 0x3)
  }

  /** The word carries its three arguments exactly when each fits its
      field. */
  lemma ReshuffleFieldsRoundTrip(t2Len: Word, reduceLen: Word, opcode: Word)
    ensures ReshuffleFields(ReshuffleWord(t2Len, reduceLen, opcode)) == (t2Len, reduceLen, opcode)
        <==> t2Len < 0x100_0000 && reduceLen < 0x40 && opcode < 0x4
  {
  }

  /** Without masking an opcode of 4 is the same word as a reduce length
      of 1. */
  lemma ReshuffleWordCollision()
    ensures ReshuffleWord(0, 0, 4) == ReshuffleWord(0, 1, 0)
  {
  }

  /** `set_data_reshuffler`. */
  method SetDataReshuffler(bus: RegisterFile<nat>, t2Len: Word, reduceLen: Word, opcode: Word)
    requires bus.Valid()
    modifies bus
    ensures bus.Valid() && bus.origin == old(bus.origin)
    ensures bus.regs == old(bus.regs)[ReshuffleCsr := ReshuffleWord(t2Len, reduceLen, opcode)]
    ensures bus.trace == old(bus.trace) + [Store(ReshuffleCsr, ReshuffleWord(t2Len, reduceLen, opcode))]
  {
    var csr0 := (t2Len << 8) | (reduceLen << 2) | opcode;
    bus.Write(ReshuffleCsr, csr0);
  }

  // ---------------------------------------------------------------------
  // Start, stop and the performance counter.

  /** `start_streamer` (`on`) and `wait_streamer` (`!on`): one store to 980
      and no polling. */
  method SetStreamerRunning(bus: RegisterFile<nat>, on: bool)
    requires bus.Valid()
    modifies bus
    ensures bus.Valid() && bus.origin == old(bus.origin)
    ensures bus.regs == old(bus.regs)[StreamerStartCsr := if on then 1 else 0]
    ensures bus.trace == old(bus.trace) + [Store(StreamerStartCsr, if on then 1 else 0)]
  {
    bus.Write(StreamerStartCsr, if on then 1 else 0);
  }

  /** `start_data_reshuffler` (`on`) and `wait_data_reshuffler` (`!on`):
      one store to 984 and no polling. */
  method SetReshufflerRunning(bus: RegisterFile<nat>, on: bool)
    requires bus.Valid()
    modifies bus
    ensures bus.Valid() && bus.origin == old(bus.origin)
    ensures bus.regs == old(bus.regs)[ReshufflerStartCsr := if on then 1 else 0]
    ensures bus.trace == old(bus.trace) + [Store(ReshufflerStartCsr, if on then 1 else 0)]
  {
    bus.Write(ReshufflerStartCsr, if on then 1 else 0);
  }

  /** `read_data_reshuffler_perf_counter`: a read of CSR 983, the address
      the reshuffle word is written to, returning the value `v` the
      hardware supplies. */
  method ReadPerfCounter(bus: RegisterFile<nat>, v: Word) returns (count: Word)
    requires bus.Valid()
    modifies bus
    ensures count == v
    ensures bus.Valid() && bus.origin == old(bus.origin)
    ensures bus.regs == old(bus.regs)[ReshuffleCsr := v]
    ensures bus.trace == old(bus.trace) + [Change(ReshuffleCsr, v)]
  {
    bus.Observe(ReshuffleCsr, v);
    count := bus.Read(ReshuffleCsr);
  }

  // ---------------------------------------------------------------------
  // Checking a chunk.

  /** The positions compared for a signed length: none when it is not
      positive. */
  function Compared(len: int): nat {
    if len <= 0 then 0 else len
  }

  /** `test_a_chrunk_of_data`: the number of positions below `len` where
      the reshuffled bytes differ from the golden ones. */
  method TestChunk(local: seq<Gemmx.Bits8>, golden: seq<Gemmx.Bits8>, len: int) returns (error: nat)
    requires len <= |local| && len <= |golden|
    ensures error == Gemmx.Mismatches(local, golden, Compared(len))
    ensures error <= Compared(len)
    ensures error == 0 <==> local[..Compared(len)] == golden[..Compared(len)]
    ensures len <= 0 ==> error == 0
  {
    error := 0;
    var i := 0;
    while i < len
      invariant 0 <= i <= Compared(len)
      invariant error == Gemmx.Mismatches(local, golden, i)
    {
      if local[i] != golden[i] {
        error := error + 1;
      }
      i := i + 1;
    }
    Gemmx.MismatchesBound(local, golden, Compared(len));
    Gemmx.MismatchesZero(local, golden, Compared(len));
  }
}
