/** The worker side of the offload mailbox, run by a cluster core from the
    boot ROM: enable its machine software interrupt, and on finishing store
    the result, with bit 0 forced to 1, into the return register that belongs
    to its hart. */
module SnitchStartup {
  import opened Registers
  import opened SocCtrl

  /** RISC-V machine CSR numbers. */
  const Mstatus: nat := 0x300
  const Mie: nat := 0x304

  const IrqMSoft: bv32 := 3
  const MipMsip: Word := 1 << IrqMSoft
  const MstatusMie: Word := 0x8

  function StartupWrites(m: map<nat, Word>): seq<Access<nat>> {
    [Store(Mie, SetBits(Value(m, Mie), MipMsip)),
     Store(Mstatus, SetBits(Value(m, Mstatus), MstatusMie))]
  }

  /** Start-up turns on bit 3 of `mie` (software interrupt) and bit 3 of
      `mstatus` (global machine interrupt enable) and changes no other bit and
      no other CSR. */
  lemma StartupEffect(m: map<nat, Word>, csr: nat)
    ensures var v := Value(Commit(m, StartupWrites(m)), csr);
      if csr == Mie || csr == Mstatus then
        v & 8 == 8 && v & !8 == Value(m, csr) & !8
      else v == Value(m, csr)
  {
    var ws := StartupWrites(m);
    CommitAfter(m, ws, csr);
    if csr == Mie {
      LastWriteAt(ws, 0);
    } else if csr == Mstatus {
      LastWriteAt(ws, 1);
    } else {
      assert !Touches(ws, csr);
    }
  }

  method ClusterStartup(csrs: RegisterFile<nat>)
    requires csrs.Valid()
    modifies csrs
    ensures csrs.Valid() && csrs.origin == old(csrs.origin)
    ensures csrs.regs == Commit(old(csrs.regs), StartupWrites(old(csrs.regs)))
    ensures csrs.trace == old(csrs.trace) + StartupWrites(old(csrs.regs))
  {
    ghost var m := csrs.regs;
    csrs.Write(Mie, SetBits(csrs.Read(Mie), MipMsip));
    csrs.Write(Mstatus, SetBits(csrs.Read(Mstatus), MstatusMie));
    ghost var ws := StartupWrites(m);
    assert ws[..1] == [ws[0]] && ws[..1][..0] == [];
    assert Commit(m, ws[..1]) == m[Mie := ws[0].value];
  }

  /** The reported value: never 0, so the host's spin on 0 ends; bit 0 set,
      bits 1 to 31 those of `ret`. */
  function ReturnValue(ret: Word): (v: Word)
    ensures v != 0 && v & 1 == 1
    ensures v & !1 == ret & !1
  {
    ret | 1
  }

  /** An odd result is reported unchanged. */
  lemma OddReturnUnchanged(ret: Word)
    requires ret & 1 == 1
    ensures ReturnValue(ret) == ret
  {
  }

  /** `mhartid` read into a `uint8_t`: only its low eight bits remain. */
  function HartByte(mhartid: Uint32): (hart: Byte)
    ensures hart == mhartid % 0x100
    ensures mhartid < 0x100 ==> hart == mhartid
  {
    mhartid % 0x100
  }

  /** The return register a hart writes: harts 1, 10, 19, 28 and 37 (core 0
      of clusters 0 to 4) write slots 1 to 5; the switch has no default, so
      every other hart writes nothing. */
  function ReturnSlot(hart: Byte): (slot: Option<nat>)
    ensures slot.Some? <==> hart % 9 == 1 && hart <= 37
    ensures slot.Some? ==> slot.value == hart / 9 + 1 && slot.value <= ReturnSlots
  {
    match hart
    case 1 => Some(1)
    case 10 => Some(2)
    case 19 => Some(3)
    case 28 => Some(4)
    case 37 => Some(5)
    case _ => None
  }

  function ReturnWrites(mhartid: Uint32, ret: Word): seq<Access<SocReg>> {
    match ReturnSlot(HartByte(mhartid))
    case Some(slot) => [Store(SocReg.ClusterReturn(slot), ReturnValue(ret))]
    case None => []
  }

  /** A worker's return changes at most its own return register, which then
      holds the reported value; a hart with no slot changes nothing. */
  lemma ReturnEffect(m: map<SocReg, Word>, mhartid: Uint32, ret: Word, r: SocReg)
    ensures Value(Commit(m, ReturnWrites(mhartid, ret)), r)
         == if r.ClusterReturn? && ReturnSlot(HartByte(mhartid)) == Some(r.slot) then ReturnValue(ret)
            else Value(m, r)
  {
    CommitAfter(m, ReturnWrites(mhartid, ret), r);
  }

  method ClusterReturn(bus: RegisterFile<SocReg>, mhartid: Uint32, ret: Word)
    requires bus.Valid()
    modifies bus
    ensures bus.Valid() && bus.origin == old(bus.origin)
    ensures bus.regs == Commit(old(bus.regs), ReturnWrites(mhartid, ret))
    ensures bus.trace == old(bus.trace) + ReturnWrites(mhartid, ret)
  {
    var retVal := ReturnValue(ret);
    var hartId := HartByte(mhartid);
    match ReturnSlot(hartId)
    case Some(slot) =>
      bus.Write(SocReg.ClusterReturn(slot), retVal);
    case None =>
  }
}
