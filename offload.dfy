/** The host side of the offload mailbox: publish the trap handler, hand a
    function to a cluster's core 0 by writing the shared boot address and
    raising that hart's software interrupt, then spin on the cluster's return
    register, take the value and clear the register again. */
module Offload {
  import opened Registers
  import opened SocCtrl

  /** The hart whose software interrupt starts cluster `clusterId`: core 0 of
      each nine-core cluster, counting from hart 1. The hart determines its
      cluster. */
  function InterruptedHart(clusterId: Byte): (hart: nat)
    ensures hart % 9 == 1 && hart / 9 == clusterId
    ensures hart < 0x1_0000_0000
  {
    clusterId * 9 + 1
  }

  /** Core 0 of clusters 0 to 4 are harts 1, 10, 19, 28 and 37, in that order. */
  lemma InterruptedHartIncreasing(c: Byte, d: Byte)
    requires c < d
    ensures InterruptedHart(c) < InterruptedHart(d)
  {
  }

  /** The return register `waitForCluster` selects: slot `clusterId + 1` for
      clusters 0 to 4, none for any other id (the pointer stays unassigned). */
  function PolledSlot(clusterId: Byte): (slot: Option<nat>)
    ensures slot.Some? <==> clusterId < ReturnSlots
    ensures slot.Some? ==> slot.value == clusterId + 1
  {
    if clusterId == 0 then Some(1)
    else if clusterId == 1 then Some(2)
    else if clusterId == 2 then Some(3)
    else if clusterId == 3 then Some(4)
    else if clusterId == 4 then Some(5)
    else None
  }

  function HandlerWrites(handler: Word): seq<Access<SocReg>> {
    [Store(IntrHandlerAddr, handler)]
  }

  /** Publishing the trap handler sets the handler register and nothing else. */
  lemma HandlerEffect(m: map<SocReg, Word>, handler: Word, r: SocReg)
    ensures Value(Commit(m, HandlerWrites(handler)), r)
         == if r == IntrHandlerAddr then handler else Value(m, r)
  {
    CommitAfter(m, HandlerWrites(handler), r);
  }

  method SetupInterruptHandler(bus: RegisterFile<SocReg>, handler: Word)
    requires bus.Valid()
    modifies bus
    ensures bus.Valid() && bus.origin == old(bus.origin)
    ensures bus.regs == Commit(old(bus.regs), HandlerWrites(handler))
    ensures bus.trace == old(bus.trace) + HandlerWrites(handler)
  {
    bus.Write(IntrHandlerAddr, handler);
  }

  /** The stores of an offload, boot address first and interrupt second. */
  function OffloadWrites(function_: Word, clusterId: Byte): (ws: seq<Access<SocReg>>)
    ensures |ws| == 2 && ws[0].reg == BootAddr && ws[1].reg.Msip?
  {
    [Store(BootAddr, function_), Store(Msip(InterruptedHart(clusterId)), 1)]
  }

  /** After an offload the boot address holds the function, the chosen hart's
      interrupt word holds 1, and every other word is unchanged. */
  lemma OffloadEffect(m: map<SocReg, Word>, function_: Word, clusterId: Byte, r: SocReg)
    ensures Value(Commit(m, OffloadWrites(function_, clusterId)), r)
         == if r == BootAddr then function_
            else if r == Msip(InterruptedHart(clusterId)) then 1
            else Value(m, r)
  {
    var ws := OffloadWrites(function_, clusterId);
    CommitAfter(m, ws, r);
    if r == Msip(InterruptedHart(clusterId)) {
      LastWriteAt(ws, 1);
    } else if r == BootAddr {
      LastWriteAt(ws, 0);
    } else {
      assert !Touches(ws, r);
    }
  }

  method OffloadToCluster(bus: RegisterFile<SocReg>, function_: Word, clusterId: Byte)
    requires bus.Valid()
    modifies bus
    ensures bus.Valid() && bus.origin == old(bus.origin)
    ensures bus.regs == Commit(old(bus.regs), OffloadWrites(function_, clusterId))
    ensures bus.trace == old(bus.trace) + OffloadWrites(function_, clusterId)
  {
    bus.Write(BootAddr, function_);
    var hartId := InterruptedHart(clusterId);
    bus.Write(Msip(hartId), 1);
    ghost var ws := OffloadWrites(function_, clusterId);
    assert ws[..1] == [ws[0]] && ws[..1][..0] == [];
    assert Commit(old(bus.regs), ws[..1]) == old(bus.regs)[BootAddr := function_];
  }

  predicate NonZero(v: Word) {
    v != 0
  }

  /** The value a spin on a return register takes: the first non-zero
      observation, or None while every observation is still 0. */
  function FirstNonZero(polls: seq<Word>): (v: Option<Word>)
    ensures v.Some? ==> v.value != 0 && v.value in polls
    ensures v.Some? ==> exists k | 0 <= k < |polls| :: polls[k] == v.value && forall j | 0 <= j < k :: polls[j] == 0
    ensures v.None? <==> forall j | 0 <= j < |polls| :: polls[j] == 0
  {
    match PollExit(polls, NonZero)
    case Some(k) => Some(polls[k])
    case None => None
  }

  /** The accesses a wait makes to its return register `r`: the observations
      the spin consumed, then, once a value was seen, a second read that
      returns `after` and the clearing store. */
  function WaitAccesses(r: SocReg, polls: seq<Word>, after: Word): seq<Access<SocReg>>
    requires |polls| > 0
  {
    var exit := PollExit(polls, NonZero);
    Changes(r, polls[..Consumed(exit, |polls|)]) + (if exit.Some? then [Change(r, after), Store(r, 0)] else [])
  }

  /** The read after the spin, returning `after`, and the clearing store;
      `done` are the accesses since `log`. */
  method ReadAndClear(bus: RegisterFile<SocReg>, r: SocReg, after: Word,
                      ghost log: seq<Access<SocReg>>, ghost done: seq<Access<SocReg>>)
    returns (v: Word)
    requires bus.Valid() && bus.trace == log + done
    modifies bus
    ensures v == after
    ensures bus.Valid() && bus.origin == old(bus.origin)
    ensures bus.regs == old(bus.regs)[r := 0]
    ensures bus.trace == log + (done + [Change(r, after), Store(r, 0)])
  {
    bus.Observe(r, after);
    v := bus.Read(r);
    bus.Write(r, 0);
    AppendRun(log, done, [Change(r, after), Store(r, 0)]);
  }

  /** Busy-waits on the return register of `clusterId`, whose successive
      reads return `polls`; once a non-zero value is seen the register is
      read again, that second read returning `after`, and cleared, and the
      second read is returned. None: still spinning when the observations
      end. */
  method WaitForCluster(bus: RegisterFile<SocReg>, clusterId: Byte, polls: seq<Word>, after: Word)
    returns (retVal: Option<Word>)
    requires bus.Valid() && |polls| > 0
    requires clusterId < ReturnSlots
    modifies bus
    ensures bus.Valid() && bus.origin == old(bus.origin)
    ensures retVal.Some? <==> FirstNonZero(polls).Some?
    ensures retVal.Some? ==> retVal.value == after
    ensures bus.regs == old(bus.regs)[ClusterReturn(clusterId + 1) :=
              if retVal.Some? then 0 else polls[|polls| - 1]]
    ensures bus.trace == old(bus.trace) + WaitAccesses(ClusterReturn(clusterId + 1), polls, after)
  {
    ghost var log := bus.trace;
    var r: SocReg;
    match PolledSlot(clusterId)
    case Some(slot) => r := ClusterReturn(slot);
    var exit := bus.Poll(r, polls, NonZero);
    ghost var spin := Changes(r, polls[..Consumed(exit, |polls|)]);
    if exit.Some? {
      var v := ReadAndClear(bus, r, after, log, spin);
      retVal := Some(v);
    } else {
      assert spin + [] == spin;
      retVal := None;
    }
  }
}
