/** The offload mailbox as a whole: the host and a worker core agree on the
    return register through two independent tables, the host's cluster-to-hart
    arithmetic with its if-chain over cluster ids, and the worker's switch
    over hart ids. */
module OffloadProtocol {
  import opened Registers
  import opened SocCtrl
  import opened Offload
  import opened SnitchStartup

  /** The hart the host interrupts for cluster `clusterId` writes exactly the
      return register the host then polls; for an id above 4 neither side
      has a register (and, as nine is invertible modulo 256, no truncated
      hart id of a larger cluster lands on a slot by accident). */
  lemma {:induction false} HartReachesPolledSlot(clusterId: Byte)
    ensures ReturnSlot(HartByte(InterruptedHart(clusterId))) == PolledSlot(clusterId)
  {
    var h := InterruptedHart(clusterId);
    var q := h / 0x100;
    assert h == 0x100 * q + HartByte(h);
    assert q <= 8;
    if ReturnSlot(HartByte(h)).Some? {
      var j := HartByte(h) / 9;
      assert HartByte(h) == 9 * j + 1 && j <= 4;
      assert 9 * (clusterId - j) == 0x100 * q;
      assert q == 0;
    }
  }

  /** One complete offload: the host hands `function_` to cluster `clusterId`,
      the interrupted core finishes with `ret`, and the host's wait, whose
      reads all see the register the worker wrote once, collects the
      reported value and leaves the mailbox cleared for the next offload. */
  method OffloadRoundTrip(bus: RegisterFile<SocReg>, function_: Word, clusterId: Byte, ret: Word)
    returns (result: Option<Word>)
    requires bus.Valid() && clusterId < ReturnSlots
    modifies bus
    ensures bus.Valid() && bus.origin == old(bus.origin)
    ensures result == Some(ReturnValue(ret))
    ensures bus.Read(BootAddr) == function_
    ensures bus.Read(Msip(InterruptedHart(clusterId))) == 1
    ensures bus.Read(SocReg.ClusterReturn(clusterId + 1)) == 0
    ensures forall r | r != BootAddr && r != Msip(InterruptedHart(clusterId))
                    && r != SocReg.ClusterReturn(clusterId + 1) ::
              bus.Read(r) == old(bus.Read(r))
  {
    ghost var m0 := bus.regs;
    OffloadToCluster(bus, function_, clusterId);
    ghost var m1 := bus.regs;
    var hart := InterruptedHart(clusterId);
    SnitchStartup.ClusterReturn(bus, hart, ret);
    ghost var m2 := bus.regs;
    var slotReg := SocReg.ClusterReturn(clusterId + 1);
    HartReachesPolledSlot(clusterId);
    ReturnEffect(m1, hart, ret, slotReg);
    var seen := bus.Read(slotReg);
    result := WaitForCluster(bus, clusterId, [seen], seen);
    assert PollExit([seen], NonZero) == Some(0);
    forall r | r != BootAddr && r != Msip(InterruptedHart(clusterId)) && r != slotReg
      ensures bus.Read(r) == Value(m0, r)
    {
      OffloadEffect(m0, function_, clusterId, r);
      ReturnEffect(m1, hart, ret, r);
    }
    OffloadEffect(m0, function_, clusterId, BootAddr);
    ReturnEffect(m1, hart, ret, BootAddr);
    OffloadEffect(m0, function_, clusterId, Msip(hart));
    ReturnEffect(m1, hart, ret, Msip(hart));
  }

  /** The memory-bypass test: cluster 1 reports TESTVAL = 0x050CCE55, which
      is odd, so the host collects 0x050CCE55 itself and the test's
      comparison with TESTVAL | 1 succeeds. */
  method MemBypassRoundTrip(bus: RegisterFile<SocReg>, function_: Word) returns (result: Option<Word>)
    requires bus.Valid()
    modifies bus
    ensures result == Some(0x050CCE55)
  {
    result := OffloadRoundTrip(bus, function_, 1, 0x050CCE55);
    OddReturnUnchanged(0x050CCE55);
  }

  /** Two offloads to the same cluster, one after the other: because the
      first wait clears the return register, each wait collects its own
      worker's result, and the host combines them as `gemmx << 16 | xdma`. */
  method BackToBackOffloads(bus: RegisterFile<SocReg>, gemmxTest: Word, xdmaTest: Word,
                            gemmxRet: Word, xdmaRet: Word)
    returns (first: Option<Word>, second: Option<Word>, combined: Word)
    requires bus.Valid()
    modifies bus
    ensures first == Some(ReturnValue(gemmxRet)) && second == Some(ReturnValue(xdmaRet))
    ensures combined == (ReturnValue(gemmxRet) << 16) | ReturnValue(xdmaRet)
    ensures bus.Read(SocReg.ClusterReturn(4)) == 0
  {
    first := OffloadRoundTrip(bus, gemmxTest, 3, gemmxRet);
    second := OffloadRoundTrip(bus, xdmaTest, 3, xdmaRet);
    combined := (first.value << 16) | second.value;
  }
}
