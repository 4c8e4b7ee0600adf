/** A register file shared by every driver of the model: a map from register
    name to 32-bit word that the drivers update in place, together with the
    sequence of accesses it has seen. Volatile reads of hardware-owned
    registers (busy flags, task counters, a mailbox written by the other side)
    are supplied as explicit sequences of observed values. */
module Registers {

  /** A 32-bit register, bus word or pointer. */
  type Word = bv32

  /** C `uint8_t`. */
  type Byte = x: nat | x < 0x100

  /** C `uint32_t` / `size_t` on the 32-bit cores, as a number. */
  type Uint32 = x: nat | x < 0x1_0000_0000

  /** `x | mask`: every bit of `mask` set, every other bit as in `x`. */
  function SetBits(x: Word, mask: Word): (r: Word)
    ensures r & mask == mask
    ensures r & !mask == x & !mask
  {
    x | mask
  }

  /** `x & ~mask`: every bit of `mask` cleared, every other bit as in `x`. */
  function ClearBits(x: Word, mask: Word): (r: Word)
    ensures r & mask == 0
    ensures r & !mask == x & !mask
  {
    x & !mask
  }

  /** Setting bits after clearing them is setting them. */
  lemma SetAfterClear(x: Word, mask: Word)
    ensures SetBits(ClearBits(x, mask), mask) == SetBits(x, mask)
  {
    assert (x & !mask) | mask == x | mask;
  }

  /** The same 32 bits as a word. */
  function ToWord(x: Uint32): Word {
    x as Word
  }

  datatype Option<T> = None | Some(value: T)

  /** One access a register file sees: a store issued by software on this
      bus, or a change made by the hardware (or by the other side of a
      mailbox) that a volatile read observes. */
  datatype Access<R> = Store(reg: R, value: Word) | Change(reg: R, value: Word)

  /** A register that was never written reads as 0. */
  function Value<R(==)>(m: map<R, Word>, r: R): Word {
    if r in m then m[r] else 0
  }

  /** The register contents after the accesses `ws`, applied in order, to `m`. */
  function Commit<R(==)>(m: map<R, Word>, ws: seq<Access<R>>): map<R, Word>
    decreases |ws|
  {
    if |ws| == 0 then m
    else
      var w := ws[|ws| - 1];
      Commit(m, ws[..|ws| - 1])[w.reg := w.value]
  }

  /** Some access in `ws` targets register `r`. */
  predicate Touches<R(==)>(ws: seq<Access<R>>, r: R) {
    exists q | 0 <= q < |ws| :: ws[q].reg == r
  }

  /** Applying two runs of accesses one after the other is applying their concatenation. */
  lemma {:induction false} CommitConcat<R>(m: map<R, Word>, a: seq<Access<R>>, b: seq<Access<R>>)
    ensures Commit(m, a + b) == Commit(Commit(m, a), b)
  {
    if |b| == 0 {
      assert a + b == a;
    } else {
      assert (a + b)[..|a + b| - 1] == a + b[..|b| - 1];
      CommitConcat(m, a, b[..|b| - 1]);
    }
  }

  /** A register no access targets keeps its value. */
  lemma {:induction false} CommitUntouched<R>(m: map<R, Word>, ws: seq<Access<R>>, r: R)
    requires !Touches(ws, r)
    ensures Value(Commit(m, ws), r) == Value(m, r)
  {
    if |ws| > 0 {
      var init := ws[..|ws| - 1];
      assert !Touches(init, r) by {
        forall q | 0 <= q < |init| ensures init[q].reg != r {
          assert init[q] == ws[q];
        }
      }
      CommitUntouched(m, init, r);
    }
  }

  /** The last access to a register decides its value. */
  lemma CommitLast<R>(m: map<R, Word>, a: seq<Access<R>>, w: Access<R>, b: seq<Access<R>>)
    requires !Touches(b, w.reg)
    ensures Value(Commit(m, a + [w] + b), w.reg) == w.value
  {
    CommitConcat(m, a + [w], b);
    CommitUntouched(Commit(m, a + [w]), b, w.reg);
    assert (a + [w])[..|a + [w]| - 1] == a;
  }

  /** The value of the access at position `p` is what the register holds
      afterwards when no later access targets the same register. */
  lemma CommitAt<R>(m: map<R, Word>, ws: seq<Access<R>>, p: nat)
    requires p < |ws|
    requires forall q | p < q < |ws| :: ws[q].reg != ws[p].reg
    ensures Value(Commit(m, ws), ws[p].reg) == ws[p].value
  {
    var b := ws[p + 1..];
    assert ws == ws[..p] + [ws[p]] + b;
    assert !Touches(b, ws[p].reg) by {
      forall q | 0 <= q < |b| ensures b[q].reg != ws[p].reg {
        assert b[q] == ws[p + 1 + q];
      }
    }
    CommitLast(m, ws[..p], ws[p], b);
  }

  /** The value of the last access to `r` in `ws`, if there is one. */
  function LastWrite<R(==)>(ws: seq<Access<R>>, r: R): (v: Option<Word>)
    ensures v.None? <==> !Touches(ws, r)
    decreases |ws|
  {
    if |ws| == 0 then None
    else if ws[|ws| - 1].reg == r then Some(ws[|ws| - 1].value)
    else
      var init := ws[..|ws| - 1];
      assert forall q | 0 <= q < |init| :: init[q] == ws[q];
      LastWrite(init, r)
  }

  /** What `r` holds after the accesses `ws` starting from `m`. */
  function After<R(==)>(m: map<R, Word>, ws: seq<Access<R>>, r: R): Word {
    match LastWrite(ws, r)
    case Some(v) => v
    case None => Value(m, r)
  }

  /** A register holds the value of its last access, or its old value when untouched. */
  lemma {:induction false} CommitAfter<R>(m: map<R, Word>, ws: seq<Access<R>>, r: R)
    ensures Value(Commit(m, ws), r) == After(m, ws, r)
    decreases |ws|
  {
    if |ws| > 0 {
      CommitAfter(m, ws[..|ws| - 1], r);
    }
  }

  /** Of two runs of accesses, the later one decides where it touches the register. */
  function Later(first: Option<Word>, second: Option<Word>): Option<Word> {
    if second.Some? then second else first
  }

  /** The last access to `r` in a concatenation is in the second part when it touches `r`. */
  lemma {:induction false} LastWriteConcat<R>(a: seq<Access<R>>, b: seq<Access<R>>, r: R)
    ensures LastWrite(a + b, r) == Later(LastWrite(a, r), LastWrite(b, r))
    decreases |b|
  {
    if |b| == 0 {
      assert a + b == a;
    } else {
      assert (a + b)[..|a + b| - 1] == a + b[..|b| - 1];
      LastWriteConcat(a, b[..|b| - 1], r);
    }
  }

  /** One more access decides the register it targets. */
  lemma LastWriteSnoc<R>(a: seq<Access<R>>, w: Access<R>, r: R)
    ensures LastWrite(a + [w], r) == if w.reg == r then Some(w.value) else LastWrite(a, r)
  {
    assert (a + [w])[..|a|] == a;
  }

  /** A run of a single access. */
  lemma LastWriteSingle<R>(w: Access<R>, r: R)
    ensures LastWrite([w], r) == if w.reg == r then Some(w.value) else None
  {
    assert [w][..0] == [];
  }

  /** Appending one more run to a log already extended by `done`. */
  lemma AppendRun<T>(log: seq<T>, done: seq<T>, run: seq<T>)
    ensures (log + done) + run == log + (done + run)
  {
  }

  /** The access at `p` is the last to its register when no later one targets it. */
  lemma {:induction false} LastWriteAt<R>(ws: seq<Access<R>>, p: nat)
    requires p < |ws|
    requires forall q | p < q < |ws| :: ws[q].reg != ws[p].reg
    ensures LastWrite(ws, ws[p].reg) == Some(ws[p].value)
    decreases |ws|
  {
    if p < |ws| - 1 {
      var init := ws[..|ws| - 1];
      assert init[p] == ws[p];
      LastWriteAt(init, p);
    }
  }

  /** The index at which a spin loop over the observed values `polls` exits:
      the first observation satisfying `stop`, or None when every
      observation keeps the loop spinning. */
  function PollExit<T>(polls: seq<T>, stop: T -> bool): (k: Option<nat>)
    ensures k.Some? ==> k.value < |polls| && stop(polls[k.value])
    ensures k.Some? ==> forall j | 0 <= j < k.value :: !stop(polls[j])
    ensures k.None? <==> forall j | 0 <= j < |polls| :: !stop(polls[j])
  {
    if |polls| == 0 then None
    else if stop(polls[0]) then Some(0)
    else
      match PollExit(polls[1..], stop)
      case Some(k) => Some(k + 1)
      case None => None
  }

  /** The first observation satisfying `stop` is where the loop exits. */
  lemma PollExitIsFirst<T>(polls: seq<T>, stop: T -> bool, k: nat)
    requires k < |polls| && stop(polls[k])
    requires forall j | 0 <= j < k :: !stop(polls[j])
    ensures PollExit(polls, stop) == Some(k)
  {
  }

  /** A spin loop that has passed over `k` observations without stopping and
      stops at observation `k`, or runs out of observations there, exits as
      `PollExit` says. */
  lemma PollLoopExit<T>(polls: seq<T>, stop: T -> bool, k: nat)
    requires k < |polls|
    requires forall j | 0 <= j < k :: !stop(polls[j])
    requires stop(polls[k]) || k + 1 == |polls|
    ensures PollExit(polls, stop) == if stop(polls[k]) then Some(k) else None
  {
    if stop(polls[k]) {
      PollExitIsFirst(polls, stop, k);
    } else {
      assert forall j | 0 <= j < |polls| :: !stop(polls[j]);
    }
  }

  /** How many observations a spin loop with this exit has consumed. */
  function Consumed(exit: Option<nat>, available: nat): nat {
    match exit
    case Some(k) => k + 1
    case None => available
  }

  /** The hardware changes `r` to each of `vals` in turn. */
  function Changes<R>(r: R, vals: seq<Word>): (ws: seq<Access<R>>)
    ensures |ws| == |vals|
    decreases |vals|
  {
    if |vals| == 0 then [] else Changes(r, vals[..|vals| - 1]) + [Change(r, vals[|vals| - 1])]
  }

  /** Observing one more value extends a log of changes by that change. */
  lemma ChangesSnoc<R>(log: seq<Access<R>>, r: R, vals: seq<Word>, k: nat)
    requires k < |vals|
    ensures log + Changes(r, vals[..k + 1]) == (log + Changes(r, vals[..k])) + [Change(r, vals[k])]
  {
    assert vals[..k + 1][..k] == vals[..k];
  }

  /** After a run of changes to one register, it holds the last value seen. */
  lemma {:induction false} CommitChanges<R>(m: map<R, Word>, r: R, vals: seq<Word>)
    requires |vals| > 0
    ensures Commit(m, Changes(r, vals)) == m[r := vals[|vals| - 1]]
    decreases |vals|
  {
    var ws := Changes(r, vals);
    assert ws[..|ws| - 1] == Changes(r, vals[..|vals| - 1]);
    if |vals| > 1 {
      CommitChanges(m, r, vals[..|vals| - 1]);
    }
  }

  /** Low 32 bits of a 64-bit address. */
  function Lo32(a: bv64): (lo: Word)
    ensures lo as bv64 == a & 0xFFFF_FFFF
  {
    (a & 0xFFFF_FFFF) as bv32
  }

  /** High 32 bits of a 64-bit address; with the low half it rebuilds the address. */
  function Hi32(a: bv64): (hi: Word)
    ensures (hi as bv64 << 32) | (Lo32(a) as bv64) == a
  {
    (a >> 32) as bv32
  }

  /** A register file: the contents of a bank of registers, and every access made to it. */
  class RegisterFile<R(==)> {
    /** The contents before the first recorded access. */
    ghost var origin: map<R, Word>
    var regs: map<R, Word>
    var trace: seq<Access<R>>

    ghost predicate Valid()
      reads this
    {
      regs == Commit(origin, trace)
    }

    constructor (contents: map<R, Word>)
      ensures Valid() && regs == contents && trace == []
    {
      origin := contents;
      regs := contents;
      trace := [];
    }

    /** A volatile read. */
    function Read(r: R): Word
      reads this
    {
      Value(regs, r)
    }

    /** A volatile store issued by software. */
    method Write(r: R, v: Word)
      requires Valid()
      modifies this
      ensures Valid() && origin == old(origin)
      ensures regs == old(regs)[r := v]
      ensures trace == old(trace) + [Store(r, v)]
    {
      regs := regs[r := v];
      trace := trace + [Store(r, v)];
      assert trace[..|trace| - 1] == old(trace);
    }

    /** The hardware, or the other side of a mailbox, sets `r` to `v`. */
    method Observe(r: R, v: Word)
      requires Valid()
      modifies this
      ensures Valid() && origin == old(origin)
      ensures regs == old(regs)[r := v]
      ensures trace == old(trace) + [Change(r, v)]
    {
      regs := regs[r := v];
      trace := trace + [Change(r, v)];
      assert trace[..|trace| - 1] == old(trace);
    }

    /** A straight-line run of stores issued in the order given. */
    method StoreAll(ws: seq<Access<R>>)
      requires Valid()
      requires forall i | 0 <= i < |ws| :: ws[i].Store?
      modifies this
      ensures Valid() && origin == old(origin)
      ensures regs == Commit(old(regs), ws)
      ensures trace == old(trace) + ws
    {
      var i := 0;
      while i < |ws|
        invariant 0 <= i <= |ws|
        invariant Valid() && origin == old(origin)
        invariant regs == Commit(old(regs), ws[..i])
        invariant trace == old(trace) + ws[..i]
      {
        Write(ws[i].reg, ws[i].value);
        assert ws[..i + 1][..i] == ws[..i];
        assert ws[..i + 1] == ws[..i] + [ws[i]];
        i := i + 1;
      }
      assert ws[..i] == ws;
    }

    /** One store of a run: `done` are the stores of the run issued since `log`. */
    method WriteNext(r: R, v: Word, ghost log: seq<Access<R>>, ghost done: seq<Access<R>>)
      requires Valid() && trace == log + done
      modifies this
      ensures Valid() && origin == old(origin)
      ensures trace == log + (done + [Store(r, v)])
    {
      Write(r, v);
      AppendRun(log, done, [Store(r, v)]);
    }

    /** One read of a spin loop: it returns observation `k`, the next in `polls`. */
    method ObserveNext(r: R, polls: seq<Word>, k: nat, ghost log: seq<Access<R>>) returns (v: Word)
      requires Valid() && k < |polls|
      requires trace == log + Changes(r, polls[..k])
      modifies this
      ensures Valid() && origin == old(origin)
      ensures v == polls[k]
      ensures trace == log + Changes(r, polls[..k + 1])
    {
      Observe(r, polls[k]);
      ChangesSnoc(log, r, polls, k);
      v := Read(r);
    }

    /** Re-reads `r`, whose successive values are `polls`, while `stop` does
        not hold and observations remain; `k` is the last observation read. */
    method Spin(r: R, polls: seq<Word>, stop: Word -> bool) returns (k: nat)
      requires Valid() && |polls| > 0
      modifies this
      ensures k < |polls|
      ensures forall j | 0 <= j < k :: !stop(polls[j])
      ensures stop(polls[k]) || k + 1 == |polls|
      ensures Valid() && origin == old(origin)
      ensures trace == old(trace) + Changes(r, polls[..k + 1])
    {
      k := 0;
      assert old(trace) + Changes(r, polls[..0]) == old(trace);
      var v := ObserveNext(r, polls, 0, old(trace));
      while !stop(v) && k + 1 < |polls|
        invariant 0 <= k < |polls| && v == polls[k]
        invariant Valid() && origin == old(origin)
        invariant forall j | 0 <= j < k :: !stop(polls[j])
        invariant trace == old(trace) + Changes(r, polls[..k + 1])
      {
        k := k + 1;
        v := ObserveNext(r, polls, k, old(trace));
      }
    }

    /** A spin loop re-reading `r` while `stop` does not hold of its value;
        `polls` are the values the successive reads return. */
    method Poll(r: R, polls: seq<Word>, stop: Word -> bool) returns (exit: Option<nat>)
      requires Valid() && |polls| > 0
      modifies this
      ensures Valid() && origin == old(origin)
      ensures exit == PollExit(polls, stop)
      ensures exit.Some? ==> stop(Read(r))
      ensures 0 < Consumed(exit, |polls|) <= |polls|
      ensures regs == old(regs)[r := polls[Consumed(exit, |polls|) - 1]]
      ensures trace == old(trace) + Changes(r, polls[..Consumed(exit, |polls|)])
    {
      var k := Spin(r, polls, stop);
      exit := if stop(polls[k]) then Some(k) else None;
      PollLoopExit(polls, stop, k);
      CommitConcat(origin, old(trace), Changes(r, polls[..k + 1]));
      CommitChanges(old(regs), r, polls[..k + 1]);
    }
  }

  /** A valid register file whose log grew by `ws` since `log` holds `ws`
      applied to what it held at that point. */
  lemma CommitLog<R>(rf: RegisterFile<R>, log: seq<Access<R>>, ws: seq<Access<R>>)
    requires rf.Valid() && rf.trace == log + ws
    ensures rf.regs == Commit(Commit(rf.origin, log), ws)
  {
    CommitConcat(rf.origin, log, ws);
  }
}
