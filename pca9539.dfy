/** The PCA9539 16-bit I2C port expander as the battery application drives it
    (src/battery/main_rp.py, class PCA9539Controller). The SMBus itself is not
    modelled: every bus operation the controller attempts is appended to its
    `ops` log, and how the bus answers is a script of replies, one per operation
    position, where a `Fault` stands for the exception smbus2 would raise. */
module Pca9539 {
  import opened Base

  const I2C_BUS_NO: int := 1
  const PCA9539_ADDR: int := 0x74

  // Register numbers.
  const REG_OUT0: int := 0x02
  const REG_OUT1: int := 0x03
  const REG_POL0: int := 0x04
  const REG_POL1: int := 0x05
  const REG_CFG0: int := 0x06
  const REG_CFG1: int := 0x07

  /** One operation attempted on the I2C bus. */
  datatype BusOp = OpenBus | Write(reg: int, value: byte) | Read(reg: int) | CloseBus

  /** How the bus answers one operation: it completes (a read returns `value`,
      which other operations ignore), or it raises. */
  datatype Reply = Done(value: byte) | Fault

  /** The position of the first failing reply, or |rs| when every reply completes. */
  function FirstFault(rs: seq<Reply>): (k: nat)
    ensures k <= |rs|
    ensures k < |rs| ==> rs[k].Fault?
    ensures forall i :: 0 <= i < k ==> rs[i].Done?
  {
    if rs == [] then 0 else if rs[0].Fault? then 0 else 1 + FirstFault(rs[1..])
  }

  /** Every one of the first n replies completes. */
  ghost predicate DoneUpTo(rs: seq<Reply>, n: nat)
    requires n <= |rs|
  {
    forall i :: 0 <= i < n ==> rs[i].Done?
  }

  /** Every operation of the plan completes. */
  predicate Completes(plan: seq<BusOp>, rs: seq<Reply>)
    requires |plan| <= |rs|
  {
    FirstFault(rs[..|plan|]) == |plan|
  }

  /** The operations of a straight-line plan that are attempted before the first
      exception ends it: everything up to and including the failing one. */
  function Attempted(plan: seq<BusOp>, rs: seq<Reply>): (ops: seq<BusOp>)
    requires |plan| <= |rs|
    ensures ops <= plan
    ensures ops == plan <==> Completes(plan, rs) || FirstFault(rs[..|plan|]) + 1 == |plan|
  {
    plan[..Min(FirstFault(rs[..|plan|]) + 1, |plan|)]
  }

  /** FirstFault is pinned down by its contract. */
  lemma FirstFaultIs(rs: seq<Reply>, k: nat)
    requires k <= |rs| && DoneUpTo(rs, k) && (k < |rs| ==> rs[k].Fault?)
    ensures FirstFault(rs) == k
  {
  }

  /** The trace of a plan is fixed by the first failing position: when steps
      0..j-1 complete and step j fails, exactly steps 0..j are attempted. */
  lemma AttemptedFailingAt(plan: seq<BusOp>, rs: seq<Reply>, j: nat)
    requires j < |plan| <= |rs|
    requires DoneUpTo(rs, j) && rs[j].Fault?
    ensures Attempted(plan, rs) == plan[..j + 1]
    ensures !Completes(plan, rs)
  {
    FirstFaultIs(rs[..|plan|], j);
  }

  /** When every step completes, the whole plan is attempted. */
  lemma AttemptedAll(plan: seq<BusOp>, rs: seq<Reply>)
    requires |plan| <= |rs| && DoneUpTo(rs, |plan|)
    ensures Completes(plan, rs) && Attempted(plan, rs) == plan
  {
    FirstFaultIs(rs[..|plan|], |plan|);
  }

  /** A plan that completes exactly when all its replies are Done. */
  lemma CompletesIsDone(plan: seq<BusOp>, rs: seq<Reply>)
    requires |plan| <= |rs|
    ensures Completes(plan, rs) <==> DoneUpTo(rs, |plan|)
  {
    if DoneUpTo(rs, |plan|) {
      AttemptedAll(plan, rs);
    }
  }

  /** A plan run as two parts: when the first part stops early, so does the whole. */
  lemma AttemptedStops(p: seq<BusOp>, q: seq<BusOp>, rs: seq<Reply>)
    requires |p| + |q| <= |rs| && !Completes(p, rs)
    ensures Attempted(p + q, rs) == Attempted(p, rs)
    ensures !Completes(p + q, rs)
  {
    var k := FirstFault(rs[..|p|]);
    assert rs[..|p|][k] == rs[k];
    FirstFaultIs(rs[..|p + q|], k);
    assert (p + q)[..k + 1] == p[..k + 1];
  }

  /** A plan run as two parts: when the first part completes, the second runs on
      the replies that follow it. */
  lemma AttemptedGoesOn(p: seq<BusOp>, q: seq<BusOp>, rs: seq<Reply>)
    requires |p| + |q| <= |rs| && Completes(p, rs)
    ensures Attempted(p + q, rs) == p + Attempted(q, rs[|p|..])
    ensures Completes(p + q, rs) <==> Completes(q, rs[|p|..])
  {
    var rest := rs[|p|..];
    var k := FirstFault(rest[..|q|]);
    CompletesIsDone(p, rs);
    assert DoneUpTo(rest, k) by {
      forall i | 0 <= i < k ensures rest[i].Done? {
        assert rest[..|q|][i] == rest[i];
      }
    }
    assert DoneUpTo(rs, |p| + k) by {
      forall i | 0 <= i < |p| + k ensures rs[i].Done? {
        if i >= |p| {
          assert rs[i] == rest[i - |p|];
        }
      }
    }
    if k < |q| {
      assert rest[..|q|][k] == rest[k] == rs[|p| + k];
    }
    FirstFaultIs(rs[..|p + q|], |p| + k);
    assert (p + q)[..Min(|p| + k + 1, |p + q|)] == p + q[..Min(k + 1, |q|)];
  }

  /** A reply script answers every read of the plan with the value the plan wrote
      to that register earlier: the read-back check the source performs. */
  ghost predicate EchoesWrites(plan: seq<BusOp>, rs: seq<Reply>)
    requires |plan| <= |rs| && DoneUpTo(rs, |plan|)
  {
    forall i, j :: 0 <= i < j < |plan| && plan[i].Write? && plan[j] == Read(plan[i].reg) ==> rs[j].value == plan[i].value
  }

  // ---------------------------------------------------------------------------
  // init_device
  // ---------------------------------------------------------------------------

  /** Write two registers, then read both back: the shape of every block of
      init_device and of set_outputs_16. */
  function PairSteps(reg0: int, reg1: int, v0: byte, v1: byte): (plan: seq<BusOp>)
    ensures |plan| == 4
  {
    [Write(reg0, v0), Write(reg1, v1), Read(reg0), Read(reg1)]
  }

  const PolaritySteps: seq<BusOp> := PairSteps(REG_POL0, REG_POL1, 0x00, 0x00)
  const ConfigSteps: seq<BusOp> := PairSteps(REG_CFG0, REG_CFG1, 0x00, 0x00)
  const OutputsLowSteps: seq<BusOp> := PairSteps(REG_OUT0, REG_OUT1, 0x00, 0x00)

  /** The register operations of init_device after the bus is open: polarity,
      configuration and outputs, each pair written 0x00 and read back. */
  const InitSteps: seq<BusOp> := PolaritySteps + (ConfigSteps + OutputsLowSteps)

  /** The six read-backs of init_device (steps 2, 3, 6, 7, 10 and 11) all
      return 0x00. */
  ghost predicate InitReadsZero(rs: seq<Reply>)
    requires |rs| >= 12 && DoneUpTo(rs, 12)
  {
    && rs[2].value == 0x00 && rs[3].value == 0x00
    && rs[6].value == 0x00 && rs[7].value == 0x00
    && rs[10].value == 0x00 && rs[11].value == 0x00
  }

  /** The zero check of init_device is exactly "every register reads back what
      was written to it". */
  lemma InitCheckIsEcho(rs: seq<Reply>)
    requires |rs| >= 12 && DoneUpTo(rs, 12)
    ensures InitReadsZero(rs) <==> EchoesWrites(InitSteps, rs)
  {
    assert InitSteps == [
      Write(REG_POL0, 0x00), Write(REG_POL1, 0x00), Read(REG_POL0), Read(REG_POL1),
      Write(REG_CFG0, 0x00), Write(REG_CFG1, 0x00), Read(REG_CFG0), Read(REG_CFG1),
      Write(REG_OUT0, 0x00), Write(REG_OUT1, 0x00), Read(REG_OUT0), Read(REG_OUT1)];
    if InitReadsZero(rs) {
      forall i, j | 0 <= i < j < 12 && InitSteps[i].Write? && InitSteps[j] == Read(InitSteps[i].reg)
        ensures rs[j].value == InitSteps[i].value
      {
        assert InitSteps[j].Read?;
      }
    }
    if EchoesWrites(InitSteps, rs) {
      forall j | j in {2, 3, 6, 7, 10, 11}
        ensures rs[j].value == 0x00
      {
        assert InitSteps[j - 2].Write? && InitSteps[j] == Read(InitSteps[j - 2].reg);
      }
    }
  }

  /** Whether init_device reports success: the bus is (or gets) open, all twelve
      register operations complete, and all six read-backs are 0x00. Reply 0
      answers the open, replies 1..12 the register operations. */
  ghost predicate InitVerified(wasOpen: bool, io: seq<Reply>): (v: bool)
    requires |io| >= 13
    ensures v <==> (wasOpen || io[0].Done?) && Completes(InitSteps, io[1..]) && DoneUpTo(io[1..], 12)
                   && EchoesWrites(InitSteps, io[1..])
  {
    if (wasOpen || io[0].Done?) && Completes(InitSteps, io[1..]) && DoneUpTo(io[1..], 12) then
      InitCheckIsEcho(io[1..]);
      InitReadsZero(io[1..])
    else
      false
  }

  /** The bus operations init_device attempts. */
  function InitTrace(wasOpen: bool, io: seq<Reply>): seq<BusOp>
    requires |io| >= 13
  {
    if wasOpen then Attempted(InitSteps, io[1..])
    else if io[0].Fault? then [OpenBus]
    else [OpenBus] + Attempted(InitSteps, io[1..])
  }

  /** Once the bus is open, the trace of init_device is the open attempt (if
      one was made) followed by the register operations attempted. */
  lemma InitTraceFrom(before: seq<BusOp>, pre: seq<BusOp>, wasOpen: bool, io: seq<Reply>, now: seq<BusOp>)
    requires |io| >= 13 && (wasOpen || io[0].Done?)
    requires pre == before + (if wasOpen then [] else [OpenBus])
    requires now == pre + Attempted(InitSteps, io[1..])
    ensures now == before + InitTrace(wasOpen, io)
  {
    if !wasOpen {
      assert now == before + ([OpenBus] + Attempted(InitSteps, io[1..]));
    }
  }

  // ---------------------------------------------------------------------------
  // set_outputs_16 and shutdown_safe
  // ---------------------------------------------------------------------------

  /** Bank 0 of a 16-bit mask (mask & 0xFF). */
  function Out0(mask: int): (lo: byte)
    ensures 0 <= mask ==> mask == 256 * (mask / 256) + lo
  {
    mask % 256
  }

  /** Bank 1 of a 16-bit mask ((mask >> 8) & 0xFF; Dafny's division floors for
      a positive divisor, as Python's >> does). */
  function Out1(mask: int): (hi: byte)
    ensures 0 <= mask <= 0xFFFF ==> 256 * hi <= mask < 256 * hi + 256
  {
    (mask / 256) % 256
  }

  /** The two banks put back together give the mask, whenever it fits in 16 bits. */
  lemma SplitMask(mask: int)
    requires 0 <= mask <= 0xFFFF
    ensures Out0(mask) + 256 * Out1(mask) == mask
  {
    assert mask / 256 < 256;
  }

  /** For any int, the two banks are the low 16 bits of the mask. */
  lemma SplitMaskLow16(mask: int)
    ensures Out0(mask) + 256 * Out1(mask) == mask % 65536
  {
    var q := mask / 256;
    assert mask == 256 * q + Out0(mask);
    assert q == 256 * (q / 256) + Out1(mask);
    assert mask == 65536 * (q / 256) + (Out0(mask) + 256 * Out1(mask));
  }

  /** The operations of set_outputs_16 once its guard has passed. */
  function OutputSteps(mask: int): (plan: seq<BusOp>)
    ensures |plan| == 4
  {
    PairSteps(REG_OUT0, REG_OUT1, Out0(mask), Out1(mask))
  }

  /** set_outputs_16's verdict on a completed run: both banks read back as written. */
  lemma OutputCheckIsEcho(mask: int, rs: seq<Reply>)
    requires |rs| >= 4 && DoneUpTo(rs, 4)
    ensures (rs[2].value == Out0(mask) && rs[3].value == Out1(mask)) <==> EchoesWrites(OutputSteps(mask), rs)
  {
    var plan := OutputSteps(mask);
    if EchoesWrites(plan, rs) {
      assert plan[0].Write? && plan[2] == Read(plan[0].reg);
      assert plan[1].Write? && plan[3] == Read(plan[1].reg);
    }
  }

  /** The operations shutdown_safe attempts on an open bus: zero bank 0, zero
      bank 1 unless the first write raised, then close. */
  function ShutdownTrace(io: seq<Reply>): seq<BusOp>
    requires |io| >= 1
  {
    [Write(REG_OUT0, 0x00)] + (if io[0].Done? then [Write(REG_OUT1, 0x00)] else []) + [CloseBus]
  }

  // ---------------------------------------------------------------------------
  // The controller
  // ---------------------------------------------------------------------------

  class Pca9539Controller {
    const busNo: int
    const addr: int
    /** Whether `self.bus` holds an open SMBus. */
    var busOpen: bool
    var initialized: bool
    /** Every bus operation attempted, oldest first. */
    var ops: seq<BusOp>

    /** The device is only ever marked initialized while its bus is open. */
    predicate Valid()
      reads this
    {
      initialized ==> busOpen
    }

    constructor ()
      ensures Valid() && busNo == I2C_BUS_NO && addr == PCA9539_ADDR
      ensures !busOpen && !initialized && ops == []
    {
      busNo := I2C_BUS_NO;
      addr := PCA9539_ADDR;
      busOpen := false;
      initialized := false;
      ops := [];
    }

    /** open: a no-op when the bus is already open; otherwise one open attempt,
        after which the bus is open exactly when the attempt succeeded. */
    method Open(reply: Reply) returns (ok: bool)
      modifies this
      ensures initialized == old(initialized)
      ensures old(busOpen) ==> ok && busOpen && ops == old(ops)
      ensures !old(busOpen) ==> ok == busOpen == reply.Done? && ops == old(ops) + [OpenBus]
    {
      if !busOpen {
        ops := ops + [OpenBus];
        busOpen := reply.Done?;
      }
      ok := busOpen;
    }

    /** write_reg: fails without touching the bus when it is closed; otherwise
        writes the low byte of `value`. */
    method WriteReg(reg: int, value: int, reply: Reply) returns (ok: bool)
      modifies this
      ensures busOpen == old(busOpen) && initialized == old(initialized)
      ensures ok <==> busOpen && reply.Done?
      ensures ops == old(ops) + (if busOpen then [Write(reg, value % 256)] else [])
    {
      if !busOpen {
        return false;
      }
      ops := ops + [Write(reg, value % 256)];
      ok := reply.Done?;
    }

    /** read_reg: fails without touching the bus when it is closed; otherwise
        returns the byte the device answers. */
    method ReadReg(reg: int, reply: Reply) returns (ok: bool, value: byte)
      modifies this
      ensures busOpen == old(busOpen) && initialized == old(initialized)
      ensures ok <==> busOpen && reply.Done?
      ensures ok ==> value == reply.value
      ensures ops == old(ops) + (if busOpen then [Read(reg)] else [])
    {
      if !busOpen {
        return false, 0;
      }
      ops := ops + [Read(reg)];
      if reply.Fault? {
        return false, 0;
      }
      ok, value := true, reply.value;
    }

    /** Write v0 and v1 to two registers and read both back, stopping at the
        first exception. */
    method WritePairReadBack(reg0: int, reg1: int, v0: byte, v1: byte, rs: seq<Reply>)
      returns (ok: bool, r0: byte, r1: byte)
      requires busOpen && |rs| >= 4
      modifies this
      ensures busOpen && initialized == old(initialized)
      ensures ops == old(ops) + Attempted(PairSteps(reg0, reg1, v0, v1), rs)
      ensures ok <==> Completes(PairSteps(reg0, reg1, v0, v1), rs)
      ensures ok ==> r0 == rs[2].value && r1 == rs[3].value
    {
      var plan := PairSteps(reg0, reg1, v0, v1);
      ghost var start := ops;
      r0, r1 := 0, 0;
      ok := WriteReg(reg0, v0, rs[0]);
      if !ok { AttemptedFailingAt(plan, rs, 0); return; }
      ok := WriteReg(reg1, v1, rs[1]);
      if !ok { AttemptedFailingAt(plan, rs, 1); return; }
      ok, r0 := ReadReg(reg0, rs[2]);
      if !ok { AttemptedFailingAt(plan, rs, 2); return; }
      ok, r1 := ReadReg(reg1, rs[3]);
      if !ok { AttemptedFailingAt(plan, rs, 3); return; }
      assert ops == start + plan;
      AttemptedAll(plan, rs);
    }

    /** The register half of init_device, on an open bus: write and read back
        the polarity, configuration and output registers, stopping at the
        first exception. */
    method SetUpRegisters(rs: seq<Reply>) returns (ok: bool)
      requires busOpen && |rs| >= 12
      modifies this
      ensures busOpen && initialized == old(initialized)
      ensures ops == old(ops) + Attempted(InitSteps, rs)
      ensures ok <==> Completes(InitSteps, rs) && DoneUpTo(rs, 12) && InitReadsZero(rs)
    {
      var pol0, pol1, cfg0, cfg1, out0, out1: byte;
      ok, pol0, pol1 := WritePairReadBack(REG_POL0, REG_POL1, 0x00, 0x00, rs);
      if !ok {
        AttemptedStops(PolaritySteps, ConfigSteps + OutputsLowSteps, rs);
        return;
      }
      AttemptedGoesOn(PolaritySteps, ConfigSteps + OutputsLowSteps, rs);
      assert rs[4..][4..] == rs[8..];
      ok, cfg0, cfg1 := WritePairReadBack(REG_CFG0, REG_CFG1, 0x00, 0x00, rs[4..]);
      if !ok {
        AttemptedStops(ConfigSteps, OutputsLowSteps, rs[4..]);
        return;
      }
      AttemptedGoesOn(ConfigSteps, OutputsLowSteps, rs[4..]);
      ok, out0, out1 := WritePairReadBack(REG_OUT0, REG_OUT1, 0x00, 0x00, rs[8..]);
      if !ok {
        return;
      }
      CompletesIsDone(InitSteps, rs);
      ok := pol0 == 0x00 && pol1 == 0x00 && cfg0 == 0x00 && cfg1 == 0x00 && out0 == 0x00 && out1 == 0x00;
    }

    /** init_device: open, then set up the registers; any exception ends it
        with `initialized` false. */
    method InitDevice(io: seq<Reply>) returns (ok: bool)
      requires Valid() && |io| >= 13
      modifies this
      ensures Valid()
      ensures ok == initialized == InitVerified(old(busOpen), io)
      ensures busOpen == (old(busOpen) || io[0].Done?)
      ensures ops == old(ops) + InitTrace(old(busOpen), io)
    {
      ok := Open(io[0]);
      if !ok {
        initialized := false;
        return;
      }
      ghost var pre := ops;
      ok := SetUpRegisters(io[1..]);
      InitTraceFrom(old(ops), pre, old(busOpen), io, ops);
      initialized := ok;
    }

    /** set_outputs_16: refuses, touching nothing, unless the bus is open and the
        device initialized; otherwise writes both banks and reads them back.
        Reply k answers step k of OutputSteps(mask). */
    method SetOutputs16(mask: int, io: seq<Reply>) returns (ok: bool)
      requires |io| >= 4
      modifies this
      ensures busOpen == old(busOpen) && initialized == old(initialized)
      ensures !old(busOpen) || !old(initialized) ==> !ok && ops == old(ops)
      ensures old(busOpen) && old(initialized) ==> ops == old(ops) + Attempted(OutputSteps(mask), io)
      ensures ok <==> old(busOpen) && old(initialized) && Completes(OutputSteps(mask), io)
                      && io[2].value == Out0(mask) && io[3].value == Out1(mask)
      ensures ok ==> io[2].value + 256 * io[3].value == mask % 65536
    {
      if !busOpen || !initialized {
        return false;
      }
      var out0 := mask % 256;
      var out1 := (mask / 256) % 256;
      var r0, r1: byte;
      ok, r0, r1 := WritePairReadBack(REG_OUT0, REG_OUT1, out0, out1, io);
      if ok {
        ok := r0 == out0 && r1 == out1;
        SplitMaskLow16(mask);
      }
    }

    /** shutdown_safe: best-effort teardown. On an open bus it zeroes both banks
        (stopping at the first failing write) and closes the bus; whatever fails,
        it ends with no bus and the device not initialized. Reply 0 and 1 answer
        the two writes; the outcome of the close does not matter. */
    method ShutdownSafe(io: seq<Reply>)
      requires |io| >= 2
      modifies this
      ensures Valid() && !busOpen && !initialized
      ensures old(busOpen) ==> ops == old(ops) + ShutdownTrace(io)
      ensures !old(busOpen) ==> ops == old(ops)
    {
      if busOpen {
        var ok := WriteReg(REG_OUT0, 0x00, io[0]);
        if ok {
          ok := WriteReg(REG_OUT1, 0x00, io[1]);
        }
        ops := ops + [CloseBus];
      }
      busOpen := false;
      initialized := false;
    }
  }
}
