/**
 * The driver's operations as functions of the device's reply script: for each
 * operation, the result, the transactions attempted and the replies left over.
 * The session's methods are proved equal to these; what the driver promises
 * (bus errors surface and are not retried, a timeout means an exhausted poll, the
 * transaction order of each operation) is proved about them here.
 */
module Driver {
  import opened Bytes
  import opened Registers
  import opened Bus
  import opened Protocol

  /** A one-byte register read: done exactly when the next reply carries one byte. */
  function ReadByte(rs: seq<Reply>, reg: byte): (o: Outcome<byte>)
    ensures o.rest == RestReplies(rs)
    ensures o.result.Ok? <==> NextReply(rs).Ack? && |NextReply(rs).data| == 1
    ensures o.result.Ok? ==> o.result.value == NextReply(rs).data[0] && o.trace == [Read(reg, [o.result.value])]
    ensures o.result.Err? ==> o.result.error == BusError && o.trace == [FailedRead(reg, 1)]
  {
    var rd := ReadOutcome(rs, reg, 1);
    if rd.result.Ok? then
      assert rd.result.value == [rd.result.value[0]];
      Outcome(Ok(rd.result.value[0]), rd.trace, rd.rest)
    else
      Outcome(Err(BusError), rd.trace, rd.rest)
  }

  /**
   * Reading `reg` until some bit of `mask` is set (`awaitSet`) or all are clear
   * (`!awaitSet`), at most `k` times; the byte returned is the one that ended the wait.
   */
  function Poll(rs: seq<Reply>, reg: byte, mask: byte, awaitSet: bool, k: nat): Outcome<byte>
    decreases k
  {
    if k == 0 then
      Outcome(Err(Timeout), [], rs)
    else
      var rd := ReadByte(rs, reg);
      if rd.result.Err? || AnySet(rd.result.value, mask) == awaitSet then rd
      else Join(rd.trace, Poll(rd.rest, reg, mask, awaitSet, k - 1))
  }

  /** A poll makes at most `k` attempts and never reports a wrong device. */
  lemma {:induction false} PollBounded(rs: seq<Reply>, reg: byte, mask: byte, awaitSet: bool, k: nat)
    ensures var o := Poll(rs, reg, mask, awaitSet, k);
      |o.trace| <= k && (o.result.Err? ==> o.result.error != UnexpectedDevice)
  {
    var o := Poll(rs, reg, mask, awaitSet, k);
    if k > 0 {
      var rd := ReadByte(rs, reg);
      if rd.result.Ok? && AnySet(rd.result.value, mask) != awaitSet {
        assert o == Join(rd.trace, Poll(rd.rest, reg, mask, awaitSet, k - 1));
        PollBounded(rd.rest, reg, mask, awaitSet, k - 1);
      } else {
        assert o == rd;
      }
    }
  }

  /** Every attempt of a poll is a read. */
  lemma {:induction false} PollReadsOnly(rs: seq<Reply>, reg: byte, mask: byte, awaitSet: bool, k: nat)
    ensures Writes(Poll(rs, reg, mask, awaitSet, k).trace) == 0
  {
    var o := Poll(rs, reg, mask, awaitSet, k);
    if k > 0 {
      var rd := ReadByte(rs, reg);
      assert rd.trace[1..] == [];
      if rd.result.Ok? && AnySet(rd.result.value, mask) != awaitSet {
        var p := Poll(rd.rest, reg, mask, awaitSet, k - 1);
        assert o == Join(rd.trace, p);
        PollReadsOnly(rd.rest, reg, mask, awaitSet, k - 1);
        WritesCons(rd.trace[0], p.trace);
      } else {
        assert o == rd;
      }
    }
  }

  /** A poll reports BusError exactly when its last read was refused, and reads nothing after one. */
  lemma {:induction false} PollSurfaces(rs: seq<Reply>, reg: byte, mask: byte, awaitSet: bool, k: nat)
    ensures Surfaces(Poll(rs, reg, mask, awaitSet, k))
  {
    var o := Poll(rs, reg, mask, awaitSet, k);
    if k > 0 {
      var rd := ReadByte(rs, reg);
      if rd.result.Ok? && AnySet(rd.result.value, mask) != awaitSet {
        assert o == Join(rd.trace, Poll(rd.rest, reg, mask, awaitSet, k - 1));
        PollSurfaces(rd.rest, reg, mask, awaitSet, k - 1);
        JoinSurfaces(rd.trace, Poll(rd.rest, reg, mask, awaitSet, k - 1));
      } else {
        assert rd.trace[..0] == [];
      }
    }
  }

  /** A successful poll is a poll run within `k` reads, and returns the byte of its last read. */
  lemma {:induction false} PollDone(rs: seq<Reply>, reg: byte, mask: byte, awaitSet: bool, k: nat)
    ensures var o := Poll(rs, reg, mask, awaitSet, k);
      o.result.Ok? ==> PollRun(o.trace, reg, mask, awaitSet, k) && o.trace[|o.trace| - 1] == Read(reg, [o.result.value])
  {
    var o := Poll(rs, reg, mask, awaitSet, k);
    if k > 0 {
      var rd := ReadByte(rs, reg);
      if rd.result.Err? || AnySet(rd.result.value, mask) == awaitSet {
        assert o == rd && rd.trace[..0] == [];
      } else {
        var p := Poll(rd.rest, reg, mask, awaitSet, k - 1);
        assert o == Join(rd.trace, p);
        PollDone(rd.rest, reg, mask, awaitSet, k - 1);
        if p.result.Ok? {
          PollRunCons(rd.trace[0], p.trace, reg, mask, awaitSet, k - 1);
          assert o.trace[|o.trace| - 1] == p.trace[|p.trace| - 1];
        }
      }
    }
  }

  /** A poll ended by a refused read had seen only the old state before it. */
  lemma {:induction false} PollFailed(rs: seq<Reply>, reg: byte, mask: byte, awaitSet: bool, k: nat)
    ensures var o := Poll(rs, reg, mask, awaitSet, k);
      o.result == Err(BusError) ==> StillWaiting(o.trace[..|o.trace| - 1], reg, mask, awaitSet)
  {
    var o := Poll(rs, reg, mask, awaitSet, k);
    if k > 0 {
      var rd := ReadByte(rs, reg);
      if rd.result.Err? || AnySet(rd.result.value, mask) == awaitSet {
        assert o == rd && rd.trace[..0] == [];
      } else {
        var p := Poll(rd.rest, reg, mask, awaitSet, k - 1);
        assert o == Join(rd.trace, p);
        PollFailed(rd.rest, reg, mask, awaitSet, k - 1);
        if p.result == Err(BusError) {
          PollSurfaces(rd.rest, reg, mask, awaitSet, k - 1);
          WaitingBeforeCons(rd.trace[0], p.trace, reg, mask, awaitSet);
        }
      }
    }
  }

  /** A poll times out exactly when all `k` of its reads showed the old state. */
  lemma {:induction false} PollTimeout(rs: seq<Reply>, reg: byte, mask: byte, awaitSet: bool, k: nat)
    ensures var o := Poll(rs, reg, mask, awaitSet, k);
      o.result == Err(Timeout) <==> PollExhausted(o.trace, reg, mask, awaitSet, k)
  {
    var o := Poll(rs, reg, mask, awaitSet, k);
    if k > 0 {
      var rd := ReadByte(rs, reg);
      if rd.result.Ok? && AnySet(rd.result.value, mask) != awaitSet {
        var p := Poll(rd.rest, reg, mask, awaitSet, k - 1);
        assert o == Join(rd.trace, p);
        PollTimeout(rd.rest, reg, mask, awaitSet, k - 1);
        ExhaustedCons(rd.trace[0], p.trace, reg, mask, awaitSet, k);
      } else {
        assert rd.trace[..0] == [];
      }
    }
  }

  /** Everything proved about a poll, for its callers. */
  lemma PollFacts(rs: seq<Reply>, reg: byte, mask: byte, awaitSet: bool, k: nat)
    ensures var o := Poll(rs, reg, mask, awaitSet, k);
      |o.trace| <= k && Writes(o.trace) == 0 && Surfaces(o) &&
      (o.result.Err? ==> o.result.error != UnexpectedDevice) &&
      (o.result.Ok? ==> PollRun(o.trace, reg, mask, awaitSet, k) && o.trace[|o.trace| - 1] == Read(reg, [o.result.value])) &&
      (o.result == Err(Timeout) <==> PollExhausted(o.trace, reg, mask, awaitSet, k)) &&
      (o.result == Err(BusError) ==> StillWaiting(o.trace[..|o.trace| - 1], reg, mask, awaitSet))
  {
    PollBounded(rs, reg, mask, awaitSet, k);
    PollReadsOnly(rs, reg, mask, awaitSet, k);
    PollSurfaces(rs, reg, mask, awaitSet, k);
    PollDone(rs, reg, mask, awaitSet, k);
    PollFailed(rs, reg, mask, awaitSet, k);
    PollTimeout(rs, reg, mask, awaitSet, k);
  }

  /** The software reset of begin: write RST, then poll CTRL_REG1 until RST clears. */
  function Reset(rs: seq<Reply>, regs: RegisterMap, budget: nat): Outcome<()>
  {
    var w := WriteOutcome(rs, [regs.ctrlReg1, regs.rst]);
    if w.result.Err? then w
    else
      var p := Poll(w.rest, regs.ctrlReg1, regs.rst, false, budget);
      Join(w.trace, Outcome(Discard(p.result), p.trace, p.rest))
  }

  /** The reset surfaces bus errors; success is ResetDone; Timeout exactly when the RST poll ran out. */
  lemma ResetFacts(rs: seq<Reply>, regs: RegisterMap, budget: nat)
    ensures var o := Reset(rs, regs, budget);
      |o.trace| >= 1 && Surfaces(o) &&
      (o.result.Ok? ==> ResetDone(o.trace, regs, budget)) &&
      (o.result.Err? ==> o.result.error != UnexpectedDevice) &&
      (o.result == Err(Timeout) <==> ResetExhausted(o.trace, regs, budget))
  {
    var w := WriteOutcome(rs, [regs.ctrlReg1, regs.rst]);
    if w.result.Ok? {
      var p := Poll(w.rest, regs.ctrlReg1, regs.rst, false, budget);
      PollFacts(w.rest, regs.ctrlReg1, regs.rst, false, budget);
      JoinSurfaces(w.trace, Outcome(Discard(p.result), p.trace, p.rest));
      assert (w.trace + p.trace)[1..] == p.trace;
    }
  }

  /** The configuration writes of begin, in order, stopping at the first refused one. */
  function Configure(rs: seq<Reply>, regs: RegisterMap): Outcome<()>
  {
    var first := WriteOutcome(rs, [regs.ctrlReg1, CtrlConfig(regs)]);
    if first.result.Err? then first
    else Join(first.trace, WriteOutcome(first.rest, [regs.ptDataCfg, EventConfig(regs)]))
  }

  /**
   * Each attempt of the configuration carries the next configuration payload; success
   * means both writes were acknowledged; a refused write ends it with BusError.
   */
  lemma ConfigureFacts(rs: seq<Reply>, regs: RegisterMap)
    ensures var o := Configure(rs, regs);
      1 <= |o.trace| <= 2 && Surfaces(o) &&
      (forall i :: 0 <= i < |o.trace| ==>
        (o.trace[i].Write? || o.trace[i].FailedWrite?) && o.trace[i].payload == ConfigWrites(regs)[i].payload) &&
      (o.result.Ok? ==> o.trace == ConfigWrites(regs)) &&
      (o.result.Err? ==> o.result.error == BusError)
  {
    var first := WriteOutcome(rs, [regs.ctrlReg1, CtrlConfig(regs)]);
    if first.result.Ok? {
      var second := WriteOutcome(first.rest, [regs.ptDataCfg, EventConfig(regs)]);
      JoinSurfaces(first.trace, second);
    }
  }

  /** begin gets as far as configuring: the device is an MPL3115A2 and its reset completed. */
  predicate ReachesConfig(rs: seq<Reply>, regs: RegisterMap, budget: nat)
  {
    var id := ReadByte(rs, regs.whoAmI);
    id.result == Ok(DEVICE_ID) && Reset(id.rest, regs, budget).result.Ok?
  }

  /** begin: identity check, software reset and wait, then configuration. */
  function Init(rs: seq<Reply>, regs: RegisterMap, budget: nat): Outcome<()>
  {
    var id := ReadByte(rs, regs.whoAmI);
    if id.result.Err? then Outcome(Err(BusError), id.trace, id.rest)
    else if id.result.value != DEVICE_ID then Outcome(Err(UnexpectedDevice), id.trace, id.rest)
    else
      var reset := Reset(id.rest, regs, budget);
      if reset.result.Err? then Join(id.trace, reset)
      else Join(id.trace + reset.trace, Configure(reset.rest, regs))
  }

  /** begin reports BusError exactly when its last attempt was refused, and attempts nothing after one. */
  lemma InitSurfaces(rs: seq<Reply>, regs: RegisterMap, budget: nat)
    ensures Surfaces(Init(rs, regs, budget))
  {
    var id := ReadByte(rs, regs.whoAmI);
    if id.result.Ok? && id.result.value == DEVICE_ID {
      var reset := Reset(id.rest, regs, budget);
      ResetFacts(id.rest, regs, budget);
      JoinSurfaces(id.trace, reset);
      if reset.result.Ok? {
        ConfigureFacts(reset.rest, regs);
        OkNoFailure(reset);
        NoFailureAppend(id.trace, reset.trace);
        JoinSurfaces(id.trace + reset.trace, Configure(reset.rest, regs));
      }
    } else {
      assert id.trace[..0] == [];
    }
  }

  /**
   * begin succeeds only with the initialisation sequence on the bus, after a completed
   * reset; once the reset is done, only a bus error can stop it.
   */
  lemma InitDone(rs: seq<Reply>, regs: RegisterMap, budget: nat)
    ensures var o := Init(rs, regs, budget);
      (o.result.Ok? ==> InitSequence(o.trace, regs, budget) && ReachesConfig(rs, regs, budget)) &&
      (ReachesConfig(rs, regs, budget) ==> o.result.Ok? || o.result == Err(BusError))
  {
    var id := ReadByte(rs, regs.whoAmI);
    if id.result.Ok? && id.result.value == DEVICE_ID {
      var reset := Reset(id.rest, regs, budget);
      ResetFacts(id.rest, regs, budget);
      if reset.result.Ok? {
        var config := Configure(reset.rest, regs);
        ConfigureFacts(reset.rest, regs);
        if config.result.Ok? {
          InitSequenceFrom(reset.trace, config.trace, regs, budget);
        }
      }
    }
  }

  /** begin reports UnexpectedDevice exactly when its one transaction read a wrong identity byte. */
  lemma InitMismatch(rs: seq<Reply>, regs: RegisterMap, budget: nat)
    ensures var o := Init(rs, regs, budget);
      o.result == Err(UnexpectedDevice) <==> IdentityMismatch(o.trace, regs)
  {
    var id := ReadByte(rs, regs.whoAmI);
    if id.result.Ok? && id.result.value == DEVICE_ID {
      ResetFacts(id.rest, regs, budget);
    }
  }

  /** begin times out exactly when the reset was written and `budget` polls all showed RST set. */
  lemma InitTimeout(rs: seq<Reply>, regs: RegisterMap, budget: nat)
    ensures var o := Init(rs, regs, budget);
      o.result == Err(Timeout) <==> ResetTimedOut(o.trace, regs, budget)
  {
    var id := ReadByte(rs, regs.whoAmI);
    if id.result.Ok? && id.result.value == DEVICE_ID {
      var reset := Reset(id.rest, regs, budget);
      ResetFacts(id.rest, regs, budget);
      ResetTimedOutFrom(reset.trace, regs, budget);
      if reset.result.Ok? {
        var config := Configure(reset.rest, regs);
        ConfigureFacts(reset.rest, regs);
        LastOfAppend(id.trace + reset.trace, config.trace);
        if ResetTimedOut(id.trace + reset.trace + config.trace, regs, budget) {
          TimedOutEndsInRead(id.trace + reset.trace + config.trace, regs, budget);
        }
      }
    }
  }

  /** begin succeeds exactly when no attempt was refused, the identity matched and the reset poll did not run out. */
  lemma InitSucceeds(rs: seq<Reply>, regs: RegisterMap, budget: nat)
    ensures var o := Init(rs, regs, budget);
      o.result.Ok? <==> NoFailure(o.trace) && !IdentityMismatch(o.trace, regs) && !ResetTimedOut(o.trace, regs, budget)
  {
    var o := Init(rs, regs, budget);
    InitSurfaces(rs, regs, budget);
    InitMismatch(rs, regs, budget);
    InitTimeout(rs, regs, budget);
    if o.result.Ok? {
      OkNoFailure(o);
    } else if o.result == Err(BusError) {
      NoFailureLast(o.trace);
    }
  }

  /** Everything proved about begin, for its callers. */
  lemma InitFacts(rs: seq<Reply>, regs: RegisterMap, budget: nat)
    ensures var o := Init(rs, regs, budget);
      Surfaces(o) &&
      (o.result.Ok? ==> InitSequence(o.trace, regs, budget) && ReachesConfig(rs, regs, budget)) &&
      (ReachesConfig(rs, regs, budget) ==> o.result.Ok? || o.result == Err(BusError)) &&
      (o.result == Err(UnexpectedDevice) <==> IdentityMismatch(o.trace, regs)) &&
      (o.result == Err(Timeout) <==> ResetTimedOut(o.trace, regs, budget))
  {
    InitSurfaces(rs, regs, budget);
    InitDone(rs, regs, budget);
    InitMismatch(rs, regs, budget);
    InitTimeout(rs, regs, budget);
  }

  /** set_mode: read CTRL_REG1, write it back with the ALT bit replaced by the mode. */
  function SetMode(rs: seq<Reply>, regs: RegisterMap, m: Mode): Outcome<()>
  {
    var ctrl := ReadByte(rs, regs.ctrlReg1);
    if ctrl.result.Err? then Outcome(Err(BusError), ctrl.trace, ctrl.rest)
    else Join(ctrl.trace, WriteOutcome(ctrl.rest, [regs.ctrlReg1, ModeToggle(ctrl.result.value, m)]))
  }

  /** set_mode surfaces bus errors; success is a mode switch; a failure leaves no acknowledged write. */
  lemma SetModeFacts(rs: seq<Reply>, regs: RegisterMap, m: Mode)
    ensures var o := SetMode(rs, regs, m);
      1 <= |o.trace| <= 2 && Surfaces(o) &&
      (o.result.Ok? ==> ModeSwitch(o.trace, regs, m)) &&
      (o.result.Err? ==> o.result.error == BusError && Writes(o.trace) == 0)
  {
    var ctrl := ReadByte(rs, regs.ctrlReg1);
    assert ctrl.trace[1..] == [];
    if ctrl.result.Ok? {
      var w := WriteOutcome(ctrl.rest, [regs.ctrlReg1, ModeToggle(ctrl.result.value, m)]);
      var t := ctrl.trace + w.trace;
      JoinSurfaces(ctrl.trace, w);
      WritesAppend(ctrl.trace, w.trace);
      assert w.trace[1..] == [];
    }
  }

  /** initiate_one_shot: wait for OST to clear, then write the byte last read with OST set. */
  function OneShot(rs: seq<Reply>, regs: RegisterMap, budget: nat): Outcome<()>
  {
    var idle := Poll(rs, regs.ctrlReg1, regs.ost, false, budget);
    if idle.result.Err? then Outcome(Err(idle.result.error), idle.trace, idle.rest)
    else Join(idle.trace, WriteOutcome(idle.rest, [regs.ctrlReg1, WithOst(idle.result.value)]))
  }

  /**
   * initiate_one_shot surfaces bus errors; success is a trigger after an idle poll;
   * a failure leaves no acknowledged write; Timeout exactly when the OST poll ran out.
   */
  lemma OneShotFacts(rs: seq<Reply>, regs: RegisterMap, budget: nat)
    ensures var o := OneShot(rs, regs, budget);
      Surfaces(o) &&
      (o.result.Ok? ==> |o.trace| >= 2 && TriggerAfterIdle(o.trace[..|o.trace| - 1], o.trace[|o.trace| - 1], regs, budget)) &&
      (o.result.Err? ==> o.result.error != UnexpectedDevice && Writes(o.trace) == 0) &&
      (o.result == Err(Timeout) <==> PollExhausted(o.trace, regs.ctrlReg1, regs.ost, false, budget))
  {
    var idle := Poll(rs, regs.ctrlReg1, regs.ost, false, budget);
    PollFacts(rs, regs.ctrlReg1, regs.ost, false, budget);
    if idle.result.Ok? {
      var w := WriteOutcome(idle.rest, [regs.ctrlReg1, WithOst(idle.result.value)]);
      var t := idle.trace + w.trace;
      OkNoFailure(idle);
      JoinSurfaces(idle.trace, w);
      WritesAppend(idle.trace, w.trace);
      assert w.trace[1..] == [];
      assert t[..|t| - 1] == idle.trace;
    }
  }

  /** check_data_ready_flag: one STATUS read, true when PTDR is set. */
  function CheckReady(rs: seq<Reply>, regs: RegisterMap): (o: Outcome<bool>)
    ensures |o.trace| == 1 && o.rest == RestReplies(rs) && Surfaces(o)
    ensures o.result.Ok? <==> NextReply(rs).Ack? && |NextReply(rs).data| == 1
    ensures o.result.Ok? ==> ByteRead(o.trace[0], regs.status) && o.result.value == AnySet(o.trace[0].data[0], regs.ptdr)
    ensures o.result.Err? ==> o.result.error == BusError
  {
    var rd := ReadByte(rs, regs.status);
    if rd.result.Ok? then Outcome(Ok(AnySet(rd.result.value, regs.ptdr)), rd.trace, rd.rest)
    else Outcome(Err(BusError), rd.trace, rd.rest)
  }
  /** The data-ready wait of the reads: check_data_ready_flag until it says ready, at most k times. */
  function AwaitReady(rs: seq<Reply>, regs: RegisterMap, k: nat): Outcome<()>
    decreases k
  {
    if k == 0 then
      Outcome(Err(Timeout), [], rs)
    else
      var c := CheckReady(rs, regs);
      if c.result.Err? || c.result.value then Outcome(Discard(c.result), c.trace, c.rest)
      else Join(c.trace, AwaitReady(c.rest, regs, k - 1))
  }

  /** Waiting on check_data_ready_flag is the generic poll of STATUS for PTDR set. */
  lemma {:induction false} AwaitReadyIsPoll(rs: seq<Reply>, regs: RegisterMap, k: nat)
    ensures var p := Poll(rs, regs.status, regs.ptdr, true, k);
      AwaitReady(rs, regs, k) == Outcome(Discard(p.result), p.trace, p.rest)
    decreases k
  {
    if k > 0 {
      var c := CheckReady(rs, regs);
      if !(c.result.Err? || c.result.value) {
        AwaitReadyIsPoll(c.rest, regs, k - 1);
      }
    }
  }


  /** One measurement: trigger, wait for PTDR, fetch `n` bytes from `dataReg`. */
  function Measure(rs: seq<Reply>, regs: RegisterMap, budget: nat, dataReg: byte, n: nat): Outcome<seq<byte>>
  {
    var start := OneShot(rs, regs, budget);
    if start.result.Err? then Outcome(Err(start.result.error), start.trace, start.rest)
    else
      var ready := Poll(start.rest, regs.status, regs.ptdr, true, budget);
      if ready.result.Err? then Outcome(Err(ready.result.error), start.trace + ready.trace, ready.rest)
      else Join(start.trace + ready.trace, ReadOutcome(ready.rest, dataReg, n))
  }

  /** A measurement reports BusError exactly when its last attempt was refused, and never UnexpectedDevice. */
  lemma MeasureSurfaces(rs: seq<Reply>, regs: RegisterMap, budget: nat, dataReg: byte, n: nat)
    ensures var o := Measure(rs, regs, budget, dataReg, n);
      Surfaces(o) && (o.result.Err? ==> o.result.error != UnexpectedDevice)
  {
    var start := OneShot(rs, regs, budget);
    OneShotFacts(rs, regs, budget);
    if start.result.Ok? {
      var ready := Poll(start.rest, regs.status, regs.ptdr, true, budget);
      PollSurfaces(start.rest, regs.status, regs.ptdr, true, budget);
      PollBounded(start.rest, regs.status, regs.ptdr, true, budget);
      OkNoFailure(start);
      JoinSurfaces(start.trace, ready);
      if ready.result.Ok? {
        OkNoFailure(ready);
        NoFailureAppend(start.trace, ready.trace);
        JoinSurfaces(start.trace + ready.trace, ReadOutcome(ready.rest, dataReg, n));
      }
    }
  }

  /** A successful measurement is an ordered cycle whose last read holds the `n` bytes returned. */
  lemma MeasureDone(rs: seq<Reply>, regs: RegisterMap, budget: nat, dataReg: byte, n: nat)
    ensures var o := Measure(rs, regs, budget, dataReg, n);
      o.result.Ok? ==> CycleOrder(o.trace, regs, dataReg, n) &&
                       |o.result.value| == n && o.trace != [] && o.trace[|o.trace| - 1] == Read(dataReg, o.result.value)
  {
    var start := OneShot(rs, regs, budget);
    OneShotFacts(rs, regs, budget);
    if start.result.Ok? {
      var ready := Poll(start.rest, regs.status, regs.ptdr, true, budget);
      PollDone(start.rest, regs.status, regs.ptdr, true, budget);
      if ready.result.Ok? {
        var fetch := ReadOutcome(ready.rest, dataReg, n);
        if fetch.result.Ok? {
          var c := Cycle(start.trace[..|start.trace| - 1], start.trace[|start.trace| - 1], ready.trace, fetch.trace[0]);
          assert start.trace == c.idle + [c.trigger];
          assert start.trace + ready.trace + fetch.trace == c.Flatten();
          CycleIsOrdered(c, regs, dataReg, n, budget);
        }
      }
    }
  }

  /** A measurement that reports Timeout shows which of its two polls ran out. */
  lemma MeasureTimeoutShown(rs: seq<Reply>, regs: RegisterMap, budget: nat, dataReg: byte, n: nat)
    ensures var o := Measure(rs, regs, budget, dataReg, n);
      o.result == Err(Timeout) ==> MeasureTimedOut(o.trace, regs, budget)
  {
    var o := Measure(rs, regs, budget, dataReg, n);
    var start := OneShot(rs, regs, budget);
    OneShotFacts(rs, regs, budget);
    if start.result.Err? {
      assert o == Outcome(Err(start.result.error), start.trace, start.rest);
    } else {
      var ready := Poll(start.rest, regs.status, regs.ptdr, true, budget);
      PollTimeout(start.rest, regs.status, regs.ptdr, true, budget);
      if ready.result == Err(Timeout) {
        assert o == Outcome(Err(Timeout), start.trace + ready.trace, ready.rest);
        TimedOutAfterTrigger(start.trace, ready.trace, regs, budget);
      }
    }
  }

  /**
   * A measurement times out exactly when the OST poll ran out, or the trigger was
   * written and the PTDR poll then ran out.
   */
  lemma MeasureTimeout(rs: seq<Reply>, regs: RegisterMap, budget: nat, dataReg: byte, n: nat)
    ensures var o := Measure(rs, regs, budget, dataReg, n);
      o.result == Err(Timeout) <==> MeasureTimedOut(o.trace, regs, budget)
  {
    var o := Measure(rs, regs, budget, dataReg, n);
    MeasureTimeoutShown(rs, regs, budget, dataReg, n);
    MeasureSurfaces(rs, regs, budget, dataReg, n);
    MeasureDone(rs, regs, budget, dataReg, n);
    if o.result.Ok? {
      OrderedNotTimedOut(o.trace, regs, dataReg, n, budget);
    } else if o.result == Err(BusError) && MeasureTimedOut(o.trace, regs, budget) {
      TimedOutNotFailed(o.trace, regs, budget);
    }
  }

  /** A measurement succeeds exactly when no attempt was refused and neither poll ran out. */
  lemma MeasureSucceeds(rs: seq<Reply>, regs: RegisterMap, budget: nat, dataReg: byte, n: nat)
    ensures var o := Measure(rs, regs, budget, dataReg, n);
      o.result.Ok? <==> NoFailure(o.trace) && !MeasureTimedOut(o.trace, regs, budget)
  {
    var o := Measure(rs, regs, budget, dataReg, n);
    MeasureSurfaces(rs, regs, budget, dataReg, n);
    MeasureTimeout(rs, regs, budget, dataReg, n);
    if o.result.Ok? {
      OkNoFailure(o);
    } else if o.result == Err(BusError) {
      NoFailureLast(o.trace);
    }
  }

  /** Everything proved about one measurement, for its callers. */
  lemma MeasureFacts(rs: seq<Reply>, regs: RegisterMap, budget: nat, dataReg: byte, n: nat)
    ensures var o := Measure(rs, regs, budget, dataReg, n);
      Surfaces(o) &&
      (o.result.Err? ==> o.result.error != UnexpectedDevice) &&
      (o.result.Ok? ==> CycleOrder(o.trace, regs, dataReg, n) &&
                        |o.result.value| == n && o.trace != [] && o.trace[|o.trace| - 1] == Read(dataReg, o.result.value)) &&
      (o.result == Err(Timeout) <==> MeasureTimedOut(o.trace, regs, budget)) &&
      (o.result.Ok? <==> NoFailure(o.trace) && !MeasureTimedOut(o.trace, regs, budget))
  {
    MeasureSurfaces(rs, regs, budget, dataReg, n);
    MeasureDone(rs, regs, budget, dataReg, n);
    MeasureTimeout(rs, regs, budget, dataReg, n);
    MeasureSucceeds(rs, regs, budget, dataReg, n);
  }

  /** The mode recorded after a pressure or altitude read: switched only when set_mode succeeded. */
  function ModeAfter(rs: seq<Reply>, regs: RegisterMap, recorded: Mode, required: Mode): Mode
  {
    if recorded != required && SetMode(rs, regs, required).result.Ok? then required else recorded
  }

  /** A pressure or altitude read: set_mode when the recorded mode is not the required one, then one measurement. */
  function ReadInMode(rs: seq<Reply>, regs: RegisterMap, budget: nat, recorded: Mode, required: Mode, dataReg: byte, n: nat): Outcome<seq<byte>>
  {
    if recorded == required then Measure(rs, regs, budget, dataReg, n)
    else
      var sw := SetMode(rs, regs, required);
      if sw.result.Err? then Outcome(Err(BusError), sw.trace, sw.rest)
      else Join(sw.trace, Measure(sw.rest, regs, budget, dataReg, n))
  }

  /** A pressure or altitude read reports BusError exactly when its last attempt was refused. */
  lemma ReadInModeSurfaces(rs: seq<Reply>, regs: RegisterMap, budget: nat, recorded: Mode, required: Mode, dataReg: byte, n: nat)
    ensures var o := ReadInMode(rs, regs, budget, recorded, required, dataReg, n);
      Surfaces(o) && (o.result.Err? ==> o.result.error != UnexpectedDevice)
  {
    if recorded == required {
      MeasureSurfaces(rs, regs, budget, dataReg, n);
    } else {
      var sw := SetMode(rs, regs, required);
      SetModeFacts(rs, regs, required);
      if sw.result.Ok? {
        MeasureSurfaces(sw.rest, regs, budget, dataReg, n);
        OkNoFailure(sw);
        JoinSurfaces(sw.trace, Measure(sw.rest, regs, budget, dataReg, n));
      }
    }
  }

  /** A successful read leaves the required mode recorded. */
  lemma ReadInModeRecords(rs: seq<Reply>, regs: RegisterMap, budget: nat, recorded: Mode, required: Mode, dataReg: byte, n: nat)
    ensures ReadInMode(rs, regs, budget, recorded, required, dataReg, n).result.Ok? ==>
      ModeAfter(rs, regs, recorded, required) == required
  {
  }

  /**
   * A successful read follows the read trace, with one write more when the mode was
   * switched, and returns the `n` bytes read last.
   */
  lemma ReadInModeDone(rs: seq<Reply>, regs: RegisterMap, budget: nat, recorded: Mode, required: Mode, dataReg: byte, n: nat)
    ensures var o := ReadInMode(rs, regs, budget, recorded, required, dataReg, n);
      o.result.Ok? ==> ReadTrace(o.trace, regs, recorded, required, dataReg, n) &&
                       Writes(o.trace) == (if recorded == required then 1 else 2) &&
                       |o.result.value| == n && o.trace != [] && o.trace[|o.trace| - 1] == Read(dataReg, o.result.value)
  {
    var o := ReadInMode(rs, regs, budget, recorded, required, dataReg, n);
    if recorded == required {
      var m := Measure(rs, regs, budget, dataReg, n);
      assert o == m;
      MeasureDone(rs, regs, budget, dataReg, n);
      if m.result.Ok? {
        ReadTraceOf([], m.trace, regs, recorded, required, dataReg, n);
        assert [] + m.trace == m.trace;
      }
    } else {
      var sw := SetMode(rs, regs, required);
      SetModeFacts(rs, regs, required);
      if sw.result.Ok? {
        var m := Measure(sw.rest, regs, budget, dataReg, n);
        assert o == Join(sw.trace, m);
        MeasureDone(sw.rest, regs, budget, dataReg, n);
        if m.result.Ok? {
          ReadTraceOf(sw.trace, m.trace, regs, recorded, required, dataReg, n);
        }
      }
    }
  }

  /**
   * When the device echoes the mode in CTRL_REG1, every CTRL_REG1 write of a successful
   * read carries the mode recorded afterwards.
   */
  lemma ReadInModeKeepsMode(rs: seq<Reply>, regs: RegisterMap, budget: nat, recorded: Mode, required: Mode, dataReg: byte, n: nat)
    ensures var o := ReadInMode(rs, regs, budget, recorded, required, dataReg, n);
      o.result.Ok? && EchoesMode(o.trace, if recorded == required then 0 else 2, regs, required) ==>
        KeepsMode(o.trace, regs, required)
  {
    var o := ReadInMode(rs, regs, budget, recorded, required, dataReg, n);
    ReadInModeDone(rs, regs, budget, recorded, required, dataReg, n);
    if o.result.Ok? {
      ReadTracksMode(o.trace, regs, recorded, required, dataReg, n);
    }
  }

  /** A pressure or altitude read times out exactly when, after the mode switch it needs, its measurement does. */
  lemma ReadInModeTimeout(rs: seq<Reply>, regs: RegisterMap, budget: nat, recorded: Mode, required: Mode, dataReg: byte, n: nat)
    ensures var o := ReadInMode(rs, regs, budget, recorded, required, dataReg, n);
      o.result == Err(Timeout) <==> ReadTimedOut(o.trace, regs, recorded, required, budget)
  {
    var o := ReadInMode(rs, regs, budget, recorded, required, dataReg, n);
    if recorded == required {
      MeasureTimeout(rs, regs, budget, dataReg, n);
    } else {
      var sw := SetMode(rs, regs, required);
      SetModeFacts(rs, regs, required);
      if sw.result.Ok? {
        var m := Measure(sw.rest, regs, budget, dataReg, n);
        MeasureTimeout(sw.rest, regs, budget, dataReg, n);
        assert o == Join(sw.trace, m);
        assert o.trace[..2] == sw.trace && o.trace[2..] == m.trace;
      } else if |o.trace| >= 2 {
        assert o.trace[..2] == o.trace;
      }
    }
  }

  /** A pressure or altitude read succeeds exactly when no attempt was refused and no poll ran out. */
  lemma ReadInModeSucceeds(rs: seq<Reply>, regs: RegisterMap, budget: nat, recorded: Mode, required: Mode, dataReg: byte, n: nat)
    ensures var o := ReadInMode(rs, regs, budget, recorded, required, dataReg, n);
      o.result.Ok? <==> NoFailure(o.trace) && !ReadTimedOut(o.trace, regs, recorded, required, budget)
  {
    var o := ReadInMode(rs, regs, budget, recorded, required, dataReg, n);
    ReadInModeSurfaces(rs, regs, budget, recorded, required, dataReg, n);
    ReadInModeTimeout(rs, regs, budget, recorded, required, dataReg, n);
    if o.result.Ok? {
      OkNoFailure(o);
    } else if o.result == Err(BusError) {
      NoFailureLast(o.trace);
    }
  }

  /** Everything proved about a pressure or altitude read, for its callers. */
  lemma ReadInModeFacts(rs: seq<Reply>, regs: RegisterMap, budget: nat, recorded: Mode, required: Mode, dataReg: byte, n: nat)
    ensures var o := ReadInMode(rs, regs, budget, recorded, required, dataReg, n);
      Surfaces(o) &&
      (o.result.Err? ==> o.result.error != UnexpectedDevice) &&
      (o.result.Ok? ==> ModeAfter(rs, regs, recorded, required) == required &&
                        ReadTrace(o.trace, regs, recorded, required, dataReg, n) &&
                        |o.result.value| == n && o.trace != [] && o.trace[|o.trace| - 1] == Read(dataReg, o.result.value)) &&
      (o.result.Ok? ==> Writes(o.trace) == if recorded == required then 1 else 2) &&
      (o.result.Ok? && EchoesMode(o.trace, if recorded == required then 0 else 2, regs, required) ==>
         KeepsMode(o.trace, regs, required)) &&
      (o.result == Err(Timeout) <==> ReadTimedOut(o.trace, regs, recorded, required, budget)) &&
      (o.result.Ok? <==> NoFailure(o.trace) && !ReadTimedOut(o.trace, regs, recorded, required, budget))
  {
    ReadInModeTimeout(rs, regs, budget, recorded, required, dataReg, n);
    ReadInModeSucceeds(rs, regs, budget, recorded, required, dataReg, n);
    ReadInModeSurfaces(rs, regs, budget, recorded, required, dataReg, n);
    ReadInModeRecords(rs, regs, budget, recorded, required, dataReg, n);
    ReadInModeDone(rs, regs, budget, recorded, required, dataReg, n);
    ReadInModeKeepsMode(rs, regs, budget, recorded, required, dataReg, n);
  }

  /** A poll whose first read already shows the awaited state ends there, with that byte. */
  lemma PollAnswered(rs: seq<Reply>, reg: byte, mask: byte, awaitSet: bool, k: nat, b: byte)
    requires k >= 1 && rs != [] && rs[0] == Ack([b]) && AnySet(b, mask) == awaitSet
    ensures Poll(rs, reg, mask, awaitSet, k) == Outcome(Ok(b), [Read(reg, [b])], rs[1..])
  {
    var rd := ReadByte(rs, reg);
    assert rd == Outcome(Ok(b), [Read(reg, [b])], rs[1..]);
  }

  /**
   * begin against a device that answers: the identity byte, the reset write, one poll
   * showing RST clear and the two configuration writes all acknowledged.
   */
  lemma InitAnswered(regs: RegisterMap, budget: nat, cleared: byte)
    requires budget >= 1 && !AnySet(cleared, regs.rst)
    ensures var rs := [Ack([DEVICE_ID]), Ack([]), Ack([cleared]), Ack([]), Ack([])];
      Init(rs, regs, budget) ==
        Outcome(Ok(()), [Read(regs.whoAmI, [DEVICE_ID]), Txn.Write([regs.ctrlReg1, regs.rst]),
                         Read(regs.ctrlReg1, [cleared])] + ConfigWrites(regs), [])
  {
    var rs := [Ack([DEVICE_ID]), Ack([]), Ack([cleared]), Ack([]), Ack([])];
    var id := ReadByte(rs, regs.whoAmI);
    assert id == Outcome(Ok(DEVICE_ID), [Read(regs.whoAmI, [DEVICE_ID])], rs[1..]);
    PollAnswered(rs[2..], regs.ctrlReg1, regs.rst, false, budget, cleared);
    assert rs[2..][1..] == rs[3..];
    var reset := Reset(rs[1..], regs, budget);
    assert reset == Outcome(Ok(()), [Txn.Write([regs.ctrlReg1, regs.rst]), Read(regs.ctrlReg1, [cleared])], rs[3..]);
    assert Configure(rs[3..], regs) == Outcome(Ok(()), ConfigWrites(regs), []);
  }

  /**
   * One measurement against a device that answers: CTRL_REG1 with OST clear, the
   * trigger acknowledged, STATUS with a ready bit, then the data bytes.
   */
  lemma MeasureAnswered(regs: RegisterMap, budget: nat, dataReg: byte, idle: byte, ready: byte, data: seq<byte>)
    requires budget >= 1 && !AnySet(idle, regs.ost) && AnySet(ready, regs.ptdr)
    ensures var rs := [Ack([idle]), Ack([]), Ack([ready]), Ack(data)];
      Measure(rs, regs, budget, dataReg, |data|) ==
        Outcome(Ok(data), [Read(regs.ctrlReg1, [idle]), Txn.Write([regs.ctrlReg1, WithOst(idle)]),
                           Read(regs.status, [ready]), Read(dataReg, data)], [])
  {
    var rs := [Ack([idle]), Ack([]), Ack([ready]), Ack(data)];
    PollAnswered(rs, regs.ctrlReg1, regs.ost, false, budget, idle);
    assert OneShot(rs, regs, budget) ==
      Outcome(Ok(()), [Read(regs.ctrlReg1, [idle]), Txn.Write([regs.ctrlReg1, WithOst(idle)])], rs[2..]);
    PollAnswered(rs[2..], regs.status, regs.ptdr, true, budget, ready);
    assert rs[2..][1..] == rs[3..];
  }
}
