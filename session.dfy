/**
 * The driver session: the bus it talks over, the register map, the polling budget
 * and the mode it believes CTRL_REG1's ALT bit holds. Each method is proved to do
 * what the function of the same step in Driver computes from the replies it meets:
 * the same result, every attempted transaction logged, the same replies consumed.
 * What the driver promises is proved about those functions and repeated here.
 */
module Mpl {
  import opened Bytes
  import opened Registers
  import opened Bus
  import opened Protocol
  import opened Conversion
  import Driver

  class Session {
    const bus: I2c
    const regs: RegisterMap
    /** The most reads any one polling loop makes before it gives up with Timeout. */
    const budget: nat
    /** `sensor_mode`: the mode the driver believes CTRL_REG1's ALT bit holds. */
    var mode: Mode

    /** The private constructor: binds the bus; the mode is set by Init. */
    constructor (bus: I2c, regs: RegisterMap, budget: nat)
      ensures this.bus == bus && this.regs == regs && this.budget == budget
    {
      this.bus := bus;
      this.regs := regs;
      this.budget := budget;
    }

    /** `create`: a session is handed out only once Init has succeeded on it. */
    static method Create(bus: I2c, regs: RegisterMap, budget: nat) returns (r: Result<Session>, ghost trace: seq<Txn>)
      modifies bus
      ensures var o := Driver.Init(old(bus.replies), regs, budget);
        (r.Ok? <==> o.result.Ok?) && (r.Err? ==> r.error == o.result.error) &&
        trace == o.trace && bus.replies == o.rest
      ensures bus.log == old(bus.log) + trace
      ensures r.Ok? ==> fresh(r.value) && r.value.bus == bus && r.value.regs == regs && r.value.budget == budget
      ensures r.Ok? ==> r.value.mode == Altimeter && InitSequence(trace, regs, budget)
      ensures Surfaces(Outcome(r, trace, bus.replies))
      ensures r.Ok? <==> NoFailure(trace) && !IdentityMismatch(trace, regs) && !ResetTimedOut(trace, regs, budget)
      ensures r == Err(UnexpectedDevice) <==> IdentityMismatch(trace, regs)
      ensures r == Err(Timeout) <==> ResetTimedOut(trace, regs, budget)
    {
      var session := new Session(bus, regs, budget);
      var s;
      s, trace := session.Init();
      if s.Err? {
        return Err(s.error), trace;
      }
      r := Ok(session);
    }

    /**
     * `init`/`begin`: identity check, software reset and wait, then altimeter mode
     * with OS128 and data-ready events. The mode is recorded once the reset is done.
     */
    method Init() returns (s: Status, ghost trace: seq<Txn>)
      modifies this, bus
      ensures var o := Driver.Init(old(bus.replies), regs, budget);
        s == o.result && trace == o.trace && bus.replies == o.rest
      ensures bus.log == old(bus.log) + trace
      ensures mode == if Driver.ReachesConfig(old(bus.replies), regs, budget) then Altimeter else old(mode)
      ensures Surfaces(Outcome(s, trace, bus.replies))
      ensures s.Ok? ==> InitSequence(trace, regs, budget)
      ensures s.Ok? && regs.alt == ALT_BIT ==> AltBit(CtrlConfig(regs)) == ModeValue(mode)
      ensures s == Err(UnexpectedDevice) <==> IdentityMismatch(trace, regs)
      ensures s == Err(Timeout) <==> ResetTimedOut(trace, regs, budget)
      ensures s.Ok? <==> NoFailure(trace) && !IdentityMismatch(trace, regs) && !ResetTimedOut(trace, regs, budget)
    {
      Driver.InitFacts(bus.replies, regs, budget);
      Driver.InitSucceeds(bus.replies, regs, budget);
      if regs.alt == ALT_BIT {
        ConfigSelectsAltimeter(regs);
      }
      var id;
      id, trace := ReadRegister(regs.whoAmI);
      if id.Err? {
        return Err(BusError), trace;
      }
      if id.value != DEVICE_ID {
        return Err(UnexpectedDevice), trace;
      }

      var reset, resetTrace := SoftwareReset();
      LogGrows(old(bus.log), trace, resetTrace);
      trace := trace + resetTrace;
      if reset.Err? {
        return reset, trace;
      }

      var configured, configTrace := Configure();
      LogGrows(old(bus.log), trace, configTrace);
      trace := trace + configTrace;
      s := configured;
    }

    /** The configuration inside init: record altimeter mode, write OS128 | ALT, then the data-ready events. */
    method Configure() returns (s: Status, ghost trace: seq<Txn>)
      modifies this, bus
      ensures var o := Driver.Configure(old(bus.replies), regs);
        s == o.result && trace == o.trace && bus.replies == o.rest
      ensures bus.log == old(bus.log) + trace
      ensures mode == Altimeter
      ensures Surfaces(Outcome(s, trace, bus.replies))
      ensures s.Ok? ==> trace == ConfigWrites(regs)
      ensures s.Err? ==> s.error == BusError
    {
      Driver.ConfigureFacts(bus.replies, regs);
      mode := Altimeter;
      ghost var first := WriteOutcome(bus.replies, [regs.ctrlReg1, CtrlConfig(regs)]);
      s := bus.Write([regs.ctrlReg1, CtrlConfig(regs)]);
      trace := first.trace;
      if s.Err? {
        return;
      }
      ghost var second := WriteOutcome(bus.replies, [regs.ptDataCfg, EventConfig(regs)]);
      s := bus.Write([regs.ptDataCfg, EventConfig(regs)]);
      LogGrows(old(bus.log), trace, second.trace);
      trace := trace + second.trace;
    }

    /** The software reset inside init: write RST, then read CTRL_REG1 until RST clears. */
    method SoftwareReset() returns (s: Status, ghost trace: seq<Txn>)
      modifies bus
      ensures var o := Driver.Reset(old(bus.replies), regs, budget);
        s == o.result && trace == o.trace && bus.replies == o.rest
      ensures bus.log == old(bus.log) + trace
      ensures Surfaces(Outcome(s, trace, bus.replies))
      ensures s.Ok? ==> ResetDone(trace, regs, budget)
      ensures s.Err? ==> s.error != UnexpectedDevice
      ensures s == Err(Timeout) <==> ResetExhausted(trace, regs, budget)
    {
      Driver.ResetFacts(bus.replies, regs, budget);
      ghost var w := WriteOutcome(bus.replies, [regs.ctrlReg1, regs.rst]);
      s := bus.Write([regs.ctrlReg1, regs.rst]);
      trace := w.trace;
      if s.Err? {
        return;
      }
      var cleared, polls := PollUntilClear(regs.ctrlReg1, regs.rst);
      LogGrows(old(bus.log), trace, polls);
      trace := trace + polls;
      s := Discard(cleared);
    }

    /** A single-byte register read, as every `hal::write_then_read` of one byte in the driver. */
    method ReadRegister(reg: byte) returns (r: Result<byte>, ghost trace: seq<Txn>)
      modifies bus
      ensures var o := Driver.ReadByte(old(bus.replies), reg);
        r == o.result && trace == o.trace && bus.replies == o.rest
      ensures bus.log == old(bus.log) + trace
      ensures r.Ok? ==> trace == [Read(reg, [r.value])]
      ensures r.Err? ==> r.error == BusError && trace == [FailedRead(reg, 1)]
    {
      ghost var rd := ReadOutcome(bus.replies, reg, 1);
      var data := bus.WriteThenRead(reg, 1);
      trace := rd.trace;
      if data.Err? {
        return Err(BusError), trace;
      }
      assert data.value == [data.value[0]];
      r := Ok(data.value[0]);
    }

    /**
     * Reads `reg` until every bit of `mask` is clear in it, at most `budget` times: the
     * loop of begin's reset wait and of initiate_one_shot, as Driver.Poll.
     */
    method PollUntilClear(reg: byte, mask: byte) returns (r: Result<byte>, ghost trace: seq<Txn>)
      modifies bus
      ensures var o := Driver.Poll(old(bus.replies), reg, mask, false, budget);
        r == o.result && trace == o.trace && bus.replies == o.rest
      ensures bus.log == old(bus.log) + trace
    {
      trace := [];
      var polls := 0;
      while polls < budget
        invariant polls <= budget
        invariant bus.log == old(bus.log) + trace
        invariant Driver.Poll(old(bus.replies), reg, mask, false, budget) ==
                  Join(trace, Driver.Poll(bus.replies, reg, mask, false, budget - polls))
      {
        ghost var rest := Driver.Poll(bus.replies, reg, mask, false, budget - polls);
        var rd, read := ReadRegister(reg);
        LogGrows(old(bus.log), trace, read);
        if rd.Err? || !AnySet(rd.value, mask) {
          assert rest == Outcome(rd, read, bus.replies);
          return rd, trace + read;
        }
        ghost var next := Driver.Poll(bus.replies, reg, mask, false, budget - polls - 1);
        assert rest == Join(read, next);
        LogGrows(trace, read, next.trace);
        trace := trace + read;
        polls := polls + 1;
      }
      assert trace + [] == trace;
      r := Err(Timeout);
    }

    /** `set_mode`: read CTRL_REG1, replace its ALT bit by the mode, write it back, record the mode. */
    method SetMode(m: Mode) returns (s: Status, ghost trace: seq<Txn>)
      modifies this, bus
      ensures var o := Driver.SetMode(old(bus.replies), regs, m);
        s == o.result && trace == o.trace && bus.replies == o.rest
      ensures bus.log == old(bus.log) + trace
      ensures mode == if s.Ok? then m else old(mode)
      ensures Surfaces(Outcome(s, trace, bus.replies))
      ensures s.Ok? ==> ModeSwitch(trace, regs, m) && AltBit(trace[1].payload[1]) == ModeValue(m)
      ensures s.Err? ==> s.error == BusError && Writes(trace) == 0
    {
      Driver.SetModeFacts(bus.replies, regs, m);
      var ctrl;
      ctrl, trace := ReadRegister(regs.ctrlReg1);
      if ctrl.Err? {
        return Err(BusError), trace;
      }
      var updated := ModeToggle(ctrl.value, m);
      ghost var w := WriteOutcome(bus.replies, [regs.ctrlReg1, updated]);
      s := bus.Write([regs.ctrlReg1, updated]);
      LogGrows(old(bus.log), trace, w.trace);
      trace := trace + w.trace;
      if s.Ok? {
        mode := m;
      }
    }

    /** `initiate_one_shot`: wait for OST to clear, then write back the byte read with OST set. */
    method InitiateOneShot() returns (s: Status, ghost trace: seq<Txn>)
      modifies bus
      ensures var o := Driver.OneShot(old(bus.replies), regs, budget);
        s == o.result && trace == o.trace && bus.replies == o.rest
      ensures bus.log == old(bus.log) + trace
      ensures Surfaces(Outcome(s, trace, bus.replies))
      ensures s.Ok? ==> |trace| >= 2 && TriggerAfterIdle(trace[..|trace| - 1], trace[|trace| - 1], regs, budget)
      ensures s.Err? ==> s.error != UnexpectedDevice && Writes(trace) == 0
      ensures s == Err(Timeout) <==> PollExhausted(trace, regs.ctrlReg1, regs.ost, false, budget)
    {
      Driver.OneShotFacts(bus.replies, regs, budget);
      var idle;
      idle, trace := PollUntilClear(regs.ctrlReg1, regs.ost);
      if idle.Err? {
        return Err(idle.error), trace;
      }
      ghost var w := WriteOutcome(bus.replies, [regs.ctrlReg1, WithOst(idle.value)]);
      s := bus.Write([regs.ctrlReg1, WithOst(idle.value)]);
      LogGrows(old(bus.log), trace, w.trace);
      trace := trace + w.trace;
    }

    /** `check_data_ready_flag`: one STATUS read; true when PTDR is set. */
    method CheckDataReady() returns (r: Result<bool>, ghost trace: seq<Txn>)
      modifies bus
      ensures var o := Driver.CheckReady(old(bus.replies), regs);
        r == o.result && trace == o.trace && bus.replies == o.rest
      ensures bus.log == old(bus.log) + trace
      ensures r.Ok? ==> ByteRead(trace[0], regs.status) && r.value == AnySet(trace[0].data[0], regs.ptdr)
      ensures Surfaces(Outcome(r, trace, bus.replies))
      ensures r.Err? ==> r.error == BusError && trace == [FailedRead(regs.status, 1)]
    {
      var st;
      st, trace := ReadRegister(regs.status);
      if st.Err? {
        return Err(BusError), trace;
      }
      r := Ok(AnySet(st.value, regs.ptdr));
    }

    /**
     * The data-ready wait of every read: check the flag until it is set, at most `budget`
     * times, as Driver.Poll of STATUS awaiting PTDR.
     */
    method AwaitDataReady() returns (s: Status, ghost trace: seq<Txn>)
      modifies bus
      ensures var o := Driver.Poll(old(bus.replies), regs.status, regs.ptdr, true, budget);
        s == Discard(o.result) && trace == o.trace && bus.replies == o.rest
      ensures bus.log == old(bus.log) + trace
    {
      Driver.AwaitReadyIsPoll(bus.replies, regs, budget);
      ghost var total := Driver.AwaitReady(bus.replies, regs, budget);
      trace := [];
      var polls := 0;
      while polls < budget
        invariant polls <= budget
        invariant bus.log == old(bus.log) + trace
        invariant total == Join(trace, Driver.AwaitReady(bus.replies, regs, budget - polls))
      {
        var ready, check := CheckDataReady();
        LogGrows(old(bus.log), trace, check);
        if ready.Err? || ready.value {
          return Discard(ready), trace + check;
        }
        ghost var next := Driver.AwaitReady(bus.replies, regs, budget - polls - 1);
        LogGrows(trace, check, next.trace);
        trace := trace + check;
        polls := polls + 1;
      }
      assert trace + [] == trace;
      s := Err(Timeout);
    }

    /** One one-shot measurement: trigger, wait for data ready, fetch `n` bytes from `dataReg`. */
    method Measure(dataReg: byte, n: nat) returns (r: Result<seq<byte>>, ghost cycle: Cycle, ghost trace: seq<Txn>)
      modifies bus
      ensures var o := Driver.Measure(old(bus.replies), regs, budget, dataReg, n);
        r == o.result && trace == o.trace && bus.replies == o.rest
      ensures bus.log == old(bus.log) + trace
      ensures Surfaces(Outcome(r, trace, bus.replies))
      ensures r.Ok? ==> ValidCycle(cycle, regs, dataReg, n, budget) && trace == cycle.Flatten() &&
                        r.value == cycle.fetch.data
      ensures r.Err? ==> r.error != UnexpectedDevice
      ensures r == Err(Timeout) <==> MeasureTimedOut(trace, regs, budget)
      ensures r.Ok? <==> NoFailure(trace) && !MeasureTimedOut(trace, regs, budget)
    {
      ghost var rs := bus.replies;
      Driver.MeasureSurfaces(rs, regs, budget, dataReg, n);
      Driver.MeasureTimeout(rs, regs, budget, dataReg, n);
      Driver.MeasureSucceeds(rs, regs, budget, dataReg, n);
      cycle := Cycle([], Read(dataReg, []), [], Read(dataReg, []));
      var started, start := InitiateOneShot();
      trace := start;
      if started.Err? {
        return Err(started.error), cycle, trace;
      }
      ghost var afterStart := bus.replies;
      var ready, polls := AwaitDataReady();
      LogGrows(old(bus.log), trace, polls);
      trace := trace + polls;
      if ready.Err? {
        return Err(ready.error), cycle, trace;
      }
      Driver.PollDone(afterStart, regs.status, regs.ptdr, true, budget);
      ghost var fetch := ReadOutcome(bus.replies, dataReg, n);
      r := bus.WriteThenRead(dataReg, n);
      LogGrows(old(bus.log), trace, fetch.trace);
      trace := trace + fetch.trace;
      if r.Ok? {
        cycle := Cycle(start[..|start| - 1], start[|start| - 1], polls, Read(dataReg, r.value));
        assert start == cycle.idle + [cycle.trigger];
      }
    }

    /**
     * `read_temperature`/`t_read`: one measurement of OUT_T_MSB..LSB, in degrees Celsius.
     * When the device echoes the mode in CTRL_REG1, the trigger keeps the recorded mode.
     */
    method ReadTemperature() returns (r: Result<real>, ghost cycle: Cycle, ghost trace: seq<Txn>)
      modifies bus
      ensures var o := Driver.Measure(old(bus.replies), regs, budget, regs.outTMsb, 2);
        (r.Ok? <==> o.result.Ok?) && (r.Err? ==> r.error == o.result.error) &&
        (r.Ok? ==> |o.result.value| == 2 && r.value == Celsius(o.result.value)) &&
        trace == o.trace && bus.replies == o.rest
      ensures bus.log == old(bus.log) + trace
      ensures mode == old(mode)
      ensures r.Ok? ==> ValidCycle(cycle, regs, regs.outTMsb, 2, budget) && trace == cycle.Flatten() &&
                        r.value == Celsius(cycle.fetch.data)
      ensures r.Ok? && EchoesMode(trace, 0, regs, mode) ==> KeepsMode(trace, regs, mode)
      ensures Surfaces(Outcome(r, trace, bus.replies))
      ensures r.Err? ==> r.error != UnexpectedDevice
      ensures r == Err(Timeout) <==> MeasureTimedOut(trace, regs, budget)
      ensures r.Ok? <==> NoFailure(trace) && !MeasureTimedOut(trace, regs, budget)
    {
      Driver.ReadInModeKeepsMode(bus.replies, regs, budget, mode, mode, regs.outTMsb, 2);
      var data;
      data, cycle, trace := Measure(regs.outTMsb, 2);
      if data.Err? {
        return Err(data.error), cycle, trace;
      }
      r := Ok(Celsius(data.value));
    }

    /** `read_pressure`/`p_read`: switch to barometer mode if needed, then measure, in Pascals. */
    method ReadPressure() returns (r: Result<real>, ghost cycle: Cycle, ghost trace: seq<Txn>)
      modifies this, bus
      ensures var o := Driver.ReadInMode(old(bus.replies), regs, budget, old(mode), Barometer, regs.outPMsb, 3);
        (r.Ok? <==> o.result.Ok?) && (r.Err? ==> r.error == o.result.error) &&
        (r.Ok? ==> |o.result.value| == 3 && r.value == Pascals(o.result.value)) &&
        trace == o.trace && bus.replies == o.rest
      ensures bus.log == old(bus.log) + trace
      ensures mode == Driver.ModeAfter(old(bus.replies), regs, old(mode), Barometer)
      ensures r.Ok? ==> mode == Barometer && ReadTrace(trace, regs, old(mode), Barometer, regs.outPMsb, 3) &&
                        ValidCycle(cycle, regs, regs.outPMsb, 3, budget) &&
                        trace[if old(mode) == Barometer then 0 else 2..] == cycle.Flatten() &&
                        Writes(trace) == (if old(mode) == Barometer then 1 else 2) &&
                        r.value == Pascals(cycle.fetch.data)
      ensures r.Ok? && EchoesMode(trace, if old(mode) == Barometer then 0 else 2, regs, Barometer) ==>
                KeepsMode(trace, regs, Barometer)
      ensures Surfaces(Outcome(r, trace, bus.replies))
      ensures r.Err? ==> r.error != UnexpectedDevice
      ensures r == Err(Timeout) <==> ReadTimedOut(trace, regs, old(mode), Barometer, budget)
      ensures r.Ok? <==> NoFailure(trace) && !ReadTimedOut(trace, regs, old(mode), Barometer, budget)
    {
      var data;
      data, cycle, trace := ReadInMode(Barometer, regs.outPMsb, 3);
      if data.Err? {
        return Err(data.error), cycle, trace;
      }
      r := Ok(Pascals(data.value));
    }

    /** `read_altitude`/`a_read`: switch to altimeter mode if needed, then measure, in meters. */
    method ReadAltitude() returns (r: Result<real>, ghost cycle: Cycle, ghost trace: seq<Txn>)
      modifies this, bus
      ensures var o := Driver.ReadInMode(old(bus.replies), regs, budget, old(mode), Altimeter, regs.outPMsb, 3);
        (r.Ok? <==> o.result.Ok?) && (r.Err? ==> r.error == o.result.error) &&
        (r.Ok? ==> |o.result.value| == 3 && r.value == Meters(o.result.value)) &&
        trace == o.trace && bus.replies == o.rest
      ensures bus.log == old(bus.log) + trace
      ensures mode == Driver.ModeAfter(old(bus.replies), regs, old(mode), Altimeter)
      ensures r.Ok? ==> mode == Altimeter && ReadTrace(trace, regs, old(mode), Altimeter, regs.outPMsb, 3) &&
                        ValidCycle(cycle, regs, regs.outPMsb, 3, budget) &&
                        trace[if old(mode) == Altimeter then 0 else 2..] == cycle.Flatten() &&
                        Writes(trace) == (if old(mode) == Altimeter then 1 else 2) &&
                        r.value == Meters(cycle.fetch.data)
      ensures r.Ok? && EchoesMode(trace, if old(mode) == Altimeter then 0 else 2, regs, Altimeter) ==>
                KeepsMode(trace, regs, Altimeter)
      ensures Surfaces(Outcome(r, trace, bus.replies))
      ensures r.Err? ==> r.error != UnexpectedDevice
      ensures r == Err(Timeout) <==> ReadTimedOut(trace, regs, old(mode), Altimeter, budget)
      ensures r.Ok? <==> NoFailure(trace) && !ReadTimedOut(trace, regs, old(mode), Altimeter, budget)
    {
      var data;
      data, cycle, trace := ReadInMode(Altimeter, regs.outPMsb, 3);
      if data.Err? {
        return Err(data.error), cycle, trace;
      }
      r := Ok(Meters(data.value));
    }

    /**
     * The mode check shared by the pressure and altitude reads, then one measurement.
     * When the device echoes the mode in CTRL_REG1, a successful read writes CTRL_REG1
     * only with the ALT bit of the mode it records.
     */
    method ReadInMode(required: Mode, dataReg: byte, n: nat) returns (r: Result<seq<byte>>, ghost cycle: Cycle, ghost trace: seq<Txn>)
      modifies this, bus
      ensures var o := Driver.ReadInMode(old(bus.replies), regs, budget, old(mode), required, dataReg, n);
        r == o.result && trace == o.trace && bus.replies == o.rest
      ensures bus.log == old(bus.log) + trace
      ensures mode == Driver.ModeAfter(old(bus.replies), regs, old(mode), required)
      ensures Surfaces(Outcome(r, trace, bus.replies))
      ensures r.Ok? ==> mode == required && ReadTrace(trace, regs, old(mode), required, dataReg, n) &&
                        Writes(trace) == (if old(mode) == required then 1 else 2) &&
                        ValidCycle(cycle, regs, dataReg, n, budget) &&
                        trace[if old(mode) == required then 0 else 2..] == cycle.Flatten() &&
                        r.value == cycle.fetch.data
      ensures r.Ok? && EchoesMode(trace, if old(mode) == required then 0 else 2, regs, required) ==>
                KeepsMode(trace, regs, required)
      ensures r.Err? ==> r.error != UnexpectedDevice
      ensures r == Err(Timeout) <==> ReadTimedOut(trace, regs, old(mode), required, budget)
      ensures r.Ok? <==> NoFailure(trace) && !ReadTimedOut(trace, regs, old(mode), required, budget)
    {
      ghost var rs := bus.replies;
      trace := [];
      if mode != required {
        var switched;
        switched, trace := SetMode(required);
        if switched.Err? {
          cycle := Cycle([], Read(dataReg, []), [], Read(dataReg, []));
          Driver.ReadInModeFacts(rs, regs, budget, old(mode), required, dataReg, n);
          return Err(BusError), cycle, trace;
        }
      }
      ghost var sw := trace;
      ghost var rest := bus.replies;
      ghost var measured;
      r, cycle, measured := Measure(dataReg, n);
      LogGrows(old(bus.log), trace, measured);
      trace := trace + measured;
      assert Driver.ReadInMode(rs, regs, budget, old(mode), required, dataReg, n) ==
             Join(sw, Driver.Measure(rest, regs, budget, dataReg, n));
      assert trace[|sw|..] == measured;
      Driver.ReadInModeFacts(rs, regs, budget, old(mode), required, dataReg, n);
    }

    /** `set_sea_pressure`: write BAR_IN_MSB and the pressure in 2 Pa units. */
    method SetSeaPressure(pascals: real) returns (s: Status, ghost trace: seq<Txn>)
      requires SeaPressureInRange(pascals)
      modifies bus
      ensures var o := WriteOutcome(old(bus.replies), SeaPressurePayload(regs, pascals));
        s == o.result && trace == o.trace && bus.replies == o.rest
      ensures bus.log == old(bus.log) + trace
      ensures mode == old(mode)
      ensures s.Ok? <==> NextReply(old(bus.replies)).Ack?
      ensures s.Err? ==> s.error == BusError
    {
      var payload := SeaPressurePayload(regs, pascals);
      ghost var w := WriteOutcome(bus.replies, payload);
      s := bus.Write(payload);
      trace := w.trace;
    }

    /** `set_altitude_offset`: write OFF_H and the offset as a two's-complement byte. */
    method SetAltitudeOffset(offset: int8) returns (s: Status, ghost trace: seq<Txn>)
      modifies bus
      ensures var o := WriteOutcome(old(bus.replies), OffsetPayload(regs, offset));
        s == o.result && trace == o.trace && bus.replies == o.rest
      ensures bus.log == old(bus.log) + trace
      ensures mode == old(mode)
      ensures s.Ok? <==> NextReply(old(bus.replies)).Ack?
      ensures s.Err? ==> s.error == BusError
    {
      var payload := OffsetPayload(regs, offset);
      ghost var w := WriteOutcome(bus.replies, payload);
      s := bus.Write(payload);
      trace := w.trace;
    }
  }
}
