/**
 * The transaction sequences the driver issues, as predicates over the bus log:
 * polling runs, the initialisation sequence, a mode switch and a one-shot
 * measurement cycle, plus the ordering facts they imply.
 */
module Protocol {
  import opened Bytes
  import opened Registers
  import opened Bus

  /** A one-byte read of register `reg`. */
  predicate ByteRead(tx: Txn, reg: byte)
  {
    tx.Read? && tx.reg == reg && |tx.data| == 1
  }

  /** A one-byte read of `reg` whose byte has `mask` set (`isSet`) or clear (`!isSet`). */
  predicate Shows(tx: Txn, reg: byte, mask: byte, isSet: bool)
  {
    ByteRead(tx, reg) && AnySet(tx.data[0], mask) == isSet
  }

  /** Polls of `reg` none of which has yet shown the awaited state of `mask`. */
  predicate StillWaiting(t: seq<Txn>, reg: byte, mask: byte, awaitSet: bool)
  {
    t == [] ||
    (StillWaiting(t[..|t| - 1], reg, mask, awaitSet) && Shows(t[|t| - 1], reg, mask, !awaitSet))
  }

  /** Every poll of a waiting run is a read of `reg` showing the old state. */
  lemma {:induction false} WaitingPolls(t: seq<Txn>, reg: byte, mask: byte, awaitSet: bool)
    requires StillWaiting(t, reg, mask, awaitSet)
    ensures forall i :: 0 <= i < |t| ==> Shows(t[i], reg, mask, !awaitSet)
  {
    if t != [] {
      WaitingPolls(t[..|t| - 1], reg, mask, awaitSet);
    }
  }

  /** Prepending a poll to a waiting run: the run keeps waiting exactly when that poll shows the old state. */
  lemma {:induction false} WaitingCons(tx: Txn, t: seq<Txn>, reg: byte, mask: byte, awaitSet: bool)
    ensures StillWaiting([tx] + t, reg, mask, awaitSet) <==>
      Shows(tx, reg, mask, !awaitSet) && StillWaiting(t, reg, mask, awaitSet)
  {
    var s := [tx] + t;
    if t == [] {
      assert s[..|s| - 1] == [];
    } else {
      assert s[..|s| - 1] == [tx] + t[..|t| - 1];
      assert s[|s| - 1] == t[|t| - 1];
      WaitingCons(tx, t[..|t| - 1], reg, mask, awaitSet);
    }
  }

  /** A poll that succeeded: at most `budget` reads, the last and only the last showing the awaited state. */
  predicate PollRun(t: seq<Txn>, reg: byte, mask: byte, awaitSet: bool, budget: nat)
  {
    1 <= |t| <= budget &&
    StillWaiting(t[..|t| - 1], reg, mask, awaitSet) &&
    Shows(t[|t| - 1], reg, mask, awaitSet)
  }

  /** A poll that ran out of budget: `budget` reads, none showing the awaited state. */
  predicate PollExhausted(t: seq<Txn>, reg: byte, mask: byte, awaitSet: bool, budget: nat)
  {
    |t| == budget && StillWaiting(t, reg, mask, awaitSet)
  }

  /** A poll that still shows the old state extends a run of waiting polls. */
  lemma KeepWaiting(t: seq<Txn>, tx: Txn, reg: byte, mask: byte, awaitSet: bool)
    requires StillWaiting(t, reg, mask, awaitSet) && Shows(tx, reg, mask, !awaitSet)
    ensures StillWaiting(t + [tx], reg, mask, awaitSet)
  {
    assert (t + [tx])[..|t|] == t;
  }

  /** A poll that shows the awaited state completes a run of waiting polls. */
  lemma StopWaiting(t: seq<Txn>, tx: Txn, reg: byte, mask: byte, awaitSet: bool, budget: nat)
    requires StillWaiting(t, reg, mask, awaitSet) && Shows(tx, reg, mask, awaitSet) && |t| < budget
    ensures PollRun(t + [tx], reg, mask, awaitSet, budget)
  {
    assert (t + [tx])[..|t|] == t;
  }

  /** No attempt in `t` was refused. */
  predicate NoFailure(t: seq<Txn>)
  {
    t == [] || (!t[0].Failed() && NoFailure(t[1..]))
  }

  predicate EndsInFailure(t: seq<Txn>)
  {
    |t| > 0 && t[|t| - 1].Failed()
  }

  /**
   * Bus errors surface and are not retried: a step reports BusError (`busError`) exactly
   * when its last attempt was refused, and every attempt before the last was acknowledged.
   */
  predicate SurfacesIn(busError: bool, t: seq<Txn>)
  {
    (t == [] || NoFailure(t[..|t| - 1])) && (busError <==> EndsInFailure(t))
  }

  predicate Surfaces<T>(o: Outcome<T>)
  {
    SurfacesIn(o.result.Err? && o.result.error == BusError, o.trace)
  }

  lemma {:induction false} NoFailureAppend(a: seq<Txn>, b: seq<Txn>)
    ensures NoFailure(a + b) <==> NoFailure(a) && NoFailure(b)
  {
    if a == [] {
      assert a + b == b;
    } else {
      assert (a + b)[1..] == a[1..] + b;
      NoFailureAppend(a[1..], b);
    }
  }

  /** No attempt of `t` was refused exactly when none before the last was and the last was not. */
  lemma NoFailureLast(t: seq<Txn>)
    requires t != []
    ensures NoFailure(t) <==> NoFailure(t[..|t| - 1]) && !EndsInFailure(t)
  {
    assert t == t[..|t| - 1] + [t[|t| - 1]];
    NoFailureAppend(t[..|t| - 1], [t[|t| - 1]]);
    assert [t[|t| - 1]][1..] == [];
  }

  /** A step that succeeded had every attempt acknowledged. */
  lemma OkNoFailure<T>(o: Outcome<T>)
    requires Surfaces(o) && o.result.Ok?
    ensures NoFailure(o.trace)
  {
    if o.trace != [] {
      NoFailureLast(o.trace);
    }
  }

  /** The last transaction of `t + s`, and those before it, when `s` is not empty. */
  lemma LastOfAppend(t: seq<Txn>, s: seq<Txn>)
    requires s != []
    ensures (t + s)[..|t + s| - 1] == t + s[..|s| - 1]
    ensures (t + s)[|t + s| - 1] == s[|s| - 1]
  {
  }

  /** Transactions after acknowledged ones keep surfacing their errors. */
  lemma AppendSurfaces(t: seq<Txn>, busError: bool, s: seq<Txn>)
    requires NoFailure(t) && SurfacesIn(busError, s)
    ensures SurfacesIn(busError, t + s)
  {
    if s != [] {
      LastOfAppend(t, s);
      NoFailureAppend(t, s[..|s| - 1]);
    } else {
      assert t + s == t;
      if t != [] {
        NoFailureLast(t);
      }
    }
  }

  /** A step that follows acknowledged transactions keeps surfacing its errors. */
  lemma JoinSurfaces<T>(t: seq<Txn>, o: Outcome<T>)
    requires NoFailure(t) && Surfaces(o)
    ensures Surfaces(Join(t, o))
  {
    AppendSurfaces(t, o.result.Err? && o.result.error == BusError, o.trace);
  }

  /** A poll showing the old state, in front of a poll run, makes a run one read longer. */
  lemma PollRunCons(tx: Txn, t: seq<Txn>, reg: byte, mask: byte, awaitSet: bool, budget: nat)
    requires Shows(tx, reg, mask, !awaitSet) && PollRun(t, reg, mask, awaitSet, budget)
    ensures PollRun([tx] + t, reg, mask, awaitSet, budget + 1)
    ensures ([tx] + t)[|t|] == t[|t| - 1]
  {
    var u := [tx] + t;
    assert u[..|u| - 1] == [tx] + t[..|t| - 1];
    WaitingCons(tx, t[..|t| - 1], reg, mask, awaitSet);
  }

  /** A poll in front of an exhausted poll: exhausted with one read more exactly when it showed the old state. */
  lemma ExhaustedCons(tx: Txn, t: seq<Txn>, reg: byte, mask: byte, awaitSet: bool, budget: nat)
    requires budget > 0
    ensures PollExhausted([tx] + t, reg, mask, awaitSet, budget) <==>
      Shows(tx, reg, mask, !awaitSet) && PollExhausted(t, reg, mask, awaitSet, budget - 1)
  {
    WaitingCons(tx, t, reg, mask, awaitSet);
  }

  /** A poll showing the old state, in front of waiting polls and a refused one, keeps them waiting. */
  lemma WaitingBeforeCons(tx: Txn, t: seq<Txn>, reg: byte, mask: byte, awaitSet: bool)
    requires t != [] && Shows(tx, reg, mask, !awaitSet) && StillWaiting(t[..|t| - 1], reg, mask, awaitSet)
    ensures StillWaiting(([tx] + t)[..|t|], reg, mask, awaitSet)
    ensures ([tx] + t)[|t|] == t[|t| - 1]
  {
    assert ([tx] + t)[..|t|] == [tx] + t[..|t| - 1];
    WaitingCons(tx, t[..|t| - 1], reg, mask, awaitSet);
  }

  /** The number of write transactions in `t`. */
  function Writes(t: seq<Txn>): nat
  {
    if t == [] then 0 else (if t[0].Write? then 1 else 0) + Writes(t[1..])
  }

  lemma WritesCons(tx: Txn, t: seq<Txn>)
    ensures Writes([tx] + t) == (if tx.Write? then 1 else 0) + Writes(t)
  {
    assert ([tx] + t)[1..] == t;
  }

  lemma {:induction false} WritesAppend(a: seq<Txn>, b: seq<Txn>)
    ensures Writes(a + b) == Writes(a) + Writes(b)
  {
    if a != [] {
      WritesAppend(a[1..], b);
      assert (a + b)[0] == a[0];
      assert (a + b)[1..] == a[1..] + b;
    } else {
      assert a + b == b;
    }
  }

  lemma {:induction false} ReadsOnly(t: seq<Txn>)
    requires forall i :: 0 <= i < |t| ==> !t[i].Write?
    ensures Writes(t) == 0
  {
    if t != [] {
      ReadsOnly(t[1..]);
    }
  }

  /** Every transaction of a successful poll is a read. */
  lemma PollRunReads(t: seq<Txn>, reg: byte, mask: byte, awaitSet: bool, budget: nat)
    requires PollRun(t, reg, mask, awaitSet, budget)
    ensures forall i :: 0 <= i < |t| ==> t[i].Read?
    ensures Writes(t) == 0
  {
    WaitingPolls(t[..|t| - 1], reg, mask, awaitSet);
    forall i | 0 <= i < |t| ensures t[i].Read? {
      if i < |t| - 1 {
        assert t[i] == t[..|t| - 1][i];
      }
    }
    ReadsOnly(t);
  }

  /** begin on a device whose WHOAMI byte is not 0xC4: one identity read and nothing else. */
  predicate IdentityMismatch(t: seq<Txn>, regs: RegisterMap)
  {
    |t| == 1 && ByteRead(t[0], regs.whoAmI) && t[0].data[0] != DEVICE_ID
  }

  /**
   * begin on an MPL3115A2: identity read, reset write, CTRL_REG1 polled until RST
   * clears, then CTRL_REG1 = OS128|ALT and PT_DATA_CFG = TDEFE|PDEFE|DREM.
   */
  predicate InitSequence(t: seq<Txn>, regs: RegisterMap, budget: nat)
  {
    |t| >= 5 &&
    t[0] == Read(regs.whoAmI, [DEVICE_ID]) &&
    t[1] == Txn.Write([regs.ctrlReg1, regs.rst]) &&
    PollRun(t[2..|t| - 2], regs.ctrlReg1, regs.rst, false, budget) &&
    t[|t| - 2] == Txn.Write([regs.ctrlReg1, CtrlConfig(regs)]) &&
    t[|t| - 1] == Txn.Write([regs.ptDataCfg, EventConfig(regs)])
  }

  /** begin on an MPL3115A2 whose RST bit never clears within the budget. */
  predicate ResetTimedOut(t: seq<Txn>, regs: RegisterMap, budget: nat)
  {
    |t| >= 2 &&
    t[0] == Read(regs.whoAmI, [DEVICE_ID]) &&
    t[1] == Txn.Write([regs.ctrlReg1, regs.rst]) &&
    PollExhausted(t[2..], regs.ctrlReg1, regs.rst, false, budget)
  }

  /** The reset step of begin: RST written, then CTRL_REG1 polled until RST clears. */
  predicate ResetDone(t: seq<Txn>, regs: RegisterMap, budget: nat)
  {
    |t| >= 1 && t[0] == Txn.Write([regs.ctrlReg1, regs.rst]) &&
    PollRun(t[1..], regs.ctrlReg1, regs.rst, false, budget)
  }

  /** The reset step of begin when RST never clears within the budget. */
  predicate ResetExhausted(t: seq<Txn>, regs: RegisterMap, budget: nat)
  {
    |t| >= 1 && t[0] == Txn.Write([regs.ctrlReg1, regs.rst]) &&
    PollExhausted(t[1..], regs.ctrlReg1, regs.rst, false, budget)
  }

  /** The configuration writes of begin: CTRL_REG1 = OS128|ALT, then PT_DATA_CFG = TDEFE|PDEFE|DREM. */
  function ConfigWrites(regs: RegisterMap): (t: seq<Txn>)
    ensures |t| == 2 && t[0].Write? && t[1].Write?
  {
    [Txn.Write([regs.ctrlReg1, CtrlConfig(regs)]),
     Txn.Write([regs.ptDataCfg, EventConfig(regs)])]
  }

  /** begin's successful transactions, assembled from its steps. */
  lemma InitSequenceFrom(reset: seq<Txn>, config: seq<Txn>, regs: RegisterMap, budget: nat)
    requires ResetDone(reset, regs, budget) && config == ConfigWrites(regs)
    ensures var t := [Read(regs.whoAmI, [DEVICE_ID])] + reset + config;
      InitSequence(t, regs, budget) && !IdentityMismatch(t, regs)
  {
    var t := [Read(regs.whoAmI, [DEVICE_ID])] + reset + config;
    assert t[2..|t| - 2] == reset[1..];
  }

  /** begin's transactions when the reset never completes, assembled from its steps. */
  lemma ResetTimedOutFrom(reset: seq<Txn>, regs: RegisterMap, budget: nat)
    requires |reset| >= 1
    ensures var t := [Read(regs.whoAmI, [DEVICE_ID])] + reset;
      (ResetTimedOut(t, regs, budget) <==> ResetExhausted(reset, regs, budget)) && !IdentityMismatch(t, regs)
  {
    var t := [Read(regs.whoAmI, [DEVICE_ID])] + reset;
    assert t[1] == reset[0];
    assert t[2..] == reset[1..];
  }

  /** A timed-out begin that got past the reset write ends in a read. */
  lemma TimedOutEndsInRead(t: seq<Txn>, regs: RegisterMap, budget: nat)
    requires ResetTimedOut(t, regs, budget) && |t| > 2
    ensures t[|t| - 1].Read?
  {
    var p := t[2..];
    assert p[|p| - 1] == t[|t| - 1];
  }

  /** begin stops issuing writes once the identity check fails. */
  lemma MismatchWritesNothing(t: seq<Txn>, regs: RegisterMap)
    requires IdentityMismatch(t, regs)
    ensures Writes(t) == 0
  {
    assert Writes(t) == Writes(t[1..]);
  }

  /** set_mode: CTRL_REG1 read, then written back with only the ALT bit replaced. */
  predicate ModeSwitch(t: seq<Txn>, regs: RegisterMap, m: Mode)
  {
    |t| == 2 && ByteRead(t[0], regs.ctrlReg1) &&
    t[1] == Txn.Write([regs.ctrlReg1, ModeToggle(t[0].data[0], m)])
  }

  /** initiate_one_shot: CTRL_REG1 polled until OST clears, then that byte written back with OST set. */
  predicate TriggerAfterIdle(idle: seq<Txn>, trigger: Txn, regs: RegisterMap, budget: nat)
  {
    PollRun(idle, regs.ctrlReg1, regs.ost, false, budget) &&
    trigger == Txn.Write([regs.ctrlReg1, WithOst(idle[|idle| - 1].data[0])])
  }

  /** The transactions of one measurement, in the order the driver issues them. */
  datatype Cycle = Cycle(idle: seq<Txn>, trigger: Txn, ready: seq<Txn>, fetch: Txn)
  {
    function Flatten(): (t: seq<Txn>)
      ensures |t| == |idle| + |ready| + 2
    {
      idle + [trigger] + ready + [fetch]
    }
  }

  /** A measurement of `n` bytes from `dataReg`: pre-wait, trigger, data-ready poll, fetch. */
  predicate ValidCycle(c: Cycle, regs: RegisterMap, dataReg: byte, n: nat, budget: nat)
  {
    TriggerAfterIdle(c.idle, c.trigger, regs, budget) &&
    PollRun(c.ready, regs.status, regs.ptdr, true, budget) &&
    c.fetch.Read? && c.fetch.reg == dataReg && |c.fetch.data| == n
  }

  /**
   * The ordering promised of a measurement, read off a flat log: its one write is the
   * trigger, which directly follows a CTRL_REG1 read with OST clear and writes that
   * byte with OST set; the data are fetched last, directly after a STATUS read with
   * PTDR set that comes after the trigger.
   */
  predicate CycleOrder(t: seq<Txn>, regs: RegisterMap, dataReg: byte, n: nat)
  {
    |t| >= 4 && Writes(t) == 1 &&
    t[|t| - 1].Read? && t[|t| - 1].reg == dataReg && |t[|t| - 1].data| == n &&
    Shows(t[|t| - 2], regs.status, regs.ptdr, true) &&
    forall m :: 0 <= m < |t| && t[m].Write? ==>
      0 < m < |t| - 2 &&
      Shows(t[m - 1], regs.ctrlReg1, regs.ost, false) &&
      t[m].payload == [regs.ctrlReg1, WithOst(t[m - 1].data[0])]
  }

  lemma CycleWrites(c: Cycle, regs: RegisterMap, dataReg: byte, n: nat, budget: nat)
    requires ValidCycle(c, regs, dataReg, n, budget)
    ensures Writes(c.Flatten()) == 1
  {
    PollRunReads(c.idle, regs.ctrlReg1, regs.ost, false, budget);
    PollRunReads(c.ready, regs.status, regs.ptdr, true, budget);
    WritesAppend(c.idle, [c.trigger]);
    WritesAppend(c.idle + [c.trigger], c.ready);
    WritesAppend(c.idle + [c.trigger] + c.ready, [c.fetch]);
    assert Writes([c.trigger]) == 1 by { assert [c.trigger][1..] == []; }
    assert Writes([c.fetch]) == 0 by { assert [c.fetch][1..] == []; }
  }

  /** In a measurement cycle the trigger is the only write. */
  lemma CycleOnlyWriteIsTrigger(c: Cycle, regs: RegisterMap, dataReg: byte, n: nat, budget: nat, m: nat)
    requires ValidCycle(c, regs, dataReg, n, budget)
    requires m < |c.Flatten()| && c.Flatten()[m].Write?
    ensures m == |c.idle|
  {
    PollRunReads(c.idle, regs.ctrlReg1, regs.ost, false, budget);
    PollRunReads(c.ready, regs.status, regs.ptdr, true, budget);
  }

  lemma CycleIsOrdered(c: Cycle, regs: RegisterMap, dataReg: byte, n: nat, budget: nat)
    requires ValidCycle(c, regs, dataReg, n, budget)
    ensures CycleOrder(c.Flatten(), regs, dataReg, n)
  {
    var t := c.Flatten();
    var k := |c.idle|;
    CycleWrites(c, regs, dataReg, n, budget);
    assert t[|t| - 2] == c.ready[|c.ready| - 1];
    assert t[k] == c.trigger;
    assert t[k - 1] == c.idle[k - 1];
    forall m | 0 <= m < |t| && t[m].Write?
      ensures 0 < m < |t| - 2
      ensures Shows(t[m - 1], regs.ctrlReg1, regs.ost, false)
      ensures t[m].payload == [regs.ctrlReg1, WithOst(t[m - 1].data[0])]
    {
      CycleOnlyWriteIsTrigger(c, regs, dataReg, n, budget, m);
    }
  }

  /**
   * A pressure or altitude read: a mode switch exactly when the recorded mode is not
   * the required one, then one measurement cycle.
   */
  predicate ReadTrace(t: seq<Txn>, regs: RegisterMap, recorded: Mode, required: Mode, dataReg: byte, n: nat)
  {
    var sw := if recorded == required then 0 else 2;
    |t| >= sw &&
    (sw == 2 ==> ModeSwitch(t[..2], regs, required)) &&
    CycleOrder(t[sw..], regs, dataReg, n)
  }

  /** A mode switch (when the modes differ) followed by an ordered cycle is a read. */
  lemma ReadTraceOf(sw: seq<Txn>, cycle: seq<Txn>, regs: RegisterMap, recorded: Mode, required: Mode, dataReg: byte, n: nat)
    requires recorded == required ==> sw == []
    requires recorded != required ==> ModeSwitch(sw, regs, required)
    requires CycleOrder(cycle, regs, dataReg, n)
    ensures ReadTrace(sw + cycle, regs, recorded, required, dataReg, n)
    ensures Writes(sw + cycle) == if recorded == required then 1 else 2
    ensures (sw + cycle)[|sw + cycle| - 1] == cycle[|cycle| - 1]
  {
    var t := sw + cycle;
    if recorded == required {
      assert t == cycle && t[0..] == t;
    } else {
      assert t[2..] == cycle;
      assert t[..2] == sw;
    }
    ReadTraceWrites(t, regs, recorded, required, dataReg, n);
    LastOfAppend(sw, cycle);
  }

  /** A read's transactions, assembled from its optional mode switch and one measurement cycle. */
  lemma ReadTraceFrom(sw: seq<Txn>, c: Cycle, regs: RegisterMap, recorded: Mode, required: Mode, dataReg: byte, n: nat, budget: nat)
    requires recorded == required ==> sw == []
    requires recorded != required ==> ModeSwitch(sw, regs, required)
    requires ValidCycle(c, regs, dataReg, n, budget)
    ensures ReadTrace(sw + c.Flatten(), regs, recorded, required, dataReg, n)
    ensures Writes(sw + c.Flatten()) == if recorded == required then 1 else 2
  {
    CycleIsOrdered(c, regs, dataReg, n, budget);
    ReadTraceOf(sw, c.Flatten(), regs, recorded, required, dataReg, n);
    ReadTraceWrites(sw + c.Flatten(), regs, recorded, required, dataReg, n);
  }

  /** A read issues one write (the trigger) plus one more (the mode switch) when the mode differed. */
  lemma ReadTraceWrites(t: seq<Txn>, regs: RegisterMap, recorded: Mode, required: Mode, dataReg: byte, n: nat)
    requires ReadTrace(t, regs, recorded, required, dataReg, n)
    ensures Writes(t) == if recorded == required then 1 else 2
  {
    if recorded != required {
      WritesAppend(t[..2], t[2..]);
      assert t == t[..2] + t[2..];
      assert Writes(t[..2]) == 1 by {
        assert t[..2][1..][1..] == [];
      }
    } else {
      assert t[0..] == t;
    }
  }

  /**
   * A measurement that ran out of budget: either the OST poll did, or the trigger was
   * written after an OST poll and the PTDR poll that followed did.
   */
  predicate MeasureTimedOut(t: seq<Txn>, regs: RegisterMap, budget: nat)
  {
    PollExhausted(t, regs.ctrlReg1, regs.ost, false, budget) ||
    exists k :: 2 <= k <= |t| && TriggerAfterIdle(t[..k - 1], t[k - 1], regs, budget) &&
      PollExhausted(t[k..], regs.status, regs.ptdr, true, budget)
  }

  /** A pressure or altitude read that ran out of budget: the mode switch, when needed, then a timed-out measurement. */
  predicate ReadTimedOut(t: seq<Txn>, regs: RegisterMap, recorded: Mode, required: Mode, budget: nat)
  {
    if recorded == required then MeasureTimedOut(t, regs, budget)
    else |t| >= 2 && ModeSwitch(t[..2], regs, required) && MeasureTimedOut(t[2..], regs, budget)
  }

  /** A trigger after an idle poll, followed by an exhausted PTDR poll, is a timed-out measurement. */
  lemma TimedOutAfterTrigger(start: seq<Txn>, ready: seq<Txn>, regs: RegisterMap, budget: nat)
    requires |start| >= 2 && TriggerAfterIdle(start[..|start| - 1], start[|start| - 1], regs, budget)
    requires PollExhausted(ready, regs.status, regs.ptdr, true, budget)
    ensures MeasureTimedOut(start + ready, regs, budget)
  {
    var t := start + ready;
    var k := |start|;
    assert t[..k - 1] == start[..k - 1] && t[k - 1] == start[k - 1];
    assert t[k..] == ready;
  }

  /** A timed-out measurement ends in an acknowledged transaction. */
  lemma TimedOutNotFailed(t: seq<Txn>, regs: RegisterMap, budget: nat)
    requires MeasureTimedOut(t, regs, budget)
    ensures !EndsInFailure(t)
  {
    if t != [] && !PollExhausted(t, regs.ctrlReg1, regs.ost, false, budget) {
      var k :| 2 <= k <= |t| && TriggerAfterIdle(t[..k - 1], t[k - 1], regs, budget) &&
        PollExhausted(t[k..], regs.status, regs.ptdr, true, budget);
      if k < |t| {
        var p := t[k..];
        assert p[|p| - 1] == t[|t| - 1];
      }
    }
  }

  /** A completed measurement cycle did not time out. */
  lemma OrderedNotTimedOut(t: seq<Txn>, regs: RegisterMap, dataReg: byte, n: nat, budget: nat)
    requires CycleOrder(t, regs, dataReg, n)
    ensures !MeasureTimedOut(t, regs, budget)
  {
    if PollExhausted(t, regs.ctrlReg1, regs.ost, false, budget) {
      WaitingPolls(t, regs.ctrlReg1, regs.ost, false);
      ReadsOnly(t);
      assert false;
    }
    if k :| 2 <= k <= |t| && TriggerAfterIdle(t[..k - 1], t[k - 1], regs, budget) &&
             PollExhausted(t[k..], regs.status, regs.ptdr, true, budget) {
      WaitingPolls(t[k..], regs.status, regs.ptdr, true);
      assert false;
    }
  }

  /** From index `from` on, every CTRL_REG1 read of `t` shows the ALT bit of `m`: the device echoes the mode. */
  predicate EchoesMode(t: seq<Txn>, from: nat, regs: RegisterMap, m: Mode)
  {
    forall i :: from <= i < |t| && ByteRead(t[i], regs.ctrlReg1) ==> AltBit(t[i].data[0]) == ModeValue(m)
  }

  /** Every acknowledged CTRL_REG1 write of `t` carries the ALT bit of `m`. */
  predicate KeepsMode(t: seq<Txn>, regs: RegisterMap, m: Mode)
  {
    forall i :: 0 <= i < |t| && t[i].Write? && |t[i].payload| == 2 && t[i].payload[0] == regs.ctrlReg1 ==>
      AltBit(t[i].payload[1]) == ModeValue(m)
  }

  /**
   * `sensor_mode` tracks CTRL_REG1's ALT bit through a read: the mode switch writes the
   * required mode, and the trigger copies the ALT bit of the CTRL_REG1 byte it follows,
   * so when the device echoes the mode every CTRL_REG1 write of the read carries it.
   */
  lemma ReadTracksMode(t: seq<Txn>, regs: RegisterMap, recorded: Mode, required: Mode, dataReg: byte, n: nat)
    requires ReadTrace(t, regs, recorded, required, dataReg, n)
    ensures EchoesMode(t, if recorded == required then 0 else 2, regs, required) ==> KeepsMode(t, regs, required)
  {
    var sw := if recorded == required then 0 else 2;
    var c := t[sw..];
    if EchoesMode(t, sw, regs, required) {
      forall i | 0 <= i < |t| && t[i].Write? && |t[i].payload| == 2 && t[i].payload[0] == regs.ctrlReg1
        ensures AltBit(t[i].payload[1]) == ModeValue(required)
      {
        if i < sw {
          assert t[..2][1] == t[1];
          assert i == 1;
        } else {
          var m := i - sw;
          assert c[m] == t[i] && c[m - 1] == t[i - 1];
          TriggerKeepsAlt(t[i - 1].data[0]);
        }
      }
    }
  }

  /** The configuration write of begin selects the altimeter, the mode begin records. */
  lemma InitRecordsMode(t: seq<Txn>, regs: RegisterMap, budget: nat)
    requires InitSequence(t, regs, budget) && regs.alt == ALT_BIT
    ensures t[|t| - 2].Write? && t[|t| - 2].payload[0] == regs.ctrlReg1
    ensures AltBit(t[|t| - 2].payload[1]) == ModeValue(Altimeter)
  {
    ConfigSelectsAltimeter(regs);
  }
}
