/**
 * The I2C bus as the driver sees it: a write, and a write of a register address
 * followed by a read. The device's answers come from a script; every attempted
 * transaction, acknowledged or refused, is appended to a log, against which the
 * driver's protocol is stated.
 */
module Bus {
  import opened Bytes

  /**
   * An attempted transaction: a write of `payload` or a read of `data` starting at
   * `reg` that the device completed, or a write or an `n`-byte read that it refused.
   */
  datatype Txn =
    | Write(payload: seq<byte>)
    | Read(reg: byte, data: seq<byte>)
    | FailedWrite(payload: seq<byte>)
    | FailedRead(reg: byte, n: nat)
  {
    predicate Failed()
    {
      FailedWrite? || FailedRead?
    }
  }

  /** The device's answer to the next transaction. */
  datatype Reply = Ack(data: seq<byte>) | Nack

  datatype Error = BusError | UnexpectedDevice | Timeout

  datatype Result<T> = Ok(value: T) | Err(error: Error)

  type Status = Result<()>

  /** What a step of the driver returns, the transactions it attempted and the replies left. */
  datatype Outcome<T> = Outcome(result: Result<T>, trace: seq<Txn>, rest: seq<Reply>)

  /** A step run after the transactions `t`. */
  function Join<T>(t: seq<Txn>, o: Outcome<T>): Outcome<T>
  {
    Outcome(o.result, t + o.trace, o.rest)
  }

  /** The status of a step whose value is not used. */
  function Discard<T>(r: Result<T>): Status
  {
    if r.Ok? then Ok(()) else Err(r.error)
  }

  /** The next reply; a device that has stopped answering does not acknowledge. */
  function NextReply(replies: seq<Reply>): Reply
  {
    if replies == [] then Nack else replies[0]
  }

  function RestReplies(replies: seq<Reply>): seq<Reply>
  {
    if replies == [] then [] else replies[1..]
  }

  /** `hal::write` against the script: done exactly when the next reply acknowledges. */
  function WriteOutcome(replies: seq<Reply>, payload: seq<byte>): Outcome<()>
  {
    if NextReply(replies).Ack? then Outcome(Ok(()), [Txn.Write(payload)], RestReplies(replies))
    else Outcome(Err(BusError), [FailedWrite(payload)], RestReplies(replies))
  }

  /** `hal::write_then_read` of `n` bytes against the script: done exactly when the next reply carries `n` bytes. */
  function ReadOutcome(replies: seq<Reply>, reg: byte, n: nat): Outcome<seq<byte>>
  {
    var reply := NextReply(replies);
    if reply.Ack? && |reply.data| == n then Outcome(Ok(reply.data), [Read(reg, reply.data)], RestReplies(replies))
    else Outcome(Err(BusError), [FailedRead(reg, n)], RestReplies(replies))
  }

  /** Appending to the log one transaction at a time or a run at once gives the same log. */
  lemma LogGrows(log: seq<Txn>, run: seq<Txn>, next: seq<Txn>)
    ensures log + (run + next) == (log + run) + next
  {
  }

  class I2c {
    var replies: seq<Reply>
    ghost var log: seq<Txn>

    constructor (script: seq<Reply>)
      ensures replies == script && log == []
    {
      replies := script;
      log := [];
    }

    /** `hal::write`: succeeds when the device acknowledges; the attempt is logged either way. */
    method Write(payload: seq<byte>) returns (s: Status)
      modifies this
      ensures s.Ok? <==> NextReply(old(replies)).Ack?
      ensures var o := WriteOutcome(old(replies), payload);
        s == o.result && log == old(log) + o.trace && replies == o.rest
    {
      var reply := NextReply(replies);
      replies := RestReplies(replies);
      if reply.Ack? {
        log := log + [Txn.Write(payload)];
        s := Ok(());
      } else {
        log := log + [FailedWrite(payload)];
        s := Err(BusError);
      }
    }

    /** `hal::write_then_read` of `n` bytes from `reg`: succeeds when exactly `n` bytes arrive. */
    method WriteThenRead(reg: byte, n: nat) returns (r: Result<seq<byte>>)
      modifies this
      ensures r.Ok? <==> NextReply(old(replies)).Ack? && |NextReply(old(replies)).data| == n
      ensures r.Ok? ==> r.value == NextReply(old(replies)).data
      ensures var o := ReadOutcome(old(replies), reg, n);
        r == o.result && log == old(log) + o.trace && replies == o.rest
    {
      var reply := NextReply(replies);
      replies := RestReplies(replies);
      if reply.Ack? && |reply.data| == n {
        log := log + [Read(reg, reply.data)];
        r := Ok(reply.data);
      } else {
        log := log + [FailedRead(reg, n)];
        r := Err(BusError);
      }
    }
  }
}
