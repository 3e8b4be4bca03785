/**
 * The fingerprint port (src/port/mod.rs): the lock-guarded serial line,
 * `send_command`'s write, flush and poll loop, and the four operations built
 * on it.
 *
 * The physical line is replaced by `Line`, a scripted transport: a write and
 * a flush either succeed or fail with a given error, and each `read_exact`
 * takes the next event of a finite script. Where the real loop would go on
 * blocking after the script runs out, the model reports `Blocked`.
 */
module Port {
  import opened Wrappers
  import opened Protocol
  import opened Errors

  /** What one `read_exact` of two bytes yields: both bytes, or an I/O error. */
  datatype ReadEvent = Bytes(first: Byte, second: Byte) | Failed(err: IoError)

  /** An operation that reached the line: a frame written, or a flush. */
  datatype LineOp = Wrote(frame: Bytes2) | Flushed

  /**
   * The outcome of an exchange that, in the source, blocks until it ends:
   * `Finished` with the value the source returns, or `Blocked` when the
   * script holds no event that would end it.
   */
  datatype Poll<+T> = Finished(result: T) | Blocked

  /** What `send_command` returns: the 2-byte reply or an error. */
  type Reply = Result<Bytes2, PortError>

  /** What `result_from_command_response` returns. */
  type Decoded = Result<int, PortError>

  /** What `enroll_fingerprint` and `clear_fingerprints` return. */
  type Acknowledged = Result<(), PortError>

  /** The serial port: a scripted stand-in for `Box<dyn serialport::SerialPort>`. */
  class Line {
    /** The error the next `write` fails with, if any. */
    var writeFault: Option<IoError>
    /** The error the next `flush` fails with, if any. */
    var flushFault: Option<IoError>
    /** The read events not consumed yet, in order. */
    var incoming: seq<ReadEvent>
    /** Every write and flush that reached the line, in order. */
    var log: seq<LineOp>

    constructor (writeFault: Option<IoError>, flushFault: Option<IoError>, incoming: seq<ReadEvent>)
      ensures this.writeFault == writeFault && this.flushFault == flushFault
      ensures this.incoming == incoming && log == []
    {
      this.writeFault := writeFault;
      this.flushFault := flushFault;
      this.incoming := incoming;
      log := [];
    }

    /** `write`: sends the frame, or fails and sends nothing. */
    method Write(frame: Bytes2) returns (r: Result<nat, IoError>)
      modifies this`log
      ensures writeFault.Some? ==> r == Err(writeFault.value) && log == old(log)
      ensures writeFault.None? ==> r == Ok(|frame|) && log == old(log) + [Wrote(frame)]
    {
      if writeFault.Some? {
        r := Err(writeFault.value);
      } else {
        log := log + [Wrote(frame)];
        r := Ok(|frame|);
      }
    }

    /** `flush`: pushes the written bytes out, or fails. */
    method Flush() returns (r: Result<(), IoError>)
      modifies this`log
      ensures flushFault.Some? ==> r == Err(flushFault.value) && log == old(log)
      ensures flushFault.None? ==> r == Ok(()) && log == old(log) + [Flushed]
    {
      if flushFault.Some? {
        r := Err(flushFault.value);
      } else {
        log := log + [Flushed];
        r := Ok(());
      }
    }

    /**
     * `read_exact` into a 2-byte buffer: consumes the next event; on
     * `Bytes` fills the buffer, on an error leaves it as it was.
     */
    method ReadExact(buf: array<Byte>) returns (r: Result<(), IoError>)
      requires buf.Length == 2 && incoming != []
      modifies this`incoming, buf
      ensures incoming == old(incoming)[1..]
      ensures old(incoming)[0].Bytes? ==>
        r == Ok(()) && buf[..] == [old(incoming)[0].first, old(incoming)[0].second]
      ensures old(incoming)[0].Failed? ==>
        r == Err(old(incoming)[0].err) && buf[..] == old(buf[..])
    {
      var ev := incoming[0];
      incoming := incoming[1..];
      match ev
      case Bytes(a, b) =>
        buf[0], buf[1] := a, b;
        r := Ok(());
      case Failed(e) =>
        r := Err(e);
    }
  }

  /**
   * An event that ends the poll loop: a reply whose status is SUCCESS or
   * FAIL, or an I/O error other than a timeout.
   */
  predicate IsStop(ev: ReadEvent) {
    match ev
    case Bytes(status, _) => IsTerminalStatus(status)
    case Failed(e) => !e.TimedOut?
  }

  /** What `send_command` returns when the loop ends on `ev`. */
  function StopResult(ev: ReadEvent, command: Command): Reply
    requires IsStop(ev)
  {
    match ev
    case Bytes(status, data) => Ok([status, data])
    case Failed(e) => Err(Io(e, command))
  }

  /** A run of the poll loop: how it ended and how many read events it consumed. */
  datatype PollRun = PollRun(outcome: Poll<Reply>, consumed: nat)

  /**
   * The poll loop of `send_command` over the read events `events`, one
   * iteration per event: a timeout is skipped, a reply with another status
   * byte is discarded, a reply with a terminal status is returned and any
   * other error is returned as `Io`. The loop stops at the first stop event
   * and consumes nothing after it; with no stop event it consumes everything
   * and stays blocked.
   */
  function PollReplies(events: seq<ReadEvent>, command: Command): (p: PollRun)
    ensures p.consumed <= |events|
    ensures p.outcome.Blocked? <==> forall j :: 0 <= j < |events| ==> !IsStop(events[j])
    ensures p.outcome.Blocked? ==> p.consumed == |events|
    ensures p.outcome.Finished? ==>
      0 < p.consumed && IsStop(events[p.consumed - 1]) &&
      p.outcome.result == StopResult(events[p.consumed - 1], command) &&
      forall j :: 0 <= j < p.consumed - 1 ==> !IsStop(events[j])
    decreases |events|
  {
    if events == [] then
      PollRun(Blocked, 0)
    else
      match events[0]
      case Bytes(status, data) =>
        if IsTerminalStatus(status) then
          PollRun(Finished(Ok([status, data])), 1)
        else
          var rest := PollReplies(events[1..], command);
          PollRun(rest.outcome, rest.consumed + 1)
      case Failed(e) =>
        if e.TimedOut? then
          var rest := PollReplies(events[1..], command);
          PollRun(rest.outcome, rest.consumed + 1)
        else
          PollRun(Finished(Err(Io(e, command))), 1)
  }

  /**
   * The poll loop ends exactly at the first stop event `k`: it returns what
   * that event reports, having consumed it and everything before it.
   */
  lemma PollEndsAtFirstStop(events: seq<ReadEvent>, command: Command, k: nat)
    requires k < |events| && IsStop(events[k])
    requires forall j :: 0 <= j < k ==> !IsStop(events[j])
    ensures PollReplies(events, command) == PollRun(Finished(StopResult(events[k], command)), k + 1)
  {
  }

  /** A run of `n` timeouts. */
  function Timeouts(n: nat): (s: seq<ReadEvent>)
    ensures |s| == n && forall j :: 0 <= j < n ==> s[j] == Failed(TimedOut)
  {
    seq(n, _ => Failed(TimedOut))
  }

  /**
   * Any number of timeouts before a reply `[SUCCESS, v]` surface no error:
   * the loop returns the reply after `n + 1` reads, whatever follows it.
   */
  lemma {:induction false} TimeoutsThenSuccess(n: nat, v: Byte, later: seq<ReadEvent>, command: Command)
    ensures PollReplies(Timeouts(n) + [Bytes(SUCCESS_CODE, v)] + later, command) ==
      PollRun(Finished(Ok([SUCCESS_CODE, v])), n + 1)
  {
    if n > 0 {
      var events := Timeouts(n) + [Bytes(SUCCESS_CODE, v)] + later;
      assert events[1..] == Timeouts(n - 1) + [Bytes(SUCCESS_CODE, v)] + later;
      TimeoutsThenSuccess(n - 1, v, later, command);
    }
  }

  /**
   * A non-timeout read error at attempt `k`, with only skipped events before
   * it, is returned at once as `Io`; nothing after it is read.
   */
  lemma ReadErrorIsFatal(skipped: seq<ReadEvent>, e: IoError, later: seq<ReadEvent>, command: Command)
    requires !e.TimedOut?
    requires forall j :: 0 <= j < |skipped| ==> !IsStop(skipped[j])
    ensures PollReplies(skipped + [Failed(e)] + later, command) ==
      PollRun(Finished(Err(Io(e, command))), |skipped| + 1)
  {
    var events := skipped + [Failed(e)] + later;
    assert events[|skipped|] == Failed(e);
    assert forall j :: 0 <= j < |skipped| ==> events[j] == skipped[j];
    PollEndsAtFirstStop(events, command, |skipped|);
  }

  /**
   * Events after the one that ends the loop are never looked at: appending
   * to a script that already ends the loop changes nothing.
   */
  lemma {:induction false} PollIgnoresLaterEvents(events: seq<ReadEvent>, later: seq<ReadEvent>, command: Command)
    requires PollReplies(events, command).outcome.Finished?
    ensures PollReplies(events + later, command) == PollReplies(events, command)
  {
    var p := PollReplies(events, command);
    var k := p.consumed - 1;
    assert forall j :: 0 <= j <= k ==> (events + later)[j] == events[j];
    PollEndsAtFirstStop(events, command, k);
    PollEndsAtFirstStop(events + later, command, k);
  }

  /** The effect of one `send_command` on the line: its result, the writes and flushes, the reads. */
  datatype Exchange = Exchange(outcome: Poll<Reply>, ops: seq<LineOp>, consumed: nat)

  /**
   * `send_command` as a function of the lock's state and the line's script:
   * a poisoned lock fails at once with `MutexPoison`; a failed write or flush
   * fails with `Io`; otherwise the frame is written, flushed and the poll
   * loop runs over the pending reads.
   */
  function Transact(poisoned: bool, writeFault: Option<IoError>, flushFault: Option<IoError>,
                    incoming: seq<ReadEvent>, frame: Bytes2): (x: Exchange)
    requires frame[0] <= 3
    ensures x.consumed <= |incoming|
    ensures x.consumed > 0 ==> x.ops == [Wrote(frame), Flushed]
    ensures x.outcome.Blocked? ==> x.ops == [Wrote(frame), Flushed] && x.consumed == |incoming|
    ensures x.outcome.Finished? && x.outcome.result.Ok? ==> IsTerminalStatus(x.outcome.result.value[0])
  {
    var command := CommandFromByte(frame[0]);
    if poisoned then
      Exchange(Finished(Err(MutexPoison)), [], 0)
    else if writeFault.Some? then
      Exchange(Finished(Err(Io(writeFault.value, command))), [], 0)
    else if flushFault.Some? then
      Exchange(Finished(Err(Io(flushFault.value, command))), [Wrote(frame)], 0)
    else
      var p := PollReplies(incoming, command);
      Exchange(p.outcome, [Wrote(frame), Flushed], p.consumed)
  }

  /**
   * `result_from_command_response` applied to what `send_command` returned,
   * as each operation does after `?`: an error is passed on unchanged, a
   * reply is decoded, and a blocked exchange stays blocked.
   */
  function Conclude(frame: Bytes2, reply: Poll<Reply>): (r: Poll<Decoded>)
    requires frame[0] <= 3
    ensures r.Blocked? <==> reply.Blocked?
    ensures reply.Finished? && reply.result.Err? ==> r == Finished(Err(reply.result.error))
    ensures reply.Finished? && reply.result.Ok? ==>
      r == Finished(ResultFromCommandResponse(frame, reply.result.value))
    ensures reply.Finished? && reply.result.Ok? && IsTerminalStatus(reply.result.value[0]) ==>
      !ReportsInvalidResponse(r.result)
  {
    match reply
    case Blocked => Blocked
    case Finished(Err(e)) => Finished(Err(e))
    case Finished(Ok(response)) => Finished(ResultFromCommandResponse(frame, response))
  }

  /** `?; Ok(())`: keeps the error of a decoded outcome and drops its success value. */
  function Acknowledge(r: Poll<Decoded>): (a: Poll<Acknowledged>)
    ensures a.Blocked? <==> r.Blocked?
    ensures r.Finished? ==> (a.result.Ok? <==> r.result.Ok?)
    ensures r.Finished? && r.result.Err? ==> a.result.error == r.result.error
  {
    match r
    case Blocked => Blocked
    case Finished(Ok(_)) => Finished(Ok(()))
    case Finished(Err(e)) => Finished(Err(e))
  }

  /** A poisoned lock fails with `MutexPoison` and nothing is written, flushed or read. */
  lemma PoisonedLockTouchesNothing(writeFault: Option<IoError>, flushFault: Option<IoError>,
                                   incoming: seq<ReadEvent>, frame: Bytes2)
    requires frame[0] <= 3
    ensures Transact(true, writeFault, flushFault, incoming, frame) ==
      Exchange(Finished(Err(MutexPoison)), [], 0)
  {
  }

  /** A failed write is an `Io` error tagged with the frame's command; no read is attempted. */
  lemma WriteFaultIsFatal(e: IoError, flushFault: Option<IoError>, incoming: seq<ReadEvent>, frame: Bytes2)
    requires frame[0] <= 3
    ensures Transact(false, Some(e), flushFault, incoming, frame) ==
      Exchange(Finished(Err(Io(e, CommandFromByte(frame[0])))), [], 0)
  {
  }

  /** A failed flush is an `Io` error tagged with the frame's command; no read is attempted. */
  lemma FlushFaultIsFatal(e: IoError, incoming: seq<ReadEvent>, frame: Bytes2)
    requires frame[0] <= 3
    ensures Transact(false, None, Some(e), incoming, frame) ==
      Exchange(Finished(Err(Io(e, CommandFromByte(frame[0])))), [Wrote(frame)], 0)
  {
  }

  /**
   * Decoding what `send_command` returned never reports `InvalidResponse`:
   * the poll loop only hands back replies with a terminal status.
   */
  lemma SentRepliesAreNeverInvalid(poisoned: bool, writeFault: Option<IoError>, flushFault: Option<IoError>,
                                   incoming: seq<ReadEvent>, frame: Bytes2)
    requires frame[0] <= 3
    ensures var r := Conclude(frame, Transact(poisoned, writeFault, flushFault, incoming, frame).outcome);
      r.Finished? ==> !ReportsInvalidResponse(r.result)
  {
  }

  /** On a success reply enroll and clear return `Ok(())`, whatever the data byte. */
  lemma AcknowledgeIgnoresData(frame: Bytes2, data: Byte)
    requires frame[0] <= 3
    ensures Acknowledge(Conclude(frame, Finished(Ok([SUCCESS_CODE, data])))) == Finished(Ok(()))
  {
  }

  /** On a success reply match returns the data byte, the matched slot id. */
  lemma MatchReturnsSlot(data: Byte)
    ensures Conclude(MatchFrame(), Finished(Ok([SUCCESS_CODE, data]))) == Finished(Ok(data))
  {
  }

  /**
   * A device failure reaches the caller of every operation as the kind its
   * code names, tagged with the operation's command.
   */
  lemma DeviceFailurePropagates(c: Command, argument: Byte, code: Byte)
    ensures var frame := CommandFrame(c, argument);
      var failure := CommandFailed(CommandErrorFromByte(code), c);
      Conclude(frame, Finished(Ok([FAIL_CODE, code]))) == Finished(Err(failure)) &&
      Acknowledge(Conclude(frame, Finished(Ok([FAIL_CODE, code])))) == Finished(Err(failure))
  {
  }

  /**
   * Enrolling slot 5: the frame is `[1, 5]`; a reply `[SUCCESS, 5]` after a
   * timeout is success, and a reply `[FAIL, 10]` is `FingerprintNotFound`
   * tagged `Enroll`.
   */
  lemma EnrollSlotFive()
    ensures EnrollFrame(5) == [1, 5]
    ensures var x := Transact(false, None, None, [Failed(TimedOut), Bytes(SUCCESS_CODE, 5)], EnrollFrame(5));
      x.ops == [Wrote([1, 5]), Flushed] && x.consumed == 2 &&
      Acknowledge(Conclude(EnrollFrame(5), x.outcome)) == Finished(Ok(()))
    ensures var x := Transact(false, None, None, [Bytes(FAIL_CODE, 10)], EnrollFrame(5));
      Acknowledge(Conclude(EnrollFrame(5), x.outcome)) == Finished(Err(CommandFailed(FingerprintNotFound, Enroll)))
  {
    TimeoutsThenSuccess(1, 5, [], Enroll);
    assert Timeouts(1) + [Bytes(SUCCESS_CODE, 5)] + [] == [Failed(TimedOut), Bytes(SUCCESS_CODE, 5)];
  }

  /**
   * The shared port: `Arc<Mutex<Box<dyn SerialPort>>>`. The mutex is
   * modelled by its poison flag alone; the serial line it guards is `line`.
   */
  class FingerprintPort {
    /** Set when a holder of the lock panicked: `lock()` then fails. */
    var poisoned: bool
    const line: Line

    constructor (line: Line)
      ensures this.line == line && !poisoned
    {
      this.line := line;
      poisoned := false;
    }

    /** A thread panics while holding the lock: from now on `lock()` fails. */
    method MarkPoisoned()
      modifies this
      ensures poisoned
    {
      poisoned := true;
    }

    /** What `send_command(frame)` does given the current lock and line state. */
    ghost function Expected(frame: Bytes2): Exchange
      reads this, line
      requires frame[0] <= 3
    {
      Transact(poisoned, line.writeFault, line.flushFault, line.incoming, frame)
    }

    /**
     * `send_command`: takes the lock, writes and flushes the frame, then
     * reads 2 bytes at a time until a reply with a terminal status or a
     * non-timeout error. Timeouts are skipped; a reply with any other status
     * is discarded and the buffer zeroed.
     */
    method SendCommand(frame: Bytes2) returns (r: Poll<Reply>)
      requires frame[0] <= 3
      modifies line`log, line`incoming
      ensures var x := old(Expected(frame));
        r == x.outcome && line.log == old(line.log) + x.ops && line.incoming == old(line.incoming)[x.consumed..]
      ensures r.Finished? && r.result.Ok? ==> IsTerminalStatus(r.result.value[0])
    {
      var readBuf := new Byte[2](_ => 0);
      if poisoned {
        return Finished(Err(MutexPoison));
      }
      var command := CommandFromByte(frame[0]);
      var written := line.Write(frame);
      if written.Err? {
        return Finished(Err(Io(written.error, command)));
      }
      var flushed := line.Flush();
      if flushed.Err? {
        return Finished(Err(Io(flushed.error, command)));
      }
      ghost var script := line.incoming;
      ghost var consumed := 0;
      while line.incoming != []
        invariant consumed <= |script| && line.incoming == script[consumed..]
        invariant line.log == old(line.log) + [Wrote(frame), Flushed]
        invariant readBuf[..] == [0, 0]
        invariant PollReplies(script, command).outcome == PollReplies(line.incoming, command).outcome
        invariant PollReplies(script, command).consumed == consumed + PollReplies(line.incoming, command).consumed
        decreases |line.incoming|
      {
        var got := line.ReadExact(readBuf);
        consumed := consumed + 1;
        match got
        case Ok(_) =>
          if readBuf[0] == SUCCESS_CODE || readBuf[0] == FAIL_CODE {
            return Finished(Ok([readBuf[0], readBuf[1]]));
          }
          readBuf[0], readBuf[1] := 0, 0;
        case Err(e) =>
          if !e.TimedOut? {
            return Finished(Err(Io(e, command)));
          }
      }
      r := Blocked;
    }

    /** `enroll_fingerprint`: stores a scanned template in slot `fingerprintId`. */
    method EnrollFingerprint(fingerprintId: Byte) returns (r: Poll<Acknowledged>)
      modifies line`log, line`incoming
      ensures var x := old(Expected(EnrollFrame(fingerprintId)));
        r == Acknowledge(Conclude(EnrollFrame(fingerprintId), x.outcome)) &&
        line.log == old(line.log) + x.ops && line.incoming == old(line.incoming)[x.consumed..]
    {
      var frame := EnrollFrame(fingerprintId);
      var reply := SendCommand(frame);
      r := Acknowledge(Conclude(frame, reply));
    }

    /** `match_fingerprint`: the slot id of the scanned finger's template. */
    method MatchFingerprint() returns (r: Poll<Decoded>)
      modifies line`log, line`incoming
      ensures var x := old(Expected(MatchFrame()));
        r == Conclude(MatchFrame(), x.outcome) &&
        line.log == old(line.log) + x.ops && line.incoming == old(line.incoming)[x.consumed..]
      ensures r.Finished? && r.result.Ok? ==> 0 <= r.result.value <= 255
    {
      var frame := MatchFrame();
      var reply := SendCommand(frame);
      r := Conclude(frame, reply);
    }

    /** `clear_fingerprints`: wipes every template the reader holds. */
    method ClearFingerprints() returns (r: Poll<Acknowledged>)
      modifies line`log, line`incoming
      ensures var x := old(Expected(ClearFrame()));
        r == Acknowledge(Conclude(ClearFrame(), x.outcome)) &&
        line.log == old(line.log) + x.ops && line.incoming == old(line.incoming)[x.consumed..]
    {
      var frame := ClearFrame();
      var reply := SendCommand(frame);
      r := Acknowledge(Conclude(frame, reply));
    }

    /**
     * `get` after the port is opened: `openResult` is the outcome of opening it.
     * A failed open is a `SerialPort` error tagged `Ready`; otherwise the
     * handshake frame is sent, and the port is handed out only if the reader
     * answers it with success.
     */
    static method Get(openResult: Result<Line, SerialError>) returns (r: Poll<Result<FingerprintPort, PortError> >)
      modifies (if openResult.Ok? then {openResult.value} else {})`log,
               (if openResult.Ok? then {openResult.value} else {})`incoming
      ensures openResult.Err? ==> r == Finished(Err(SerialPort(openResult.error, Ready)))
      ensures openResult.Ok? ==>
        var x := old(Transact(false, openResult.value.writeFault, openResult.value.flushFault,
                              openResult.value.incoming, ReadyFrame()));
        var a := Acknowledge(Conclude(ReadyFrame(), x.outcome));
        openResult.value.log == old(openResult.value.log) + x.ops &&
        openResult.value.incoming == old(openResult.value.incoming)[x.consumed..] &&
        (a.Blocked? ==> r.Blocked?) &&
        (a.Finished? && a.result.Err? ==> r == Finished(Err(a.result.error))) &&
        (a.Finished? && a.result.Ok? ==>
          r.Finished? && r.result.Ok? && fresh(r.result.value) &&
          r.result.value.line == openResult.value && !r.result.value.poisoned)
    {
      var frame := ReadyFrame();
      if openResult.Err? {
        return Finished(Err(SerialPort(openResult.error, CommandFromByte(frame[0]))));
      }
      var port := new FingerprintPort(openResult.value);
      var reply := port.SendCommand(frame);
      var handshake := Acknowledge(Conclude(frame, reply));
      match handshake
      case Blocked => r := Blocked;
      case Finished(Err(e)) => r := Finished(Err(e));
      case Finished(Ok(_)) => r := Finished(Ok(port));
    }
  }
}
