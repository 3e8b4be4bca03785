# Fingerprint reader serial driver in Dafny

This project models the serial-protocol driver of a fingerprint attendance
tracker. It covers `src/port/error.rs` and `src/port/mod.rs`.

The driver talks to a fingerprint reader with 2-byte frames. A frame is
`[opcode, argument]`, with opcodes Ready = 0, Enroll = 1, Match = 2 and Clear = 3.
The reader answers with a 2-byte reply `[status, data]`. A status of 0xFF
(SUCCESS) carries a data byte. A status of 0xFE (FAIL) carries a failure code,
which a fixed table maps to a `CommandError`. Any other status is a protocol
violation (`InvalidResponse`).

`send_command` does the following:

1. Takes the lock. A poisoned lock yields `MutexPoison`.
2. Writes the frame, then flushes it. If either fails, the result is `Io`.
3. Reads 2 bytes at a time:
   - a timeout is skipped;
   - a reply with a non-terminal status is discarded;
   - a reply with a terminal status is returned;
   - any other I/O error is returned as `Io`.

The operations `enroll_fingerprint`, `match_fingerprint`, `clear_fingerprints`
and the handshake in `get` build their frame, call `send_command` and decode
the reply.

The model has four modules:

- `Wrappers` holds `Option` and `Result`.
- `Protocol` holds bytes, `Command`, the status constants and the frames.
- `Errors` holds the error taxonomy, the code table and the decoder
  `ResultFromCommandResponse`.
- `Port` models the rest of `src/port/mod.rs`:
  - `Line` is a scripted serial port. A write or flush either succeeds or fails
    with a given error. Each `read_exact` consumes the next event of a finite
    script.
  - `FingerprintPort` is the lock-guarded port. Its `SendCommand` method runs
    the while-loop over the script with a 2-byte `array` buffer, which it zeroes
    after each discarded reply.
  - `PollReplies` (the poll loop) and `Transact` (a whole `send_command`) are
    the pure functions that specify the methods.

The real poll loop never gives up. If the script runs out without a terminal
reply or a fatal error, the model returns `Blocked`, meaning "still waiting".
It never reports a timeout error.

Notes on how the model follows the code:

- `PortError::Command` is named `CommandFailed` here, because `Command` is
  already the name of the command type.
- `Command::from` panics on opcodes above 3 (`src/port/mod.rs:35`). This
  becomes a precondition.
- The decoder reads the frame only on its failure branches. So its
  precondition asks for a valid opcode only when the status is not SUCCESS.
  It also asks for at least two response bytes. That is one byte more than
  the source needs when the status is neither SUCCESS nor FAIL, because then
  `response[1]` is never read (`src/port/error.rs:34-37`). Every caller passes
  a `[u8; 2]`, so no call is excluded.
- `enroll_fingerprint` and `clear_fingerprints` discard a success reply's data
  byte (`src/port/mod.rs:112-114`, `130-132`). Enrolling slot 5 and getting
  the reply `[0xFF, 5]` therefore yields `Ok(())`, not the slot id
  (`Port.EnrollSlotFive`).

## Model

| member | source | states |
|---|---|---|
| `Protocol.CommandByte` | src/port/mod.rs:17-26 | a command's opcode `c as u8` is at most 3 |
| `Protocol.CommandFromByte` | src/port/mod.rs:28-38 | `Command::from` is defined only on bytes 0..3 (a precondition stands for the panic), and the command it returns has the given opcode |
| `Protocol.CommandRoundTrip` | src/port/mod.rs:17-37 | `Command::from(c as u8) == c` for all four commands |
| `Protocol.CommandByteInjective` | src/port/mod.rs:17-26 | two commands have the same opcode exactly when they are equal |
| `Protocol.CommandFrame` | src/port/mod.rs:85 | a frame is two bytes: the opcode, which reads back as the command, then the argument |
| `Protocol.ReadyFrame` | src/port/mod.rs:85 | the handshake frame is `[0, 0]` |
| `Protocol.EnrollFrame` | src/port/mod.rs:108 | the enroll frame is `[1, fingerprint_id]` |
| `Protocol.MatchFrame` | src/port/mod.rs:118 | the match frame is `[2, 0]` |
| `Protocol.ClearFrame` | src/port/mod.rs:126 | the clear frame is `[3, 0]` |
| `Errors.DeviceCode` | src/port/error.rs:74-85 | every device-reported kind has a code in 1..11 (the inverse table) |
| `Errors.CommandErrorFromByte` | src/port/error.rs:72-89 | the table is total and never yields `InvalidResponse`; codes 1..11 name the kinds with that code; every other byte is `UnknownError` |
| `Errors.CodeTable` | src/port/error.rs:74-85 | codes 1..11 map to UnknownError, PacketError, ImageFail, ImageMess, FeatureFail, InvalidImage, EnrollMismatch, BadLocation, FlashError, FingerprintNotFound and UnknownCommand, in that order |
| `Errors.DeviceCodeRoundTrip` | src/port/error.rs:72-89 | every kind but `InvalidResponse` is recovered from its code |
| `Errors.UnknownErrorCodes` | src/port/error.rs:75-86 | `UnknownError` comes from byte 0, byte 1 and bytes 12..255, and from nothing else |
| `Errors.ResultFromCommandResponse` | src/port/error.rs:27-39 | the result is `Ok` exactly when the status is SUCCESS, and then it is the data byte, in 0..255; every failure is a `Command` error tagged with `Command::from(command[0])`; its cause is `InvalidResponse` exactly when the status is not FAIL |
| `Errors.DeviceReply` | src/port/error.rs:28-33 | the reply a reader sends for a success or a failure kind has a terminal status |
| `Errors.DecodeDeviceReply` | src/port/error.rs:27-39 | decoding inverts the reader's encoding: `[SUCCESS, d]` gives `Ok(d)` and `[FAIL, code(k)]` gives kind `k`, tagged with the frame's command |
| `Errors.SuccessValueInRange` | src/port/error.rs:29 | `[SUCCESS, d]` decodes to `Ok(d)` for any frame; the value is in 0..255 |
| `Errors.FailReplyCause` | src/port/error.rs:30-33 | `[FAIL, d]` decodes to `CommandError::from(d)`, tagged with `Command::from(command[0])` |
| `Errors.NonTerminalStatusIsInvalid` | src/port/error.rs:34-37 | any status other than SUCCESS and FAIL decodes to `InvalidResponse`, tagged with the frame's command |
| `Errors.DecodeDependsOnlyOnOpcode` | src/port/error.rs:30-37 | frames that agree on `command[0]` decode every reply alike |
| `Errors.TerminalReplyIsNeverInvalid` | src/port/error.rs:28-37 | a reply with status SUCCESS or FAIL never decodes to `InvalidResponse` |
| `Port.Line.Write` | src/port/mod.rs:140-142 | a write either sends the frame or fails with the line's error and sends nothing |
| `Port.Line.Flush` | src/port/mod.rs:145-147 | a flush either happens or fails with the line's error |
| `Port.Line.ReadExact` | src/port/mod.rs:152 | a read consumes one event; it fills the 2-byte buffer with a reply, or reports an error and leaves the buffer as it was |
| `Port.PollReplies` | src/port/mod.rs:151-169 | the loop stops at the first reply with a terminal status or the first non-timeout error, and returns what that event reports; it consumes that event and everything before it; every earlier event is a timeout or a discarded reply; it blocks exactly when no event stops it |
| `Port.PollEndsAtFirstStop` | src/port/mod.rs:151-169 | if event `k` is the first stop event, the loop returns its result after exactly `k + 1` reads |
| `Port.TimeoutsThenSuccess` | src/port/mod.rs:152-161 | after `n` timeouts, for any `n`, a reply `[SUCCESS, v]` is returned with no error surfaced, after `n + 1` reads |
| `Port.ReadErrorIsFatal` | src/port/mod.rs:162-167 | a non-timeout read error after skipped events returns `Io` tagged with the command at once; no later event is read |
| `Port.PollIgnoresLaterEvents` | src/port/mod.rs:155-167 | events after the one that ends the loop never affect the result |
| `Port.Transact` | src/port/mod.rs:135-173 | a whole `send_command`: a read happens only after the frame is written and flushed; a blocked call has written and flushed the frame and read the whole script; an `Ok` reply always has status SUCCESS or FAIL |
| `Port.PoisonedLockTouchesNothing` | src/port/mod.rs:138-171 | a poisoned lock gives `MutexPoison`; nothing is written, flushed or read |
| `Port.WriteFaultIsFatal` | src/port/mod.rs:140-142 | a failed write gives `Io` tagged with `Command::from(command[0])`; no flush and no read |
| `Port.FlushFaultIsFatal` | src/port/mod.rs:145-147 | a failed flush gives `Io` tagged with `Command::from(command[0])`; no read |
| `Port.SentRepliesAreNeverInvalid` | src/port/mod.rs:155-157 | decoding anything that `send_command` returns never reports `InvalidResponse` |
| `Port.Conclude` | src/port/mod.rs:120-122 | after `send_command(..)?`, an error propagates unchanged, a reply is decoded, and a blocked call stays blocked; a reply with a terminal status never decodes to `InvalidResponse` |
| `Port.Acknowledge` | src/port/mod.rs:110-114 | `?; Ok(())` keeps the error unchanged, and turns success into `Ok(())` |
| `Port.AcknowledgeIgnoresData` | src/port/mod.rs:128-132 | on a success reply, enroll and clear return `Ok(())` whatever the data byte |
| `Port.MatchReturnsSlot` | src/port/mod.rs:117-123 | on a success reply, match returns the data byte as the slot id |
| `Port.DeviceFailurePropagates` | src/port/mod.rs:107-133 | a FAIL reply reaches the caller of every operation as the kind its code names, tagged with the operation's command, with no retry |
| `Port.EnrollSlotFive` | src/port/mod.rs:107-115 | enrolling slot 5 sends `[1, 5]`; one timeout then `[SUCCESS, 5]` gives `Ok(())` after two reads; `[FAIL, 10]` gives `FingerprintNotFound` tagged `Enroll` |
| `Port.FingerprintPort.constructor` | src/port/mod.rs:86-93 | a new shared port wraps the line in a lock that is not poisoned |
| `Port.FingerprintPort.MarkPoisoned` | src/port/mod.rs:41 | a holder that panics poisons the lock; `SendCommand` never clears the flag, so every later call fails with `MutexPoison` |
| `Port.FingerprintPort.SendCommand` | src/port/mod.rs:135-173 | the result, the writes and flushes, and the events consumed are exactly those of `Transact`; an `Ok` reply has status SUCCESS or FAIL (that the read buffer is zero at the top of every poll iteration is a loop invariant, not part of the contract) |
| `Port.FingerprintPort.EnrollFingerprint` | src/port/mod.rs:107-115 | sends `[1, fingerprint_id]` once, decodes the reply and drops its value |
| `Port.FingerprintPort.MatchFingerprint` | src/port/mod.rs:117-123 | sends `[2, 0]` once and returns the decoded reply, whose success value is in 0..255 |
| `Port.FingerprintPort.ClearFingerprints` | src/port/mod.rs:125-133 | sends `[3, 0]` once, decodes the reply and drops its value |
| `Port.FingerprintPort.Get` | src/port/mod.rs:85-104 | only the opened line's log and pending reads change, so its write and flush behaviour carry over to the returned port; a failed open gives `SerialPort` tagged `Ready`; otherwise the handshake `[0, 0]` is sent once; the fresh, unpoisoned port is returned only if the reader answers with success, and any other outcome is returned unchanged |

## Left out

- Port discovery and opening in `get` are not modelled (`src/port/mod.rs:74-93`). This covers `available_ports` and its `unwrap`, the choice of `ports[0]`, and opening the port at 9600 baud with a 10 ms timeout. These are library and OS calls. `Get` receives the result of opening the port as a parameter.
- The 3000 ms boot delay and all `println!` logging are left out. They are timing and console output.
- `Arc` sharing and the mutual exclusion between threads are left out, because they are concurrency. The model is sequential, and the mutex is only its poison flag, checked on entry.
- The poll loop's unbounded blocking is cut to a finite script of read events. When the script ends with no terminal reply and no fatal error, the result is `Blocked`.
- Port.Line.ReadExact: a timed-out read leaves the buffer unchanged, because the contents of a partial `read_exact` belong to the standard library. The retry on `Interrupted` inside `read_exact` is also not modelled.
- Port.Line.Write: it always writes the whole frame, because the source ignores the byte count that `write` returns (it only prints it). A short write by the real port is not modelled.
- The payloads of `std::io::Error` and `serialport::Error` are opaque tags. The only thing observed is whether an I/O error's kind is `TimedOut`.
- `send_command` panics when called with an opcode above 3. This happens only once the lock is taken and the write is done: a poisoned lock returns `MutexPoison` before `Command::from` runs. The precondition `frame[0] <= 3` excludes this panic, because every frame the driver builds has opcode 0..3.
- The driver can still poison the lock itself. It holds the lock across three `println!` calls (`src/port/mod.rs:148-156`), and `println!` panics when writing to stdout fails. Logging is left out, so the model cannot produce this panic. `MarkPoisoned` stands for it, and for any other holder of the lock that panics.
- `BAUD_RATE` is not modelled: it is used only to open the port.
- `src/server.rs`, `src/main.rs` and `src/models.rs` (HTTP routing, SQLite queries, configuration, JSON types) are not part of this model.
