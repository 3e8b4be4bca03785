/**
 * The error taxonomy of the driver and the decoder of device replies
 * (src/port/error.rs).
 */
module Errors {
  import opened Wrappers
  import opened Protocol

  /**
   * An `io::Error` from the serial line. The driver looks only at whether its
   * kind is `TimedOut`; every other error is an opaque tag.
   */
  datatype IoError = TimedOut | Fault(tag: nat)

  /** A `serialport::Error` from opening the port, as an opaque tag. */
  datatype SerialError = SerialError(tag: nat)

  /** `CommandError`: the failures a command can end in. */
  datatype CommandError =
    | InvalidResponse
    | UnknownError
    | PacketError
    | ImageFail
    | ImageMess
    | FeatureFail
    | InvalidImage
    | EnrollMismatch
    | BadLocation
    | FlashError
    | FingerprintNotFound
    | UnknownCommand

  /**
   * `PortError`. Each variant except `MutexPoison` carries the command that
   * was being run. `CommandFailed` is the source's `PortError::Command`.
   */
  datatype PortError =
    | Io(ioError: IoError, command: Command)
    | MutexPoison
    | SerialPort(serialError: SerialError, command: Command)
    | CommandFailed(cause: CommandError, command: Command)

  /**
   * The failure code the reader sends for each device-reported kind: the
   * inverse of the table in `CommandError::from`. `InvalidResponse` has no
   * code; the reader never reports it.
   */
  function DeviceCode(e: CommandError): (code: Byte)
    requires e != InvalidResponse
    ensures 1 <= code <= 11
  {
    match e
    case UnknownError => 1
    case PacketError => 2
    case ImageFail => 3
    case ImageMess => 4
    case FeatureFail => 5
    case InvalidImage => 6
    case EnrollMismatch => 7
    case BadLocation => 8
    case FlashError => 9
    case FingerprintNotFound => 10
    case UnknownCommand => 11
  }

  /**
   * `CommandError::from(u8)`: the kind a failure code names. Codes 1 to 11
   * name the kinds whose `DeviceCode` they are; every other byte falls back
   * to `UnknownError`. The table is total and never yields `InvalidResponse`.
   */
  function CommandErrorFromByte(b: Byte): (e: CommandError)
    ensures e != InvalidResponse
    ensures 1 <= b <= 11 ==> DeviceCode(e) == b
    ensures !(1 <= b <= 11) ==> e == UnknownError
  {
    if b == 1 then UnknownError
    else if b == 2 then PacketError
    else if b == 3 then ImageFail
    else if b == 4 then ImageMess
    else if b == 5 then FeatureFail
    else if b == 6 then InvalidImage
    else if b == 7 then EnrollMismatch
    else if b == 8 then BadLocation
    else if b == 9 then FlashError
    else if b == 10 then FingerprintNotFound
    else if b == 11 then UnknownCommand
    else UnknownError
  }

  /** The table, code by code, in the order the source lists it. */
  lemma CodeTable()
    ensures CommandErrorFromByte(1) == UnknownError
    ensures CommandErrorFromByte(2) == PacketError
    ensures CommandErrorFromByte(3) == ImageFail
    ensures CommandErrorFromByte(4) == ImageMess
    ensures CommandErrorFromByte(5) == FeatureFail
    ensures CommandErrorFromByte(6) == InvalidImage
    ensures CommandErrorFromByte(7) == EnrollMismatch
    ensures CommandErrorFromByte(8) == BadLocation
    ensures CommandErrorFromByte(9) == FlashError
    ensures CommandErrorFromByte(10) == FingerprintNotFound
    ensures CommandErrorFromByte(11) == UnknownCommand
  {
  }

  /** Every device-reported kind survives the trip through its code. */
  lemma DeviceCodeRoundTrip(e: CommandError)
    requires e != InvalidResponse
    ensures CommandErrorFromByte(DeviceCode(e)) == e
  {
  }

  /** `UnknownError` is reported for code 1 and for exactly the unmapped bytes. */
  lemma UnknownErrorCodes(b: Byte)
    ensures CommandErrorFromByte(b) == UnknownError <==> b == 1 || b == 0 || b >= 12
  {
  }

  /**
   * `PortError::result_from_command_response`: the outcome a reply
   * `[status, data]` reports for the frame `command`. A SUCCESS status yields
   * the data byte as an `i32`; any other status is a failure tagged with the
   * command named by the frame's opcode, whose cause is the table entry of
   * the data byte for a FAIL status and `InvalidResponse` for any other.
   * The SUCCESS branch never looks at the frame, so only the failure branches
   * need an opcode that `Command::from` accepts; both slices are indexed, so
   * they must be long enough.
   */
  function ResultFromCommandResponse(command: seq<Byte>, response: seq<Byte>): (r: Result<int, PortError>)
    requires |response| >= 2
    requires response[0] != SUCCESS_CODE ==> |command| >= 1 && command[0] <= 3
    ensures r.Ok? <==> response[0] == SUCCESS_CODE
    ensures r.Ok? ==> r.value == response[1] && 0 <= r.value <= 255
    ensures r.Err? ==> r.error.CommandFailed? && r.error.command == CommandFromByte(command[0])
    ensures r.Err? ==> (r.error.cause == InvalidResponse <==> response[0] != FAIL_CODE)
  {
    if response[0] == SUCCESS_CODE then
      Ok(response[1])
    else if response[0] == FAIL_CODE then
      Err(CommandFailed(CommandErrorFromByte(response[1]), CommandFromByte(command[0])))
    else
      Err(CommandFailed(InvalidResponse, CommandFromByte(command[0])))
  }

  /** A decoded outcome that reports a protocol violation rather than a device failure. */
  predicate ReportsInvalidResponse(r: Result<int, PortError>) {
    r.Err? && r.error.CommandFailed? && r.error.cause == InvalidResponse
  }

  /** What the reader reports: success with a data byte, or a failure of some kind. */
  datatype DeviceOutcome = Succeeded(data: Byte) | FailedWith(kind: CommandError)

  /**
   * The reply the reader sends to report `o`: `[SUCCESS, data]` or
   * `[FAIL, code]`.
   */
  function DeviceReply(o: DeviceOutcome): (reply: Bytes2)
    requires o.FailedWith? ==> o.kind != InvalidResponse
    ensures IsTerminalStatus(reply[0])
  {
    match o
    case Succeeded(d) => [SUCCESS_CODE, d]
    case FailedWith(k) => [FAIL_CODE, DeviceCode(k)]
  }

  /**
   * Decoding inverts the reader's encoding: a success comes back as its data
   * byte and a failure as its kind, tagged with the frame's command.
   */
  lemma DecodeDeviceReply(command: Bytes2, o: DeviceOutcome)
    requires command[0] <= 3
    requires o.FailedWith? ==> o.kind != InvalidResponse
    ensures ResultFromCommandResponse(command, DeviceReply(o)) ==
      match o
      case Succeeded(d) => Ok(d)
      case FailedWith(k) => Err(CommandFailed(k, CommandFromByte(command[0])))
  {
  }

  /** Every success value is a byte, in 0..255. */
  lemma SuccessValueInRange(command: seq<Byte>, data: Byte)
    ensures var r := ResultFromCommandResponse(command, [SUCCESS_CODE, data]);
      r == Ok(data) && 0 <= r.value <= 255
  {
  }

  /** A status byte other than SUCCESS and FAIL always decodes to `InvalidResponse`. */
  lemma NonTerminalStatusIsInvalid(command: seq<Byte>, response: seq<Byte>)
    requires |response| >= 2 && |command| >= 1 && command[0] <= 3
    requires !IsTerminalStatus(response[0])
    ensures ResultFromCommandResponse(command, response) ==
      Err(CommandFailed(InvalidResponse, CommandFromByte(command[0])))
  {
  }

  /** A FAIL reply carries the kind its data byte names in the table. */
  lemma FailReplyCause(command: seq<Byte>, data: Byte)
    requires |command| >= 1 && command[0] <= 3
    ensures ResultFromCommandResponse(command, [FAIL_CODE, data]) ==
      Err(CommandFailed(CommandErrorFromByte(data), CommandFromByte(command[0])))
  {
  }

  /**
   * Only the opcode byte of the frame matters: frames that agree on it
   * decode every reply alike.
   */
  lemma DecodeDependsOnlyOnOpcode(c1: seq<Byte>, c2: seq<Byte>, response: seq<Byte>)
    requires |response| >= 2
    requires |c1| >= 1 && |c2| >= 1 && c1[0] == c2[0] && c1[0] <= 3
    ensures ResultFromCommandResponse(c1, response) == ResultFromCommandResponse(c2, response)
  {
  }

  /** A reply with a terminal status never decodes to `InvalidResponse`. */
  lemma TerminalReplyIsNeverInvalid(command: seq<Byte>, response: seq<Byte>)
    requires |response| >= 2 && |command| >= 1 && command[0] <= 3
    requires IsTerminalStatus(response[0])
    ensures !ReportsInvalidResponse(ResultFromCommandResponse(command, response))
  {
  }
}
