/**
 * The wire vocabulary of the fingerprint reader (src/port/mod.rs): bytes,
 * the four commands and their opcodes, the two terminal status bytes, and
 * the 2-byte frames each operation sends.
 */
module Protocol {

  /** A `u8`. */
  type Byte = b: int | 0 <= b < 256

  /** A `[u8; 2]`: every frame sent and every response read is exactly two bytes. */
  type Bytes2 = s: seq<Byte> | |s| == 2 witness [0, 0]

  /** `SUCCESS_CODE`, 0b11111111: the status byte of a reply reporting success. */
  const SUCCESS_CODE: Byte := 0xFF

  /** `FAIL_CODE`, 0b11111110: the status byte of a reply reporting a device failure. */
  const FAIL_CODE: Byte := 0xFE

  /** A status byte that ends the poll loop: SUCCESS or FAIL. */
  predicate IsTerminalStatus(status: Byte) {
    status == SUCCESS_CODE || status == FAIL_CODE
  }

  /** The commands the reader understands. */
  datatype Command = Ready | Enroll | Match | Clear

  /** `c as u8`: the opcode of a command (Ready = 0, Enroll = 1, Match = 2, Clear = 3). */
  function CommandByte(c: Command): (b: Byte)
    ensures b <= 3
  {
    match c
    case Ready => 0
    case Enroll => 1
    case Match => 2
    case Clear => 3
  }

  /**
   * `Command::from(u8)`: the command an opcode names. The source panics on
   * any byte above 3, so such bytes are excluded by the precondition.
   */
  function CommandFromByte(b: Byte): (c: Command)
    requires b <= 3
    ensures CommandByte(c) == b
  {
    if b == 0 then Ready
    else if b == 1 then Enroll
    else if b == 2 then Match
    else Clear
  }

  /** Reading an opcode back gives the command it was made from. */
  lemma CommandRoundTrip(c: Command)
    ensures CommandFromByte(CommandByte(c)) == c
  {
  }

  /** Distinct commands have distinct opcodes. */
  lemma CommandByteInjective(c: Command, d: Command)
    ensures CommandByte(c) == CommandByte(d) <==> c == d
  {
  }

  /** The frame `[c as u8, argument]` that asks the reader to run `c`. */
  function CommandFrame(c: Command, argument: Byte): (f: Bytes2)
    ensures f[0] <= 3 && CommandFromByte(f[0]) == c
    ensures f[1] == argument
  {
    [CommandByte(c), argument]
  }

  /** The handshake frame built by `get`. */
  function ReadyFrame(): (f: Bytes2)
    ensures f == [0, 0]
  {
    CommandFrame(Ready, 0)
  }

  /** The frame built by `enroll_fingerprint`: the opcode and the slot to store the template in. */
  function EnrollFrame(fingerprintId: Byte): (f: Bytes2)
    ensures f == [1, fingerprintId]
  {
    CommandFrame(Enroll, fingerprintId)
  }

  /** The frame built by `match_fingerprint`. */
  function MatchFrame(): (f: Bytes2)
    ensures f == [2, 0]
  {
    CommandFrame(Match, 0)
  }

  /** The frame built by `clear_fingerprints`. */
  function ClearFrame(): (f: Bytes2)
    ensures f == [3, 0]
  {
    CommandFrame(Clear, 0)
  }
}
