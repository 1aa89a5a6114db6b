/**
 The Telnet command codes of RFC 854 and RFC 885 and the printed form of a
 Telnet stream, shared by the two parsers of the repository.
 */
module Telnet {
  import opened Bytes

  const EOR: byte := 239
  const SE: byte := 240
  const GA: byte := 249
  const SB: byte := 250
  const WILL: byte := 251
  const WONT: byte := 252
  const DO: byte := 253
  const DONT: byte := 254
  const IAC: byte := 255

  const TRANSMIT_BINARY: byte := 0
  const ECHO: byte := 1
  const SUPPRESS_GO_AHEAD: byte := 3
  const TIMING_MARK: byte := 6
  const TERMINAL_TYPE: byte := 24
  const END_OF_RECORD: byte := 25
  const NEW_ENVIRON: byte := 39

  /** EOR, SE, NOP, DM, BRK, IP, AO, AYT, EC, EL and GA: commands without an option byte. */
  predicate IsStandalone(b: byte) {
    EOR <= b <= GA
  }

  /** What a Telnet stream says, one application byte or one command at a time. */
  datatype Elem =
    | AppByte(b: byte)
    | Negotiated(cmd: byte, opt: byte)
    | Command(c: byte)
    | Subnegotiated(opt: byte, data: seq<byte>)

  function ToAppByte(b: byte): seq<Elem> {
    [AppByte(b)]
  }

  /** A run of application bytes as elements. */
  function AppBytes(bytes: seq<byte>): seq<Elem> {
    FlatMap(ToAppByte, bytes)
  }

  /** IAC doubling (section 5 of RFC 856). */
  function Double(b: byte): seq<byte> {
    if b == IAC then [IAC, IAC] else [b]
  }

  function Escape(bytes: seq<byte>): seq<byte> {
    FlatMap(Double, bytes)
  }

  /** The bytes a peer sends to say `e`. */
  function Print(e: Elem): seq<byte> {
    match e
    case AppByte(b) => Double(b)
    case Negotiated(cmd, opt) => [IAC, cmd, opt]
    case Command(c) => [IAC, c]
    case Subnegotiated(opt, data) => [IAC, SB, opt] + Escape(data) + [IAC, SE]
  }

  function PrintAll(es: seq<Elem>): seq<byte> {
    FlatMap(Print, es)
  }

  /** An element the grammar of RFC 854 and RFC 855 can express. */
  predicate WellFormed(e: Elem) {
    match e
    case AppByte(_) => true
    case Negotiated(cmd, _) => WILL <= cmd <= DONT
    case Command(c) => IsStandalone(c) && c != SE
    case Subnegotiated(_, _) => true
  }
}
