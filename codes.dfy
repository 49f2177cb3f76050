/** Telnet control bytes and option numbers used by the protocol engine
    (the values of the TelnetCode enumeration). */
module Codes {

  /** One octet of the wire format (a Uint8Array element). */
  newtype byte = b: int | 0 <= b < 256

  const LF: byte := 10
  const CR: byte := 13

  // Option numbers
  const SGA: byte := 3
  const NAWS: byte := 31
  const MCCP2: byte := 86
  const MCCP3: byte := 87

  // Commands
  const SE: byte := 240
  const SB: byte := 250
  const WILL: byte := 251
  const WONT: byte := 252
  const DO: byte := 253
  const DONT: byte := 254
  const IAC: byte := 255

  /** The four option-negotiation verbs. */
  predicate IsVerb(b: byte) {
    b == WILL || b == WONT || b == DO || b == DONT
  }
}
