/** Telnet wire-format framing: the immutable TelnetMessage value, its
    accessors, the constructors that serialise outgoing messages, and
    FromBytes, which peels the next message off a byte buffer. */
module Codec {
  import opened Codes
  import opened Wrappers
  import Utils

  datatype TelnetMessageType = DATA | COMMAND | NEGOTIATION | SUBNEGOTIATION

  /** A message: its kind and its bytes. For every kind but DATA the bytes
      include the IAC framing; a DATA message holds payload only. */
  datatype TelnetMessage = TelnetMessage(kind: TelnetMessageType, data: seq<byte>)
  {
    /** getOption: byte 2 of a NEGOTIATION, byte 3 of a SUBNEGOTIATION
        (an index past the end reads as undefined). */
    function GetOption(): (r: Option<byte>)
      ensures r.Some? ==> kind == NEGOTIATION || kind == SUBNEGOTIATION
      ensures r.Some? ==> r.value in data
    {
      match kind
      case NEGOTIATION => if |data| > 2 then Some(data[2]) else None
      case SUBNEGOTIATION => if |data| > 3 then Some(data[3]) else None
      case _ => None
    }

    /** getCommand: byte 1 of a COMMAND or a NEGOTIATION. */
    function GetCommand(): (r: Option<byte>)
      ensures r.Some? ==> kind == COMMAND || kind == NEGOTIATION
      ensures r.Some? ==> r.value in data
    {
      match kind
      case COMMAND | NEGOTIATION => if |data| > 1 then Some(data[1]) else None
      case _ => None
    }

    /** getSub: `data.slice(4, data.length - 2)` of a SUBNEGOTIATION; the
        slice is empty when the end does not lie past index 4. */
    function GetSub(): (r: Option<seq<byte>>)
      ensures r.Some? <==> kind == SUBNEGOTIATION
      ensures r.Some? && |data| >= 6 ==> data == data[..4] + r.value + data[|data| - 2..]
      ensures r.Some? && |data| < 6 ==> r.value == []
    {
      match kind
      case SUBNEGOTIATION => if |data| >= 6 then Some(data[4..|data| - 2]) else Some([])
      case _ => None
    }
  }

  /** fromNegotiate: `IAC code option`. */
  function FromNegotiate(code: byte, option: byte): TelnetMessage {
    TelnetMessage(NEGOTIATION, [IAC, code, option])
  }

  /** fromSubNegotiate: `IAC SB option <data> IAC SE`; IAC bytes of the
      payload are copied as they are, not doubled. */
  function FromSubNegotiate(option: byte, data: seq<byte>): TelnetMessage {
    TelnetMessage(SUBNEGOTIATION, [IAC, SB, option] + data + [IAC, SE])
  }

  /** fromCommand: `IAC command`. */
  function FromCommand(command: byte): TelnetMessage {
    TelnetMessage(COMMAND, [IAC, command])
  }

  /** fromData: the payload as it is. */
  function FromData(data: seq<byte>): TelnetMessage {
    TelnetMessage(DATA, data)
  }

  /** The bytes a message parsed by FromBytes was read from: an escaped
      `IAC IAC` became the one-byte DATA message `[IAC]`; every other
      message holds exactly the bytes it was read from. */
  function WireBytes(m: TelnetMessage): seq<byte> {
    if m.kind == DATA && m.data == [IAC] then [IAC, IAC] else m.data
  }

  /** The result of fromBytes: an optional message and `bytesRead`. */
  datatype ReadResult = ReadResult(message: Option<TelnetMessage>, bytesRead: nat)

  /** fromBytes: the next complete message at the head of `data`, or no
      message and `bytesRead` 0 when more input is needed. */
  function FromBytes(data: seq<byte>): (r: ReadResult)
    ensures r.bytesRead <= |data|
    ensures r.message.Some? <==> r.bytesRead > 0
    ensures r.message.Some? ==> WireBytes(r.message.value) == data[..r.bytesRead]
    ensures r.message.Some? && r.message.value.kind == SUBNEGOTIATION ==> r.bytesRead >= 5
  {
    if |data| < 1 then ReadResult(None, 0)
    else if data[0] == IAC then
      if |data| < 2 then ReadResult(None, 0)
      else if data[1] == IAC then ReadResult(Some(TelnetMessage(DATA, data[..1])), 2)
      else if IsVerb(data[1]) then
        if |data| < 3 then ReadResult(None, 0)
        else ReadResult(Some(TelnetMessage(NEGOTIATION, data[..3])), 3)
      else if data[1] == SB then
        var length := Utils.UntilIACSE(data);
        if length < 5 then ReadResult(None, 0)
        else ReadResult(Some(TelnetMessage(SUBNEGOTIATION, data[..length])), length)
      else ReadResult(Some(TelnetMessage(COMMAND, data[..2])), 2)
    else
      var length := Utils.UntilIAC(data);
      ReadResult(Some(TelnetMessage(DATA, data[..length])), length)
  }

  // -----------------------------------------------------------------------
  // Properties of FromBytes, case by case
  // -----------------------------------------------------------------------

  /** An empty buffer, a lone IAC, or `IAC verb` without its option byte
      gives no message and consumes nothing. */
  lemma NeedMoreInput(data: seq<byte>)
    requires || |data| == 0
             || data == [IAC]
             || (|data| == 2 && data[0] == IAC && IsVerb(data[1]))
    ensures FromBytes(data) == ReadResult(None, 0)
  {
  }

  /** `IAC IAC` is a literal 255 in the data; `IAC x` for any other x that
      is not a verb or SB is a two-byte COMMAND. */
  lemma TwoByteMessages(data: seq<byte>)
    requires |data| >= 2 && data[0] == IAC
    ensures data[1] == IAC ==> FromBytes(data) == ReadResult(Some(TelnetMessage(DATA, [IAC])), 2)
    ensures data[1] != IAC && !IsVerb(data[1]) && data[1] != SB ==>
      FromBytes(data) == ReadResult(Some(FromCommand(data[1])), 2)
  {
    if data[1] != IAC && !IsVerb(data[1]) && data[1] != SB {
      assert data[..2] == [IAC, data[1]];
    }
  }

  /** `IAC verb option` is a NEGOTIATION of exactly its first three bytes. */
  lemma NegotiationMessage(data: seq<byte>)
    requires |data| >= 3 && data[0] == IAC && IsVerb(data[1])
    ensures FromBytes(data) == ReadResult(Some(FromNegotiate(data[1], data[2])), 3)
  {
    assert data[..3] == [IAC, data[1], data[2]];
  }

  /** `IAC SB ...` is a SUBNEGOTIATION of the first k bytes, k the length
      through the first unescaped `IAC SE`, when k >= 5; otherwise more
      input is needed. */
  lemma SubnegotiationMessage(data: seq<byte>)
    requires |data| >= 2 && data[0] == IAC && data[1] == SB
    ensures var k := Utils.UntilIACSE(data);
      FromBytes(data) == if k >= 5 then ReadResult(Some(TelnetMessage(SUBNEGOTIATION, data[..k])), k)
                         else ReadResult(None, 0)
  {
  }

  /** A buffer that does not start with IAC yields its longest IAC-free
      prefix as DATA, of length at least one. */
  lemma DataMessage(data: seq<byte>)
    requires |data| >= 1 && data[0] != IAC
    ensures var r := FromBytes(data);
      && r.bytesRead >= 1
      && r.message == Some(TelnetMessage(DATA, data[..r.bytesRead]))
      && IAC !in data[..r.bytesRead]
      && (r.bytesRead == |data| || data[r.bytesRead] == IAC)
  {
  }

  /** A buffer that starts `IAC SB IAC SE` scans to length 4, so it never
      yields a message however many bytes follow. */
  lemma StuckSubnegotiation(data: seq<byte>)
    requires |data| >= 4 && data[..4] == [IAC, SB, IAC, SE]
    ensures FromBytes(data) == ReadResult(None, 0)
  {
    assert data[0] == IAC && data[1] == SB && data[2] == IAC && data[3] == SE;
    assert Utils.IACRunBefore(data, 2) == 0;
    assert Utils.UnescapedIACSE(data, 2);
  }

  // -----------------------------------------------------------------------
  // Round trips
  // -----------------------------------------------------------------------

  /** A serialised negotiation reparses as itself, three bytes. */
  lemma NegotiateRoundTrip(code: byte, option: byte)
    requires IsVerb(code)
    ensures FromBytes(FromNegotiate(code, option).data) == ReadResult(Some(FromNegotiate(code, option)), 3)
  {
    NegotiationMessage(FromNegotiate(code, option).data);
  }

  /** A serialised command that is not IAC, a verb or SB reparses as itself. */
  lemma CommandRoundTrip(command: byte)
    requires command != IAC && !IsVerb(command) && command != SB
    ensures FromBytes(FromCommand(command).data) == ReadResult(Some(FromCommand(command)), 2)
  {
    TwoByteMessages(FromCommand(command).data);
  }

  /** Non-empty IAC-free data reparses as itself. */
  lemma {:induction false} DataRoundTrip(data: seq<byte>)
    requires |data| >= 1 && IAC !in data
    ensures FromBytes(FromData(data).data) == ReadResult(Some(FromData(data)), |data|)
  {
    assert Utils.UntilIAC(data) == |data|;
    assert data[..|data|] == data;
  }

  /** A serialised subnegotiation whose option and payload hold no IAC
      reparses as one SUBNEGOTIATION of all its 5 + |data| bytes. */
  lemma SubNegotiateRoundTrip(option: byte, data: seq<byte>)
    requires option != IAC && IAC !in data
    ensures var m := FromSubNegotiate(option, data);
      FromBytes(m.data) == ReadResult(Some(m), 5 + |data|)
  {
    var s := FromSubNegotiate(option, data).data;
    var n := |data|;
    assert |s| == 5 + n;
    assert s[3 + n] == IAC && s[4 + n] == SE;
    assert s[2 + n] != IAC by {
      if n == 0 { assert s[2] == option; } else { assert s[2 + n] == data[n - 1]; }
    }
    assert Utils.IACRunBefore(s, 3 + n) == 0;
    assert Utils.UnescapedIACSE(s, 3 + n);
    forall j | 0 <= j < 3 + n
      ensures !Utils.UnescapedIACSE(s, j)
    {
      if j == 0 {
        assert s[1] == SB;
      } else if j >= 3 {
        assert s[j] == data[j - 3];
      }
    }
    assert Utils.UntilIACSE(s) == 5 + n;
    assert s[..5 + n] == s;
  }

  // -----------------------------------------------------------------------
  // Framing is stable under more input
  // -----------------------------------------------------------------------

  lemma {:induction false} ScanIACSEFromExtends(s: seq<byte>, t: seq<byte>, i: nat)
    requires i <= |s|
    requires Utils.ScanIACSEFrom(s, i) != -1
    ensures Utils.ScanIACSEFrom(s + t, i) == Utils.ScanIACSEFrom(s, i)
    decreases |s| - i
  {
    var u := s + t;
    assert i + 1 < |s|;
    assert u[i] == s[i] && u[i + 1] == s[i + 1];
    if s[i] == IAC && s[i + 1] == SE {
    } else if s[i] == IAC && s[i + 1] == IAC {
      ScanIACSEFromExtends(s, t, i + 2);
    } else {
      ScanIACSEFromExtends(s, t, i + 1);
    }
  }

  /** Every message except plain DATA is self-delimiting: once FromBytes
      yields it, appending more bytes yields the same message and count. */
  lemma FromBytesExtends(data: seq<byte>, more: seq<byte>)
    requires FromBytes(data).message.Some?
    requires data[0] == IAC
    ensures FromBytes(data + more) == FromBytes(data)
  {
    var u := data + more;
    assert u[0] == data[0] && u[1] == data[1];
    if IsVerb(data[1]) {
      assert u[2] == data[2];
      assert u[..3] == data[..3];
    } else if data[1] == SB {
      var k := Utils.UntilIACSE(data);
      ScanIACSEFromExtends(data, more, 0);
      assert Utils.UntilIACSE(u) == k;
      assert u[..k] == data[..k];
    } else {
      assert u[..2] == data[..2];
      assert u[..1] == data[..1];
    }
  }

  // -----------------------------------------------------------------------
  // Accessors on constructed messages
  // -----------------------------------------------------------------------

  /** A negotiation answers its code and option and has no payload. */
  lemma NegotiationAccessors(code: byte, option: byte)
    ensures FromNegotiate(code, option).GetCommand() == Some(code)
    ensures FromNegotiate(code, option).GetOption() == Some(option)
    ensures FromNegotiate(code, option).GetSub() == None
  {
  }

  /** The subnegotiation accessors read one byte too far: getOption gives
      the first payload byte (or the closing IAC) rather than the option
      fromSubNegotiate stored at index 2, and getSub drops that byte. */
  lemma SubnegotiationAccessors(option: byte, data: seq<byte>)
    ensures FromSubNegotiate(option, data).GetOption() == Some(if |data| > 0 then data[0] else IAC)
    ensures FromSubNegotiate(option, data).GetSub() == Some(if |data| > 0 then data[1..] else [])
    ensures FromSubNegotiate(option, data).GetCommand() == None
  {
    var s := FromSubNegotiate(option, data).data;
    if |data| > 0 {
      assert s[4..|s| - 2] == data[1..];
    }
  }

  /** A command answers its command byte, and no option or payload. */
  lemma CommandAccessors(command: byte)
    ensures FromCommand(command).GetCommand() == Some(command)
    ensures FromCommand(command).GetOption() == None
    ensures FromCommand(command).GetSub() == None
  {
  }

  /** DATA messages answer no accessor. */
  lemma DataAccessors(data: seq<byte>)
    ensures FromData(data).GetOption() == None
    ensures FromData(data).GetCommand() == None
    ensures FromData(data).GetSub() == None
  {
  }
}
