/** The two stream stages of a session: incoming bytes become messages,
    outgoing messages become byte chunks, and each stage switches on zlib
    compression after a particular subnegotiation. The zlib objects are
    abstract: a stream is the bytes written to it so far, and what a write
    followed by a flush makes readable is given by a function of that
    history and the new bytes. */
module Transform {
  import opened Codes
  import opened Wrappers
  import opened Seqs
  import opened Codec

  /** What a zlib object returns for `chunk` (write, flush, read) when
      `history` has been written to it before. */
  type StreamCodec = (seq<byte>, seq<byte>) -> seq<byte>

  /** An installed zlib object: everything written to it so far. */
  datatype ZlibStream = ZlibStream(written: seq<byte>)

  /** The compression trigger both stages test: a SUBNEGOTIATION whose byte
      at index 4 is `code` (a shorter message reads that byte as undefined
      and never matches). */
  predicate IsCompressionStart(m: TelnetMessage, code: byte) {
    m.kind == SUBNEGOTIATION && |m.data| > 4 && m.data[4] == code
  }

  /** The messages' bytes as they stood in the input, one after another. */
  function WireConcat(ms: seq<TelnetMessage>): seq<byte> {
    if ms == [] then [] else WireBytes(ms[0]) + WireConcat(ms[1..])
  }

  /** The messages' payloads, one after another. */
  function DataConcat(ms: seq<TelnetMessage>): seq<byte> {
    if ms == [] then [] else ms[0].data + DataConcat(ms[1..])
  }

  lemma WireConcatCons(m: TelnetMessage, ms: seq<TelnetMessage>)
    ensures WireConcat([m] + ms) == WireBytes(m) + WireConcat(ms)
  {
    assert ([m] + ms)[1..] == ms;
  }

  lemma {:induction false} DataConcatSnoc(ms: seq<TelnetMessage>, m: TelnetMessage)
    ensures DataConcat(ms + [m]) == DataConcat(ms) + m.data
  {
    if ms == [] {
      assert [m][1..] == [];
      assert ms + [m] == [m];
    } else {
      assert (ms + [m])[1..] == ms[1..] + [m];
      DataConcatSnoc(ms[1..], m);
    }
  }

  /** The subnegotiation that `fromSubNegotiate` builds matches a
      compression trigger exactly when the payload's second byte is the
      code: its byte 4 is the payload's byte 1, and for a payload of fewer
      than two bytes it is the framing (IAC or SE), never 86 or 87. */
  lemma SubNegotiateStart(option: byte, payload: seq<byte>, code: byte)
    requires code == MCCP2 || code == MCCP3
    ensures IsCompressionStart(FromSubNegotiate(option, payload), code) <==>
      |payload| >= 2 && payload[1] == code
  {
    var d := FromSubNegotiate(option, payload).data;
    assert d == [IAC, SB, option] + payload + [IAC, SE];
    if |payload| >= 2 {
      assert d[4] == payload[1];
    } else if |payload| == 1 {
      assert d[4] == IAC;
    } else {
      assert d[4] == SE;
    }
  }

  /** Hence the standard announcement `IAC SB MCCP2 IAC SE` (and likewise
      MCCP3) switches on no compression. */
  lemma StandardStartIgnored(code: byte)
    requires code == MCCP2 || code == MCCP3
    ensures !IsCompressionStart(FromSubNegotiate(code, []), code)
  {
    SubNegotiateStart(code, [], code);
  }

  // =======================================================================
  // Incoming: bytes to messages
  // =======================================================================

  /** What the incoming loop leaves: the messages enqueued in order, the
      buffer it stops on and the decoder then installed. */
  datatype Drained = Drained(messages: seq<TelnetMessage>, buffer: seq<byte>, decoder: Option<ZlibStream>)

  /** The incoming loop as a function: peel messages off `b` until FromBytes
      needs more input; after the first MCCP3 trigger seen with no decoder,
      the rest of the buffer is pushed through a new zlib object and
      parsing goes on over its output. */
  function Drain(b: seq<byte>, decoder: Option<ZlibStream>, zlib: StreamCodec): (d: Drained)
    // The loop stops on an empty buffer or one with no complete message.
    ensures d.buffer == [] || FromBytes(d.buffer).message.None?
    // A decoder, once there, is kept; none is installed without a trigger.
    ensures decoder.Some? ==> d.decoder == decoder
    decreases if decoder.None? then 1 else 0, |b|
  {
    if |b| == 0 then Drained([], b, decoder)
    else
      var r := FromBytes(b);
      if r.message.None? || r.bytesRead == 0 then Drained([], b, decoder)
      else
        var m := r.message.value;
        var rest := b[r.bytesRead..];
        var d := if IsCompressionStart(m, MCCP3) && decoder.None?
          then Drain(zlib([], rest), Some(ZlibStream(rest)), zlib)
          else Drain(rest, decoder, zlib);
        Drained([m] + d.messages, d.buffer, d.decoder)
  }

  /** One turn of the incoming loop: the message at the head of the buffer
      is enqueued and the loop goes on with the bytes after it (pushed
      through a new decoder if it was the first trigger). */
  lemma DrainStep(b: seq<byte>, decoder: Option<ZlibStream>, zlib: StreamCodec)
    requires FromBytes(b).message.Some?
    ensures var r := FromBytes(b);
      var m := r.message.value;
      var rest := b[r.bytesRead..];
      var t := if IsCompressionStart(m, MCCP3) && decoder.None?
        then Drain(zlib([], rest), Some(ZlibStream(rest)), zlib)
        else Drain(rest, decoder, zlib);
      Drain(b, decoder, zlib) == Drained([m] + t.messages, t.buffer, t.decoder)
  {
  }

  /** Nothing is lost or reordered while no decoder is switched on: the
      enqueued messages' bytes followed by the final buffer are the input. */
  lemma {:induction false} DrainKeepsBytes(b: seq<byte>, decoder: Option<ZlibStream>, zlib: StreamCodec)
    requires decoder.Some? || Drain(b, decoder, zlib).decoder.None?
    ensures var d := Drain(b, decoder, zlib);
      WireConcat(d.messages) + d.buffer == b
    decreases |b|
  {
    var r := FromBytes(b);
    if r.message.Some? {
      var rest := b[r.bytesRead..];
      PlainStep(b, decoder, zlib);
      DrainKeepsBytes(rest, decoder, zlib);
      var t := Drain(rest, decoder, zlib);
      KeepStep(b, r.bytesRead, r.message.value, t.messages, t.buffer);
    }
  }

  /** Without a switch, one turn goes on with the plain rest of the buffer. */
  lemma PlainStep(b: seq<byte>, decoder: Option<ZlibStream>, zlib: StreamCodec)
    requires FromBytes(b).message.Some?
    requires decoder.Some? || Drain(b, decoder, zlib).decoder.None?
    ensures var r := FromBytes(b);
      var rest := b[r.bytesRead..];
      && |rest| < |b|
      && (decoder.Some? || Drain(rest, decoder, zlib).decoder.None?)
      && Drain(b, decoder, zlib) == Drained([r.message.value] + Drain(rest, decoder, zlib).messages,
                                            Drain(rest, decoder, zlib).buffer, Drain(rest, decoder, zlib).decoder)
  {
    DrainStep(b, decoder, zlib);
  }

  /** The loop ends on an empty buffer or one with no complete message. */
  lemma DrainDone(b: seq<byte>, decoder: Option<ZlibStream>, zlib: StreamCodec)
    requires |b| == 0 || FromBytes(b).message.None?
    ensures Drain(b, decoder, zlib) == Drained([], b, decoder)
  {
  }

  /** A message read from the head of a buffer, followed by the bytes of
      what was read after it, gives back the buffer. */
  lemma KeepStep(b: seq<byte>, n: nat, m: TelnetMessage, ms: seq<TelnetMessage>, rest: seq<byte>)
    requires n <= |b| && WireBytes(m) == b[..n] && WireConcat(ms) + rest == b[n..]
    ensures WireConcat([m] + ms) + rest == b
  {
    WireConcatCons(m, ms);
    assert b == b[..n] + b[n..];
  }

  /** `ms[j]` is the first MCCP3 trigger among `ms`, and the messages up to
      and including it were read from the first `n` bytes of `b`. */
  ghost predicate FirstStartAt(b: seq<byte>, ms: seq<TelnetMessage>, j: nat, n: nat) {
    && j < |ms| && IsCompressionStart(ms[j], MCCP3)
    && (forall i :: 0 <= i < j ==> !IsCompressionStart(ms[i], MCCP3))
    && n == |WireConcat(ms[..j + 1])| && n <= |b| && WireConcat(ms[..j + 1]) == b[..n]
  }

  /** The loop that started on `b` with no decoder ended in `d` by
      switching on at the trigger `d.messages[j]`, read from the first `n`
      bytes: the new decoder holds exactly the bytes after it, and every
      later message is parsed from the decoder's output. */
  ghost predicate SwitchedAt(b: seq<byte>, d: Drained, j: nat, n: nat, zlib: StreamCodec) {
    && FirstStartAt(b, d.messages, j, n)
    && var after := Drain(zlib([], b[n..]), Some(ZlibStream(b[n..])), zlib);
       d == Drained(d.messages[..j + 1] + after.messages, after.buffer, Some(ZlibStream(b[n..])))
  }

  /** Switching decompression on: with no decoder, if the loop ends with
      one, then it switched on at the first MCCP3 trigger read from the
      plain bytes. */
  lemma {:induction false} DrainSwitchOver(b: seq<byte>, zlib: StreamCodec)
    requires Drain(b, None, zlib).decoder.Some?
    ensures exists j: nat, n: nat :: SwitchedAt(b, Drain(b, None, zlib), j, n, zlib)
    decreases |b|
  {
    var r := FromBytes(b);
    assert r.message.Some?;
    var m := r.message.value;
    var k := r.bytesRead;
    var rest := b[k..];
    DrainStep(b, None, zlib);
    if IsCompressionStart(m, MCCP3) {
      var after := Drain(zlib([], rest), Some(ZlibStream(rest)), zlib);
      StartAtHead(b, k, m, after.messages);
      assert SwitchedAt(b, Drain(b, None, zlib), 0, k, zlib);
    } else {
      var t := Drain(rest, None, zlib);
      DrainSwitchOver(rest, zlib);
      var j: nat, n: nat :| SwitchedAt(rest, t, j, n, zlib);
      SwitchLater(b, k, m, t, j, n, zlib);
      assert SwitchedAt(b, Drain(b, None, zlib), j + 1, k + n, zlib);
    }
  }

  /** Conversely, an MCCP3 trigger enqueued while no decoder is installed
      always switches one on. */
  lemma {:induction false} TriggerInstalls(b: seq<byte>, zlib: StreamCodec, i: nat)
    requires i < |Drain(b, None, zlib).messages|
    requires IsCompressionStart(Drain(b, None, zlib).messages[i], MCCP3)
    ensures Drain(b, None, zlib).decoder.Some?
    decreases |b|
  {
    var r := FromBytes(b);
    if |b| == 0 || r.message.None? {
      assert false;
    }
    DrainStep(b, None, zlib);
    var m := r.message.value;
    if !IsCompressionStart(m, MCCP3) {
      var rest := b[r.bytesRead..];
      var t := Drain(rest, None, zlib);
      assert Drain(b, None, zlib).messages == [m] + t.messages;
      assert i > 0;
      assert t.messages[i - 1] == Drain(b, None, zlib).messages[i];
      TriggerInstalls(rest, zlib, i - 1);
    }
  }

  /** A plain message in front of a loop that switched on later. */
  lemma SwitchLater(b: seq<byte>, k: nat, m: TelnetMessage, t: Drained, j: nat, n: nat, zlib: StreamCodec)
    requires k <= |b| && WireBytes(m) == b[..k] && !IsCompressionStart(m, MCCP3)
    requires SwitchedAt(b[k..], t, j, n, zlib)
    ensures SwitchedAt(b, Drained([m] + t.messages, t.buffer, t.decoder), j + 1, k + n, zlib)
  {
    StartLater(b, k, m, t.messages, j, n);
    var after := Drain(zlib([], b[k + n..]), Some(ZlibStream(b[k + n..])), zlib);
    Associative([m], t.messages[..j + 1], after.messages);
  }

  lemma StartAtHead(b: seq<byte>, k: nat, m: TelnetMessage, ms: seq<TelnetMessage>)
    requires k <= |b| && WireBytes(m) == b[..k] && IsCompressionStart(m, MCCP3)
    ensures FirstStartAt(b, [m] + ms, 0, k)
    ensures ([m] + ms)[..1] + ms == [m] + ms
  {
    assert ([m] + ms)[..1] == [m];
    WireConcatCons(m, []);
  }

  lemma StartLater(b: seq<byte>, k: nat, m: TelnetMessage, ms: seq<TelnetMessage>, j: nat, n: nat)
    requires k <= |b| && WireBytes(m) == b[..k] && !IsCompressionStart(m, MCCP3)
    requires FirstStartAt(b[k..], ms, j, n)
    ensures FirstStartAt(b, [m] + ms, j + 1, k + n)
    ensures b[k..][n..] == b[k + n..]
    ensures ([m] + ms)[..j + 2] == [m] + ms[..j + 1]
  {
    var ms' := [m] + ms;
    assert ms'[..j + 2] == [m] + ms[..j + 1];
    WireConcatCons(m, ms[..j + 1]);
    assert b[..k + n] == b[..k] + b[k..][..n];
    forall i | 0 <= i < j + 1 ensures !IsCompressionStart(ms'[i], MCCP3) {
      if i > 0 { assert ms'[i] == ms[i - 1]; }
    }
  }

  /** The bytes a chunk adds to the buffer: the chunk itself, or with a
      decoder what the decoder makes of it (the decoder's history grows by
      the chunk). */
  function Inflow(decoder: Option<ZlibStream>, chunk: seq<byte>, zlib: StreamCodec): (r: (Option<ZlibStream>, seq<byte>))
    ensures decoder.None? ==> r == (None, chunk)
    ensures decoder.Some? ==> r.0 == Some(ZlibStream(decoder.value.written + chunk))
  {
    match decoder
    case None => (None, chunk)
    case Some(s) => (Some(ZlibStream(s.written + chunk)), zlib(s.written, chunk))
  }

  /** TelnetIncomingTransformer: the buffer of bytes not yet parsed, the
      optional decoder, and the messages enqueued downstream. */
  class TelnetIncomingTransformer {
    var buffer: seq<byte>
    var decoder: Option<ZlibStream>
    var enqueued: seq<TelnetMessage>
    /** The zlib object `enableMCCP3` constructs. */
    const zlib: StreamCodec

    constructor (zlib: StreamCodec)
      ensures buffer == [] && decoder.None? && enqueued == [] && this.zlib == zlib
    {
      buffer := [];
      decoder := None;
      enqueued := [];
      this.zlib := zlib;
    }

    /** transform: append the chunk (through the decoder, if any), then
        enqueue every complete message at the head of the buffer. */
    method Transform(chunk: seq<byte>)
      modifies this`buffer, this`decoder, this`enqueued
      ensures var (d0, bytes) := Inflow(old(decoder), chunk, zlib);
        var d := Drain(old(buffer) + bytes, d0, zlib);
        enqueued == old(enqueued) + d.messages && buffer == d.buffer && decoder == d.decoder
    {
      var bytes := chunk;
      if decoder.Some? {
        bytes := zlib(decoder.value.written, chunk);
        decoder := Some(ZlibStream(decoder.value.written + chunk));
      }
      buffer := buffer + bytes;
      ghost var target := Drain(buffer, decoder, zlib);
      while |buffer| > 0
        invariant enqueued + Drain(buffer, decoder, zlib).messages == old(enqueued) + target.messages
        invariant Drain(buffer, decoder, zlib).buffer == target.buffer
        invariant Drain(buffer, decoder, zlib).decoder == target.decoder
        decreases if decoder.None? then 1 else 0, |buffer|
      {
        var r := FromBytes(buffer);
        if r.message.None? || r.bytesRead == 0 {
          DrainDone(buffer, decoder, zlib);
          break;
        }
        var message := r.message.value;
        DrainStep(buffer, decoder, zlib);
        ghost var before := Drain(buffer, decoder, zlib);
        ghost var done := enqueued;
        enqueued := enqueued + [message];
        buffer := buffer[r.bytesRead..];
        if IsCompressionStart(message, MCCP3) {
          if decoder.None? {
            EnableMCCP3();
          }
        }
        ghost var now := Drain(buffer, decoder, zlib);
        assert before == Drained([message] + now.messages, now.buffer, now.decoder);
        Associative(done, [message], now.messages);
      }
      if |buffer| == 0 {
        DrainDone(buffer, decoder, zlib);
      }
    }

    /** flush: release the decoder, if any. */
    method Flush()
      modifies this`decoder
      ensures decoder.None?
    {
      if decoder.Some? {
        DisableMCCP3();
      }
    }

    /** enableMCCP3: install a new zlib object and push the whole buffer
        through it. */
    method EnableMCCP3()
      modifies this`decoder, this`buffer
      ensures decoder == Some(ZlibStream(old(buffer)))
      ensures buffer == zlib([], old(buffer))
    {
      decoder := Some(ZlibStream(buffer));
      buffer := zlib([], buffer);
    }

    /** disableMCCP3: free the decoder (which must be there) and clear it. */
    method DisableMCCP3()
      requires decoder.Some?
      modifies this`decoder
      ensures decoder.None?
    {
      decoder := None;
    }
  }

  // =======================================================================
  // Outgoing: messages to byte chunks
  // =======================================================================

  /** One message out: the chunk enqueued (the payload, or what the encoder
      makes of it) and the encoder afterwards (its history grows by the
      payload; a trigger seen with no encoder installs a fresh one). */
  function OutStep(encoder: Option<ZlibStream>, m: TelnetMessage, zlib: StreamCodec): (r: (Option<ZlibStream>, seq<byte>))
    ensures encoder.None? ==> r.1 == m.data
    ensures encoder.None? ==> (r.0.Some? <==> IsCompressionStart(m, MCCP2))
    ensures encoder.None? && r.0.Some? ==> r.0.value.written == []
    ensures encoder.Some? ==> r.0 == Some(ZlibStream(encoder.value.written + m.data))
  {
    match encoder
    case Some(s) => (Some(ZlibStream(s.written + m.data)), zlib(s.written, m.data))
    case None => (if IsCompressionStart(m, MCCP2) then Some(ZlibStream([])) else None, m.data)
  }

  /** A run of messages through the outgoing stage. */
  function OutRun(encoder: Option<ZlibStream>, ms: seq<TelnetMessage>, zlib: StreamCodec): (r: (Option<ZlibStream>, seq<seq<byte>>))
    ensures |r.1| == |ms|
    decreases |ms|
  {
    if ms == [] then (encoder, [])
    else
      var last := ms[|ms| - 1];
      var (e, chunks) := OutRun(encoder, ms[..|ms| - 1], zlib);
      var (e', chunk) := OutStep(e, last, zlib);
      (e', chunks + [chunk])
  }

  /** With an encoder installed, every message is compressed, in order,
      after everything sent before it, and no trigger replaces the encoder. */
  lemma {:induction false} OutRunCompressed(h: seq<byte>, ms: seq<TelnetMessage>, zlib: StreamCodec)
    ensures var r := OutRun(Some(ZlibStream(h)), ms, zlib);
      && r.0 == Some(ZlibStream(h + DataConcat(ms)))
      && forall i :: 0 <= i < |ms| ==> r.1[i] == zlib(h + DataConcat(ms[..i]), ms[i].data)
    decreases |ms|
  {
    if ms != [] {
      var init := ms[..|ms| - 1];
      var last := ms[|ms| - 1];
      assert ms == init + [last];
      OutRunCompressed(h, init, zlib);
      DataConcatSnoc(init, last);
      var r := OutRun(Some(ZlibStream(h)), ms, zlib);
      var ri := OutRun(Some(ZlibStream(h)), init, zlib);
      assert ri.0 == Some(ZlibStream(h + DataConcat(init)));
      assert r.0 == Some(ZlibStream((h + DataConcat(init)) + last.data));
      assert (h + DataConcat(init)) + last.data == h + DataConcat(ms);
      assert r.1 == ri.1 + [zlib(h + DataConcat(init), last.data)];
      forall i | 0 <= i < |ms| ensures r.1[i] == zlib(h + DataConcat(ms[..i]), ms[i].data) {
        if i < |init| {
          assert ms[..i] == init[..i];
        } else {
          assert ms[..i] == init;
        }
      }
    } else {
      assert h + [] == h;
    }
  }

  /** With no encoder and no trigger, every chunk is the message's payload
      and no encoder is installed. */
  lemma {:induction false} OutRunPlain(ms: seq<TelnetMessage>, zlib: StreamCodec)
    requires forall i :: 0 <= i < |ms| ==> !IsCompressionStart(ms[i], MCCP2)
    ensures var r := OutRun(None, ms, zlib);
      r.0.None? && forall i :: 0 <= i < |ms| ==> r.1[i] == ms[i].data
    decreases |ms|
  {
    if ms != [] {
      var init := ms[..|ms| - 1];
      OutRunPlain(init, zlib);
      var r := OutRun(None, ms, zlib);
      forall i | 0 <= i < |ms| ensures r.1[i] == ms[i].data {
        if i < |init| { assert init[i] == ms[i]; }
      }
    }
  }

  /** Switching compression on: the first MCCP2 trigger and every message
      before it leave as their payloads; every later message is compressed
      by an encoder that started empty right after the trigger. */
  lemma OutRunSwitchOver(ms: seq<TelnetMessage>, j: nat, zlib: StreamCodec)
    requires j < |ms| && IsCompressionStart(ms[j], MCCP2)
    requires forall i :: 0 <= i < j ==> !IsCompressionStart(ms[i], MCCP2)
    ensures var r := OutRun(None, ms, zlib);
      && (forall i :: 0 <= i <= j ==> r.1[i] == ms[i].data)
      && (forall i :: j < i < |ms| ==> r.1[i] == zlib(DataConcat(ms[j + 1..i]), ms[i].data))
      && r.0 == Some(ZlibStream(DataConcat(ms[j + 1..])))
  {
    var post := ms[j + 1..];
    OutRunUpToStart(ms, j, zlib);
    OutRunCompressed([], post, zlib);
    OutRunSplit(ms, j, zlib);
    var rp := OutRun(None, ms[..j + 1], zlib);
    var rb := OutRun(Some(ZlibStream([])), post, zlib);
    assert [] + DataConcat(post) == DataConcat(post);
    ShiftChunks(ms, j, rb.1, zlib);
    JoinChunks(ms, j, rp.1, rb.1, zlib);
  }

  /** The run over `ms` is the run up to and including `ms[j]` followed by
      the run over the rest. */
  lemma OutRunSplit(ms: seq<TelnetMessage>, j: nat, zlib: StreamCodec)
    requires j < |ms|
    ensures var rp := OutRun(None, ms[..j + 1], zlib);
      var rb := OutRun(rp.0, ms[j + 1..], zlib);
      OutRun(None, ms, zlib) == (rb.0, rp.1 + rb.1)
  {
    assert ms == ms[..j + 1] + ms[j + 1..];
    OutRunAppend(None, ms[..j + 1], ms[j + 1..], zlib);
  }

  /** The payload chunks up to the trigger followed by the compressed
      chunks after it, seen from the index of each message in `ms`. */
  lemma JoinChunks(ms: seq<TelnetMessage>, j: nat, front: seq<seq<byte>>, back: seq<seq<byte>>, zlib: StreamCodec)
    requires j < |ms| && |front| == j + 1 && |back| == |ms| - j - 1
    requires forall i :: 0 <= i <= j ==> front[i] == ms[i].data
    requires forall i :: j < i < |ms| ==> back[i - j - 1] == zlib(DataConcat(ms[j + 1..i]), ms[i].data)
    ensures forall i :: 0 <= i <= j ==> (front + back)[i] == ms[i].data
    ensures forall i :: j < i < |ms| ==> (front + back)[i] == zlib(DataConcat(ms[j + 1..i]), ms[i].data)
  {
  }

  /** The chunks of the messages after `ms[j]`, indexed from there, seen
      from the index of each message in `ms`. */
  lemma ShiftChunks(ms: seq<TelnetMessage>, j: nat, chunks: seq<seq<byte>>, zlib: StreamCodec)
    requires j < |ms| && |chunks| == |ms| - j - 1
    requires forall k :: 0 <= k < |chunks| ==>
      chunks[k] == zlib([] + DataConcat(ms[j + 1..][..k]), ms[j + 1..][k].data)
    ensures forall i :: j < i < |ms| ==> chunks[i - j - 1] == zlib(DataConcat(ms[j + 1..i]), ms[i].data)
  {
    forall i | j < i < |ms| ensures chunks[i - j - 1] == zlib(DataConcat(ms[j + 1..i]), ms[i].data) {
      var k := i - j - 1;
      SliceOfSuffix(ms, j + 1, i);
      assert ms[j + 1..][k] == ms[i];
      assert [] + DataConcat(ms[j + 1..i]) == DataConcat(ms[j + 1..i]);
    }
  }

  lemma SliceOfSuffix<T>(s: seq<T>, a: nat, b: nat)
    requires a <= b <= |s|
    ensures s[a..][..b - a] == s[a..b]
  {
  }

  /** Up to and including the first trigger, the payloads go out as they
      are, and the trigger leaves an empty encoder installed. */
  lemma OutRunUpToStart(ms: seq<TelnetMessage>, j: nat, zlib: StreamCodec)
    requires j < |ms| && IsCompressionStart(ms[j], MCCP2)
    requires forall i :: 0 <= i < j ==> !IsCompressionStart(ms[i], MCCP2)
    ensures var r := OutRun(None, ms[..j + 1], zlib);
      && r.0 == Some(ZlibStream([]))
      && forall i :: 0 <= i <= j ==> r.1[i] == ms[i].data
  {
    var pre := ms[..j + 1];
    assert pre[..|pre| - 1] == ms[..j];
    assert pre[|pre| - 1] == ms[j];
    OutRunPlain(ms[..j], zlib);
    var rq := OutRun(None, ms[..j], zlib);
    var r := OutRun(None, pre, zlib);
    assert r == (Some(ZlibStream([])), rq.1 + [ms[j].data]);
    forall i | 0 <= i <= j ensures r.1[i] == ms[i].data {
      if i < j { assert ms[..j][i] == ms[i]; }
    }
  }

  /** Running two batches one after the other is running them together. */
  lemma {:induction false} OutRunAppend(encoder: Option<ZlibStream>, a: seq<TelnetMessage>, b: seq<TelnetMessage>, zlib: StreamCodec)
    ensures var ra := OutRun(encoder, a, zlib);
      var rb := OutRun(ra.0, b, zlib);
      OutRun(encoder, a + b, zlib) == (rb.0, ra.1 + rb.1)
    decreases |b|
  {
    if b == [] {
      assert a + b == a;
      var ra := OutRun(encoder, a, zlib);
      assert ra.1 + [] == ra.1;
    } else {
      var init := b[..|b| - 1];
      var last := b[|b| - 1];
      assert (a + b)[..|a + b| - 1] == a + init;
      assert (a + b)[|a + b| - 1] == last;
      OutRunAppend(encoder, a, init, zlib);
      var ra := OutRun(encoder, a, zlib);
      var ri := OutRun(ra.0, init, zlib);
      var step := OutStep(ri.0, last, zlib);
      assert OutRun(encoder, a + b, zlib) == (step.0, (ra.1 + ri.1) + [step.1]);
      assert OutRun(ra.0, b, zlib) == (step.0, ri.1 + [step.1]);
      assert (ra.1 + ri.1) + [step.1] == ra.1 + (ri.1 + [step.1]);
    }
  }

  /** TelnetOutgoingTransformer: the optional encoder and the chunks
      enqueued downstream. */
  class TelnetOutgoingTransformer {
    var encoder: Option<ZlibStream>
    var chunks: seq<seq<byte>>
    /** The zlib object `enableMCCP2` constructs (level 9). */
    const zlib: StreamCodec

    constructor (zlib: StreamCodec)
      ensures encoder.None? && chunks == [] && this.zlib == zlib
    {
      encoder := None;
      chunks := [];
      this.zlib := zlib;
    }

    /** transform: enqueue the message's payload, compressed if an encoder
        is installed; then a trigger with no encoder installs one. */
    method Transform(chunk: TelnetMessage)
      modifies this`encoder, this`chunks
      ensures var (e, out) := OutStep(old(encoder), chunk, zlib);
        encoder == e && chunks == old(chunks) + [out]
    {
      var data := chunk.data;
      if encoder.Some? {
        data := zlib(encoder.value.written, chunk.data);
        encoder := Some(ZlibStream(encoder.value.written + chunk.data));
      }
      chunks := chunks + [data];
      if IsCompressionStart(chunk, MCCP2) {
        if encoder.None? {
          EnableMCCP2();
        }
      }
    }

    /** flush: release the encoder, if any. */
    method Flush()
      modifies this`encoder
      ensures encoder.None?
    {
      if encoder.Some? {
        DisableMCCP2();
      }
    }

    /** enableMCCP2: install a fresh zlib object. */
    method EnableMCCP2()
      modifies this`encoder
      ensures encoder == Some(ZlibStream([]))
    {
      encoder := Some(ZlibStream([]));
    }

    /** disableMCCP2: free the encoder (which must be there) and clear it. */
    method DisableMCCP2()
      requires encoder.Some?
      modifies this`encoder
      ensures encoder.None?
    {
      encoder := None;
    }
  }
}
