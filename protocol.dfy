/** Option negotiation and the synchronous part of a Telnet session: the
    per-option state machine (two perspectives, each with an `enabled` and
    a `negotiating` flag), the two concrete options, the refusal table for
    unregistered options, line assembly of incoming DATA and the
    normalisation of outgoing text. */
module Protocol {
  import opened Codes
  import opened Wrappers
  import opened Seqs
  import opened Codec
  import Utils

  // =======================================================================
  // Signals and option state
  // =======================================================================

  /** A one-shot "negotiation settled" signal (the source's Awaitable); only
      whether it has been triggered is observable. */
  class Awaitable {
    var triggered: bool

    constructor ()
      ensures !triggered
    {
      triggered := false;
    }

    method Trigger()
      modifies this
      ensures triggered
    {
      triggered := true;
    }
  }

  /** One direction of an option: local ("what I do") or remote ("what
      the peer does"). */
  class TelnetOptionPerspective {
    var enabled: bool
    var negotiating: bool

    constructor ()
      ensures !enabled && !negotiating
    {
      enabled := false;
      negotiating := false;
    }
  }

  /** The two perspectives of one option. */
  class TelnetOptionState {
    const local: TelnetOptionPerspective
    const remote: TelnetOptionPerspective

    constructor ()
      ensures fresh(local) && fresh(remote) && local != remote
      ensures !local.enabled && !local.negotiating
      ensures !remote.enabled && !remote.negotiating
    {
      local := new TelnetOptionPerspective();
      remote := new TelnetOptionPerspective();
    }
  }

  // =======================================================================
  // Option policies
  // =======================================================================

  /** The concrete options. Each answers the policy queries of the option
      base class, which default to false and are overridden per option. */
  datatype OptionKind = SGAOption | NAWSOption
  {
    function OptionCode(): byte {
      match this
      case SGAOption => SGA
      case NAWSOption => NAWS
    }

    predicate AllowLocal() {
      match this
      case SGAOption => true
      case _ => false
    }

    predicate AllowRemote() {
      match this
      case NAWSOption => true
      case _ => false
    }

    predicate StartLocal() {
      match this
      case SGAOption => true
      case _ => false
    }

    predicate StartRemote() {
      match this
      case NAWSOption => true
      case _ => false
    }
  }

  /** The two options' policies: each is willing in exactly one direction
      and opens only a direction it is willing in, and their codes differ. */
  lemma OptionPolicies(kind: OptionKind)
    ensures kind.AllowLocal() != kind.AllowRemote()
    ensures kind.StartLocal() == kind.AllowLocal() && kind.StartRemote() == kind.AllowRemote()
    ensures kind.OptionCode() == (if kind == SGAOption then SGA else NAWS)
    ensures SGAOption.OptionCode() != NAWSOption.OptionCode()
  {
  }

  /** The window size NAWS reports (it is only logged). */
  datatype WindowSize = WindowSize(width: nat, height: nat)

  // =======================================================================
  // The negotiation state machine as a function
  // =======================================================================

  datatype Side = Local | Remote

  function Other(side: Side): Side {
    if side == Local then Remote else Local
  }

  /** The flags of one perspective. */
  datatype Perspective = Perspective(enabled: bool, negotiating: bool)

  /** The observable state of an option: both perspectives and whether each
      direction holds a pending negotiation signal. */
  datatype OptionView = OptionView(local: Perspective, remote: Perspective,
                                   localPending: bool, remotePending: bool)
  {
    function Of(side: Side): Perspective {
      if side == Local then local else remote
    }

    function PendingOf(side: Side): bool {
      if side == Local then localPending else remotePending
    }

    function With(side: Side, p: Perspective, pending: bool): OptionView {
      if side == Local then this.(local := p, localPending := pending)
      else this.(remote := p, remotePending := pending)
    }
  }

  /** A freshly registered option. */
  const Initial := OptionView(Perspective(false, false), Perspective(false, false), false, false)

  /** The perspective a received verb addresses: DO and WONT the local
      one, WILL and DONT the remote one. */
  function Route(code: byte): (r: Option<Side>)
    ensures r.Some? <==> IsVerb(code)
    ensures r == Some(Local) <==> code == DO || code == WONT
    ensures r == Some(Remote) <==> code == WILL || code == DONT
  {
    if code == DO || code == WONT then Some(Local)
    else if code == WILL || code == DONT then Some(Remote)
    else None
  }

  /** DO and WILL request enabling; DONT and WONT request disabling. */
  predicate Enabling(code: byte) {
    code == DO || code == WILL
  }

  /** The reply accepting an enable request: WILL, except DO for WILL. */
  function EnableCode(code: byte): byte {
    if code == WILL then DO else WILL
  }

  /** The reply refusing or confirming a disable: WONT for DO and WONT,
      DONT for WILL and DONT. */
  function DisableCode(code: byte): byte {
    if code == DO || code == WONT then WONT else DONT
  }

  predicate Allows(kind: OptionKind, side: Side) {
    if side == Local then kind.AllowLocal() else kind.AllowRemote()
  }

  /** The outcome of one received verb: the new state, the verb sent back
      (if any), and whether the addressed direction's signal is triggered. */
  datatype Reaction = Reaction(after: OptionView, reply: Option<byte>, settles: bool)

  /** onNegotiate as a transition function. */
  function Negotiate(kind: OptionKind, v: OptionView, code: byte): (r: Reaction)
    // A reply is a verb about the same direction as the verb it answers:
    // WILL or WONT for a verb routed to our side, DO or DONT otherwise.
    ensures r.reply.Some? ==> IsVerb(code) && IsVerb(r.reply.value)
    ensures r.reply.Some? ==>
      (r.reply.value == WILL || r.reply.value == WONT <==> Route(code) == Some(Local))
  {
    match Route(code)
    case None => Reaction(v, None, false)
    case Some(side) =>
      var p := v.Of(side);
      var pending := v.PendingOf(side);
      if p.negotiating then
        if Enabling(code) then
          Reaction(v.With(side, Perspective(true, false), false), None, pending)
        else if p.enabled then
          Reaction(v.With(side, Perspective(false, false), pending), None, false)
        else
          Reaction(v.With(side, Perspective(false, false), pending), None, pending)
      else if Enabling(code) then
        if Allows(kind, side) then Reaction(v.With(side, p, false), Some(EnableCode(code)), pending)
        else Reaction(v, Some(DisableCode(code)), false)
      else if p.enabled then
        Reaction(v.With(side, Perspective(false, false), pending), Some(DisableCode(code)), false)
      else
        Reaction(v, None, false)
  }

  /** What onNegotiate does with each verb, whatever the state. */
  lemma NegotiateSpec(kind: OptionKind, v: OptionView, code: byte)
    // Any other code changes nothing and sends nothing.
    ensures var r := Negotiate(kind, v, code);
      !IsVerb(code) ==> r == Reaction(v, None, false)
    // A verb touches only the perspective it addresses.
    ensures var r := Negotiate(kind, v, code);
      IsVerb(code) ==> var o := Other(Route(code).value);
      r.after.Of(o) == v.Of(o) && r.after.PendingOf(o) == v.PendingOf(o)
    // Completing our own request: nothing is sent, negotiating clears and
    // enabled becomes whether the peer agreed.
    ensures var r := Negotiate(kind, v, code);
      IsVerb(code) && v.Of(Route(code).value).negotiating ==>
      && r.reply.None?
      && r.after.Of(Route(code).value) == Perspective(Enabling(code), false)
    // A peer's enable request never assigns enabled; it is answered with
    // exactly one accept or refuse, as the policy says.
    ensures var r := Negotiate(kind, v, code);
      IsVerb(code) && !v.Of(Route(code).value).negotiating && Enabling(code) ==>
      && r.after.Of(Route(code).value) == v.Of(Route(code).value)
      && r.reply == Some(if Allows(kind, Route(code).value) then EnableCode(code) else DisableCode(code))
    // A peer's disable request leaves the perspective disabled and is
    // confirmed exactly when it was enabled.
    ensures var r := Negotiate(kind, v, code);
      IsVerb(code) && !v.Of(Route(code).value).negotiating && !Enabling(code) ==>
      && r.after.Of(Route(code).value) == Perspective(false, false)
      && (r.reply.Some? <==> v.Of(Route(code).value).enabled)
      && (r.reply.Some? ==> r.reply.value == DisableCode(code))
    // Loop avoidance: a disable request on a disabled, idle perspective
    // changes nothing and is not answered.
    ensures var r := Negotiate(kind, v, code);
      IsVerb(code) && !Enabling(code) && v.Of(Route(code).value) == Perspective(false, false) ==>
      r == Reaction(v, None, false)
    // The signal is triggered only if pending; the enable callback (our
    // request accepted, or a peer request allowed) triggers and clears it;
    // a refusal of our own request triggers it and leaves it set.
    ensures var r := Negotiate(kind, v, code);
      r.settles ==> IsVerb(code) && v.PendingOf(Route(code).value)
    ensures var r := Negotiate(kind, v, code);
      IsVerb(code) && Enabling(code)
            && (v.Of(Route(code).value).negotiating || Allows(kind, Route(code).value)) ==>
      r.settles == v.PendingOf(Route(code).value) && !r.after.PendingOf(Route(code).value)
    // Every case without an enable callback keeps the signal as it was: a
    // refused peer enable, a peer disable, and a disable completing our
    // own request.
    ensures var r := Negotiate(kind, v, code);
      IsVerb(code) && !(Enabling(code) && (v.Of(Route(code).value).negotiating || Allows(kind, Route(code).value))) ==>
      r.after.PendingOf(Route(code).value) == v.PendingOf(Route(code).value)
    ensures var r := Negotiate(kind, v, code);
      IsVerb(code) && !Enabling(code) && v.Of(Route(code).value) == Perspective(false, true) ==>
      r.settles == v.PendingOf(Route(code).value) && r.after.PendingOf(Route(code).value) == v.PendingOf(Route(code).value)
    // And in no other case: not when a disable completes a request on an
    // enabled perspective, not for a refused peer enable, and not for any
    // peer disable.
    ensures var r := Negotiate(kind, v, code);
      r.settles <==> (
        && IsVerb(code) && v.PendingOf(Route(code).value)
        && (|| (Enabling(code) && (v.Of(Route(code).value).negotiating || Allows(kind, Route(code).value)))
            || (!Enabling(code) && v.Of(Route(code).value) == Perspective(false, true))))
  {
  }

  /** The result of startNegotiation: the new state and the verbs sent. */
  datatype Started = Started(after: OptionView, sent: seq<byte>)

  /** startNegotiation as a function: DO opens the local direction and WILL
      the remote one, as the option's policy says. */
  function Start(kind: OptionKind, v: OptionView): (r: Started)
    // Only enable requests are sent, one per direction the option opens,
    // and each opened direction is then negotiating with a pending signal.
    ensures |r.sent| == (if kind.StartLocal() then 1 else 0) + (if kind.StartRemote() then 1 else 0)
    ensures forall i :: 0 <= i < |r.sent| ==> Enabling(r.sent[i])
    ensures kind.StartLocal() ==> r.after.local.negotiating && r.after.localPending
    ensures kind.StartRemote() ==> r.after.remote.negotiating && r.after.remotePending
    ensures !kind.StartLocal() ==> r.after.local == v.local && r.after.localPending == v.localPending
    ensures !kind.StartRemote() ==> r.after.remote == v.remote && r.after.remotePending == v.remotePending
    // DO opens the local direction and WILL the remote one; a started
    // direction keeps its enabled flag.
    ensures (DO in r.sent <==> kind.StartLocal()) && (WILL in r.sent <==> kind.StartRemote())
    ensures kind.StartLocal() ==> r.after.local == v.local.(negotiating := true)
    ensures kind.StartRemote() ==> r.after.remote == v.remote.(negotiating := true)
  {
    var afterLocal :=
      if kind.StartLocal() then v.With(Local, v.local.(negotiating := true), true) else v;
    var after :=
      if kind.StartRemote() then afterLocal.With(Remote, afterLocal.remote.(negotiating := true), true) else afterLocal;
    Started(after, (if kind.StartLocal() then [DO] else []) + (if kind.StartRemote() then [WILL] else []))
  }

  /** The messages that carry a list of verbs for one option. */
  function Negotiations(codes: seq<byte>, option: byte): (ms: seq<TelnetMessage>)
    ensures |ms| == |codes|
    ensures forall i :: 0 <= i < |codes| ==> ms[i] == FromNegotiate(codes[i], option)
  {
    if codes == [] then [] else [FromNegotiate(codes[0], option)] + Negotiations(codes[1..], option)
  }

  /** The message carrying a reply, if there is one. */
  function Replies(reply: Option<byte>, option: byte): (ms: seq<TelnetMessage>)
    ensures |ms| == (if reply.Some? then 1 else 0)
    ensures reply.Some? ==> ms == [FromNegotiate(reply.value, option)]
  {
    if reply.Some? then [FromNegotiate(reply.value, option)] else []
  }

  /** The reply to a verb for an option the session has not registered. */
  function Refusal(code: byte): (r: Option<byte>)
    ensures r.Some? <==> IsVerb(code)
    // Always a refusal, never an enable request.
    ensures r.Some? ==> r.value == WONT || r.value == DONT
    // About the same direction: the peer's (WILL, WONT) gets DONT, ours (DO, DONT) gets WONT.
    ensures r.Some? ==> (r.value == DONT <==> code == WILL || code == WONT)
  {
    if code == WILL then Some(DONT)
    else if code == DO then Some(WONT)
    else if code == WONT then Some(DONT)
    else if code == DONT then Some(WONT)
    else None
  }

  // =======================================================================
  // Properties across several steps
  // =======================================================================

  /** Loop avoidance: answering the same disable request a second time
      sends nothing and changes nothing. */
  lemma DisableSettles(kind: OptionKind, v: OptionView, code: byte)
    requires IsVerb(code) && !Enabling(code)
    ensures var r1 := Negotiate(kind, v, code);
      Negotiate(kind, r1.after, code) == Reaction(r1.after, None, false)
  {
  }

  /** After startNegotiation, a verb addressing a started direction
      completes the request: it is not answered, and it triggers the
      direction's signal. */
  lemma StartedDirectionSettles(kind: OptionKind, code: byte)
    requires IsVerb(code)
    requires Route(code) == Some(Local) ==> kind.StartLocal()
    requires Route(code) == Some(Remote) ==> kind.StartRemote()
    ensures var s := Start(kind, Initial);
      var r := Negotiate(kind, s.after, code);
      r.reply.None? && r.settles && !r.after.Of(Route(code).value).negotiating
  {
  }

  /** startNegotiation sends one request and opens one signal per started
      direction. */
  lemma StartOpensSignals(kind: OptionKind)
    ensures var s := Start(kind, Initial);
      && s.after.localPending == kind.StartLocal() == s.after.local.negotiating
      && s.after.remotePending == kind.StartRemote() == s.after.remote.negotiating
      && |s.sent| == (if kind.StartLocal() then 1 else 0) + (if kind.StartRemote() then 1 else 0)
  {
  }

  /** Suppress-Go-Ahead opens its local direction with DO; a peer that
      agrees with WILL addresses the remote direction instead, so it is
      refused with DONT and the local signal stays pending. */
  lemma SGAWillDoesNotSettle()
    ensures var s := Start(SGAOption, Initial);
      var r := Negotiate(SGAOption, s.after, WILL);
      && s.sent == [DO]
      && r.reply == Some(DONT) && !r.settles
      && r.after.local.negotiating && r.after.localPending
  {
  }

  /** An allowed peer request is accepted but leaves the perspective
      disabled: DO for Suppress-Go-Ahead is answered WILL with local
      enabled still false. */
  lemma AcceptedRequestLeavesDisabled()
    ensures var r := Negotiate(SGAOption, Initial, DO);
      r.reply == Some(WILL) && !r.after.local.enabled
  {
  }

  // =======================================================================
  // Line assembly and text normalisation
  // =======================================================================

  /** Lines each followed by CR LF. */
  function JoinLines(lines: seq<seq<byte>>): seq<byte> {
    if lines == [] then [] else lines[0] + [CR, LF] + JoinLines(lines[1..])
  }

  lemma JoinLinesCons(line: seq<byte>, lines: seq<seq<byte>>)
    ensures JoinLines([line] + lines) == line + [CR, LF] + JoinLines(lines)
  {
    assert ([line] + lines)[1..] == lines;
  }

  /** Complete lines cut at CR LF, and the partial line that remains. */
  datatype Lines = Lines(lines: seq<seq<byte>>, rest: seq<byte>)

  /** Cutting a buffer at every CR LF, first to last. */
  function SplitLines(s: seq<byte>): Lines
    decreases |s|
  {
    var k := Utils.LineEnd(s);
    if k == -1 then Lines([], s) else
      var r := SplitLines(s[k + 2..]);
      Lines([s[..k]] + r.lines, r.rest)
  }

  /** SplitLines loses nothing: the lines, each followed by CR LF, and
      then the rest give back the buffer. */
  lemma {:induction false} SplitLinesJoin(s: seq<byte>)
    ensures JoinLines(SplitLines(s).lines) + SplitLines(s).rest == s
    decreases |s|
  {
    var k := Utils.LineEnd(s);
    if k != -1 {
      var r := SplitLines(s[k + 2..]);
      SplitLinesJoin(s[k + 2..]);
      JoinStep(s, k, r.lines, r.rest);
    }
  }

  /** A line cut at the CR LF at `k`, followed by the lines and rest that
      give back what follows, gives back the whole buffer. */
  lemma JoinStep(s: seq<byte>, k: nat, lines: seq<seq<byte>>, rest: seq<byte>)
    requires Utils.CRLFAt(s, k)
    requires JoinLines(lines) + rest == s[k + 2..]
    ensures JoinLines([s[..k]] + lines) + rest == s
  {
    JoinLinesCons(s[..k], lines);
    assert s[..k] + [CR, LF] == s[..k + 2];
    assert s == s[..k + 2] + s[k + 2..];
  }

  /** SplitLines cuts at every CR LF: no line and not the rest holds one. */
  lemma {:induction false} SplitLinesCuts(s: seq<byte>)
    ensures Utils.LineEnd(SplitLines(s).rest) == -1
    ensures forall i :: 0 <= i < |SplitLines(s).lines| ==> Utils.LineEnd(SplitLines(s).lines[i]) == -1
    decreases |s|
  {
    var k := Utils.LineEnd(s);
    if k != -1 {
      var r := SplitLines(s[k + 2..]);
      SplitLinesCuts(s[k + 2..]);
      var lines := [s[..k]] + r.lines;
      assert Utils.LineEnd(s[..k]) == -1 by {
        forall j | 0 <= j < k ensures !Utils.CRLFAt(s[..k], j) {
          assert Utils.CRLFAt(s[..k], j) ==> Utils.CRLFAt(s, j);
        }
      }
      forall i | 0 <= i < |lines| ensures Utils.LineEnd(lines[i]) == -1 {
        if i > 0 { assert lines[i] == r.lines[i - 1]; }
      }
    }
  }

  /** Cutting the first line off a buffer that holds one: the lines
      handed over so far plus the split of the remainder are the lines
      handed over before plus the split of the whole buffer. */
  lemma CutFirstLine(done: seq<seq<byte>>, s: seq<byte>)
    requires Utils.LineEnd(s) != -1
    ensures var k := Utils.LineEnd(s);
      var r := SplitLines(s[k + 2..]);
      && done + [s[..k]] + r.lines == done + SplitLines(s).lines
      && r.rest == SplitLines(s).rest
  {
    var k := Utils.LineEnd(s);
    var r := SplitLines(s[k + 2..]);
    assert SplitLines(s).lines == [s[..k]] + r.lines;
  }

  /** A buffer without CR LF holds no complete line. */
  lemma NoLineLeft(s: seq<byte>)
    requires Utils.LineEnd(s) == -1
    ensures SplitLines(s) == Lines([], s)
  {
  }

  /** At position `i` a CR is followed by LF and an LF is preceded by CR. */
  ghost predicate CanonicalAt(s: seq<byte>, i: int)
    requires 0 <= i < |s|
  {
    (s[i] == CR ==> i + 1 < |s| && s[i + 1] == LF) && (s[i] == LF ==> i > 0 && s[i - 1] == CR)
  }

  /** Every CR is followed by LF and every LF is preceded by CR. */
  ghost predicate CanonicalEndings(s: seq<byte>) {
    forall i :: 0 <= i < |s| ==> CanonicalAt(s, i)
  }

  predicate EndsWithCRLF(s: seq<byte>) {
    |s| >= 2 && s[|s| - 2] == CR && s[|s| - 1] == LF
  }

  /** `replaceAll("\r", "")`. */
  function StripCR(s: seq<byte>): (r: seq<byte>)
    ensures CR !in r
    ensures |r| <= |s|
    ensures CR !in s ==> r == s
  {
    if s == [] then [] else (if s[0] == CR then [] else [s[0]]) + StripCR(s[1..])
  }

  lemma StripCRCons(x: byte, s: seq<byte>)
    ensures StripCR([x] + s) == (if x == CR then [] else [x]) + StripCR(s)
  {
    assert ([x] + s)[1..] == s;
  }

  lemma {:induction false} StripCRConcat(a: seq<byte>, b: seq<byte>)
    ensures StripCR(a + b) == StripCR(a) + StripCR(b)
  {
    if a == [] {
      assert a + b == b;
    } else {
      var h := if a[0] == CR then [] else [a[0]];
      assert (a + b)[1..] == a[1..] + b;
      assert StripCR(a + b) == h + StripCR(a[1..] + b);
      StripCRConcat(a[1..], b);
      Associative(h, StripCR(a[1..]), StripCR(b));
    }
  }

  /** `replaceAll("\n", "\r\n")`. */
  function ExpandLF(s: seq<byte>): (r: seq<byte>)
    ensures |r| >= |s|
    ensures |r| > 0 ==> r[0] != LF
  {
    if s == [] then []
    else (if s[0] == LF then [CR, LF] else [s[0]]) + ExpandLF(s[1..])
  }

  lemma ExpandLFCons(x: byte, s: seq<byte>)
    ensures ExpandLF([x] + s) == (if x == LF then [CR, LF] else [x]) + ExpandLF(s)
  {
    assert ([x] + s)[1..] == s;
  }

  /** Expanding LFs and then dropping CRs drops the CRs only. */
  lemma {:induction false} ExpandLFStrip(s: seq<byte>)
    ensures StripCR(ExpandLF(s)) == StripCR(s)
  {
    if s != [] {
      var x := s[0];
      assert s == [x] + s[1..];
      ExpandLFCons(x, s[1..]);
      StripCRCons(x, s[1..]);
      var head := if x == LF then [CR, LF] else [x];
      StripCRConcat(head, ExpandLF(s[1..]));
      ExpandLFStrip(s[1..]);
      if x == LF {
        EndOfLine();
      } else {
        StripCRCons(x, []);
        assert [x] + [] == [x];
      }
    }
  }

  lemma {:induction false} ExpandLFConcat(a: seq<byte>, b: seq<byte>)
    ensures ExpandLF(a + b) == ExpandLF(a) + ExpandLF(b)
  {
    if a == [] {
      assert a + b == b;
    } else {
      var h := if a[0] == LF then [CR, LF] else [a[0]];
      assert (a + b)[1..] == a[1..] + b;
      assert ExpandLF(a + b) == h + ExpandLF(a[1..] + b);
      ExpandLFConcat(a[1..], b);
      Associative(h, ExpandLF(a[1..]), ExpandLF(b));
    }
  }

  /** Expanding LFs of CR-free text gives canonical line endings. */
  lemma {:induction false} ExpandLFCanonical(s: seq<byte>)
    requires CR !in s
    ensures CanonicalEndings(ExpandLF(s))
  {
    if s != [] {
      var x := s[0];
      assert s == [x] + s[1..];
      ExpandLFCons(x, s[1..]);
      var head := if x == LF then [CR, LF] else [x];
      if x == LF {
        EndOfLine();
      } else {
        assert CanonicalAt(head, 0);
      }
      assert CR !in s[1..];
      ExpandLFCanonical(s[1..]);
      CanonicalConcat(head, ExpandLF(s[1..]));
    }
  }

  /** Canonical text stays canonical when more canonical text that does not
      open with a lone LF is appended. */
  lemma CanonicalConcat(a: seq<byte>, b: seq<byte>)
    requires CanonicalEndings(a) && CanonicalEndings(b)
    requires |b| > 0 ==> b[0] != LF
    ensures CanonicalEndings(a + b)
  {
    var s := a + b;
    forall i | 0 <= i < |s| ensures CanonicalAt(s, i) {
      if i < |a| {
        assert CanonicalAt(a, i);
        if i + 1 < |a| { assert s[i + 1] == a[i + 1]; }
        if i > 0 { assert s[i - 1] == a[i - 1]; }
      } else {
        assert CanonicalAt(b, i - |a|);
        if i + 1 < |s| { assert s[i + 1] == b[i + 1 - |a|]; }
        if i - 1 >= |a| { assert s[i - 1] == b[i - 1 - |a|]; }
      }
    }
  }

  /** Expanded text ends in CR LF exactly when the text ended in LF. */
  lemma {:induction false} ExpandLFEnding(s: seq<byte>)
    ensures EndsWithCRLF(ExpandLF(s)) <==> |s| > 0 && s[|s| - 1] == LF
  {
    if |s| == 1 {
      ExpandLFCons(s[0], []);
      assert s == [s[0]] + [];
    } else if |s| > 1 {
      var x := s[0];
      assert s == [x] + s[1..];
      ExpandLFCons(x, s[1..]);
      ExpandLFEnding(s[1..]);
      var t := ExpandLF(s[1..]);
      var head := if x == LF then [CR, LF] else [x];
      assert (head + t)[|head + t| - 1] == t[|t| - 1];
      if |t| >= 2 {
        assert (head + t)[|head + t| - 2] == t[|t| - 2];
      }
    }
  }

  /** The text sendText puts in its DATA message: CRs dropped, LFs turned
      into CR LF, and CR LF appended when an end of line is forced. */
  function NormalizeText(s: seq<byte>, forceEndline: bool): seq<byte> {
    var t := ExpandLF(StripCR(s));
    if forceEndline && !EndsWithCRLF(t) then t + [CR, LF] else t
  }

  /** Outgoing text has canonical line endings, ends in CR LF when an end
      of line is forced, and loses nothing but CRs: dropping its CRs gives
      the CR-free input, with one LF added exactly when a forced end of
      line was missing. */
  lemma NormalizeTextSpec(s: seq<byte>, forceEndline: bool)
    ensures var r := NormalizeText(s, forceEndline);
      var u := StripCR(s);
      && CanonicalEndings(r)
      && (forceEndline ==> EndsWithCRLF(r))
      && StripCR(r) == u + (if forceEndline && !(|u| > 0 && u[|u| - 1] == LF) then [LF] else [])
  {
    var u := StripCR(s);
    var t := ExpandLF(u);
    ExpandLFEnding(u);
    ExpandLFCanonical(u);
    ExpandLFStrip(u);
    assert StripCR(t) == u;
    if forceEndline && !EndsWithCRLF(t) {
      AppendEndOfLine(t);
    } else {
      assert u + [] == u;
    }
  }

  /** Normalising normalised text changes nothing. */
  lemma NormalizeTextIdempotent(s: seq<byte>, forceEndline: bool)
    ensures NormalizeText(NormalizeText(s, forceEndline), forceEndline) == NormalizeText(s, forceEndline)
  {
    var u := StripCR(s);
    var t := ExpandLF(u);
    var r := NormalizeText(s, forceEndline);
    NormalizeTextSpec(s, forceEndline);
    ExpandLFEnding(u);
    if forceEndline && !EndsWithCRLF(t) {
      assert r == t + [CR, LF];
      assert StripCR(r) == u + [LF];
      ExpandLFAddLF(u);
    } else {
      assert r == t;
      assert StripCR(r) == u + [];
      assert u + [] == u;
    }
    NormalizedIsFixed(r, forceEndline);
  }

  /** An LF appended before expansion comes out as CR LF. */
  lemma ExpandLFAddLF(u: seq<byte>)
    ensures ExpandLF(u + [LF]) == ExpandLF(u) + [CR, LF]
  {
    ExpandLFConcat(u, [LF]);
    ExpandLFCons(LF, []);
    assert [LF] + [] == [LF];
    assert [CR, LF] + ExpandLF([]) == [CR, LF];
  }

  /** Text that expands back to itself after its CRs are dropped, and that
      already ends in CR LF if an end of line is forced, is left as it is. */
  lemma NormalizedIsFixed(r: seq<byte>, forceEndline: bool)
    requires ExpandLF(StripCR(r)) == r
    requires forceEndline ==> EndsWithCRLF(r)
    ensures NormalizeText(r, forceEndline) == r
  {
  }

  /** Appending CR LF to canonical text keeps it canonical and adds one LF
      to its CR-free form. */
  lemma AppendEndOfLine(t: seq<byte>)
    requires CanonicalEndings(t)
    ensures CanonicalEndings(t + [CR, LF]) && EndsWithCRLF(t + [CR, LF])
    ensures StripCR(t + [CR, LF]) == StripCR(t) + [LF]
  {
    EndOfLine();
    CanonicalConcat(t, [CR, LF]);
    StripCRConcat(t, [CR, LF]);
  }

  /** CR LF on its own is canonical and strips to LF. */
  lemma EndOfLine()
    ensures CanonicalEndings([CR, LF])
    ensures StripCR([CR, LF]) == [LF]
  {
    assert CanonicalAt([CR, LF], 0) && CanonicalAt([CR, LF], 1);
    assert [CR, LF][1..] == [LF];
    assert [LF][1..] == [];
  }

  // =======================================================================
  // The option object
  // =======================================================================

  /** A registered option: its policy, its state and its pending signals.
      Replies go to the owning session's outgoing queue. */
  class TelnetOption {
    const protocol: TelnetProtocol
    const kind: OptionKind
    const state: TelnetOptionState
    var localNegotiator: Awaitable?
    var remoteNegotiator: Awaitable?

    ghost predicate Valid()
      reads this, state
    {
      && state.local != state.remote
      && (localNegotiator != null ==> localNegotiator != remoteNegotiator)
    }

    /** The objects onNegotiate may update. */
    ghost function Footprint(): set<object?>
      reads this, state
    {
      {this, state.local, state.remote, localNegotiator, remoteNegotiator}
    }

    ghost function View(): OptionView
      reads this, state, state.local, state.remote
    {
      OptionView(Perspective(state.local.enabled, state.local.negotiating),
                 Perspective(state.remote.enabled, state.remote.negotiating),
                 localNegotiator != null, remoteNegotiator != null)
    }

    constructor (protocol: TelnetProtocol, kind: OptionKind)
      ensures Valid() && View() == Initial
      ensures this.protocol == protocol && this.kind == kind
      ensures fresh(state) && fresh(state.local) && fresh(state.remote)
    {
      this.protocol := protocol;
      this.kind := kind;
      state := new TelnetOptionState();
      localNegotiator := null;
      remoteNegotiator := null;
    }

    /** getNegotiators: the pending signals, local first. */
    method GetNegotiators() returns (out: seq<Awaitable>)
      ensures |out| == (if localNegotiator != null then 1 else 0) + (if remoteNegotiator != null then 1 else 0)
      ensures localNegotiator != null ==> out[0] == localNegotiator
      ensures remoteNegotiator != null ==> out[|out| - 1] == remoteNegotiator
    {
      out := [];
      if localNegotiator != null {
        out := out + [localNegotiator];
      }
      if remoteNegotiator != null {
        out := out + [remoteNegotiator];
      }
    }

    /** onLocalEnable: trigger and drop the local signal. */
    method OnLocalEnable()
      modifies this`localNegotiator, localNegotiator
      ensures localNegotiator == null
      ensures old(localNegotiator) != null ==> old(localNegotiator).triggered
    {
      if localNegotiator != null {
        localNegotiator.Trigger();
        localNegotiator := null;
      }
    }

    /** onRemoteEnable: trigger and drop the remote signal. */
    method OnRemoteEnable()
      modifies this`remoteNegotiator, remoteNegotiator
      ensures remoteNegotiator == null
      ensures old(remoteNegotiator) != null ==> old(remoteNegotiator).triggered
    {
      if remoteNegotiator != null {
        remoteNegotiator.Trigger();
        remoteNegotiator := null;
      }
    }

    /** onLocalDisable does nothing in the base class and in both options. */
    method OnLocalDisable() {
    }

    /** onRemoteDisable does nothing in the base class and in both options. */
    method OnRemoteDisable() {
    }

    /** sendNegotiate: queue `IAC code option` on the session. */
    method SendNegotiate(code: byte)
      modifies protocol`outbox
      ensures protocol.outbox == old(protocol.outbox) + [FromNegotiate(code, kind.OptionCode())]
    {
      protocol.Send(FromNegotiate(code, kind.OptionCode()));
    }

    /** sendSubNegotiate: queue `IAC SB option <data> IAC SE` on the session. */
    method SendSubNegotiate(data: seq<byte>)
      modifies protocol`outbox
      ensures protocol.outbox == old(protocol.outbox) + [FromSubNegotiate(kind.OptionCode(), data)]
    {
      protocol.Send(FromSubNegotiate(kind.OptionCode(), data));
    }

    /** onSubNegotiate: NAWS decodes width and height from four big-endian
        bytes (and only logs them); the other option ignores the payload. */
    method OnSubNegotiate(data: seq<byte>) returns (report: Option<WindowSize>)
      ensures report.Some? <==> kind == NAWSOption && |data| >= 4
      ensures report.Some? ==>
        && report.value.width < 65536 && report.value.height < 65536
        && report.value.width / 256 == data[0] as nat && report.value.width % 256 == data[1] as nat
        && report.value.height / 256 == data[2] as nat && report.value.height % 256 == data[3] as nat
    {
      report := None;
      if kind == NAWSOption && |data| >= 4 {
        var width := data[0] as nat * 256 + data[1] as nat;
        var height := data[2] as nat * 256 + data[3] as nat;
        report := Some(WindowSize(width, height));
      }
    }

    /** startNegotiation. */
    method StartNegotiation()
      requires Valid()
      modifies this`localNegotiator, this`remoteNegotiator, state.local, state.remote, protocol`outbox
      ensures Valid()
      ensures View() == Start(kind, old(View())).after
      ensures protocol.outbox == old(protocol.outbox) + Negotiations(Start(kind, old(View())).sent, kind.OptionCode())
      ensures kind.StartLocal() ==> fresh(localNegotiator) && !localNegotiator.triggered
      ensures !kind.StartLocal() ==> localNegotiator == old(localNegotiator)
      ensures kind.StartRemote() ==> fresh(remoteNegotiator) && !remoteNegotiator.triggered
      ensures !kind.StartRemote() ==> remoteNegotiator == old(remoteNegotiator)
    {
      if kind.StartLocal() {
        SendNegotiate(DO);
        state.local.negotiating := true;
        localNegotiator := new Awaitable();
      }
      if kind.StartRemote() {
        SendNegotiate(WILL);
        state.remote.negotiating := true;
        remoteNegotiator := new Awaitable();
      }
    }

    /** The state after onNegotiate received `code` in a state whose view
        was `v0`, with outgoing queue `out0`, signals `ln0` and `rn0`, and
        their triggered flags `lt0` and `rt0`: the view is the transition's,
        the reply (if any) is queued, a signal that stays pending is the
        same object, and a pending signal is triggered exactly when the
        transition settles its direction. */
    ghost predicate Reacted(code: byte, v0: OptionView, out0: seq<TelnetMessage>,
                            ln0: Awaitable?, rn0: Awaitable?, lt0: bool, rt0: bool)
      reads this, state, state.local, state.remote, protocol, ln0, rn0
    {
      var r := Negotiate(kind, v0, code);
      && View() == r.after
      && protocol.outbox == out0 + Replies(r.reply, kind.OptionCode())
      && (r.after.localPending ==> localNegotiator == ln0)
      && (r.after.remotePending ==> remoteNegotiator == rn0)
      && (ln0 != null ==> ln0.triggered == (lt0 || (r.settles && Route(code) == Some(Local))))
      && (rn0 != null ==> rn0.triggered == (rt0 || (r.settles && Route(code) == Some(Remote))))
    }

    /** onNegotiate: the transition `Negotiate`, carried out on the
        perspectives, the signals and the session's outgoing queue. */
    method OnNegotiate(code: byte)
      requires Valid()
      modifies Footprint(), protocol`outbox
      ensures Valid()
      ensures Reacted(code, old(View()), old(protocol.outbox), old(localNegotiator), old(remoteNegotiator),
                      old(localNegotiator != null && localNegotiator.triggered),
                      old(remoteNegotiator != null && remoteNegotiator.triggered))
    {
      var route := Route(code);
      if route.None? {
        return;
      }
      var side := route.value;
      var p := if side == Local then state.local else state.remote;
      if p.negotiating {
        Conclude(code, side);
      } else {
        Answer(code, side);
      }
    }

    /** onNegotiate for a direction we opened: the verb is the peer's
        answer. Nothing is sent. */
    method Conclude(code: byte, side: Side)
      requires Valid() && Route(code) == Some(side)
      requires (if side == Local then state.local else state.remote).negotiating
      modifies Footprint(), protocol`outbox
      ensures Valid()
      ensures Reacted(code, old(View()), old(protocol.outbox), old(localNegotiator), old(remoteNegotiator),
                      old(localNegotiator != null && localNegotiator.triggered),
                      old(remoteNegotiator != null && remoteNegotiator.triggered))
    {
      var p := if side == Local then state.local else state.remote;
      var negotiator := if side == Local then localNegotiator else remoteNegotiator;
      if Enabling(code) {
        p.negotiating := false;
        p.enabled := true;
        if side == Local { OnLocalEnable(); } else { OnRemoteEnable(); }
      } else {
        p.negotiating := false;
        if p.enabled {
          p.enabled := false;
          if side == Local { OnLocalDisable(); } else { OnRemoteDisable(); }
        } else if negotiator != null {
          // The local copy is triggered; the field keeps the signal.
          negotiator.Trigger();
        }
      }
    }

    /** onNegotiate for a direction we did not open: the verb is the peer's
        request, accepted or refused as the policy says. */
    method Answer(code: byte, side: Side)
      requires Valid() && Route(code) == Some(side)
      requires !(if side == Local then state.local else state.remote).negotiating
      modifies Footprint(), protocol`outbox
      ensures Valid()
      ensures Reacted(code, old(View()), old(protocol.outbox), old(localNegotiator), old(remoteNegotiator),
                      old(localNegotiator != null && localNegotiator.triggered),
                      old(remoteNegotiator != null && remoteNegotiator.triggered))
    {
      var p := if side == Local then state.local else state.remote;
      if Enabling(code) {
        if Allows(kind, side) {
          if side == Local { OnLocalEnable(); } else { OnRemoteEnable(); }
          SendNegotiate(EnableCode(code));
        } else {
          SendNegotiate(DisableCode(code));
        }
      } else if p.enabled {
        p.enabled := false;
        if side == Local { OnLocalDisable(); } else { OnRemoteDisable(); }
        SendNegotiate(DisableCode(code));
      }
    }
  }

  // =======================================================================
  // The session
  // =======================================================================

  /** The synchronous state of one connection: the queue of outgoing
      messages, the partial input line, the lines handed to the relay, and
      the forceEndline capability. */
  class TelnetProtocol {
    var outbox: seq<TelnetMessage>
    var buffer: seq<byte>
    var lines: seq<seq<byte>>
    var forceEndline: bool

    constructor ()
      ensures outbox == [] && buffer == [] && lines == [] && !forceEndline
    {
      outbox := [];
      buffer := [];
      lines := [];
      forceEndline := false;
    }

    /** send: queue a message on the outgoing stream. */
    method Send(message: TelnetMessage)
      modifies this`outbox
      ensures outbox == old(outbox) + [message]
    {
      outbox := outbox + [message];
    }

    /** handleNegotiation: `registered` is the option found for the
        message's option byte, or null when none is registered. A registered
        option runs its state machine; otherwise the verb is refused. */
    method HandleNegotiation(message: TelnetMessage, registered: TelnetOption?)
      requires registered != null ==> registered.Valid() && registered.protocol == this
      requires registered != null ==> message.GetOption() == Some(registered.kind.OptionCode())
      modifies this`outbox, if registered != null then registered.Footprint() else {}
      ensures registered != null ==> registered.Valid()
      ensures message.GetOption().None? || message.GetCommand().None? ==>
        outbox == old(outbox) && (registered != null ==> registered.View() == old(registered.View()))
      ensures message.GetOption().Some? && message.GetCommand().Some? && registered == null ==>
        outbox == old(outbox) + Replies(Refusal(message.GetCommand().value), message.GetOption().value)
      ensures message.GetCommand().Some? && registered != null ==>
        var r := Negotiate(registered.kind, old(registered.View()), message.GetCommand().value);
        && registered.View() == r.after
        && outbox == old(outbox) + Replies(r.reply, registered.kind.OptionCode())
      // What onNegotiate promises about the signals reaches the caller: a
      // pending signal is triggered exactly when the transition settles it.
      ensures message.GetCommand().Some? && registered != null ==>
        registered.Reacted(message.GetCommand().value, old(registered.View()), old(outbox),
                           old(registered.localNegotiator), old(registered.remoteNegotiator),
                           old(registered.localNegotiator != null && registered.localNegotiator.triggered),
                           old(registered.remoteNegotiator != null && registered.remoteNegotiator.triggered))
      // Without a verb the option and its signals are left alone.
      ensures (message.GetOption().None? || message.GetCommand().None?) && registered != null ==>
        && unchanged(registered)
        && (registered.localNegotiator != null ==> unchanged(registered.localNegotiator))
        && (registered.remoteNegotiator != null ==> unchanged(registered.remoteNegotiator))
    {
      var code := message.GetCommand();
      var option := message.GetOption();
      if option.None? {
        return;
      }
      if code.None? {
        return;
      }
      if registered != null {
        registered.OnNegotiate(code.value);
      } else {
        var c := code.value;
        if c == WILL {
          Send(FromNegotiate(DONT, option.value));
        } else if c == DO {
          Send(FromNegotiate(WONT, option.value));
        } else if c == WONT {
          Send(FromNegotiate(DONT, option.value));
        } else if c == DONT {
          Send(FromNegotiate(WONT, option.value));
        }
      }
    }

    /** handleSubnegotiation: a registered option receives the payload;
        what comes back is the window size NAWS logs. */
    method HandleSubnegotiation(message: TelnetMessage, registered: TelnetOption?) returns (report: Option<WindowSize>)
      requires registered != null ==> message.GetOption() == Some(registered.kind.OptionCode())
      ensures report.Some? ==> registered != null && registered.kind == NAWSOption && message.kind == SUBNEGOTIATION
      ensures report.Some? <==>
        registered != null && registered.kind == NAWSOption && message.GetSub().Some? && |message.GetSub().value| >= 4
      // The report is the option's own: the window size read from the payload.
      ensures report.Some? ==>
        var d := message.GetSub().value;
        && report.value.width / 256 == d[0] as nat && report.value.width % 256 == d[1] as nat
        && report.value.height / 256 == d[2] as nat && report.value.height % 256 == d[3] as nat
    {
      report := None;
      var option := message.GetOption();
      if option.None? {
        return;
      }
      if registered != null {
        var sub := message.GetSub();
        if sub.None? {
          return;
        }
        report := registered.OnSubNegotiate(sub.value);
      }
    }

    /** processLine: hand one complete line to the relay. */
    method ProcessLine(line: seq<byte>)
      modifies this`lines
      ensures lines == old(lines) + [line]
    {
      lines := lines + [line];
    }

    /** handleData: append the payload to the partial line, then hand over
        every complete line, cut at CR LF, in order. */
    method HandleData(message: TelnetMessage)
      modifies this`buffer, this`lines
      ensures var r := SplitLines(old(buffer) + message.data);
        lines == old(lines) + r.lines && buffer == r.rest
    {
      buffer := buffer + message.data;
      ghost var target := SplitLines(buffer);
      var lineEndIndex := Utils.ScanForLineEndings(buffer);
      while lineEndIndex != -1
        invariant lineEndIndex == Utils.LineEnd(buffer)
        invariant SplitLines(buffer).rest == target.rest
        invariant lines + SplitLines(buffer).lines == old(lines) + target.lines
        decreases |buffer|
      {
        CutFirstLine(lines, buffer);
        var line := buffer[..lineEndIndex];
        buffer := buffer[lineEndIndex + 2..];
        ProcessLine(line);
        lineEndIndex := Utils.ScanForLineEndings(buffer);
      }
      NoLineLeft(buffer);
    }

    /** sendText: nothing for empty text; otherwise one DATA message with
        the text's line endings normalised to CR LF. */
    method SendText(message: seq<byte>)
      modifies this`outbox
      ensures |message| < 1 ==> outbox == old(outbox)
      ensures |message| >= 1 ==> outbox == old(outbox) + [FromData(NormalizeText(message, forceEndline))]
    {
      if |message| < 1 {
        return;
      }
      var text := StripCR(message);
      text := ExpandLF(text);
      if forceEndline && !EndsWithCRLF(text) {
        text := text + [CR, LF];
      }
      Send(FromData(text));
    }
  }
}
