/** The server of the easy-setup requests (iot_easysetup_httpd.c and http_msg_handler): what is received is
    parsed and handed to the step handlers. */
module HttpServer {
  import opened Bytes
  import opened Text
  import HttpParser
  import EasySetup

  /** The steps asked for with POST. */
  predicate Posted(cmd: EasySetup.Step) {
    EasySetup.ByPost(cmd) || cmd == EasySetup.LOG_CREATE_DUMP
  }

  function Address(cmd: EasySetup.Step): (t: string)
    requires cmd < EasySetup.INVALID_STEP
  {
    match cmd
    case 0 => "/deviceinfo"
    case 1 => "/keyinfo"
    case 2 => "/confirminfo"
    case 3 => "/confirm"
    case 4 => "/wifiscaninfo"
    case 5 => "/wifiprovisioninginfo"
    case 6 => "/setupcomplete"
    case 7 => "/logs/systeminfo"
    case _ => "/logs/dump"
  }

  /** Every step has its address with one method, and none with the other: the steps of an onboarding that
      are posted are exactly those the POST handler serves. */
  lemma AddressesOfSteps(cmd: EasySetup.Step, uri: seq<byte>)
    requires cmd < EasySetup.INVALID_STEP
    ensures HttpParser.PostStep(uri) == cmd <==> Posted(cmd) && uri == Ascii(Address(cmd))
    ensures HttpParser.GetStep(uri) == cmd <==> !Posted(cmd) && uri == Ascii(Address(cmd))
    ensures cmd < EasySetup.LOG_SYSTEMINFO ==> (Posted(cmd) <==> EasySetup.ByPost(cmd))
  {
    hide HttpParser.PostStep, HttpParser.GetStep, Ascii;
    HttpParser.PostAddresses(uri);
    HttpParser.GetAddresses(uri);
  }

  /** The beginning of the request for a step, with a body of n bytes to follow if it is posted. */
  function RequestText(cmd: EasySetup.Step, n: nat): (s: seq<byte>)
    requires cmd < EasySetup.INVALID_STEP
  {
    if Posted(cmd) then
      Ascii("POST ") + Ascii(Address(cmd)) + Ascii(" HTTP/1.1") + [13, 10]
      + Ascii("Content-Length: ") + Decimal(n) + [13, 10, 13, 10]
    else Ascii("GET ") + Ascii(Address(cmd)) + Ascii(" HTTP/1.1") + [13, 10]
  }

  // ----- the text in the parser's terms -----

  const PROT: seq<byte> := Ascii("HTTP/1.1")

  function Fields(n: nat): seq<HttpParser.Header> {
    [HttpParser.Header(Ascii("Content-Length"), [32] + Decimal(n))]
  }

  lemma VerbTexts()
    ensures Ascii("POST ") == HttpParser.POST + [32] && Ascii("GET ") == HttpParser.GET + [32]
    ensures Ascii(" HTTP/1.1") == [32] + PROT
  {
  }

  lemma FieldText()
    ensures Ascii("Content-Length: ") == Ascii("Content-Length") + [58, 32]
  {
    var t, u := "Content-Length: ", "Content-Length";
    assert t[..14] == u && t[14] == ':' && t[15] == ' ';
    forall i | 0 <= i < 16 ensures Ascii(t)[i] == (Ascii(u) + [58, 32])[i] {
      if i < 14 {
        assert t[i] == t[..14][i];
      }
    }
  }

  lemma FieldsTail(n: nat)
    ensures HttpParser.Tail(Fields(n))
            == [10] + Ascii("Content-Length") + [58] + ([32] + Decimal(n)) + [13] + [10, 13, 10]
  {
    hide Ascii, Decimal;
    assert Fields(n)[1..] == [];
    assert HttpParser.Tail([]) == [10, 13, 10];
  }

  lemma PostText(cmd: EasySetup.Step, n: nat)
    requires cmd < EasySetup.INVALID_STEP && Posted(cmd)
    ensures RequestText(cmd, n) == HttpParser.Head(Ascii(Address(cmd)), PROT, Fields(n))
  {
    hide Ascii, Decimal, Address, HttpParser.Tail, Fields;
    VerbTexts();
    FieldText();
    FieldsTail(n);
    Associated(HttpParser.POST + [32], Ascii(Address(cmd)), PROT, Ascii("Content-Length"), Decimal(n));
  }

  lemma Associated(v: seq<byte>, a: seq<byte>, p: seq<byte>, l: seq<byte>, d: seq<byte>)
    ensures v + a + ([32] + p) + [13, 10] + (l + [58, 32]) + d + [13, 10, 13, 10]
            == (v + a + [32] + p + [13]) + ([10] + l + [58] + ([32] + d) + [13] + [10, 13, 10])
  {
  }

  lemma GetText(cmd: EasySetup.Step, n: nat)
    requires cmd < EasySetup.INVALID_STEP && !Posted(cmd)
    ensures RequestText(cmd, n) == HttpParser.Line(HttpParser.GET, Ascii(Address(cmd)), PROT) + [10]
  {
    hide Ascii, Address;
    VerbTexts();
  }

  lemma PrintableWord(t: string)
    requires t != [] && forall i :: 0 <= i < |t| ==> '!' <= t[i] <= '~'
    ensures HttpParser.Word(Ascii(t), HttpParser.WHITE) && HttpParser.Word(Ascii(t), HttpParser.BLANK)
  {
    forall i | 0 <= i < |t| ensures Ascii(t)[i] != 0 && Ascii(t)[i] !in HttpParser.WHITE {
    }
  }

  lemma AddressWord(cmd: EasySetup.Step)
    requires cmd < EasySetup.INVALID_STEP
    ensures HttpParser.LineOk(Ascii(Address(cmd)), PROT)
  {
    hide HttpParser.Word;
    PrintableWord("HTTP/1.1");
    PrintableWord(Address(cmd));
  }

  /** The parser's view of a packet that begins with the request for a step. */
  lemma Understood(b: seq<byte>, cmd: EasySetup.Step, n: nat)
    requires cmd < EasySetup.INVALID_STEP && n < HttpParser.LONG_MAX && RequestText(cmd, n) <= b
    ensures Posted(cmd) ==>
              && HttpParser.FieldsOk(Ascii(Address(cmd)), PROT, Fields(n), n)
              && HttpParser.RequestOk(Ascii(Address(cmd)), PROT, Fields(n), n)
              && HttpParser.At(b, 0, HttpParser.Head(Ascii(Address(cmd)), PROT, Fields(n)))
    ensures !Posted(cmd) ==>
              && HttpParser.LineOk(Ascii(Address(cmd)), PROT)
              && HttpParser.At(b, 0, HttpParser.Line(HttpParser.GET, Ascii(Address(cmd)), PROT))
  {
    hide RequestText, Ascii, Address, Decimal, HttpParser.FieldsOk, HttpParser.LineOk, HttpParser.Head,
         HttpParser.Line;
    AddressWord(cmd);
    if Posted(cmd) {
      PostText(cmd, n);
      HttpParser.UsualRequest(Ascii(Address(cmd)), PROT, n);
    } else {
      GetText(cmd, n);
      Prefix(b, HttpParser.Line(HttpParser.GET, Ascii(Address(cmd)), PROT), [10]);
    }
  }

  lemma Prefix(b: seq<byte>, v: seq<byte>, w: seq<byte>)
    requires v + w <= b
    ensures HttpParser.At(b, 0, v)
  {
    assert forall k :: 0 <= k < |v| ==> (v + w)[k] == v[k];
  }

  // ----- serving -----

  /** What a request for a step does when it is understood. */
  function Event(cmd: EasySetup.Step, c: EasySetup.Chance): EasySetup.Event
    requires cmd < EasySetup.INVALID_STEP
  {
    EasySetup.Request(Posted(cmd), cmd, true, c)
  }

  /** http_msg_handler */
  method HandleMessage(q: EasySetup.Sequencer, p: HttpParser.Parsed, c: EasySetup.Chance)
      returns (err: EasySetup.Error)
    requires q.refStep <= 7
    modifies q
    ensures q.refStep <= 7
    ensures q.View() == (match p
                         case Post(cmd, payload, _) => EasySetup.After(old(q.View()), true, cmd, payload.Some?, c)
                         case Get(cmd) => EasySetup.After(old(q.View()), false, cmd, true, c)
                         case _ => old(q.View()))
    ensures p.Failed? || p.Unsupported? ==> err == EasySetup.InvalidCmd
  {
    match p {
      case Post(cmd, payload, _) =>
        err := q.GenPostPayload(cmd, payload.Some?, c);
      case Get(cmd) =>
        err := q.GenGetPayload(cmd, c);
      case _ =>
        err := EasySetup.InvalidCmd;
    }
  }

  /** The packet is the request for a step, with a body unless the step needs none, and possibly some of it. */
  ghost predicate Asks(packet: seq<byte>, cmd: EasySetup.Step, n: nat) {
    && cmd < EasySetup.INVALID_STEP && n < HttpParser.LONG_MAX && RequestText(cmd, n) <= packet
    && (EasySetup.ByPost(cmd) && cmd != EasySetup.SETUPCOMPLETE ==> n > 0)
  }

  /** One round of process_accepted_connection: the buffer is cleared, filled, parsed and handled. */
  method ServeOne(q: EasySetup.Sequencer, rx: array<byte>, packet: seq<byte>, c: EasySetup.Chance,
                  ghost cmd: EasySetup.Step, ghost n: nat)
    requires q.refStep <= 7 && |packet| + 3 < rx.Length
    modifies q, rx
    ensures q.refStep <= 7
    ensures Asks(packet, cmd, n) ==> q.View() == EasySetup.Handled(old(q.View()), Event(cmd, c))
  {
    hide HttpParser.At, HttpParser.FieldsOk, HttpParser.RequestOk, HttpParser.LineOk,
         HttpParser.PostStep, HttpParser.GetStep, RequestText, Ascii, Address, HttpParser.Head, HttpParser.Line, Posted;
    Fill(rx, packet);
    ghost var uri := if Asks(packet, cmd, n) then Ascii(Address(cmd)) else [];
    if Asks(packet, cmd, n) {
      Understood(rx[..], cmd, n);
      AddressesOfSteps(cmd, uri);
    }
    var p := HttpParser.Parse(rx, |packet|, HttpParser.GET, uri, PROT, Fields(n), n);
    var _ := HandleMessage(q, p, c);
    if Asks(packet, cmd, n) {
      PayloadOptional(old(q.View()), cmd, n > 0, c);
    }
  }

  /** A payload matters only to the steps that need one. */
  lemma PayloadOptional(s: EasySetup.State, cmd: EasySetup.Step, payload: bool, c: EasySetup.Chance)
    requires payload || !EasySetup.ByPost(cmd) || cmd == EasySetup.SETUPCOMPLETE
    ensures Posted(cmd) ==> EasySetup.After(s, true, cmd, payload, c) == EasySetup.After(s, true, cmd, true, c)
  {
    hide EasySetup.Accepts;
  }

  /** memset and what is received first. */
  method Fill(rx: array<byte>, packet: seq<byte>)
    requires |packet| + 3 < rx.Length
    modifies rx
    ensures packet <= rx[..] && rx[|packet|] == 0
  {
    var i := 0;
    while i < rx.Length
      invariant i <= rx.Length
      invariant forall k :: 0 <= k < i ==> rx[k] == if k < |packet| then packet[k] else 0
    {
      rx[i] := if i < |packet| then packet[i] else 0;
      i := i + 1;
    }
    assert forall k :: 0 <= k < |packet| ==> rx[..][k] == packet[k];
  }

  /** What the requests of a connection come to. */
  ghost function Events(cmds: seq<EasySetup.Step>, chances: seq<EasySetup.Chance>): (es: seq<EasySetup.Event>)
    requires |cmds| == |chances| && forall i :: 0 <= i < |cmds| ==> cmds[i] < EasySetup.INVALID_STEP
    ensures |es| == |cmds|
  {
    seq(|cmds|, i requires 0 <= i < |cmds| => Event(cmds[i], chances[i]))
  }

  /** process_accepted_connection: a connection that asks for steps runs them through the step handlers. */
  method ServeConnection(q: EasySetup.Sequencer, rx: array<byte>, packets: seq<seq<byte>>,
                         chances: seq<EasySetup.Chance>, ghost cmds: seq<EasySetup.Step>, ghost lens: seq<nat>)
    requires q.refStep <= 7 && |packets| == |chances| == |cmds| == |lens|
    requires forall i :: 0 <= i < |packets| ==> |packets[i]| + 3 < rx.Length
    modifies q, rx
    ensures AllAsk(packets, cmds, lens) ==> q.View() == EasySetup.Run(old(q.View()), Events(cmds, chances))
    ensures AllAsk(packets, cmds, lens) && old(q.View()) == EasySetup.START && InOrder(cmds, chances) ==>
              q.steps == cmds
  {
    hide Asks, EasySetup.Run, EasySetup.Handled, Event, InOrder;
    ghost var asked := AllAsk(packets, cmds, lens);
    var i := 0;
    NoRun(old(q.View()));
    while i < |packets|
      invariant i <= |packets| && q.refStep <= 7
      invariant asked ==> q.View() == EasySetup.Run(old(q.View()), Events(cmds[..i], chances[..i]))
    {
      ServeOne(q, rx, packets[i], chances[i], cmds[i], lens[i]);
      if asked {
        EasySetup.RunAppend(old(q.View()), Events(cmds[..i], chances[..i]), Event(cmds[i], chances[i]));
        assert Events(cmds[..i + 1], chances[..i + 1])
               == Events(cmds[..i], chances[..i]) + [Event(cmds[i], chances[i])];
      }
      i := i + 1;
    }
    assert cmds[..i] == cmds && chances[..i] == chances;
    if asked && InOrder(cmds, chances) {
      OnboardingServed(cmds, chances);
    }
  }

  ghost predicate AllAsk(packets: seq<seq<byte>>, cmds: seq<EasySetup.Step>, lens: seq<nat>) {
    && |packets| == |cmds| == |lens|
    && forall i :: 0 <= i < |packets| ==> cmds[i] < EasySetup.INVALID_STEP && Asks(packets[i], cmds[i], lens[i])
  }

  /** The requests of a whole onboarding or the beginning of one, with nothing going wrong. */
  ghost predicate InOrder(cmds: seq<EasySetup.Step>, chances: seq<EasySetup.Chance>) {
    && EasySetup.Begins(cmds) && |cmds| == |chances|
    && forall i :: 0 <= i < |chances| ==> chances[i] == EasySetup.Chance(true, EasySetup.Good, EasySetup.Stays)
  }

  /** They go through to the end. */
  lemma OnboardingServed(cmds: seq<EasySetup.Step>, chances: seq<EasySetup.Chance>)
    requires InOrder(cmds, chances)
    ensures forall i :: 0 <= i < |cmds| ==> cmds[i] < EasySetup.LOG_SYSTEMINFO
    ensures EasySetup.Run(EasySetup.START, Events(cmds, chances)).steps == cmds
  {
    hide EasySetup.Onboarding, EasySetup.Run;
    var m :| cmds <= EasySetup.Onboarding(m);
    EasySetup.EveryOnboardingSucceeds(m, cmds);
    forall i | 0 <= i < |cmds|
      ensures cmds[i] < EasySetup.LOG_SYSTEMINFO && Event(cmds[i], chances[i]) == EasySetup.Ask(cmds[i])
    {
      EasySetup.Bounded(m, i);
    }
    assert Events(cmds, chances) == EasySetup.Requests(cmds);
  }

  lemma NoRun(s: EasySetup.State)
    ensures EasySetup.Run(s, Events([], [])) == s
  {
  }
}
