/** The order of the onboarding steps over HTTP (iot_easysetup_http.c). */
module EasySetup {

  // enum iot_easysetup_step
  const DEVICEINFO: nat := 0
  const KEYINFO: nat := 1
  const CONFIRMINFO: nat := 2
  const CONFIRM: nat := 3
  const WIFISCANINFO: nat := 4
  const WIFIPROVISIONING: nat := 5
  const SETUPCOMPLETE: nat := 6
  const LOG_SYSTEMINFO: nat := 7
  const LOG_CREATE_DUMP: nat := 8
  const LOG_GET_DUMP: nat := 9
  const INVALID_STEP: nat := 10

  type Step = n: nat | n <= 10

  // ----- the protocol -----

  /** What may happen between KEYINFO and WIFIPROVISIONINGINFO. */
  datatype Middle = Nothing | Confirmed(moreScans: nat) | Unconfirmed(scans: nat)

  function Scans(n: nat): (w: seq<Step>)
    ensures |w| == n && forall i :: 0 <= i < n ==> w[i] == WIFISCANINFO
  {
    seq(n, i => WIFISCANINFO)
  }

  function MiddleSteps(m: Middle): seq<Step> {
    match m
    case Nothing => []
    case Confirmed(n) => [CONFIRMINFO, CONFIRM] + Scans(n + 1)
    case Unconfirmed(n) => [CONFIRMINFO] + Scans(n)
  }

  function Opening(m: Middle): seq<Step> {
    [DEVICEINFO, KEYINFO] + MiddleSteps(m)
  }

  /** A whole onboarding:
      DEVICEINFO KEYINFO (CONFIRMINFO (CONFIRM WIFISCANINFO+ | WIFISCANINFO*))? WIFIPROVISIONINGINFO SETUPCOMPLETE */
  function Onboarding(m: Middle): seq<Step> {
    Opening(m) + [WIFIPROVISIONING, SETUPCOMPLETE]
  }

  /** The steps begin some onboarding. */
  ghost predicate Begins(w: seq<Step>) {
    exists m :: w <= Onboarding(m)
  }

  // ----- the reference step -----

  /** The handler's test, and the reference step it counts on from; the methods differ in the
      detours they allow. */
  function Base(post: bool, ref: nat, cmd: Step): (base: nat) {
    if cmd == ref then ref
    else if !post && cmd == WIFISCANINFO && (ref == CONFIRM || ref == WIFIPROVISIONING) then WIFISCANINFO
    else if post && cmd == WIFIPROVISIONING && (ref == CONFIRM || ref == CONFIRMINFO) then WIFIPROVISIONING
    else INVALID_STEP
  }

  predicate Accepts(post: bool, ref: nat, cmd: Step) {
    cmd < LOG_SYSTEMINFO && Base(post, ref, cmd) != INVALID_STEP
  }

  /** The request handler that serves a step. */
  predicate ByPost(cmd: Step) {
    cmd in {KEYINFO, CONFIRMINFO, CONFIRM, WIFIPROVISIONING, SETUPCOMPLETE}
  }

  /** What the reference step says about the steps taken since it was last zero. */
  ghost predicate Agrees(ref: nat, w: seq<Step>) {
    match ref
    case 0 => w == []
    case 1 => w == [DEVICEINFO]
    case 2 => w == [DEVICEINFO, KEYINFO]
    case 3 => w == [DEVICEINFO, KEYINFO, CONFIRMINFO]
    case 4 => w == [DEVICEINFO, KEYINFO, CONFIRMINFO, CONFIRM]
    case 5 => exists m :: w == Opening(m) && (m.Confirmed? || (m.Unconfirmed? && m.scans > 0))
    case 6 => exists m :: w == Opening(m) + [WIFIPROVISIONING]
    case 7 => exists m :: w == Onboarding(m)
    case _ => false
  }

  lemma AnotherScan(m: Middle)
    requires !m.Nothing?
    ensures Opening(m) + [WIFISCANINFO] ==
              Opening(if m.Confirmed? then Confirmed(m.moreScans + 1) else Unconfirmed(m.scans + 1))
  {
    match m
    case Confirmed(n) => assert Scans(n + 1) + [WIFISCANINFO] == Scans(n + 2);
    case Unconfirmed(n) => assert Scans(n) + [WIFISCANINFO] == Scans(n + 1);
  }

  lemma FirstScans()
    ensures [DEVICEINFO, KEYINFO, CONFIRMINFO, CONFIRM, WIFISCANINFO] == Opening(Confirmed(0))
    ensures [DEVICEINFO, KEYINFO, CONFIRMINFO, WIFISCANINFO] == Opening(Unconfirmed(1))
    ensures [DEVICEINFO, KEYINFO, CONFIRMINFO] == Opening(Unconfirmed(0))
    ensures [DEVICEINFO, KEYINFO] == Opening(Nothing)
  {
  }

  /** Taking an accepted step keeps the agreement. */
  lemma Advance(post: bool, ref: nat, w: seq<Step>, cmd: Step)
    requires Agrees(ref, w) && Accepts(post, ref, cmd)
    ensures Agrees(Base(post, ref, cmd) + 1, w + [cmd])
  {
    FirstScans();
    hide Opening, Onboarding;
    if ref == 5 {
      var m :| w == Opening(m) && (m.Confirmed? || (m.Unconfirmed? && m.scans > 0));
      AnotherScan(m);
    } else if ref == 6 {
      var m :| w == Opening(m) + [WIFIPROVISIONING];
      Finish(m);
    }
  }

  lemma Finish(m: Middle)
    ensures Opening(m) + [WIFIPROVISIONING] + [SETUPCOMPLETE] == Onboarding(m)
  {
  }

  /** What the reference step agrees with is the beginning of an onboarding. */
  lemma AgreedIsBegun(ref: nat, w: seq<Step>)
    requires Agrees(ref, w)
    ensures Begins(w)
  {
    FirstScans();
    match ref
    case 5 =>
      var m :| w == Opening(m) && (m.Confirmed? || (m.Unconfirmed? && m.scans > 0));
      assert w <= Onboarding(m);
    case 6 =>
      var m :| w == Opening(m) + [WIFIPROVISIONING];
      Finish(m);
      assert w <= Onboarding(m);
    case 7 =>
    case 4 =>
      assert w <= Onboarding(Confirmed(0));
    case _ =>
      assert w <= Onboarding(Unconfirmed(0));
  }

  /** The steps that may follow one another in an onboarding. */
  predicate Follows(a: Step, b: Step) {
    match a
    case 0 => b == KEYINFO
    case 1 => b in {CONFIRMINFO, WIFIPROVISIONING}
    case 2 => b in {CONFIRM, WIFISCANINFO, WIFIPROVISIONING}
    case 3 => b == WIFISCANINFO
    case 4 => b in {WIFISCANINFO, WIFIPROVISIONING}
    case 5 => b == SETUPCOMPLETE
    case _ => false
  }

  lemma Neighbours(m: Middle, i: nat)
    requires i + 1 < |Onboarding(m)|
    ensures Follows(Onboarding(m)[i], Onboarding(m)[i + 1])
  {
  }

  /** A step is accepted by its handler exactly when the steps so far and it still begin an
      onboarding. */
  lemma AcceptedIff(ref: nat, w: seq<Step>, cmd: Step)
    requires Agrees(ref, w) && cmd < LOG_SYSTEMINFO
    ensures Accepts(ByPost(cmd), ref, cmd) <==> Begins(w + [cmd])
  {
    if Accepts(ByPost(cmd), ref, cmd) {
      Advance(ByPost(cmd), ref, w, cmd);
      AgreedIsBegun(Base(ByPost(cmd), ref, cmd) + 1, w + [cmd]);
    }
    if Begins(w + [cmd]) {
      var m :| w + [cmd] <= Onboarding(m);
      hide Onboarding;
      assert Onboarding(m)[|w|] == cmd;
      if w == [] {
        StartsWithDeviceInfo(m);
      } else {
        assert Onboarding(m)[|w| - 1] == w[|w| - 1];
        Neighbours(m, |w| - 1);
        LastStep(ref, w);
      }
    }
  }

  lemma StartsWithDeviceInfo(m: Middle)
    ensures Onboarding(m)[0] == DEVICEINFO
  {
  }

  lemma LastStep(ref: nat, w: seq<Step>)
    requires Agrees(ref, w) && w != []
    ensures 1 <= ref <= 7 && w[|w| - 1] == ref - 1
  {
  }

  // ----- requests -----

  datatype Reply = Good | WrongStep | HandlerError | NoReply

  /** When the station leaves the access point, if it does so during a request. */
  datatype Leave = Stays | BeforeCounting | WhileWaiting

  /** What the environment makes of a request: whether it could be queued, the reply, the station. */
  datatype Chance = Chance(queued: bool, reply: Reply, leave: Leave)

  /** steps are the onboarding steps that succeeded since the reference step was last zero. */
  datatype State = State(ref: nat, steps: seq<Step>)

  const START: State := State(0, [])

  /** The request comes to the comparison with the reference step. */
  predicate Compared(post: bool, cmd: Step, payload: bool) {
    cmd != INVALID_STEP && (!post || payload || cmd == SETUPCOMPLETE || cmd == LOG_CREATE_DUMP)
  }

  function After(s: State, post: bool, cmd: Step, payload: bool, c: Chance): State {
    if !Compared(post, cmd, payload) then s
    else if cmd >= LOG_SYSTEMINFO then START
    else if !Accepts(post, s.ref, cmd) then START
    else
      var torn := c.leave == BeforeCounting;
      var ref := if torn then 1 else Base(post, s.ref, cmd) + 1;
      var steps := if torn then [] else s.steps;
      if !c.queued then State(ref, steps)
      else if c.reply != Good then START
      else if c.leave == WhileWaiting && ref <= SETUPCOMPLETE then START
      else State(ref, steps + [cmd])
  }

  /** What parts the reference step from the steps taken: a step that is counted but cannot be queued,
      or a station that leaves just between the test and the count. */
  predicate Unsettles(s: State, post: bool, cmd: Step, payload: bool, c: Chance) {
    && Compared(post, cmd, payload) && Accepts(post, s.ref, cmd)
    && if c.queued then c.leave == BeforeCounting && cmd != DEVICEINFO && c.reply == Good
       else c.leave == BeforeCounting || Base(post, s.ref, cmd) + 1 != s.ref
  }

  /** A request keeps the reference step and the steps taken in agreement exactly when it does
      not unsettle them. */
  lemma RequestKeepsIff(s: State, post: bool, cmd: Step, payload: bool, c: Chance)
    requires Agrees(s.ref, s.steps)
    ensures var t := After(s, post, cmd, payload, c);
            Agrees(t.ref, t.steps) <==> !Unsettles(s, post, cmd, payload, c)
  {
    hide Agrees;
    AgreesAtStart();
    if Compared(post, cmd, payload) && Accepts(post, s.ref, cmd) {
      var base := Base(post, s.ref, cmd);
      if c.leave == BeforeCounting {
        OneStep([]);
        OneStep([] + [cmd]);
        assert ([] + [cmd])[0] == cmd && (cmd == DEVICEINFO ==> [] + [cmd] == [DEVICEINFO]);
      } else if c.queued {
        Advance(post, s.ref, s.steps, cmd);
      } else {
        StepsFixRef(s.ref, base + 1, s.steps);
      }
    }
  }

  lemma AgreesAtStart()
    ensures Agrees(0, [])
  {
  }

  lemma OneStep(w: seq<Step>)
    ensures Agrees(1, w) <==> w == [DEVICEINFO]
  {
  }

  lemma StepsFixRef(r: nat, t: nat, w: seq<Step>)
    requires Agrees(r, w)
    ensures Agrees(t, w) <==> r == t
  {
    hide Onboarding, Opening;
    if w != [] {
      LastStep(r, w);
      if Agrees(t, w) {
        LastStep(t, w);
      }
    } else {
      NotEmpty(r, w);
      if Agrees(t, w) {
        NotEmpty(t, w);
      }
    }
  }

  lemma NotEmpty(r: nat, w: seq<Step>)
    requires Agrees(r, w) && w == []
    ensures r == 0
  {
  }

  /** What becomes of a request, at a reference step that agrees with the steps taken: one without a step or
      a payload changes nothing; a request for the log and a step out of order or with a failing reply begin
      anew; a step in order that succeeds is taken. */
  lemma Outcomes(s: State, post: bool, cmd: Step, payload: bool, c: Chance)
    requires Agrees(s.ref, s.steps)
    ensures cmd == INVALID_STEP || (post && !payload && cmd !in {SETUPCOMPLETE, LOG_CREATE_DUMP}) ==>
              After(s, post, cmd, payload, c) == s
    ensures cmd in {LOG_SYSTEMINFO, LOG_CREATE_DUMP, LOG_GET_DUMP} && (payload || !post || cmd == LOG_CREATE_DUMP) ==>
              After(s, post, cmd, payload, c) == State(0, [])
    ensures cmd <= SETUPCOMPLETE && post == ByPost(cmd) && (payload || !post || cmd == SETUPCOMPLETE) ==>
              var t := After(s, post, cmd, payload, c);
              if !Begins(s.steps + [cmd]) then t == State(0, [])
              else if c == Chance(true, Good, Stays) then t == State(cmd + 1, s.steps + [cmd])
              else c.queued && c.reply != Good ==> t == State(0, [])
  {
    hide Agrees, Begins;
    if cmd <= SETUPCOMPLETE {
      AcceptedIff(s.ref, s.steps, cmd);
    }
  }

  // ----- runs -----

  datatype Event = Request(post: bool, cmd: Step, payload: bool, chance: Chance) | StationLeaves

  function Handled(s: State, e: Event): State {
    match e
    case Request(post, cmd, payload, c) => After(s, post, cmd, payload, c)
    case StationLeaves => if s.ref <= SETUPCOMPLETE then START else s
  }

  function Run(s: State, es: seq<Event>): State
    decreases |es|
  {
    if es == [] then s else Run(Handled(s, es[0]), es[1..])
  }

  predicate Settled(s: State, es: seq<Event>)
    decreases |es|
  {
    es == [] || ((es[0].Request? ==> !Unsettles(s, es[0].post, es[0].cmd, es[0].payload, es[0].chance))
                 && Settled(Handled(s, es[0]), es[1..]))
  }

  lemma {:induction false} RunAgrees(s: State, es: seq<Event>)
    requires Agrees(s.ref, s.steps) && Settled(s, es)
    ensures Agrees(Run(s, es).ref, Run(s, es).steps)
    decreases |es|
  {
    hide Agrees;
    AgreesAtStart();
    if es != [] {
      if es[0].Request? {
        RequestKeepsIff(s, es[0].post, es[0].cmd, es[0].payload, es[0].chance);
      }
      RunAgrees(Handled(s, es[0]), es[1..]);
    }
  }

  /** In every settled run the steps since the last reset begin an onboarding, and the next step
      succeeds, if its request does, exactly when it goes on with one. */
  lemma StepsInOrder(es: seq<Event>, cmd: Step)
    requires Settled(START, es) && cmd < LOG_SYSTEMINFO
    ensures var s := Run(START, es);
            && Begins(s.steps)
            && After(s, ByPost(cmd), cmd, true, Chance(true, Good, Stays)).steps
               == (if Begins(s.steps + [cmd]) then s.steps + [cmd] else [])
  {
    var s := Run(START, es);
    AgreesAtStart();
    RunAgrees(START, es);
    AgreedIsBegun(s.ref, s.steps);
    AcceptedIff(s.ref, s.steps, cmd);
  }

  // ----- when the order is lost -----

  /** What spoils the order. A station that leaves just between the test and the count does, unless
      DEVICEINFO is asked for or the request fails; so does a step that is counted but cannot be queued,
      unless the next steps do not miss it: CONFIRM, SETUPCOMPLETE and a scan that another may replace. */
  predicate Spoils(s: State, post: bool, cmd: Step, payload: bool, c: Chance) {
    && Compared(post, cmd, payload) && Accepts(post, s.ref, cmd)
    && if c.queued then c.leave == BeforeCounting && cmd != DEVICEINFO && c.reply == Good
       else
         || c.leave == BeforeCounting
         || cmd in {DEVICEINFO, KEYINFO, CONFIRMINFO, WIFIPROVISIONING}
         || (cmd == WIFISCANINFO && s.steps != [] && s.steps[|s.steps| - 1] == CONFIRM)
  }

  predicate Unspoilt(s: State, es: seq<Event>)
    decreases |es|
  {
    es == [] || ((es[0].Request? ==> !Spoils(s, es[0].post, es[0].cmd, es[0].payload, es[0].chance))
                 && Unspoilt(Handled(s, es[0]), es[1..]))
  }

  /** The reference step agrees with the steps taken, or is ahead of them by a step not missed. */
  ghost predicate Sound(s: State) {
    || Agrees(s.ref, s.steps)
    || (s.ref in {4, 5} && s.steps == [DEVICEINFO, KEYINFO, CONFIRMINFO])
    || (s.ref == 7 && Agrees(6, s.steps))
  }

  lemma SoundIsBegun(s: State)
    requires Sound(s)
    ensures Begins(s.steps)
  {
    hide Agrees, Begins;
    if Agrees(s.ref, s.steps) {
      AgreedIsBegun(s.ref, s.steps);
    } else if s.ref == 7 {
      AgreedIsBegun(6, s.steps);
    } else {
      ThreeSteps();
      AgreedIsBegun(3, s.steps);
    }
  }

  lemma ThreeSteps()
    ensures Agrees(3, [DEVICEINFO, KEYINFO, CONFIRMINFO])
  {
  }

  /** A request that does not spoil keeps a state sound. */
  lemma RequestKeepsSound(s: State, post: bool, cmd: Step, payload: bool, c: Chance)
    requires Sound(s) && !Spoils(s, post, cmd, payload, c)
    ensures Sound(After(s, post, cmd, payload, c))
  {
    AgreesAtStart();
    if Agrees(s.ref, s.steps) {
      AgreedKeepsSound(s, post, cmd, payload, c);
    } else if s.ref == 7 {
      hide Agrees;
    } else {
      AheadKeepsSound(s, post, cmd, payload, c);
    }
  }

  lemma AgreedKeepsSound(s: State, post: bool, cmd: Step, payload: bool, c: Chance)
    requires Agrees(s.ref, s.steps) && !Spoils(s, post, cmd, payload, c)
    ensures Sound(After(s, post, cmd, payload, c))
  {
    hide Onboarding, Opening;
    RequestKeepsIff(s, post, cmd, payload, c);
    if Unsettles(s, post, cmd, payload, c) && s.steps != [] {
      LastStep(s.ref, s.steps);
    }
  }

  lemma AheadKeepsSound(s: State, post: bool, cmd: Step, payload: bool, c: Chance)
    requires s.ref in {4, 5} && s.steps == [DEVICEINFO, KEYINFO, CONFIRMINFO] && !Spoils(s, post, cmd, payload, c)
    ensures Sound(After(s, post, cmd, payload, c))
  {
    FirstScans();
    hide Opening, Onboarding;
  }

  lemma {:induction false} RunKeepsSound(s: State, es: seq<Event>)
    requires Sound(s) && Unspoilt(s, es)
    ensures Sound(Run(s, es))
    decreases |es|
  {
    hide Sound, Spoils;
    StartIsSound();
    if es != [] {
      if es[0].Request? {
        RequestKeepsSound(s, es[0].post, es[0].cmd, es[0].payload, es[0].chance);
      }
      RunKeepsSound(Handled(s, es[0]), es[1..]);
    }
  }

  lemma StartIsSound()
    ensures Sound(START)
  {
  }

  /** In every run without a spoilt request the steps since the last reset begin an onboarding. */
  lemma OrderKept(es: seq<Event>)
    requires Unspoilt(START, es)
    ensures Begins(Run(START, es).steps)
  {
    StartIsSound();
    RunKeepsSound(START, es);
    SoundIsBegun(Run(START, es));
  }

  /** A step that does not follow the last one begins no onboarding. */
  lemma OutOfOrder(w: seq<Step>, cmd: Step)
    requires if w == [] then cmd != DEVICEINFO else !Follows(w[|w| - 1], cmd)
    ensures !Begins(w + [cmd])
  {
    if Begins(w + [cmd]) {
      var m :| w + [cmd] <= Onboarding(m);
      hide Onboarding;
      assert Onboarding(m)[|w|] == cmd;
      if w == [] {
        StartsWithDeviceInfo(m);
      } else {
        assert Onboarding(m)[|w| - 1] == w[|w| - 1];
        Neighbours(m, |w| - 1);
      }
    }
  }

  /** Ask for a step, with nothing going wrong. */
  function Ask(cmd: Step): Event {
    Request(ByPost(cmd), cmd, true, Chance(true, Good, Stays))
  }

  /** The requests that bring a spoilt order to light: the step the reference step stands at. */
  function Exposing(t: State): seq<Event> {
    if t.ref == 1 && t.steps != [] then [] else if t.ref < LOG_SYSTEMINFO then [Ask(t.ref)] else []
  }

  lemma SpoiltShows(s: State, post: bool, cmd: Step, payload: bool, c: Chance)
    requires Sound(s) && Spoils(s, post, cmd, payload, c)
    ensures var t := After(s, post, cmd, payload, c);
            Unspoilt(t, Exposing(t)) && !Begins(Run(t, Exposing(t)).steps)
  {
    hide Begins;
    var t := After(s, post, cmd, payload, c);
    if t.ref == 1 && t.steps != [] {
      assert [] + [cmd] == t.steps;
      OutOfOrder([], cmd);
    } else {
      SpoiltState(s, post, cmd, payload, c);
      OutOfOrder(t.steps, t.ref);
      assert Run(t, [Ask(t.ref)]) == Handled(t, Ask(t.ref)) by {
        assert [Ask(t.ref)][1..] == [];
      }
    }
  }

  lemma SpoiltState(s: State, post: bool, cmd: Step, payload: bool, c: Chance)
    requires Sound(s) && Spoils(s, post, cmd, payload, c)
    ensures var t := After(s, post, cmd, payload, c);
            || (t.ref == 1 && t.steps == [cmd] && cmd != DEVICEINFO)
            || (t.ref in {1, 2, 3, 5, 6}
                && if t.steps == [] then t.ref != DEVICEINFO else !Follows(t.steps[|t.steps| - 1], t.ref))
  {
    hide Opening, Onboarding;
    if Agrees(s.ref, s.steps) && s.steps != [] {
      LastStep(s.ref, s.steps);
    }
  }

  /** The order is lost exactly by a spoilt request: from a sound state, some further requests, none of
      them spoilt, take steps that begin no onboarding if and only if this one is spoilt. */
  lemma OrderBreaksIff(s: State, post: bool, cmd: Step, payload: bool, c: Chance)
    requires Sound(s)
    ensures Spoils(s, post, cmd, payload, c) <==>
              exists es :: Unspoilt(After(s, post, cmd, payload, c), es)
                           && !Begins(Run(After(s, post, cmd, payload, c), es).steps)
  {
    hide Begins, Sound, Spoils;
    var t := After(s, post, cmd, payload, c);
    if Spoils(s, post, cmd, payload, c) {
      SpoiltShows(s, post, cmd, payload, c);
    } else {
      RequestKeepsSound(s, post, cmd, payload, c);
      forall es | Unspoilt(t, es) ensures Begins(Run(t, es).steps) {
        RunKeepsSound(t, es);
        SoundIsBegun(Run(t, es));
      }
    }
  }

  /** DEVICEINFO counted but not queued: the next step taken is KEYINFO. */
  lemma StartsWithoutDeviceInfo()
    ensures var s := Run(START, [Request(false, DEVICEINFO, true, Chance(false, NoReply, Stays)), Ask(KEYINFO)]);
            s.steps == [KEYINFO] && !Begins(s.steps)
  {
    var e, k := Request(false, DEVICEINFO, true, Chance(false, NoReply, Stays)), Ask(KEYINFO);
    assert [e, k][1..] == [k] && [k][1..] == [];
    assert Run(Handled(START, e), [k]) == Handled(Handled(START, e), k);
    assert [] + [KEYINFO] == [KEYINFO];
    OutOfOrder([], KEYINFO);
  }

  /** The requests of a station that follows the protocol. */
  function Requests(w: seq<Step>): (es: seq<Event>)
    ensures |es| == |w|
  {
    seq(|w|, i requires 0 <= i < |w| => Ask(w[i]))
  }

  lemma {:induction false} RunAppend(s: State, es: seq<Event>, e: Event)
    ensures Run(s, es + [e]) == Handled(Run(s, es), e)
    decreases |es|
  {
    if es == [] {
      assert ([] + [e])[1..] == [];
    } else {
      assert (es + [e])[1..] == es[1..] + [e];
      RunAppend(Handled(s, es[0]), es[1..], e);
    }
  }

  /** Every onboarding goes through, and so does every beginning of one. */
  lemma {:induction false} EveryOnboardingSucceeds(m: Middle, w: seq<Step>)
    requires w <= Onboarding(m)
    ensures var s := Run(START, Requests(w));
            s.steps == w && Agrees(s.ref, s.steps)
    decreases |w|
  {
    hide Agrees, Onboarding;
    if w == [] {
      AgreesAtStart();
    } else {
      var n := |w| - 1;
      EveryOnboardingSucceeds(m, w[..n]);
      var s := Run(START, Requests(w[..n]));
      assert w[..n] + [w[n]] == w;
      Bounded(m, n);
      AcceptedIff(s.ref, w[..n], w[n]);
      assert Requests(w) == Requests(w[..n]) + [Requests(w)[n]];
      RunAppend(START, Requests(w[..n]), Requests(w)[n]);
      Advance(ByPost(w[n]), s.ref, w[..n], w[n]);
    }
  }

  lemma Bounded(m: Middle, i: nat)
    requires i < |Onboarding(m)|
    ensures Onboarding(m)[i] < LOG_SYSTEMINFO
  {
  }

  // ----- the code -----

  datatype Error = Ok | InvalidRequest | InvalidCmd | InvalidSequence | QueueError | ReplyError

  /** The static ref_step, and the steps that succeeded since it was last zero. */
  class Sequencer {
    var refStep: nat
    ghost var steps: seq<Step>

    ghost function View(): State
      reads this
    {
      State(refStep, steps)
    }

    constructor ()
      ensures View() == START
    {
      refStep, steps := 0, [];
    }

    /** _iot_easysetup_wifi_event_cb, SOFTAP_STA_LEAVE */
    method StationLeft()
      modifies this
      ensures View() == Handled(old(View()), StationLeaves)
      ensures if old(refStep) <= 6 then refStep == 0 && steps == []
              else refStep == old(refStep) && steps == old(steps)
    {
      if refStep <= SETUPCOMPLETE {
        refStep, steps := 0, [];
      }
    }

    /** _iot_easysetup_gen_get_payload */
    method GenGetPayload(cmd: Step, c: Chance) returns (err: Error)
      requires refStep <= 7
      modifies this
      ensures View() == After(old(View()), false, cmd, true, c)
      ensures err == Ok <==>
                && (Accepts(false, old(refStep), cmd) || LOG_SYSTEMINFO <= cmd < INVALID_STEP)
                && c.queued && c.reply == Good
      ensures cmd == INVALID_STEP <==> err == InvalidCmd
      ensures cmd < LOG_SYSTEMINFO && !Accepts(false, old(refStep), cmd) <==> err == InvalidSequence
    {
      if cmd == INVALID_STEP {
        return InvalidCmd;
      }
      if cmd != refStep && cmd < LOG_SYSTEMINFO {
        if cmd == WIFISCANINFO && refStep == CONFIRM {
          refStep := WIFISCANINFO;
        } else if cmd == WIFISCANINFO && refStep == WIFIPROVISIONING {
          refStep := WIFISCANINFO;
        } else {
          refStep, steps := 0, [];
          return InvalidSequence;
        }
      }
      err := CountAndServe(cmd, c);
    }

    /** _iot_easysetup_gen_post_payload */
    method GenPostPayload(cmd: Step, payload: bool, c: Chance) returns (err: Error)
      requires refStep <= 7
      modifies this
      ensures View() == After(old(View()), true, cmd, payload, c)
      ensures err == Ok <==> Compared(true, cmd, payload) && (cmd < LOG_SYSTEMINFO ==> Accepts(true, old(refStep), cmd))
                             && c.queued && c.reply == Good
      ensures err in {InvalidRequest, InvalidCmd} <==> !Compared(true, cmd, payload)
      ensures Compared(true, cmd, payload) && cmd < LOG_SYSTEMINFO && !Accepts(true, old(refStep), cmd)
              <==> err == InvalidSequence
    {
      if !payload && cmd != SETUPCOMPLETE && cmd != LOG_CREATE_DUMP {
        return InvalidRequest;
      }
      if cmd == INVALID_STEP {
        return InvalidCmd;
      }
      if cmd != refStep && cmd < LOG_SYSTEMINFO {
        if cmd == WIFIPROVISIONING {
          if refStep == CONFIRM || refStep == CONFIRMINFO {
            refStep := WIFIPROVISIONING;
          } else {
            refStep, steps := 0, [];
            return InvalidSequence;
          }
        } else {
          refStep, steps := 0, [];
          return InvalidSequence;
        }
      }
      err := CountAndServe(cmd, c);
    }

    /** What both handlers do with a step in order: count it, queue it, wait for the reply. */
    method CountAndServe(cmd: Step, c: Chance) returns (err: Error)
      requires cmd < INVALID_STEP && (cmd < LOG_SYSTEMINFO ==> refStep == cmd)
      modifies this
      ensures err in {Ok, QueueError, ReplyError} && (err == Ok <==> c.queued && c.reply == Good)
      ensures View() == if cmd >= LOG_SYSTEMINFO then START
                        else
                          var torn := c.leave == BeforeCounting;
                          var ref := if torn then 1 else cmd + 1;
                          var w := if torn then [] else old(steps);
                          if !c.queued then State(ref, w)
                          else if c.reply != Good then START
                          else if c.leave == WhileWaiting && ref <= SETUPCOMPLETE then START
                          else State(ref, w + [cmd])
    {
      if c.leave == BeforeCounting {
        StationLeft();
      }
      if cmd < LOG_SYSTEMINFO {
        refStep := refStep + 1;
      } else {
        refStep, steps := 0, [];
      }
      if !c.queued {
        return QueueError;
      }
      if cmd < LOG_SYSTEMINFO {
        steps := steps + [cmd];
      }
      if c.leave == WhileWaiting {
        StationLeft();
      }
      if c.reply != Good {
        refStep, steps := 0, [];
        return ReplyError;
      }
      err := Ok;
    }
  }
}
