/** The connection states of the device (iot_main.c, iot_api.c): the worker that handles commands,
    and the timer, the user and the other threads that run beside it, step by step.
    The property is that a disconnected device is never left without something that will connect
    it again. */
module Connection {
  import opened Bytes
  import Backoff

  datatype Phase = Initialized | ProvEnter | ProvConfirm | ProvDone | ProvSleep | Disconnected | Connected

  /** The commands that matter here; Wi-Fi, other notifications and the rest are Other. What the handler
      of Registering does comes in as commands queued by the environment. */
  datatype Command = Update(to: Phase) | Connecting | Registering | Deleted | Other

  /** The point the worker has reached in the command it took off the queue. */
  datatype Place =
    | Idle
    | Checking(to: Phase)      // _do_state_updating, before it looks at the present state
    | Ordering(to: Phase)      // the transition is legal and sends a command
    | Entering(to: Phase)      // before the new state is stored
    | Starting                 // CLOUD_CONNECTING, before it looks at anything
    | Postponing               // about to send CLOUD_CONNECTING again
    | Attempting               // in iot_es_connect
    | Refused                  // about to send the device-deleted notification
    | Failed                   // about to arm the retry timer
    | Succeeded                // about to delete the retry timer
    | Announcing               // about to send the CLOUD_CONNECTED update
    | Judging                  // the device-deleted notification, before it looks at usr_delete_req
    | Acknowledging            // about to clear usr_delete_req
    | Signalling               // about to set the CMD_DONE bit
    | Wiping                   // in iot_cleanup, before it resets the state

  /** The user's thread in st_conn_cleanup. */
  datatype User =
    | Absent
    | Asking                   // CMD_DONE is cleared, usr_delete_req not yet set
    | Waiting                  // for CMD_DONE
    | GivingUp                 // about to clear usr_delete_req
    | Cleaning                 // in iot_cleanup, before it resets the state

  datatype State = State(phase: Phase, queue: seq<Command>, retryTimer: bool, firing: nat, worker: Place,
                         deleteRequest: bool, done: bool, user: User)

  datatype Result = Success | Rejection | Failure

  datatype Step =
    // the environment: any thread may queue any command, and reset the state
    | Put(c: Command) | Reset
    // the timer
    | TimerFires | TimerSends
    // the user
    | AskDelete | SetRequest | SeesDone | TimesOut | ClearRequest | SkipDelete | UserResets
    // the worker
    | Dequeue | Check(ioOk: bool) | Order | Enter | Start(expired: bool, paused: bool, wifiOk: bool) | Postpone
    | Attempt(r: Result) | Refuse | ArmTimer | DropTimer | Announce | Judge | Acknowledge | Signal | Wipe

  /** The transitions _do_state_updating accepts. */
  predicate Legal(now: Phase, to: Phase) {
    match now
    case Initialized => to in {ProvEnter, ProvDone, Disconnected}
    case ProvEnter => to in {ProvConfirm, ProvSleep}
    case ProvConfirm => to == ProvDone
    case ProvDone => to in {Disconnected, ProvEnter, ProvConfirm}
    case Disconnected => to in {Connected, ProvConfirm}
    case Connected => to == Disconnected
    case ProvSleep => false
  }

  lemma LegalIs(now: Phase, to: Phase)
    ensures var pairs := {(Initialized, ProvEnter), (Initialized, ProvDone), (Initialized, Disconnected),
                          (ProvEnter, ProvConfirm), (ProvEnter, ProvSleep), (ProvConfirm, ProvDone),
                          (ProvDone, Disconnected), (ProvDone, ProvEnter), (ProvDone, ProvConfirm),
                          (Disconnected, Connected), (Disconnected, ProvConfirm), (Connected, Disconnected)};
            Legal(now, to) <==> (now, to) in pairs
  {
  }

  predicate Enabled(s: State, e: Step) {
    match e
    case Put(_) => true
    case Reset => true
    case TimerFires => s.retryTimer
    case TimerSends => s.firing > 0
    case AskDelete => s.user == Absent && s.phase == Connected
    case SetRequest => s.user == Asking
    case SeesDone => s.user == Waiting && s.done
    case TimesOut => s.user == Waiting
    case ClearRequest => s.user == GivingUp
    case SkipDelete => s.user == Absent
    case UserResets => s.user == Cleaning
    case Dequeue => s.worker == Idle && s.queue != []
    case Check(_) => s.worker.Checking?
    case Order => s.worker.Ordering?
    case Enter => s.worker.Entering?
    case Start(_, _, _) => s.worker == Starting
    case Postpone => s.worker == Postponing
    case Attempt(_) => s.worker == Attempting
    case Refuse => s.worker == Refused
    case ArmTimer => s.worker == Failed
    case DropTimer => s.worker == Succeeded
    case Announce => s.worker == Announcing
    case Judge => s.worker == Judging
    case Acknowledge => s.worker == Acknowledging
    case Signal => s.worker == Signalling
    case Wipe => s.worker == Wiping
  }

  function Queued(s: State, c: Command): State {
    s.(queue := s.queue + [c])
  }

  /** Where the worker begins with a command. */
  function Begins(c: Command): Place {
    match c
    case Update(to) => Checking(to)
    case Connecting => Starting
    case Deleted => Judging
    case Registering => Idle
    case Other => Idle
  }

  /** The command sent on the way to a state. */
  function Ordered(to: Phase): Command {
    if to == ProvDone then Registering else Connecting
  }

  /** Where _do_state_updating goes from its switch; entering provisioning may fail on the radio. */
  function Checked(now: Phase, to: Phase, ioOk: bool): Place {
    if !Legal(now, to) then Idle
    else if to == ProvEnter && !ioOk then Idle
    else if to == Disconnected || to == ProvDone then Ordering(to)
    else Entering(to)
  }

  function Apply(s: State, e: Step): State
    requires Enabled(s, e)
  {
    match e
    case Put(c) => Queued(s, c)
    case Reset => s.(phase := Initialized)
    case TimerFires => s.(retryTimer := false, firing := s.firing + 1)
    case TimerSends => Queued(s, Connecting).(firing := s.firing - 1)
    case AskDelete => s.(user := Asking, done := false)
    case SetRequest => s.(user := Waiting, deleteRequest := true)
    case SeesDone => s.(user := Cleaning, done := false)
    case TimesOut => s.(user := GivingUp)
    case ClearRequest => s.(user := Cleaning, deleteRequest := false)
    case SkipDelete => s.(user := Cleaning)
    case UserResets => s.(user := Absent, phase := Initialized)
    case Dequeue => s.(worker := Begins(s.queue[0]), queue := s.queue[1..])
    case Check(ioOk) => s.(worker := Checked(s.phase, s.worker.to, ioOk))
    case Order => Queued(s, Ordered(s.worker.to)).(worker := Entering(s.worker.to))
    case Enter => s.(phase := s.worker.to, worker := Idle)
    case Start(expired, paused, wifiOk) =>
      s.(worker := if expired then Postponing
                   else if s.phase != Disconnected then Idle
                   else if paused || !wifiOk then Postponing
                   else Attempting)
    case Postpone => Queued(s, Connecting).(worker := Idle)
    case Attempt(r) =>
      s.(worker := match r
                   case Rejection => Refused
                   case Failure => Failed
                   case Success => Succeeded)
    case Refuse => Queued(s, Deleted).(worker := Idle)
    case ArmTimer => s.(retryTimer := true, worker := Idle)
    case DropTimer => s.(retryTimer := false, worker := Announcing)
    case Announce => Queued(s, Update(Connected)).(worker := Idle)
    case Judge => s.(worker := if s.deleteRequest then Acknowledging else Wiping)
    case Acknowledge => s.(worker := Signalling, deleteRequest := false)
    case Signal => s.(worker := Idle, done := true)
    case Wipe => s.(worker := Idle, phase := Initialized)
  }

  function Initial(): State {
    State(Initialized, [], false, 0, Idle, false, false, Absent)
  }

  predicate Enables(s: State, es: seq<Step>)
    decreases |es|
  {
    es == [] || (Enabled(s, es[0]) && Enables(Apply(s, es[0]), es[1..]))
  }

  function Run(s: State, es: seq<Step>): State
    requires Enables(s, es)
    decreases |es|
  {
    if es == [] then s else Run(Apply(s, es[0]), es[1..])
  }

  // ----- safety -----

  /** The worker is at work on a command that will do something about the connection. */
  predicate Busy(w: Place) {
    w in {Starting, Postponing, Attempting, Refused, Failed, Succeeded,
          Announcing, Judging, Wiping, Checking(Connected)}
    || ((w.Ordering? || w.Entering?) && w.to != Disconnected)
  }

  /** Something will move a disconnected device on: a command, the timer, the worker or the user. */
  predicate WayOut(s: State) {
    || Connecting in s.queue || Update(Connected) in s.queue || Deleted in s.queue
    || s.retryTimer || s.firing > 0
    || Busy(s.worker)
    || s.user != Absent
  }

  predicate Stranded(s: State) {
    s.phase == Disconnected && !WayOut(s)
  }

  /** The worker is answering a user's delete request. */
  predicate Answering(s: State) {
    s.worker == Acknowledging || s.worker == Signalling
  }

  predicate Inv(s: State) {
    && !Stranded(s)
    && (s.worker.Entering? && s.worker.to == Disconnected ==> Connecting in s.queue)
    && (s.deleteRequest ==> s.user == Waiting || s.user == GivingUp)
    && (s.user == Asking ==> !s.done && !Answering(s))
    && (s.user == Waiting && (s.done || s.worker == Signalling) ==> !s.deleteRequest)
    && (Answering(s) && s.user == Absent ==> s.phase != Connected)
  }

  /** A step of the worker, from the moment it takes a command. */
  predicate ByWorker(e: Step) {
    !(e.Put? || e.Reset? || e.TimerFires? || e.TimerSends? || e.AskDelete?
      || e.SetRequest? || e.SeesDone? || e.TimesOut?
      || e.ClearRequest? || e.SkipDelete? || e.UserResets?)
  }

  lemma DequeueKeepsInv(s: State)
    requires Inv(s) && Enabled(s, Dequeue)
    ensures Inv(Apply(s, Dequeue))
  {
    assert s.queue == [s.queue[0]] + s.queue[1..];
  }

  lemma UpdatingKeepsInv(s: State, e: Step)
    requires Inv(s) && Enabled(s, e) && (e.Check? || e.Order? || e.Enter?)
    ensures Inv(Apply(s, e))
  {
  }

  lemma DeletingKeepsInv(s: State, e: Step)
    requires Inv(s) && Enabled(s, e) && (e.Judge? || e.Acknowledge? || e.Signal? || e.Wipe?)
    ensures Inv(Apply(s, e))
  {
  }

  lemma ConnectingKeepsInv(s: State, e: Step)
    requires Inv(s) && Enabled(s, e)
    requires e.Start? || e.Postpone? || e.Attempt? || e.Refuse? || e.ArmTimer? || e.DropTimer? || e.Announce?
    ensures Inv(Apply(s, e))
  {
  }

  lemma WorkerKeepsInv(s: State, e: Step)
    requires Inv(s) && Enabled(s, e) && ByWorker(e)
    ensures Inv(Apply(s, e))
  {
    hide Inv, Apply, Enabled;
    match e
    case Dequeue => DequeueKeepsInv(s);
    case Check(_) => UpdatingKeepsInv(s, e);
    case Order => UpdatingKeepsInv(s, e);
    case Enter => UpdatingKeepsInv(s, e);
    case Judge => DeletingKeepsInv(s, e);
    case Acknowledge => DeletingKeepsInv(s, e);
    case Signal => DeletingKeepsInv(s, e);
    case Wipe => DeletingKeepsInv(s, e);
    case _ => ConnectingKeepsInv(s, e);
  }

  lemma OthersKeepInv(s: State, e: Step)
    requires Inv(s) && Enabled(s, e) && !ByWorker(e)
    ensures Inv(Apply(s, e))
  {
  }

  lemma StepKeepsInv(s: State, e: Step)
    requires Inv(s) && Enabled(s, e)
    ensures Inv(Apply(s, e))
  {
    hide Inv, Apply, Enabled;
    if ByWorker(e) {
      WorkerKeepsInv(s, e);
    } else {
      OthersKeepInv(s, e);
    }
  }

  lemma {:induction false} RunKeepsInv(s: State, es: seq<Step>)
    requires Inv(s) && Enables(s, es)
    ensures Inv(Run(s, es))
    decreases |es|
  {
    if es != [] {
      StepKeepsInv(s, es[0]);
      RunKeepsInv(Apply(s, es[0]), es[1..]);
    }
  }

  /** In no reachable state is the device stranded in CLOUD_DISCONNECTED. */
  lemma NeverStranded(es: seq<Step>)
    requires Enables(Initial(), es)
    ensures !Stranded(Run(Initial(), es))
  {
    RunKeepsInv(Initial(), es);
  }

  // ----- the way out -----

  /** A next step of the user, the worker or the timer that leads out, with the connection succeeding. */
  function Helpful(s: State): Step {
    match s.user
    case Asking => SetRequest
    case Waiting => TimesOut
    case GivingUp => ClearRequest
    case Cleaning => UserResets
    case Absent =>
      match s.worker
      case Idle => if s.queue != [] then Dequeue else if s.firing > 0 then TimerSends else TimerFires
      case Checking(_) => Check(true)
      case Ordering(_) => Order
      case Entering(_) => Enter
      case Starting => Start(false, false, true)
      case Postponing => Postpone
      case Attempting => Attempt(Success)
      case Refused => Refuse
      case Failed => ArmTimer
      case Succeeded => DropTimer
      case Announcing => Announce
      case Judging => Judge
      case Acknowledging => Acknowledge
      case Signalling => Signal
      case Wiping => Wipe
  }

  function CommandRank(c: Command): nat {
    match c
    case Update(_) => 5
    case Connecting => 10
    case Deleted => 4
    case Registering => 1
    case Other => 1
  }

  function QueueRank(q: seq<Command>): nat {
    if q == [] then 0 else QueueRank(q[..|q| - 1]) + CommandRank(q[|q| - 1])
  }

  function PlaceRank(w: Place): nat {
    match w
    case Idle => 0
    case Checking(_) => 2
    case Ordering(_) => 12
    case Entering(_) => 1
    case Starting => 9
    case Postponing => 11
    case Attempting => 8
    case Refused => 5
    case Failed => 13
    case Succeeded => 7
    case Announcing => 6
    case Judging => 3
    case Acknowledging => 2
    case Signalling => 1
    case Wiping => 1
  }

  function UserRank(u: User): nat {
    match u
    case Absent => 0
    case Asking => 4
    case Waiting => 3
    case GivingUp => 2
    case Cleaning => 1
  }

  /** Falls with every helpful step. */
  function Rank(s: State): nat {
    QueueRank(s.queue) + PlaceRank(s.worker) + UserRank(s.user) + 11 * s.firing + (if s.retryTimer then 12 else 0)
  }

  lemma QueueRankAdd(q: seq<Command>, c: Command)
    ensures QueueRank(q + [c]) == QueueRank(q) + CommandRank(c)
  {
    assert (q + [c])[..|q|] == q;
  }

  lemma {:induction false} QueueRankFirst(q: seq<Command>)
    requires q != []
    ensures QueueRank(q) == CommandRank(q[0]) + QueueRank(q[1..])
  {
    var n := |q| - 1;
    if n > 0 {
      QueueRankFirst(q[..n]);
      assert q[1..][..n - 1] == q[..n][1..];
    }
  }

  /** The step can be taken, and leads out or brings the way out nearer. */
  predicate Helps(s: State, e: Step) {
    Enabled(s, e) && (Apply(s, e).phase != Disconnected || Rank(Apply(s, e)) < Rank(s))
  }

  lemma UserHelps(s: State)
    requires s.user != Absent
    ensures Helps(s, Helpful(s))
  {
    hide QueueRank, PlaceRank;
  }

  lemma WorkerHelps(s: State)
    requires s.user == Absent && s.worker != Idle && !s.deleteRequest
    requires s.phase == Disconnected
    ensures Helps(s, Helpful(s))
  {
    hide QueueRank;
    QueueRankAdd(s.queue, Connecting);
    QueueRankAdd(s.queue, Registering);
    QueueRankAdd(s.queue, Deleted);
    QueueRankAdd(s.queue, Update(Connected));
  }

  lemma IdleHelps(s: State)
    requires s.user == Absent && s.worker == Idle && (s.queue != [] || s.firing > 0 || s.retryTimer)
    ensures Helps(s, Helpful(s))
  {
    hide QueueRank;
    if s.queue != [] {
      QueueRankFirst(s.queue);
    }
    QueueRankAdd(s.queue, Connecting);
  }

  lemma HelpfulHelps(s: State)
    requires Inv(s) && s.phase == Disconnected
    ensures Helps(s, Helpful(s))
  {
    hide Helps, Helpful;
    if s.user != Absent {
      UserHelps(s);
    } else if s.worker != Idle {
      WorkerHelps(s);
    } else {
      IdleHelps(s);
    }
  }

  lemma HelpfulIsTheirs(s: State)
    ensures var e := Helpful(s); !e.Put? && e != Reset && (e.Attempt? ==> e.r == Success)
  {
  }

  /** Neither the environment nor a lost connection attempt is needed to leave CLOUD_DISCONNECTED:
      from every reachable state the user, the worker and the timer lead out of it. */
  lemma {:induction false} Escapes(s: State) returns (es: seq<Step>)
    requires Inv(s)
    ensures Enables(s, es) && Run(s, es).phase != Disconnected
    ensures forall e <- es :: !e.Put? && e != Reset && (e.Attempt? ==> e.r == Success)
    decreases Rank(s)
  {
    hide Inv, Helpful, Rank, Apply, Enabled;
    if s.phase != Disconnected {
      return [];
    }
    HelpfulHelps(s);
    HelpfulIsTheirs(s);
    var e, t := Helpful(s), Apply(s, Helpful(s));
    StepKeepsInv(s, e);
    var rest := [];
    if t.phase == Disconnected {
      rest := Escapes(t);
    }
    es := [e] + rest;
    assert es[1..] == rest;
  }

  // ----- the handlers -----

  /** _do_state_updating from its switch to the store of the new state, without interruption. */
  function Updated(s: State, ioOk: bool): (t: State)
    requires s.worker.Checking?
  {
    var s1 := Apply(s, Check(ioOk));
    var s2 := if s1.worker.Ordering? then Apply(s1, Order) else s1;
    if s2.worker.Entering? then Apply(s2, Enter) else s2
  }

  /** The worker's last step with a CLOUD_CONNECTING command whose attempt has been made. */
  function Concluded(s: State): (t: State) {
    match s.worker
    case Refused => Apply(s, Refuse)
    case Failed => Apply(s, ArmTimer)
    case Succeeded => Apply(Apply(s, DropTimer), Announce)
    case _ => s
  }

  /** CLOUD_CONNECTING handled without interruption. */
  function Attempted(s: State, expired: bool, paused: bool, wifiOk: bool, r: Result): (t: State)
    requires s.worker == Starting
  {
    var s1 := Apply(s, Start(expired, paused, wifiOk));
    match s1.worker
    case Postponing => Apply(s1, Postpone)
    case Attempting => Concluded(Apply(s1, Attempt(r)))
    case _ => s1
  }

  lemma UpdatedKeepsInv(s: State, ioOk: bool)
    requires Inv(s) && s.worker.Checking?
    ensures Inv(Updated(s, ioOk)) && Updated(s, ioOk).worker == Idle
  {
    hide Inv;
    var s1 := Apply(s, Check(ioOk));
    StepKeepsInv(s, Check(ioOk));
    if s1.worker.Ordering? {
      StepKeepsInv(s1, Order);
      StepKeepsInv(Apply(s1, Order), Enter);
    } else if s1.worker.Entering? {
      StepKeepsInv(s1, Enter);
    }
  }

  lemma ConcludedKeepsInv(s: State)
    requires Inv(s)
    ensures Inv(Concluded(s))
  {
    hide Inv;
    match s.worker
    case Refused => StepKeepsInv(s, Refuse);
    case Failed => StepKeepsInv(s, ArmTimer);
    case Succeeded =>
      StepKeepsInv(s, DropTimer);
      StepKeepsInv(Apply(s, DropTimer), Announce);
    case _ =>
  }

  lemma AttemptedKeepsInv(s: State, expired: bool, paused: bool, wifiOk: bool, r: Result)
    requires Inv(s) && s.worker == Starting
    ensures Inv(Attempted(s, expired, paused, wifiOk, r))
  {
    hide Inv, Apply, Concluded;
    var s1 := Apply(s, Start(expired, paused, wifiOk));
    StepKeepsInv(s, Start(expired, paused, wifiOk));
    match s1.worker
    case Postponing => StepKeepsInv(s1, Postpone);
    case Attempting =>
      StepKeepsInv(s1, Attempt(r));
      ConcludedKeepsInv(Apply(s1, Attempt(r)));
    case _ =>
  }

  lemma ConcludedIs(s: State)
    requires s.worker in {Refused, Failed, Succeeded}
    ensures Concluded(s) == (match s.worker
                             case Refused => Queued(s, Deleted)
                             case Failed => s.(retryTimer := true)
                             case Succeeded => Queued(s, Update(Connected)).(retryTimer := false)
                             case _ => s).(worker := Idle)
  {
  }

  lemma StartIs(s: State, expired: bool, paused: bool, wifiOk: bool)
    requires s.worker == Starting
    ensures Enabled(s, Start(expired, paused, wifiOk))
    ensures Apply(s, Start(expired, paused, wifiOk)) ==
              s.(worker := if expired then Postponing
                           else if s.phase != Disconnected then Idle
                           else if paused || !wifiOk then Postponing
                           else Attempting)
  {
  }

  lemma PostponeIs(s: State)
    requires s.worker == Postponing
    ensures Enabled(s, Postpone) && Apply(s, Postpone) == Queued(s, Connecting).(worker := Idle)
  {
  }

  lemma AttemptIs(s: State, r: Result)
    requires s.worker == Attempting
    ensures Enabled(s, Attempt(r))
    ensures Apply(s, Attempt(r)) == s.(worker :=
                match r case Rejection => Refused case Failure => Failed case Success => Succeeded)
  {
  }

  /** What handling CLOUD_CONNECTING comes to. */
  lemma AttemptedIs(s: State, expired: bool, paused: bool, wifiOk: bool, r: Result)
    requires s.worker == Starting
    ensures Attempted(s, expired, paused, wifiOk, r) ==
              (if expired || (s.phase == Disconnected && (paused || !wifiOk)) then Queued(s, Connecting)
               else if s.phase != Disconnected then s
               else match r
                    case Rejection => Queued(s, Deleted)
                    case Failure => s.(retryTimer := true)
                    case Success => Queued(s, Update(Connected)).(retryTimer := false)).(worker := Idle)
  {
    hide Concluded, Apply, Enabled;
    StartIs(s, expired, paused, wifiOk);
    var s1 := Apply(s, Start(expired, paused, wifiOk));
    if s1.worker == Postponing {
      PostponeIs(s1);
    } else if s1.worker == Attempting {
      AttemptIs(s1, r);
      ConcludedIs(Apply(s1, Attempt(r)));
    }
  }

  /** The device-deleted notification handled without interruption. */
  function Answered(s: State): (t: State)
    requires s.worker == Judging
  {
    var s1 := Apply(s, Judge);
    if s1.worker == Acknowledging then Apply(Apply(s1, Acknowledge), Signal) else Apply(s1, Wipe)
  }

  lemma AnsweredIs(s: State)
    requires s.worker == Judging
    ensures Answered(s) ==
              (if s.deleteRequest then s.(deleteRequest := false, done := true)
               else s.(phase := Initialized)).(worker := Idle)
  {
  }

  lemma AnsweredKeepsInv(s: State)
    requires Inv(s) && s.worker == Judging
    ensures Inv(Answered(s))
  {
    hide Inv;
    var s1 := Apply(s, Judge);
    StepKeepsInv(s, Judge);
    if s1.worker == Acknowledging {
      StepKeepsInv(s1, Acknowledge);
      StepKeepsInv(Apply(s1, Acknowledge), Signal);
    } else {
      StepKeepsInv(s1, Wipe);
    }
  }

  /** One command taken off the queue and handled without interruption. */
  function Handled(s: State, ioOk: bool, expired: bool, paused: bool, wifiOk: bool, r: Result): (t: State)
    requires s.worker == Idle && s.queue != []
  {
    HandledFrom(Apply(s, Dequeue), ioOk, expired, paused, wifiOk, r)
  }

  function HandledFrom(s: State, ioOk: bool, expired: bool, paused: bool, wifiOk: bool, r: Result): (t: State) {
    match s.worker
    case Checking(_) => Updated(s, ioOk)
    case Starting => Attempted(s, expired, paused, wifiOk, r)
    case Judging => Answered(s)
    case _ => s
  }

  /** A connected device told of the loss is disconnected, with the command that connects it again. */
  lemma LossIsAnswered(s: State, ioOk: bool, expired: bool, paused: bool, wifiOk: bool, r: Result)
    requires s.worker == Idle && s.phase == Connected && s.queue != [] && s.queue[0] == Update(Disconnected)
    ensures Handled(s, ioOk, expired, paused, wifiOk, r)
            == s.(phase := Disconnected, queue := s.queue[1..] + [Connecting])
  {
  }

  /** The next command handled with everything it asks for going well. */
  function Worked(s: State): (t: State)
    requires s.worker == Idle && s.queue != []
  {
    Handled(s, true, false, false, true, Success)
  }

  /** An update queued at a worker with nothing else to do, and handled. */
  function Told(s: State, to: Phase): (t: State)
    requires s.worker == Idle && s.queue == []
  {
    Worked(Queued(s, Update(to)))
  }

  lemma ToldIs(s: State, to: Phase)
    requires s.worker == Idle && s.queue == []
    requires (s.phase, to) in {(Initialized, ProvEnter), (ProvEnter, ProvConfirm), (ProvConfirm, ProvDone),
                               (ProvDone, Disconnected), (Connected, Disconnected), (Disconnected, Connected)}
    ensures Told(s, to) == s.(phase := to, queue := if to == Disconnected then [Connecting]
                                                    else if to == ProvDone then [Registering] else [])
  {
    var u := s.(worker := Checking(to));
    assert Apply(Queued(s, Update(to)), Dequeue) == u;
    UpdatedIs(u);
  }

  lemma UpdatedIs(s: State)
    requires s.worker.Checking? && s.queue == []
    requires (s.phase, s.worker.to) in
               {(Initialized, ProvEnter), (ProvEnter, ProvConfirm), (ProvConfirm, ProvDone),
                (ProvDone, Disconnected), (Connected, Disconnected), (Disconnected, Connected)}
    ensures var to := s.worker.to;
            Updated(s, true) == s.(phase := to, worker := Idle,
                                   queue := if to == Disconnected then [Connecting]
                                            else if to == ProvDone then [Registering] else [])
  {
  }

  lemma RegisteringIs(s: State)
    requires s.worker == Idle && s.queue == [Registering]
    ensures Worked(s) == s.(queue := [])
  {
  }

  lemma ConnectingIs(s: State)
    requires s.worker == Idle && s.phase == Disconnected && s.queue == [Connecting]
    ensures Worked(s) == s.(queue := [Update(Connected)], retryTimer := false)
  {
    hide Attempted;
    AttemptedIs(Apply(s, Dequeue), false, false, true, Success);
  }

  /** A disconnected device connects again, while the Wi-Fi and the attempt are good. */
  lemma ConnectsAgain(s: State)
    requires s.worker == Idle && s.phase == Disconnected && s.queue == [Connecting]
    ensures var t := Worked(s);
            && t.worker == Idle && t.queue == [Update(Connected)]
            && Worked(t) == s.(phase := Connected, queue := [], retryTimer := false)
  {
    hide Worked;
    ConnectingIs(s);
    var t := s.(queue := [], retryTimer := false);
    ToldIs(t, Connected);
    assert Queued(t, Update(Connected)) == Worked(s);
  }

  /** The whole life of a device by its handlers: provisioning, registration, connection, a loss and a new
      connection. */
  lemma WholeLife()
    ensures var s1 := Told(Initial(), ProvEnter);
            && s1.phase == ProvEnter && s1.worker == Idle && s1.queue == []
            && var s2 := Told(s1, ProvConfirm);
               && s2.phase == ProvConfirm && s2.worker == Idle && s2.queue == []
               && var s3 := Told(s2, ProvDone);
                  && s3.phase == ProvDone && s3.worker == Idle && s3.queue == [Registering]
                  && Worked(s3) == Initial().(phase := ProvDone)
    ensures var s5 := Told(Initial().(phase := ProvDone), Disconnected);
            && s5.phase == Disconnected && s5.worker == Idle && s5.queue == [Connecting]
            && var s6 := Worked(s5);
               && s6.phase == Disconnected && s6.worker == Idle && s6.queue == [Update(Connected)]
               && Worked(s6) == Initial().(phase := Connected)
    ensures Told(Initial().(phase := Connected), Disconnected)
            == Initial().(phase := Disconnected, queue := [Connecting])
  {
    hide Worked, Told;
    var s := Initial();
    ToldIs(s, ProvEnter);
    ToldIs(s.(phase := ProvEnter), ProvConfirm);
    ToldIs(s.(phase := ProvConfirm), ProvDone);
    RegisteringIs(s.(phase := ProvDone, queue := [Registering]));
    ToldIs(s.(phase := ProvDone), Disconnected);
    ConnectingIs(s.(phase := Disconnected, queue := [Connecting]));
    ConnectsAgain(s.(phase := Disconnected, queue := [Connecting]));
    ToldIs(s.(phase := Connected), Disconnected);
  }

  datatype Status = Ok | InvalidArgs | IoError

  /** The part of iot_context the handlers work on. The ghost fields say where the worker, the user
      and the timer's callbacks stand. */
  class Context {
    var currState: Phase
    var workQueue: seq<Command>
    var retryTimer: bool
    var retryDelay: nat
    var retryCount: uint32
    var usrDeleteReq: bool
    var cmdDone: bool
    ghost var place: Place
    ghost var user: User
    ghost var firing: nat

    ghost function View(): State
      reads this
    {
      State(currState, workQueue, retryTimer, firing, place, usrDeleteReq, cmdDone, user)
    }

    constructor ()
      ensures View() == Initial() && Inv(View())
    {
      currState, workQueue, retryTimer, usrDeleteReq, cmdDone := Initialized, [], false, false, false;
      retryDelay, retryCount := 0, 0;
      place, user, firing := Idle, Absent, 0;
    }

    /** iot_command_send */
    method Send(c: Command)
      modifies this`workQueue
      ensures workQueue == old(workQueue) + [c]
    {
      workQueue := workQueue + [c];
    }

    /** _do_state_updating */
    method StateUpdating(to: Phase, ioOk: bool) returns (err: Status)
      requires Inv(View()) && place == Checking(to)
      modifies this`currState, this`workQueue, this`place
      ensures Inv(View()) && View() == Updated(old(View()), ioOk)
      ensures var accepted := (old(currState), to) in
                {(Initialized, ProvEnter), (Initialized, ProvDone), (Initialized, Disconnected),
                 (ProvEnter, ProvConfirm), (ProvEnter, ProvSleep), (ProvConfirm, ProvDone),
                 (ProvDone, Disconnected), (ProvDone, ProvEnter), (ProvDone, ProvConfirm),
                 (Disconnected, Connected), (Disconnected, ProvConfirm), (Connected, Disconnected)};
              err == if !accepted then InvalidArgs else if to == ProvEnter && !ioOk then IoError else Ok
      ensures currState == if err == Ok then to else old(currState)
      ensures workQueue == old(workQueue) + if err == Ok && to == Disconnected then [Connecting]
                                            else if err == Ok && to == ProvDone then [Registering] else []
    {
      hide Inv, Legal;
      UpdatedKeepsInv(View(), ioOk);
      LegalIs(currState, to);
      place := Idle;
      if !Legal(currState, to) {
        return InvalidArgs;
      }
      if to == ProvEnter && !ioOk {
        return IoError;
      }
      if to == Disconnected || to == ProvDone {
        Send(Ordered(to));
      }
      currState := to;
      err := Ok;
    }

    /** _do_iot_main_command, IOT_COMMAND_CLOUD_CONNECTING. The arguments are what the timers, the
        Wi-Fi driver, iot_es_connect and iot_bsp_random answer. */
    method CloudConnecting(expired: bool, paused: bool, wifiOk: bool, result: Result, random: nat)
      requires Inv(View()) && place == Starting
      modifies this`workQueue, this`retryTimer, this`retryDelay, this`retryCount, this`place
      ensures Inv(View()) && View() == Attempted(old(View()), expired, paused, wifiOk, result)
      ensures workQueue == old(workQueue)
                + if expired then [Connecting]
                  else if old(currState) != Disconnected then []
                  else if paused || !wifiOk then [Connecting]
                  else match result
                       case Rejection => [Deleted]
                       case Failure => []
                       case Success => [Update(Connected)]
      ensures var tried := !expired && old(currState) == Disconnected && !paused && wifiOk;
              && retryCount == (if tried && result == Failure then (old(retryCount) + 1) % TWO_TO_THE_32
                                else if tried && result == Success then 0 else old(retryCount))
              && retryDelay == (if tried && result == Failure
                                 then Backoff.Intended(retryCount, 64, random) else old(retryDelay))
    {
      hide Inv, Attempted;
      AttemptedKeepsInv(View(), expired, paused, wifiOk, result);
      AttemptedIs(View(), expired, paused, wifiOk, result);
      place := Idle;
      if expired {
        Send(Connecting);
        return;
      }
      if currState != Disconnected {
        return;
      }
      if paused {
        Send(Connecting);
        return;
      }
      if !wifiOk {
        Send(Connecting);
        return;
      }
      match result {
        case Rejection =>
          Send(Deleted);
        case Failure =>
          retryCount := (retryCount + 1) % TWO_TO_THE_32;
          retryDelay := NextRetry(retryCount, random);
          retryTimer := true;
        case Success =>
          retryCount := 0;
          retryTimer := false;
          Send(Update(Connected));
      }
    }

    /** The time to the next try, from one to 64 seconds. */
    method NextRetry(count: uint32, random: nat) returns (ms: nat)
      ensures ms == Backoff.Intended(count, 64, random) && 1000 <= ms <= 64000
      ensures ms == if count < 6 then [1, 2, 4, 8, 16, 32][count] * 1000 + random % 1000 else 64000
    {
      Backoff.SixRetries(count, random);
      ms := Backoff.Generate(count, 64, random);
      Backoff.DelayIsIntended(count, 64, random);
      Backoff.NeverFalls(count, count + 1, 64, random, random);
      Backoff.AtLeastASecond(count, 64, random);
    }

    /** _do_iot_main_command, a device-deleted notification. */
    method DeviceDeleted()
      requires Inv(View()) && place == Judging
      modifies this`currState, this`usrDeleteReq, this`cmdDone, this`place
      ensures Inv(View()) && View() == Answered(old(View()))
      ensures !usrDeleteReq
      ensures old(usrDeleteReq) ==> cmdDone && currState == old(currState)
      ensures !old(usrDeleteReq) ==> cmdDone == old(cmdDone) && currState == Initialized
    {
      hide Inv, Answered;
      AnsweredKeepsInv(View());
      AnsweredIs(View());
      place := Idle;
      if usrDeleteReq {
        usrDeleteReq := false;
        cmdDone := true;
      } else {
        currState := Initialized;
      }
    }

    /** _device_work_queue_task with the next command in the queue. */
    method HandleNext(ioOk: bool, expired: bool, paused: bool, wifiOk: bool, result: Result, random: nat)
      requires Inv(View()) && place == Idle && workQueue != []
      modifies this
      ensures Inv(View()) && View() == Handled(old(View()), ioOk, expired, paused, wifiOk, result)
    {
      hide Inv, HandledFrom;
      StepKeepsInv(View(), Dequeue);
      var c := workQueue[0];
      workQueue, place := workQueue[1..], Begins(c);
      Handle(c, ioOk, expired, paused, wifiOk, result, random);
    }

    /** _do_iot_main_command */
    method Handle(c: Command, ioOk: bool, expired: bool, paused: bool, wifiOk: bool, result: Result, random: nat)
      requires Inv(View()) && place == Begins(c)
      modifies this
      ensures Inv(View()) && View() == HandledFrom(old(View()), ioOk, expired, paused, wifiOk, result)
    {
      hide Inv, Updated, Attempted, Answered;
      match c {
        case Update(to) =>
          var _ := StateUpdating(to, ioOk);
        case Connecting =>
          CloudConnecting(expired, paused, wifiOk, result, random);
        case Deleted =>
          DeviceDeleted();
        case Registering =>
        case Other =>
      }
    }
  }
}
