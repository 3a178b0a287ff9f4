/** The device work queue task and its producers (iot_main.c): one worker, a signal with two
    bits, any number of threads that put work in, all interleaved. */
module Worker {
  /** Where the worker's loop stands. */
  datatype Place<T> =
    | Waiting                             // in iot_os_eventgroup_wait_bits
    | Woken(kill: bool, work: bool)       // with the bits it got and cleared
    | Running(item: T)                    // in work.handler
    | Rearming                            // about to set the pending bit again
    | Exited

  /** setting holds the threads between their enqueue and their set of the pending bit; thread 0
      is the worker's own, whose handlers put work in too. enqueued and handled are histories. */
  datatype State<T> = State(queue: seq<T>, pending: bool, kill: bool, worker: Place<T>, setting: set<nat>,
                            enqueued: seq<T>, handled: seq<T>)

  datatype Step<T> =
    | Enqueue(thread: nat, item: T)       // iot_util_queue_send in iot_put_device_work
    | SetPending(thread: nat)             // iot_os_eventgroup_set_bits in iot_put_device_work
    | SetKill
    | Wake | Take | Finish | Rearm        // the worker's loop

  predicate Enabled<T(==)>(s: State<T>, e: Step<T>) {
    match e
    case Enqueue(t, _) => t !in s.setting && (t == 0 ==> s.worker.Running?)
    case SetPending(t) => t in s.setting
    case SetKill => true
    case Wake => s.worker.Waiting? && (s.pending || s.kill)
    case Take => s.worker.Woken?
    case Finish => s.worker.Running? && 0 !in s.setting
    case Rearm => s.worker.Rearming?
  }

  function Apply<T>(s: State<T>, e: Step<T>): State<T>
    requires Enabled(s, e)
  {
    match e
    case Enqueue(t, w) => s.(queue := s.queue + [w], enqueued := s.enqueued + [w], setting := s.setting + {t})
    case SetPending(t) => s.(pending := true, setting := s.setting - {t})
    case SetKill => s.(kill := true)
    case Wake => s.(worker := Woken(s.kill, s.pending), kill := false, pending := false)
    case Take =>
      if s.worker.kill then s.(worker := Exited)
      else if s.worker.work && s.queue != [] then s.(worker := Running(s.queue[0]), queue := s.queue[1..])
      else s.(worker := Waiting)
    case Finish => s.(worker := Rearming, handled := s.handled + [s.worker.item])
    case Rearm => s.(worker := Waiting, pending := true)
  }

  function Initial<T>(): State<T> {
    State([], false, false, Waiting, {}, [], [])
  }

  predicate Enables<T(==)>(s: State<T>, es: seq<Step<T>>)
    decreases |es|
  {
    es == [] || (Enabled(s, es[0]) && Enables(Apply(s, es[0]), es[1..]))
  }

  function Run<T>(s: State<T>, es: seq<Step<T>>): State<T>
    requires Enables(s, es)
    decreases |es|
  {
    if es == [] then s else Run(Apply(s, es[0]), es[1..])
  }

  // ----- safety -----

  /** The kill signal has reached the worker. */
  predicate Killed<T>(s: State<T>) {
    s.worker.Exited? || (s.worker.Woken? && s.worker.kill)
  }

  /** Somebody will look at the queue: the bit is set, or the worker is between its wait and its
      re-set, or a producer is between enqueue and set. */
  predicate WillBeSeen<T>(s: State<T>) {
    || s.pending
    || (s.worker.Woken? && s.worker.work) || s.worker.Running? || s.worker.Rearming?
    || s.setting != {}
  }

  function InHand<T>(s: State<T>): seq<T> {
    if s.worker.Running? then [s.worker.item] else []
  }

  predicate Inv<T(==)>(s: State<T>) {
    && (s.queue != [] ==> WillBeSeen(s) || Killed(s))
    && s.handled + InHand(s) + s.queue == s.enqueued
  }

  lemma StepKeepsInv<T>(s: State<T>, e: Step<T>)
    requires Inv(s) && Enabled(s, e)
    ensures Inv(Apply(s, e))
  {
    var t := Apply(s, e);
    match e
    case Enqueue(_, w) => assert t.handled + InHand(t) + t.queue == s.handled + InHand(s) + s.queue + [w];
    case SetPending(_) =>
    case SetKill =>
    case Wake =>
    case Take =>
      if !s.worker.kill && s.worker.work && s.queue != [] {
        assert [s.queue[0]] + s.queue[1..] == s.queue;
      }
    case Finish => assert t.handled + t.queue == s.handled + [s.worker.item] + s.queue;
    case Rearm =>
  }

  lemma {:induction false} RunKeepsInv<T>(s: State<T>, es: seq<Step<T>>)
    requires Inv(s) && Enables(s, es)
    ensures Inv(Run(s, es))
    decreases |es|
  {
    if es != [] {
      StepKeepsInv(s, es[0]);
      RunKeepsInv(Apply(s, es[0]), es[1..]);
    }
  }

  /** In every reachable state no wakeup is lost until the kill signal, and what was handled, the
      item in hand and the queue are, in order, exactly what was enqueued. */
  lemma NoWakeupLost<T>(es: seq<Step<T>>)
    requires Enables(Initial<T>(), es)
    ensures var s := Run(Initial<T>(), es);
            && (s.queue != [] && !Killed(s) ==> WillBeSeen(s))
            && s.handled + InHand(s) + s.queue == s.enqueued
  {
    RunKeepsInv(Initial<T>(), es);
  }

  // ----- progress -----

  /** What the threads do without new work or a kill signal. */
  predicate Internal<T>(e: Step<T>) {
    !e.Enqueue? && !e.SetKill?
  }

  /** Bounds the internal steps still to come. */
  function Budget<T>(s: State<T>): nat {
    5 * |s.queue| + 3 * |s.setting| + (if s.pending then 2 else 0) + (if s.kill then 2 else 0)
    + match s.worker
      case Waiting => 0
      case Woken(_, _) => 1
      case Running(_) => 4
      case Rearming => 3
      case Exited => 0
  }

  lemma InternalStepSpends<T>(s: State<T>, e: Step<T>)
    requires Enabled(s, e) && Internal(e)
    ensures Budget(Apply(s, e)) < Budget(s)
    ensures Apply(s, e).enqueued == s.enqueued
  {
  }

  lemma {:induction false} InternalRunsEnd<T>(s: State<T>, es: seq<Step<T>>)
    requires Enables(s, es) && forall e :: e in es ==> Internal(e)
    ensures |es| + Budget(Run(s, es)) <= Budget(s)
    ensures Run(s, es).enqueued == s.enqueued
    decreases |es|
  {
    if es != [] {
      InternalStepSpends(s, es[0]);
      InternalRunsEnd(Apply(s, es[0]), es[1..]);
    }
  }

  /** No internal step can be taken. */
  ghost predicate Quiet<T(!new)>(s: State<T>) {
    forall e: Step<T> :: Internal(e) ==> !Enabled(s, e)
  }

  /** While nothing kills the worker, every run comes to a quiet state after at most Budget more
      internal steps, whatever their order, and there everything enqueued has been handled, once
      and in order. */
  lemma EverythingIsHandled<T(!new)>(es: seq<Step<T>>, more: seq<Step<T>>)
    requires Enables(Initial<T>(), es) && !Killed(Run(Initial<T>(), es)) && !Run(Initial<T>(), es).kill
    requires Enables(Run(Initial<T>(), es), more) && forall e :: e in more ==> Internal(e)
    ensures var s := Run(Initial<T>(), es);
            var t := Run(s, more);
            && |more| <= Budget(s)
            && (Quiet(t) ==> t.queue == [] && t.handled == s.enqueued)
  {
    var s := Run(Initial<T>(), es);
    RunKeepsInv(Initial<T>(), es);
    InternalRunsEnd(s, more);
    RunKeepsInv(s, more);
    StaysAlive(s, more);
    if Quiet(Run(s, more)) {
      QuietIsDone(Run(s, more));
    }
  }

  lemma {:induction false} StaysAlive<T>(s: State<T>, es: seq<Step<T>>)
    requires Enables(s, es) && !Killed(s) && !s.kill && forall e :: e in es ==> Internal(e)
    ensures !Killed(Run(s, es)) && !Run(s, es).kill
    decreases |es|
  {
    if es != [] {
      assert Internal(es[0]);
      StaysAlive(Apply(s, es[0]), es[1..]);
    }
  }

  lemma QuietIsDone<T(!new)>(t: State<T>)
    requires Inv(t) && !Killed(t) && Quiet(t)
    ensures t.queue == [] && t.handled == t.enqueued
  {
    var steps: seq<Step<T>> := [Wake, Take, Rearm, Finish];
    assert forall e <- steps :: !Enabled(t, e) by {
      assert forall e <- steps :: Internal(e);
    }
    assert !Enabled(t, steps[0]) && !Enabled(t, steps[1]) && !Enabled(t, steps[2]) && !Enabled(t, steps[3]);
    forall n: nat ensures n !in t.setting {
      var e: Step<T> := SetPending(n);
      assert Internal(e);
    }
    assert t.setting == {};
  }
}
