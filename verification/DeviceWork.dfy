/** The code of the work queue task and its producers (iot_main.c), on the linked queue: every piece
    of it between two points where other threads may run is a run of the state machine's steps. */
module DeviceWork {
  import opened Bytes
  import opened WorkQueue
  import opened Worker

  /** What a turn comes to: the wake and take steps, or a wakeup spent for nothing. */
  ghost predicate Turned(was: State<seq<byte>>, now: State<seq<byte>>, locked: bool) {
    && Enabled(was, Wake)
    && now == if locked || was.kill then Apply(Apply(was, Wake), Step.Take) else was.(pending := false)
  }

  /** The queue and the signal of iot_context. The ghost fields say where the worker and the
      producers stand and what has been enqueued and handled. */
  class Tasks {
    const workQueue: Queue
    var pending: bool  // DEVICE_PENDING_WORK_SIGNAL
    var kill: bool     // DEVICE_WORK_QUEUE_KILL_SIGNAL
    ghost var worker: Place<seq<byte>>
    ghost var setting: set<nat>
    ghost var enqueued: seq<seq<byte>>
    ghost var handled: seq<seq<byte>>

    ghost predicate Valid()
      reads this, workQueue, workQueue.Repr
    {
      workQueue.Valid() && this !in workQueue.Repr && Inv(View())
    }

    ghost function View(): State<seq<byte>>
      requires workQueue.Valid()
      reads this, workQueue, workQueue.Repr
    {
      State(workQueue.Contents(), pending, kill, worker, setting, enqueued, handled)
    }

    constructor (itemSize: nat)
      ensures Valid() && View() == Initial() && fresh(workQueue) && fresh(workQueue.Repr)
    {
      workQueue := new Queue(itemSize);
      pending, kill := false, false;
      worker, setting, enqueued, handled := Waiting, {}, [], [];
    }

    /** The first half of iot_put_device_work: a copy of the work joins the queue. */
    method Enqueue(thread: nat, work: array<byte>, locked: bool) returns (err: Status)
      requires Valid() && workQueue.itemSize <= work.Length
      requires thread !in setting && (thread == 0 ==> worker.Running?)
      modifies this`setting, this`enqueued, workQueue.Repr
      ensures Valid() && fresh(workQueue.Repr - old(workQueue.Repr))
      ensures err == if locked then Ok else Timeout
      ensures View() ==
                if err == Ok then Apply(old(View()), Step.Enqueue(thread, old(work[..workQueue.itemSize])))
                else old(View())
    {
      hide Inv, Queue.Valid, Queue.Contents;
      ghost var was, item := View(), work[..workQueue.itemSize];
      err := workQueue.Send(work, locked);
      if err == Ok {
        setting, enqueued := setting + {thread}, enqueued + [item];
        StepKeepsInv(was, Step.Enqueue(thread, item));
      }
    }

    /** Its second half. */
    method SetPending(ghost thread: nat)
      requires Valid() && thread in setting
      modifies this`pending, this`setting
      ensures Valid() && View() == Apply(old(View()), Step.SetPending(thread))
    {
      StepKeepsInv(View(), Step.SetPending(thread));
      pending, setting := true, setting - {thread};
    }

    /** One turn of _device_work_queue_task up to the call of the handler: the wait is over, the bits
        are cleared, and the first work, if there is any, is taken out. Returns whether the task
        ends, and whether there is work to handle. When the queue's mutex cannot be taken the wakeup
        is spent for nothing: the invariant is lost exactly if work is left that no producer is about
        to announce. */
    method Take(work: array<byte>, locked: bool) returns (exit: bool, got: bool)
      requires Valid() && worker.Waiting? && (pending || kill)
      requires workQueue.itemSize <= work.Length && work !in workQueue.Repr
      modifies this`pending, this`kill, this`worker, workQueue.Repr, work
      ensures workQueue.Valid() && workQueue.Repr == old(workQueue.Repr)
      ensures exit == old(kill) == worker.Exited?
      ensures Turned(old(View()), View(), locked)
      ensures Valid() <==> locked || exit || |View().queue| == 0 || setting != {}
      ensures got == worker.Running? && (got ==> worker == Running(work[..workQueue.itemSize]))
    {
      hide Inv, Queue.Valid, Queue.Contents;
      StepKeepsInv(View(), Wake);
      ghost var was, woken := View(), Apply(View(), Wake);
      StepKeepsInv(woken, Step.Take);
      exit, got := kill, false;
      var bits := pending;
      pending, kill := false, false;
      worker := if exit then Exited else Waiting;
      if !exit && bits {
        var err := workQueue.Receive(work, locked);
        if err == Ok {
          got, worker := true, Running(work[..workQueue.itemSize]);
        }
      }
      if !locked && !exit {
        SpentWakeup(was);
      }
    }

    /** A waiting worker whose pending bit is taken away. */
    static lemma SpentWakeup(s: State<seq<byte>>)
      requires Inv(s) && s.worker.Waiting?
      ensures Inv(s.(pending := false)) <==> |s.queue| == 0 || s.setting != {}
    {
    }

    /** The rest of the turn, after the handler has returned. */
    method Rearm()
      requires Valid() && worker.Running? && 0 !in setting
      modifies this`pending, this`worker, this`handled
      ensures Valid() && View() == Apply(Apply(old(View()), Finish), Step.Rearm)
    {
      hide Inv, Queue.Valid, Queue.Contents;
      StepKeepsInv(View(), Finish);
      StepKeepsInv(Apply(View(), Finish), Step.Rearm);
      handled, worker := handled + [worker.item], Waiting;
      pending := true;
    }
  }
}
