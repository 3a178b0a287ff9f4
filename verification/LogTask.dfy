/** The log task of iot_log_file.c beside the threads that store and ask for syncs: when a flush
    can lose bytes that were accepted while it ran. A store is one step; a flush is several. */
module LogTask {
  import opened Bytes

  const MAX_STRING_SIZE: int := 128

  /** Where _iot_log_file_task stands. */
  datatype Place =
    | Starting            // before it sets enable
    | Waiting             // for the sync bit
    | Woken               // with the bit, before it looks whether a reader is open
    | Ready               // about to take the size of the buffer
    | Flushing(n: nat)    // the first n bytes are being written to flash
    | Cleared             // the buffer is empty, enable not yet set

  /** ram bytes of buffer; pending is their content. lost collects accepted bytes that the flush threw
      away. */
  datatype State = State(ram: nat, task: Place, enable: bool, sync: bool, reading: bool, pending: seq<byte>,
                         accepted: seq<byte>, flushed: seq<byte>, lost: seq<byte>)

  datatype Step =
    | Store(data: seq<byte>)
    | Sync
    | OpenReader | CloseReader
    // the task
    | Start | Wake | Look | TakeSize | Clear | Enable

  predicate Accepts(s: State, data: seq<byte>) {
    s.enable && |data| < MAX_STRING_SIZE
  }

  predicate Enabled(s: State, e: Step) {
    match e
    case Store(data) => Accepts(s, data) ==> |s.pending| + |data| <= s.ram
    case Sync => true
    case OpenReader => !s.reading
    case CloseReader => s.reading
    case Start => s.task == Starting
    case Wake => s.task == Waiting && s.sync
    case Look => s.task == Woken
    case TakeSize => s.task == Ready
    case Clear => s.task.Flushing?
    case Enable => s.task == Cleared
  }

  function Apply(s: State, e: Step): State
    requires Enabled(s, e)
  {
    match e
    case Store(data) =>
      if !Accepts(s, data) then s
      else
        var t := s.(pending := s.pending + data, accepted := s.accepted + data);
        if s.ram - |t.pending| < MAX_STRING_SIZE then t.(enable := false, sync := true) else t
    case Sync => s.(enable := false, sync := true)
    case OpenReader => s.(reading := true)
    case CloseReader => s.(reading := false)
    case Start => s.(task := Waiting, enable := true)
    case Wake => s.(task := Woken, sync := false)
    case Look => s.(task := if s.reading then Waiting else Ready)
    case TakeSize => s.(task := Flushing(|s.pending|))
    case Clear =>
      var n := Min(s.task.n, |s.pending|);
      s.(task := Cleared, pending := [], flushed := s.flushed + s.pending[..n], lost := s.lost + s.pending[n..])
    case Enable => s.(task := Waiting, enable := s.enable || !s.reading)
  }

  function Initial(ram: nat): State {
    State(ram, Starting, true, false, false, [], [], [], [])
  }

  predicate Enables(s: State, es: seq<Step>)
    decreases |es|
  {
    es == [] || (Enabled(s, es[0]) && Enables(Apply(s, es[0]), es[1..]))
  }

  function Run(s: State, es: seq<Step>): State
    requires Enables(s, es)
    decreases |es|
  {
    if es == [] then s else Run(Apply(s, es[0]), es[1..])
  }

  // ----- no loss -----

  predicate InPass(p: Place) {
    p == Woken || p == Ready || p.Flushing? || p == Cleared
  }

  /** While a flush is asked for or under way nothing is accepted, and no second one is asked for
      during a flush. */
  predicate Quiet(s: State) {
    && (s.sync || InPass(s.task) ==> !s.enable)
    && (InPass(s.task) ==> !s.sync)
  }

  predicate Inv(s: State) {
    && Quiet(s)
    && MAX_STRING_SIZE <= s.ram && |s.pending| < s.ram
    && (s.enable ==> s.ram - |s.pending| >= MAX_STRING_SIZE)
    && (s.task == Starting && !s.sync ==> s.enable)
    && (s.task.Flushing? ==> s.task.n == |s.pending|) && (s.task == Cleared ==> s.pending == [])
    && s.accepted == s.flushed + s.pending && s.lost == []
  }

  /** A sync is asked for only while the task is not at work, and the task starts before one is. */
  predicate Timely(s: State, e: Step) {
    && (e == Sync ==> !InPass(s.task))
    && (e == Start ==> !s.sync)
  }

  /** Exactly the timely steps keep the flush undisturbed. */
  lemma QuietIffTimely(s: State, e: Step)
    requires Inv(s) && Enabled(s, e)
    ensures Quiet(Apply(s, e)) <==> Timely(s, e)
  {
  }

  lemma StepKeepsInv(s: State, e: Step)
    requires Inv(s) && Enabled(s, e) && Timely(s, e)
    ensures Inv(Apply(s, e))
  {
    match e
    case Store(data) => assert s.flushed + (s.pending + data) == s.flushed + s.pending + data;
    case Clear => assert s.pending[..|s.pending|] == s.pending && s.pending[|s.pending|..] == [];
    case _ =>
  }

  predicate AllTimely(s: State, es: seq<Step>)
    requires Enables(s, es)
    decreases |es|
  {
    es == [] || (Timely(s, es[0]) && AllTimely(Apply(s, es[0]), es[1..]))
  }

  lemma {:induction false} RunKeepsInv(s: State, es: seq<Step>)
    requires Inv(s) && Enables(s, es) && AllTimely(s, es)
    ensures Inv(Run(s, es))
    decreases |es|
  {
    if es != [] {
      StepKeepsInv(s, es[0]);
      RunKeepsInv(Apply(s, es[0]), es[1..]);
    }
  }

  /** In every run of timely steps no accepted byte is lost, the buffer never wraps, and a store that
      is accepted always finds room. */
  lemma NothingLost(ram: nat, es: seq<Step>)
    requires MAX_STRING_SIZE <= ram && Enables(Initial(ram), es) && AllTimely(Initial(ram), es)
    ensures var s := Run(Initial(ram), es);
            && s.lost == [] && s.accepted == s.flushed + s.pending
            && (s.enable ==> s.ram - |s.pending| >= MAX_STRING_SIZE)
            && forall data :: Enabled(s, Store(data))
  {
    RunKeepsInv(Initial(ram), es);
  }

  // ----- loss -----

  /** The steps by which a flush, already asked for while storing is enabled, throws away the byte x. */
  function LosingFlush(x: byte): seq<Step> {
    [Wake, Look, TakeSize, Store([x]), Clear]
  }

  /** Once a flush is asked for while storing is enabled, bytes can be lost. */
  lemma LosesFrom(s: State, x: byte)
    requires s.task == Waiting && s.sync && s.enable && !s.reading && |s.pending| + 1 <= s.ram
    ensures Enables(s, LosingFlush(x)) && Run(s, LosingFlush(x)).lost == s.lost + [x]
  {
    var s1 := Apply(s, Wake);
    var s2 := Apply(s1, Look);
    var s3 := Apply(s2, TakeSize);
    var s4 := Apply(s3, Store([x]));
    assert s4.pending[..|s.pending|] == s.pending && s4.pending[|s.pending|..] == [x];
    RunCons(s4, Clear, []);
    RunCons(s3, Store([x]), [Clear]);
    RunCons(s2, TakeSize, [Store([x]), Clear]);
    RunCons(s1, Look, [TakeSize, Store([x]), Clear]);
    RunCons(s, Wake, [Look, TakeSize, Store([x]), Clear]);
  }

  lemma RunCons(s: State, e: Step, es: seq<Step>)
    requires Enabled(s, e) && Enables(Apply(s, e), es)
    ensures Enables(s, [e] + es) && Run(s, [e] + es) == Run(Apply(s, e), es)
  {
    assert ([e] + es)[1..] == es;
  }

  /** How the run goes on after an untimely step until a flush begins with storing enabled. */
  function Onwards(s: State): (es: seq<Step>) {
    (if s.reading then [CloseReader] else [])
    + match s.task
      case Woken => [Look, TakeSize, Clear, Enable]
      case Ready => [TakeSize, Clear, Enable]
      case Flushing(_) => [Clear, Enable]
      case Cleared => [Enable]
      case _ => []
  }

  /** The state from which LosesFrom goes on. */
  predicate Exposed(s: State) {
    s.task == Waiting && s.sync && s.enable && !s.reading && |s.pending| + 1 <= s.ram && s.lost == []
  }

  lemma ReachesExposed(s: State)
    requires MAX_STRING_SIZE <= s.ram && s.sync && s.lost == [] && |s.pending| < s.ram
    requires s.task.Flushing? ==> s.task.n == |s.pending|
    requires InPass(s.task) || (s.task == Waiting && s.enable)
    ensures Enables(s, Onwards(s)) && Exposed(Run(s, Onwards(s)))
  {
    var t := if s.reading then Apply(s, CloseReader) else s;
    var es := Onwards(t);
    Finishes(t);
    if s.reading {
      assert Onwards(s) == [CloseReader] + es;
      RunCons(s, CloseReader, es);
    } else {
      assert [] + es == es;
    }
  }

  lemma Finishes(s: State)
    requires MAX_STRING_SIZE <= s.ram && s.sync && s.lost == [] && |s.pending| < s.ram && !s.reading
    requires s.task.Flushing? ==> s.task.n == |s.pending|
    requires InPass(s.task) || (s.task == Waiting && s.enable)
    ensures Enables(s, Onwards(s)) && Exposed(Run(s, Onwards(s)))
    decreases match s.task case Woken => 4 case Ready => 3 case Flushing(_) => 2 case Cleared => 1 case _ => 0
  {
    match s.task
    case Woken =>
      FinishesOne(s, Look);
    case Ready =>
      FinishesOne(s, TakeSize);
    case Flushing(n) =>
      assert s.pending[n..] == [];
      FinishesOne(s, Clear);
    case Cleared =>
      FinishesOne(s, Enable);
    case _ =>
  }

  lemma FinishesOne(s: State, e: Step)
    requires Enabled(s, e) && MAX_STRING_SIZE <= s.ram && s.sync && s.lost == [] && |s.pending| < s.ram && !s.reading
    requires e == Look || e == TakeSize || e == Clear || e == Enable
    requires s.task.Flushing? ==> s.task.n == |s.pending|
    ensures Enables(s, Onwards(s)) && Exposed(Run(s, Onwards(s)))
    decreases match s.task case Woken => 4 case Ready => 3 case Flushing(_) => 2 case Cleared => 1 case _ => 0, 0
  {
    var t := Apply(s, e);
    assert e == Clear ==> t.lost == [] by {
      if e == Clear {
        assert s.pending[s.task.n..] == [];
      }
    }
    Finishes(t);
    assert Onwards(s) == [e] + Onwards(t);
    RunCons(s, e, Onwards(t));
  }

  /** Steps that are neither a sync nor the task's start are timely. */
  lemma {:induction false} OthersAreTimely(s: State, es: seq<Step>)
    requires Enables(s, es) && Sync !in es && Start !in es
    ensures AllTimely(s, es)
    decreases |es|
  {
    if es != [] {
      assert es[0] in es;
      OthersAreTimely(Apply(s, es[0]), es[1..]);
    }
  }

  /** After an untimely step, timely steps alone can lose an accepted byte. */
  lemma UntimelyLoses(s: State, e: Step, x: byte)
    requires Inv(s) && Enabled(s, e) && !Timely(s, e)
    ensures exists es ::
              Enables(Apply(s, e), es) && AllTimely(Apply(s, e), es) && Run(Apply(s, e), es).lost == [x]
  {
    var t := Apply(s, e);
    ReachesExposed(t);
    var u := Run(t, Onwards(t));
    LosesFrom(u, x);
    RunAppend(t, Onwards(t), LosingFlush(x));
    OthersAreTimely(t, Onwards(t) + LosingFlush(x));
  }

  /** The log can be trusted after a step exactly if the step is timely: then and only then does no run
      of timely steps from there lose a byte. */
  lemma TimelyIffNothingLost(s: State, e: Step)
    requires Inv(s) && Enabled(s, e)
    ensures Timely(s, e) <==>
            forall es :: Enables(Apply(s, e), es) && AllTimely(Apply(s, e), es) ==> Run(Apply(s, e), es).lost == []
  {
    hide Inv, Apply, Enabled, Timely, AllTimely, Run, Enables;
    var t := Apply(s, e);
    if Timely(s, e) {
      StepKeepsInv(s, e);
      forall es | Enables(t, es) && AllTimely(t, es) ensures Run(t, es).lost == [] {
        RunKeepsInv(t, es);
        NothingIsLost(Run(t, es));
      }
    } else {
      UntimelyLoses(s, e, 0);
    }
  }

  lemma NothingIsLost(s: State)
    requires Inv(s)
    ensures s.lost == []
  {
  }

  lemma {:induction false} RunAppend(s: State, es: seq<Step>, fs: seq<Step>)
    requires Enables(s, es) && Enables(Run(s, es), fs)
    ensures Enables(s, es + fs) && Run(s, es + fs) == Run(Run(s, es), fs)
    decreases |es|
  {
    if es == [] {
      assert es + fs == fs;
    } else {
      RunAppend(Apply(s, es[0]), es[1..], fs);
      assert (es + fs)[1..] == es[1..] + fs;
    }
  }

  // ----- silence -----

  /** Storing is off, and nothing is under way that would put it on again. */
  predicate Silent(s: State) {
    s.task == Waiting && !s.enable && !s.sync
  }

  /** A flush that finishes while a reader is open leaves storing off, and so does a request that
      finds one open; from then on nothing is accepted until somebody asks for a sync. */
  lemma {:induction false} SilentUntilSync(s: State, es: seq<Step>)
    requires Silent(s) && Enables(s, es) && Sync !in es
    ensures Silent(Run(s, es)) && Run(s, es).accepted == s.accepted
    decreases |es|
  {
    if es != [] {
      assert es[0] in es;
      SilentUntilSync(Apply(s, es[0]), es[1..]);
    }
  }

  /** Exactly a reader brings that about. */
  lemma SilencedIffReading(s: State, e: Step)
    requires Inv(s) && !Silent(s) && Enabled(s, e) && Timely(s, e)
    ensures Silent(Apply(s, e)) <==> s.reading && (e == Look || e == Enable)
  {
  }
}
