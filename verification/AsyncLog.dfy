/** The asynchronous logger (common/log.cc) as a state machine: any number of threads log lines and run
    SyncLogLoop, one consumer thread runs AsyncLogger::Loop, and any of them may take the next step.

    Each step is one semaphore operation, one lock operation, or one access to what a lock protects. A
    scope guard releases its mutex once. */
module AsyncLog {

  type Line = string
  type Batch = seq<Line>

  const ASYNC_LOG_QUEUE_SIZE: nat := 1000

  /** Where a thread is in SyncLogLoop and PushLogToAsyncBuffer. */
  datatype Producer =
    | Idle
    | Staged(batch: Batch)     // swapped the staging buffer out; next sem_wait(emptySem)
    | Reserved(batch: Batch)   // has a slot; next the mutex
    | Locked(batch: Batch)     // holds the mutex; next the push
    | Pushed                   // pushed and signalled; next the unlock
    | Unlocked                 // next sem_post(fullSem)

  /** Where the consumer is in Loop. */
  datatype Consumer =
    | Waiting                  // next sem_wait(fullSem)
    | Passed                   // next the mutex
    | Looking                  // holds the mutex; next the test for an empty queue
    | Sleeping                 // in pthread_cond_wait, mutex released
    | Popped(batch: Batch)     // holds the mutex and the front batch; next the unlock
    | Released(batch: Batch)   // next sem_post(emptySem)
    | Writing(batch: Batch)    // lines still to be written

  datatype Owner = Nobody | ProducerOwns(i: nat) | ConsumerOwns

  datatype State = State(
    pushed: seq<Line>,         // every line logged so far
    staging: Batch,            // Logger::myBuffer
    producers: seq<Producer>,
    emptySem: nat, fullSem: nat, owner: Owner,
    queue: seq<Batch>,         // myAsyncLogBuffer
    consumer: Consumer,
    written: seq<Line>)        // the lines of the log file; an empty one takes up no byte of it

  datatype Action =
    | Log(line: Line)
    | Swap(i: nat) | WaitEmpty(i: nat) | Lock(i: nat) | Push(i: nat) | Unlock(i: nat) | PostFull(i: nat)
    | WaitFull | LockQueue | Look | WakeUp | UnlockQueue | PostEmpty | WriteLine | Finish

  function Init(n: nat): State {
    State([], [], seq(n, _ => Idle), ASYNC_LOG_QUEUE_SIZE, 0, Nobody, [], Waiting, [])
  }

  predicate Enabled(s: State, a: Action) {
    match a
    case Log(_) => true
    case Swap(i) => i < |s.producers| && s.producers[i].Idle? && s.staging != []
    case WaitEmpty(i) => i < |s.producers| && s.producers[i].Staged? && s.emptySem > 0
    case Lock(i) => i < |s.producers| && s.producers[i].Reserved? && s.owner.Nobody?
    case Push(i) => i < |s.producers| && s.producers[i].Locked?
    case Unlock(i) => i < |s.producers| && s.producers[i].Pushed?
    case PostFull(i) => i < |s.producers| && s.producers[i].Unlocked?
    case WaitFull => s.consumer.Waiting? && s.fullSem > 0
    case LockQueue => s.consumer.Passed? && s.owner.Nobody?
    case Look => s.consumer.Looking?
    case WakeUp => s.consumer.Sleeping? && s.owner.Nobody?
    case UnlockQueue => s.consumer.Popped?
    case PostEmpty => s.consumer.Released?
    case WriteLine => s.consumer.Writing? && s.consumer.batch != []
    case Finish => s.consumer.Writing? && s.consumer.batch == []
  }

  function Apply(s: State, a: Action): State
    requires Enabled(s, a)
  {
    match a
    case Log(line) => s.(pushed := s.pushed + [line], staging := s.staging + [line])
    case Swap(i) => s.(producers := s.producers[i := Staged(s.staging)], staging := [])
    case WaitEmpty(i) => s.(producers := s.producers[i := Reserved(s.producers[i].batch)], emptySem := s.emptySem - 1)
    case Lock(i) => s.(producers := s.producers[i := Locked(s.producers[i].batch)], owner := ProducerOwns(i))
    case Push(i) => s.(producers := s.producers[i := Pushed], queue := s.queue + [s.producers[i].batch])
    case Unlock(i) => s.(producers := s.producers[i := Unlocked], owner := Nobody)
    case PostFull(i) => s.(producers := s.producers[i := Idle], fullSem := s.fullSem + 1)
    case WaitFull => s.(consumer := Passed, fullSem := s.fullSem - 1)
    case LockQueue => s.(consumer := Looking, owner := ConsumerOwns)
    case Look =>
      if s.queue == [] then s.(consumer := Sleeping, owner := Nobody)
      else s.(consumer := Popped(s.queue[0]), queue := s.queue[1..])
    case WakeUp => s.(consumer := Looking, owner := ConsumerOwns)
    case UnlockQueue => s.(consumer := Released(s.consumer.batch), owner := Nobody)
    case PostEmpty => s.(consumer := Writing(s.consumer.batch), emptySem := s.emptySem + 1)
    case WriteLine => s.(consumer := Writing(s.consumer.batch[1..]), written := s.written + [s.consumer.batch[0]])
    case Finish => s.(consumer := Waiting)
  }

  ghost predicate Possible(s: State, run: seq<Action>)
    decreases |run|
  {
    run != [] ==> Enabled(s, run[0]) && Possible(Apply(s, run[0]), run[1..])
  }

  ghost function After(s: State, run: seq<Action>): State
    requires Possible(s, run)
    decreases |run|
  {
    if run == [] then s else After(Apply(s, run[0]), run[1..])
  }

  // ---------------------------------------------------------------------------------------------
  // Slots

  /** A producer that holds a slot but has not pushed. */
  function HasSlot(p: Producer): nat {
    if p.Reserved? || p.Locked? then 1 else 0
  }

  /** A producer that has pushed but not posted. */
  function Owes(p: Producer): nat {
    if p.Pushed? || p.Unlocked? then 1 else 0
  }

  function Slots(ps: seq<Producer>): nat {
    if ps == [] then 0 else HasSlot(ps[0]) + Slots(ps[1..])
  }

  function Owed(ps: seq<Producer>): nat {
    if ps == [] then 0 else Owes(ps[0]) + Owed(ps[1..])
  }

  lemma {:induction false} CountsOfUpdate(ps: seq<Producer>, i: nat, p: Producer)
    requires i < |ps|
    ensures Slots(ps[i := p]) == Slots(ps) - HasSlot(ps[i]) + HasSlot(p)
    ensures Owed(ps[i := p]) == Owed(ps) - Owes(ps[i]) + Owes(p)
    decreases |ps|
  {
    if i == 0 {
      assert ps[0 := p][1..] == ps[1..];
    } else {
      CountsOfUpdate(ps[1..], i - 1, p);
      assert ps[i := p][1..] == ps[1..][i - 1 := p];
    }
  }

  /** The bounded buffer: every slot is free, reserved, in the queue, or popped and not yet given back;
      every batch in the queue is announced, about to be announced, or claimed by the consumer. */
  ghost predicate Counted(s: State) {
    && s.emptySem + Slots(s.producers) + |s.queue| + (if s.consumer.Popped? || s.consumer.Released? then 1 else 0)
       == ASYNC_LOG_QUEUE_SIZE
    && s.fullSem + Owed(s.producers) + (if s.consumer.Passed? || s.consumer.Looking? then 1 else 0) == |s.queue|
    && !s.consumer.Sleeping?
  }

  ghost predicate Guarded(s: State) {
    && (forall i :: 0 <= i < |s.producers| ==>
          (s.producers[i].Locked? || s.producers[i].Pushed? <==> s.owner == ProducerOwns(i)))
    && (s.owner.ProducerOwns? ==> s.owner.i < |s.producers|)
    && (s.owner.ConsumerOwns? <==> s.consumer.Looking? || s.consumer.Popped?)
  }

  lemma StepCounted(s: State, a: Action)
    requires Counted(s) && Enabled(s, a)
    ensures Counted(Apply(s, a))
  {
    hide Slots, Owed;
    match a {
      case Swap(i) => CountsOfUpdate(s.producers, i, Staged(s.staging));
      case WaitEmpty(i) => CountsOfUpdate(s.producers, i, Reserved(s.producers[i].batch));
      case Lock(i) => CountsOfUpdate(s.producers, i, Locked(s.producers[i].batch));
      case Push(i) => CountsOfUpdate(s.producers, i, Pushed);
      case Unlock(i) => CountsOfUpdate(s.producers, i, Unlocked);
      case PostFull(i) => CountsOfUpdate(s.producers, i, Idle);
      case _ =>
    }
  }

  lemma StepGuarded(s: State, a: Action)
    requires Guarded(s) && Enabled(s, a)
    ensures Guarded(Apply(s, a))
  {
  }

  // ---------------------------------------------------------------------------------------------
  // Lines

  function Flat(bs: seq<Batch>): seq<Line> {
    if bs == [] then [] else bs[0] + Flat(bs[1..])
  }

  function InHand(p: Producer): Batch {
    if p.Staged? || p.Reserved? || p.Locked? then p.batch else []
  }

  function InFlight(ps: seq<Producer>): seq<Line> {
    if ps == [] then [] else InHand(ps[0]) + InFlight(ps[1..])
  }

  function AtConsumer(c: Consumer): Batch {
    if c.Popped? || c.Released? || c.Writing? then c.batch else []
  }

  /** The lines in the order they will be written, as far as that is decided. */
  function Pipeline(s: State): seq<Line> {
    s.written + AtConsumer(s.consumer) + Flat(s.queue) + InFlight(s.producers) + s.staging
  }

  lemma {:induction false} FlatSnoc(bs: seq<Batch>, b: Batch)
    ensures Flat(bs + [b]) == Flat(bs) + b
    decreases |bs|
  {
    if bs == [] {
      assert [] + [b] == [b] && [b][1..] == [];
      assert b + [] == [] + b;
    } else {
      FlatSnoc(bs[1..], b);
      assert (bs + [b])[1..] == bs[1..] + [b];
    }
  }

  /** How often a line occurs. */
  function Occurs(b: seq<Line>, x: Line): nat {
    multiset(b)[x]
  }

  lemma OccursInConcat(a: seq<Line>, b: seq<Line>, x: Line)
    ensures Occurs(a + b, x) == Occurs(a, x) + Occurs(b, x)
  {
  }

  lemma OccursNowhere(x: Line)
    ensures Occurs([], x) == 0
  {
  }

  lemma {:induction false} InFlightOfUpdate(ps: seq<Producer>, i: nat, p: Producer, x: Line)
    requires i < |ps|
    ensures Occurs(InFlight(ps[i := p]), x) == Occurs(InFlight(ps), x) - Occurs(InHand(ps[i]), x) + Occurs(InHand(p), x)
    decreases |ps|
  {
    hide Occurs;
    var qs := ps[i := p];
    OccursInConcat(InHand(ps[0]), InFlight(ps[1..]), x);
    OccursInConcat(InHand(qs[0]), InFlight(qs[1..]), x);
    if i == 0 {
      assert qs[1..] == ps[1..];
    } else {
      InFlightOfUpdate(ps[1..], i - 1, p, x);
      assert qs[1..] == ps[1..][i - 1 := p];
    }
  }

  function Total(s: State, x: Line): nat {
    Occurs(s.written, x) + Occurs(AtConsumer(s.consumer), x) + Occurs(Flat(s.queue), x)
    + Occurs(InFlight(s.producers), x) + Occurs(s.staging, x)
  }

  /** No line is lost, duplicated or made up, whatever the number of threads. */
  ghost predicate Conserved(s: State) {
    forall x :: Occurs(s.pushed, x) == Total(s, x)
  }

  lemma ProducerStepTotal(s: State, i: nat, p: Producer, x: Line)
    requires i < |s.producers|
    ensures Total(s.(producers := s.producers[i := p]), x)
            == Total(s, x) - Occurs(InHand(s.producers[i]), x) + Occurs(InHand(p), x)
  {
    hide Occurs;
    InFlightOfUpdate(s.producers, i, p, x);
  }

  lemma StepTotal(s: State, a: Action, x: Line)
    requires Enabled(s, a)
    ensures Total(Apply(s, a), x) == Total(s, x) + if a.Log? then Occurs([a.line], x) else 0
  {
    hide Occurs;
    OccursNowhere(x);
    match a {
      case Log(line) => OccursInConcat(s.staging, [line], x);
      case Swap(i) => ProducerStepTotal(s, i, Staged(s.staging), x);
      case WaitEmpty(i) => ProducerStepTotal(s, i, Reserved(s.producers[i].batch), x);
      case Lock(i) => ProducerStepTotal(s, i, Locked(s.producers[i].batch), x);
      case Push(i) =>
        ProducerStepTotal(s, i, Pushed, x);
        FlatSnoc(s.queue, s.producers[i].batch);
        OccursInConcat(Flat(s.queue), s.producers[i].batch, x);
      case Unlock(i) => ProducerStepTotal(s, i, Unlocked, x);
      case PostFull(i) => ProducerStepTotal(s, i, Idle, x);
      case Look =>
        if s.queue != [] {
          OccursInConcat(s.queue[0], Flat(s.queue[1..]), x);
        }
      case WriteLine =>
        var b := s.consumer.batch;
        assert b == [b[0]] + b[1..];
        OccursInConcat([b[0]], b[1..], x);
        OccursInConcat(s.written, [b[0]], x);
      case _ =>
    }
  }

  lemma StepConserved(s: State, a: Action)
    requires Conserved(s) && Enabled(s, a)
    ensures Conserved(Apply(s, a))
  {
    hide Total, Occurs;
    forall x
      ensures Occurs(Apply(s, a).pushed, x) == Total(Apply(s, a), x)
    {
      StepTotal(s, a, x);
      if a.Log? {
        OccursInConcat(s.pushed, [a.line], x);
      }
    }
  }

  /** With one thread running SyncLogLoop the lines keep their order. */
  ghost predicate Ordered(s: State) {
    |s.producers| == 1 && s.pushed == Pipeline(s)
  }

  function Five(a: Batch, b: Batch, c: Batch, d: Batch, e: Batch): Batch {
    a + b + c + d + e
  }

  lemma OrderOfParts(s: State)
    requires |s.producers| == 1
    ensures Pipeline(s) == Five(s.written, AtConsumer(s.consumer), Flat(s.queue), InHand(s.producers[0]), s.staging)
  {
    assert s.producers[1..] == [];
    assert InFlight(s.producers) == InHand(s.producers[0]) + [] == InHand(s.producers[0]);
  }

  /** The five ways in which a step moves lines from one part to the next. */
  lemma LinesMove(a: Batch, b: Batch, c: Batch, d: Batch, e: Batch, x: Batch)
    ensures Five(a, b, c, d, e + x) == Five(a, b, c, d, e) + x
    ensures Five(a, b, c, [], x) == Five(a, b, c, x, [])
    ensures Five(a, b, c, x, e) == Five(a, b, c + x, [], e)
    ensures Five(a, [], x + c, d, e) == Five(a, x, c, d, e)
    ensures Five(a, x + b, c, d, e) == Five(a + x, b, c, d, e)
  {
  }

  lemma StepOrdered(s: State, a: Action)
    requires Ordered(s) && Enabled(s, a)
    ensures Ordered(Apply(s, a))
  {
    hide Pipeline, Five;
    var t := Apply(s, a);
    OrderOfParts(s);
    OrderOfParts(t);
    var w, c, q, h := s.written, AtConsumer(s.consumer), Flat(s.queue), InHand(s.producers[0]);
    match a {
      case Log(line) => LinesMove(w, c, q, h, s.staging, [line]);
      case Swap(i) => LinesMove(w, c, q, [], [], s.staging);
      case Push(i) =>
        FlatSnoc(s.queue, h);
        LinesMove(w, c, q, [], s.staging, h);
      case Look =>
        if s.queue != [] {
          LinesMove(w, [], Flat(s.queue[1..]), h, s.staging, s.queue[0]);
        }
      case WriteLine =>
        assert c == [c[0]] + c[1..];
        LinesMove(w, c[1..], q, h, s.staging, [c[0]]);
      case _ =>
    }
  }

  // ---------------------------------------------------------------------------------------------
  // Runs

  ghost predicate Safe(s: State) {
    Counted(s) && Guarded(s) && Conserved(s)
  }

  lemma {:induction false} RunSafe(s: State, run: seq<Action>)
    requires Safe(s) && Possible(s, run)
    ensures Safe(After(s, run)) && |After(s, run).producers| == |s.producers|
    decreases |run|
  {
    hide Counted, Guarded, Conserved;
    if run != [] {
      StepCounted(s, run[0]);
      StepGuarded(s, run[0]);
      StepConserved(s, run[0]);
      RunSafe(Apply(s, run[0]), run[1..]);
    }
  }

  lemma {:induction false} InitCounts(n: nat)
    ensures Slots(seq(n, _ => Idle)) == 0 && Owed(seq(n, _ => Idle)) == 0 && InFlight(seq(n, _ => Idle)) == []
  {
    if n > 0 {
      InitCounts(n - 1);
      assert seq(n, _ => Idle)[1..] == seq(n - 1, _ => Idle);
    }
  }

  /** In every reachable state, for any number of producers: the queue holds at most 1000 batches, a
      consumer past sem_wait(fullSem) finds it non-empty, so that it never sleeps on the condition
      variable, at most one thread holds the mutex, and no line has been lost. */
  lemma BoundedBuffer(n: nat, run: seq<Action>)
    requires Possible(Init(n), run)
    ensures var s := After(Init(n), run);
      && Safe(s) && |s.queue| <= 1000 && !s.consumer.Sleeping?
      && s.emptySem + Slots(s.producers) + |s.queue| + (if s.consumer.Popped? || s.consumer.Released? then 1 else 0)
         == 1000
      && (s.consumer.Passed? || s.consumer.Looking? ==> s.queue != [])
      && s.pushed == Logged(run) && multiset(s.pushed) == multiset(Pipeline(s))
  {
    hide Guarded, Conserved, Possible, After, Pipeline, Init;
    InitSafe(n);
    RunSafe(Init(n), run);
    PushedExactly(Init(n), run);
    NothingLogged(n);
    PipelineConserved(After(Init(n), run));
    assert [] + Logged(run) == Logged(run);
  }

  lemma NothingLogged(n: nat)
    ensures Init(n).pushed == []
  {
  }

  lemma PipelineConserved(s: State)
    requires Conserved(s)
    ensures multiset(s.pushed) == multiset(Pipeline(s))
  {
    forall x
      ensures multiset(s.pushed)[x] == multiset(Pipeline(s))[x]
    {
      assert Occurs(s.pushed, x) == Total(s, x);
    }
  }

  /** The lines a run logs, in order. */
  function Logged(run: seq<Action>): seq<Line>
    decreases |run|
  {
    if run == [] then []
    else Logged(run[..|run| - 1]) + if run[|run| - 1].Log? then [run[|run| - 1].line] else []
  }

  lemma {:induction false} LoggedConcat(a: seq<Action>, b: seq<Action>)
    ensures Logged(a + b) == Logged(a) + Logged(b)
    decreases |b|
  {
    if b == [] {
      assert a + b == a;
    } else {
      LoggedConcat(a, b[..|b| - 1]);
      assert (a + b)[..|a + b| - 1] == a + b[..|b| - 1];
    }
  }

  lemma LoggedOne(a: Action)
    ensures Logged([]) == [] && Logged([a]) == if a.Log? then [a.line] else []
  {
  }

  /** What counts as logged is what the run logs. */
  lemma {:induction false} PushedExactly(s: State, run: seq<Action>)
    requires Possible(s, run)
    ensures After(s, run).pushed == s.pushed + Logged(run)
    decreases |run|
  {
    hide Enabled, Logged;
    LoggedOne(Finish);
    if run == [] {
      assert s.pushed + [] == s.pushed;
    } else {
      PushedExactly(Apply(s, run[0]), run[1..]);
      LoggedConcat([run[0]], run[1..]);
      LoggedOne(run[0]);
      assert run == [run[0]] + run[1..];
    }
  }

  lemma InitSafe(n: nat)
    ensures Safe(Init(n)) && |Init(n).producers| == n
  {
    InitCounts(n);
  }

  lemma {:induction false} RunOrdered(s: State, run: seq<Action>)
    requires Ordered(s) && Possible(s, run)
    ensures Ordered(After(s, run))
    decreases |run|
  {
    if run != [] {
      StepOrdered(s, run[0]);
      RunOrdered(Apply(s, run[0]), run[1..]);
    }
  }

  /** The bytes of lines written one after the other. */
  function Text(lines: seq<Line>): string
    decreases |lines|
  {
    if lines == [] then "" else Text(lines[..|lines| - 1]) + lines[|lines| - 1]
  }

  lemma {:induction false} TextConcat(a: seq<Line>, b: seq<Line>)
    ensures Text(a + b) == Text(a) + Text(b)
    decreases |b|
  {
    if b == [] {
      assert a + b == a;
    } else {
      var n := |b| - 1;
      var l := a + b;
      TextConcat(a, b[..n]);
      assert l[..|l| - 1] == a + b[..n] && l[|l| - 1] == b[n];
      assert Text(l) == Text(a + b[..n]) + b[n] && Text(b) == Text(b[..n]) + b[n];
      assert Text(a) + Text(b[..n]) + b[n] == Text(a) + (Text(b[..n]) + b[n]);
    }
  }

  lemma TextOfOne(x: Line)
    ensures Text([]) == "" && Text([x]) == x
  {
    assert "" + x == x;
  }

  lemma TextOfPrefix(a: seq<Line>, b: seq<Line>)
    requires a <= b
    ensures Text(a) <= Text(b)
  {
    TextConcat(a, b[|a|..]);
    assert b == a + b[|a|..];
  }

  /** With one thread running SyncLogLoop, the log file is at all times a prefix of what was logged. */
  lemma WrittenIsPrefix(run: seq<Action>)
    requires Possible(Init(1), run)
    ensures var s := After(Init(1), run);
      s.pushed == Pipeline(s) && s.written <= s.pushed && Text(s.written) <= Text(s.pushed)
  {
    hide After, Text;
    InitCounts(1);
    RunOrdered(Init(1), run);
    var s := After(Init(1), run);
    TextOfPrefix(s.written, s.pushed);
  }

  // ---------------------------------------------------------------------------------------------
  // No deadlock

  lemma {:induction false} SomeoneCounted(ps: seq<Producer>)
    ensures Slots(ps) > 0 ==> exists i :: 0 <= i < |ps| && (ps[i].Reserved? || ps[i].Locked?)
    ensures Owed(ps) > 0 ==> exists i :: 0 <= i < |ps| && (ps[i].Pushed? || ps[i].Unlocked?)
    ensures InFlight(ps) != [] ==> exists i :: 0 <= i < |ps| && InHand(ps[i]) != []
    decreases |ps|
  {
    if ps != [] {
      SomeoneCounted(ps[1..]);
      assert forall i :: 0 <= i < |ps[1..]| ==> ps[1..][i] == ps[i + 1];
    }
  }

  /** No thread can take a step by itself; only a further line may be logged. */
  ghost predicate Stuck(s: State) {
    forall a: Action :: a.Log? || !Enabled(s, a)
  }

  lemma ProducersRest(s: State)
    requires Safe(s) && Stuck(s)
    requires forall i :: 0 <= i < |s.producers| ==>
      s.producers[i].Idle? || s.producers[i].Staged? || s.producers[i].Reserved?
    ensures s.consumer.Waiting? && s.queue == []
    ensures forall i :: 0 <= i < |s.producers| ==> s.producers[i].Idle?
  {
    hide Guarded, Conserved;
    ConsumerRests(s);
    forall i | 0 <= i < |s.producers|
      ensures !s.producers[i].Reserved?
    {
      assert !Enabled(s, Lock(i));
    }
    SomeoneCounted(s.producers);
    assert s.emptySem == ASYNC_LOG_QUEUE_SIZE;
    forall i | 0 <= i < |s.producers|
      ensures s.producers[i].Idle?
    {
      assert !Enabled(s, WaitEmpty(i));
    }
  }

  /** The threads never block each other for good: with at least one thread running SyncLogLoop, a
      reachable state in which nobody can move is one where every line logged is in the file. */
  lemma StuckMeansAllWritten(n: nat, run: seq<Action>)
    requires 0 < n && Possible(Init(n), run) && Stuck(After(Init(n), run))
    ensures multiset(After(Init(n), run).written) == multiset(After(Init(n), run).pushed)
  {
    hide Counted, Guarded, Init, Occurs;
    var s := After(Init(n), run);
    InitSafe(n);
    RunSafe(Init(n), run);
    IdleIsWritten(s);
  }

  lemma StuckIsIdle(s: State)
    requires Safe(s) && Stuck(s) && 0 < |s.producers|
    ensures s.staging == [] && s.queue == [] && s.consumer.Waiting? && InFlight(s.producers) == []
    ensures forall i :: 0 <= i < |s.producers| ==> s.producers[i].Idle?
  {
    hide Counted, Guarded, Conserved;
    forall i | 0 <= i < |s.producers|
      ensures s.producers[i].Idle? || s.producers[i].Staged? || s.producers[i].Reserved?
    {
      assert !Enabled(s, Push(i)) && !Enabled(s, Unlock(i)) && !Enabled(s, PostFull(i));
    }
    ProducersRest(s);
    SomeoneCounted(s.producers);
    assert !Enabled(s, Swap(0));
  }

  lemma ConsumerRests(s: State)
    requires Safe(s) && Stuck(s)
    requires forall i :: 0 <= i < |s.producers| ==>
      s.producers[i].Idle? || s.producers[i].Staged? || s.producers[i].Reserved?
    ensures s.consumer.Waiting? && s.fullSem == 0 && s.owner.Nobody?
  {
    assert !Enabled(s, WaitFull) && !Enabled(s, LockQueue) && !Enabled(s, Look) && !Enabled(s, UnlockQueue);
    assert !Enabled(s, PostEmpty) && !Enabled(s, WriteLine) && !Enabled(s, Finish);
  }

  // ---------------------------------------------------------------------------------------------
  // Progress

  /** The steps a queued batch takes until it is written. */
  function BatchWork(b: Batch): nat {
    6 + |b|
  }

  function QueueWork(q: seq<Batch>): nat {
    if q == [] then 0 else BatchWork(q[0]) + QueueWork(q[1..])
  }

  function ProducerWork(p: Producer): nat {
    match p
    case Idle => 0
    case Staged(b) => 5 + BatchWork(b)
    case Reserved(b) => 4 + BatchWork(b)
    case Locked(b) => 3 + BatchWork(b)
    case Pushed => 2
    case Unlocked => 1
  }

  function ProducersWork(ps: seq<Producer>): nat {
    if ps == [] then 0 else ProducerWork(ps[0]) + ProducersWork(ps[1..])
  }

  /** What the consumer still has to do, less what it has done already for the batch it has yet to pop. */
  function ConsumerWork(c: Consumer): int {
    match c
    case Waiting => 0
    case Passed => -1
    case Looking => -2
    case Sleeping => 0
    case Popped(b) => |b| + 3
    case Released(b) => |b| + 2
    case Writing(b) => |b| + 1
  }

  /** The number of steps until everything logged so far is written. */
  function Work(s: State): int {
    (if s.staging == [] then 0 else 6 + BatchWork(s.staging)) + ProducersWork(s.producers) + QueueWork(s.queue)
    + ConsumerWork(s.consumer)
  }

  lemma {:induction false} WorkOfUpdate(ps: seq<Producer>, i: nat, p: Producer)
    requires i < |ps|
    ensures ProducersWork(ps[i := p]) == ProducersWork(ps) - ProducerWork(ps[i]) + ProducerWork(p)
    decreases |ps|
  {
    if i == 0 {
      assert ps[0 := p][1..] == ps[1..];
    } else {
      WorkOfUpdate(ps[1..], i - 1, p);
      assert ps[i := p][1..] == ps[1..][i - 1 := p];
    }
  }

  lemma {:induction false} WorkOfPush(q: seq<Batch>, b: Batch)
    ensures QueueWork(q + [b]) == QueueWork(q) + BatchWork(b)
  {
    if q != [] {
      WorkOfPush(q[1..], b);
      assert (q + [b])[1..] == q[1..] + [b];
    } else {
      assert ([] + [b])[1..] == [];
    }
  }

  lemma WorkIsNat(s: State)
    requires Counted(s)
    ensures Work(s) >= 0
  {
  }

  /** Every step other than logging leaves one step less to take. */
  lemma StepWorks(s: State, a: Action)
    requires Counted(s) && Enabled(s, a) && !a.Log?
    ensures Work(Apply(s, a)) == Work(s) - 1
  {
    hide QueueWork, ProducersWork, Counted;
    match a {
      case Swap(i) => WorkOfUpdate(s.producers, i, Staged(s.staging));
      case WaitEmpty(i) => WorkOfUpdate(s.producers, i, Reserved(s.producers[i].batch));
      case Lock(i) => WorkOfUpdate(s.producers, i, Locked(s.producers[i].batch));
      case Push(i) =>
        WorkOfUpdate(s.producers, i, Pushed);
        WorkOfPush(s.queue, s.producers[i].batch);
      case Unlock(i) => WorkOfUpdate(s.producers, i, Unlocked);
      case PostFull(i) => WorkOfUpdate(s.producers, i, Idle);
      case Look => LookWorks(s);
      case WakeUp => assert false by { NeverSleeps(s); }
      case _ =>
    }
  }

  lemma LookWorks(s: State)
    requires Counted(s) && s.consumer.Looking?
    ensures s.queue != [] && QueueWork(s.queue) == BatchWork(s.queue[0]) + QueueWork(s.queue[1..])
  {
  }

  lemma NeverSleeps(s: State)
    requires Counted(s)
    ensures !s.consumer.Sleeping?
  {
  }

  predicate NoLog(run: seq<Action>) {
    forall i :: 0 <= i < |run| ==> !run[i].Log?
  }

  lemma {:induction false} RunWorks(s: State, run: seq<Action>)
    requires Counted(s) && Possible(s, run) && NoLog(run)
    ensures Work(After(s, run)) == Work(s) - |run| && Counted(After(s, run))
    decreases |run|
  {
    hide Counted, Apply, Enabled, Work;
    if run != [] {
      StepCounted(s, run[0]);
      StepWorks(s, run[0]);
      RunWorks(Apply(s, run[0]), run[1..]);
    }
  }

  lemma StuckExactly(s: State)
    requires Safe(s) && 0 < |s.producers|
    ensures Stuck(s) <==> Work(s) == 0
  {
    hide Guarded, Conserved;
    if Stuck(s) {
      StuckIsIdle(s);
      NoWork(s.producers);
    } else {
      var a: Action :| !a.Log? && Enabled(s, a);
      StepCounted(s, a);
      StepWorks(s, a);
      WorkIsNat(Apply(s, a));
    }
  }

  lemma {:induction false} NoWork(ps: seq<Producer>)
    requires forall i :: 0 <= i < |ps| ==> ps[i].Idle?
    ensures ProducersWork(ps) == 0
    decreases |ps|
  {
    if ps != [] {
      NoWork(ps[1..]);
    }
  }

  /** From any reachable state, when nothing more is logged: the threads take at most Work steps, in any
      order; they can always take another until they have taken just so many; and then every line logged
      has been written. */
  lemma Progress(n: nat, before: seq<Action>, run: seq<Action>)
    requires 0 < n && Possible(Init(n), before) && Possible(After(Init(n), before), run)
    requires forall i :: 0 <= i < |run| ==> !run[i].Log?
    ensures var s := After(Init(n), before); var t := After(s, run);
      && |run| <= Work(s) && (|run| == Work(s) <==> Stuck(t))
      && (|run| == Work(s) ==> multiset(t.written) == multiset(t.pushed))
  {
    hide Counted, Guarded, Init, Occurs, Work, Stuck, Total, Possible, After;
    InitSafe(n);
    RunSafe(Init(n), before);
    var s := After(Init(n), before);
    RunSafe(s, run);
    RunWorks(s, run);
    var t := After(s, run);
    WorkIsNat(t);
    assert 0 < |t.producers| by {
      InitHas(n);
    }
    StuckExactly(t);
    if Stuck(t) {
      IdleIsWritten(t);
    }
  }

  lemma InitHas(n: nat)
    ensures |Init(n).producers| == n
  {
  }

  lemma IdleIsWritten(s: State)
    requires Safe(s) && Stuck(s) && 0 < |s.producers|
    ensures multiset(s.written) == multiset(s.pushed)
  {
    hide Counted, Guarded;
    StuckIsIdle(s);
    forall x
      ensures multiset(s.written)[x] == multiset(s.pushed)[x]
    {
      assert Occurs(s.pushed, x) == Total(s, x);
      OccursNowhere(x);
    }
  }

  // ---------------------------------------------------------------------------------------------
  // The bound is reached

  lemma {:induction false} AfterConcat(s: State, a: seq<Action>, b: seq<Action>)
    requires Possible(s, a) && Possible(After(s, a), b)
    ensures Possible(s, a + b) && After(s, a + b) == After(After(s, a), b)
    decreases |a|
  {
    hide Enabled, Apply;
    if a == [] {
      assert a + b == b;
    } else {
      AfterConcat(Apply(s, a[0]), a[1..], b);
      assert (a + b)[1..] == a[1..] + b;
    }
  }

  predicate NoConsumer(run: seq<Action>) {
    forall i :: 0 <= i < |run| ==> !run[i].WaitFull?
  }

  lemma SyncHasNoConsumer(line: Line)
    ensures NoConsumer([Log(line)] + SyncRun(0))
  {
  }

  /** A thread that logs a line and runs SyncLogLoop, k times, fills k slots of the queue. */
  lemma {:induction false} Fills(s: State, line: Line, k: nat) returns (run: seq<Action>)
    requires 0 < |s.producers| && s.producers[0].Idle? && s.staging == [] && s.owner.Nobody? && k <= s.emptySem
    ensures Possible(s, run) && NoConsumer(run)
    ensures var t := After(s, run); |t.queue| == |s.queue| + k && t.emptySem == s.emptySem - k
    decreases k
  {
    hide Possible, After, SyncRun, Enabled;
    run := [];
    if k == 0 {
      AfterNothing(s);
    } else {
      CanLog(s, line);
      var s1 := Apply(s, Log(line));
      SyncRunEffect(s1, 0);
      AfterCons(s, Log(line), SyncRun(0));
      var t := After(s1, SyncRun(0));
      var rest := Fills(t, line, k - 1);
      AfterConcat(s, [Log(line)] + SyncRun(0), rest);
      SyncHasNoConsumer(line);
      run := [Log(line)] + SyncRun(0) + rest;
    }
  }

  lemma CanLog(s: State, line: Line)
    ensures Enabled(s, Log(line))
  {
  }

  /** A thousand batches can be queued before the consumer takes any step. */
  lemma ThousandFit() returns (run: seq<Action>)
    ensures Possible(Init(1), run) && |After(Init(1), run).queue| == 1000
    ensures forall i :: 0 <= i < |run| ==> !run[i].WaitFull?
  {
    run := Fills(Init(1), "x", 1000);
  }

  /** With a thousand queued, no thread can reserve a slot for another. */
  lemma NoMoreFit(n: nat, run: seq<Action>)
    requires Possible(Init(n), run) && |After(Init(n), run).queue| == 1000
    ensures forall i :: !Enabled(After(Init(n), run), WaitEmpty(i)) && !Enabled(After(Init(n), run), Push(i))
  {
    hide Guarded, Conserved, Possible, After, Init;
    BoundedBuffer(n, run);
    var s := After(Init(n), run);
    forall i: nat
      ensures !Enabled(s, Push(i))
    {
      if i < |s.producers| && s.producers[i].Locked? {
        SlotCounted(s.producers, i);
      }
    }
  }

  lemma {:induction false} SlotCounted(ps: seq<Producer>, i: nat)
    requires i < |ps| && (ps[i].Reserved? || ps[i].Locked?)
    ensures Slots(ps) > 0
    decreases i
  {
    if i > 0 {
      SlotCounted(ps[1..], i - 1);
    }
  }

  // ---------------------------------------------------------------------------------------------
  // The code of the two loggers, run without interference

  lemma AfterCons(s: State, a: Action, run: seq<Action>)
    requires Enabled(s, a) && Possible(Apply(s, a), run)
    ensures Possible(s, [a] + run) && After(s, [a] + run) == After(Apply(s, a), run)
  {
    hide Enabled, Apply;
    assert ([a] + run)[1..] == run;
  }

  function SyncRun(i: nat): seq<Action> {
    [Swap(i)] + ([WaitEmpty(i)] + ([Lock(i)] + ([Push(i)] + ([Unlock(i)] + ([PostFull(i)] + [])))))
  }

  function WriteRun(lines: nat): seq<Action> {
    if lines == 0 then [Finish] + [] else [WriteLine] + WriteRun(lines - 1)
  }

  function LoopRun(lines: nat): seq<Action> {
    [WaitFull] + ([LockQueue] + ([Look] + ([UnlockQueue] + ([PostEmpty] + WriteRun(lines)))))
  }

  lemma SyncRunEffect(s: State, i: nat)
    requires i < |s.producers| && s.producers[i].Idle? && s.staging != [] && s.emptySem > 0 && s.owner.Nobody?
    ensures Possible(s, SyncRun(i)) && After(s, SyncRun(i)) ==
      s.(staging := [], queue := s.queue + [s.staging], emptySem := s.emptySem - 1, fullSem := s.fullSem + 1)
  {
    hide Possible, After;
    var s1 := Apply(s, Swap(i));
    var s2 := Apply(s1, WaitEmpty(i));
    var s3 := Apply(s2, Lock(i));
    var s4 := Apply(s3, Push(i));
    var s5 := Apply(s4, Unlock(i));
    var s6 := Apply(s5, PostFull(i));
    assert s6.producers == s.producers;
    AfterNothing(s6);
    AfterCons(s5, PostFull(i), []);
    AfterCons(s4, Unlock(i), [PostFull(i)] + []);
    AfterCons(s3, Push(i), [Unlock(i)] + ([PostFull(i)] + []));
    AfterCons(s2, Lock(i), [Push(i)] + ([Unlock(i)] + ([PostFull(i)] + [])));
    AfterCons(s1, WaitEmpty(i), [Lock(i)] + ([Push(i)] + ([Unlock(i)] + ([PostFull(i)] + []))));
    AfterCons(s, Swap(i), [WaitEmpty(i)] + ([Lock(i)] + ([Push(i)] + ([Unlock(i)] + ([PostFull(i)] + [])))));
  }

  lemma AfterNothing(s: State)
    ensures Possible(s, []) && After(s, []) == s
  {
  }

  lemma {:induction false} WriteRunEffect(s: State, lines: nat)
    requires s.consumer.Writing? && |s.consumer.batch| == lines
    ensures Possible(s, WriteRun(lines))
    ensures After(s, WriteRun(lines)) == s.(consumer := Waiting, written := s.written + s.consumer.batch)
    decreases lines
  {
    hide Possible, After;
    var b := s.consumer.batch;
    if lines == 0 {
      AfterNothing(Apply(s, Finish));
      AfterCons(s, Finish, []);
      assert s.written + b == s.written;
    } else {
      WriteRunEffect(Apply(s, WriteLine), lines - 1);
      AfterCons(s, WriteLine, WriteRun(lines - 1));
      assert s.written + [b[0]] + b[1..] == s.written + b;
    }
  }

  lemma LoopRunEffect(s: State)
    requires s.consumer.Waiting? && s.fullSem > 0 && s.owner.Nobody? && s.queue != []
    ensures Possible(s, LoopRun(|s.queue[0]|)) && After(s, LoopRun(|s.queue[0]|)) ==
      s.(queue := s.queue[1..], fullSem := s.fullSem - 1, emptySem := s.emptySem + 1, written := s.written + s.queue[0])
  {
    hide Possible, After, WriteRun;
    var r := WriteRun(|s.queue[0]|);
    var s1 := Apply(s, WaitFull);
    var s2 := Apply(s1, LockQueue);
    var s3 := Apply(s2, Look);
    var s4 := Apply(s3, UnlockQueue);
    var s5 := Apply(s4, PostEmpty);
    WriteRunEffect(s5, |s.queue[0]|);
    AfterCons(s4, PostEmpty, r);
    AfterCons(s3, UnlockQueue, [PostEmpty] + r);
    AfterCons(s2, Look, [UnlockQueue] + ([PostEmpty] + r));
    AfterCons(s1, LockQueue, [Look] + ([UnlockQueue] + ([PostEmpty] + r)));
    AfterCons(s, WaitFull, [LockQueue] + ([Look] + ([UnlockQueue] + ([PostEmpty] + r))));
  }

  /** The fields of Logger and AsyncLogger that the threads share. Each method is one thread's code from
      beginning to end, and does what the machine's steps for it do. A method that would block instead,
      on a semaphore at zero, cannot be called. */
  class Loggers {
    var myBuffer: Batch
    var emptySem: nat
    var fullSem: nat
    var myAsyncLogBuffer: seq<Batch>
    var file: string
    ghost var written: seq<Line>
    ghost var pushed: seq<Line>
    const threads: nat

    ghost function View(): State
      reads this
    {
      State(pushed, myBuffer, seq(threads, _ => Idle), emptySem, fullSem, Nobody, myAsyncLogBuffer, Waiting, written)
    }

    /** The file holds the text of the lines written. */
    ghost predicate Valid()
      reads this
    {
      file == Text(written)
    }

    constructor (threads: nat)
      ensures this.threads == threads && View() == Init(threads) && Valid()
    {
      this.threads := threads;
      myBuffer, myAsyncLogBuffer, file, written, pushed := [], [], "", [], [];
      emptySem, fullSem := ASYNC_LOG_QUEUE_SIZE, 0;
    }

    method PushLog(msg: Line)
      modifies this
      ensures View() == Apply(old(View()), Log(msg)) && (old(Valid()) ==> Valid())
      ensures myBuffer == old(myBuffer) + [msg] && file == old(file)
    {
      myBuffer := myBuffer + [msg];
      pushed := pushed + [msg];
    }

    method SyncLogLoop(i: nat)
      requires i < threads && (myBuffer != [] ==> emptySem > 0)
      modifies this
      ensures old(Valid()) ==> Valid()
      ensures old(myBuffer) == [] ==> View() == old(View())
      ensures old(myBuffer) != [] ==>
        Possible(old(View()), SyncRun(i)) && View() == After(old(View()), SyncRun(i))
    {
      hide SyncRun;
      if myBuffer != [] {
        SyncRunEffect(View(), i);
      }
      var tmpVec := myBuffer;
      myBuffer := [];
      if tmpVec != [] {
        PushLogToAsyncBuffer(tmpVec);
      }
    }

    method PushLogToAsyncBuffer(vec: Batch)
      requires emptySem > 0
      modifies this`emptySem, this`fullSem, this`myAsyncLogBuffer
      ensures emptySem == old(emptySem) - 1 && fullSem == old(fullSem) + 1
      ensures myAsyncLogBuffer == old(myAsyncLogBuffer) + [vec]
    {
      emptySem := emptySem - 1;
      myAsyncLogBuffer := myAsyncLogBuffer + [vec];
      fullSem := fullSem + 1;
    }

    /** One round of the consumer's loop. */
    method Loop()
      requires fullSem > 0 && Counted(View()) && Valid()
      modifies this
      ensures old(myAsyncLogBuffer) != [] && Valid()
      ensures file == old(file) + Text(old(myAsyncLogBuffer)[0]) && written == old(written) + old(myAsyncLogBuffer)[0]
      ensures var run := LoopRun(|old(myAsyncLogBuffer)[0]|);
        Possible(old(View()), run) && View() == After(old(View()), run)
    {
      hide LoopRun;
      assert myAsyncLogBuffer != [] by {
        InitCounts(threads);
      }
      LoopRunEffect(View());
      fullSem := fullSem - 1;
      var tmp := myAsyncLogBuffer[0];
      myAsyncLogBuffer := myAsyncLogBuffer[1..];
      emptySem := emptySem + 1;
      WriteLines(tmp);
    }

    /** The loop over the lines of a batch. */
    method WriteLines(tmp: Batch)
      requires Valid()
      modifies this`file, this`written
      ensures Valid() && written == old(written) + tmp && file == old(file) + Text(tmp)
    {
      hide Text;
      TextOfOne("");
      for i := 0 to |tmp|
        invariant written == old(written) + tmp[..i] && file == old(file) + Text(tmp[..i])
      {
        assert tmp[..i + 1] == tmp[..i] + [tmp[i]];
        TextConcat(tmp[..i], [tmp[i]]);
        TextOfOne(tmp[i]);
        if tmp[i] != "" {
          file := file + tmp[i];
        }
        written := written + [tmp[i]];
      }
      assert tmp[..|tmp|] == tmp;
      TextConcat(old(written), tmp);
    }
  }
}
