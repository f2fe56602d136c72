/** The event loop's task queue, its wake-up descriptor and its interest set (net/eventloop.cc), as a
    state machine: the loop thread and any number of other threads take their steps in any order.

    A step is one access to the queue under its mutex, one write to the wake-up descriptor, one task, or
    one return of epoll_wait. */
module EventLoops {

  type Fd = nat

  /** Tasks are callbacks; those that matter here are the wake-up handler and the deferred additions to
      and deletions from the epoll set. `wakes` is the second argument of AddTaskToQueue. */
  datatype Work = Callback(id: nat) | DrainWakeUp | AddFd(fd: Fd) | DeleteFd(fd: Fd)
  datatype Task = Task(work: Work, wakes: bool)

  datatype Phase = AtSwap | Running | Polling

  datatype State = State(
    phase: Phase,
    pushed: seq<Task>,       // every task pushed so far
    pending: seq<Task>,      // myPendingTask
    batch: seq<Task>,        // tmpTask
    executed: seq<Task>,
    toRing: set<nat>,        // positions in `pushed` whose wake-up is still to be written
    rung: set<nat>,          // positions whose wake-up write has completed
    counter: nat,            // the wake-up descriptor
    woken: bool,             // epoll_wait has reported it, and its handler is still to be queued
    open: set<Fd>,           // the open descriptors of the process
    listen: set<Fd>,         // myListenfds
    kernel: set<Fd>,         // what epoll has registered
    stale: set<Fd>,          // closed while in myListenfds, or listed by an ADD that was refused
    refused: bool)           // whether the kernel has refused an epoll_ctl call

  datatype Action =
    | PushTask(task: Task)   // AddTaskToQueue up to the unlock, by any thread; the wake-up handler, by the
                             // loop thread alone
    | Ring(k: nat)           // Wakeup
    | SwapQueue | RunTask | Enter
    | Return(woken: bool)    // epoll_wait returns, and reports the wake-up descriptor or not
    | AddEvent(fd: Fd) | DeleteEvent(fd: Fd)  // AddEpollEvent, DeleteEpollEvent in the loop thread
    | OpenFd(fd: Fd) | CloseFd(fd: Fd)        // by anybody; a number is used again once it is closed

  function Init(): State {
    State(AtSwap, [], [], [], [], {}, {}, 0, false, {}, {}, {}, {}, false)
  }

  lemma InitIs()
    ensures var s := Init();
      && s.phase.AtSwap? && s.pushed == s.pending == s.batch == s.executed == [] && s.counter == 0 && !s.woken
      && s.toRing == s.rung == {} && s.open == s.listen == s.kernel == s.stale == {} && !s.refused
  {
  }

  /** epoll_ctl: only an open descriptor that is not registered can be added, only a registered one can
      be modified or deleted. */
  function EpollAdd(s: State, fd: Fd): State {
    if fd in s.open && fd !in s.kernel then s.(kernel := s.kernel + {fd}) else s.(refused := true)
  }

  function EpollMod(s: State, fd: Fd): State {
    if fd in s.kernel then s else s.(refused := true)
  }

  function EpollDelete(s: State, fd: Fd): State {
    if fd in s.kernel then s.(kernel := s.kernel - {fd}) else s.(refused := true)
  }

  /** ADD_TO_EPOLL: ADD or MOD, as myListenfds says. A refused call is logged, and the descriptor listed
      all the same. */
  function Added(s: State, fd: Fd): State {
    Listed(if fd in s.listen then EpollMod(s, fd) else EpollAdd(s, fd), fd)
  }

  function Listed(s: State, fd: Fd): State {
    s.(listen := s.listen + {fd}, stale := if fd in s.kernel then s.stale else s.stale + {fd})
  }

  /** DELETE_FROM_EPOLL. */
  function Deleted(s: State, fd: Fd): State {
    if fd !in s.listen then s else Unlisted(EpollDelete(s, fd), fd)
  }

  function Unlisted(s: State, fd: Fd): State {
    s.(listen := s.listen - {fd}, stale := s.stale - {fd})
  }

  /** Whether position k of `pushed` is a task still pending. */
  predicate Waiting(s: State, k: nat) {
    |s.pushed| - |s.pending| <= k < |s.pushed|
  }

  function Run(s: State, work: Work): State {
    match work
    case Callback(_) => s
    case DrainWakeUp => s.(counter := 0)
    case AddFd(fd) => Added(s, fd)
    case DeleteFd(fd) => Deleted(s, fd)
  }

  predicate Enabled(s: State, a: Action) {
    match a
    case PushTask(task) => task.work.DrainWakeUp? ==> s.woken && !task.wakes
    case Ring(k) => k in s.toRing
    case SwapQueue => s.phase.AtSwap? && !s.woken
    case RunTask => s.phase.Running? && s.batch != []
    case Enter => s.phase.Running? && s.batch == []
    case Return(woken) => s.phase.Polling? && (woken ==> s.counter > 0)
    case AddEvent(_) => true
    case DeleteEvent(_) => true
    case OpenFd(fd) => fd !in s.open
    case CloseFd(fd) => fd in s.open
  }

  function Apply(s: State, a: Action): State
    requires Enabled(s, a)
  {
    match a
    case PushTask(task) =>
      s.(pushed := s.pushed + [task], pending := s.pending + [task],
         toRing := if task.wakes then s.toRing + {|s.pushed|} else s.toRing,
         woken := s.woken && !task.work.DrainWakeUp?)
    case Ring(k) => s.(toRing := s.toRing - {k}, rung := s.rung + {k}, counter := s.counter + 97)
    case SwapQueue => s.(phase := Running, batch := s.pending, pending := [])
    case RunTask => Run(s.(executed := s.executed + [s.batch[0]], batch := s.batch[1..]), s.batch[0].work)
    case Enter => s.(phase := Polling)
    case Return(woken) => s.(phase := AtSwap, woken := woken)
    case AddEvent(fd) => Added(s, fd)
    case DeleteEvent(fd) => Deleted(s, fd)
    case OpenFd(fd) => s.(open := s.open + {fd})
    case CloseFd(fd) =>
      s.(open := s.open - {fd}, kernel := s.kernel - {fd},
         stale := if fd in s.listen then s.stale + {fd} else s.stale)
  }

  ghost predicate Possible(s: State, run: seq<Action>)
    decreases |run|
  {
    run != [] ==> Enabled(s, run[0]) && Possible(Apply(s, run[0]), run[1..])
  }

  ghost function After(s: State, run: seq<Action>): State
    requires Possible(s, run)
    decreases |run|
  {
    if run == [] then s else After(Apply(s, run[0]), run[1..])
  }

  // ---------------------------------------------------------------------------------------------
  // What every step keeps

  /** Tasks are executed in the order of their pushes, each exactly once. */
  ghost predicate Fifo(s: State) {
    s.pushed == s.executed + s.batch + s.pending && (s.batch != [] ==> s.phase.Running?)
  }

  /** Wake-ups are written for tasks that were pushed. */
  ghost predicate Announced(s: State) {
    forall k :: k in s.toRing || k in s.rung ==> k < |s.pushed|
  }

  /** The kernel has registered exactly the listed descriptors that are not stale; all of them are
      open. */
  ghost predicate Agreed(s: State) {
    s.kernel == s.listen - s.stale && s.stale <= s.listen && s.kernel <= s.open
  }

  /** Nothing but the queue's own steps changes the queue. */
  predicate SameQueues(s: State, t: State) {
    && t.pushed == s.pushed && t.pending == s.pending && t.batch == s.batch && t.executed == s.executed
    && t.phase == s.phase && t.toRing == s.toRing && t.rung == s.rung
  }

  lemma EpollKeepsQueues(s: State, fd: Fd)
    ensures SameQueues(s, Added(s, fd)) && SameQueues(s, Deleted(s, fd))
  {
  }

  lemma WorkKeepsQueues(s: State, work: Work)
    ensures SameQueues(s, Run(s, work))
  {
    hide Added, Deleted;
    if work.AddFd? || work.DeleteFd? {
      EpollKeepsQueues(s, work.fd);
    }
  }

  lemma StepFifo(s: State, a: Action)
    requires Fifo(s) && Enabled(s, a)
    ensures Fifo(Apply(s, a))
  {
    hide Added, Deleted, Run;
    if a.AddEvent? || a.DeleteEvent? {
      EpollKeepsQueues(s, a.fd);
    } else if a.RunTask? {
      var u := s.(executed := s.executed + [s.batch[0]], batch := s.batch[1..]);
      WorkKeepsQueues(u, s.batch[0].work);
      assert u.executed + u.batch == s.executed + s.batch;
    }
  }

  lemma StepAnnounced(s: State, a: Action)
    requires Announced(s) && Enabled(s, a)
    ensures Announced(Apply(s, a))
  {
  }

  lemma EpollKeepsAgreed(s: State, fd: Fd)
    requires Agreed(s)
    ensures Agreed(Added(s, fd)) && Agreed(Deleted(s, fd))
  {
  }

  lemma StepAgreed(s: State, a: Action)
    requires Agreed(s) && Enabled(s, a)
    ensures Agreed(Apply(s, a))
  {
    hide Added, Deleted;
    if a.AddEvent? || a.DeleteEvent? {
      EpollKeepsAgreed(s, a.fd);
    } else if a.RunTask? && (s.batch[0].work.AddFd? || s.batch[0].work.DeleteFd?) {
      EpollKeepsAgreed(s.(executed := s.executed + [s.batch[0]], batch := s.batch[1..]), s.batch[0].work.fd);
    }
  }

  /** What an addition leaves, in the loop thread or as a task: the descriptor is listed; it is registered
      if it was, or if it is open and was not listed; nothing else changes. */
  lemma AdditionLists(s: State, a: Action, fd: Fd)
    requires Agreed(s) && Enabled(s, a)
    requires a == AddEvent(fd) || (a == RunTask && s.batch[0].work == AddFd(fd))
    ensures var t := Apply(s, a);
      && fd in t.listen && (fd in t.kernel <==> fd in s.kernel || (fd in s.open && fd !in s.listen))
      && (fd in s.open && fd !in s.stale ==> fd in t.kernel)
      && forall d :: d != fd ==> (d in t.listen <==> d in s.listen) && (d in t.kernel <==> d in s.kernel)
  {
  }

  /** What a deletion leaves: the descriptor is in neither set; nothing else changes. */
  lemma DeletionUnlists(s: State, a: Action, fd: Fd)
    requires Agreed(s) && Enabled(s, a)
    requires a == DeleteEvent(fd) || (a == RunTask && s.batch[0].work == DeleteFd(fd))
    ensures var t := Apply(s, a);
      && fd !in t.listen && fd !in t.kernel
      && forall d :: d != fd ==> (d in t.listen <==> d in s.listen) && (d in t.kernel <==> d in s.kernel)
  {
  }

  /** No other step changes what is listed. */
  lemma OthersKeepListed(s: State, a: Action)
    requires Enabled(s, a) && !a.AddEvent? && !a.DeleteEvent?
    requires a == RunTask ==> !s.batch[0].work.AddFd? && !s.batch[0].work.DeleteFd?
    ensures Apply(s, a).listen == s.listen
    ensures Apply(s, a).kernel == if a.CloseFd? then s.kernel - {a.fd} else s.kernel
    ensures Apply(s, a).open ==
      if a.OpenFd? then s.open + {a.fd} else if a.CloseFd? then s.open - {a.fd} else s.open
  {
  }

  /** The descriptor a step calls epoll_ctl for, if any. */
  predicate Touches(s: State, a: Action, fd: Fd)
    requires Enabled(s, a)
  {
    match a
    case AddEvent(f) => f == fd
    case DeleteEvent(f) => f == fd && fd in s.listen
    case RunTask =>
      (match s.batch[0].work
       case AddFd(f) => f == fd
       case DeleteFd(f) => f == fd && fd in s.listen
       case _ => false)
    case _ => false
  }

  /** The descriptors a step calls epoll_ctl for are open, and registered if they are listed. */
  ghost predicate Sound(s: State, a: Action)
    requires Enabled(s, a)
  {
    forall fd :: Touches(s, a, fd) ==> fd in s.open && fd !in s.stale
  }

  /** The kernel refuses a call exactly when it is for a descriptor that is stale or not open. */
  lemma RefusedExactlyWhenUnsound(s: State, a: Action)
    requires Agreed(s) && Enabled(s, a) && !s.refused
    ensures Apply(s, a).refused <==> !Sound(s, a)
  {
    if a.AddEvent? || a.DeleteEvent? {
      assert Apply(s, a).refused ==> Touches(s, a, a.fd);
    } else if a.RunTask? && (s.batch[0].work.AddFd? || s.batch[0].work.DeleteFd?) {
      var fd := s.batch[0].work.fd;
      assert Apply(s, a).refused ==> Touches(s, a, fd);
    }
  }

  // ---------------------------------------------------------------------------------------------
  // Runs

  ghost predicate Safe(s: State) {
    Fifo(s) && Announced(s) && Agreed(s)
  }

  /** The tasks a run pushes, in order. */
  function Pushes(run: seq<Action>): seq<Task>
    decreases |run|
  {
    if run == [] then []
    else Pushes(run[..|run| - 1]) + if run[|run| - 1].PushTask? then [run[|run| - 1].task] else []
  }

  lemma {:induction false} PushesConcat(a: seq<Action>, b: seq<Action>)
    ensures Pushes(a + b) == Pushes(a) + Pushes(b)
    decreases |b|
  {
    if b == [] {
      assert a + b == a;
    } else {
      PushesConcat(a, b[..|b| - 1]);
      assert (a + b)[..|a + b| - 1] == a + b[..|b| - 1];
    }
  }

  lemma PushesOne(a: Action)
    ensures Pushes([]) == [] && Pushes([a]) == if a.PushTask? then [a.task] else []
  {
  }

  /** The pushes recorded are those of the run. */
  lemma {:induction false} PushedExactly(s: State, run: seq<Action>)
    requires Possible(s, run)
    ensures After(s, run).pushed == s.pushed + Pushes(run)
    decreases |run|
  {
    hide Apply, Enabled, Pushes;
    if run == [] {
      PushesOne(Enter);
      assert s.pushed + [] == s.pushed;
    } else {
      var t := Apply(s, run[0]);
      StepPushes(s, run[0]);
      PushedExactly(t, run[1..]);
      PushesConcat([run[0]], run[1..]);
      PushesOne(run[0]);
      assert run == [run[0]] + run[1..];
    }
  }

  lemma StepPushes(s: State, a: Action)
    requires Enabled(s, a)
    ensures Apply(s, a).pushed == if a.PushTask? then s.pushed + [a.task] else s.pushed
  {
    hide Added, Deleted, Run;
    if a.AddEvent? || a.DeleteEvent? {
      EpollKeepsQueues(s, a.fd);
    } else if a.RunTask? {
      WorkKeepsQueues(s.(executed := s.executed + [s.batch[0]], batch := s.batch[1..]), s.batch[0].work);
    }
  }

  lemma {:induction false} RunSafe(s: State, run: seq<Action>)
    requires Safe(s) && Possible(s, run)
    ensures Safe(After(s, run))
    decreases |run|
  {
    hide Fifo, Announced, Agreed, Apply;
    if run != [] {
      StepFifo(s, run[0]);
      StepAnnounced(s, run[0]);
      StepAgreed(s, run[0]);
      RunSafe(Apply(s, run[0]), run[1..]);
    }
  }

  // ---------------------------------------------------------------------------------------------
  // The interest set

  ghost predicate AlwaysSound(s: State, run: seq<Action>)
    requires Possible(s, run)
    decreases |run|
  {
    run != [] ==> Sound(s, run[0]) && AlwaysSound(Apply(s, run[0]), run[1..])
  }

  lemma RefusalStays(s: State, a: Action)
    requires Enabled(s, a) && s.refused
    ensures Apply(s, a).refused
  {
  }

  lemma {:induction false} RunRefusalStays(s: State, run: seq<Action>)
    requires Possible(s, run) && s.refused
    ensures After(s, run).refused
    decreases |run|
  {
    hide Apply;
    if run != [] {
      RefusalStays(s, run[0]);
      RunRefusalStays(Apply(s, run[0]), run[1..]);
    }
  }

  /** Over any run, direct and deferred additions and deletions mixed with descriptors opened and closed
      by anybody: the kernel refuses a call if and only if some step calls epoll_ctl for a descriptor
      that is stale or not open. */
  lemma {:induction false} RefusedExactly(s: State, run: seq<Action>)
    requires Agreed(s) && !s.refused && Possible(s, run)
    ensures After(s, run).refused <==> !AlwaysSound(s, run)
    decreases |run|
  {
    hide Apply, Sound, Agreed;
    if run != [] {
      var t := Apply(s, run[0]);
      StepAgreed(s, run[0]);
      RefusedExactlyWhenUnsound(s, run[0]);
      if t.refused {
        RunRefusalStays(t, run[1..]);
      } else {
        RefusedExactly(t, run[1..]);
      }
    }
  }

  /** myListenfds is the kernel's set, now and after every step. */
  ghost predicate AlwaysSame(s: State, run: seq<Action>)
    requires Possible(s, run)
    decreases |run|
  {
    s.kernel == s.listen && (run != [] ==> AlwaysSame(Apply(s, run[0]), run[1..]))
  }

  /** No listed descriptor is closed, and no closed one added. */
  ghost predicate Tidy(s: State, run: seq<Action>)
    requires Possible(s, run)
    decreases |run|
  {
    run != [] ==>
      && (run[0].CloseFd? ==> run[0].fd !in s.listen)
      && (forall fd :: Adds(s, run[0], fd) ==> fd in s.open)
      && Tidy(Apply(s, run[0]), run[1..])
  }

  predicate Adds(s: State, a: Action, fd: Fd)
    requires Enabled(s, a)
  {
    a == AddEvent(fd) || (a.RunTask? && s.batch[0].work == AddFd(fd))
  }

  lemma StepSame(s: State, a: Action)
    requires Enabled(s, a) && Agreed(s) && s.kernel == s.listen
    ensures Apply(s, a).kernel == Apply(s, a).listen <==>
      (a.CloseFd? ==> a.fd !in s.listen) && forall fd :: Adds(s, a, fd) ==> fd in s.open
    ensures Apply(s, a).kernel == Apply(s, a).listen ==> Sound(s, a)
  {
    if a.RunTask? && s.batch[0].work.AddFd? {
      assert Adds(s, a, s.batch[0].work.fd);
    } else if a.AddEvent? {
      assert Adds(s, a, a.fd);
    }
  }

  /** myListenfds stays the kernel's set if and only if no listed descriptor is closed and no closed one
      added; no epoll_ctl call is refused then. */
  lemma {:induction false} InterestSetsAgree(s: State, run: seq<Action>)
    requires Agreed(s) && s.kernel == s.listen && Possible(s, run)
    ensures AlwaysSame(s, run) <==> Tidy(s, run)
    ensures Tidy(s, run) ==> AlwaysSound(s, run) && After(s, run).kernel == After(s, run).listen
    decreases |run|
  {
    hide Apply, Agreed, Sound, Adds;
    if run != [] {
      var t := Apply(s, run[0]);
      StepAgreed(s, run[0]);
      StepSame(s, run[0]);
      if t.kernel == t.listen {
        InterestSetsAgree(t, run[1..]);
      }
    }
  }

  /** Step i of the run adds the descriptor, or deletes it. */
  ghost predicate AddedAt(s: State, run: seq<Action>, i: nat, fd: Fd)
    requires Possible(s, run)
    decreases i
  {
    i < |run| &&
    if i > 0 then AddedAt(Apply(s, run[0]), run[1..], i - 1, fd)
    else run[0] == AddEvent(fd) || (run[0] == RunTask && s.batch[0].work == AddFd(fd))
  }

  ghost predicate DeletedAt(s: State, run: seq<Action>, i: nat, fd: Fd)
    requires Possible(s, run)
    decreases i
  {
    i < |run| &&
    if i > 0 then DeletedAt(Apply(s, run[0]), run[1..], i - 1, fd)
    else run[0] == DeleteEvent(fd) || (run[0] == RunTask && s.batch[0].work == DeleteFd(fd))
  }

  /** Step by step. */
  lemma ChangedAt(s: State, a: Action, run: seq<Action>, i: nat, fd: Fd)
    requires Enabled(s, a) && Possible(Apply(s, a), run)
    ensures Possible(s, [a] + run)
    ensures AddedAt(s, [a] + run, 0, fd) <==> a == AddEvent(fd) || (a == RunTask && s.batch[0].work == AddFd(fd))
    ensures DeletedAt(s, [a] + run, 0, fd) <==>
      a == DeleteEvent(fd) || (a == RunTask && s.batch[0].work == DeleteFd(fd))
    ensures AddedAt(s, [a] + run, i + 1, fd) <==> i < |run| && AddedAt(Apply(s, a), run, i, fd)
    ensures DeletedAt(s, [a] + run, i + 1, fd) <==> i < |run| && DeletedAt(Apply(s, a), run, i, fd)
  {
    hide Enabled, Apply;
    AfterCons(s, a, run);
    assert ([a] + run)[1..] == run;
  }

  lemma {:induction false} ListedUnchanged(s: State, run: seq<Action>, fd: Fd)
    requires Agreed(s) && Possible(s, run)
    requires forall j: nat :: !AddedAt(s, run, j, fd) && !DeletedAt(s, run, j, fd)
    ensures fd in After(s, run).listen <==> fd in s.listen
    decreases |run|
  {
    hide Apply, Enabled, Agreed;
    if run != [] {
      var t, rest := Apply(s, run[0]), run[1..];
      StepAgreed(s, run[0]);
      assert !AddedAt(s, run, 0, fd) && !DeletedAt(s, run, 0, fd);
      StepKeepsListed(s, run[0], fd);
      forall j: nat
        ensures !AddedAt(t, rest, j, fd) && !DeletedAt(t, rest, j, fd)
      {
        assert !AddedAt(s, run, j + 1, fd) && !DeletedAt(s, run, j + 1, fd);
      }
      ListedUnchanged(t, rest, fd);
    }
  }

  lemma StepKeepsListed(s: State, a: Action, fd: Fd)
    requires Agreed(s) && Enabled(s, a)
    requires a != AddEvent(fd) && a != DeleteEvent(fd)
    requires a == RunTask ==> s.batch[0].work != AddFd(fd) && s.batch[0].work != DeleteFd(fd)
    ensures fd in Apply(s, a).listen <==> fd in s.listen
  {
    hide Apply, Agreed;
    match a
    case AddEvent(d) => AdditionLists(s, a, d);
    case DeleteEvent(d) => DeletionUnlists(s, a, d);
    case RunTask =>
      assert Enabled(s, a) ==> s.batch != [];
      match s.batch[0].work {
        case AddFd(d) => AdditionLists(s, a, d);
        case DeleteFd(d) => DeletionUnlists(s, a, d);
        case _ => OthersKeepListed(s, a);
      }
    case _ => OthersKeepListed(s, a);
  }

  /** Over any run a descriptor is listed if and only if its last addition or deletion was an addition. */
  lemma {:induction false} ListedExactly(s: State, run: seq<Action>, i: nat, fd: Fd)
    requires Agreed(s) && Possible(s, run)
    requires forall j: nat :: i < j ==> !AddedAt(s, run, j, fd) && !DeletedAt(s, run, j, fd)
    requires AddedAt(s, run, i, fd) || DeletedAt(s, run, i, fd)
    ensures fd in After(s, run).listen <==> AddedAt(s, run, i, fd)
    decreases i
  {
    hide Apply, Enabled, Agreed;
    var t, rest := Apply(s, run[0]), run[1..];
    StepAgreed(s, run[0]);
    forall j: nat | i - 1 < j
      ensures !AddedAt(t, rest, j, fd) && !DeletedAt(t, rest, j, fd)
    {
      assert !AddedAt(s, run, j + 1, fd) && !DeletedAt(s, run, j + 1, fd);
    }
    if i > 0 {
      ListedExactly(t, rest, i - 1, fd);
    } else {
      if AddedAt(s, run, 0, fd) {
        AdditionLists(s, run[0], fd);
      } else {
        DeletionUnlists(s, run[0], fd);
      }
      ListedUnchanged(t, rest, fd);
    }
  }

  // ---------------------------------------------------------------------------------------------
  // Wake-ups

  predicate Drains(s: State, a: Action)
    requires Enabled(s, a)
  {
    a.RunTask? && s.batch[0].work.DrainWakeUp?
  }

  /** Step i of the run is the wake-up handler's. */
  ghost predicate DrainedAt(s: State, run: seq<Action>, i: nat)
    requires Possible(s, run)
    decreases i
  {
    i < |run| && if i == 0 then Drains(s, run[0]) else DrainedAt(Apply(s, run[0]), run[1..], i - 1)
  }

  predicate NoRing(run: seq<Action>, from: nat) {
    forall j :: from <= j < |run| ==> !run[j].Ring?
  }

  predicate NoSwap(run: seq<Action>, from: nat) {
    forall j :: from <= j < |run| ==> !run[j].SwapQueue?
  }

  /** The handler ran in step i, and no wake-up has been written since. */
  ghost predicate QuietSince(s: State, run: seq<Action>, i: nat)
    requires Possible(s, run)
  {
    DrainedAt(s, run, i) && NoRing(run, i + 1)
  }

  lemma StepCounter(s: State, a: Action)
    requires Enabled(s, a)
    ensures Apply(s, a).counter == 0 <==> Drains(s, a) || (s.counter == 0 && !a.Ring?)
    ensures Apply(s, a).rung == if a.Ring? then s.rung + {a.k} else s.rung
    ensures a.Ring? ==> Apply(s, a).counter == s.counter + 97
  {
  }

  /** The descriptor is unreadable if and only if no wake-up was written since the handler last ran. */
  lemma {:induction false} UnreadableExactly(s: State, run: seq<Action>)
    requires Possible(s, run)
    ensures After(s, run).counter == 0 <==>
      (s.counter == 0 && NoRing(run, 0)) || exists i: nat :: QuietSince(s, run, i)
    decreases |run|
  {
    hide Apply, Enabled, Drains, NoRing;
    if run != [] {
      var t, rest := Apply(s, run[0]), run[1..];
      StepCounter(s, run[0]);
      UnreadableExactly(t, rest);
      NoRingTail(run);
      if Drains(s, run[0]) && NoRing(rest, 0) {
        assert QuietSince(s, run, 0);
      }
      forall i: nat | QuietSince(t, rest, i)
        ensures QuietSince(s, run, i + 1)
      {
        assert DrainedAt(s, run, i + 1);
      }
      forall i: nat | QuietSince(s, run, i)
        ensures if i == 0 then Drains(s, run[0]) && NoRing(rest, 0) else QuietSince(t, rest, i - 1)
      {
      }
    } else {
      assert NoRing(run, 0) by { NothingRings(); }
    }
  }

  lemma NothingRings()
    ensures NoRing([], 0)
  {
  }

  lemma NoRingTail(run: seq<Action>)
    requires run != []
    ensures forall i: nat :: NoRing(run[1..], i) <==> NoRing(run, i + 1)
    ensures NoRing(run, 0) <==> !run[0].Ring? && NoRing(run[1..], 0)
  {
    forall i: nat
      ensures NoRing(run[1..], i) <==> NoRing(run, i + 1)
    {
      assert NoRing(run[1..], i) ==> forall j :: i + 1 <= j < |run| ==> run[j] == run[1..][j - 1];
    }
  }

  /** A task that is still waiting and whose wake-up was written before this run has seen no swap in it. */
  lemma {:induction false} NoSwapWhileWaiting(s: State, run: seq<Action>, k: nat)
    requires Safe(s) && Possible(s, run) && NoRing(run, 0)
    requires k in After(s, run).rung && Waiting(After(s, run), k)
    ensures k in s.rung && NoSwap(run, 0)
    decreases |run|
  {
    hide Apply, Enabled, Agreed;
    if run != [] {
      var t, rest := Apply(s, run[0]), run[1..];
      StepFifo(s, run[0]);
      StepAnnounced(s, run[0]);
      StepAgreed(s, run[0]);
      StepCounter(s, run[0]);
      NoRingTail(run);
      NoSwapWhileWaiting(t, rest, k);
      if run[0].SwapQueue? {
        StepTakes(s, run[0]);
        OneWaitAtMost(t, rest, k + 1);
        RunSafe(t, rest);
      }
    }
  }

  lemma {:induction false} NoSwapSinceDrain(s: State, run: seq<Action>, i: nat, k: nat)
    requires Safe(s) && Possible(s, run) && DrainedAt(s, run, i) && NoRing(run, i + 1)
    requires k in After(s, run).rung && Waiting(After(s, run), k)
    ensures NoSwap(run, i + 1)
    decreases i
  {
    hide Apply, Enabled, Fifo, Announced, Agreed, Waiting;
    var t, rest := Apply(s, run[0]), run[1..];
    StepFifo(s, run[0]);
    StepAnnounced(s, run[0]);
    StepAgreed(s, run[0]);
    NoRingTail(run);
    if i == 0 {
      NoSwapWhileWaiting(t, rest, k);
    } else {
      NoSwapSinceDrain(t, rest, i - 1, k);
    }
    assert forall j :: i + 1 <= j < |run| ==> run[j] == rest[j - 1];
  }

  lemma {:induction false} RungBySomeStep(s: State, run: seq<Action>, k: nat)
    requires Possible(s, run) && k in After(s, run).rung && k !in s.rung
    ensures exists j :: 0 <= j < |run| && run[j] == Ring(k)
    decreases |run|
  {
    hide Apply, Enabled;
    if run != [] {
      StepCounter(s, run[0]);
      var t, rest := Apply(s, run[0]), run[1..];
      if k in t.rung {
        assert run[0] == Ring(k);
      } else {
        RungBySomeStep(t, rest, k);
        var j :| 0 <= j < |rest| && rest[j] == Ring(k);
        assert run[j + 1] == Ring(k);
      }
    }
  }

  /** The wake-up for task k was absorbed: the handler ran after it was written, no other wake-up has
      been written since, and the queue has not been swapped since. */
  ghost predicate AbsorbedAt(run: seq<Action>, i: nat, k: nat)
    requires Possible(Init(), run)
  {
    && QuietSince(Init(), run, i) && NoSwap(run, i + 1)
    && exists j :: 0 <= j < i && run[j] == Ring(k)
  }

  lemma AbsorbedMeans(run: seq<Action>, i: nat, k: nat)
    requires Possible(Init(), run) && AbsorbedAt(run, i, k)
    ensures DrainedAt(Init(), run, i) && (forall j :: i < j < |run| ==> !run[j].Ring? && !run[j].SwapQueue?)
    ensures exists j :: 0 <= j < i && run[j] == Ring(k)
  {
  }

  lemma AbsorbedByDrain(run: seq<Action>, i: nat, k: nat)
    requires Possible(Init(), run) && QuietSince(Init(), run, i)
    requires k in After(Init(), run).rung && Waiting(After(Init(), run), k)
    ensures AbsorbedAt(run, i, k)
  {
    hide Apply, After, Waiting;
    NoSwapSinceDrain(Init(), run, i, k);
    RungBySomeStep(Init(), run, k);
    DrainIsATask(Init(), run, i);
  }

  lemma {:induction false} DrainIsATask(s: State, run: seq<Action>, i: nat)
    requires Possible(s, run) && DrainedAt(s, run, i)
    ensures i < |run| && run[i].RunTask?
    decreases i
  {
    hide Apply, Enabled;
    if i > 0 {
      DrainIsATask(Apply(s, run[0]), run[1..], i - 1);
    }
  }

  /** In every reachable state: executed tasks, then the batch, then the queue are the pushes in order.
      A pending task whose wake-up was written finds the descriptor unreadable if and only if the
      wake-up handler has absorbed that write in the present batch. */
  lemma Mailbox(run: seq<Action>)
    requires Possible(Init(), run)
    ensures var s := After(Init(), run);
      && Pushes(run) == s.pushed == s.executed + s.batch + s.pending
      && s.kernel == s.listen - s.stale && s.kernel <= s.open
      && forall k :: k in s.rung && Waiting(s, k) ==> (s.counter == 0 <==> exists i: nat :: AbsorbedAt(run, i, k))
  {
    hide After, Waiting, QuietSince;
    RunSafe(Init(), run);
    PushedExactly(Init(), run);
    UnreadableExactly(Init(), run);
    var s := After(Init(), run);
    forall k | k in s.rung && Waiting(s, k)
      ensures s.counter == 0 <==> exists i: nat :: AbsorbedAt(run, i, k)
    {
      RungBySomeStep(Init(), run, k);
      assert !NoRing(run, 0);
      forall i: nat | QuietSince(Init(), run, i)
        ensures AbsorbedAt(run, i, k)
      {
        AbsorbedByDrain(run, i, k);
      }
    }
  }

  /** The wake-up of a first task makes the loop queue the handler. While the batch with both runs, a
      second task is pushed and announced; then the handler runs, and the loop goes to sleep. */
  const FIRST: Task := Task(Callback(0), true)
  const HANDLER: Task := Task(DrainWakeUp, false)
  const LATE: Task := Task(Callback(1), true)
  const LATE_PUSH: seq<Action> := [
    SwapQueue, Enter, PushTask(FIRST), Ring(0), Return(true), PushTask(HANDLER), SwapQueue, RunTask,
    PushTask(LATE), Ring(2), RunTask, Enter]

  /** It does happen: the second task is then in the queue, its wake-up has been written, and the descriptor
      is unreadable. */
  lemma WakeUpCanBeAbsorbed()
    ensures Possible(Init(), LATE_PUSH)
    ensures var s := After(Init(), LATE_PUSH);
      s.phase.Polling? && s.pending == [LATE] && 2 in s.rung && Waiting(s, 2) && s.counter == 0
  {
    hide Possible, After;
    var s1 := Apply(Init(), SwapQueue);
    var s2 := Apply(s1, Enter);
    var s3 := Apply(s2, PushTask(FIRST));
    var s4 := Apply(s3, Ring(0));
    var s5 := Apply(s4, Return(true));
    var s6 := Apply(s5, PushTask(HANDLER));
    var s7 := Apply(s6, SwapQueue);
    SecondHalf(s7);
    var r := SECOND_HALF;
    AfterCons(s6, SwapQueue, r);
    AfterCons(s5, PushTask(HANDLER), [SwapQueue] + r);
    AfterCons(s4, Return(true), [PushTask(HANDLER)] + ([SwapQueue] + r));
    AfterCons(s3, Ring(0), [Return(true)] + ([PushTask(HANDLER)] + ([SwapQueue] + r)));
    var t := [Ring(0)] + ([Return(true)] + ([PushTask(HANDLER)] + ([SwapQueue] + r)));
    AfterCons(s2, PushTask(FIRST), t);
    AfterCons(s1, Enter, [PushTask(FIRST)] + t);
    AfterCons(Init(), SwapQueue, [Enter] + ([PushTask(FIRST)] + t));
    assert [SwapQueue] + ([Enter] + ([PushTask(FIRST)] + t)) == LATE_PUSH;
  }

  const SECOND_HALF: seq<Action> := [RunTask, PushTask(LATE), Ring(2), RunTask, Enter]

  /** From the swap on. */
  lemma SecondHalf(s: State)
    requires s.phase.Running? && s.batch == [FIRST, HANDLER] && s.pending == [] && |s.pushed| == 2 && s.toRing == {}
    ensures Possible(s, SECOND_HALF)
    ensures var t := After(s, SECOND_HALF);
      t.phase.Polling? && t.pending == [LATE] && 2 in t.rung && Waiting(t, 2) && t.counter == 0
  {
    hide Possible, After;
    var s1 := Apply(s, RunTask);
    var s2 := Apply(s1, PushTask(LATE));
    var s3 := Apply(s2, Ring(2));
    var s4 := Apply(s3, RunTask);
    var s5 := Apply(s4, Enter);
    NothingPossible(s5);
    AfterCons(s4, Enter, []);
    AfterCons(s3, RunTask, [Enter] + []);
    AfterCons(s2, Ring(2), [RunTask] + ([Enter] + []));
    AfterCons(s1, PushTask(LATE), [Ring(2)] + ([RunTask] + ([Enter] + [])));
    AfterCons(s, RunTask, [PushTask(LATE)] + ([Ring(2)] + ([RunTask] + ([Enter] + []))));
    assert [RunTask] + ([PushTask(LATE)] + ([Ring(2)] + ([RunTask] + ([Enter] + [])))) == SECOND_HALF;
  }

  function Waits(run: seq<Action>): nat {
    if run == [] then 0 else (if run[0].Return? then 1 else 0) + Waits(run[1..])
  }

  lemma {:induction false} WaitsConcat(a: seq<Action>, b: seq<Action>)
    ensures Waits(a + b) == Waits(a) + Waits(b)
    ensures Waits([]) == 0 && forall woken :: Waits([Return(woken)]) == 1
    decreases |a|
  {
    if a == [] {
      assert a + b == b;
    } else {
      WaitsConcat(a[1..], b);
      assert (a + b)[1..] == a[1..] + b;
    }
  }

  /** At most one wait delays a task: among the first n pushed, none is pending any more once epoll_wait
      has returned twice (once, if the loop was on its way to the swap). */
  lemma {:induction false} OneWaitAtMost(s: State, run: seq<Action>, n: nat)
    requires Fifo(s) && Possible(s, run) && n <= |s.pushed|
    requires n <= |s.executed| + |s.batch| || Waits(run) >= if s.phase.AtSwap? then 1 else 2
    ensures n <= |After(s, run).executed| + |After(s, run).batch|
    decreases |run|
  {
    if run != [] {
      StepFifo(s, run[0]);
      StepTakes(s, run[0]);
      OneWaitAtMost(Apply(s, run[0]), run[1..], n);
    }
  }

  lemma StepTakes(s: State, a: Action)
    requires Fifo(s) && Enabled(s, a)
    ensures var t := Apply(s, a);
      && |t.pushed| >= |s.pushed| && |t.executed| + |t.batch| >= |s.executed| + |s.batch|
      && (a.SwapQueue? ==> |t.executed| + |t.batch| == |t.pushed|)
      && (t.phase.AtSwap? <==> a.Return? || (s.phase.AtSwap? && !a.SwapQueue?))
  {
    hide Added, Deleted, Run;
    if a.AddEvent? || a.DeleteEvent? {
      EpollKeepsQueues(s, a.fd);
    } else if a.RunTask? {
      WorkKeepsQueues(s.(executed := s.executed + [s.batch[0]], batch := s.batch[1..]), s.batch[0].work);
    }
  }

  // ---------------------------------------------------------------------------------------------
  // The loop's own code, run without interference

  /** One pass of Loop up to epoll_wait over a queue of n tasks. */
  function Pass(n: nat): seq<Action> {
    [SwapQueue] + Batch(n)
  }

  function Batch(n: nat): seq<Action> {
    if n == 0 then [Enter] + [] else [RunTask] + Batch(n - 1)
  }

  lemma AfterCons(s: State, a: Action, run: seq<Action>)
    requires Enabled(s, a) && Possible(Apply(s, a), run)
    ensures Possible(s, [a] + run) && After(s, [a] + run) == After(Apply(s, a), run)
  {
    hide Enabled, Apply;
    assert ([a] + run)[1..] == run;
  }

  lemma {:induction false} BatchPossible(s: State)
    requires s.phase.Running?
    ensures Possible(s, Batch(|s.batch|))
    decreases |s.batch|
  {
    hide Possible, After;
    if s.batch == [] {
      assert Possible(Apply(s, Enter), []) by { NothingPossible(Apply(s, Enter)); }
      AfterCons(s, Enter, []);
    } else {
      BatchPossible(Apply(s, RunTask));
      AfterCons(s, RunTask, Batch(|s.batch| - 1));
    }
  }

  lemma NothingPossible(s: State)
    ensures Possible(s, []) && After(s, []) == s
  {
  }

  lemma BatchStep(s: State)
    requires s.phase.Running? && s.batch != []
    ensures var t := Apply(s, RunTask);
      Possible(s, Batch(|s.batch|)) && Possible(t, Batch(|t.batch|)) &&
      After(s, Batch(|s.batch|)) == After(t, Batch(|t.batch|))
  {
    hide Possible, After, Run;
    var t := Apply(s, RunTask);
    WorkKeepsQueues(s.(executed := s.executed + [s.batch[0]], batch := s.batch[1..]), s.batch[0].work);
    BatchPossible(t);
    AfterCons(s, RunTask, Batch(|t.batch|));
  }

  lemma PassUnfolded(s: State)
    requires Enabled(s, SwapQueue)
    ensures var t := Apply(s, SwapQueue);
      Possible(s, Pass(|s.pending|)) && Possible(t, Batch(|t.batch|)) &&
      After(s, Pass(|s.pending|)) == After(t, Batch(|t.batch|))
  {
    hide Possible, After, Batch;
    BatchPossible(Apply(s, SwapQueue));
    AfterCons(s, SwapQueue, Batch(|s.pending|));
  }

  lemma BatchEnds(s: State)
    requires s.phase.Running? && s.batch == []
    ensures Possible(s, Batch(0)) && After(s, Batch(0)) == s.(phase := Polling)
  {
    hide Possible, After;
    NothingPossible(Apply(s, Enter));
    AfterCons(s, Enter, []);
  }

  /** The fields of EventLoop. `view` keeps the rest of the machine's state. */
  class EventLoop {
    var myPendingTask: seq<Task>
    var myListenfds: set<Fd>
    ghost var view: State

    ghost function View(): (s: State)
      reads this
      ensures s.pending == myPendingTask && s.listen == myListenfds
    {
      view.(pending := myPendingTask, listen := myListenfds)
    }

    constructor ()
      ensures View() == Init()
    {
      myPendingTask, myListenfds, view := [], {}, Init();
    }

    method AddTaskToQueue(callBack: Task)
      requires Enabled(View(), PushTask(callBack))
      modifies this
      ensures myPendingTask == old(myPendingTask) + [callBack] && myListenfds == old(myListenfds)
      ensures View() == Apply(old(View()), PushTask(callBack))
    {
      view := Apply(View(), PushTask(callBack));
      myPendingTask := myPendingTask + [callBack];
    }

    /** AddEpollEvent in the loop thread; the ADD or MOD is issued as myListenfds says. */
    method AddEpollEvent(fd: Fd) returns (isAdd: bool)
      modifies this
      ensures isAdd <==> fd !in old(myListenfds)
      ensures myListenfds == old(myListenfds) + {fd} && myPendingTask == old(myPendingTask)
      ensures View() == Apply(old(View()), AddEvent(fd))
    {
      isAdd := true;
      if fd in myListenfds {
        isAdd := false;
      }
      view := if isAdd then EpollAdd(View(), fd) else EpollMod(View(), fd);
      myListenfds := myListenfds + {fd};
      view := Listed(View(), fd);
    }

    method DeleteEpollEvent(fd: Fd)
      modifies this
      ensures myListenfds == old(myListenfds) - {fd} && myPendingTask == old(myPendingTask)
      ensures View() == Apply(old(View()), DeleteEvent(fd))
    {
      if fd !in myListenfds {
        return;
      }
      view := EpollDelete(View(), fd);
      myListenfds := myListenfds - {fd};
      view := Unlisted(View(), fd);
    }

    /** The swap and the loop over the batch. */
    method RunPending()
      requires Enabled(View(), SwapQueue)
      modifies this
      ensures Possible(old(View()), Pass(|old(myPendingTask)|))
      ensures View() == After(old(View()), Pass(|old(myPendingTask)|))
    {
      hide Pass, Batch, Possible, After;
      PassUnfolded(View());
      view := Apply(View(), SwapQueue);
      var tmpTask := myPendingTask;
      myPendingTask := [];
      while tmpTask != []
        invariant View().phase.Running? && View().batch == tmpTask
        invariant Possible(View(), Batch(|tmpTask|))
        invariant After(old(View()), Pass(|old(myPendingTask)|)) == After(View(), Batch(|tmpTask|))
      {
        BatchStep(View());
        var taskCallBack := tmpTask[0];
        tmpTask := tmpTask[1..];
        view := view.(executed := view.executed + [taskCallBack], batch := tmpTask);
        match taskCallBack.work {
          case Callback(_) =>
          case DrainWakeUp => view := Run(View(), DrainWakeUp);
          case AddFd(fd) => var _ := AddEpollEvent(fd);
          case DeleteFd(fd) => DeleteEpollEvent(fd);
        }
      }
      BatchEnds(View());
      view := view.(phase := Polling);
    }
  }
}
