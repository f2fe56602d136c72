/** The timer (net/timer.cc, net/timer_event.cc): a multimap from deadlines to events, and a one-shot
    kernel timer that is armed for the earliest of them. Each operation is taken as one step. */
module Timers {

  import opened Wrappers

  /** GetNowMS: the successive readings of the wall clock, in milliseconds. */
  class Clock {
    const readings: nat -> int
    var next: nat

    constructor (readings: nat -> int)
      ensures this.readings == readings && next == 0
    {
      this.readings, next := readings, 0;
    }

    ghost predicate Monotone() {
      forall i: nat, j: nat :: i <= j ==> readings(i) <= readings(j)
    }

    ghost predicate StrictlyIncreasing() {
      forall i: nat, j: nat :: i < j ==> readings(i) < readings(j)
    }

    lemma StrictIsMonotone()
      requires StrictlyIncreasing()
      ensures Monotone()
    {
      forall i: nat, j: nat | i <= j
        ensures readings(i) <= readings(j)
      {
        assert i == j || readings(i) < readings(j);
      }
    }

    method GetNowMS() returns (now: int)
      modifies this
      ensures now == readings(old(next)) && next == old(next) + 1
    {
      now := readings(next);
      next := next + 1;
    }
  }

  class TimerEvent {
    var myArriveTime: int
    const myInterval: int
    const myIsRepeated: bool
    var myIsCanceled: bool
    const myTask: Option<nat>

    constructor (interval: int, isRepeated: bool, callBack: Option<nat>, clock: Clock)
      modifies clock
      ensures myArriveTime == clock.readings(old(clock.next)) + interval && clock.next == old(clock.next) + 1
      ensures myInterval == interval && myIsRepeated == isRepeated && myTask == callBack
      ensures !myIsCanceled
    {
      myInterval, myIsRepeated, myTask := interval, isRepeated, callBack;
      myIsCanceled := false;
      new;
      ResetArriveTime(clock);
    }

    method ResetArriveTime(clock: Clock)
      modifies this`myArriveTime, clock
      ensures myArriveTime == clock.readings(old(clock.next)) + myInterval && clock.next == old(clock.next) + 1
    {
      var now := clock.GetNowMS();
      myArriveTime := now + myInterval;
    }
  }

  // ---------------------------------------------------------------------------------------------
  // The multimap

  datatype Entry = Entry(key: int, event: TimerEvent)

  ghost predicate Sorted(m: seq<Entry>) {
    forall i, j :: 0 <= i < j < |m| ==> m[i].key <= m[j].key
  }

  /** lower_bound and upper_bound. */
  function LowerBound(m: seq<Entry>, key: int): (i: nat)
    ensures i <= |m| && (forall j :: 0 <= j < i ==> m[j].key < key) && (i < |m| ==> key <= m[i].key)
  {
    if m == [] || key <= m[0].key then 0 else 1 + LowerBound(m[1..], key)
  }

  function UpperBound(m: seq<Entry>, key: int): (i: nat)
    ensures i <= |m| && (forall j :: 0 <= j < i ==> m[j].key <= key) && (i < |m| ==> key < m[i].key)
  {
    if m == [] || key < m[0].key then 0 else 1 + UpperBound(m[1..], key)
  }

  /** emplace: behind all entries with the same key. */
  function Inserted(m: seq<Entry>, e: Entry): (r: seq<Entry>)
    ensures |r| == |m| + 1
  {
    var k := UpperBound(m, e.key);
    m[..k] + [e] + m[k..]
  }

  lemma InsertedAt(m: seq<Entry>, e: Entry, j: nat)
    requires j <= |m|
    ensures var k := UpperBound(m, e.key);
      Inserted(m, e)[j] == if j < k then m[j] else if j == k then e else m[j - 1]
  {
    hide UpperBound;
  }

  lemma InsertedSorted(m: seq<Entry>, e: Entry)
    requires Sorted(m)
    ensures Sorted(Inserted(m, e))
    ensures Inserted(m, e)[0] == if m != [] && m[0].key <= e.key then m[0] else e
  {
    hide UpperBound, Inserted;
    var r := Inserted(m, e);
    var k := UpperBound(m, e.key);
    forall i, j | 0 <= i < j < |r|
      ensures r[i].key <= r[j].key
    {
      InsertedAt(m, e, i);
      InsertedAt(m, e, j);
    }
    InsertedAt(m, e, 0);
  }

  lemma InsertedKeepsAll(m: seq<Entry>, e: Entry)
    ensures multiset(Inserted(m, e)) == multiset(m) + multiset{e}
    ensures forall x :: x in Inserted(m, e) <==> x in m || x == e
  {
    var k := UpperBound(m, e.key);
    assert m == m[..k] + m[k..];
    assert forall x :: x in Inserted(m, e) <==> x in multiset(Inserted(m, e));
    assert forall x :: x in m <==> x in multiset(m);
  }

  /** Each event occurs in at most one entry. */
  ghost predicate Distinct(m: seq<Entry>) {
    forall i, j :: 0 <= i < j < |m| ==> m[i].event != m[j].event
  }

  ghost function EventsOf(m: seq<Entry>): set<TimerEvent> {
    set e | e in m :: e.event
  }

  predicate Holds(m: seq<Entry>, event: TimerEvent) {
    exists i :: 0 <= i < |m| && m[i].event == event
  }

  lemma InsertedDistinct(m: seq<Entry>, e: Entry)
    ensures Distinct(Inserted(m, e)) <==> Distinct(m) && !Holds(m, e.event)
  {
    hide UpperBound, Inserted;
    var r := Inserted(m, e);
    var k := UpperBound(m, e.key);
    InsertedAt(m, e, k);
    forall i | 0 <= i < |m|
      ensures r[if i < k then i else i + 1] == m[i]
    {
      InsertedAt(m, e, if i < k then i else i + 1);
    }
    if Distinct(m) && !Holds(m, e.event) {
      StillDistinct(m, e);
    }
  }

  lemma StillDistinct(m: seq<Entry>, e: Entry)
    requires Distinct(m) && !Holds(m, e.event)
    ensures Distinct(Inserted(m, e))
  {
    hide UpperBound, Inserted;
    var r := Inserted(m, e);
    forall i, j | 0 <= i < j < |r|
      ensures r[i].event != r[j].event
    {
      InsertedAt(m, e, i);
      InsertedAt(m, e, j);
    }
  }

  /** The events of the entries that are not cancelled, in order. */
  ghost function Live(es: seq<Entry>): seq<TimerEvent>
    reads set e | e in es :: e.event
    decreases |es|
  {
    if es == [] then []
    else
      var e := es[|es| - 1].event;
      Live(es[..|es| - 1]) + if e.myIsCanceled then [] else [e]
  }

  function Tasks(events: seq<TimerEvent>): seq<nat>
    decreases |events|
  {
    if events == [] then []
    else
      var e := events[|events| - 1];
      Tasks(events[..|events| - 1]) + if e.myTask.Some? then [e.myTask.value] else []
  }

  function Repeating(events: seq<TimerEvent>): seq<TimerEvent>
    decreases |events|
  {
    if events == [] then []
    else
      var e := events[|events| - 1];
      Repeating(events[..|events| - 1]) + if e.myIsRepeated then [e] else []
  }

  /** One emplace after another. */
  function AllInserted(m: seq<Entry>, es: seq<Entry>): seq<Entry>
    decreases |es|
  {
    if es == [] then m else Inserted(AllInserted(m, es[..|es| - 1]), es[|es| - 1])
  }

  /** The first occurrence of the entry erased. */
  function Without(m: seq<Entry>, e: Entry): seq<Entry> {
    if m == [] then []
    else if m[0] == e then m[1..]
    else [m[0]] + Without(m[1..], e)
  }

  lemma {:induction false} WithoutFirst(m: seq<Entry>, e: Entry, k: nat)
    requires k <= |m| && (forall j :: 0 <= j < k ==> m[j] != e) && (k < |m| ==> m[k] == e)
    ensures Without(m, e) == if k < |m| then m[..k] + m[k + 1..] else m
    decreases |m|
  {
    if k > 0 {
      WithoutFirst(m[1..], e, k - 1);
      assert m == [m[0]] + m[1..];
    }
  }

  lemma RemovedFacts(m: seq<Entry>, k: nat)
    requires k < |m| && Sorted(m)
    ensures var r := m[..k] + m[k + 1..];
      && Sorted(r) && (r != [] ==> m[0].key <= r[0].key) && (forall x :: x in r ==> x in m)
      && (Distinct(m) ==> Distinct(r) && !Holds(r, m[k].event))
  {
    var r := m[..k] + m[k + 1..];
    assert forall j :: 0 <= j < |r| ==> r[j] == m[if j < k then j else j + 1];
  }

  /** Erasing keeps the order and all other entries; where no event is in twice, the event is gone. */
  lemma WithoutFacts(m: seq<Entry>, e: Entry)
    requires Sorted(m)
    ensures var r := Without(m, e);
      && Sorted(r) && (forall x :: x in r ==> x in m) && (r != [] ==> m != [] && m[0].key <= r[0].key)
      && multiset(r) == multiset(m) - multiset{e}
      && (Distinct(m) ==> Distinct(r) && (e in m ==> !Holds(r, e.event)))
  {
    hide Sorted, Distinct, Without;
    var k := FirstOf(m, e);
    WithoutFirst(m, e, k);
    if k < |m| {
      RemovedFacts(m, k);
      RemovedOne(m, k);
    } else {
      assert e !in m;
    }
  }

  lemma RemovedOne(m: seq<Entry>, k: nat)
    requires k < |m|
    ensures multiset(m[..k] + m[k + 1..]) == multiset(m) - multiset{m[k]}
  {
    assert m == m[..k] + [m[k]] + m[k + 1..];
  }

  function FirstOf(m: seq<Entry>, e: Entry): (k: nat)
    ensures k <= |m| && (forall j :: 0 <= j < k ==> m[j] != e) && (k < |m| ==> m[k] == e)
  {
    if m == [] || m[0] == e then 0 else 1 + FirstOf(m[1..], e)
  }

  /** The entries of one event have one key. */
  ghost predicate SameKeys(m: seq<Entry>) {
    forall x, y :: x in m && y in m && x.event == y.event ==> x.key == y.key
  }

  predicate AllDifferent(events: seq<TimerEvent>) {
    forall i, j :: 0 <= i < j < |events| ==> events[i] != events[j]
  }

  /** The key of the last entry of the event. */
  function LastKey(es: seq<Entry>, event: TimerEvent): Option<int>
    decreases |es|
  {
    if es == [] then None
    else
      var last := es[|es| - 1];
      if last.event == event then Some(last.key) else LastKey(es[..|es| - 1], event)
  }

  lemma {:induction false} LastKeyIn(es: seq<Entry>, event: TimerEvent)
    ensures Holds(es, event) <==> LastKey(es, event).Some?
    ensures LastKey(es, event).Some? ==> Entry(LastKey(es, event).value, event) in es
    decreases |es|
  {
    if es != [] {
      var n := |es| - 1;
      LastKeyIn(es[..n], event);
      if Holds(es[..n], event) {
        var i :| 0 <= i < n && es[..n][i].event == event;
        assert es[i].event == event;
      }
      if Holds(es, event) && es[n].event != event {
        var i :| 0 <= i < n && es[i].event == event;
        assert es[..n][i].event == event;
      }
    }
  }

  // ---------------------------------------------------------------------------------------------
  // What has happened to events

  /** An event was added from outside, while it was in the map already (`again`) or not; or a pass of
      OnTimer that read the clock at `now` fired events. */
  datatype Mark = AddMark(event: TimerEvent, again: bool) | PassMark(fire: seq<TimerEvent>, now: int)

  predicate Concerns(mark: Mark, event: TimerEvent) {
    if mark.AddMark? then mark.event == event else event in mark.fire
  }

  /** The `now` of the event's last firing since it was last added from outside. */
  function LastFiring(log: seq<Mark>, event: TimerEvent): Option<int>
    decreases |log|
  {
    if log == [] then None
    else
      var last := log[|log| - 1];
      if !Concerns(last, event) then LastFiring(log[..|log| - 1], event)
      else if last.PassMark? then Some(last.now) else None
  }

  /** No event fires twice in a pass, and every firing is at least one interval after the firing of the
      same event before it. */
  ghost predicate SpacedLog(log: seq<Mark>) {
    forall j :: 0 <= j < |log| && log[j].PassMark? ==>
      AllDifferent(log[j].fire) && SpacedFrom(log[..j], log[j].fire, log[j].now)
  }

  ghost predicate SpacedFrom(log: seq<Mark>, fire: seq<TimerEvent>, now: int) {
    forall e :: e in fire && LastFiring(log, e).Some? ==> now - LastFiring(log, e).value >= e.myInterval
  }

  /** Every entry is due at least one interval after its event's last firing. */
  ghost predicate SpacedMap(log: seq<Mark>, m: seq<Entry>) {
    forall x :: x in m ==>
      var last := LastFiring(log, x.event);
      last.Some? ==> x.key >= last.value + x.event.myInterval
  }

  /** In a spaced log, two firings of one event between which nothing else happened to it are at least its
      interval apart. */
  lemma FiringsApart(log: seq<Mark>, i: nat, j: nat, event: TimerEvent)
    requires SpacedLog(log) && i < j < |log| && log[i].PassMark? && log[j].PassMark?
    requires event in log[i].fire && event in log[j].fire
    requires forall k :: i < k < j ==> !Concerns(log[k], event)
    ensures log[j].now - log[i].now >= event.myInterval
  {
    LastFiringIs(log[..j], i, event);
  }

  lemma {:induction false} LastFiringIs(log: seq<Mark>, i: nat, event: TimerEvent)
    requires i < |log| && log[i].PassMark? && event in log[i].fire
    requires forall k :: i < k < |log| ==> !Concerns(log[k], event)
    ensures LastFiring(log, event) == Some(log[i].now)
    decreases |log|
  {
    if i < |log| - 1 {
      LastFiringIs(log[..|log| - 1], i, event);
    }
  }

  lemma LastFiringAfter(log: seq<Mark>, mark: Mark, event: TimerEvent)
    ensures LastFiring(log + [mark], event) ==
      if !Concerns(mark, event) then LastFiring(log, event) else if mark.PassMark? then Some(mark.now) else None
  {
    assert (log + [mark])[..|log|] == log;
  }

  lemma SpacedSnoc(log: seq<Mark>, mark: Mark)
    requires SpacedLog(log)
    requires mark.PassMark? ==> AllDifferent(mark.fire) && SpacedFrom(log, mark.fire, mark.now)
    ensures SpacedLog(log + [mark])
  {
    hide AllDifferent, SpacedFrom;
    var l := log + [mark];
    assert l[..|log|] == log;
    assert forall j :: 0 <= j < |log| ==> l[..j] == log[..j];
  }

  /** A pass that fires only what is due spaces its firings. */
  lemma PassIsSpaced(log: seq<Mark>, m: seq<Entry>, fire: seq<TimerEvent>, now: int)
    requires SpacedLog(log) && SpacedMap(log, m) && AllDifferent(fire) && Due(m, fire, now)
    ensures SpacedLog(log + [PassMark(fire, now)])
  {
    SpacedSnoc(log, PassMark(fire, now));
  }

  /** All of these events have entries that are due. */
  ghost predicate Due(m: seq<Entry>, fire: seq<TimerEvent>, now: int) {
    forall e :: e in fire ==> exists x :: x in m && x.event == e && x.key <= now
  }

  // ---------------------------------------------------------------------------------------------
  // The timer

  class Timer {
    var myTimerEventMap: seq<Entry>
    const clock: Clock
    // the timer fd: whether it will expire and when, whether it is readable, and the last it_value
    var armed: bool
    var expiry: int
    var fired: bool
    var tvSec: int
    var tvNsec: int
    ghost var lastArm: int   // the reading at which it was last armed
    ghost var late: bool     // whether the first deadline had passed by then
    ghost var log: seq<Mark>

    ghost function Events(): set<TimerEvent>
      reads this
    {
      EventsOf(myTimerEventMap)
    }

    /** Index agreement: every entry's key is its event's deadline. */
    ghost predicate Indexed()
      reads this, Events()
    {
      Sorted(myTimerEventMap) && forall e :: e in myTimerEventMap ==> e.key == e.event.myArriveTime
    }

    /** ... and no event is in twice. */
    ghost predicate Valid()
      reads this, Events()
    {
      Indexed() && Distinct(myTimerEventMap)
    }

    /** The timer does not sleep past a deadline: unless a firing is still to be handled, it will expire by
        the earliest one; except that, where the first deadline had passed when it was last armed, it
        expires 100 ms after that. */
    ghost predicate WellArmed()
      reads this
    {
      myTimerEventMap != [] ==>
        fired || (armed && (expiry <= myTimerEventMap[0].key || (late && expiry == lastArm + 100)))
    }

    lemma IndexedMeans()
      ensures Indexed() <==>
        && Sorted(myTimerEventMap)
        && forall i :: 0 <= i < |myTimerEventMap| ==> myTimerEventMap[i].key == myTimerEventMap[i].event.myArriveTime
      ensures Valid() <==> Indexed() && Distinct(myTimerEventMap)
    {
      hide Sorted, Distinct;
      assert forall i :: 0 <= i < |myTimerEventMap| ==> myTimerEventMap[i] in myTimerEventMap;
    }

    lemma WellArmedMeans()
      ensures WellArmed() <==>
        myTimerEventMap == [] || fired ||
        (armed && (expiry <= myTimerEventMap[0].key || (late && expiry == lastArm + 100)))
    {
    }

    /** So far, firings of one event are spaced, and those to come will be. */
    ghost predicate Spaced()
      reads this
    {
      SpacedLog(log) && SpacedMap(log, myTimerEventMap)
    }

    constructor (clock: Clock)
      ensures this.clock == clock && myTimerEventMap == [] && Valid() && WellArmed() && log == [] && Spaced()
    {
      this.clock := clock;
      myTimerEventMap := [];
      armed, expiry, fired, tvSec, tvNsec, lastArm, late := false, 0, false, 0, 0, 0, false;
      log := [];
    }

    /** The kernel: an armed timer expires once. */
    method Expire()
      requires armed
      modifies this`armed, this`fired
      ensures fired && !armed && (old(WellArmed()) ==> WellArmed())
    {
      armed, fired := false, true;
    }

    /** Arms for the deadline of the first entry's event, which is the earliest where entries agree with
        their events. */
    method ResetTimerArriveTime()
      modifies this`armed, this`expiry, this`fired, this`tvSec, this`tvNsec, this`lastArm, this`late, clock
      ensures clock.next >= old(clock.next) && (Indexed() ==> WellArmed())
      ensures myTimerEventMap == [] ==>
        armed == old(armed) && expiry == old(expiry) && fired == old(fired) && clock.next == old(clock.next)
      ensures myTimerEventMap != [] ==>
        var deadline := myTimerEventMap[0].event.myArriveTime;
        && armed && !fired && lastArm == clock.readings(old(clock.next))
        && expiry == (if deadline > lastArm then deadline else lastArm + 100)
        && (late <==> deadline <= lastArm)
        && tvSec * 1000000000 + tvNsec == (expiry - lastArm) * 1000000
        && 0 <= tvSec && 0 <= tvNsec < 1000000000
    {
      if myTimerEventMap == [] {
        return;
      }
      var now := clock.GetNowMS();
      var interval;
      if myTimerEventMap[0].event.myArriveTime > now {
        interval := myTimerEventMap[0].event.myArriveTime - now;
      } else {
        interval := 100;
      }
      tvSec := interval / 1000;
      tvNsec := interval % 1000 * 1000000;
      SetTime(now, interval);
      late := myTimerEventMap[0].event.myArriveTime <= now;
    }

    /** timerfd_settime: arms the timer and clears an expiration nobody has read yet. */
    method SetTime(now: int, interval: int)
      modifies this`armed, this`expiry, this`fired, this`lastArm
      ensures armed && !fired && expiry == now + interval && lastArm == now
    {
      armed, fired, expiry, lastArm := true, false, now + interval, now;
    }

    /** Inserts behind equal deadlines. Nothing checks that the event is not in the map already. */
    method AddTimerEvent(timerEvent: TimerEvent)
      requires Sorted(myTimerEventMap)
      modifies this, clock
      ensures Sorted(myTimerEventMap) && clock.next >= old(clock.next) && log == old(log)
      ensures myTimerEventMap == Inserted(old(myTimerEventMap), Entry(timerEvent.myArriveTime, timerEvent))
      ensures Indexed() <==> old(Indexed())
      ensures Valid() <==> old(Valid()) && !old(Holds(myTimerEventMap, timerEvent))
      ensures Events() <= old(Events()) + {timerEvent}
      ensures old(Indexed() && WellArmed()) ==> WellArmed()
      ensures old(myTimerEventMap) != [] && old(myTimerEventMap[0].event.myArriveTime) <= timerEvent.myArriveTime ==>
        unchanged(this`armed, this`expiry, this`fired, this`lastArm, this`late)
    {
      hide Inserted, EventsOf;
      var needResetTimerfd := false;
      if myTimerEventMap == [] {
        needResetTimerfd := true;
      } else if myTimerEventMap[0].event.myArriveTime > timerEvent.myArriveTime {
        needResetTimerfd := true;
      }
      var e := Entry(timerEvent.myArriveTime, timerEvent);
      InsertedSorted(myTimerEventMap, e);
      InsertedDistinct(myTimerEventMap, e);
      InsertedKeepsAll(myTimerEventMap, e);
      InsertedEvents(myTimerEventMap, e);
      myTimerEventMap := Inserted(myTimerEventMap, e);
      if needResetTimerfd {
        ResetTimerArriveTime();
      }
    }

    method FindIn(begin: nat, end: nat, timerEvent: TimerEvent) returns (it: nat)
      requires begin <= end <= |myTimerEventMap|
      ensures begin <= it <= end && (it < end ==> myTimerEventMap[it].event == timerEvent)
      ensures forall j :: begin <= j < it ==> myTimerEventMap[j].event != timerEvent
    {
      it := begin;
      while it != end
        invariant begin <= it <= end
        invariant forall j :: begin <= j < it ==> myTimerEventMap[j].event != timerEvent
      {
        if myTimerEventMap[it].event == timerEvent {
          return;
        }
        it := it + 1;
      }
    }

    /** Erases the first entry of the event at its deadline and nothing else, also if the event repeats and
        has just fired. In a valid map that is its only entry. */
    method DeleteTimerEvent(timerEvent: TimerEvent)
      requires Sorted(myTimerEventMap)
      modifies this`myTimerEventMap, timerEvent`myIsCanceled
      ensures Sorted(myTimerEventMap) && timerEvent.myIsCanceled
      ensures myTimerEventMap == Without(old(myTimerEventMap), Entry(timerEvent.myArriveTime, timerEvent))
      ensures Events() <= old(Events())
      ensures old(Indexed()) ==> Indexed()
      ensures old(Valid()) ==> Valid() && !Holds(myTimerEventMap, timerEvent)
      ensures old(WellArmed()) ==> WellArmed()
      ensures old(Spaced()) ==> Spaced()
    {
      hide Without, Sorted, Distinct, Holds, SpacedMap, SpacedLog, EventsOf;
      timerEvent.myIsCanceled := true;
      ghost var m, e := myTimerEventMap, Entry(timerEvent.myArriveTime, timerEvent);
      EraseEntry(timerEvent);
      WithoutFacts(m, e);
      FewerEntries(m, myTimerEventMap, log);
      if e !in m && Holds(m, timerEvent) {
        HeldAtKey(m, e);
      }
    }

    /** The search among the entries with the event's deadline, and the erase. */
    method EraseEntry(timerEvent: TimerEvent)
      requires Sorted(myTimerEventMap)
      modifies this`myTimerEventMap
      ensures myTimerEventMap == Without(old(myTimerEventMap), Entry(timerEvent.myArriveTime, timerEvent))
    {
      hide LowerBound, UpperBound, Without, Sorted;
      ghost var m, e := myTimerEventMap, Entry(timerEvent.myArriveTime, timerEvent);
      BetweenBounds(m, e);
      var begin := LowerBound(myTimerEventMap, timerEvent.myArriveTime);
      var end := UpperBound(myTimerEventMap, timerEvent.myArriveTime);
      var it := FindIn(begin, end, timerEvent);
      WithoutFirst(m, e, if it != end then it else |m|);
      if it != end {
        myTimerEventMap := myTimerEventMap[..it] + myTimerEventMap[it + 1..];
      }
    }

    /** One event that repeats gets a new deadline and goes back in. */
    method Reschedule(e: TimerEvent)
      requires Sorted(myTimerEventMap)
      modifies this, clock, e`myArriveTime
      ensures Sorted(myTimerEventMap) && clock.next > old(clock.next) && log == old(log)
      ensures e.myArriveTime == clock.readings(old(clock.next)) + e.myInterval
      ensures myTimerEventMap == Inserted(old(myTimerEventMap), Entry(e.myArriveTime, e))
    {
      e.ResetArriveTime(clock);
      AddTimerEvent(e);
    }

    /** The second loop of OnTimer. */
    method Readd(tmpTEPVec: seq<TimerEvent>) returns (ghost readded: seq<Entry>, ghost ticks: seq<nat>)
      requires Sorted(myTimerEventMap)
      modifies this, clock, (set e | e in tmpTEPVec)`myArriveTime
      ensures Sorted(myTimerEventMap) && log == old(log)
      ensures myTimerEventMap == AllInserted(old(myTimerEventMap), readded)
      ensures Rescheduled(readded, Repeating(tmpTEPVec), clock, ticks, old(clock.next), clock.next)
      ensures forall e: TimerEvent :: e in tmpTEPVec ==>
        e.myArriveTime == if LastKey(readded, e).Some? then LastKey(readded, e).value else old(e.myArriveTime)
    {
      hide Inserted, Repeating, AllInserted, LastKey, Sorted, Rescheduled;
      readded, ticks := [], [];
      RescheduledNone(myTimerEventMap, tmpTEPVec, clock, clock.next);
      for i := 0 to |tmpTEPVec|
        invariant Sorted(myTimerEventMap) && log == old(log)
        invariant myTimerEventMap == AllInserted(old(myTimerEventMap), readded)
        invariant Rescheduled(readded, Repeating(tmpTEPVec[..i]), clock, ticks, old(clock.next), clock.next)
        invariant forall e: TimerEvent :: e in tmpTEPVec ==>
          e.myArriveTime == if LastKey(readded, e).Some? then LastKey(readded, e).value else old(e.myArriveTime)
      {
        var e := tmpTEPVec[i];
        ghost var tick := clock.next;
        RepeatingUpTo(tmpTEPVec, i);
        if e.myIsRepeated {
          Reschedule(e);
          ghost var x := Entry(e.myArriveTime, e);
          RescheduledSnoc(old(myTimerEventMap), readded, Repeating(tmpTEPVec[..i]), x, clock, ticks, old(clock.next),
                          tick, clock.next);
          LastKeySnoc(readded, x);
          readded, ticks := readded + [x], ticks + [tick];
        }
      }
      assert tmpTEPVec[..|tmpTEPVec|] == tmpTEPVec;
    }

    /** Collects the entries that are due and not cancelled, and takes everything due off the map. */
    method CollectDue(now: int) returns (tmpTEPVec: seq<TimerEvent>, tmpTask: seq<nat>)
      requires Sorted(myTimerEventMap)
      modifies this`myTimerEventMap
      ensures var m := old(myTimerEventMap); var k := UpperBound(m, now);
        myTimerEventMap == m[k..] && tmpTEPVec == Live(m[..k]) && tmpTask == Tasks(tmpTEPVec)
      ensures Sorted(myTimerEventMap)
    {
      hide Live, Tasks, UpperBound;
      ghost var m := myTimerEventMap;
      tmpTEPVec, tmpTask := [], [];
      LiveNone(m);
      var it := 0;
      while it != |myTimerEventMap|
        invariant it <= |m| && myTimerEventMap == m
        invariant forall j :: 0 <= j < it ==> m[j].key <= now
        invariant tmpTEPVec == Live(m[..it]) && tmpTask == Tasks(tmpTEPVec)
      {
        if myTimerEventMap[it].key <= now {
          var event := myTimerEventMap[it].event;
          LiveUpTo(m, it);
          if !event.myIsCanceled {
            TasksSnoc(tmpTEPVec, event);
            tmpTEPVec := tmpTEPVec + [event];
            if event.myTask.Some? {
              tmpTask := tmpTask + [event.myTask.value];
            }
          }
        } else {
          break;
        }
        it := it + 1;
      }
      BoundIs(m, now, it);
      myTimerEventMap := myTimerEventMap[it..];
    }

    /** OnTimer between the reading of the clock and the re-arming: both loops. */
    method FireDue(now: int)
      returns (fire: seq<TimerEvent>, ghost readded: seq<Entry>, ghost ticks: seq<nat>, ran: seq<nat>)
      requires Sorted(myTimerEventMap)
      modifies this, clock, Events()`myArriveTime
      ensures var m := old(myTimerEventMap); var k := UpperBound(m, now);
        && fire == old(Live(myTimerEventMap[..k])) && ran == Tasks(fire)
        && myTimerEventMap == AllInserted(m[k..], readded)
        && Rescheduled(readded, Repeating(fire), clock, ticks, old(clock.next), clock.next)
      ensures forall e :: e in old(Events()) ==>
        e.myArriveTime ==
        if e in fire && LastKey(readded, e).Some? then LastKey(readded, e).value else old(e.myArriveTime)
      ensures Sorted(myTimerEventMap) && Events() <= old(Events()) && log == old(log)
      ensures old(Indexed()) ==> (Indexed() <==> SameKeys(readded))
    {
      hide Live, Tasks, Repeating, AllInserted, UpperBound, Rescheduled, Sorted, SameKeys, LastKey, Due, AllDifferent;
      var tmpTEPVec;
      tmpTEPVec, ran := CollectDue(now);
      fire := tmpTEPVec;
      ghost var m, k, lo := old(myTimerEventMap), UpperBound(old(myTimerEventMap), now), clock.next;
      LiveFacts(m, k, now);
      if old(Indexed()) {
        IndexedHasSameKeys(m);
        LaterNotFired(m, k, fire, now);
      }
      readded, ticks := Readd(tmpTEPVec);
      StaysInside(m, k, fire, readded, ticks, lo);
      if old(Indexed()) {
        AgreesExactly(m[k..], fire, readded, ticks, lo);
      }
    }

    /** The same, with the record of what has fired. `next` is the tick of the reading `now`. */
    method FireAndRecord(now: int, ghost next: nat)
      returns (fire: seq<TimerEvent>, ghost readded: seq<Entry>, ghost ticks: seq<nat>, ran: seq<nat>)
      requires Sorted(myTimerEventMap) && now == clock.readings(next) && clock.next == next + 1
      modifies this, clock, Events()`myArriveTime
      ensures var m := old(myTimerEventMap); var k := UpperBound(m, now);
        && fire == old(Live(myTimerEventMap[..k])) && ran == Tasks(fire)
        && myTimerEventMap == AllInserted(m[k..], readded)
        && Rescheduled(readded, Repeating(fire), clock, ticks, next + 1, clock.next)
      ensures forall e :: e in old(Events()) ==>
        e.myArriveTime ==
        if e in fire && LastKey(readded, e).Some? then LastKey(readded, e).value else old(e.myArriveTime)
      ensures Sorted(myTimerEventMap) && Events() <= old(Events()) && log == old(log) + [PassMark(fire, now)]
      ensures old(Indexed()) ==> (Indexed() <==> SameKeys(readded))
      ensures old(Valid()) ==> Valid()
      ensures old(Valid() && Spaced()) ==> SpacedLog(log)
      ensures old(Valid() && Spaced()) && clock.Monotone() ==> Spaced()
    {
      hide Live, Tasks, Repeating, AllInserted, UpperBound, Rescheduled, Distinct, Sorted, Holds;
      hide Clock.Monotone, Clock.StrictlyIncreasing, LastFiring, SpacedLog, SpacedMap, SameKeys, AllDifferent, LastKey;
      hide Due;
      ghost var m, k := myTimerEventMap, UpperBound(myTimerEventMap, now);
      LiveFacts(m, k, now);
      if Indexed() {
        IndexedHasSameKeys(m);
        LaterNotFired(m, k, Live(m[..k]), now);
      }
      fire, readded, ticks, ran := FireDue(now);
      log := log + [PassMark(fire, now)];
      if old(Valid()) {
        RepeatingDiffers(fire);
        ReaddedKeys(readded, Repeating(fire), clock, ticks, next + 1, clock.next);
        StaysDistinct(m, k, fire, readded, ticks, next + 1);
        if old(Spaced()) {
          PassIsSpaced(old(log), m, fire, now);
          if clock.Monotone() {
            SpacedAgain(m, k, fire, readded, ticks, old(log), next);
          }
        }
      }
    }

    /** A pass of OnTimer, on any map. The callbacks that run are exactly those of the entries due at `now`
        and not cancelled, in order, once each; what is left are exactly the later entries and, behind
        equal keys, an entry for each firing of an event that repeats, one interval after a reading taken
        since. Where entries agreed with their events they still do, unless an event that repeats has
        fired twice and was given different deadlines; with a strictly increasing clock, unless it has
        fired twice. */
    method OnTimer()
      returns (ghost now: int, ghost fire: seq<TimerEvent>, ghost readded: seq<Entry>, ghost ticks: seq<nat>,
               ran: seq<nat>)
      requires Sorted(myTimerEventMap)
      modifies this, clock, Events()`myArriveTime
      ensures Sorted(myTimerEventMap) && now == clock.readings(old(clock.next))
      ensures var m := old(myTimerEventMap); var k := UpperBound(m, now);
        && fire == old(Live(myTimerEventMap[..k])) && ran == Tasks(fire)
        && myTimerEventMap == AllInserted(m[k..], readded)
        && Rescheduled(readded, Repeating(fire), clock, ticks, old(clock.next) + 1, clock.next)
      ensures forall e :: e in old(Events()) ==>
        e.myArriveTime ==
        if e in fire && LastKey(readded, e).Some? then LastKey(readded, e).value else old(e.myArriveTime)
      ensures Events() <= old(Events()) && log == old(log) + [PassMark(fire, now)]
      ensures old(Indexed()) ==> (Indexed() <==> SameKeys(readded))
      ensures old(Indexed()) && clock.StrictlyIncreasing() ==> (Indexed() <==> AllDifferent(Repeating(fire)))
      ensures old(Indexed()) && AllDifferent(Repeating(fire)) ==> Indexed()
      ensures Indexed() ==> WellArmed()
      ensures old(Valid()) ==> Valid()
      ensures old(Valid() && Spaced()) ==> SpacedLog(log)
      ensures old(Valid() && Spaced()) && clock.Monotone() ==> Spaced()
    {
      hide Live, Tasks, Repeating, AllInserted, UpperBound, Rescheduled, Distinct, Sorted, Holds, Timer.WellArmed;
      hide Clock.Monotone, Clock.StrictlyIncreasing, LastFiring, SpacedLog, SpacedMap, SameKeys, AllDifferent, LastKey;
      hide Due;
      fired := false;
      ghost var next := clock.next;
      var now' := clock.GetNowMS();
      now := now';
      fire, readded, ticks, ran := FireAndRecord(now', next);
      ghost var hi := clock.next;
      ReaddedKeys(readded, Repeating(fire), clock, ticks, next + 1, hi);
      ResetTimerArriveTime();
      RescheduledBy(readded, Repeating(fire), clock, ticks, next + 1, hi, clock.next);
    }

    /** Read off while entries agree with their events. */
    lemma IndexedHasSameKeys(m: seq<Entry>)
      requires forall x :: x in m ==> x.key == x.event.myArriveTime
      ensures SameKeys(m)
    {
    }

    lemma StaysInside(m: seq<Entry>, k: nat, fire: seq<TimerEvent>, readded: seq<Entry>, ticks: seq<nat>, lo: nat)
      requires k <= |m| && myTimerEventMap == AllInserted(m[k..], readded)
      requires Rescheduled(readded, Repeating(fire), clock, ticks, lo, clock.next)
      requires forall e :: e in fire ==> e in EventsOf(m)
      ensures Events() <= EventsOf(m)
    {
      AllInsertedIn(m[k..], readded);
      forall x | x in readded
        ensures x.event in fire
      {
        RescheduledIn(readded, fire, clock, ticks, lo, clock.next, x);
      }
    }

    /** After the pass entries agree with their events exactly when those re-added for one event agree. */
    lemma AgreesExactly(later: seq<Entry>, fire: seq<TimerEvent>, readded: seq<Entry>, ticks: seq<nat>, lo: nat)
      requires Sorted(myTimerEventMap) && myTimerEventMap == AllInserted(later, readded)
      requires Rescheduled(readded, Repeating(fire), clock, ticks, lo, clock.next)
      requires forall x :: x in later ==> x.event !in fire && x.key == x.event.myArriveTime
      requires forall e: TimerEvent :: e in fire && LastKey(readded, e).Some? ==>
        e.myArriveTime == LastKey(readded, e).value
      ensures Indexed() <==> SameKeys(readded)
    {
      hide AllInserted, Rescheduled, LastKey, Sorted;
      AllInsertedIn(later, readded);
      forall x | x in readded
        ensures Entry(x.event.myArriveTime, x.event) in readded
      {
        RescheduledIn(readded, fire, clock, ticks, lo, clock.next, x);
        LastKeyIn(readded, x.event);
        HoldsItsEvents(readded, x);
      }
    }

    lemma StaysDistinct(m: seq<Entry>, k: nat, fire: seq<TimerEvent>, readded: seq<Entry>, ticks: seq<nat>, lo: nat)
      requires k <= |m| && Distinct(m) && myTimerEventMap == AllInserted(m[k..], readded)
      requires Rescheduled(readded, Repeating(fire), clock, ticks, lo, clock.next)
      requires AllDifferent(Repeating(fire)) && forall x :: x in m[k..] ==> x.event !in fire
      ensures Distinct(myTimerEventMap)
    {
      hide AllInserted;
      forall x | x in readded
        ensures !Holds(m[k..], x.event)
      {
        RescheduledIn(readded, fire, clock, ticks, lo, clock.next, x);
      }
      AllInsertedDistinct(m[k..], readded);
    }

    lemma SpacedAgain(
        m: seq<Entry>, k: nat, fire: seq<TimerEvent>, readded: seq<Entry>, ticks: seq<nat>, log: seq<Mark>, next: nat)
      requires clock.Monotone() && k <= |m| && SpacedMap(log, m)
      requires myTimerEventMap == AllInserted(m[k..], readded)
      requires Rescheduled(readded, Repeating(fire), clock, ticks, next + 1, clock.next)
      requires forall x :: x in m[k..] ==> x in m && x.event !in fire
      ensures SpacedMap(log + [PassMark(fire, clock.readings(next))], myTimerEventMap)
    {
      hide AllInserted, LastFiring, Rescheduled, Clock.Monotone;
      var mark := PassMark(fire, clock.readings(next));
      AllInsertedIn(m[k..], readded);
      forall x | x in myTimerEventMap && LastFiring(log + [mark], x.event).Some?
        ensures x.key >= LastFiring(log + [mark], x.event).value + x.event.myInterval
      {
        LastFiringAfter(log, mark, x.event);
        if x in readded {
          RescheduledIn(readded, fire, clock, ticks, next + 1, clock.next, x);
          LaterReadings(readded, fire, clock, ticks, next, x);
        }
      }
    }

    ghost method Record(mark: Mark)
      modifies this`log
      ensures log == old(log) + [mark]
      ensures Indexed() == old(Indexed()) && Valid() == old(Valid()) && WellArmed() == old(WellArmed())
    {
      log := log + [mark];
    }
  }

  ghost predicate UpperBoundIs(m: seq<Entry>, key: int, it: nat) {
    it <= |m| && (forall j :: 0 <= j < it ==> m[j].key <= key) && (it < |m| ==> key < m[it].key)
  }

  lemma BoundIs(m: seq<Entry>, key: int, it: nat)
    requires Sorted(m) && UpperBoundIs(m, key, it)
    ensures UpperBound(m, key) == it
  {
  }

  lemma {:induction false} LiveIn(es: seq<Entry>)
    ensures forall e :: e in Live(es) ==> Holds(es, e)
    ensures Distinct(es) ==> AllDifferent(Live(es))
    decreases |es|
  {
    if es != [] {
      var n := |es| - 1;
      LiveIn(es[..n]);
      forall e | e in Live(es)
        ensures Holds(es, e)
      {
        if Holds(es[..n], e) {
          var i :| 0 <= i < n && es[..n][i].event == e;
          assert es[i].event == e;
        } else {
          assert es[n].event == e;
        }
      }
      assert Distinct(es) ==> !Holds(es[..n], es[n].event);
    }
  }

  /** What fires is due, and has no later entry if no event is in twice. */
  lemma LiveFacts(m: seq<Entry>, k: nat, now: int)
    requires k == UpperBound(m, now)
    ensures Due(m, Live(m[..k]), now) && forall e :: e in Live(m[..k]) ==> e in EventsOf(m)
    ensures forall x :: x in m[k..] ==> x in m
    ensures Sorted(m) ==> forall x :: x in m[k..] ==> x.key > now
    ensures Distinct(m) ==> AllDifferent(Live(m[..k]))
  {
    hide UpperBound, Live;
    LiveIn(m[..k]);
    forall e | Holds(m[..k], e)
      ensures e in EventsOf(m) && exists x :: x in m && x.event == e && x.key <= now
    {
      var i :| 0 <= i < k && m[..k][i].event == e;
      assert m[i] in m && m[i].event == e;
    }
    if Distinct(m) {
      assert Distinct(m[..k]);
    }
  }

  lemma LaterNotFired(m: seq<Entry>, k: nat, fire: seq<TimerEvent>, now: int)
    requires k <= |m| && SameKeys(m) && Due(m, fire, now)
    requires forall x :: x in m[k..] ==> x in m && x.key > now
    ensures forall x :: x in m[k..] ==> x.event !in fire
  {
  }

  lemma {:induction false} RepeatingDiffers(events: seq<TimerEvent>)
    requires AllDifferent(events)
    ensures AllDifferent(Repeating(events))
    decreases |events|
  {
    if events != [] {
      var n := |events| - 1;
      RepeatingDiffers(events[..n]);
      RepeatingIn(events[..n]);
      assert events[n] !in events[..n];
    }
  }

  lemma {:induction false} AllInsertedDistinct(m: seq<Entry>, es: seq<Entry>)
    requires Distinct(m) && Distinct(es) && forall x :: x in es ==> !Holds(m, x.event)
    ensures Distinct(AllInserted(m, es))
    decreases |es|
  {
    hide Inserted;
    if es != [] {
      var n := |es| - 1;
      AllInsertedDistinct(m, es[..n]);
      var u := AllInserted(m, es[..n]);
      assert es[n] in es;
      NotHeld(m, es, n);
      InsertedDistinct(u, es[n]);
    }
  }

  lemma NotHeld(m: seq<Entry>, es: seq<Entry>, n: nat)
    requires n < |es| && Distinct(es) && !Holds(m, es[n].event)
    ensures !Holds(AllInserted(m, es[..n]), es[n].event)
  {
    hide AllInserted;
    var u := AllInserted(m, es[..n]);
    AllInsertedIn(m, es[..n]);
    forall i | 0 <= i < |u|
      ensures u[i].event != es[n].event
    {
      assert u[i] in u;
    }
  }

  lemma HoldsItsEvents(m: seq<Entry>, x: Entry)
    requires x in m
    ensures Holds(m, x.event)
  {
  }

  lemma {:induction false} AllInsertedIn(m: seq<Entry>, es: seq<Entry>)
    ensures forall x :: x in AllInserted(m, es) <==> x in m || x in es
    decreases |es|
  {
    if es != [] {
      var n := |es| - 1;
      AllInsertedIn(m, es[..n]);
      InsertedKeepsAll(AllInserted(m, es[..n]), es[n]);
    }
  }

  lemma {:induction false} RepeatingIn(events: seq<TimerEvent>)
    ensures forall e :: e in Repeating(events) ==> e in events
    decreases |events|
  {
    if events != [] {
      RepeatingIn(events[..|events| - 1]);
    }
  }

  lemma RescheduledIn(
      readded: seq<Entry>, fire: seq<TimerEvent>, clock: Clock, ticks: seq<nat>, lo: nat, hi: nat, x: Entry)
    requires Rescheduled(readded, Repeating(fire), clock, ticks, lo, hi) && x in readded
    ensures x.event in fire
  {
    RepeatingIn(fire);
  }

  /** With a clock that never goes back, a rescheduled event is due at least one interval after `now`. */
  lemma LaterReadings(
      readded: seq<Entry>, fire: seq<TimerEvent>, clock: Clock, ticks: seq<nat>, next: nat, x: Entry)
    requires Rescheduled(readded, Repeating(fire), clock, ticks, next + 1, clock.next) && clock.Monotone()
    requires x in readded
    ensures x.key >= clock.readings(next) + x.event.myInterval
  {
    var i :| 0 <= i < |readded| && readded[i] == x;
    assert next <= ticks[i];
  }

  /** Entries re-added for one event have one key if no event is re-added twice; with a strictly increasing
      clock, only then. */
  lemma ReaddedKeys(es: seq<Entry>, events: seq<TimerEvent>, clock: Clock, ticks: seq<nat>, lo: nat, hi: nat)
    requires Rescheduled(es, events, clock, ticks, lo, hi)
    ensures AllDifferent(events) ==> SameKeys(es)
    ensures clock.StrictlyIncreasing() ==> (SameKeys(es) <==> AllDifferent(events))
  {
    if clock.StrictlyIncreasing() && SameKeys(es) {
      forall i, j | 0 <= i < j < |events|
        ensures events[i] != events[j]
      {
        assert es[i] in es && es[j] in es;
        assert clock.readings(ticks[i]) < clock.readings(ticks[j]);
      }
    }
  }

  lemma LiveNone(m: seq<Entry>)
    ensures Live(m[..0]) == [] && Tasks([]) == []
  {
    assert m[..0] == [];
  }

  lemma LiveUpTo(m: seq<Entry>, i: nat)
    requires i < |m|
    ensures Live(m[..i + 1]) ==
      if m[i].event.myIsCanceled then Live(m[..i]) else Live(m[..i]) + [m[i].event]
  {
    assert m[..i + 1][..i] == m[..i];
  }

  lemma TasksSnoc(events: seq<TimerEvent>, e: TimerEvent)
    ensures Tasks(events + [e]) ==
      if e.myTask.Some? then Tasks(events) + [e.myTask.value] else Tasks(events)
  {
    assert (events + [e])[..|events|] == events;
  }

  /** The entries are those of the events, each due one interval after a reading of the clock, taken at
      later and later ticks. */
  ghost predicate Rescheduled(
      es: seq<Entry>, events: seq<TimerEvent>, clock: Clock, ticks: seq<nat>, lo: nat, hi: nat)
  {
    && |es| == |events| == |ticks| && lo <= hi
    && (forall i :: 0 <= i < |es| ==>
          lo <= ticks[i] < hi && es[i] == Entry(clock.readings(ticks[i]) + events[i].myInterval, events[i]))
    && forall i, j :: 0 <= i < j < |es| ==> ticks[i] < ticks[j]
  }

  lemma RescheduledNone(m: seq<Entry>, events: seq<TimerEvent>, clock: Clock, lo: nat)
    ensures Rescheduled([], Repeating(events[..0]), clock, [], lo, lo) && AllInserted(m, []) == m
    ensures forall e :: LastKey([], e) == None
  {
    assert events[..0] == [];
  }

  lemma RescheduledSnoc(
      m: seq<Entry>, es: seq<Entry>, events: seq<TimerEvent>, x: Entry, clock: Clock, ticks: seq<nat>,
      lo: nat, tick: nat, hi: nat)
    requires Rescheduled(es, events, clock, ticks, lo, tick) && tick < hi
    requires x.key == clock.readings(tick) + x.event.myInterval
    ensures Rescheduled(es + [x], events + [x.event], clock, ticks + [tick], lo, hi)
    ensures AllInserted(m, es + [x]) == Inserted(AllInserted(m, es), x)
  {
    hide Inserted;
    assert (es + [x])[..|es|] == es;
  }

  lemma RescheduledBy(
      es: seq<Entry>, events: seq<TimerEvent>, clock: Clock, ticks: seq<nat>, lo: nat, hi: nat, later: nat)
    requires Rescheduled(es, events, clock, ticks, lo, hi) && hi <= later
    ensures Rescheduled(es, events, clock, ticks, lo, later)
  {
  }

  lemma LastKeySnoc(es: seq<Entry>, x: Entry)
    ensures forall e :: LastKey(es + [x], e) == if x.event == e then Some(x.key) else LastKey(es, e)
  {
    assert (es + [x])[..|es|] == es;
  }

  lemma RepeatingUpTo(events: seq<TimerEvent>, i: nat)
    requires i < |events|
    ensures Repeating(events[..i + 1]) ==
      if events[i].myIsRepeated then Repeating(events[..i]) + [events[i]] else Repeating(events[..i])
  {
    assert events[..i + 1][..i] == events[..i];
  }

  lemma InsertedEvents(m: seq<Entry>, e: Entry)
    ensures EventsOf(Inserted(m, e)) <= EventsOf(m) + {e.event}
  {
    hide Inserted;
    InsertedKeepsAll(m, e);
    forall v | v in EventsOf(Inserted(m, e))
      ensures v in EventsOf(m) + {e.event}
    {
      var x :| x in Inserted(m, e) && x.event == v;
      assert x in m || x == e;
    }
  }

  lemma FewerEntries(m: seq<Entry>, r: seq<Entry>, log: seq<Mark>)
    requires forall x :: x in r ==> x in m
    ensures EventsOf(r) <= EventsOf(m) && (SpacedMap(log, m) ==> SpacedMap(log, r))
    ensures forall event :: Holds(r, event) ==> Holds(m, event)
  {
    forall event | Holds(r, event)
      ensures Holds(m, event)
    {
      var i :| 0 <= i < |r| && r[i].event == event;
      assert r[i] in m;
    }
  }

  lemma HeldAtKey(m: seq<Entry>, e: Entry)
    requires Holds(m, e.event) && e !in m
    ensures exists x :: x in m && x.event == e.event && x.key != e.key
  {
    var i :| 0 <= i < |m| && m[i].event == e.event;
    assert m[i] in m && m[i] != e;
  }

  lemma BetweenBounds(m: seq<Entry>, e: Entry)
    requires Sorted(m)
    ensures LowerBound(m, e.key) <= UpperBound(m, e.key)
    ensures forall j :: 0 <= j < |m| ==>
      (m[j].key == e.key <==> LowerBound(m, e.key) <= j < UpperBound(m, e.key))
  {
    hide LowerBound, UpperBound;
  }

  /** Inserting one after the other loses nothing and adds nothing else. */
  lemma {:induction false} AllInsertedKeepsAll(m: seq<Entry>, es: seq<Entry>)
    ensures multiset(AllInserted(m, es)) == multiset(m) + multiset(es)
    decreases |es|
  {
    hide Inserted;
    if es != [] {
      var n := |es| - 1;
      AllInsertedKeepsAll(m, es[..n]);
      InsertedKeepsAll(AllInserted(m, es[..n]), es[n]);
      assert es == es[..n] + [es[n]];
    }
  }

  // ---------------------------------------------------------------------------------------------
  // Runs

  datatype Op = Add(event: TimerEvent) | Delete(event: TimerEvent) | Expire | Pass

  ghost function EventsIn(ops: seq<Op>): set<TimerEvent> {
    set op | op in ops && (op.Add? || op.Delete?) :: op.event
  }

  /** What the marks from `from` on say: no event was added while it was in the map. */
  ghost predicate NoneAgain(log: seq<Mark>, from: nat) {
    forall i :: from <= i < |log| && log[i].AddMark? ==> !log[i].again
  }

  /** No pass fired an event that repeats twice. */
  ghost predicate NoneTwice(log: seq<Mark>, from: nat) {
    forall i :: from <= i < |log| && log[i].PassMark? ==> AllDifferent(Repeating(log[i].fire))
  }

  /** One operation, on any map. */
  method Do(timer: Timer, op: Op)
    requires Sorted(timer.myTimerEventMap)
    modifies timer, timer.clock, timer.Events() + EventsIn([op])
    ensures Sorted(timer.myTimerEventMap) && timer.Events() <= old(timer.Events()) + EventsIn([op])
    ensures match op
      case Add(event) => timer.log == old(timer.log) + [AddMark(event, old(Holds(timer.myTimerEventMap, event)))]
      case Pass =>
        var now := timer.clock.readings(old(timer.clock.next));
        var fire := old(Live(timer.myTimerEventMap[..UpperBound(timer.myTimerEventMap, now)]));
        timer.log == old(timer.log) + [PassMark(fire, now)]
      case _ => timer.log == old(timer.log)
    ensures old(timer.Indexed() && timer.WellArmed()) ==>
              (op.Pass? ==> AllDifferent(Repeating(timer.log[|old(timer.log)|].fire))) ==>
                timer.Indexed() && timer.WellArmed()
    ensures old(timer.Valid()) && (op.Add? ==> !old(Holds(timer.myTimerEventMap, op.event))) ==>
              timer.Valid() && (old(timer.WellArmed()) ==> timer.WellArmed()) &&
              (old(timer.Spaced()) && timer.clock.Monotone() ==> timer.Spaced())
  {
    hide Timer.WellArmed, Inserted, Without, Holds, LastFiring, SpacedMap, SpacedLog, Clock.Monotone;
    hide Live, UpperBound, Sorted, Distinct, AllDifferent;
    assert op in [op];
    ghost var n := |timer.log|;
    match op {
      case Add(event) =>
        assert event in EventsIn([op]);
        ghost var e, again := Entry(event.myArriveTime, event), Holds(timer.myTimerEventMap, event);
        AdditionIsSpaced(timer.log, timer.myTimerEventMap, e);
        timer.AddTimerEvent(event);
        timer.Record(AddMark(event, again));
        assert timer.log[n] == AddMark(event, again);
      case Delete(event) =>
        timer.DeleteTimerEvent(event);
      case Expire =>
        if timer.armed {
          timer.Expire();
        }
      case Pass =>
        var _, fire, _, _, _ := timer.OnTimer();
        assert timer.log[n].fire == fire;
    }
  }

  /** Any additions, deletions, expirations and passes, in any order. If no pass fires an event that repeats
      twice, entries agree with their events at the end, and no deadline is slept past. If no event is
      added while it is in the map, none is ever in twice, and, with a clock that never goes back, firings
      of one event are at least its interval apart. */
  method Drive(timer: Timer, ops: seq<Op>)
    requires timer.Valid() && timer.WellArmed()
    modifies timer, timer.clock, timer.Events() + EventsIn(ops)
    ensures Sorted(timer.myTimerEventMap) && old(timer.log) <= timer.log
    ensures (forall i :: |old(timer.log)| <= i < |timer.log| && timer.log[i].PassMark? ==>
               AllDifferent(Repeating(timer.log[i].fire))) ==>
              timer.Indexed() && timer.WellArmed()
    ensures (forall i :: |old(timer.log)| <= i < |timer.log| && timer.log[i].AddMark? ==> !timer.log[i].again) ==>
              timer.Valid() && timer.WellArmed() &&
              (old(timer.Spaced()) && timer.clock.Monotone() ==> timer.Spaced())
  {
    hide Timer.WellArmed, Timer.Events, Timer.Spaced, Clock.Monotone, Sorted, Distinct, AllDifferent, Live, UpperBound;
    ghost var all, n := timer.Events() + EventsIn(ops), |timer.log|;
    for i := 0 to |ops|
      invariant Sorted(timer.myTimerEventMap) && timer.Events() <= all && old(timer.log) <= timer.log
      invariant NoneTwice(timer.log, n) ==> timer.Indexed() && timer.WellArmed()
      invariant NoneAgain(timer.log, n) ==> timer.Valid() && timer.WellArmed()
      invariant NoneAgain(timer.log, n) && old(timer.Spaced()) && timer.clock.Monotone() ==> timer.Spaced()
    {
      ghost var log := timer.log;
      ghost var held := ops[i].Add? && Holds(timer.myTimerEventMap, ops[i].event);
      assert EventsIn([ops[i]]) <= EventsIn(ops);
      Do(timer, ops[i]);
      assert log <= timer.log && (ops[i].Add? ==> timer.log[|log|].again == held);
      assert forall j :: 0 <= j < |log| ==> timer.log[j] == log[j];
    }
  }

  /** An event that repeats, added twice, in the first pass after both entries are due: its entries part,
      and only one of them has its deadline. */
  method AddedTwice() returns (timer: Timer)
    ensures fresh(timer) && timer.clock.StrictlyIncreasing() && !timer.Indexed()
  {
    hide Rescheduled, AllInserted, SameKeys, Inserted, Live, Repeating, UpperBound, LastKey, Distinct, Sorted;
    hide Timer.WellArmed, SpacedLog, SpacedMap, Holds;
    var clock := new Clock(n => 10 * n);
    timer := new Timer(clock);
    var e := new TimerEvent(5, true, None, clock);
    timer.AddTimerEvent(e);
    timer.AddTimerEvent(e);
    assert timer.Indexed();
    BothDue(timer.myTimerEventMap, Entry(e.myArriveTime, e), clock.readings(clock.next), clock);
    var _, fire, _, _, _ := timer.OnTimer();
    assert Repeating(fire)[0] == Repeating(fire)[1];
  }

  lemma InsertedTwice(e: Entry)
    ensures Inserted(Inserted([], e), e) == [e, e]
  {
    hide UpperBound;
    assert Inserted([], e) == [e];
    InsertedAt([e], e, 0);
    InsertedAt([e], e, 1);
  }

  lemma BothDue(m: seq<Entry>, e: Entry, now: int, clock: Clock)
    requires m == Inserted(Inserted([], e), e) && e.key <= now && !e.event.myIsCanceled && e.event.myIsRepeated
    ensures Sorted(m) && Repeating(Live(m[..UpperBound(m, now)])) == [e.event, e.event]
  {
    InsertedTwice(e);
    hide Inserted, Live, Repeating, UpperBound;
    assert m == [e, e] && m[..2] == m;
    BoundIs(m, now, 2);
    LiveNone(m);
    LiveUpTo(m, 0);
    LiveUpTo(m, 1);
    var both := [e.event, e.event];
    assert Live(m) == both && both[..2] == both;
    RescheduledNone(m, both, clock, 0);
    RepeatingUpTo(both, 0);
    RepeatingUpTo(both, 1);
  }

  lemma AdditionIsSpaced(log: seq<Mark>, m: seq<Entry>, e: Entry)
    ensures var l := log + [AddMark(e.event, Holds(m, e.event))];
      && (SpacedLog(log) ==> SpacedLog(l))
      && (SpacedMap(log, m) ==> SpacedMap(l, Inserted(m, e)))
  {
    hide Inserted, LastFiring, SpacedLog;
    var mark := AddMark(e.event, Holds(m, e.event));
    var l := log + [mark];
    if SpacedLog(log) {
      SpacedSnoc(log, mark);
    }
    InsertedKeepsAll(m, e);
    if SpacedMap(log, m) {
      forall x | x in Inserted(m, e) && LastFiring(l, x.event).Some?
        ensures x.key >= LastFiring(l, x.event).value + x.event.myInterval
      {
        LastFiringAfter(log, mark, x.event);
        assert x in m;
      }
    }
  }
}
