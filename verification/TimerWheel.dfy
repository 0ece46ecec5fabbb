/**
  The 3600-slot timer wheel of world/timer.c. Its specification is a plain list of pending timers
  in the order they were armed; the wheel keeps the same timers in slots by due time.
 */
module TimerWheel {

  const MAX_TIMER := 3600

  /** A timer; ids are handed out in the order of arming. */
  datatype Timer = Timer(id: nat, at: nat)

  /** What a callback may do: timer_add for a time, or timer_remove of a timer it holds. */
  datatype Op = Arm(at: nat) | Cancel(timer: Timer)

  /** The calls a timer's callback makes; the second argument says how many timers fired before, so that
      a callback may act differently every time. */
  type Callback = (Timer, nat) -> seq<Op>

  // ---------- the specification: a list of pending timers ----------

  /** While a tick is being fired, due holds the timers of the tick whose turn is still to come. armed, fired,
      ticks (when each of fired was called), late (armed for the tick being fired) and cancelled are
      histories. broken says that a timer was removed that is no longer there, or that is the next one to be
      called: the source then works on a freed timer. */
  datatype Schedule = Schedule(next: nat, armed: seq<Timer>, pending: seq<Timer>, firing: bool, due: seq<Timer>,
                               fired: seq<Timer>, ticks: seq<nat>, late: set<Timer>, cancelled: set<Timer>, broken: bool)

  /** When the wheel comes round to a timer: at its time, but a whole turn later if its slot had just been
      emptied. */
  function Time(late: set<Timer>, x: Timer): nat {
    if x in late then x.at + MAX_TIMER else x.at
  }

  function Due(p: seq<Timer>, late: set<Timer>, t: nat): seq<Timer> {
    if p == [] then [] else (if Time(late, p[0]) == t then [p[0]] else []) + Due(p[1..], late, t)
  }

  function Later(p: seq<Timer>, late: set<Timer>, t: nat): seq<Timer> {
    if p == [] then [] else (if Time(late, p[0]) != t then [p[0]] else []) + Later(p[1..], late, t)
  }

  function Without(p: seq<Timer>, x: Timer): (r: seq<Timer>)
    ensures |r| <= |p|
  {
    if p == [] then [] else (if p[0] != x then [p[0]] else []) + Without(p[1..], x)
  }

  predicate InWindow(next: nat, at: nat) {
    next <= at < next + MAX_TIMER
  }

  function Do(s: Schedule, op: Op): Schedule {
    match op
    case Arm(at) =>
      var x := Timer(|s.armed|, at);
      if !InWindow(s.next, at) then s
      else s.(armed := s.armed + [x], pending := s.pending + [x],
              late := if s.firing && at == s.next then s.late + {x} else s.late)
    case Cancel(x) =>
      if x in s.pending then s.(pending := Without(s.pending, x), cancelled := s.cancelled + {x})
      else if x in s.due && x != s.due[0] then s.(due := Without(s.due, x), cancelled := s.cancelled + {x})
      else s.(broken := true)
  }

  function DoAll(s: Schedule, ops: seq<Op>): (t: Schedule)
    ensures t.next == s.next && t.firing == s.firing && |t.due| <= |s.due|
    decreases |ops|
  {
    if ops == [] then s else DoAll(Do(s, ops[0]), ops[1..])
  }

  /** The first of the timers due is called. */
  function Take(s: Schedule): Schedule
    requires s.due != []
  {
    s.(due := s.due[1..], fired := s.fired + [s.due[0]], ticks := s.ticks + [s.next])
  }

  /** The timers due are called one after the other; a callback may cancel one whose turn is still to come. */
  function FireAll(s: Schedule, cb: Callback): (t: Schedule)
    ensures t.next == s.next && t.firing == s.firing && t.due == []
    decreases |s.due|
  {
    if s.due == [] then s else FireAll(DoAll(Take(s), cb(s.due[0], |s.fired|)), cb)
  }

  /** What is due at this tick leaves the pending timers. */
  function Detach(s: Schedule): Schedule {
    s.(pending := Later(s.pending, s.late, s.next), due := Due(s.pending, s.late, s.next), firing := true)
  }

  /** Everything due at the next tick fires, in the order it was armed. */
  function Tick(s: Schedule, cb: Callback): Schedule {
    var t := FireAll(Detach(s), cb);
    t.(next := t.next + 1, firing := false)
  }

  function Advance(s: Schedule, now: int, cb: Callback): Schedule
    decreases now + 1 - s.next
  {
    if s.next > now then s else Advance(Tick(s, cb), now, cb)
  }

  // ---------- filters ----------

  lemma {:induction false} InDue(p: seq<Timer>, late: set<Timer>, t: nat, x: Timer)
    ensures x in Due(p, late, t) <==> x in p && Time(late, x) == t
  {
    if p != [] { InDue(p[1..], late, t, x); }
  }

  lemma {:induction false} InLater(p: seq<Timer>, late: set<Timer>, t: nat, x: Timer)
    ensures x in Later(p, late, t) <==> x in p && Time(late, x) != t
  {
    if p != [] { InLater(p[1..], late, t, x); }
  }

  lemma {:induction false} InWithout(p: seq<Timer>, y: Timer, x: Timer)
    ensures x in Without(p, y) <==> x in p && x != y
  {
    if p != [] { InWithout(p[1..], y, x); }
  }

  /** The ids increase: the timers stand in the order they were armed. */
  ghost predicate Increasing(p: seq<Timer>) {
    p == [] || ((forall x :: x in p[1..] ==> p[0].id < x.id) && Increasing(p[1..]))
  }

  /** A list that keeps the order with one timer more or less in front of it. */
  lemma ConsIncreasing(p: seq<Timer>, keep: bool, tail: seq<Timer>)
    requires p != [] && Increasing(p) && Increasing(tail) && forall x :: x in tail ==> x in p[1..]
    ensures Increasing((if keep then [p[0]] else []) + tail)
  {
    assert [] + tail == tail && ([p[0]] + tail)[1..] == tail;
  }

  lemma {:induction false} DueIncreasing(p: seq<Timer>, late: set<Timer>, t: nat)
    requires Increasing(p)
    ensures Increasing(Due(p, late, t))
  {
    if p != [] {
      DueIncreasing(p[1..], late, t);
      forall x ensures x in Due(p[1..], late, t) ==> x in p[1..] { InDue(p[1..], late, t, x); }
      ConsIncreasing(p, Time(late, p[0]) == t, Due(p[1..], late, t));
    }
  }

  lemma {:induction false} LaterIncreasing(p: seq<Timer>, late: set<Timer>, t: nat)
    requires Increasing(p)
    ensures Increasing(Later(p, late, t))
  {
    if p != [] {
      LaterIncreasing(p[1..], late, t);
      forall x ensures x in Later(p[1..], late, t) ==> x in p[1..] { InLater(p[1..], late, t, x); }
      ConsIncreasing(p, Time(late, p[0]) != t, Later(p[1..], late, t));
    }
  }

  lemma {:induction false} WithoutIncreasing(p: seq<Timer>, y: Timer)
    requires Increasing(p)
    ensures Increasing(Without(p, y))
  {
    if p != [] {
      WithoutIncreasing(p[1..], y);
      forall x ensures x in Without(p[1..], y) ==> x in p[1..] { InWithout(p[1..], y, x); }
      ConsIncreasing(p, p[0] != y, Without(p[1..], y));
    }
  }

  lemma {:induction false} SnocIncreasing(p: seq<Timer>, x: Timer)
    requires Increasing(p) && forall y :: y in p ==> y.id < x.id
    ensures Increasing(p + [x])
  {
    if p != [] {
      SnocIncreasing(p[1..], x);
      assert (p + [x])[1..] == p[1..] + [x];
    }
  }

  // ---------- what every run keeps ----------

  /** The calls were made tick by tick, and within a tick in the order of arming. */
  ghost predicate Ordered(fired: seq<Timer>, ticks: seq<nat>) {
    && |fired| == |ticks|
    && forall i, j :: 0 <= i < j < |fired| ==> ticks[i] < ticks[j] || (ticks[i] == ticks[j] && fired[i].id < fired[j].id)
  }

  /** Each call was made when the wheel came round to its timer. */
  ghost predicate Timely(late: set<Timer>, fired: seq<Timer>, ticks: seq<nat>) {
    |fired| == |ticks| && forall i :: 0 <= i < |fired| ==> ticks[i] == Time(late, fired[i])
  }

  /** Every timer armed is in exactly one place: still pending, about to fire, fired, or cancelled. */
  ghost predicate Accounted(s: Schedule) {
    && (forall i :: 0 <= i < |s.armed| ==> s.armed[i].id == i)
    && (forall x :: x in s.armed <==> x in s.pending || x in s.due || x in s.fired || x in s.cancelled)
    && (forall x :: x in s.pending ==> x !in s.due && x !in s.fired && x !in s.cancelled)
    && (forall x :: x in s.due ==> x !in s.fired && x !in s.cancelled)
    && (forall x :: x in s.fired ==> x !in s.cancelled)
    && (forall x :: x in s.late ==> x in s.armed)
  }

  /** Between updates: what is pending comes round within the window, what fired did so before. */
  ghost predicate Sound(s: Schedule) {
    && Accounted(s) && !s.firing && s.due == []
    && Increasing(s.pending) && Ordered(s.fired, s.ticks) && Timely(s.late, s.fired, s.ticks)
    && (forall x :: x in s.pending ==> InWindow(s.next, Time(s.late, x)))
    && (forall x :: x in s.fired ==> Time(s.late, x) < s.next)
  }

  /** What has been called comes before what is due. */
  ghost predicate AllBefore(s: Schedule) {
    forall x, y :: x in s.fired && y in s.due ==> Time(s.late, x) < s.next || x.id < y.id
  }

  /** Within a tick: nothing pending comes round at this tick any more, and nothing more than a turn later. */
  ghost predicate Firing(s: Schedule) {
    && Accounted(s) && s.firing
    && Increasing(s.pending) && Increasing(s.due) && Ordered(s.fired, s.ticks) && Timely(s.late, s.fired, s.ticks)
    && (forall x :: x in s.pending ==> s.next < Time(s.late, x) <= s.next + MAX_TIMER)
    && (forall x :: x in s.due ==> Time(s.late, x) == s.next)
    && (forall x :: x in s.fired ==> Time(s.late, x) <= s.next)
    && AllBefore(s)
  }

  /** A new timer is told from all others by its id. */
  lemma NewTimer(s: Schedule, x: Timer)
    requires Accounted(s) && x.id == |s.armed|
    ensures x !in s.armed && x !in s.late && x !in s.fired && x !in s.due && x !in s.pending
    ensures forall y :: y in s.pending ==> y.id < x.id
  {
    forall y | y in s.pending ensures y.id < x.id {
      assert y in s.armed;
    }
  }

  lemma ArmAccounted(s: Schedule, at: nat)
    requires Accounted(s) && InWindow(s.next, at)
    ensures Accounted(Do(s, Arm(at)))
  {
    NewTimer(s, Timer(|s.armed|, at));
  }

  lemma CancelAccounted(s: Schedule, x: Timer)
    requires Accounted(s)
    ensures Accounted(Do(s, Cancel(x)))
  {
    forall y ensures y in Without(s.pending, x) <==> y in s.pending && y != x { InWithout(s.pending, x, y); }
    forall y ensures y in Without(s.due, x) <==> y in s.due && y != x { InWithout(s.due, x, y); }
  }

  /** One late timer more does not change when the others come round. */
  lemma TimelyStays(late: set<Timer>, x: Timer, fired: seq<Timer>, ticks: seq<nat>)
    requires Timely(late, fired, ticks) && x !in fired
    ensures Timely(late + {x}, fired, ticks)
  {
  }

  lemma DoSound(s: Schedule, op: Op)
    requires Sound(s)
    ensures Sound(Do(s, op))
  {
    hide Accounted, Increasing, Ordered, Timely;
    match op
    case Arm(at) =>
      if InWindow(s.next, at) {
        var x := Timer(|s.armed|, at);
        ArmAccounted(s, at);
        NewTimer(s, x);
        SnocIncreasing(s.pending, x);
      }
    case Cancel(x) =>
      CancelAccounted(s, x);
      WithoutIncreasing(s.pending, x);
      forall y ensures y in Without(s.pending, x) ==> y in s.pending { InWithout(s.pending, x, y); }
  }

  /** Whatever a callback arms or cancels. */
  lemma DoFiring(s: Schedule, op: Op)
    requires Firing(s)
    ensures Firing(Do(s, op))
  {
    match op
    case Arm(at) =>
      if InWindow(s.next, at) { ArmFiring(s, at); }
    case Cancel(x) => CancelFiring(s, x);
  }

  lemma ArmFiring(s: Schedule, at: nat)
    requires Firing(s) && InWindow(s.next, at)
    ensures Firing(Do(s, Arm(at)))
  {
    hide Accounted, Increasing, Ordered, Timely;
    var x := Timer(|s.armed|, at);
    ArmAccounted(s, at);
    NewTimer(s, x);
    SnocIncreasing(s.pending, x);
    TimelyStays(s.late, x, s.fired, s.ticks);
  }

  lemma CancelFiring(s: Schedule, x: Timer)
    requires Firing(s)
    ensures Firing(Do(s, Cancel(x)))
  {
    hide Accounted, Increasing, Ordered, Timely, Time, Without;
    CancelAccounted(s, x);
    WithoutIncreasing(s.pending, x);
    WithoutIncreasing(s.due, x);
    forall y ensures y in Without(s.pending, x) ==> y in s.pending { InWithout(s.pending, x, y); }
    forall y ensures y in Without(s.due, x) ==> y in s.due { InWithout(s.due, x, y); }
  }

  lemma {:induction false} DoAllFiring(s: Schedule, ops: seq<Op>)
    requires Firing(s)
    ensures Firing(DoAll(s, ops))
    decreases |ops|
  {
    hide Firing, Do;
    if ops != [] {
      DoFiring(s, ops[0]);
      DoAllFiring(Do(s, ops[0]), ops[1..]);
    }
  }

  lemma TakeAccounted(s: Schedule)
    requires Accounted(s) && Increasing(s.due) && s.due != []
    ensures Accounted(Take(s)) && s.due[0] !in s.fired
  {
    assert forall y :: y in s.due <==> y == s.due[0] || y in s.due[1..];
  }

  lemma TakeOrdered(s: Schedule)
    requires Ordered(s.fired, s.ticks) && Timely(s.late, s.fired, s.ticks) && s.due != []
    requires forall x :: x in s.fired ==> Time(s.late, x) < s.next || (Time(s.late, x) == s.next && x.id < s.due[0].id)
    requires Time(s.late, s.due[0]) == s.next
    ensures Ordered(Take(s).fired, Take(s).ticks) && Timely(s.late, Take(s).fired, Take(s).ticks)
  {
    hide Time;
    forall i | 0 <= i < |s.fired|
      ensures s.ticks[i] < s.next || (s.ticks[i] == s.next && s.fired[i].id < s.due[0].id)
    {
      assert s.fired[i] in s.fired;
    }
  }

  lemma TakeFiring(s: Schedule)
    requires Firing(s) && s.due != []
    ensures Firing(Take(s))
  {
    var x := s.due[0];
    assert x in s.due;
    assert forall y :: y in s.due[1..] ==> y in s.due && x.id < y.id;
    assert Increasing(s.due[1..]);
    TakeAccounted(s);
    TakeOrdered(s);
    hide Accounted, Increasing, Ordered, Timely, Time;
    assert forall y :: y in Take(s).fired <==> y in s.fired || y == x;
  }

  lemma {:induction false} FireAllFiring(s: Schedule, cb: Callback)
    requires Firing(s)
    ensures Firing(FireAll(s, cb))
    decreases |s.due|
  {
    hide Firing, Do;
    if s.due != [] {
      TakeFiring(s);
      var t := DoAll(Take(s), cb(s.due[0], |s.fired|));
      DoAllFiring(Take(s), cb(s.due[0], |s.fired|));
      FireAllFiring(t, cb);
    }
  }

  lemma DetachAccounted(s: Schedule)
    requires Accounted(s) && s.due == []
    ensures Accounted(Detach(s))
  {
    forall x ensures x in Detach(s).due <==> x in s.pending && Time(s.late, x) == s.next { InDue(s.pending, s.late, s.next, x); }
    forall x ensures x in Detach(s).pending <==> x in s.pending && Time(s.late, x) != s.next { InLater(s.pending, s.late, s.next, x); }
    hide Due, Later, Time;
  }

  lemma TickStarts(s: Schedule)
    requires Sound(s)
    ensures Firing(Detach(s))
  {
    DueIncreasing(s.pending, s.late, s.next);
    LaterIncreasing(s.pending, s.late, s.next);
    DetachAccounted(s);
    hide Due, Later, Increasing, Ordered, Timely, Accounted;
    forall x ensures x in Detach(s).due <==> x in s.pending && Time(s.late, x) == s.next { InDue(s.pending, s.late, s.next, x); }
    forall x ensures x in Detach(s).pending <==> x in s.pending && Time(s.late, x) != s.next { InLater(s.pending, s.late, s.next, x); }
  }

  lemma TickEnds(s: Schedule)
    requires Firing(s) && s.due == []
    ensures Sound(s.(next := s.next + 1, firing := false))
  {
    hide Increasing, Ordered, Timely, Time;
  }

  lemma TickSound(s: Schedule, cb: Callback)
    requires Sound(s)
    ensures Sound(Tick(s, cb))
  {
    hide Sound, Firing, Detach;
    TickStarts(s);
    FireAllFiring(Detach(s), cb);
    TickEnds(FireAll(Detach(s), cb));
  }

  lemma {:induction false} AdvanceSound(s: Schedule, now: int, cb: Callback)
    requires Sound(s)
    ensures Sound(Advance(s, now, cb)) && Advance(s, now, cb).next > now
    decreases now + 1 - s.next
  {
    hide Sound, FireAll, Due, Later;
    if s.next <= now {
      TickSound(s, cb);
      AdvanceSound(Tick(s, cb), now, cb);
    }
  }

  // ---------- runs ----------

  /** The program calls timer_add or timer_remove itself, or lets the clock advance. */
  datatype Event = Call(op: Op) | Update(now: int, cb: Callback)

  ghost function Run(s: Schedule, events: seq<Event>): Schedule {
    if events == [] then s
    else
      var t := Run(s, events[..|events| - 1]);
      match events[|events| - 1]
      case Call(op) => Do(t, op)
      case Update(now, cb) => Advance(t, now, cb)
  }

  lemma {:induction false} RunSound(s: Schedule, events: seq<Event>)
    requires Sound(s)
    ensures Sound(Run(s, events))
  {
    hide Sound, Do, Advance;
    if events != [] {
      var front, last := events[..|events| - 1], events[|events| - 1];
      RunSound(s, front);
      match last
      case Call(op) => DoSound(Run(s, front), op);
      case Update(now, cb) => AdvanceSound(Run(s, front), now, cb);
    }
  }

  function Start(next: nat): Schedule {
    Schedule(next, [], [], false, [], [], [], {}, {}, false)
  }

  lemma {:induction false} OnceEach(fired: seq<Timer>, ticks: seq<nat>, late: set<Timer>, x: Timer)
    requires Ordered(fired, ticks) && Timely(late, fired, ticks)
    ensures multiset(fired)[x] == if x in fired then 1 else 0
  {
    if fired != [] {
      var n := |fired| - 1;
      var front, last := fired[..n], fired[n];
      OnceEach(front, ticks[..n], late, x);
      assert fired == front + [last];
      assert last !in front;
    }
  }

  /** Over every run that removes only timers still in the wheel: a timer that was armed and not cancelled has
      fired exactly once if the wheel has come round to it and not at all otherwise; the calls were made in
      the order of the ticks, then of arming; and a call was made at the time the timer was armed for if and
      only if it was not armed for the very tick being fired, otherwise 3600 seconds later. */
  lemma EveryTimerFiresOnce(next: nat, events: seq<Event>, x: Timer)
    requires !Run(Start(next), events).broken
    ensures var s := Run(Start(next), events);
            && Ordered(s.fired, s.ticks) && Timely(s.late, s.fired, s.ticks)
            && (x in s.armed && x !in s.cancelled ==> multiset(s.fired)[x] == if Time(s.late, x) < s.next then 1 else 0)
            && (x !in s.armed || x in s.cancelled ==> x !in s.fired)
            && (forall i :: 0 <= i < |s.fired| ==> s.ticks[i] == s.fired[i].at + (if s.fired[i] in s.late then 3600 else 0))
  {
    var s := Run(Start(next), events);
    assert Sound(Start(next));
    RunSound(Start(next), events);
    hide Run;
    OnceEach(s.fired, s.ticks, s.late, x);
  }

  /** A timer that a callback arms for the tick being fired is accepted and comes round a whole turn later. */
  lemma ArmedForThisTick(s: Schedule)
    requires Firing(s)
    ensures var x, t := Timer(|s.armed|, s.next), Do(s, Arm(s.next));
            x in t.pending && Time(t.late, x) == s.next + 3600 && x.at == s.next
  {
  }

  /** Such runs exist: one timer whose callback arms another one for the same tick. */
  lemma SomeAreLate(next: nat)
    ensures var s := Run(Start(next), [Call(Arm(next)), Update(next, (x: Timer, n: nat) => [Arm(x.at)])]);
            s.pending == [Timer(1, next)] && s.late == {Timer(1, next)} && !s.broken
  {
    var cb := (x: Timer, n: nat) => [Arm(x.at)];
    var a, b := Timer(0, next), Timer(1, next);
    var events := [Call(Arm(next)), Update(next, cb)];
    var s1 := Do(Start(next), Arm(next));
    assert events[..1] == [Call(Arm(next))] && events[..1][..0] == [];
    assert Run(Start(next), events[..1]) == s1;
    assert s1.pending == [a] && [a][1..] == [];
    assert Due([a], {}, next) == [a] + Due([], {}, next) && Later([a], {}, next) == [] + Later([], {}, next);
    var s2 := Detach(s1);
    assert s2.due == [a] && s2.pending == [];
    var s3 := Take(s2);
    assert [Arm(next)][1..] == [];
    assert DoAll(s3, [Arm(next)]) == DoAll(Do(s3, Arm(next)), []);
    var s4 := Do(s3, Arm(next));
    assert s4.pending == [b] && s4.due == [];
    assert FireAll(s2, cb) == FireAll(s4, cb) == s4;
    var s5 := Tick(s1, cb);
    assert Advance(s1, next, cb) == Advance(s5, next, cb) == s5;
  }

  // ---------- the wheel ----------

  /** The pending timers that stand in slot r. */
  function Slot(p: seq<Timer>, r: nat): seq<Timer> {
    if p == [] then [] else (if p[0].at % MAX_TIMER == r then [p[0]] else []) + Slot(p[1..], r)
  }

  lemma {:induction false} SlotSnoc(p: seq<Timer>, x: Timer, r: nat)
    ensures Slot(p + [x], r) == Slot(p, r) + (if x.at % MAX_TIMER == r then [x] else [])
  {
    if p == [] {
      assert p + [x] == [x];
    } else {
      SlotSnoc(p[1..], x, r);
      assert (p + [x])[1..] == p[1..] + [x];
    }
  }

  lemma {:induction false} SlotWithout(p: seq<Timer>, x: Timer, r: nat)
    ensures Slot(Without(p, x), r) == if x.at % MAX_TIMER == r then Without(Slot(p, r), x) else Slot(p, r)
  {
    if p != [] {
      SlotWithout(p[1..], x, r);
      var tail := Without(p[1..], x);
      assert ([p[0]] + tail)[1..] == tail && [] + tail == tail;
      assert ([p[0]] + Slot(p[1..], r))[1..] == Slot(p[1..], r) && [] + Slot(p[1..], r) == Slot(p[1..], r);
    }
  }

  lemma {:induction false} InSlot(p: seq<Timer>, x: Timer, r: nat)
    ensures x in Slot(p, r) <==> x in p && x.at % MAX_TIMER == r
  {
    if p != [] { InSlot(p[1..], x, r); }
  }

  /** Within a window of one turn, two times share a slot only if they are equal. */
  lemma OneDueTime(next: nat, a: nat, b: nat)
    requires InWindow(next, a) && InWindow(next, b)
    ensures a % MAX_TIMER == b % MAX_TIMER <==> a == b
  {
  }

  /** Between updates each slot holds timers that the wheel comes round to at one and the same time. */
  lemma SlotsHoldOneTime(s: Schedule, x: Timer, y: Timer, r: nat)
    requires Sound(s) && x in Slot(s.pending, r) && y in Slot(s.pending, r)
    ensures Time(s.late, x) == Time(s.late, y)
  {
    InSlot(s.pending, x, r);
    InSlot(s.pending, y, r);
    OneDueTime(s.next, Time(s.late, x), Time(s.late, y));
  }

  lemma {:induction false} SlotIsDue(p: seq<Timer>, late: set<Timer>, next: nat)
    requires forall x :: x in p ==> InWindow(next, Time(late, x))
    ensures Slot(p, next % MAX_TIMER) == Due(p, late, next)
  {
    if p != [] {
      OneDueTime(next, Time(late, p[0]), next);
      SlotIsDue(p[1..], late, next);
    }
  }

  lemma SameSlot(late: set<Timer>, x: Timer)
    ensures Time(late, x) % MAX_TIMER == x.at % MAX_TIMER
  {
  }

  lemma {:induction false} SlotLater(p: seq<Timer>, late: set<Timer>, next: nat, r: nat)
    requires forall x :: x in p ==> InWindow(next, Time(late, x))
    ensures Slot(Later(p, late, next), r) == if r == next % MAX_TIMER then [] else Slot(p, r)
  {
    hide Time;
    if p != [] {
      SameSlot(late, p[0]);
      OneDueTime(next, Time(late, p[0]), next);
      SlotLater(p[1..], late, next, r);
      var tail := Later(p[1..], late, next);
      assert ([p[0]] + tail)[1..] == tail && [] + tail == tail;
    }
  }

  /** The slot of the next tick holds what is due, and emptying it leaves the slots of what is later. */
  lemma SlotsAtTick(s: Schedule)
    requires Sound(s)
    ensures Slot(s.pending, s.next % MAX_TIMER) == Detach(s).due
    ensures forall r :: 0 <= r < MAX_TIMER ==>
              Slot(Detach(s).pending, r) == if r == s.next % MAX_TIMER then [] else Slot(s.pending, r)
  {
    SlotIsDue(s.pending, s.late, s.next);
    forall r | 0 <= r < MAX_TIMER
      ensures Slot(Detach(s).pending, r) == if r == s.next % MAX_TIMER then [] else Slot(s.pending, r)
    {
      SlotLater(s.pending, s.late, s.next, r);
    }
  }

  // What is broken stays broken.

  lemma {:induction false} DoAllBroken(s: Schedule, ops: seq<Op>)
    requires s.broken
    ensures DoAll(s, ops).broken
    decreases |ops|
  {
    if ops != [] { DoAllBroken(Do(s, ops[0]), ops[1..]); }
  }

  lemma {:induction false} FireAllBroken(s: Schedule, cb: Callback)
    requires s.broken
    ensures FireAll(s, cb).broken
    decreases |s.due|
  {
    hide Do;
    if s.due != [] {
      var t := DoAll(Take(s), cb(s.due[0], |s.fired|));
      DoAllBroken(Take(s), cb(s.due[0], |s.fired|));
      FireAllBroken(t, cb);
    }
  }

  lemma {:induction false} AdvanceBroken(s: Schedule, now: int, cb: Callback)
    requires s.broken
    ensures Advance(s, now, cb).broken
    decreases now + 1 - s.next
  {
    hide FireAll, Due, Later;
    if s.next <= now {
      FireAllBroken(Detach(s), cb);
      AdvanceBroken(Tick(s, cb), now, cb);
    }
  }

  class Wheel {
    var next: nat
    var count: nat             // timers armed so far
    var calls: nat             // callbacks made so far
    const slots: array<seq<Timer>>
    var ring: seq<Timer>       // what module_timer_update took from a slot; its list points at the first
    ghost var s: Schedule

    /** The slots hold the pending timers of the specification, the ring those about to be called. */
    ghost predicate Holds()
      reads this, slots
    {
      && slots.Length == MAX_TIMER
      && next == s.next && count == |s.armed| && calls == |s.fired| && ring == s.due
      && forall r :: 0 <= r < MAX_TIMER ==> slots[r] == Slot(s.pending, r)
    }

    ghost predicate Valid()
      reads this, slots
    {
      Holds() && Sound(s)
    }

    constructor (now: nat)
      ensures Valid() && s == Start(now) && fresh(slots)
    {
      next, count, calls, ring := now, 0, 0, [];
      slots := new seq<Timer>[MAX_TIMER](_ => []);
      s := Start(now);
    }

    /** timer_add: refused outside the window, otherwise to the tail of its slot. */
    method Add(at: nat) returns (ok: bool)
      requires Holds()
      modifies this`count, this`s, slots
      ensures Holds() && s == Do(old(s), Arm(at)) && (ok <==> next <= at < next + 3600)
      ensures if ok then s.pending == old(s.pending) + [Timer(old(count), at)] && count == old(count) + 1 else s == old(s)
    {
      ok := next <= at < next + MAX_TIMER;
      if ok {
        var x := Timer(count, at);
        var pos := at % MAX_TIMER;
        forall r | 0 <= r < MAX_TIMER ensures Slot(s.pending + [x], r) == if r == pos then slots[r] + [x] else slots[r] {
          SlotSnoc(s.pending, x, r);
        }
        s := Do(s, Arm(at));
        slots[pos] := slots[pos] + [x];
        count := count + 1;
      }
    }

    /** timer_remove of a timer that is linked: it leaves its slot, or the ring being called, of which it must
        not be the next. */
    method Remove(x: Timer)
      requires Holds() && !Do(s, Cancel(x)).broken
      modifies this`s, this`ring, slots
      ensures Holds() && s == Do(old(s), Cancel(x))
    {
      var pos := x.at % MAX_TIMER;
      InSlot(s.pending, x, pos);
      if x in slots[pos] {
        forall r | 0 <= r < MAX_TIMER
          ensures Slot(Without(s.pending, x), r) == if r == pos then Without(slots[r], x) else slots[r]
        {
          SlotWithout(s.pending, x, r);
        }
        s := Do(s, Cancel(x));
        slots[pos] := Without(slots[pos], x);
      } else {
        s := Do(s, Cancel(x));
        ring := Without(ring, x);
      }
    }

    method Perform(op: Op)
      requires Holds() && !Do(s, op).broken
      modifies this`count, this`s, this`ring, slots
      ensures Holds() && s == Do(old(s), op)
    {
      match op
      case Arm(at) => var _ := Add(at);
      case Cancel(x) => Remove(x);
    }

    method PerformAll(ops: seq<Op>)
      requires Holds() && !DoAll(s, ops).broken
      modifies this`count, this`s, this`ring, slots
      ensures Holds() && s == DoAll(old(s), ops)
    {
      var i := 0;
      assert ops[0..] == ops;
      while i < |ops|
        invariant 0 <= i <= |ops| && Holds() && DoAll(s, ops[i..]) == DoAll(old(s), ops)
      {
        assert ops[i..][1..] == ops[i + 1..];
        if Do(s, ops[i]).broken { DoAllBroken(Do(s, ops[i]), ops[i + 1..]); }
        Perform(ops[i]);
        i := i + 1;
      }
    }

    /** The inner loop of module_timer_update, over the timers taken from a slot. */
    method FireRing(cb: Callback)
      requires Holds() && !FireAll(s, cb).broken
      modifies this`count, this`calls, this`ring, this`s, slots
      ensures Holds() && s == FireAll(old(s), cb)
    {
      hide Slot, Do;
      while ring != []
        invariant Holds() && FireAll(s, cb) == FireAll(old(s), cb)
        decreases |ring|
      {
        var timer := ring[0];
        var ops := cb(timer, calls);
        if DoAll(Take(s), ops).broken { FireAllBroken(DoAll(Take(s), ops), cb); }
        ring := ring[1..];
        s, calls := Take(s), calls + 1;
        PerformAll(ops);
      }
    }

    /** One turn of the outer loop of module_timer_update. */
    method FireSlot(cb: Callback)
      requires Valid() && !Tick(s, cb).broken
      modifies this, slots
      ensures Valid() && s == Tick(old(s), cb)
    {
      hide Sound, Slot, FireAll, Due, Later;
      TickSound(s, cb);
      SlotsAtTick(s);
      var pos := next % MAX_TIMER;
      ring := slots[pos];
      slots[pos] := [];
      s := Detach(s);
      FireRing(cb);
      next := next + 1;
      s := s.(next := next, firing := false);
    }

    /** module_timer_update: the wheel does what the list of pending timers does. */
    method Update(now: int, cb: Callback)
      requires Valid() && !Advance(s, now, cb).broken
      modifies this, slots
      ensures Valid() && s == Advance(old(s), now, cb)
    {
      hide Sound, Slot, FireAll, Due, Later;
      while next <= now
        invariant Valid() && Advance(s, now, cb) == Advance(old(s), now, cb)
        decreases now + 1 - next
      {
        if Tick(s, cb).broken { AdvanceBroken(Tick(s, cb), now, cb); }
        FireSlot(cb);
      }
    }
  }
}
