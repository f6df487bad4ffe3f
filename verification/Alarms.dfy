/** The alarm service: a 32-bit wrapping tick counter plus one roll-over bit per
    alarm must behave like deadlines on a clock that never wraps. */

module WrappingClock {
  import opened Words

  /** The fields of a registered alarm that the tick handler edits, with the
      number of callbacks made so far. */
  datatype Slot = Slot(time: u32, rollover: bool, calls: nat, listed: bool)

  /** What alt_alarm_start stores when the counter reads `counter`. */
  function StartSlot(counter: u32, nticks: u32): Slot {
    var time := (nticks + counter + 1) % WRAP;
    Slot(time, time < counter, 0, true)
  }

  predicate Expired(s: Slot, counter: u32) {
    s.listed && s.time <= counter && !s.rollover
  }

  function ClearRollover(s: Slot, counter: u32): Slot {
    if s.listed && s.rollover && counter == 0 then s.(rollover := false) else s
  }

  /** One visit by the tick handler, the counter having just become `counter`. */
  function Visit(s: Slot, counter: u32, callback: nat -> u32): Slot {
    var s := ClearRollover(s, counter);
    if !Expired(s, counter) then s
    else
      var period := callback(s.calls);
      if period == 0 then s.(calls := s.calls + 1, listed := false)
      else
        var time := (s.time + period) % WRAP;
        Slot(time, time < counter, s.calls + 1, true)
  }

  /** The slot stands for `deadline` on the unbounded clock reading `now`. */
  ghost predicate Represents(s: Slot, now: nat, deadline: nat) {
    && s.listed
    && now <= deadline < now + WRAP
    && s.time == deadline % WRAP
    && (s.rollover <==> deadline / WRAP == now / WRAP + 1)
  }

  lemma StartRepresents(now: nat, nticks: u32)
    ensures Represents(StartSlot(now % WRAP, nticks), now, now + nticks + 1) <==> nticks <= WRAP - 2
  {
  }

  lemma VisitRepresents(s: Slot, now: nat, deadline: nat, callback: nat -> u32)
    requires Represents(s, now, deadline) && now < deadline
    ensures var counter := (now + 1) % WRAP;
            var s' := Visit(s, counter, callback);
            && (Expired(ClearRollover(s, counter), counter) <==> deadline == now + 1)
            && (deadline != now + 1 ==> Represents(s', now + 1, deadline) && s'.calls == s.calls)
            && (deadline == now + 1 ==>
                  var period := callback(s.calls);
                  && s'.calls == s.calls + 1
                  && (period == 0 ==> !s'.listed)
                  && (period != 0 ==> Represents(s', now + 1, deadline + period)))
  {
  }

  /** The unbounded times at which the driver's slot fires in the `n` ticks after `now`. */
  function WrappedFirings(s: Slot, now: nat, n: nat, callback: nat -> u32): seq<nat>
    decreases n
  {
    if n == 0 then []
    else
      var counter := (now + 1) % WRAP;
      var s' := Visit(s, counter, callback);
      (if s'.calls != s.calls then [now + 1] else []) + WrappedFirings(s', now + 1, n - 1, callback)
  }

  /** The reference: deadlines on an unbounded clock, each one the previous one
      plus the period its callback returned, up to and including `horizon`. */
  function IdealFirings(deadline: nat, calls: nat, horizon: nat, callback: nat -> u32): seq<nat>
    decreases horizon - deadline
  {
    if horizon < deadline then []
    else if callback(calls) == 0 then [deadline]
    else [deadline] + IdealFirings(deadline + callback(calls), calls + 1, horizon, callback)
  }

  lemma {:induction false} UnlistedNeverFires(s: Slot, now: nat, n: nat, callback: nat -> u32)
    requires !s.listed
    ensures WrappedFirings(s, now, n, callback) == []
    decreases n
  {
    if n > 0 {
      UnlistedNeverFires(s, now + 1, n - 1, callback);
    }
  }

  lemma {:induction false} RunRefinesIdeal(s: Slot, now: nat, deadline: nat, n: nat, callback: nat -> u32)
    requires Represents(s, now, deadline) && now < deadline
    ensures WrappedFirings(s, now, n, callback) == IdealFirings(deadline, s.calls, now + n, callback)
    decreases n
  {
    if n > 0 {
      var s' := Visit(s, (now + 1) % WRAP, callback);
      VisitRepresents(s, now, deadline, callback);
      hide Visit, Represents;
      assert WrappedFirings(s, now, n, callback)
          == (if s'.calls != s.calls then [now + 1] else []) + WrappedFirings(s', now + 1, n - 1, callback);
      hide WrappedFirings;
      if deadline != now + 1 {
        RunRefinesIdeal(s', now + 1, deadline, n - 1, callback);
      } else if callback(s.calls) == 0 {
        UnlistedNeverFires(s', now + 1, n - 1, callback);
      } else {
        RunRefinesIdeal(s', now + 1, deadline + callback(s.calls), n - 1, callback);
      }
    }
  }

  /** The condition under which alt_alarm_start sets up an exact alarm. */
  predicate Startable(counter: u32, nticks: u32) {
    nticks <= WRAP - 2 || counter == WRAP - 1
  }

  lemma StartableIsExact(now: nat, nticks: u32, n: nat, callback: nat -> u32)
    requires Startable(now % WRAP, nticks)
    ensures WrappedFirings(StartSlot(now % WRAP, nticks), now, n, callback)
         == IdealFirings(now + nticks + 1, 0, now + n, callback)
  {
    var s := StartSlot(now % WRAP, nticks);
    if nticks <= WRAP - 2 {
      RunRefinesIdeal(s, now, now + nticks + 1, n, callback);
    } else if n > 0 {
      assert Visit(s, 0, callback) == s;
      RunRefinesIdeal(s, now + 1, now + WRAP, n - 1, callback);
    }
  }

  /** 2^32 ticks are asked for, and the alarm goes off after one. */
  lemma LongestIntervalFiresAtOnce(now: nat, nticks: u32, callback: nat -> u32)
    requires !Startable(now % WRAP, nticks)
    ensures WrappedFirings(StartSlot(now % WRAP, nticks), now, 1, callback) == [now + 1]
    ensures IdealFirings(now + nticks + 1, 0, now + 1, callback) == []
  {
    var s, counter := StartSlot(now % WRAP, nticks), (now + 1) % WRAP;
    NotStartable(now, nticks);
    var s' := Visit(s, counter, callback);
    hide StartSlot, Startable;
    assert s'.calls == 1;
    hide Visit;
    assert WrappedFirings(s', now + 1, 0, callback) == [];
  }

  lemma NotStartable(now: nat, nticks: u32)
    requires !Startable(now % WRAP, nticks)
    ensures nticks == WRAP - 1
    ensures var s := StartSlot(now % WRAP, nticks);
            s.calls == 0 && Expired(ClearRollover(s, (now + 1) % WRAP), (now + 1) % WRAP)
  {
    assert (now + 1) % WRAP == now % WRAP + 1;
  }

  /** Started at any tick, an alarm fires at exactly the ideal deadlines over any
      number of ticks - never early, late or twice - if and only if its first
      interval is not the longest one or the counter is about to wrap. */
  lemma StartedAlarmIsExact(now: nat, nticks: u32, callback: nat -> u32)
    ensures Startable(now % WRAP, nticks) <==>
            forall n: nat :: WrappedFirings(StartSlot(now % WRAP, nticks), now, n, callback)
                          == IdealFirings(now + nticks + 1, 0, now + n, callback)
  {
    if Startable(now % WRAP, nticks) {
      forall n: nat
        ensures WrappedFirings(StartSlot(now % WRAP, nticks), now, n, callback)
             == IdealFirings(now + nticks + 1, 0, now + n, callback)
      {
        StartableIsExact(now, nticks, n, callback);
      }
    } else {
      LongestIntervalFiresAtOnce(now, nticks, callback);
    }
  }

  function SlotAfter(s: Slot, now: nat, n: nat, callback: nat -> u32): Slot {
    if n == 0 then s else Visit(SlotAfter(s, now, n - 1, callback), (now + n) % WRAP, callback)
  }

  lemma {:induction false} OneMoreTick(s: Slot, now: nat, n: nat, callback: nat -> u32)
    ensures var last := SlotAfter(s, now, n, callback);
            && SlotAfter(s, now, n + 1, callback) == Visit(last, (now + n + 1) % WRAP, callback)
            && WrappedFirings(s, now, n + 1, callback) == WrappedFirings(s, now, n, callback)
               + if Visit(last, (now + n + 1) % WRAP, callback).calls != last.calls then [now + n + 1] else []
    decreases n
  {
    if n > 0 {
      var s' := Visit(s, (now + 1) % WRAP, callback);
      OneMoreTick(s', now + 1, n - 1, callback);
      SlotAfterFront(s, now, n, callback);
    } else {
      assert WrappedFirings(Visit(s, (now + 1) % WRAP, callback), now + 1, 0, callback) == [];
    }
  }

  lemma {:induction false} SlotAfterFront(s: Slot, now: nat, n: nat, callback: nat -> u32)
    requires n > 0
    ensures SlotAfter(s, now, n, callback)
         == SlotAfter(Visit(s, (now + 1) % WRAP, callback), now + 1, n - 1, callback)
    decreases n
  {
    if n > 1 {
      SlotAfterFront(s, now, n - 1, callback);
    } else {
      assert SlotAfter(s, now, 0, callback) == s;
    }
  }

  function SumOfPeriods(callback: nat -> u32, k: nat): nat {
    if k == 0 then 0 else SumOfPeriods(callback, k - 1) + callback(k - 1)
  }

  /** The k-th firing is the first deadline plus the sum of the k periods returned before it. */
  lemma {:induction false} KthFiring(deadline: nat, calls: nat, horizon: nat, callback: nat -> u32, k: nat)
    requires k < |IdealFirings(deadline, calls, horizon, callback)|
    ensures IdealFirings(deadline, calls, horizon, callback)[k]
         == deadline + SumOfPeriods(callback, calls + k) - SumOfPeriods(callback, calls)
    decreases k
  {
    if k > 0 {
      KthFiring(deadline + callback(calls), calls + 1, horizon, callback, k - 1);
    }
  }
}

/** Lists with elements taken out. */
module Removal {
  ghost predicate Distinct<T>(s: seq<T>) {
    forall i, j :: 0 <= i < j < |s| ==> s[i] != s[j]
  }

  /** The elements of `s` that are not in `gone`, in order. */
  function Without<T(==)>(s: seq<T>, gone: set<T>): seq<T> {
    if s == [] then []
    else (if s[0] in gone then [] else [s[0]]) + Without(s[1..], gone)
  }

  lemma {:induction false} WithoutHas<T>(s: seq<T>, gone: set<T>)
    ensures forall x :: x in Without(s, gone) ==> x in s && x !in gone
    ensures forall x :: x in s && x !in gone ==> x in Without(s, gone)
  {
    if s != [] {
      WithoutHas(s[1..], gone);
      assert s == [s[0]] + s[1..];
    }
  }

  lemma {:induction false} WithoutAppend<T>(s: seq<T>, t: seq<T>, gone: set<T>)
    ensures Without(s + t, gone) == Without(s, gone) + Without(t, gone)
  {
    if s == [] {
      assert s + t == t;
    } else {
      var front := if s[0] in gone then [] else [s[0]];
      assert (s + t)[1..] == s[1..] + t;
      assert Without(s + t, gone) == front + Without(s[1..] + t, gone);
      assert Without(s, gone) == front + Without(s[1..], gone);
      hide Without;
      WithoutAppend(s[1..], t, gone);
    }
  }

  lemma {:induction false} WithoutTwice<T>(s: seq<T>, gone: set<T>, more: set<T>)
    ensures Without(Without(s, gone), more) == Without(s, gone + more)
  {
    if s != [] {
      WithoutTwice(s[1..], gone, more);
      var rest := Without(s[1..], gone);
      if s[0] !in gone {
        assert ([s[0]] + rest)[1..] == rest;
      } else {
        assert [] + rest == rest;
      }
    }
  }

  lemma {:induction false} WithoutNone<T>(s: seq<T>, gone: set<T>)
    requires forall x :: x in s ==> x !in gone
    ensures Without(s, gone) == s
  {
    if s != [] {
      WithoutNone(s[1..], gone);
      assert s == [s[0]] + s[1..];
    }
  }

  lemma {:induction false} WithoutAll<T>(s: seq<T>, gone: set<T>)
    requires forall x :: x in s ==> x in gone
    ensures Without(s, gone) == []
  {
    if s != [] {
      WithoutAll(s[1..], gone);
    }
  }

  lemma WithoutSingle<T>(x: T, gone: set<T>)
    ensures Without([x], gone) == if x in gone then [] else [x]
    ensures Without<T>([], gone) == []
  {
  }

  lemma WithoutMiddle<T>(front: seq<T>, x: T, back: seq<T>)
    requires x !in front && x !in back
    ensures Without(front + [x] + back, {x}) == front + back
  {
    WithoutAppend(front + [x], back, {x});
    WithoutAppend(front, [x], {x});
    WithoutNone(front, {x});
    WithoutNone(back, {x});
    WithoutAll([x], {x});
    hide Without;
    assert front + [] == front;
  }

  lemma WithoutOne<T>(s: seq<T>, k: nat)
    requires Distinct(s) && k < |s|
    ensures Without(s, {s[k]}) == s[..k] + s[k + 1..]
  {
    var front, back := s[..k], s[k + 1..];
    assert forall i :: 0 <= i < |back| ==> back[i] == s[k + 1 + i];
    assert s == front + [s[k]] + back;
    hide Without;
    WithoutMiddle(front, s[k], back);
  }

  /** Moving on past the first element left, while `stopped` and perhaps that
      element itself are taken out as well. */
  lemma Advance<T>(done: seq<T>, todo: seq<T>, gone: set<T>, i: nat, stopped: set<T>, ended: set<T>)
    requires i < |todo| && todo[i] !in gone && Without(todo[..i], gone) == []
    requires Distinct(done + todo) && (ended == {} || ended == {todo[i]})
    ensures Without(done + todo[..i + 1], gone + stopped + ended)
         == Without(Without(done, gone), stopped) + Without([todo[i]], stopped + ended)
    ensures Without(todo[i + 1..], gone + stopped + ended) == Without(Without(todo[i + 1..], gone), stopped)
  {
    hide Without;
    Apart(done, todo, i);
    hide Distinct;
    TakenOut(done, gone, stopped, ended, todo[i]);
    TakenOut(todo[i + 1..], gone, stopped, ended, todo[i]);
    assert done + todo[..i + 1] == done + todo[..i] + [todo[i]];
    assert gone + (stopped + ended) == gone + stopped + ended;
    Passed(done, todo[..i], todo[i], gone, stopped + ended);
  }

  lemma Passed<T>(done: seq<T>, passed: seq<T>, x: T, gone: set<T>, more: set<T>)
    requires x !in gone && Without(passed, gone) == []
    ensures Without(done + passed + [x], gone + more) == Without(done, gone + more) + Without([x], more)
  {
    WithoutSingle(x, more);
    WithoutSingle(x, gone + more);
    hide Without;
    WithoutAppend(done + passed, [x], gone + more);
    WithoutAppend(done, passed, gone + more);
    WithoutTwice(passed, gone, more);
  }

  lemma Apart<T>(done: seq<T>, todo: seq<T>, i: nat)
    requires i < |todo| && Distinct(done + todo)
    ensures todo[i] !in done && todo[i] !in todo[i + 1..]
  {
    var s, back := done + todo, todo[i + 1..];
    assert s[|done| + i] == todo[i];
    assert forall j :: 0 <= j < |done| ==> s[j] == done[j];
    assert forall j :: 0 <= j < |back| ==> s[|done| + i + 1 + j] == back[j];
  }

  lemma TakenOut<T>(s: seq<T>, gone: set<T>, stopped: set<T>, ended: set<T>, x: T)
    requires x !in s && (ended == {} || ended == {x})
    ensures Without(s, gone + stopped + ended) == Without(Without(s, gone), stopped)
  {
    WithoutTwice(s, gone, stopped);
    WithoutTwice(s, gone + stopped, ended);
    WithoutHas(s, gone + stopped);
    WithoutNone(Without(s, gone + stopped), ended);
  }

  /** The list around an element, before and after the same step. */
  lemma Turn<T>(h: T, done: seq<T>, todo: seq<T>, recent: seq<T>, gone: set<T>, i: nat,
                started: seq<T>, stopped: set<T>, ended: set<T>)
    requires i < |todo| && todo[i] !in gone && Without(todo[..i], gone) == []
    requires Distinct(done + todo) && (ended == {} || ended == {todo[i]})
    ensures var done', todo', gone' := done + todo[..i + 1], todo[i + 1..], gone + stopped + ended;
            var mine, rest := Without([todo[i]], stopped + ended), Without(todo', gone);
            && [h] + started + Without(recent + Without(done, gone), stopped) + mine + Without(rest, stopped)
               == [h] + (started + Without(recent, stopped)) + Without(done', gone') + Without(todo', gone')
            && Without(todo', gone') == Without(rest, stopped) && done' + todo' == done + todo
            && Without(done', gone') == Without(Without(done, gone), stopped) + mine
  {
    var mine := Without([todo[i]], stopped + ended);
    var a, b := Without(recent, stopped), Without(Without(done, gone), stopped);
    Advance(done, todo, gone, i, stopped, ended);
    WithoutAppend(recent, Without(done, gone), stopped);
    hide Without, Distinct;
    assert todo == todo[..i + 1] + todo[i + 1..];
    Grouped([h], started, a, b, mine);
  }

  lemma Grouped<T>(h: seq<T>, s: seq<T>, a: seq<T>, b: seq<T>, c: seq<T>)
    ensures h + s + (a + b) + c == h + (s + a) + (b + c)
  {
  }

  lemma Tail<T>(s: seq<T>)
    requires Distinct(s) && s != []
    ensures Distinct(s[1..]) && s[0] !in s[1..] && forall x :: x in s[1..] ==> x in s
    ensures [s[0]] + [] + [] + s[1..] == s && [] + s[1..] == s[1..]
  {
    assert forall i :: 0 <= i < |s[1..]| ==> s[1..][i] == s[i + 1];
  }

  lemma InARow<T>(h: T, a: seq<T>, b: seq<T>, x: T, c: seq<T>)
    ensures [h] + a + b + ([x] + c) == [h] + (a + b) + [x] + c
    ensures x in [h] + (a + b) + [x] + c
  {
    assert ([h] + (a + b) + [x] + c)[1 + |a + b|] == x;
  }

  lemma Alone<T>(h: T, front: seq<T>, x: T, back: seq<T>)
    requires Distinct([h] + front + [x] + back)
    ensures x !in front && x !in back
  {
    var s := [h] + front + [x] + back;
    assert s[1 + |front|] == x;
    assert forall j :: 0 <= j < |front| ==> s[1 + j] == front[j];
    assert forall j :: 0 <= j < |back| ==> s[2 + |front| + j] == back[j];
  }

  /** The first element that stays, and what lies before and after it. */
  lemma {:induction false} FirstLeft<T>(s: seq<T>, gone: set<T>) returns (i: nat)
    requires Without(s, gone) != []
    ensures i < |s| && s[i] == Without(s, gone)[0] && s[i] !in gone
    ensures Without(s[..i], gone) == [] && Without(s[i + 1..], gone) == Without(s, gone)[1..]
  {
    if s[0] in gone {
      var j := FirstLeft(s[1..], gone);
      i := j + 1;
      assert s[1..][..j] == s[..i][1..] && s[1..][j + 1..] == s[i + 1..];
      assert Without(s, gone) == Without(s[1..], gone);
    } else {
      i := 0;
    }
  }
}

/** The intrusive list of alarms and the routines that work on it. */
module AlarmService {
  import opened Words
  import opened WrappingClock
  import opened Removal

  const EINVAL := 22
  const ENOTSUP := 134

  class Alarm {
    var next: Alarm
    var previous: Alarm
    var time: u32
    var rollover: bool
    var callback: nat -> u32  // the period returned by the k-th call
    var calls: nat
    ghost var startedAt: nat
    ghost var interval: u32
    ghost var fired: seq<nat>

    constructor ()
      ensures next == this && previous == this
    {
      next, previous := this, this;
      time, rollover, calls := 0, false, 0;
      callback := _ => 0;
      startedAt, interval, fired := 0, 0, [];
    }

    ghost function GetSlot(listed: bool): Slot
      reads `time, `rollover, `calls
    {
      Slot(time, rollover, calls, listed)
    }

    /** The alarm's whole history since alt_alarm_start, at unbounded time `now`. */
    ghost predicate OnSchedule(listed: bool, now: nat)
      reads `time, `rollover, `calls, `callback, `startedAt, `interval, `fired
    {
      && startedAt <= now
      && GetSlot(listed) == SlotAfter(StartSlot(startedAt % WRAP, interval), startedAt, now - startedAt, callback)
      && fired == WrappedFirings(StartSlot(startedAt % WRAP, interval), startedAt, now - startedAt, callback)
    }

    /** Fills in the record when the alarm is started. */
    method Arm(current: u32, nticks: u32, callback: nat -> u32, ghost now: nat)
      requires current == now % WRAP
      modifies `time, `rollover, `calls, `callback, `startedAt, `interval, `fired
      ensures OnSchedule(true, now)
      ensures startedAt == now && interval == nticks && this.callback == callback
    {
      this.callback := callback;
      calls := 0;
      time := (nticks + current + 1) % WRAP;
      if time < current {
        rollover := true;
      } else {
        rollover := false;
      }
      startedAt, interval, fired := now, nticks, [];
    }

    /** What the tick handler does to the record; `again` is false when the callback
        asked to be removed. */
    method Update(nticks: u32, ghost now: nat) returns (again: bool)
      modifies `time, `rollover, `calls, `fired
      ensures GetSlot(again) == Visit(old(GetSlot(true)), nticks, callback)
      ensures fired == old(fired) + if calls != old(calls) then [now] else []
    {
      again := true;
      if rollover && nticks == 0 {
        rollover := false;
      }
      if time <= nticks && !rollover {
        var period := callback(calls);
        calls := calls + 1;
        fired := fired + [now];
        if period == 0 {
          again := false;
        } else {
          time := (time + period) % WRAP;
          if time < nticks {
            rollover := true;
          }
        }
      }
    }

    /** The same to an alarm that is on schedule. */
    method Poll(nticks: u32, ghost now: nat) returns (again: bool)
      requires now > 0 && nticks == now % WRAP && OnSchedule(true, now - 1)
      modifies `time, `rollover, `calls, `fired
      ensures OnSchedule(again, now) && old(fired) <= fired
    {
      hide SlotAfter, WrappedFirings, Visit;
      OneMoreTick(StartSlot(startedAt % WRAP, interval), startedAt, now - 1 - startedAt, callback);
      again := Update(nticks, now);
    }

    /** alt_llist_insert. */
    method LinkAfter(list: Alarm)
      requires list != this
      modifies `next, `previous, list`next, list.next`previous
      ensures next == old(list.next) && list.next == this && old(list.next).previous == this
      ensures old(list.next) != this ==> previous == list
    {
      previous := list;
      next := list.next;
      list.next.previous := this;
      list.next := this;
    }

    /** alt_llist_remove. */
    method Unlink()
      modifies `next, `previous, next`previous, previous`next
      ensures next == this == previous
      ensures old(previous) != this ==> old(previous).next == old(next)
      ensures old(next) != this ==> old(next).previous == old(previous)
    {
      next.previous := previous;
      previous.next := next;
      previous := this;
      next := this;
    }
  }

  /** Every alarm started with an interval that fits has fired at exactly its ideal deadlines. */
  lemma ScheduleIsIdeal(a: Alarm, listed: bool, now: nat)
    requires a.OnSchedule(listed, now) && Startable(a.startedAt % WRAP, a.interval)
    ensures a.fired == IdealFirings(a.startedAt + a.interval + 1, 0, now, a.callback)
  {
    StartableIsExact(a.startedAt, a.interval, now - a.startedAt, a.callback);
  }

  /** Links lead from these records to these records only. */
  ghost predicate Enclosed(world: set<Alarm>)
    reads world`next, world`previous
  {
    forall a :: a in world ==> a.next in world && a.previous in world
  }

  /** Whoever follows the links from inside stays inside and away from the head. */
  ghost predicate Trap(inside: set<Alarm>, head: Alarm)
    reads inside`next
  {
    head !in inside && forall a :: a in inside ==> a.next in inside
  }

  /** Whose history is exact when a tick is under way: the alarms it has dealt
      with, those it has still to visit, and those that ended in it. */
  datatype Book = Book(before: set<Alarm>, after: set<Alarm>, ended: set<Alarm>) {
    ghost function All(): set<Alarm> {
      before + after + ended
    }
  }

  class Service {
    const head: Alarm
    var nticks: u32
    var tickRate: u32
    ghost var now: nat
    ghost var ring: seq<Alarm>  // the head, then the registered alarms in list order

    constructor (tickRate: u32)
      ensures Valid() && fresh(head) && ring == [head] && now == 0
    {
      head := new Alarm();
      this.tickRate, nticks, now := tickRate, 0, 0;
      new;
      ring := [head];
    }

    ghost function Members(): set<Alarm>
      reads `ring
    {
      set a | a in ring
    }

    ghost predicate Linked()
      reads `ring, Members()`next, Members()`previous
    {
      && |ring| > 0 && ring[0] == head
      && Distinct(ring)
      && (forall i {:trigger ring[i].next} :: 0 <= i < |ring| ==>
            ring[i].next == if i + 1 < |ring| then ring[i + 1] else head)
      && (forall i {:trigger ring[i].previous} :: 0 <= i < |ring| ==>
            ring[i].previous == if i > 0 then ring[i - 1] else ring[|ring| - 1])
    }

    ghost predicate Valid()
      reads this, ring
    {
      && Linked()
      && nticks == now % WRAP
      && forall a :: a in ring && a != head ==> a.OnSchedule(true, now)
    }

    /** The registered alarms up to this one. */
    ghost function UpTo(alarm: Alarm): set<Alarm>
      reads `ring
    {
      set i, k | 1 <= i <= k < |ring| && ring[k] == alarm :: ring[i]
    }

    /** alt_llist_insert after the head. An entry that is already in the list closes
        a loop that the head is no longer part of, although it leads there. */
    method Insert(alarm: Alarm)
      requires Linked() && alarm != head
      modifies `ring, Members()`next, Members()`previous, alarm`next, alarm`previous
      ensures old(alarm !in ring) ==> Linked() && ring == [head, alarm] + old(ring)[1..]
      ensures old(alarm in ring) ==>
                ring == old(ring) && Enclosed(Members()) && Trap(UpTo(alarm), head) && head.next in UpTo(alarm)
    {
      if alarm in ring {
        CutOff(alarm);
      }
      assert head in ring && head.next in ring;
      hide Linked, UpTo;
      alarm.LinkAfter(head);
      if alarm !in ring {
        ring := [head, alarm] + ring[1..];
        Inserted(alarm);
      }
    }

    /** The four writes do what they should on an entry that was not listed. */
    twostate lemma Inserted(alarm: Alarm)
      requires old(Linked()) && old(alarm !in ring) && ring == [head, alarm] + old(ring)[1..]
      requires alarm.previous == head && alarm.next == old(head.next) && head.next == alarm
      requires old(head.next).previous == alarm
      requires forall a :: a in old(ring) && a != head ==> a.next == old(a.next)
      requires forall a :: a in old(ring) && a != old(head.next) ==> a.previous == old(a.previous)
      ensures Linked()
    {
    }

    /** The entries up to this one follow one another. */
    lemma CutOff(alarm: Alarm)
      requires Linked() && alarm in ring && alarm != head
      ensures head !in UpTo(alarm) && head.next in UpTo(alarm) && alarm in UpTo(alarm) && UpTo(alarm) <= Members()
      ensures forall a :: a in UpTo(alarm) && a != alarm ==> a.next in UpTo(alarm)
      ensures Enclosed(Members())
    {
      var k :| 0 <= k < |ring| && ring[k] == alarm;
      assert ring[1] in UpTo(alarm) && ring[0].next == ring[1] && ring[k] in UpTo(alarm);
      forall a | a in UpTo(alarm) && a != alarm ensures a.next in UpTo(alarm) {
        var i, l :| 1 <= i <= l < |ring| && ring[l] == alarm && ring[i] == a;
        assert a.next == ring[i + 1];
      }
    }

    /** alt_alarm_stop: `k` is the alarm's place in the list, or 0 when it is
        linked to nothing but itself, in which case the call is harmless. */
    method Stop(alarm: Alarm, ghost k: nat)
      requires Linked() && k < |ring|
      requires if k == 0 then alarm !in ring && alarm.next == alarm == alarm.previous else ring[k] == alarm
      modifies `ring, Members()`next, Members()`previous, alarm`next, alarm`previous
      ensures Linked() && alarm.next == alarm == alarm.previous
      ensures ring == if k == 0 then old(ring) else old(ring)[..k] + old(ring)[k + 1..]
    {
      if k != 0 {
        ring := ring[..k] + ring[k + 1..];
      }
      alarm.Unlink();
    }

    /** alt_alarm_start. */
    method Start(alarm: Alarm?, interval: u32, callback: nat -> u32) returns (rc: int)
      requires Valid() && alarm != head
      modifies `ring, Members()`next, Members()`previous, alarm
      ensures rc != 0 || old(alarm !in ring) ==> Valid()
      ensures rc == 0 && old(alarm in ring) ==>
                ring == old(ring) && Enclosed(Members()) && Trap(UpTo(alarm), head) && head.next in UpTo(alarm)
      ensures rc == if tickRate == 0 then -ENOTSUP else if alarm == null then -EINVAL else 0
      ensures rc == 0 && old(alarm !in ring) ==> ring == [head, alarm] + old(ring)[1..]
      ensures rc == 0 ==> alarm.startedAt == now && alarm.interval == interval && alarm.callback == callback
      ensures rc != 0 ==> ring == old(ring)
    {
      assert |ring| > 0;
      hide Linked, Alarm.OnSchedule, UpTo, Trap, Enclosed;
      if tickRate != 0 {
        if alarm != null {
          alarm.Arm(nticks, interval, callback, now);
          Insert(alarm);
          rc := 0;
        } else {
          rc := -EINVAL;
        }
      } else {
        rc := -ENOTSUP;
      }
    }

    // ------------------------------------------------------------ one tick

    /** The alarms that callbacks start and stop are never the head, and those
        that are not listed point at themselves, as Stop leaves them. */
    ghost predicate PoolOk(pool: set<Alarm>)
      reads `ring, pool`next, pool`previous
    {
      head !in pool && forall a :: a in pool ==> a in ring || a.next == a == a.previous
    }

    /** Listed alarms point on. */
    lemma SelfLinked(a: Alarm)
      requires Linked() && a != head
      ensures a in ring ==> a.next != a
    {
      if a in ring {
        var i :| 0 <= i < |ring| && ring[i] == a;
        assert a.next == if i + 1 < |ring| then ring[i + 1] else head;
      }
    }

    /** A callback stops an alarm. */
    method StopOther(a: Alarm, ghost pool: set<Alarm>)
      requires Linked() && PoolOk(pool) && a in pool
      modifies `ring, Members()`next, Members()`previous, a`next, a`previous
      ensures Linked() && PoolOk(pool) && ring == Without(old(ring), {a})
    {
      ghost var k := Place(a);
      hide Linked, Distinct, Without;
      Stop(a, k);
      WithoutHas(old(ring), {a});
    }

    /** Where an alarm is in the list, and what taking it out leaves. */
    lemma Place(a: Alarm) returns (k: nat)
      requires Linked() && a != head
      ensures k < |ring| && if a in ring then k > 0 && ring[k] == a else k == 0
      ensures Without(ring, {a}) == if k == 0 then ring else ring[..k] + ring[k + 1..]
    {
      k := 0;
      if a in ring {
        k :| 0 <= k < |ring| && ring[k] == a;
        WithoutOne(ring, k);
      } else {
        WithoutNone(ring, {a});
      }
      hide Without, Distinct;
    }

    ghost predicate Scheduled(book: Book)
      reads `now, book.All()`time, book.All()`rollover, book.All()`calls, book.All()`callback,
            book.All()`startedAt, book.All()`interval, book.All()`fired
    {
      && now > 0
      && (forall a :: a in book.before ==> a.OnSchedule(true, now))
      && (forall a :: a in book.after ==> a.OnSchedule(true, now - 1))
      && (forall a :: a in book.ended ==> a.OnSchedule(false, now))
    }

    /** `a` starts anew; nothing else is known of it any more. */
    ghost function Begun(book: Book, a: Alarm): Book {
      Book(book.before + {a}, book.after - {a}, book.ended - {a})
    }

    /** A callback starts an alarm that is not listed. */
    method StartOther(a: Alarm, interval: u32, callback: nat -> u32, ghost pool: set<Alarm>, ghost book: Book)
      requires Linked() && PoolOk(pool) && a in pool && a.next == a && nticks == now % WRAP && Scheduled(book)
      modifies `ring, Members()`next, Members()`previous, a
      ensures Linked() && PoolOk(pool) && old(a !in ring) && ring == [head, a] + old(ring)[1..]
      ensures Scheduled(Begun(book, a))
    {
      hide Linked, Alarm.OnSchedule;
      SelfLinked(a);
      hide PoolOk;
      Rearm(a, interval, callback, book);
      Enlist(a, pool);
    }

    method Rearm(a: Alarm, interval: u32, callback: nat -> u32, ghost book: Book)
      requires nticks == now % WRAP && Scheduled(book)
      modifies a`time, a`rollover, a`calls, a`callback, a`startedAt, a`interval, a`fired
      ensures Scheduled(Begun(book, a))
    {
      hide Alarm.OnSchedule;
      a.Arm(nticks, interval, callback, now);
    }

    method Enlist(a: Alarm, ghost pool: set<Alarm>)
      requires Linked() && PoolOk(pool) && a in pool && a !in ring
      modifies `ring, Members()`next, Members()`previous, a`next, a`previous
      ensures Linked() && PoolOk(pool) && ring == [head, a] + old(ring)[1..]
    {
      Insert(a);
      hide Linked;
      assert forall b :: b in old(ring) ==> b in ring;
    }

    /** The list around the alarm being visited, after callbacks have put
        `started` at its front and taken out `stopped`. */
    ghost function Around(kept: seq<Alarm>, alarm: seq<Alarm>, rest: seq<Alarm>,
                          started: seq<Alarm>, stopped: set<Alarm>): seq<Alarm>
    {
      [head] + started + Without(kept, stopped) + Without(alarm, stopped) + Without(rest, stopped)
    }

    lemma AroundStop(kept: seq<Alarm>, alarm: Alarm, rest: seq<Alarm>, started: seq<Alarm>, stopped: set<Alarm>,
                     a: Alarm)
      requires a != head
      ensures Without(Around(kept, [alarm], rest, started, stopped), {a})
           == Around(kept, [alarm], rest, Without(started, {a}), stopped + {a})
    {
      WithoutAppend([head] + started + Without(kept, stopped) + Without([alarm], stopped), Without(rest, stopped), {a});
      WithoutAppend([head] + started + Without(kept, stopped), Without([alarm], stopped), {a});
      WithoutAppend([head] + started, Without(kept, stopped), {a});
      WithoutAppend([head], started, {a});
      WithoutTwice(kept, stopped, {a});
      WithoutTwice(rest, stopped, {a});
      WithoutTwice([alarm], stopped, {a});
      WithoutNone([head], {a});
      hide Without;
    }

    lemma NothingYet(kept: seq<Alarm>, alarm: Alarm, rest: seq<Alarm>)
      ensures Around(kept, [alarm], rest, [], {}) == [head] + kept + [alarm] + rest
    {
      WithoutNone(kept, {});
      WithoutNone(rest, {});
      WithoutSingle(alarm, {});
      hide Without;
    }

    lemma AroundStart(kept: seq<Alarm>, alarm: Alarm, rest: seq<Alarm>, started: seq<Alarm>, stopped: set<Alarm>,
                      a: Alarm)
      ensures [head, a] + Around(kept, [alarm], rest, started, stopped)[1..]
           == Around(kept, [alarm], rest, [a] + started, stopped)
    {
      hide Without;
    }

    /** The list and the book agree on what has and what has not been dealt with. */
    ghost predicate Booked(kept: seq<Alarm>, rest: seq<Alarm>, started: seq<Alarm>, stopped: set<Alarm>, book: Book) {
      && (forall a :: a in started ==> a in book.before)
      && (forall a :: a in kept && a !in stopped ==> a in book.before)
      && (forall a :: a in rest && a !in stopped ==> a in book.after)
    }

    lemma BookedStart(kept: seq<Alarm>, alarm: Alarm, rest: seq<Alarm>, started: seq<Alarm>, stopped: set<Alarm>,
                      a: Alarm, book: Book)
      requires Booked(kept, rest, started, stopped, book)
      requires a !in Around(kept, [alarm], rest, started, stopped)
      ensures Booked(kept, rest, [a] + started, stopped, Begun(book, a))
    {
      WithoutHas(rest, stopped);
      hide Without;
    }

    lemma BookedStop(kept: seq<Alarm>, rest: seq<Alarm>, started: seq<Alarm>, stopped: set<Alarm>, a: Alarm, book: Book)
      requires Booked(kept, rest, started, stopped, book)
      ensures Booked(kept, rest, Without(started, {a}), stopped + {a}, book)
    {
      WithoutHas(started, {a});
    }

    /** What one or more actions of a callback leave. */
    ghost predicate Acted(alarm: Alarm, next: Alarm, pool: set<Alarm>, kept: seq<Alarm>, rest: seq<Alarm>,
                          started: seq<Alarm>, stopped: set<Alarm>, book: Book, was: Book)
      reads this, ring, pool, book.before, book.after, book.ended
    {
      && Linked() && PoolOk(pool) && nticks == now % WRAP && Scheduled(book)
      && ring == Around(kept, [alarm], rest, started, stopped)
      && Booked(kept, rest, started, stopped, book)
      && next !in stopped && stopped <= pool && alarm !in started && (forall a :: a in started ==> a in pool)
      && book.ended <= was.ended && was.ended - book.ended <= pool
      && (alarm in was.before ==> alarm in book.before) && (alarm in was.ended ==> alarm in book.ended)
    }

    /** One thing a callback may do to the list: stop any alarm but the one that
        comes next, or start one that is not listed and not its own. */
    method Act(alarm: Alarm, next: Alarm, pool: set<Alarm>, ghost kept: seq<Alarm>, ghost rest: seq<Alarm>,
               ghost started: seq<Alarm>, ghost stopped: set<Alarm>, ghost book: Book, ghost was: Book)
      returns (ghost started': seq<Alarm>, ghost stopped': set<Alarm>, ghost book': Book)
      requires Acted(alarm, next, pool, kept, rest, started, stopped, book, was)
      modifies `ring, Members()`next, Members()`previous, pool
      ensures Acted(alarm, next, pool, kept, rest, started', stopped', book', was)
      ensures Members() <= old(Members()) + pool
    {
      hide Alarm.OnSchedule, Linked, Without, Booked;
      started', stopped', book' := started, stopped, book;
      var other: Alarm? := *;
      var stop: bool := *;
      if other != null && other in pool {
        var a: Alarm := other;
        if stop {
          if a != next {
            AroundStop(kept, alarm, rest, started, stopped, a);
            BookedStop(kept, rest, started, stopped, a, book);
            WithoutHas(started, {a});
            WithoutHas(ring, {a});
            StopOther(a, pool);
            started', stopped' := Without(started, {a}), stopped + {a};
          }
        } else if a != alarm && a.next == a {
          var interval: u32 := *;
          var callback: nat -> u32 := *;
          StartOther(a, interval, callback, pool, book);
          AroundStart(kept, alarm, rest, started, stopped, a);
          BookedStart(kept, alarm, rest, started, stopped, a, book);
          started', book' := [a] + started, Begun(book, a);
        }
      }
    }

    /** Any number of such actions. */
    method Callback(alarm: Alarm, next: Alarm, pool: set<Alarm>, ghost kept: seq<Alarm>, ghost rest: seq<Alarm>,
                    ghost was: Book)
      returns (ghost started: seq<Alarm>, ghost stopped: set<Alarm>, ghost book: Book)
      requires Acted(alarm, next, pool, kept, rest, [], {}, was, was)
      modifies `ring, Members()`next, Members()`previous, pool
      ensures Acted(alarm, next, pool, kept, rest, started, stopped, book, was)
      ensures Members() <= old(Members()) + pool
    {
      started, stopped, book := [], {}, was;
      hide Acted;
      var actions: int :| 0 <= actions;
      for i := 0 to actions
        invariant Acted(alarm, next, pool, kept, rest, started, stopped, book, was)
        invariant Members() <= old(Members()) + pool
      {
        started, stopped, book := Act(alarm, next, pool, kept, rest, started, stopped, book, was);
      }
    }

    ghost function Polled(book: Book, alarm: Alarm, again: bool): Book {
      var only := {alarm};
      var kept, ended := if again then only else {}, if again then {} else only;
      Book(book.before - only + kept, book.after - only, book.ended + ended)
    }

    method PollBooked(alarm: Alarm, ghost kept: seq<Alarm>, ghost rest: seq<Alarm>, ghost book: Book)
      returns (again: bool)
      requires nticks == now % WRAP && Scheduled(book) && alarm in book.after && alarm !in book.ended
      requires alarm !in kept && alarm !in rest && Booked(kept, rest, [], {}, book)
      modifies alarm`time, alarm`rollover, alarm`calls, alarm`fired
      ensures var book' := Polled(book, alarm, again); Scheduled(book') && Booked(kept, rest, [], {}, book')
    {
      hide Alarm.OnSchedule;
      again := alarm.Poll(nticks, now);
    }

    /** The alarm is polled, and its callback, if due, acts. Its actions leave this
        alarm's time alone, so they may as well come after its update. */
    method Fire(alarm: Alarm, next: Alarm, pool: set<Alarm>, ghost kept: seq<Alarm>, ghost rest: seq<Alarm>,
                ghost book: Book)
      returns (again: bool, ghost started: seq<Alarm>, ghost stopped: set<Alarm>, ghost book': Book)
      requires Linked() && PoolOk(pool) && nticks == now % WRAP && Scheduled(book)
      requires ring == [head] + kept + [alarm] + rest && alarm in book.after && alarm !in book.ended
      requires alarm !in kept && alarm !in rest && Booked(kept, rest, [], {}, book)
      modifies `ring, Members()`next, Members()`previous, alarm`time, alarm`rollover, alarm`calls, alarm`fired, pool
      ensures Acted(alarm, next, pool, kept, rest, started, stopped, book', Polled(book, alarm, again))
      ensures Members() <= old(Members()) + pool
    {
      hide Alarm.OnSchedule, Linked, PoolOk, Scheduled, Booked, Polled;
      started, stopped := [], {};
      NothingYet(kept, alarm, rest);
      hide Without, Around;
      var calls := alarm.calls;
      again := PollBooked(alarm, kept, rest, book);
      book' := Polled(book, alarm, again);
      assert Acted(alarm, next, pool, kept, rest, started, stopped, book', book');
      hide Acted;
      if alarm.calls != calls {
        started, stopped, book' := Callback(alarm, next, pool, kept, rest, book');
      }
    }

    /** The alarm whose callback returned zero leaves the list, if that callback
        has not already stopped it. */
    method Unlist(alarm: Alarm, ghost pool: set<Alarm>, ghost front: seq<Alarm>, ghost mine: seq<Alarm>,
                  ghost back: seq<Alarm>)
      requires Linked() && PoolOk(pool) && front != [] && ring == front + mine + back
      requires mine == [alarm] || (mine == [] && alarm in pool && alarm !in ring)
      modifies `ring, Members()`next, Members()`previous, alarm`next, alarm`previous
      ensures Linked() && PoolOk(pool) && ring == front + back && Members() <= old(Members())
    {
      assert mine != [] ==> ring[|front|] == alarm && ring[..|front|] == front && ring[|front| + 1..] == back;
      assert mine == [] ==> ring == front + back;
      Stop(alarm, if mine == [] then 0 else |front|);
      hide Linked;
      assert forall a :: a in old(ring) ==> a in ring || a == alarm;
    }

    method UnlistVisited(alarm: Alarm, ghost pool: set<Alarm>, ghost kept: seq<Alarm>, ghost rest: seq<Alarm>,
                         ghost started: seq<Alarm>, ghost stopped: set<Alarm>, ghost book: Book)
      requires Linked() && PoolOk(pool) && ring == Around(kept, [alarm], rest, started, stopped) && Scheduled(book)
      requires alarm != head && alarm !in kept && alarm !in rest && alarm !in started && stopped <= pool
      modifies `ring, Members()`next, Members()`previous, alarm`next, alarm`previous
      ensures Linked() && PoolOk(pool) && ring == Around(kept, [], rest, started, stopped) && Scheduled(book)
      ensures Members() <= old(Members())
    {
      WithoutHas(kept, stopped);
      WithoutHas(rest, stopped);
      WithoutSingle(alarm, stopped);
      hide Without, Alarm.OnSchedule, Linked, PoolOk;
      ghost var front := [head] + started + Without(kept, stopped);
      Unlist(alarm, pool, front, Without([alarm], stopped), Without(rest, stopped));
      assert front + [] == front;
    }

    lemma Successor(alarm: Alarm, kept: seq<Alarm>, rest: seq<Alarm>)
      requires Linked() && ring == [head] + kept + [alarm] + rest
      ensures alarm != head && alarm.next == if rest == [] then head else rest[0]
    {
      assert ring[0] != ring[1 + |kept|] == alarm && (rest != [] ==> ring[2 + |kept|] == rest[0]);
    }

    /** One turn of the tick handler's loop. The link to the next alarm is
        fetched before the callback, which may take the current alarm out of
        the list, as its result zero does. */
    method Visit(alarm: Alarm, pool: set<Alarm>, ghost kept: seq<Alarm>, ghost rest: seq<Alarm>, ghost book: Book)
      returns (next: Alarm, again: bool, ghost started: seq<Alarm>, ghost stopped: set<Alarm>, ghost book': Book)
      requires Linked() && PoolOk(pool) && nticks == now % WRAP && Scheduled(book)
      requires ring == [head] + kept + [alarm] + rest && alarm in book.after && alarm !in book.ended
      requires alarm !in kept && alarm !in rest && Booked(kept, rest, [], {}, book)
      modifies `ring, Members()`next, Members()`previous, alarm`time, alarm`rollover, alarm`calls, alarm`fired, pool
      ensures Linked() && PoolOk(pool) && nticks == now % WRAP && Scheduled(book')
      ensures ring == Around(kept, if again then [alarm] else [], rest, started, stopped)
      ensures Booked(kept, rest, started, stopped, book')
      ensures next == if rest == [] then head else rest[0]
      ensures next !in stopped && stopped <= pool && Members() <= old(Members()) + pool
      ensures forall a :: a in started ==> a in pool
      ensures if again then alarm in book'.before else alarm in book'.ended
      ensures book'.ended <= book.ended + (if again then {} else {alarm}) && book.ended - book'.ended <= pool
    {
      hide Alarm.OnSchedule, Without, Around, Linked, PoolOk, Scheduled, Booked;
      Successor(alarm, kept, rest);
      next := alarm.next;
      again, started, stopped, book' := Fire(alarm, next, pool, kept, rest, book);
      if !again {
        UnlistVisited(alarm, pool, kept, rest, started, stopped, book');
      }
    }

    /** In the middle of a tick of a list that began as `all`: `done` has been
        passed, `gone` has left its place, and `recent` is new at the front. */
    ghost predicate Partway(pool: set<Alarm>, all: seq<Alarm>, done: seq<Alarm>, todo: seq<Alarm>,
                            recent: seq<Alarm>, gone: set<Alarm>, book: Book)
      reads this, ring, pool, book.All()
    {
      && Linked() && PoolOk(pool) && nticks == now % WRAP && Scheduled(book)
      && all == done + todo && Distinct(all)
      && ring == [head] + recent + Without(done, gone) + Without(todo, gone)
      && (forall a :: a in recent ==> a in book.before && a in pool)
      && (forall a :: a in Without(done, gone) ==> a in book.before)
      && (forall a :: a in Without(todo, gone) ==> a in book.after)
      && book.ended <= gone && gone - book.ended <= pool
    }

    /** Where the loop of alt_tick stands. */
    ghost function Standing(todo: seq<Alarm>, gone: set<Alarm>): Alarm {
      var left := Without(todo, gone);
      if left == [] then head else left[0]
    }

    /** The visit, within the list that the tick has left so far. */
    method VisitNext(alarm: Alarm, pool: set<Alarm>, ghost all: seq<Alarm>, ghost done: seq<Alarm>,
                     ghost todo: seq<Alarm>, ghost recent: seq<Alarm>, ghost gone: set<Alarm>, ghost book: Book)
      returns (next: Alarm, ghost done': seq<Alarm>, ghost todo': seq<Alarm>, ghost recent': seq<Alarm>,
               ghost gone': set<Alarm>, ghost book': Book)
      requires Partway(pool, all, done, todo, recent, gone, book)
      requires Without(todo, gone) != [] && alarm == Standing(todo, gone)
      modifies `ring, Members()`next, Members()`previous, alarm`time, alarm`rollover, alarm`calls, alarm`fired, pool
      ensures Partway(pool, all, done', todo', recent', gone', book')
      ensures |todo'| < |todo| && next == Standing(todo', gone') && Members() <= old(Members()) + pool
    {
      hide Alarm.OnSchedule, Linked, PoolOk, Without, Partway, Around, Distinct, Standing, Scheduled, Booked;
      ghost var i := FirstTurn(alarm, todo, gone);
      ghost var kept, rest := recent + Without(done, gone), Without(todo[i + 1..], gone);
      AtTurn(pool, all, done, todo, recent, gone, book, Without(done, gone), alarm, rest);
      var again;
      ghost var started, stopped;
      next, again, started, stopped, book' := Visit(alarm, pool, kept, rest, book);
      done', todo', recent' := done + todo[..i + 1], todo[i + 1..], started + Without(recent, stopped);
      gone' := gone + stopped + if again then {} else {alarm};
      AfterTurn(pool, all, done, todo, recent, gone, i, again, started, stopped, next, book');
    }

    lemma FirstTurn(alarm: Alarm, todo: seq<Alarm>, gone: set<Alarm>) returns (i: nat)
      requires Without(todo, gone) != [] && alarm == Standing(todo, gone)
      ensures i < |todo| && todo[i] == alarm && alarm !in gone && Without(todo[..i], gone) == []
      ensures [alarm] + Without(todo[i + 1..], gone) == Without(todo, gone)
    {
      i := FirstLeft(todo, gone);
      hide Without;
    }

    lemma AtTurn(pool: set<Alarm>, all: seq<Alarm>, done: seq<Alarm>, todo: seq<Alarm>, recent: seq<Alarm>,
                 gone: set<Alarm>, book: Book, visited: seq<Alarm>, alarm: Alarm, rest: seq<Alarm>)
      requires Partway(pool, all, done, todo, recent, gone, book)
      requires visited == Without(done, gone) && [alarm] + rest == Without(todo, gone) && alarm !in gone
      ensures ring == [head] + (recent + visited) + [alarm] + rest && alarm in book.after && alarm !in book.ended
      ensures alarm !in recent + visited && alarm !in rest && alarm in ring
      ensures Booked(recent + visited, rest, [], {}, book)
      ensures Linked() && PoolOk(pool) && nticks == now % WRAP && Scheduled(book)
      ensures all == done + todo && Distinct(all) && book.ended <= gone && gone - book.ended <= pool
      ensures forall a :: a in recent ==> a in pool
    {
      hide Alarm.OnSchedule, Without, Scheduled, PoolOk;
      InARow(head, recent, visited, alarm, rest);
      assert Distinct([head] + (recent + visited) + [alarm] + rest);
      hide Linked;
      Alone(head, recent + visited, alarm, rest);
      hide Distinct;
    }

    /** The bookkeeping of one turn. */
    lemma AfterTurn(pool: set<Alarm>, all: seq<Alarm>, done: seq<Alarm>, todo: seq<Alarm>, recent: seq<Alarm>,
                    gone: set<Alarm>, i: nat, again: bool, started: seq<Alarm>, stopped: set<Alarm>, next: Alarm,
                    book: Book)
      requires i < |todo| && todo[i] !in gone && Without(todo[..i], gone) == []
      requires Linked() && PoolOk(pool) && nticks == now % WRAP && Scheduled(book)
      requires all == done + todo && Distinct(all)
      requires var kept, rest := recent + Without(done, gone), Without(todo[i + 1..], gone);
               && ring == Around(kept, if again then [todo[i]] else [], rest, started, stopped)
               && Booked(kept, rest, started, stopped, book)
               && next == (if rest == [] then head else rest[0])
      requires forall a :: a in recent ==> a in pool
      requires forall a :: a in started ==> a in pool
      requires next !in stopped && (if again then todo[i] in book.before else todo[i] in book.ended)
      requires var gone' := gone + stopped + if again then {} else {todo[i]};
               book.ended <= gone' && gone' - book.ended <= pool
      ensures var gone' := gone + stopped + if again then {} else {todo[i]};
              var recent', done', todo' := started + Without(recent, stopped), done + todo[..i + 1], todo[i + 1..];
              Partway(pool, all, done', todo', recent', gone', book) && next == Standing(todo', gone')
    {
      var ended: set<Alarm> := if again then {} else {todo[i]};
      var visited, rest := Without(done, gone), Without(todo[i + 1..], gone);
      var mine := Without(if again then [todo[i]] else [], stopped);
      WithoutSingle(todo[i], stopped);
      WithoutSingle(todo[i], stopped + ended);
      hide Without;
      Turn(head, done, todo, recent, gone, i, started, stopped, ended);
      NextStands(rest, stopped, next);
      Rebooked(recent, visited, rest, started, stopped, mine, book);
      hide Alarm.OnSchedule, Linked, PoolOk, Distinct, Scheduled, Booked;
    }

    lemma Rebooked(recent: seq<Alarm>, visited: seq<Alarm>, rest: seq<Alarm>, started: seq<Alarm>,
                   stopped: set<Alarm>, mine: seq<Alarm>, book: Book)
      requires Booked(recent + visited, rest, started, stopped, book) && forall a :: a in mine ==> a in book.before
      ensures forall a :: a in started + Without(recent, stopped) ==> a in book.before && (a in started || a in recent)
      ensures forall a :: a in Without(visited, stopped) + mine ==> a in book.before
      ensures forall a :: a in Without(rest, stopped) ==> a in book.after
    {
      WithoutHas(recent, stopped);
      WithoutHas(visited, stopped);
      WithoutHas(rest, stopped);
      hide Without;
    }

    /** The alarm that was next, and was not stopped, is where the loop stands. */
    lemma NextStands(rest: seq<Alarm>, stopped: set<Alarm>, next: Alarm)
      requires next == (if rest == [] then head else rest[0]) && next !in stopped
      ensures next == var left := Without(rest, stopped); if left == [] then head else left[0]
    {
    }

    /** The loop of alt_tick. */
    method Walk(pool: set<Alarm>, ghost all: seq<Alarm>, ghost book: Book)
      returns (ghost started: seq<Alarm>, ghost gone: set<Alarm>, ghost ended: set<Alarm>)
      requires Partway(pool, all, [], all, [], {}, book) && head.next == Standing(all, {})
      modifies `ring, Members()`next, Members()`previous,
               Members()`time, Members()`rollover, Members()`calls, Members()`fired, pool
      ensures Valid() && PoolOk(pool) && ring == [head] + started + Without(all, gone)
      ensures ended <= gone && gone - ended <= pool
      ensures forall a :: a in ended ==> a.OnSchedule(false, now)
      ensures forall a :: a in started ==> a in pool
    {
      hide Alarm.OnSchedule, Distinct, Partway, Linked, Valid, PoolOk, Without, Standing, Scheduled;
      var alarm := head.next;
      ghost var done, todo, latest := [], all, book;
      started, gone := [], {};
      while alarm != head
        invariant Members() <= old(Members()) + pool
        invariant Partway(pool, all, done, todo, started, gone, latest) && alarm == Standing(todo, gone)
        decreases |todo|
      {
        StandsInRing(pool, all, done, todo, started, gone, latest);
        alarm, done, todo, started, gone, latest := VisitNext(alarm, pool, all, done, todo, started, gone, latest);
      }
      StandsInRing(pool, all, done, todo, started, gone, latest);
      EveryoneVisited(pool, all, done, todo, started, gone, latest);
      ended := latest.ended;
    }

    /** alt_tick. Callbacks may start and stop the alarms in `pool`; `started` is
        what they put at the front of the list and `gone` what left its place,
        `ended` being those whose own callback returned zero. */
    method Tick(pool: set<Alarm>) returns (ghost started: seq<Alarm>, ghost gone: set<Alarm>, ghost ended: set<Alarm>)
      requires Valid() && PoolOk(pool)
      modifies `nticks, `now, `ring, Members()`next, Members()`previous,
               Members()`time, Members()`rollover, Members()`calls, Members()`fired, pool
      ensures Valid() && PoolOk(pool) && now == old(now) + 1
      ensures ring == [head] + started + Without(old(ring)[1..], gone)
      ensures ended <= gone && gone - ended <= pool
      ensures forall a :: a in ended ==> a.OnSchedule(false, now)
      ensures forall a :: a in started ==> a in pool
    {
      assert |ring| > 0;
      hide Alarm.OnSchedule, Distinct, Partway, Linked, Valid, PoolOk, Without, Standing, Scheduled;
      CountTick(pool);
      started, gone, ended := Walk(pool, ring[1..], Book({}, set a | a in ring[1..], {}));
    }

    method CountTick(ghost pool: set<Alarm>)
      requires Valid() && PoolOk(pool)
      modifies `nticks, `now
      ensures now == old(now) + 1
      ensures Partway(pool, ring[1..], [], ring[1..], [], {}, Book({}, set a | a in ring[1..], {}))
      ensures head.next == Standing(ring[1..], {})
    {
      nticks := (nticks + 1) % WRAP;
      now := now + 1;
      NobodyVisited(pool);
      hide Alarm.OnSchedule, Partway, Linked, Standing;
    }

    lemma NobodyVisited(pool: set<Alarm>)
      requires Linked() && PoolOk(pool) && now > 0 && nticks == now % WRAP
      requires forall a :: a in ring && a != head ==> a.OnSchedule(true, now - 1)
      ensures Partway(pool, ring[1..], [], ring[1..], [], {}, Book({}, set a | a in ring[1..], {}))
      ensures head.next == Standing(ring[1..], {})
    {
      hide Alarm.OnSchedule, PoolOk;
      var all := ring[1..];
      assert ring[0] == head && ring[0].next == if all == [] then head else all[0];
      Tail(ring);
      hide Linked;
      WithoutNone(all, {});
      assert Without<Alarm>([], {}) == [];
      hide Without, Distinct;
    }

    lemma StandsInRing(pool: set<Alarm>, all: seq<Alarm>, done: seq<Alarm>, todo: seq<Alarm>,
                       recent: seq<Alarm>, gone: set<Alarm>, book: Book)
      requires Partway(pool, all, done, todo, recent, gone, book)
      ensures Standing(todo, gone) == head <==> Without(todo, gone) == []
      ensures Standing(todo, gone) in Members()
    {
      hide Alarm.OnSchedule, Without, Scheduled, PoolOk;
      var left := Without(todo, gone);
      var front := [head] + recent + Without(done, gone);
      assert ring == front + left;
      assert ring[0] == head && head in ring;
      assert left != [] ==> ring[|front|] == left[0] && ring[0] != ring[|front|];
    }

    lemma EveryoneVisited(pool: set<Alarm>, all: seq<Alarm>, done: seq<Alarm>, todo: seq<Alarm>,
                          recent: seq<Alarm>, gone: set<Alarm>, book: Book)
      requires Partway(pool, all, done, todo, recent, gone, book) && Without(todo, gone) == []
      ensures Valid() && PoolOk(pool) && ring == [head] + recent + Without(all, gone)
      ensures book.ended <= gone && gone - book.ended <= pool
      ensures forall a :: a in book.ended ==> a.OnSchedule(false, now)
      ensures forall a :: a in recent ==> a in pool
    {
      hide Alarm.OnSchedule, Linked, PoolOk, Distinct;
      WithoutAppend(done, todo, gone);
      hide Without;
    }
  }
}
