/** What the loop of the tick handler does once it has left the list. Nothing is
    assumed here about the list itself: its links may lead anywhere. */
module AlarmTraps {
  import opened Words
  import opened AlarmService

  /** Stopping an alarm opens a trap if and only if the alarm is outside, its
      predecessor inside and its successor not. */
  method StopInTrap(a: Alarm, head: Alarm, ghost inside: set<Alarm>, ghost world: set<Alarm>)
    requires Trap(inside, head) && Enclosed(world) && a in world && inside <= world
    modifies world`next, world`previous
    ensures Enclosed(world) && a.next == a
    ensures Trap(inside, head) <==> a in inside || old(a.previous) !in inside || old(a.next) in inside
  {
    a.Unlink();
    ghost var p := old(a.previous);
    assert forall b :: b in inside && b != a && b != p ==> b.next == old(b.next);
    assert p in inside && p != a ==> p.next == old(a.next);
  }

  /** Starting an alarm opens a trap if and only if the alarm is inside and the
      head of the list does not lead there. */
  method StartInTrap(a: Alarm, s: Service, interval: u32, callback: nat -> u32,
                     ghost inside: set<Alarm>, ghost world: set<Alarm>)
    requires Trap(inside, s.head) && Enclosed(world) && a in world && s.head in world && inside <= world
    requires a != s.head && s.nticks == s.now % WRAP
    modifies world
    ensures Enclosed(world)
    ensures Trap(inside, s.head) <==> a !in inside || old(s.head.next) in inside
  {
    hide Alarm.OnSchedule;
    a.Arm(s.nticks, interval, callback, s.now);
    a.LinkAfter(s.head);
    assert forall b :: b in inside && b != a ==> b.next == old(b.next);
  }

  /** One thing that a callback may do without opening the trap. */
  method ActInTrap(s: Service, inside: set<Alarm>, world: set<Alarm>)
    requires Trap(inside, s.head) && Enclosed(world) && s.head in world && inside <= world
    requires s.nticks == s.now % WRAP
    modifies world
    ensures Trap(inside, s.head) && Enclosed(world)
  {
    hide Trap, Enclosed;
    var other: Alarm? := *;
    var stop: bool := *;
    if other != null && other in world && other != s.head {
      var a: Alarm := other;
      if stop {
        if a in inside || a.previous !in inside || a.next in inside {
          StopInTrap(a, s.head, inside, world);
        }
      } else if a !in inside || s.head.next in inside {
        var interval: u32 := *;
        var callback: nat -> u32 := *;
        StartInTrap(a, s, interval, callback, inside, world);
      }
    }
  }

  /** One turn of the loop of alt_tick. */
  method TurnInTrap(s: Service, alarm: Alarm, inside: set<Alarm>, world: set<Alarm>) returns (next: Alarm)
    requires Trap(inside, s.head) && Enclosed(world) && s.head in world && inside <= world
    requires s.nticks == s.now % WRAP && alarm in inside
    modifies world
    ensures Trap(inside, s.head) && Enclosed(world) && next in inside
  {
    next := alarm.next;
    var calls := alarm.calls;
    hide Alarm.GetSlot, WrappingClock.Visit;
    var again := alarm.Update(s.nticks, s.now);
    if alarm.calls != calls {
      var actions: int :| 0 <= actions;
      for i := 0 to actions
        invariant Trap(inside, s.head) && Enclosed(world)
      {
        ActInTrap(s, inside, world);
      }
    }
    if !again {
      StopInTrap(alarm, s.head, inside, world);
    }
  }

  /** However often the loop turns, it is not at the head, where it would end. */
  method NeverEnds(s: Service, alarm: Alarm, inside: set<Alarm>, world: set<Alarm>, turns: nat)
    returns (reached: Alarm)
    requires Trap(inside, s.head) && Enclosed(world) && s.head in world && inside <= world
    requires s.nticks == s.now % WRAP && alarm in inside
    modifies world
    ensures Trap(inside, s.head) && Enclosed(world) && reached in inside && reached != s.head
  {
    reached := alarm;
    for i := 0 to turns
      invariant Trap(inside, s.head) && Enclosed(world) && reached in inside
    {
      reached := TurnInTrap(s, reached, inside, world);
    }
  }

  /** A callback has stopped the alarm whose turn is next. */
  method LoopOnStopped(s: Service, next: Alarm, world: set<Alarm>, turns: nat) returns (reached: Alarm)
    requires Enclosed(world) && s.head in world && next in world && next != s.head && s.nticks == s.now % WRAP
    modifies world
    ensures reached == next && next.next == next
  {
    StopInTrap(next, s.head, {}, world);
    reached := NeverEnds(s, next, {next}, world, turns);
  }

  /** An alarm that is already in the list is started. */
  method Restart(s: Service, alarm: Alarm, interval: u32, callback: nat -> u32, ghost inside: set<Alarm>,
                 ghost world: set<Alarm>)
    requires s.Valid() && s.tickRate != 0 && alarm in s.ring && alarm != s.head
    requires inside == s.UpTo(alarm) && world == s.Members()
    modifies s`ring, world
    ensures Trap(inside, s.head) && Enclosed(world) && s.head in world && inside <= world
    ensures s.head.next in inside && s.nticks == s.now % WRAP
  {
    s.CutOff(alarm);
    assert s.head in world;
    hide Alarm.OnSchedule, Service.UpTo, Service.Linked, Trap, Enclosed;
    var rc := s.Start(alarm, interval, callback);
  }

  /** A tick whose list begins inside. */
  method TickInTrap(s: Service, inside: set<Alarm>, world: set<Alarm>, turns: nat) returns (reached: Alarm)
    requires Trap(inside, s.head) && Enclosed(world) && s.head in world && inside <= world
    requires s.head.next in inside && s.nticks == s.now % WRAP
    modifies s`nticks, s`now, world
    ensures reached in inside && reached != s.head
  {
    s.nticks, s.now := (s.nticks + 1) % WRAP, s.now + 1;
    reached := NeverEnds(s, s.head.next, inside, world, turns);
  }

  /** No tick ends after that. */
  method LoopAfterRestart(s: Service, alarm: Alarm, interval: u32, callback: nat -> u32, inside: set<Alarm>,
                          world: set<Alarm>, turns: nat) returns (reached: Alarm)
    requires s.Valid() && s.tickRate != 0 && alarm in s.ring && alarm != s.head
    requires inside == s.UpTo(alarm) && world == s.Members()
    modifies s`ring, s`nticks, s`now, world
    ensures reached in inside && reached != s.head
  {
    hide Service.Valid, Service.UpTo, Service.Members, Trap, Enclosed;
    Restart(s, alarm, interval, callback, inside, world);
    reached := TickInTrap(s, inside, world, turns);
  }
}
