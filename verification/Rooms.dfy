/** Concurrent activation and hibernation of rooms against the budget of active rooms. */
module Rooms {

  const MAX_ACTIVE: nat := 3

  // Where the thread holding a room's mutex stands; a room whose mutex is free is Asleep or Active.
  datatype Phase =
    | Asleep
    | Deciding(seen: nat, over: bool) // the counter was read, the swap not yet attempted
    | Reserved                        // the swap succeeded, the room still reads as sleeping
    | Loading
    | Refused                         // put back to sleep for lack of memory, the slot not yet returned
    | Active
    | Hibernating
    | Written                         // put to sleep after its snapshot, the slot not yet returned
  {
    // The state other threads see without the mutex.
    predicate Sleeping() {
      Asleep? || Deciding? || Reserved? || Refused? || Written?
    }

    predicate HoldsSlot() {
      !Asleep? && !Deciding?
    }
  }

  datatype State = State(counter: int, rooms: map<string, Phase>)

  // One atomic step of the thread that holds, or takes, the mutex of a room.
  datatype Action =
    | Register(room: string)
    | Begin(room: string, over: bool)       // activate a sleeping room: read the counter
    | Swap(room: string, spurious: bool)    // compare and swap; a failed one reads the counter again
    | Load(room: string)
    | Loaded(room: string, fits: bool)
    | GiveBack(room: string)
    | Hibernate(room: string)
    | Snapshot(room: string, saved: bool)
    | Release(room: string)

  function At(s: State, room: string): Phase {
    if room in s.rooms then s.rooms[room] else Asleep
  }

  predicate Enabled(s: State, a: Action) {
    match a
    case Register(room) => room !in s.rooms
    case Begin(room, _) => room in s.rooms && At(s, room).Asleep?
    case Swap(room, _) => At(s, room).Deciding?
    case Load(room) => At(s, room).Reserved?
    case Loaded(room, _) => At(s, room).Loading?
    case GiveBack(room) => At(s, room).Refused?
    case Hibernate(room) => At(s, room).Active?
    case Snapshot(room, _) => At(s, room).Hibernating?
    case Release(room) => At(s, room).Written?
  }

  function Step(s: State, a: Action): State {
    match a
    case Register(room) => s.(rooms := s.rooms[room := Asleep])
    case Begin(room, over) => s.(rooms := s.rooms[room := Deciding(if s.counter < 0 then 0 else s.counter, over)])
    case Swap(room, spurious) =>
      var p := At(s, room);
      if !p.Deciding? then s
      else if p.seen >= MAX_ACTIVE && !p.over then s.(rooms := s.rooms[room := Asleep])
      else if s.counter == p.seen && !spurious then State(s.counter + 1, s.rooms[room := Reserved])
      else s.(rooms := s.rooms[room := Deciding(if s.counter < 0 then 0 else s.counter, p.over)])
    case Load(room) => s.(rooms := s.rooms[room := Loading])
    case Loaded(room, fits) => s.(rooms := s.rooms[room := if fits then Active else Refused])
    case GiveBack(room) => State(s.counter - 1, s.rooms[room := Asleep])
    case Hibernate(room) => s.(rooms := s.rooms[room := Hibernating])
    case Snapshot(room, saved) => s.(rooms := s.rooms[room := if saved then Written else Active])
    case Release(room) => State(s.counter - 1, s.rooms[room := Asleep])
  }

  function Holders(rooms: map<string, Phase>): set<string> {
    set r | r in rooms && rooms[r].HoldsSlot()
  }

  function NotSleeping(rooms: map<string, Phase>): set<string> {
    set r | r in rooms && !rooms[r].Sleeping()
  }

  // The counter is the number of slots held, exactly.
  predicate Counted(s: State) {
    s.counter == |Holders(s.rooms)|
  }

  // An activation that may ignore the budget is under way.
  predicate SomeOver(s: State) {
    exists r :: r in s.rooms && s.rooms[r].Deciding? && s.rooms[r].over
  }

  lemma HoldersSet(rooms: map<string, Phase>, room: string, p: Phase)
    ensures Holders(rooms[room := p]) == if p.HoldsSlot() then Holders(rooms) + {room} else Holders(rooms) - {room}
  {
  }

  lemma StepCounts(s: State, a: Action)
    requires Counted(s) && Enabled(s, a)
    ensures Counted(Step(s, a))
  {
    hide Holders;
    var room := a.room;
    HoldersSet(s.rooms, room, At(Step(s, a), room));
    HoldersHas(s.rooms, room);
    if Step(s, a).rooms != s.rooms {
      assert Step(s, a).rooms == s.rooms[room := At(Step(s, a), room)];
    }
  }

  lemma HoldersHas(rooms: map<string, Phase>, room: string)
    ensures room in Holders(rooms) <==> room in rooms && rooms[room].HoldsSlot()
    ensures room in Holders(rooms) ==> |Holders(rooms) + {room}| == |Holders(rooms)|
    ensures room !in Holders(rooms) ==> |Holders(rooms) + {room}| == |Holders(rooms)| + 1
    ensures room in Holders(rooms) ==> |Holders(rooms) - {room}| == |Holders(rooms)| - 1
    ensures room !in Holders(rooms) ==> |Holders(rooms) - {room}| == |Holders(rooms)|
  {
    var h := Holders(rooms);
    if room in h { assert h + {room} == h; } else { assert h - {room} == h; }
  }

  lemma StepBounded(s: State, a: Action)
    requires Counted(s) && s.counter <= MAX_ACTIVE && !SomeOver(s) && Enabled(s, a) && !(a.Begin? && a.over)
    ensures Step(s, a).counter <= MAX_ACTIVE && !SomeOver(Step(s, a))
  {
    var t := Step(s, a);
    forall r | r in t.rooms && t.rooms[r].Deciding?
      ensures !t.rooms[r].over
    {
      if r in s.rooms && s.rooms[r].Deciding? { assert !s.rooms[r].over; }
    }
  }

  // -------- runs --------

  ghost predicate CanRun(s: State, run: seq<Action>)
    decreases |run|
  {
    run == [] || (Enabled(s, run[0]) && CanRun(Step(s, run[0]), run[1..]))
  }

  function Final(s: State, run: seq<Action>): State
    decreases |run|
  {
    if run == [] then s else Final(Step(s, run[0]), run[1..])
  }

  const START: State := State(0, map[])

  predicate WithinBudget(run: seq<Action>) {
    forall i :: 0 <= i < |run| ==> !(run[i].Begin? && run[i].over)
  }

  lemma {:induction false} RunCounts(s: State, run: seq<Action>)
    requires Counted(s) && CanRun(s, run)
    ensures Counted(Final(s, run))
    decreases |run|
  {
    if run != [] {
      StepCounts(s, run[0]);
      RunCounts(Step(s, run[0]), run[1..]);
    }
  }

  lemma {:induction false} RunBounded(s: State, run: seq<Action>)
    requires Counted(s) && CanRun(s, run) && WithinBudget(run) && s.counter <= MAX_ACTIVE && !SomeOver(s)
    ensures Final(s, run).counter <= MAX_ACTIVE
    decreases |run|
  {
    if run != [] {
      StepCounts(s, run[0]);
      StepBounded(s, run[0]);
      RunBounded(Step(s, run[0]), run[1..]);
    }
  }

  // In every interleaving the rooms that are not asleep are at most the counter; outside recovery the counter never
  // exceeds the budget; and when no operation is under way it is exactly the number of active rooms.
  lemma SlotsHold(run: seq<Action>)
    requires CanRun(START, run)
    ensures var s := Final(START, run);
            && |NotSleeping(s.rooms)| <= s.counter
            && (WithinBudget(run) ==> s.counter <= MAX_ACTIVE)
            && ((forall r :: r in s.rooms ==> s.rooms[r].Asleep? || s.rooms[r].Active?) ==>
                  s.counter == |NotSleeping(s.rooms)|)
  {
    assert Holders(START.rooms) == {};
    RunCounts(START, run);
    if WithinBudget(run) { RunBounded(START, run); }
    var s := Final(START, run);
    assert NotSleeping(s.rooms) <= Holders(s.rooms);
    SubsetSize(NotSleeping(s.rooms), Holders(s.rooms));
    if forall r :: r in s.rooms ==> s.rooms[r].Asleep? || s.rooms[r].Active? {
      assert NotSleeping(s.rooms) == Holders(s.rooms);
    }
  }

  lemma SubsetSize(a: set<string>, b: set<string>)
    requires a <= b
    ensures |a| <= |b|
  {
    assert b == a + (b - a);
  }

  // Undisturbed, an activation succeeds if and only if fewer than three slots are taken or it may ignore the budget, as
  // recovery does; it then takes one slot, and a refusal changes nothing.
  lemma ActivationIff(s: State, room: string, over: bool)
    requires Counted(s) && room in s.rooms && s.rooms[room].Asleep?
    ensures var decided := Step(Step(s, Begin(room, over)), Swap(room, false));
            if s.counter < 3 || over then
              var t := Step(Step(decided, Load(room)), Loaded(room, true));
              && Enabled(decided, Load(room)) && Enabled(Step(decided, Load(room)), Loaded(room, true))
              && t == State(s.counter + 1, s.rooms[room := Active])
            else decided == s
  {
    var decided := Step(Step(s, Begin(room, over)), Swap(room, false));
    if s.counter >= 3 && !over {
      assert decided.rooms == s.rooms[room := Asleep] == s.rooms;
    } else {
      assert decided.rooms == s.rooms[room := Reserved];
    }
  }

  // Another thread that took a slot in between only makes the swap try again, with what the counter is then; a room that
  // does not fit in memory gives its slot back, and so does a room that goes to sleep, while a failed snapshot keeps it.
  lemma SlotsComeBack(s: State, room: string)
    requires Counted(s) && room in s.rooms
    ensures s.rooms[room].Deciding? && (s.rooms[room].over || s.rooms[room].seen < 3) && s.counter != s.rooms[room].seen ==>
              Step(s, Swap(room, false)) == State(s.counter, s.rooms[room := Deciding(s.counter, s.rooms[room].over)])
    ensures s.rooms[room].Loading? ==>
              Step(Step(s, Loaded(room, false)), GiveBack(room)) == State(s.counter - 1, s.rooms[room := Asleep])
    ensures s.rooms[room].Active? ==>
              Step(Step(Step(s, Hibernate(room)), Snapshot(room, true)), Release(room)) ==
              State(s.counter - 1, s.rooms[room := Asleep])
    ensures s.rooms[room].Active? ==> Step(Step(s, Hibernate(room)), Snapshot(room, false)) == s
  {
    if s.rooms[room].Loading? {
      assert Step(Step(s, Loaded(room, false)), GiveBack(room)).rooms == s.rooms[room := Asleep];
    }
    if s.rooms[room].Active? {
      assert Step(Step(Step(s, Hibernate(room)), Snapshot(room, true)), Release(room)).rooms == s.rooms[room := Asleep];
      assert Step(Step(s, Hibernate(room)), Snapshot(room, false)).rooms == s.rooms[room := Active] == s.rooms;
    }
  }
}
