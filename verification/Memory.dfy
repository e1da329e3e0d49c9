/** Resident bytes: what each room and the whole process are charged. */
module Memory {
  import opened Node
  import opened Sums

  // A room of the registry: awake or asleep, and its resident bytes.
  datatype RoomInfo = RoomInfo(awake: bool, bytes: int)

  // The estimated cost of a record: its key, its value and a fixed overhead.
  function RecordCost(k: Key, r: Record, overhead: nat): nat {
    |k.name| + |r.value| + overhead
  }

  function Costs(ram: map<Key, Record>, overhead: nat): map<Key, nat> {
    map k | k in ram :: RecordCost(k, ram[k], overhead)
  }

  ghost function Cost(ram: map<Key, Record>, overhead: nat): nat {
    Sum(Costs(ram, overhead))
  }

  function InRoom(ram: map<Key, Record>, room: string): map<Key, Record> {
    map k | k in ram && k.room == room :: ram[k]
  }

  // Each room is charged exactly for its resident records, and the process for all of them.
  ghost predicate Charged(ram: map<Key, Record>, rooms: map<string, RoomInfo>, total: int, overhead: nat) {
    && total == Cost(ram, overhead)
    && (forall k :: k in ram ==> k.room in rooms && rooms[k.room].awake)
    && (forall room :: room in rooms ==> rooms[room].bytes == Cost(InRoom(ram, room), overhead))
  }

  function Recharged(rooms: map<string, RoomInfo>, room: string, delta: int): map<string, RoomInfo>
    requires room in rooms
  {
    rooms[room := rooms[room].(bytes := rooms[room].bytes + delta)]
  }

  lemma CostPut(ram: map<Key, Record>, k: Key, r: Record, overhead: nat)
    requires k !in ram
    ensures Cost(ram[k := r], overhead) == Cost(ram, overhead) + RecordCost(k, r, overhead)
  {
    SumAdd(Costs(ram, overhead), k, RecordCost(k, r, overhead));
    assert Costs(ram[k := r], overhead) == Costs(ram, overhead)[k := RecordCost(k, r, overhead)];
  }

  lemma CostDrop(ram: map<Key, Record>, k: Key, overhead: nat)
    requires k in ram
    ensures Cost(ram, overhead) == Cost(ram - {k}, overhead) + RecordCost(k, ram[k], overhead)
  {
    CostPut(ram - {k}, k, ram[k], overhead);
    assert (ram - {k})[k := ram[k]] == ram;
  }

  lemma ChargedPut(ram: map<Key, Record>, rooms: map<string, RoomInfo>, total: int, overhead: nat, k: Key, r: Record)
    requires Charged(ram, rooms, total, overhead) && k !in ram && k.room in rooms && rooms[k.room].awake
    ensures var c := RecordCost(k, r, overhead);
            Charged(ram[k := r], Recharged(rooms, k.room, c), total + c, overhead)
  {
    hide Cost, RecordCost;
    CostPut(ram, k, r, overhead);
    CostPut(InRoom(ram, k.room), k, r, overhead);
    forall room | room in rooms
      ensures InRoom(ram[k := r], room) == if room == k.room then InRoom(ram, room)[k := r] else InRoom(ram, room)
    {}
  }

  lemma ChargedDrop(ram: map<Key, Record>, rooms: map<string, RoomInfo>, total: int, overhead: nat, k: Key)
    requires Charged(ram, rooms, total, overhead) && k in ram
    ensures var c := RecordCost(k, ram[k], overhead);
            Charged(ram - {k}, Recharged(rooms, k.room, 0 - c), total - c, overhead)
  {
    hide Cost, RecordCost;
    CostDrop(ram, k, overhead);
    CostDrop(InRoom(ram, k.room), k, overhead);
    forall room | room in rooms
      ensures InRoom(ram - {k}, room) == if room == k.room then InRoom(ram, room) - {k} else InRoom(ram, room)
    {}
  }

  lemma ChargedChange(ram: map<Key, Record>, rooms: map<string, RoomInfo>, total: int, overhead: nat, k: Key, r: Record)
    requires Charged(ram, rooms, total, overhead) && k in ram
    ensures var delta := |r.value| - |ram[k].value|;
            Charged(ram[k := r], Recharged(rooms, k.room, delta), total + delta, overhead)
  {
    hide Charged;
    ChargedDropKeepsAwake(ram, rooms, total, overhead, k);
    var c: int := RecordCost(k, ram[k], overhead);
    ChargedDrop(ram, rooms, total, overhead, k);
    ChargedPut(ram - {k}, Recharged(rooms, k.room, 0 - c), total - c, overhead, k, r);
    assert (ram - {k})[k := r] == ram[k := r];
    assert Recharged(Recharged(rooms, k.room, 0 - c), k.room, RecordCost(k, r, overhead)) ==
           Recharged(rooms, k.room, |r.value| - |ram[k].value|);
  }

  lemma ChargedDropKeepsAwake(ram: map<Key, Record>, rooms: map<string, RoomInfo>, total: int, overhead: nat, k: Key)
    requires Charged(ram, rooms, total, overhead) && k in ram
    ensures k.room in rooms && rooms[k.room].awake
  {
  }

  // -------- whole rooms --------

  lemma CostMerge(ram: map<Key, Record>, more: map<Key, Record>, overhead: nat)
    requires ram.Keys !! more.Keys
    ensures Cost(ram + more, overhead) == Cost(ram, overhead) + Cost(more, overhead)
  {
    var all := Costs(ram + more, overhead);
    SumSplit(all, ram.Keys);
    assert all - ram.Keys == Costs(more, overhead);
    assert all - (all.Keys - ram.Keys) == Costs(ram, overhead);
  }

  lemma ChargedWake(ram: map<Key, Record>, rooms: map<string, RoomInfo>, total: int, overhead: nat, room: string,
                    woken: map<Key, Record>)
    requires Charged(ram, rooms, total, overhead) && room in rooms && !rooms[room].awake
    requires forall k :: k in woken ==> k.room == room
    ensures Charged(ram + woken, rooms[room := RoomInfo(true, rooms[room].bytes + Cost(woken, overhead))],
                    total + Cost(woken, overhead), overhead)
  {
    hide Cost, RecordCost;
    CostMerge(ram, woken, overhead);
    assert InRoom(ram, room) == map[];
    CostNothing(overhead);
    forall other | other in rooms
      ensures InRoom(ram + woken, other) == if other == room then woken else InRoom(ram, other)
    {}
  }

  lemma ChargedSleep(ram: map<Key, Record>, rooms: map<string, RoomInfo>, total: int, overhead: nat, room: string)
    requires Charged(ram, rooms, total, overhead) && room in rooms
    ensures var cost := Cost(InRoom(ram, room), overhead);
            Charged(ram - InRoom(ram, room).Keys, rooms[room := RoomInfo(false, rooms[room].bytes - cost)], total - cost,
                    overhead)
  {
    hide Cost, RecordCost;
    var gone := InRoom(ram, room);
    var left := ram - gone.Keys;
    CostMerge(left, gone, overhead);
    assert left + gone == ram;
    CostNothing(overhead);
    forall other | other in rooms
      ensures InRoom(left, other) == if other == room then map[] else InRoom(ram, other)
    {}
  }

  lemma CostNothing(overhead: nat)
    ensures Cost(map[], overhead) == 0
  {
    assert Costs(map[], overhead) == map[];
  }

  lemma ChargedNewRoom(ram: map<Key, Record>, rooms: map<string, RoomInfo>, total: int, overhead: nat, room: string)
    requires Charged(ram, rooms, total, overhead) && room !in rooms
    ensures Charged(ram, rooms[room := RoomInfo(false, 0)], total, overhead)
  {
    hide Cost;
    assert InRoom(ram, room) == map[];
    CostNothing(overhead);
  }

  function WithRooms(ram: map<Key, Record>, names: set<string>): map<Key, Record> {
    map k | k in ram && k.room in names :: ram[k]
  }

  lemma WithNone(ram: map<Key, Record>)
    ensures WithRooms(ram, {}) == map[]
  {
  }

  lemma WithOneMore(ram: map<Key, Record>, names: set<string>, room: string)
    requires room !in names
    ensures WithRooms(ram, names + {room}) == WithRooms(ram, names) + InRoom(ram, room)
    ensures WithRooms(ram, names).Keys !! InRoom(ram, room).Keys
  {
  }

  lemma {:induction false} CostByRoom(ram: map<Key, Record>, bytes: map<string, nat>, overhead: nat)
    requires forall room :: room in bytes ==> bytes[room] == Cost(InRoom(ram, room), overhead)
    ensures Cost(WithRooms(ram, bytes.Keys), overhead) == Sum(bytes)
    decreases |bytes|
  {
    hide Cost, RecordCost, WithRooms, InRoom;
    if bytes == map[] {
      WithNone(ram);
      CostNothing(overhead);
    } else {
      var room :| room in bytes;
      assert |(bytes - {room}).Keys| == |bytes.Keys - {room}|;
      CostByRoom(ram, bytes - {room}, overhead);
      SumRemove(bytes, room);
      WithOneMore(ram, (bytes - {room}).Keys, room);
      assert bytes.Keys == (bytes - {room}).Keys + {room};
      CostMerge(WithRooms(ram, (bytes - {room}).Keys), InRoom(ram, room), overhead);
    }
  }

  // The process's total is the sum of the rooms' bytes.
  lemma TotalIsSum(ram: map<Key, Record>, rooms: map<string, RoomInfo>, total: int, overhead: nat)
    requires Charged(ram, rooms, total, overhead)
    ensures forall room :: room in rooms ==> rooms[room].bytes >= 0
    ensures total == Sum(map room | room in rooms :: rooms[room].bytes as nat)
  {
    hide Cost;
    var bytes: map<string, nat> := map room | room in rooms :: rooms[room].bytes as nat;
    CostByRoom(ram, bytes, overhead);
    assert WithRooms(ram, bytes.Keys) == ram;
  }
}
