/** Memory, cold file and hibernation snapshots together, as one map. */
module Tiers {
  import opened Hlc
  import opened Node
  import opened Wrappers
  import opened FileIo
  import opened Sums
  import opened ColdFile
  import opened Memory

  type Records = map<Key, Record>

  predicate Awake(rooms: map<string, RoomInfo>, room: string) {
    room in rooms && rooms[room].awake
  }

  // The snapshot of a room counts only while the room sleeps.
  function Asleep(snaps: Records, rooms: map<string, RoomInfo>): Records {
    map k | k in snaps && !Awake(rooms, k.room) :: snaps[k]
  }

  // Resident keys are not asleep, and every record fits the files it may move to.
  ghost predicate Held(ram: Records, asleep: Records) {
    ram.Keys !! asleep.Keys && AllStorable(ram)
  }

  // No key of the cold file is resident or asleep as well.
  ghost predicate Separate(ram: Records, cold: Records, asleep: Records) {
    ram.Keys !! cold.Keys && asleep.Keys !! cold.Keys
  }

  // The one map that the tiers stand for. A cold record behind a resident or sleeping one is not seen.
  ghost function Union(ram: Records, cold: Records, asleep: Records): Records {
    cold + asleep + ram
  }

  // The map without k, where a cold record of k would show again.
  ghost function Uncovered(all: Records, cold: Records, k: Key): Records {
    if k in cold then all[k := cold[k]] else all - {k}
  }

  lemma RamDrop(ram: Records, cold: Records, asleep: Records, k: Key)
    requires Held(ram, asleep) && k in ram
    ensures Held(ram - {k}, asleep) && (Separate(ram, cold, asleep) ==> Separate(ram - {k}, cold, asleep))
    ensures Union(ram - {k}, cold, asleep) == Uncovered(Union(ram, cold, asleep), cold, k)
  {
    hide Storable;
  }

  lemma RamPut(ram: Records, cold: Records, asleep: Records, k: Key, r: Record)
    requires Held(ram, asleep) && Storable(r) && k !in asleep
    ensures Held(ram[k := r], asleep) && Union(ram[k := r], cold, asleep) == Union(ram, cold, asleep)[k := r]
    ensures Separate(ram, cold, asleep) ==> (Separate(ram[k := r], cold, asleep) <==> k !in cold)
    ensures k in ram ==> (Separate(ram[k := r], cold, asleep) <==> Separate(ram, cold, asleep))
  {
    hide Storable;
    if k in ram { assert ram[k := r].Keys == ram.Keys; }
    if k in cold { assert k in ram[k := r]; }
  }

  lemma RamToCold(ram: Records, cold: Records, asleep: Records, k: Key)
    requires Held(ram, asleep) && k in ram
    ensures Storable(ram[k]) && Held(ram - {k}, asleep)
    ensures Separate(ram, cold, asleep) ==> Separate(ram - {k}, cold[k := ram[k]], asleep)
    ensures Union(ram - {k}, cold[k := ram[k]], asleep) == Union(ram, cold, asleep)
  {
    hide Storable;
  }

  lemma Found(ram: Records, cold: Records, asleep: Records, k: Key)
    requires Held(ram, asleep)
    ensures k in Union(ram, cold, asleep) <==> k in ram || k in cold || k in asleep
    ensures k in ram ==> Union(ram, cold, asleep)[k] == ram[k] && k !in asleep
    ensures k in cold && k !in ram && k !in asleep ==> Union(ram, cold, asleep)[k] == cold[k]
    ensures Separate(ram, cold, asleep) && k in ram ==> k !in cold
  {
    hide Storable;
  }

  lemma AwakeNotAsleep(snaps: Records, rooms: map<string, RoomInfo>, k: Key)
    requires Awake(rooms, k.room)
    ensures k !in Asleep(snaps, rooms)
  {
  }

  ghost predicate SameFlags(a: map<string, RoomInfo>, b: map<string, RoomInfo>) {
    a.Keys == b.Keys && forall room :: room in a ==> a[room].awake == b[room].awake
  }

  lemma SameAsleep(snaps: Records, a: map<string, RoomInfo>, b: map<string, RoomInfo>)
    requires SameFlags(a, b)
    ensures Asleep(snaps, a) == Asleep(snaps, b)
  {
  }

  class Store {
    const maxKeys: nat
    const maxBytes: nat
    const overhead: nat

    var ram: Records
    var rooms: map<string, RoomInfo>
    var total: int
    var snaps: Records

    var disk: string
    var index: map<Key, ColdRef>
    var fileBytes: nat
    var obsolete: nat

    // the records behind the index, and bytes that are neither live nor counted as obsolete
    ghost var cold: Records
    ghost var leaked: nat

    ghost predicate Valid()
      reads this
    {
      && ColdHolds(disk, index, fileBytes, obsolete + leaked, cold)
      && Charged(ram, rooms, total, overhead)
      && Held(ram, Asleep(snaps, rooms)) && AllStorable(snaps)
    }

    // A key is in one tier only.
    ghost predicate OneTier()
      reads this
    {
      Separate(ram, cold, Asleep(snaps, rooms))
    }

    ghost function Contents(): Records
      reads this
    {
      Union(ram, cold, Asleep(snaps, rooms))
    }

    constructor (maxKeys: nat, maxBytes: nat, overhead: nat)
      ensures Valid() && OneTier() && Contents() == map[] && leaked == 0
      ensures this.maxKeys == maxKeys && this.maxBytes == maxBytes && this.overhead == overhead && rooms == map[]
    {
      this.maxKeys, this.maxBytes, this.overhead := maxKeys, maxBytes, overhead;
      ram, rooms, total, snaps := map[], map[], 0, map[];
      disk, index, fileBytes, obsolete, cold, leaked := "", map[], 0, 0, map[], 0;
      new;
      ColdEmpty();
      CostNothing(overhead);
    }

    predicate Fits(extra: int)
      reads this
    {
      maxBytes == 0 || total + extra <= maxBytes
    }

    method Charge(room: string, delta: int)
      requires room in rooms
      modifies this`rooms, this`total
      ensures rooms == Recharged(old(rooms), room, delta) && total == old(total) + delta
      ensures SameFlags(old(rooms), rooms) && Asleep(snaps, rooms) == Asleep(snaps, old(rooms))
    {
      rooms := Recharged(rooms, room, delta);
      total := total + delta;
      SameAsleep(snaps, old(rooms), rooms);
    }

    method Erase(k: Key)
      requires Valid() && k in ram
      modifies this`ram, this`rooms, this`total
      ensures Valid() && (old(OneTier()) ==> OneTier()) && SameFlags(old(rooms), rooms)
      ensures ram == old(ram) - {k} && Contents() == Uncovered(old(Contents()), cold, k)
      ensures total == old(total) - (|k.name| + |old(ram)[k].value| + overhead)
    {
      hide ColdHolds, Charged, Held, Separate, Union, Uncovered, AllStorable, Recharged, Asleep;
      ChargedDropKeepsAwake(ram, rooms, total, overhead, k);
      ChargedDrop(ram, rooms, total, overhead, k);
      RamDrop(ram, cold, Asleep(snaps, rooms), k);
      Charge(k.room, 0 - RecordCost(k, ram[k], overhead));
      ram := ram - {k};
    }

    method Insert(k: Key)
      requires Valid() && Awake(rooms, k.room) && k !in ram
      modifies this`ram, this`rooms, this`total
      ensures Valid() && SameFlags(old(rooms), rooms)
      ensures ram == old(ram)[k := Record("", 0, Version(0, 1))] && Contents() == old(Contents())[k := ram[k]]
      ensures old(OneTier()) ==> (OneTier() <==> k !in cold)
    {
      hide ColdHolds, Charged, Held, Separate, Union, AllStorable, Asleep;
      Place(k, Record("", 0, Version(0, 1)));
    }

    // Puts a record that is not resident into memory.
    method Place(k: Key, r: Record)
      requires Valid() && Awake(rooms, k.room) && k !in ram && Storable(r)
      modifies this`ram, this`rooms, this`total
      ensures Valid() && SameFlags(old(rooms), rooms)
      ensures ram == old(ram)[k := r] && Contents() == old(Contents())[k := r]
      ensures old(OneTier()) ==> (OneTier() <==> k !in cold)
      ensures total == old(total) + (|k.name| + |r.value| + overhead)
    {
      hide ColdHolds, Charged, Held, Separate, Union, AllStorable, Recharged, Asleep, Storable;
      AwakeNotAsleep(snaps, rooms, k);
      ChargedPut(ram, rooms, total, overhead, k, r);
      RamPut(ram, cold, Asleep(snaps, rooms), k, r);
      Charge(k.room, RecordCost(k, r, overhead));
      ram := ram[k := r];
    }

    // Changes a resident record in place; only its value changes its cost.
    method Update(k: Key, r: Record)
      requires Valid() && k in ram && Storable(r)
      modifies this`ram, this`rooms, this`total
      ensures Valid() && (OneTier() <==> old(OneTier())) && SameFlags(old(rooms), rooms)
      ensures ram == old(ram)[k := r] && Contents() == old(Contents())[k := r]
    {
      hide ColdHolds, Charged, Held, Separate, Union, AllStorable, Recharged, Asleep;
      Found(ram, cold, Asleep(snaps, rooms), k);
      ChargedDropKeepsAwake(ram, rooms, total, overhead, k);
      ChargedChange(ram, rooms, total, overhead, k, r);
      RamPut(ram, cold, Asleep(snaps, rooms), k, r);
      Charge(k.room, |r.value| - |ram[k].value|);
      ram := ram[k := r];
    }

    // Takes a key out of the cold file; its bytes become obsolete. A failed read reports the key absent and leaves it in
    // the index.
    method Take(k: Key, readable: bool) returns (r: Option<Record>)
      requires Valid()
      modifies this`index, this`obsolete, this`cold
      ensures Valid() && old(index).Keys == old(cold).Keys && index.Keys == cold.Keys
      ensures r == if k in old(cold) && readable then Some(old(cold)[k]) else None
      ensures cold == if r.Some? then old(cold) - {k} else old(cold)
      ensures r.Some? ==> Storable(r.value)
    {
      hide Charged, Held, AllStorable, Asleep, Storable, EncodeCold, DecodeCold, ColdHolds;
      ColdEnd(disk, index, fileBytes, obsolete + leaked, cold);
      if k !in index || !readable { return None; }
      ColdRead(disk, index, fileBytes, obsolete + leaked, cold, k);
      ColdTake(disk, index, fileBytes, obsolete + leaked, cold, k);
      r := Some(DecodeCold(Slice(disk, index[k])));
      obsolete := obsolete + index[k].len;
      index := index - {k};
      cold := cold - {k};
    }

    // Finds a key in memory, else in the cold file; brings it into memory, and drops it if it has expired.
    method Lookup(k: Key, now: int, readable: bool) returns (r: Option<Record>)
      requires Valid() && Awake(rooms, k.room)
      modifies this`ram, this`rooms, this`total, this`index, this`obsolete, this`cold
      ensures Valid() && SameFlags(old(rooms), rooms) && old(index).Keys == old(cold).Keys
      // what it does, whatever a failed read left behind
      ensures r == Answer(old(ram), old(cold), k, now, readable)
      ensures ram == LookedRam(old(ram), old(cold), k, now, readable) && cold == LookedCold(old(ram), old(cold), k, readable)
      ensures old(OneTier()) ==> OneTier()
      // so with every key in one tier and the read successful, it is a lookup in one map
      ensures old(OneTier()) && (k !in old(index) || readable) ==>
                var all := old(Contents());
                && r == (if k in all && !all[k].Expired(now) then Some(all[k]) else None)
                && Contents() == (if k in all && all[k].Expired(now) then all - {k} else all)
    {
      hide ColdHolds, Charged, Held, Separate, Union, AllStorable, Storable, Asleep;
      AwakeNotAsleep(snaps, rooms, k);
      LookedEffect(ram, cold, Asleep(snaps, rooms), k, now, readable);
      r := Find(k, now, readable);
      SameAsleep(snaps, old(rooms), rooms);
    }

    method Find(k: Key, now: int, readable: bool) returns (r: Option<Record>)
      requires Valid() && Awake(rooms, k.room)
      modifies this`ram, this`rooms, this`total, this`index, this`obsolete, this`cold
      ensures Valid() && SameFlags(old(rooms), rooms) && old(index).Keys == old(cold).Keys
      ensures r == Answer(old(ram), old(cold), k, now, readable)
      ensures ram == LookedRam(old(ram), old(cold), k, now, readable) && cold == LookedCold(old(ram), old(cold), k, readable)
    {
      hide ColdHolds, Charged, Held, Separate, Union, AllStorable, Storable, Asleep, Uncovered;
      ColdEnd(disk, index, fileBytes, obsolete + leaked, cold);
      if k in ram {
        if !ram[k].Expired(now) { return Some(ram[k]); }
        Erase(k);
        return None;
      }
      var taken := Take(k, readable);
      if taken.None? || taken.value.Expired(now) { return None; }
      Place(k, taken.value);
      r := taken;
    }

    // A write as the handlers do it: look up, insert if absent, set the value, deadline and version. It keeps every key
    // in one tier if and only if its own key is not in the cold index or could be read from there.
    method Write(k: Key, value: string, expireAt: int, v: Version, now: int, readable: bool)
      requires Valid() && Awake(rooms, k.room) && Storable(Record(value, expireAt, v))
      modifies this`ram, this`rooms, this`total, this`index, this`obsolete, this`cold
      ensures Valid() && SameFlags(old(rooms), rooms)
      ensures Contents() == old(Contents())[k := Record(value, expireAt, v)]
      ensures old(OneTier()) ==> (OneTier() <==> k !in old(index) || readable)
      ensures k in ram && ram[k] == Record(value, expireAt, v) && cold == LookedCold(old(ram), old(cold), k, readable)
    {
      hide ColdHolds, Charged, Held, Separate, Union, AllStorable, Storable, Asleep, LookedCold, Uncovered;
      AwakeNotAsleep(snaps, rooms, k);
      WriteEffect(ram, cold, Asleep(snaps, rooms), k, Record(value, expireAt, v), now, readable);
      var r := Find(k, now, readable);
      ghost var found := ram;
      if r.None? { Insert(k); }
      Update(k, Record(value, expireAt, v));
      assert ram == found[k := Record(value, expireAt, v)];
      SameAsleep(snaps, old(rooms), rooms);
    }

    // A delete as DEL does it. The key is gone from every tier if and only if the cold index does not hold it, or holds it
    // alone and could be read; otherwise the cold record shows, or keeps showing.
    method Delete(k: Key, now: int, readable: bool) returns (found: bool)
      requires Valid() && Awake(rooms, k.room)
      modifies this`ram, this`rooms, this`total, this`index, this`obsolete, this`cold
      ensures Valid() && (old(OneTier()) ==> OneTier()) && SameFlags(old(rooms), rooms)
      ensures k !in Contents() <==> k !in old(index) || (k !in old(ram) && readable)
      ensures Contents() == if k in Contents() && k in old(cold) then old(Contents())[k := old(cold)[k]]
                            else old(Contents()) - {k}
      ensures k !in ram && cold == LookedCold(old(ram), old(cold), k, readable)
      ensures found <==> Answer(old(ram), old(cold), k, now, readable).Some?
    {
      hide ColdHolds, Charged, Held, Separate, Union, AllStorable, Storable, Asleep, LookedCold, Uncovered;
      AwakeNotAsleep(snaps, rooms, k);
      DeleteEffect(ram, cold, Asleep(snaps, rooms), k, now, readable);
      var r := Find(k, now, readable);
      found := r.Some?;
      ghost var looked := ram;
      if found { Erase(k); }
      assert ram == looked - {k};
      SameAsleep(snaps, old(rooms), rooms);
    }

    // The room has more keys than allowed, or the process more bytes.
    predicate Over(room: string)
      reads this
    {
      InRoom(ram, room) != map[] && (|InRoom(ram, room)| > maxKeys || !Fits(0))
    }

    // Moves keys of a room to the cold file, any victim at each step, until the budgets hold or a write fails.
    method Evict(room: string, writes: seq<seq<Io>>, ghost limit: nat) returns (failed: bool)
      requires Valid()
      modifies this`ram, this`rooms, this`total, this`disk, this`index, this`fileBytes, this`cold, this`leaked
      ensures Valid() && SameFlags(old(rooms), rooms) && Contents() == old(Contents())
      ensures old(OneTier()) ==> OneTier() && leaked == old(leaked)
      // it ends with the room empty or within both budgets, unless a write fails,
      ensures failed || InRoom(ram, room) == map[] ||
              (|InRoom(ram, room)| <= maxKeys && (maxBytes == 0 || total <= maxBytes))
      // moves only records of the room, and none that did not have to go
      ensures forall k :: k in ram ==> k in old(ram) && ram[k] == old(ram)[k]
      ensures forall k :: k in old(ram) && k.room != room ==> k in ram
      ensures ram == old(ram) || exists k :: k in old(ram) && LastMoved(old(ram), ram, room, k, maxKeys, maxBytes, total, overhead)
      // it fails only when a write does
      ensures DiskWorks(old(ram), writes, 0, limit) ==> !failed
    {
      hide ColdHolds, Charged, Held, Separate, Union, AllStorable, Asleep, Storable, InRoom, DiskWorks, Delivered;
      var w := 0;
      failed := false;
      while Over(room)
        invariant Valid() && SameFlags(old(rooms), rooms) && Contents() == old(Contents())
        invariant old(OneTier()) ==> OneTier() && leaked == old(leaked)
        invariant forall k :: k in ram ==> k in old(ram) && ram[k] == old(ram)[k]
        invariant forall k :: k in old(ram) && k.room != room ==> k in ram
        invariant ram == old(ram) ||
                  exists k :: k in old(ram) && LastMoved(old(ram), ram, room, k, maxKeys, maxBytes, total, overhead)
        invariant w <= |writes| && (DiskWorks(old(ram), writes, 0, limit) ==> DiskWorks(ram, writes, w, limit))
        decreases |writes| - w
      {
        var k := Victim(ram, room);
        if DiskWorks(ram, writes, w, limit) { StillWorks(ram, writes, w, limit, k); }
        if w == |writes| { return true; }
        ghost var before, bytes := ram, total;
        var stored := EvictOne(k, writes[w]);
        if !stored { return true; }
        MovedLast(old(ram), before, room, k, maxKeys, maxBytes, bytes, overhead);
        w := w + 1;
      }
    }

    // A partial write stays beyond the logical end, where the next write covers it. An index entry that the key still
    // had, after a read that failed, is overwritten: its bytes are no longer live and not counted as obsolete.
    method EvictOne(k: Key, calls: seq<Io>) returns (stored: bool)
      requires Valid() && k in ram
      modifies this`ram, this`rooms, this`total, this`disk, this`index, this`fileBytes, this`cold, this`leaked
      ensures Valid() && SameFlags(old(rooms), rooms) && Contents() == old(Contents())
      ensures ram == if stored then old(ram) - {k} else old(ram)
      ensures stored <==> Delivered(HEADER_BYTES + |old(ram)[k].value|, calls) == HEADER_BYTES + |old(ram)[k].value|
      ensures total == old(total) - if stored then |k.name| + |old(ram)[k].value| + overhead else 0
      ensures stored ==> k in index && index[k] == ColdRef(old(fileBytes), HEADER_BYTES + |old(ram)[k].value|)
      ensures leaked == old(leaked) + if stored && k in old(index) then old(index)[k].len else 0
      ensures old(OneTier()) ==> OneTier() && k !in old(index)
    {
      hide Charged, Held, Separate, Union, AllStorable, Asleep, Storable, EncodeCold, Overlay, ColdHolds, Delivered;
      ColdEnd(disk, index, fileBytes, obsolete + leaked, cold);
      if OneTier() { Found(ram, cold, Asleep(snaps, rooms), k); }
      RamToCold(ram, cold, Asleep(snaps, rooms), k);
      ghost var flags := rooms;
      var data := EncodeCold(ram[k]);
      var written;
      stored, written := FileIo.WriteAll(data, calls);
      if !stored {
        ColdTorn(disk, index, fileBytes, obsolete + leaked, cold, data[..written]);
        disk := Overlay(disk, fileBytes, data[..written]);
        return;
      }
      MoveOut(k, data);
      SameAsleep(snaps, flags, rooms);
    }

    // The record is in the file: the index points to it, and memory lets it go.
    method MoveOut(k: Key, data: string)
      requires Valid() && k in ram && Storable(ram[k]) && data == EncodeCold(ram[k])
      modifies this`ram, this`rooms, this`total, this`disk, this`index, this`fileBytes, this`cold, this`leaked
      ensures Valid() && SameFlags(old(rooms), rooms) && ram == old(ram) - {k} && cold == old(cold)[k := old(ram)[k]]
      ensures k in index && index[k] == ColdRef(old(fileBytes), |data|)
      ensures leaked == old(leaked) + if k in old(index) then old(index)[k].len else 0
      ensures total == old(total) - (|k.name| + |old(ram)[k].value| + overhead)
    {
      hide Charged, Held, Separate, Union, AllStorable, Asleep, Storable, EncodeCold, Overlay, ColdHolds, Uncovered;
      ColdEnd(disk, index, fileBytes, obsolete + leaked, cold);
      ColdReplace(disk, index, fileBytes, obsolete + leaked, cold, k, ram[k]);
      if k in index { leaked := leaked + index[k].len; }
      disk := Overlay(disk, fileBytes, data);
      index := index[k := ColdRef(fileBytes, |data|)];
      fileBytes := fileBytes + |data|;
      cold := cold[k := ram[k]];
      Erase(k);
    }

    // Erases the resident records that have expired.
    method CleanExpired(now: int)
      requires Valid()
      modifies this`ram, this`rooms, this`total
      ensures Valid() && (old(OneTier()) ==> OneTier()) && SameFlags(old(rooms), rooms)
      ensures ram == old(ram) - ExpiredKeys(old(ram), now)
      ensures old(OneTier()) ==> Contents() == old(Contents()) - ExpiredKeys(old(ram), now)
    {
      hide ColdHolds, Charged, Held, Separate, Union, AllStorable, Asleep, Storable;
      var todo := ram.Keys;
      ghost var kept := old(Contents());
      while todo != {}
        invariant Valid() && (old(OneTier()) ==> OneTier()) && SameFlags(old(rooms), rooms)
        invariant todo <= ram.Keys && ram.Keys <= old(ram).Keys
        invariant forall k :: k in ram ==> ram[k] == old(ram)[k]
        invariant forall k :: k in ram && k !in todo ==> !ram[k].Expired(now)
        invariant forall k :: k in old(ram) && k !in ram ==> old(ram)[k].Expired(now)
        invariant old(OneTier()) ==> Contents() == old(Contents()) - (old(ram).Keys - ram.Keys)
      {
        var k :| k in todo;
        if ram[k].Expired(now) {
          Found(ram, cold, Asleep(snaps, rooms), k);
          Erase(k);
        }
        todo := todo - {k};
      }
      assert old(ram).Keys - ram.Keys == ExpiredKeys(old(ram), now);
    }

    method FindRoom(room: string)
      requires Valid()
      modifies this`rooms
      ensures Valid() && room in rooms && Contents() == old(Contents()) && (OneTier() <==> old(OneTier()))
      ensures rooms == if room in old(rooms) then old(rooms) else old(rooms)[room := RoomInfo(false, 0)]
    {
      hide ColdHolds, Held, Separate, Union, AllStorable, Charged;
      if room !in rooms {
        ChargedNewRoom(ram, rooms, total, overhead, room);
        assert Asleep(snaps, rooms) == Asleep(snaps, rooms[room := RoomInfo(false, 0)]);
        rooms := rooms[room := RoomInfo(false, 0)];
      }
    }

    // Sums the costs of the loaded keys.
    method KeysCost(keys: Records) returns (cost: nat)
      ensures cost == Cost(keys, overhead)
    {
      hide RecordCost;
      cost := 0;
      var todo := keys.Keys;
      ghost var done: Records := map[];
      CostNothing(overhead);
      while todo != {}
        invariant todo <= keys.Keys && done.Keys == keys.Keys - todo
        invariant forall k :: k in done ==> done[k] == keys[k]
        invariant cost == Cost(done, overhead)
      {
        var k :| k in todo;
        CostPut(done, k, keys[k], overhead);
        cost := cost + RecordCost(k, keys[k], overhead);
        done := done[k := keys[k]];
        todo := todo - {k};
      }
      assert done == keys;
    }

    // Wakes a room from its snapshot, unless that would exceed the memory budget. A snapshot that cannot be read wakes
    // the room empty.
    method Activate(room: string, overBudget: bool, readable: bool) returns (ok: bool)
      requires Valid() && room in rooms
      modifies this`ram, this`rooms, this`total
      ensures Valid() && (old(OneTier()) ==> OneTier())
      ensures ok <==> Awake(rooms, room)
      ensures rooms.Keys == old(rooms).Keys
      ensures forall other :: other in rooms && other != room ==> rooms[other] == old(rooms)[other]
      ensures !ok ==> ram == old(ram) && rooms == old(rooms) && total == old(total)
      ensures old(rooms[room].awake) || overBudget ==> ok
      ensures ok && !old(rooms[room].awake) && !overBudget ==> maxBytes == 0 || total <= maxBytes
      ensures !ok ==> maxBytes > 0 && total + (if readable then Cost(InRoom(snaps, room), overhead) else 0) > maxBytes
      // the map is the same exactly when the snapshot was read or was not needed; otherwise the room's keys are gone
      ensures old(rooms[room].awake) || !ok || readable ==> Contents() == old(Contents())
      ensures old(OneTier()) && !old(rooms[room].awake) && ok && !readable ==>
                Contents() == old(Contents()) - InRoom(snaps, room).Keys
    {
      hide ColdHolds, Charged, Held, Separate, Union, AllStorable, Storable, Cost;
      if rooms[room].awake { return true; }
      var woken := if readable then InRoom(snaps, room) else map[];
      var cost := KeysCost(woken);
      CostNothing(overhead);
      if !overBudget && !Fits(cost) { return false; }
      ChargedWake(ram, rooms, total, overhead, room, woken);
      if readable {
        Woken(ram, cold, snaps, rooms, room, rooms[room].bytes + cost);
      } else {
        WokenEmpty(ram, cold, snaps, rooms, room, rooms[room].bytes + cost);
      }
      ram := ram + woken;
      rooms := rooms[room := RoomInfo(true, rooms[room].bytes + cost)];
      total := total + cost;
      ok := true;
    }

    // Writes a room's resident keys to its snapshot and frees them; a failed write leaves the room awake.
    method Hibernate(room: string, written: bool) returns (ok: bool)
      requires Valid() && room in rooms
      modifies this`ram, this`rooms, this`total, this`snaps
      ensures Valid() && Contents() == old(Contents()) && (old(OneTier()) ==> OneTier())
      ensures ok <==> !Awake(rooms, room)
      ensures rooms.Keys == old(rooms).Keys
      ensures forall other :: other in rooms && other != room ==> rooms[other] == old(rooms)[other]
      ensures ok <==> written || !old(rooms[room].awake)
      ensures !ok ==> ram == old(ram) && rooms == old(rooms) && snaps == old(snaps) && total == old(total)
    {
      hide ColdHolds, Charged, Held, Separate, Union, AllStorable, Storable, Cost;
      if !rooms[room].awake { return true; }
      var resident := InRoom(ram, room);
      var cost := KeysCost(resident);
      if !written { return false; }
      ChargedSleep(ram, rooms, total, overhead, room);
      Slept(ram, cold, snaps, rooms, room, rooms[room].bytes - cost);
      snaps := snaps - InRoom(snaps, room).Keys + resident;
      ram := ram - resident.Keys;
      rooms := rooms[room := RoomInfo(false, rooms[room].bytes - cost)];
      total := total - cost;
      ok := true;
    }

    // Copies the live, unexpired records to a new file, in any order, and swaps it in only if everything succeeded.
    method Compact(now: int, copies: seq<bool>, renamed: bool) returns (reclaimed: int)
      requires Valid()
      modifies this`disk, this`index, this`fileBytes, this`obsolete, this`cold, this`leaked
      ensures Valid() && (old(OneTier()) ==> OneTier())
      ensures reclaimed < 0 ==>
                reclaimed == -1 && disk == old(disk) && index == old(index) && fileBytes == old(fileBytes) &&
                obsolete == old(obsolete) && cold == old(cold) && leaked == old(leaked)
      ensures reclaimed >= 0 ==>
                && cold == old(cold) - ExpiredKeys(old(cold), now)
                && (old(OneTier()) ==> Contents() == old(Contents()) - ExpiredKeys(old(cold), now))
                && obsolete == 0 && leaked == 0 && reclaimed == old(fileBytes) - fileBytes
                && reclaimed == old(obsolete) + old(leaked) + Sum(Lens(Only(old(index), ExpiredKeys(old(cold), now))))
      ensures |copies| >= |old(index)| && (forall i :: 0 <= i < |copies| ==> copies[i]) && renamed ==> reclaimed >= 0
    {
      hide Charged, Held, Separate, Union, AllStorable, Asleep, ColdHolds, Lens, Only;
      var ok, out, moved := CopyLive(now, copies);
      if !ok || !renamed { return -1; }
      ghost var gone := ExpiredKeys(cold, now);
      ColdShrinks(ram, cold, Asleep(snaps, rooms), gone);
      Reclaims(index, moved, fileBytes, obsolete + leaked, disk, cold, out, gone);
      reclaimed := fileBytes - |out|;
      disk, index, fileBytes, obsolete, cold, leaked := out, moved, |out|, 0, cold - gone, 0;
    }

    method CopyLive(now: int, copies: seq<bool>) returns (ok: bool, out: string, moved: map<Key, ColdRef>)
      requires Valid()
      ensures ok ==> ColdHolds(out, moved, |out|, 0, cold - ExpiredKeys(cold, now))
      ensures ok ==> forall k :: k in moved ==> k in index && moved[k].len == index[k].len
      ensures |copies| >= |index| && (forall i :: 0 <= i < |copies| ==> copies[i]) ==> ok
    {
      hide Charged, Held, Separate, Union, AllStorable, Asleep, Storable, EncodeCold, DecodeCold, ColdHolds, Overlay, Copied;
      ColdEnd(disk, index, fileBytes, obsolete + leaked, cold);
      CopiedNothing(index, cold, now);
      out, moved := "", map[];
      ghost var kept: Records := map[];
      ColdEmpty();
      var todo, c := index.Keys, 0;
      while todo != {}
        invariant todo <= index.Keys && c + |todo| == |index| && c <= |copies|
        invariant ColdHolds(out, moved, |out|, 0, kept) && Copied(index, cold, moved, kept, todo, now)
      {
        var k :| k in todo;
        if c == |copies| || !copies[c] { return false, out, moved; }
        assert todo == (todo - {k}) + {k};
        todo, c := todo - {k}, c + 1;
        ColdRead(disk, index, fileBytes, obsolete + leaked, cold, k);
        var raw := Slice(disk, index[k]);
        CopiedNext(index, cold, moved, kept, todo, now, k, |out|);
        if DecodeCold(raw).Expired(now) { continue; }
        ColdEvict(out, moved, |out|, 0, kept, k, cold[k]);
        OverlayAppends(out, raw);
        moved := moved[k := ColdRef(|out|, index[k].len)];
        kept := kept[k := cold[k]];
        out := out + raw;
      }
      CopiedAll(index, cold, moved, kept, now);
      ok := true;
    }
  }

  // The record of the room that went last had to: with it, the room or the process is over its budget.
  ghost predicate LastMoved(before: Records, ram: Records, room: string, k: Key, maxKeys: nat, maxBytes: nat, total: int,
                            overhead: nat)
    requires k in before
  {
    && k.room == room && k !in ram
    && (|InRoom(ram, room)| + 1 > maxKeys ||
        (maxBytes > 0 && total + (|k.name| + |before[k].value| + overhead) > maxBytes))
  }

  lemma MovedLast(first: Records, ram: Records, room: string, k: Key, maxKeys: nat, maxBytes: nat, total: int, overhead: nat)
    requires k in ram && k in first && first[k] == ram[k] && k.room == room
    requires |InRoom(ram, room)| > maxKeys || (maxBytes > 0 && total > maxBytes)
    ensures LastMoved(first, ram - {k}, room, k, maxKeys, maxBytes, total - (|k.name| + |ram[k].value| + overhead), overhead)
  {
    assert InRoom(ram, room) == InRoom(ram - {k}, room)[k := ram[k]];
  }

  // Of the keys already visited, exactly the unexpired ones were copied, with their lengths.
  ghost predicate Copied(index: map<Key, ColdRef>, cold: Records, moved: map<Key, ColdRef>, kept: Records, todo: set<Key>,
                         now: int)
    requires index.Keys == cold.Keys
  {
    && moved.Keys == kept.Keys && kept.Keys <= index.Keys - todo
    && (forall k :: k in kept ==> kept[k] == cold[k])
    && (forall k :: k in index && k !in todo ==> (k in kept <==> !cold[k].Expired(now)))
    && (forall k :: k in moved ==> moved[k].len == index[k].len)
  }

  lemma CopiedNothing(index: map<Key, ColdRef>, cold: Records, now: int)
    requires index.Keys == cold.Keys
    ensures Copied(index, cold, map[], map[], index.Keys, now)
  {
  }

  lemma CopiedNext(index: map<Key, ColdRef>, cold: Records, moved: map<Key, ColdRef>, kept: Records, todo: set<Key>,
                   now: int, k: Key, off: nat)
    requires index.Keys == cold.Keys && k in index && k !in todo
    requires Copied(index, cold, moved, kept, todo + {k}, now)
    ensures k !in moved
    ensures if cold[k].Expired(now) then Copied(index, cold, moved, kept, todo, now)
            else Copied(index, cold, moved[k := ColdRef(off, index[k].len)], kept[k := cold[k]], todo, now)
  {
  }

  lemma CopiedAll(index: map<Key, ColdRef>, cold: Records, moved: map<Key, ColdRef>, kept: Records, now: int)
    requires index.Keys == cold.Keys && Copied(index, cold, moved, kept, {}, now)
    ensures kept == cold - ExpiredKeys(cold, now)
    ensures forall k :: k in moved ==> k in index && moved[k].len == index[k].len
  {
  }

  lemma OverlayAppends(out: string, raw: string)
    ensures Overlay(out, |out|, raw) == out + raw
  {
  }

  lemma ColdShrinks(ram: Records, cold: Records, asleep: Records, gone: set<Key>)
    requires gone <= cold.Keys
    ensures Separate(ram, cold, asleep) ==> Separate(ram, cold - gone, asleep)
    ensures Separate(ram, cold, asleep) ==> Union(ram, cold - gone, asleep) == Union(ram, cold, asleep) - gone
  {
  }

  // What a compaction gains is the obsolete bytes and the lengths of the records it leaves behind.
  lemma Reclaims(index: map<Key, ColdRef>, moved: map<Key, ColdRef>, end: nat, obsolete: nat, disk: string, cold: Records,
                 out: string, gone: set<Key>)
    requires ColdHolds(disk, index, end, obsolete, cold) && ColdHolds(out, moved, |out|, 0, cold - gone)
    requires forall k :: k in moved ==> k in index && moved[k].len == index[k].len
    ensures |out| <= end && end - |out| == obsolete + Sum(Lens(Only(index, gone)))
  {
    ColdEnd(disk, index, end, obsolete, cold);
    ColdEnd(out, moved, |out|, 0, cold - gone);
    hide AllStored, AllApart, Lens, Only;
    LensSplit(index, moved, gone);
  }

  lemma LensSplit(index: map<Key, ColdRef>, moved: map<Key, ColdRef>, gone: set<Key>)
    requires moved.Keys == index.Keys - gone && forall k :: k in moved ==> moved[k].len == index[k].len
    ensures Sum(Lens(index)) == Sum(Lens(moved)) + Sum(Lens(Only(index, gone)))
  {
    SumSplit(Lens(index), moved.Keys);
    assert Lens(index) - (Lens(index).Keys - moved.Keys) == Lens(moved);
    assert Lens(index) - moved.Keys == Lens(Only(index, gone));
  }

  ghost function Only(index: map<Key, ColdRef>, keys: set<Key>): map<Key, ColdRef> {
    map k | k in index && k in keys :: index[k]
  }

  // What a lookup answers: the resident record, else the cold one if it can be read; nothing once it has expired.
  ghost function Answer(ram: Records, cold: Records, k: Key, now: int, readable: bool): Option<Record> {
    if k in ram then (if ram[k].Expired(now) then None else Some(ram[k]))
    else if k in cold && readable && !cold[k].Expired(now) then Some(cold[k])
    else None
  }

  ghost function LookedRam(ram: Records, cold: Records, k: Key, now: int, readable: bool): Records {
    match Answer(ram, cold, k, now, readable)
    case Some(r) => ram[k := r]
    case None => ram - {k}
  }

  ghost function LookedCold(ram: Records, cold: Records, k: Key, readable: bool): Records {
    if k !in ram && k in cold && readable then cold - {k} else cold
  }

  lemma LookedEffect(ram: Records, cold: Records, asleep: Records, k: Key, now: int, readable: bool)
    requires k !in asleep
    ensures var ram1, cold1 := LookedRam(ram, cold, k, now, readable), LookedCold(ram, cold, k, readable);
            && (Separate(ram, cold, asleep) ==> Separate(ram1, cold1, asleep))
            && (Separate(ram, cold, asleep) && (k !in cold || readable) ==>
                  var all := Union(ram, cold, asleep);
                  && Answer(ram, cold, k, now, readable) == (if k in all && !all[k].Expired(now) then Some(all[k]) else None)
                  && Union(ram1, cold1, asleep) == (if k in all && all[k].Expired(now) then all - {k} else all))
  {
    hide Separate, Union;
    LookedApart(ram, cold, asleep, k, now, readable);
    if Separate(ram, cold, asleep) && (k !in cold || readable) { LookedUnion(ram, cold, asleep, k, now, readable); }
  }

  lemma LookedApart(ram: Records, cold: Records, asleep: Records, k: Key, now: int, readable: bool)
    requires k !in asleep
    ensures Separate(ram, cold, asleep) ==>
              Separate(LookedRam(ram, cold, k, now, readable), LookedCold(ram, cold, k, readable), asleep)
  {
  }

  lemma LookedUnion(ram: Records, cold: Records, asleep: Records, k: Key, now: int, readable: bool)
    requires k !in asleep && Separate(ram, cold, asleep) && (k !in cold || readable)
    ensures var all := Union(ram, cold, asleep);
            && Answer(ram, cold, k, now, readable) == (if k in all && !all[k].Expired(now) then Some(all[k]) else None)
            && Union(LookedRam(ram, cold, k, now, readable), LookedCold(ram, cold, k, readable), asleep) ==
               (if k in all && all[k].Expired(now) then all - {k} else all)
  {
    hide Separate, Union;
    UnionKey(ram, cold, asleep, k);
    if k in ram {
      SeparateKey(ram, cold, asleep, k);
      if ram[k].Expired(now) { UnionDrop(ram, cold, asleep, k); } else { assert ram[k := ram[k]] == ram; }
    } else {
      assert ram - {k} == ram;
      if k in cold { UnionMove(ram, cold, asleep, k); }
    }
  }

  lemma UnionKey(ram: Records, cold: Records, asleep: Records, k: Key)
    requires k !in asleep
    ensures k in Union(ram, cold, asleep) <==> k in ram || k in cold
    ensures k in ram ==> Union(ram, cold, asleep)[k] == ram[k]
    ensures k !in ram && k in cold ==> Union(ram, cold, asleep)[k] == cold[k]
  {
  }

  lemma UnionDrop(ram: Records, cold: Records, asleep: Records, k: Key)
    requires k !in asleep && k !in cold
    ensures Union(ram - {k}, cold, asleep) == Union(ram, cold, asleep) - {k}
  {
  }

  lemma UnionMove(ram: Records, cold: Records, asleep: Records, k: Key)
    requires k !in asleep && k in cold && k !in ram
    ensures Union(ram[k := cold[k]], cold - {k}, asleep) == Union(ram, cold, asleep)
    ensures Union(ram, cold - {k}, asleep) == Union(ram, cold, asleep) - {k}
  {
  }

  lemma SeparateKey(ram: Records, cold: Records, asleep: Records, k: Key)
    requires Separate(ram, cold, asleep) && k in ram
    ensures k !in cold
  {
  }

  lemma WriteEffect(ram: Records, cold: Records, asleep: Records, k: Key, r: Record, now: int, readable: bool)
    requires k !in asleep
    ensures var ram1, cold1 := LookedRam(ram, cold, k, now, readable)[k := r], LookedCold(ram, cold, k, readable);
            && Union(ram1, cold1, asleep) == Union(ram, cold, asleep)[k := r]
            && (Separate(ram, cold, asleep) ==> (Separate(ram1, cold1, asleep) <==> k !in cold || readable))
  {
    hide Separate, Union;
    assert LookedRam(ram, cold, k, now, readable)[k := r] == ram[k := r];
    WriteUnion(ram, cold, asleep, k, r);
    WriteApart(ram, cold, asleep, k, r, readable);
  }

  lemma WriteUnion(ram: Records, cold: Records, asleep: Records, k: Key, r: Record)
    requires k !in asleep
    ensures Union(ram[k := r], cold, asleep) == Union(ram, cold, asleep)[k := r]
    ensures Union(ram[k := r], cold - {k}, asleep) == Union(ram, cold, asleep)[k := r]
  {
  }

  lemma WriteApart(ram: Records, cold: Records, asleep: Records, k: Key, r: Record, readable: bool)
    requires k !in asleep
    ensures Separate(ram, cold, asleep) ==>
              (Separate(ram[k := r], LookedCold(ram, cold, k, readable), asleep) <==> k !in cold || readable)
  {
    assert k in ram[k := r];
  }

  lemma DeleteEffect(ram: Records, cold: Records, asleep: Records, k: Key, now: int, readable: bool)
    requires k !in asleep
    ensures var ram1, cold1 := LookedRam(ram, cold, k, now, readable) - {k}, LookedCold(ram, cold, k, readable);
            var all := Union(ram1, cold1, asleep);
            && (k !in all <==> k !in cold || (k !in ram && readable))
            && all == (if k in all && k in cold then Union(ram, cold, asleep)[k := cold[k]] else Union(ram, cold, asleep) - {k})
            && (Separate(ram, cold, asleep) ==> Separate(ram1, cold1, asleep))
  {
    hide Separate, Union, LookedCold, LookedRam;
    LookedWithout(ram, cold, k, now, readable);
    DeleteUnion(ram, cold, asleep, k, readable);
    if Separate(ram, cold, asleep) { DeleteApart(ram, cold, asleep, k, readable); }
  }

  lemma LookedWithout(ram: Records, cold: Records, k: Key, now: int, readable: bool)
    ensures LookedRam(ram, cold, k, now, readable) - {k} == ram - {k}
  {
  }

  lemma DeleteUnion(ram: Records, cold: Records, asleep: Records, k: Key, readable: bool)
    requires k !in asleep
    ensures var all := Union(ram - {k}, LookedCold(ram, cold, k, readable), asleep);
            && (k !in all <==> k !in cold || (k !in ram && readable))
            && all == (if k in all && k in cold then Union(ram, cold, asleep)[k := cold[k]] else Union(ram, cold, asleep) - {k})
  {
  }

  lemma DeleteApart(ram: Records, cold: Records, asleep: Records, k: Key, readable: bool)
    requires Separate(ram, cold, asleep)
    ensures Separate(ram - {k}, LookedCold(ram, cold, k, readable), asleep)
  {
  }

  // -------- the failing input --------

  // A store whose only key is in the cold file.
  method Evicted(k: Key, value: string, now: int) returns (s: Store)
    ensures fresh(s) && s.Valid() && s.OneTier() && Awake(s.rooms, k.room)
    ensures k !in s.ram && k in s.cold && s.cold[k] == Record(value, 0, Version(0, 1))
  {
    hide ColdHolds, Charged, Held, Union, AllStorable, Asleep, InRoom, Separate, LookedCold, DiskWorks;
    var size := HEADER_BYTES + |value|;
    s := new Store(0, 0, 0);
    s.FindRoom(k.room);
    var ok := s.Activate(k.room, true, true);
    OnlyResident(s.ram, s.cold, Asleep(s.snaps, s.rooms));
    s.Write(k, value, 0, Version(0, 1), now, true);
    OnlyResident(s.ram, s.cold, Asleep(s.snaps, s.rooms));
    OneWrite(s.ram, k, Record(value, 0, Version(0, 1)), size);
    var failed := s.Evict(k.room, [[Wrote(size)]], size);
    NotResident(s.ram, s.cold, Asleep(s.snaps, s.rooms), k);
    AwakeNotAsleep(s.snaps, s.rooms, k);
  }

  // A key is written and evicted; it is written again while the cold file cannot be read; it is deleted, and the file can
  // be read again. DEL found the key, and the lookup after it returns the first value.
  method FailedReadResurfaces(k: Key, first: string, second: string, now: int) returns (deleted: bool, r: Option<Record>)
    ensures deleted && r == Some(Record(first, 0, Version(0, 1)))
  {
    hide ColdHolds, Charged, Held, Union, AllStorable, Asleep, Separate;
    var s := Evicted(k, first, now);
    s.Write(k, second, 0, Version(0, 1), now, false);
    deleted := s.Delete(k, now, true);
    r := s.Lookup(k, now, true);
  }

  // Every resident key is in the map.
  lemma OnlyResident(ram: Records, cold: Records, asleep: Records)
    ensures forall k :: k in ram ==> k in Union(ram, cold, asleep) && Union(ram, cold, asleep)[k] == ram[k]
  {
  }

  lemma OneWrite(ram: Records, k: Key, r: Record, size: nat)
    requires ram == map[k := r] && HEADER_BYTES + |r.value| == size
    ensures DiskWorks(ram, [[Wrote(size)]], 0, size)
  {
  }

  lemma NotResident(ram: Records, cold: Records, asleep: Records, k: Key)
    ensures InRoom(ram, k.room) == map[] ==> k !in ram
    ensures k in Union(ram, cold, asleep) && k !in ram && k !in asleep ==> k in cold && cold[k] == Union(ram, cold, asleep)[k]
  {
    if k in ram { assert k in InRoom(ram, k.room); }
  }

  ghost function ExpiredKeys(m: Records, now: int): set<Key> {
    set k | k in m && m[k].Expired(now)
  }

  // The disk takes every record still in memory: enough writes are left, each large enough.
  ghost predicate DiskWorks(ram: Records, writes: seq<seq<Io>>, w: nat, limit: nat) {
    && (forall k :: k in ram ==> HEADER_BYTES + |ram[k].value| <= limit)
    && w + |ram| <= |writes|
    && forall j :: 0 <= j < |writes| ==> TakesAll(writes[j], limit)
  }

  lemma StillWorks(ram: Records, writes: seq<seq<Io>>, w: nat, limit: nat, k: Key)
    requires DiskWorks(ram, writes, w, limit) && k in ram
    ensures w < |writes| && DiskWorks(ram - {k}, writes, w + 1, limit)
    ensures Delivered(HEADER_BYTES + |ram[k].value|, writes[w]) == HEADER_BYTES + |ram[k].value|
  {
    assert |(ram - {k}).Keys| == |ram.Keys - {k}|;
  }

  // Any resident key of the room will do.
  method Victim(ram: Records, room: string) returns (k: Key)
    requires InRoom(ram, room) != map[]
    ensures k in ram && k.room == room
  {
    k :| k in InRoom(ram, room);
  }

  lemma Load(ram: Records, cold: Records, asleep: Records, x: Records)
    requires Held(ram, asleep + x) && asleep.Keys !! x.Keys && AllStorable(x)
    ensures Held(ram + x, asleep) && Union(ram + x, cold, asleep) == Union(ram, cold, asleep + x)
    ensures Separate(ram, cold, asleep + x) ==> Separate(ram + x, cold, asleep)
  {
    hide Storable;
  }

  lemma Unload(ram: Records, cold: Records, asleep: Records, x: Records)
    requires Held(ram + x, asleep) && ram.Keys !! x.Keys
    ensures Held(ram, asleep + x) && Union(ram, cold, asleep + x) == Union(ram + x, cold, asleep)
    ensures Separate(ram + x, cold, asleep) ==> Separate(ram, cold, asleep + x)
    ensures AllStorable(x)
  {
    hide AllStorable;
    StorableParts(ram, x);
    assert cold + (asleep + x) + ram == cold + asleep + (ram + x);
  }

  lemma StorableParts(a: Records, b: Records)
    requires AllStorable(a + b) && a.Keys !! b.Keys
    ensures AllStorable(a) && AllStorable(b)
  {
    hide Storable;
    assert forall k :: k in a ==> (a + b)[k] == a[k];
    assert forall k :: k in b ==> (a + b)[k] == b[k];
  }

  lemma StorableMerge(a: Records, gone: set<Key>, b: Records)
    requires AllStorable(a) && AllStorable(b)
    ensures AllStorable(a - gone + b)
  {
    hide Storable;
  }

  lemma AsleepMore(snaps: Records, rooms: map<string, RoomInfo>, room: string, x: Records, bytes: int)
    requires Awake(rooms, room) && forall k :: k in x ==> k.room == room
    ensures Asleep(snaps - InRoom(snaps, room).Keys + x, rooms[room := RoomInfo(false, bytes)]) == Asleep(snaps, rooms) + x
  {
  }

  lemma Woken(ram: Records, cold: Records, snaps: Records, rooms: map<string, RoomInfo>, room: string, bytes: int)
    requires room in rooms && !rooms[room].awake
    requires Held(ram, Asleep(snaps, rooms)) && AllStorable(snaps)
    ensures var asleep := Asleep(snaps, rooms[room := RoomInfo(true, bytes)]);
            && Held(ram + InRoom(snaps, room), asleep)
            && Union(ram + InRoom(snaps, room), cold, asleep) == Union(ram, cold, Asleep(snaps, rooms))
            && (Separate(ram, cold, Asleep(snaps, rooms)) ==> Separate(ram + InRoom(snaps, room), cold, asleep))
  {
    hide Held, Separate, Union, Storable;
    var asleep, x := Asleep(snaps, rooms[room := RoomInfo(true, bytes)]), InRoom(snaps, room);
    assert Asleep(snaps, rooms) == asleep + x && asleep.Keys !! x.Keys;
    Load(ram, cold, asleep, x);
  }

  lemma WokenEmpty(ram: Records, cold: Records, snaps: Records, rooms: map<string, RoomInfo>, room: string, bytes: int)
    requires room in rooms && !rooms[room].awake && Held(ram, Asleep(snaps, rooms))
    ensures var asleep := Asleep(snaps, rooms[room := RoomInfo(true, bytes)]);
            && ram + map[] == ram && Held(ram, asleep)
            && (Separate(ram, cold, Asleep(snaps, rooms)) ==>
                  Separate(ram, cold, asleep) &&
                  Union(ram, cold, asleep) == Union(ram, cold, Asleep(snaps, rooms)) - InRoom(snaps, room).Keys)
  {
    hide Storable;
    var asleep, x := Asleep(snaps, rooms[room := RoomInfo(true, bytes)]), InRoom(snaps, room);
    assert Asleep(snaps, rooms) == asleep + x && asleep.Keys !! x.Keys;
    ForgetPart(ram, cold, asleep, x);
  }

  lemma ForgetPart(ram: Records, cold: Records, asleep: Records, x: Records)
    requires ram.Keys !! (asleep + x).Keys && asleep.Keys !! x.Keys
    ensures ram.Keys !! asleep.Keys
    ensures Separate(ram, cold, asleep + x) ==>
              Separate(ram, cold, asleep) && Union(ram, cold, asleep) == Union(ram, cold, asleep + x) - x.Keys
  {
  }

  lemma Slept(ram: Records, cold: Records, snaps: Records, rooms: map<string, RoomInfo>, room: string, bytes: int)
    requires room in rooms && rooms[room].awake
    requires Held(ram, Asleep(snaps, rooms)) && AllStorable(snaps)
    ensures var resident := InRoom(ram, room);
            var asleep := Asleep(snaps - InRoom(snaps, room).Keys + resident, rooms[room := RoomInfo(false, bytes)]);
            && Held(ram - resident.Keys, asleep)
            && AllStorable(snaps - InRoom(snaps, room).Keys + resident)
            && Union(ram - resident.Keys, cold, asleep) == Union(ram, cold, Asleep(snaps, rooms))
            && (Separate(ram, cold, Asleep(snaps, rooms)) ==> Separate(ram - resident.Keys, cold, asleep))
  {
    hide Held, Separate, Union, AllStorable, Asleep;
    var x := InRoom(ram, room);
    var left := ram - x.Keys;
    assert left + x == ram;
    Unload(left, cold, Asleep(snaps, rooms), x);
    AsleepMore(snaps, rooms, room, x, bytes);
    StorableMerge(snaps, InRoom(snaps, room).Keys, x);
  }
}
