/** What the log of a node turns into on the wire, and in which room each command runs at the peer. */
module Wire {
  import opened Wrappers
  import opened Decimal
  import opened Resp
  import opened AofCodec
  import opened LogMeaning

  // One command of a batch: a room selection, a write on behalf of a record of room `home`, or a closing line.
  datatype Send = Room(name: string) | Write(home: string, args: seq<string>) | Closing(args: seq<string>)

  function Arguments(s: Send): seq<string> {
    match s
    case Room(name) => ["ROOM", name]
    case Write(_, args) => args
    case Closing(args) => args
  }

  // A record this node wrote itself: the format header and the records of other nodes are not.
  predicate Own(t: seq<string>, id: nat) {
    |t| >= 7 && t[|t| - 4] == META && ParseU64(t[|t| - 1]) == Some(id)
  }

  function PairsEnd(t: seq<string>): nat
    requires |t| >= 7
  {
    var cmd := Upper(t[1]);
    if cmd == "MSET" then |t| - 4 else if cmd == "SET" || cmd == "CRDTMERGE" then 4 else 0
  }

  predicate IsDelete(t: seq<string>)
    requires |t| >= 7
  {
    Upper(t[1]) == "DEL" || Upper(t[1]) == "CRDTDEL"
  }

  function MergeOf(t: seq<string>, i: nat): seq<string>
    requires |t| >= 7 && i + 1 < |t|
  {
    ["CRDTMERGE", t[i], t[i + 1], t[|t| - 2], t[|t| - 1], t[|t| - 3]]
  }

  function PairCount(t: seq<string>): nat
    requires |t| >= 7
  {
    if PairsEnd(t) < 2 then 0 else (PairsEnd(t) - 2) / 2
  }

  // The merges and deletes that carry a record's state, one per key.
  function Writes(t: seq<string>, id: nat): (w: seq<seq<string>>)
    ensures w != [] ==> Own(t, id) && |t| >= 7
  {
    if !Own(t, id) then []
    else if IsDelete(t) then [["CRDTDEL", t[2], t[|t| - 2], t[|t| - 1]]]
    else seq(PairCount(t), k requires 0 <= k < PairCount(t) => MergeOf(t, 2 + 2 * k))
  }

  // -------- the room a command runs in --------

  // The peer's selected room after these commands, all of them answered positively.
  function RoomAfter(start: string, sends: seq<Send>): string {
    if sends == [] then start
    else match sends[|sends| - 1]
         case Room(name) => name
         case _ => RoomAfter(start, sends[..|sends| - 1])
  }

  // The same when a selection that the peer refused has no effect.
  function RoomReally(start: string, sends: seq<Send>, replies: seq<bool>): string
    requires |sends| <= |replies|
    decreases |sends|
  {
    if sends == [] then start
    else
      var before := RoomReally(start, sends[..|sends| - 1], replies);
      match sends[|sends| - 1]
      case Room(name) => if replies[|sends| - 1] then name else before
      case _ => before
  }

  // Every write runs in the room of its record.
  ghost predicate Directed(start: string, sends: seq<Send>) {
    forall j :: 0 <= j < |sends| && sends[j].Write? ==> RoomAfter(start, sends[..j]) == sends[j].home
  }

  lemma DirectedMore(start: string, sends: seq<Send>, s: Send)
    requires Directed(start, sends)
    requires s.Write? ==> RoomAfter(start, sends) == s.home
    ensures Directed(start, sends + [s])
    ensures RoomAfter(start, sends + [s]) == if s.Room? then s.name else RoomAfter(start, sends)
  {
    hide RoomAfter;
    var more := sends + [s];
    assert more[..|sends|] == sends;
    RoomAfterMore(start, sends, s);
    forall j | 0 <= j < |more| && more[j].Write?
      ensures RoomAfter(start, more[..j]) == more[j].home
    {
      if j < |sends| { assert more[..j] == sends[..j]; }
    }
  }

  lemma RoomAfterMore(start: string, sends: seq<Send>, s: Send)
    ensures RoomAfter(start, sends + [s]) == if s.Room? then s.name else RoomAfter(start, sends)
  {
    assert (sends + [s])[..|sends|] == sends;
  }

  // The count of leading positive replies.
  function Leading(replies: seq<bool>): (n: nat)
    ensures n <= |replies|
    ensures forall i :: 0 <= i < n ==> replies[i]
    ensures n < |replies| ==> !replies[n]
  {
    if replies == [] || !replies[0] then 0 else 1 + Leading(replies[1..])
  }

  lemma {:induction false} RoomsAgree(start: string, sends: seq<Send>, replies: seq<bool>)
    requires |sends| <= Leading(replies)
    ensures RoomReally(start, sends, replies) == RoomAfter(start, sends)
  {
    if sends != [] { RoomsAgree(start, sends[..|sends| - 1], replies); }
  }

  // In the acknowledged prefix every write ran in its record's own room, whatever the later replies are.
  lemma AcknowledgedAtHome(start: string, sends: seq<Send>, replies: seq<bool>, j: nat)
    requires |sends| <= |replies| && Directed(start, sends)
    requires j < |sends| && j < Leading(replies) && sends[j].Write?
    ensures RoomReally(start, sends[..j], replies) == sends[j].home
  {
    RoomsAgree(start, sends[..j], replies);
  }

  // The last selection before command j that the peer answered positively.
  function LastSelection(sends: seq<Send>, replies: seq<bool>, j: nat): (i: Option<nat>)
    requires j <= |sends| <= |replies|
    ensures i.Some? ==> i.value < j && sends[i.value].Room? && replies[i.value]
    ensures forall m :: (if i.Some? then i.value + 1 else 0) <= m < j ==> !(sends[m].Room? && replies[m])
  {
    if j == 0 then None
    else if sends[j - 1].Room? && replies[j - 1] then Some(j - 1)
    else LastSelection(sends, replies, j - 1)
  }

  lemma {:induction false} RoomReallyIs(start: string, sends: seq<Send>, replies: seq<bool>, j: nat)
    requires j <= |sends| <= |replies|
    ensures RoomReally(start, sends[..j], replies) ==
            match LastSelection(sends, replies, j) { case Some(i) => sends[i].name case None => start }
  {
    if j > 0 {
      RoomReallyIs(start, sends, replies, j - 1);
      assert sends[..j][..j - 1] == sends[..j - 1];
    }
  }

  // Whatever the replies, a write ran in its record's own room if and only if the last positively answered selection
  // before it names that room, or no selection was and the connection started there.
  lemma RanAtHomeIff(start: string, sends: seq<Send>, replies: seq<bool>, j: nat)
    requires |sends| <= |replies| && j < |sends| && sends[j].Write?
    ensures RoomReally(start, sends[..j], replies) == sends[j].home <==>
            match LastSelection(sends, replies, j)
            case Some(i) => sends[i].name == sends[j].home
            case None => start == sends[j].home
  {
    hide RoomReally, LastSelection;
    RoomReallyIs(start, sends, replies, j);
  }

  // -------- planning a batch --------

  // A complete array in the log and the offset after it.
  datatype Item = Item(tokens: seq<string>, end: nat)

  // A record is confirmed once that many replies were positive; the shipping offset then moves past it.
  datatype Mark = Mark(replies: nat, offset: nat)

  datatype Batch = Batch(sends: seq<Send>, marks: seq<Mark>, room: string)

  function Scan(buf: string, at: nat): seq<Item>
    decreases |buf|
  {
    match ParseArray(buf)
    case Complete(end, tokens) => [Item(tokens, at + end)] + Scan(buf[end..], at + end)
    case _ => []
  }

  // Queues one write, behind a room selection when the record's room is not the one selected.
  function Queue(b: Batch, home: string, w: seq<string>): Batch {
    var selected := if b.room == home then b.sends else b.sends + [Room(home)];
    b.(sends := selected + [Write(home, w)], room := home)
  }

  function AddWrites(b: Batch, home: string, writes: seq<seq<string>>): Batch
    decreases |writes|
  {
    if writes == [] then b
    else Queue(AddWrites(b, home, writes[..|writes| - 1]), home, writes[|writes| - 1])
  }

  function AddItem(b: Batch, item: Item, id: nat): Batch {
    var writes := Writes(item.tokens, id);
    var more := if writes == [] then b else AddWrites(b, item.tokens[0], writes);
    more.(marks := b.marks + [Mark(|more.sends|, item.end)])
  }

  function Plan(items: seq<Item>, id: nat, room: string): Batch {
    if items == [] then Batch([], [], room)
    else AddItem(Plan(items[..|items| - 1], id, room), items[|items| - 1], id)
  }

  // The batch keeps track of the peer's room: unknown, or the room selected there.
  ghost predicate Tracks(b: Batch, start: string) {
    Directed(start, b.sends) && (b.room == "" || b.room == RoomAfter(start, b.sends))
  }

  lemma {:induction false} AddWritesTracks(b: Batch, home: string, writes: seq<seq<string>>, start: string)
    requires Tracks(b, start) && home != ""
    ensures var more := AddWrites(b, home, writes);
            && Tracks(more, start) && b.sends <= more.sends && more.marks == b.marks
            && (forall w :: w in writes ==> Write(home, w) in more.sends[|b.sends|..])
  {
    hide Directed, RoomAfter;
    if writes != [] {
      var init, last := writes[..|writes| - 1], writes[|writes| - 1];
      AddWritesTracks(b, home, init, start);
      var before := AddWrites(b, home, init);
      var selected := if before.room == home then before.sends else before.sends + [Room(home)];
      if before.room != home { DirectedMore(start, before.sends, Room(home)); }
      DirectedMore(start, selected, Write(home, last));
      assert writes == init + [last];
      Carried(b.sends, before.sends, home, init, last, AddWrites(b, home, writes).sends);
    }
  }

  lemma Carried(base: seq<Send>, before: seq<Send>, home: string, init: seq<seq<string>>, last: seq<string>,
                after: seq<Send>)
    requires base <= before < after && after[|after| - 1] == Write(home, last)
    requires forall w :: w in init ==> Write(home, w) in before[|base|..]
    ensures forall w :: w in init + [last] ==> Write(home, w) in after[|base|..]
  {
    assert after[|base|..][|after| - 1 - |base|] == Write(home, last);
    forall w | w in init
      ensures Write(home, w) in after[|base|..]
    {
      var k :| 0 <= k < |before[|base|..]| && before[|base|..][k] == Write(home, w);
      assert after[|base|..][k] == Write(home, w);
    }
  }

  ghost predicate NamedRooms(items: seq<Item>, id: nat) {
    forall i :: 0 <= i < |items| && Own(items[i].tokens, id) ==> items[i].tokens[0] != ""
  }

  // The writes of the items up to a mark are among the sends that the mark counts.
  ghost predicate Marked(b: Batch, items: seq<Item>, id: nat) {
    && |b.marks| == |items|
    && forall i :: 0 <= i < |items| ==>
         && b.marks[i].offset == items[i].end && b.marks[i].replies <= |b.sends|
         && forall w :: w in Writes(items[i].tokens, id) ==>
              Write(items[i].tokens[0], w) in b.sends[..b.marks[i].replies]
  }

  lemma PrefixHas(a: seq<Send>, b: seq<Send>, n: nat, s: Send)
    requires a <= b && n <= |a| && s in a[..n]
    ensures s in b[..n]
  {
    var k :| 0 <= k < n && a[k] == s;
    assert b[..n][k] == s;
  }

  lemma {:induction false} PlanTracks(items: seq<Item>, id: nat, room: string, start: string)
    requires NamedRooms(items, id) && (room == "" || room == start)
    ensures Tracks(Plan(items, id, room), start) && Marked(Plan(items, id, room), items, id)
    ensures Plan(items, id, room).sends == [] ==> Plan(items, id, room).room == room
  {
    hide Directed, Writes, RoomAfter;
    if items == [] {
      EmptyTracks(room, start);
    } else {
      var init, last := items[..|items| - 1], items[|items| - 1];
      PlanTracks(init, id, room, start);
      AddItemTracks(Plan(init, id, room), init, last, id, start);
      assert items == init + [last];
      assert NamedRooms(init, id);
    }
  }

  // A room is selected only where another one, or none that is known, was selected before, and right before a write of a
  // record of that room.
  ghost predicate Needed(room: string, sends: seq<Send>) {
    forall j :: 0 <= j < |sends| && sends[j].Room? ==>
      && RoomAfter(room, sends[..j]) != sends[j].name
      && j + 1 < |sends| && sends[j + 1].Write? && sends[j + 1].home == sends[j].name
  }

  lemma QueueNeeded(b: Batch, home: string, w: seq<string>, room: string)
    requires Needed(room, b.sends) && b.room == RoomAfter(room, b.sends)
    ensures var more := Queue(b, home, w);
            Needed(room, more.sends) && more.room == RoomAfter(room, more.sends)
  {
    hide RoomAfter;
    var selected := if b.room == home then b.sends else b.sends + [Room(home)];
    var more := selected + [Write(home, w)];
    RoomAfterMore(room, b.sends, Room(home));
    RoomAfterMore(room, selected, Write(home, w));
    forall j | 0 <= j < |more| && more[j].Room?
      ensures RoomAfter(room, more[..j]) != more[j].name
      ensures j + 1 < |more| && more[j + 1].Write? && more[j + 1].home == more[j].name
    {
      if j < |b.sends| {
        assert more[..j] == b.sends[..j] && b.sends[j] == more[j];
      } else {
        assert more[..j] == b.sends;
      }
    }
  }

  lemma {:induction false} AddWritesNeeded(b: Batch, home: string, writes: seq<seq<string>>, room: string)
    requires Needed(room, b.sends) && b.room == RoomAfter(room, b.sends)
    ensures var more := AddWrites(b, home, writes);
            Needed(room, more.sends) && more.room == RoomAfter(room, more.sends)
  {
    hide Needed, RoomAfter, Queue;
    if writes != [] {
      var init := writes[..|writes| - 1];
      AddWritesNeeded(b, home, init, room);
      QueueNeeded(AddWrites(b, home, init), home, writes[|writes| - 1], room);
    }
  }

  lemma {:induction false} PlanNeeded(items: seq<Item>, id: nat, room: string)
    ensures var b := Plan(items, id, room); Needed(room, b.sends) && b.room == RoomAfter(room, b.sends)
  {
    hide RoomAfter, Writes, AddWrites;
    if items == [] {
      NothingSelected(room);
    } else {
      hide Needed;
      var init, last := items[..|items| - 1], items[|items| - 1];
      PlanNeeded(init, id, room);
      if Writes(last.tokens, id) != [] {
        AddWritesNeeded(Plan(init, id, room), last.tokens[0], Writes(last.tokens, id), room);
      }
    }
  }

  lemma NothingSelected(room: string)
    ensures RoomAfter(room, []) == room && Needed(room, [])
  {
  }

  lemma EmptyTracks(room: string, start: string)
    requires room == "" || room == start
    ensures Tracks(Batch([], [], room), start)
  {
  }

  lemma AddItemTracks(b: Batch, items: seq<Item>, item: Item, id: nat, start: string)
    requires Tracks(b, start) && Marked(b, items, id)
    requires Own(item.tokens, id) ==> item.tokens[0] != ""
    ensures var more := AddItem(b, item, id);
            && Tracks(more, start) && Marked(more, items + [item], id) && b.sends <= more.sends
            && (more.sends == [] ==> more.room == b.room)
  {
    hide Directed, RoomAfter, AddWrites, Own;
    var t, more := item.tokens, AddItem(b, item, id);
    var writes := Writes(t, id);
    if writes != [] { AddWritesTracks(b, t[0], writes, start); AddWritesNotEmpty(b, t[0], writes); }
    var all := items + [item];
    forall i | 0 <= i < |all|
      ensures more.marks[i].offset == all[i].end && more.marks[i].replies <= |more.sends|
      ensures forall w :: w in Writes(all[i].tokens, id) ==>
                Write(all[i].tokens[0], w) in more.sends[..more.marks[i].replies]
    {
      hide Writes;
      forall w | w in Writes(all[i].tokens, id)
        ensures Write(all[i].tokens[0], w) in more.sends[..more.marks[i].replies]
      {
        if i < |items| {
          PrefixHas(b.sends, more.sends, b.marks[i].replies, Write(all[i].tokens[0], w));
        } else {
          assert more.sends[..|more.sends|] == more.sends;
          assert Write(t[0], w) in more.sends[|b.sends|..];
        }
      }
    }
  }

  lemma AddWritesNotEmpty(b: Batch, home: string, writes: seq<seq<string>>)
    requires writes != []
    ensures AddWrites(b, home, writes).sends != []
  {
  }

  // -------- a refused selection --------

  lemma {:induction false} AddWritesShape(b: Batch, home: string, writes: seq<seq<string>>)
    requires b.room == "" && b.sends == [] && home != "" && writes != []
    ensures var sends := AddWrites(b, home, writes).sends;
            && AddWrites(b, home, writes).room == home && |sends| == |writes| + 1 && sends[0] == Room(home)
            && forall i :: 0 <= i < |writes| ==> sends[i + 1] == Write(home, writes[i])
  {
    var init := writes[..|writes| - 1];
    if init != [] {
      AddWritesShape(b, home, init);
    } else {
      assert AddWrites(b, home, init) == b;
    }
  }

  // The batch of any one local record, on a new connection, when its room selection is refused and every write is
  // answered positively: all of them ran in the room the connection started in.
  lemma RefusedSelectionMisdirects(item: Item, id: nat, start: string, replies: seq<bool>)
    requires Writes(item.tokens, id) != [] && item.tokens[0] != "" && item.tokens[0] != start
    requires var sends := Plan([item], id, "").sends;
             |replies| == |sends| && forall i :: 0 <= i < |replies| ==> (replies[i] <==> i > 0)
    ensures var sends := Plan([item], id, "").sends;
            && |sends| == |Writes(item.tokens, id)| + 1 && sends[0] == Room(item.tokens[0])
            && forall j :: 0 < j < |sends| ==>
                 sends[j] == Write(item.tokens[0], Writes(item.tokens, id)[j - 1]) && replies[j] &&
                 RoomReally(start, sends[..j], replies) == start != sends[j].home
  {
    hide Writes, AddWrites, RoomReally;
    var home, writes := item.tokens[0], Writes(item.tokens, id);
    assert [item][..0] == [];
    assert Plan([], id, "") == Batch([], [], "");
    AddWritesShape(Batch([], [], ""), home, writes);
    var sends := Plan([item], id, "").sends;
    assert sends == AddWrites(Batch([], [], ""), home, writes).sends;
    forall j | 0 < j < |sends|
      ensures sends[j] == Write(home, writes[j - 1])
    {
      assert sends[(j - 1) + 1] == Write(home, writes[j - 1]);
    }
    forall j | 0 < j < |sends|
      ensures RoomReally(start, sends[..j], replies) == start
    {
      RoomReallyIs(start, sends, replies, j);
    }
  }
}
