/** A batch read from the file is the batch of the replication model: the same mutations of the same log records. */
module ShippedLog {
  import opened Ints
  import opened Hlc
  import opened Node
  import opened Wrappers
  import opened Decimal
  import opened AofCodec
  import opened LogMeaning
  import opened Commands
  import opened Wire
  import opened Resp
  import opened Recovery
  import opened Shipping
  import opened WireMeaning
  import Cluster

  // A record that came from another node.
  ghost predicate Foreign(rec: AofRecord, id: nat) {
    && rec.node <= U32_MAX && rec.node != id
    && forall op :: op in Meaning(rec) ==> op.version.node != id
  }

  // The records of a node's log: its own writes, within what a peer's clock allows, and those it merged.
  ghost predicate Logged(recs: seq<AofRecord>, id: nat, now: int, maxOffset: nat) {
    forall i :: 0 <= i < |recs| ==>
      (Local(recs[i], id) && PhysicalMs(recs[i].ts) <= now + maxOffset) || Foreign(recs[i], id)
  }

  // -------- the writes of a batch --------

  function WritesIn(sends: seq<Send>): seq<Send> {
    if sends == [] then []
    else WritesIn(sends[..|sends| - 1]) + (if sends[|sends| - 1].Write? then [sends[|sends| - 1]] else [])
  }

  function Addressed(home: string, writes: seq<seq<string>>): seq<Send> {
    seq(|writes|, i requires 0 <= i < |writes| => Write(home, writes[i]))
  }

  function ItemWrites(item: Item, id: nat): seq<Send> {
    var writes := Writes(item.tokens, id);
    if writes == [] then [] else Addressed(item.tokens[0], writes)
  }

  function AllWrites(items: seq<Item>, id: nat): seq<Send> {
    if items == [] then [] else AllWrites(items[..|items| - 1], id) + ItemWrites(items[|items| - 1], id)
  }

  lemma WritesInMore(sends: seq<Send>, s: Send)
    ensures WritesIn(sends + [s]) == WritesIn(sends) + (if s.Write? then [s] else [])
  {
    assert (sends + [s])[..|sends|] == sends;
  }

  lemma {:induction false} AddWritesIn(b: Batch, home: string, writes: seq<seq<string>>)
    ensures WritesIn(AddWrites(b, home, writes).sends) == WritesIn(b.sends) + Addressed(home, writes)
  {
    hide WritesIn;
    if writes != [] {
      var init, last := writes[..|writes| - 1], writes[|writes| - 1];
      AddWritesIn(b, home, init);
      var before := AddWrites(b, home, init);
      var selected := if before.room == home then before.sends else before.sends + [Room(home)];
      WritesInMore(before.sends, Room(home));
      WritesInMore(selected, Write(home, last));
      assert Addressed(home, writes) == Addressed(home, init) + [Write(home, last)];
    }
  }

  // A planned batch holds the writes of its items, in order, and only room selections besides.
  lemma {:induction false} PlanWrites(items: seq<Item>, id: nat, room: string)
    ensures WritesIn(Plan(items, id, room).sends) == AllWrites(items, id)
  {
    hide Writes, AddWrites;
    if items != [] {
      var init, last := items[..|items| - 1], items[|items| - 1];
      PlanWrites(init, id, room);
      var b := Plan(init, id, room);
      if Writes(last.tokens, id) != [] { AddWritesIn(b, last.tokens[0], Writes(last.tokens, id)); }
    }
  }

  // -------- the merges of the log --------

  lemma {:induction false} ShippedAllMore(log: seq<Entry>, e: Entry, id: nat)
    ensures Cluster.ShippedAll(log + [e], id) == Cluster.ShippedAll(log, id) + Cluster.Shipped(e, id)
  {
    if log == [] {
      assert ([] + [e])[1..] == [] && log + [e] == [e];
    } else {
      assert (log + [e])[1..] == log[1..] + [e];
      ShippedAllMore(log[1..], e, id);
    }
  }

  lemma {:induction false} ShippedOwn(e: Entry, id: nat)
    requires forall op :: op in e ==> op.version.node == id
    ensures |Cluster.Shipped(e, id)| == |e|
    ensures forall k :: 0 <= k < |e| ==> Cluster.Shipped(e, id)[k] == Merge(e[k])
  {
    if e != [] {
      assert forall op :: op in e[1..] ==> op in e;
      ShippedOwn(e[1..], id);
    }
  }

  lemma {:induction false} ShippedForeign(e: Entry, id: nat)
    requires forall op :: op in e ==> op.version.node != id
    ensures Cluster.Shipped(e, id) == []
  {
    if e != [] {
      assert forall op :: op in e[1..] ==> op in e;
      ShippedForeign(e[1..], id);
    }
  }

  // -------- they are the same --------

  // Whatever the peer holds, it reads this write as that merge.
  ghost predicate Denotes(w: Send, cmd: Cmd, now: int, maxOffset: nat) {
    w.Write? && cmd.Merge? && forall n: Node :: Received(n, w.home, w.args, now, maxOffset) == Some(cmd.op)
  }

  ghost predicate AllDenote(ws: seq<Send>, cmds: seq<Cmd>, now: int, maxOffset: nat) {
    |ws| == |cmds| && forall k :: 0 <= k < |ws| ==> Denotes(ws[k], cmds[k], now, maxOffset)
  }

  lemma AllDenoteConcat(a: seq<Send>, b: seq<Send>, c: seq<Cmd>, d: seq<Cmd>, now: int, maxOffset: nat)
    requires AllDenote(a, c, now, maxOffset) && AllDenote(b, d, now, maxOffset)
    ensures AllDenote(a + b, c + d, now, maxOffset)
  {
    hide Denotes;
    forall k | 0 <= k < |a + b|
      ensures Denotes((a + b)[k], (c + d)[k], now, maxOffset)
    {
      if k < |a| { assert Denotes(a[k], c[k], now, maxOffset); } else { assert Denotes(b[k - |a|], d[k - |a|], now, maxOffset); }
    }
  }

  lemma LocalCounts(rec: AofRecord, id: nat)
    requires Local(rec, id)
    ensures |Writes(Tokens(rec), id)| == |Meaning(rec)| > 0
    ensures forall op :: op in Meaning(rec) ==> op.version.node == id
  {
    hide Upper, Own, Encodable, Tokens;
    LocalIsOwn(rec, id);
    TokenPlaces(rec);
  }

  lemma ForeignSilent(rec: AofRecord, id: nat)
    requires Foreign(rec, id)
    ensures Writes(Tokens(rec), id) == []
  {
    hide ParseU64, Meaning;
    TokenPlaces(rec);
    U64RoundTrip(rec.node);
  }

  lemma RecordDenotes(rec: AofRecord, id: nat, end: nat, now: int, maxOffset: nat)
    requires (Local(rec, id) && PhysicalMs(rec.ts) <= now + maxOffset) || Foreign(rec, id)
    ensures AllDenote(ItemWrites(Item(Tokens(rec), end), id), Cluster.Shipped(Meaning(rec), id), now, maxOffset)
  {
    hide Writes, Meaning, Received, Tokens;
    if Local(rec, id) && PhysicalMs(rec.ts) <= now + maxOffset {
      hide Local;
      LocalCounts(rec, id);
      ShippedOwn(Meaning(rec), id);
      var ws := ItemWrites(Item(Tokens(rec), end), id);
      TokenHead(rec);
      forall k | 0 <= k < |ws|
        ensures Denotes(ws[k], Cluster.Shipped(Meaning(rec), id)[k], now, maxOffset)
      {
        forall n: Node
          ensures Received(n, rec.room, Writes(Tokens(rec), id)[k], now, maxOffset) == Some(Meaning(rec)[k])
        {
          ShippedMeansLogged(rec, id, n, now, maxOffset, k);
        }
      }
    } else {
      ForeignSilent(rec, id);
      ShippedForeign(Meaning(rec), id);
    }
  }

  lemma TokenHead(rec: AofRecord)
    ensures |Tokens(rec)| > 0 && Tokens(rec)[0] == rec.room
  {
  }

  // The items are the tokens of the records.
  ghost predicate ItemsOf(items: seq<Item>, recs: seq<AofRecord>) {
    |items| == |recs| && forall k :: 0 <= k < |items| ==> items[k].tokens == Tokens(recs[k])
  }

  lemma {:induction false} ItemsDenote(items: seq<Item>, recs: seq<AofRecord>, log: seq<Entry>, id: nat, now: int,
                                       maxOffset: nat)
    requires ItemsOf(items, recs) && SaysWhatWasDone(recs, log) && Logged(recs, id, now, maxOffset)
    ensures AllDenote(AllWrites(items, id), Cluster.ShippedAll(log, id), now, maxOffset)
  {
    hide ItemWrites, Meaning, Tokens, Denotes, Local, Foreign;
    if items != [] {
      var n := |items| - 1;
      ItemsDenote(items[..n], recs[..n], log[..n], id, now, maxOffset);
      assert log == log[..n] + [log[n]] && log[n] == Meaning(recs[n]);
      ShippedAllMore(log[..n], log[n], id);
      assert items[n] == Item(Tokens(recs[n]), items[n].end);
      RecordDenotes(recs[n], id, items[n].end, now, maxOffset);
      AllDenoteConcat(AllWrites(items[..n], id), ItemWrites(items[n], id), Cluster.ShippedAll(log[..n], id),
                      Cluster.Shipped(log[n], id), now, maxOffset);
    }
  }

  // Shipping refines the model. A batch planned from the arrays that follow the first `from` records of the log, read
  // from the file at their boundary, carries, in order, exactly the merges that the replication model ships for those
  // records; each is read by the peer as that merge, whatever the peer holds.
  lemma BatchIsShipped(recs: seq<AofRecord>, log: seq<Entry>, items: seq<Item>, from: nat, id: nat, room: string, now: int,
                       maxOffset: nat)
    requires SaysWhatWasDone(recs, log) && Logged(recs, id, now, maxOffset)
    requires ItemsAt(items, ArraysOf(recs), from + 1)
    ensures from + |items| <= |log|
    ensures AllDenote(WritesIn(Plan(items, id, room).sends), Cluster.ShippedAll(log[from..from + |items|], id), now, maxOffset)
  {
    hide Plan, WritesIn, AllDenote, SaysWhatWasDone, Logged, ItemsAt, ItemsOf, ArraysOf;
    var n := |items|;
    SliceItems(items, recs, from);
    SliceLog(recs, log, from, n, id, now, maxOffset);
    PlanWrites(items, id, room);
    ItemsDenote(items, recs[from..from + n], log[from..from + n], id, now, maxOffset);
  }

  lemma SliceItems(items: seq<Item>, recs: seq<AofRecord>, from: nat)
    requires ItemsAt(items, ArraysOf(recs), from + 1)
    ensures from + |items| <= |recs| && ItemsOf(items, recs[from..from + |items|])
  {
    hide Tokens, ArraysOf, Boundary;
    ArraysLength(recs);
    forall k | 0 <= k < |items|
      ensures items[k].tokens == Tokens(recs[from..from + |items|][k])
    {
      assert ArraysOf(recs)[(from + k) + 1] == Tokens(recs[from + k]);
    }
  }

  lemma SliceLog(recs: seq<AofRecord>, log: seq<Entry>, from: nat, n: nat, id: nat, now: int, maxOffset: nat)
    requires SaysWhatWasDone(recs, log) && Logged(recs, id, now, maxOffset) && from + n <= |recs|
    ensures |log| == |recs| && SaysWhatWasDone(recs[from..from + n], log[from..from + n])
    ensures Logged(recs[from..from + n], id, now, maxOffset)
  {
    hide Meaning, Local, Foreign;
  }

  lemma ArraysLength(recs: seq<AofRecord>)
    ensures |ArraysOf(recs)| == |recs| + 1
    ensures forall i :: 0 <= i < |recs| ==> ArraysOf(recs)[i + 1] == Tokens(recs[i])
  {
    hide Tokens;
  }

  // So a round of shipping is a ReadLog of the model: its queue, without the closing frontier, is that batch.
  lemma BatchIsReadLog(s: Cluster.Cluster, l: Cluster.Link, upto: nat, recs: seq<AofRecord>, items: seq<Item>, room: string,
                       now: int, maxOffset: nat)
    requires l.from < |s.nodes| && l in s.loaded && Cluster.Offset(s, l) <= upto <= |s.nodes[l.from].log|
    requires SaysWhatWasDone(recs, s.nodes[l.from].log) && Logged(recs, l.from, now, maxOffset)
    requires ItemsAt(items, ArraysOf(recs), Cluster.Offset(s, l) + 1) && Cluster.Offset(s, l) + |items| == upto
    ensures var writes := WritesIn(Plan(items, l.from, room).sends);
            var queue := Cluster.Batch(s, l, upto);
            && |writes| <= |queue| && AllDenote(writes, queue[..|writes|], now, maxOffset)
            && queue[|writes|..] == (if upto == |recs| then [Frontier(l.from, s.loaded[l])] else [])
  {
    hide Plan, WritesIn, Logged, Denotes, SaysWhatWasDone, ItemsAt, ArraysOf, Cluster.ShippedAll;
    var log, from := s.nodes[l.from].log, Cluster.Offset(s, l);
    BatchIsShipped(recs, log, items, from, l.from, room, now, maxOffset);
    SameLength(recs, log);
    var shipped := Cluster.ShippedAll(log[from..upto], l.from);
    var closing := if upto == |log| then [Frontier(l.from, s.loaded[l])] else [];
    assert Cluster.Batch(s, l, upto) == shipped + closing;
    Parts(shipped, closing);
  }

  lemma SameLength(recs: seq<AofRecord>, log: seq<Entry>)
    requires SaysWhatWasDone(recs, log)
    ensures |recs| == |log|
  {
  }

  lemma Parts(a: seq<Cmd>, b: seq<Cmd>)
    ensures (a + b)[..|a|] == a && (a + b)[|a|..] == b
  {
  }

  // -------- the peer --------

  // The peer reads this line as that frontier.
  ghost predicate HeardAs(line: Send, cmd: Cmd) {
    && line.Closing? && cmd.Frontier? && |line.args| == 3 && line.args[0] == "REPLFRONTIER"
    && ParseU64(line.args[1]) == Some(cmd.from) && cmd.from <= U32_MAX && ParseU64(line.args[2]) == Some(cmd.f)
  }

  // Executing a line takes the step of the model's command that it denotes, and is answered positively.
  method Execute(db: Database, line: Send, ghost cmd: Cmd, now: int) returns (reply: Reply)
    requires Denotes(line, cmd, now, db.maxOffset) || HeardAs(line, cmd)
    modifies db
    ensures !reply.Refused? && db.Abs() == Exec(old(db.Abs()), cmd, now, true).0
  {
    hide Exec, MergeOp, Admitted, ParseU64, HeardOf, InReach, Merged, Buried;
    UpperNames();
    match line {
      case Closing(args) =>
        reply := db.HandleReplFrontier(args, now);
      case Write(home, args) =>
        assert Received(db.Abs(), home, args, now, db.maxOffset) == Some(cmd.op);
        if args[0] == "CRDTMERGE" {
          MergeOpIff(db.Abs(), home, args, now, db.maxOffset);
          reply := db.HandleCrdtMerge(home, args, now);
        } else {
          AdmittedIff(args[2], args[3], now, db.maxOffset);
          reply := db.HandleCrdtDel(home, args, now);
        }
      case Room(_) =>
        assert false;
    }
  }

  lemma UpperNames()
    ensures Upper("CRDTMERGE") == "CRDTMERGE" && Upper("CRDTDEL") == "CRDTDEL"
  {
  }

  // -------- whole rounds --------

  // What a peer executes of the lines of a round: all but the room selections and the heartbeat.
  function Executed(lines: seq<Send>): seq<Send> {
    if lines == [] then []
    else
      var last := lines[|lines| - 1];
      Executed(lines[..|lines| - 1]) + (if last.Room? || last == Closing(["PING"]) then [] else [last])
  }

  ghost predicate LineDenotes(line: Send, cmd: Cmd, now: int, maxOffset: nat) {
    Denotes(line, cmd, now, maxOffset) || HeardAs(line, cmd)
  }

  ghost predicate RoundDenotes(lines: seq<Send>, queue: seq<Cmd>, now: int, maxOffset: nat) {
    |lines| == |queue| && forall k :: 0 <= k < |lines| ==> LineDenotes(lines[k], queue[k], now, maxOffset)
  }

  lemma {:induction false} ExecutedWrites(sends: seq<Send>)
    requires forall i :: 0 <= i < |sends| ==> !sends[i].Closing?
    ensures Executed(sends) == WritesIn(sends)
  {
    if sends != [] { ExecutedWrites(sends[..|sends| - 1]); }
  }

  lemma {:induction false} PlanNeverCloses(items: seq<Item>, id: nat, room: string)
    ensures forall i :: 0 <= i < |Plan(items, id, room).sends| ==> !Plan(items, id, room).sends[i].Closing?
  {
    hide Writes, AddWrites;
    if items != [] {
      var init, last := items[..|items| - 1], items[|items| - 1];
      PlanNeverCloses(init, id, room);
      if Writes(last.tokens, id) != [] { AddNeverCloses(Plan(init, id, room), last.tokens[0], Writes(last.tokens, id)); }
    }
  }

  lemma {:induction false} AddNeverCloses(b: Batch, home: string, writes: seq<seq<string>>)
    requires forall i :: 0 <= i < |b.sends| ==> !b.sends[i].Closing?
    ensures forall i :: 0 <= i < |AddWrites(b, home, writes).sends| ==> !AddWrites(b, home, writes).sends[i].Closing?
  {
    if writes != [] { AddNeverCloses(b, home, writes[..|writes| - 1]); }
  }

  lemma ExecutedClosed(lines: seq<Send>, sends: seq<Send>, reached: bool, id: nat, frontier: nat)
    requires Closed(lines, sends, reached, id, frontier) && forall i :: 0 <= i < |sends| ==> !sends[i].Closing?
    ensures Executed(lines) == WritesIn(sends) + if reached then [lines[|sends|]] else []
  {
    hide WritesIn;
    ExecutedWrites(sends);
    if reached {
      assert lines == sends + [lines[|sends|]] && lines[..|lines| - 1] == sends;
      assert lines[|sends|] != Closing(["PING"]);
    } else if sends == [] {
      assert lines[..0] == [];
    }
  }

  // How many records lie before an array of the file, whose first one is the header.
  function Position(i: nat): nat {
    if i == 0 then 0 else i - 1
  }

  lemma HeaderSilent(items: seq<Item>, recs: seq<AofRecord>, id: nat)
    requires ItemsAt(items, ArraysOf(recs), 0) && items != []
    ensures ItemsAt(items[1..], ArraysOf(recs), 1)
    ensures AllWrites(items, id) == AllWrites(items[1..], id)
  {
    hide Tokens, ItemWrites, Boundary, ArraysOf;
    FirstArray(recs);
    NoHeaderWrites(items[0], id);
    SkipSilent(items, id);
  }

  lemma FirstArray(recs: seq<AofRecord>)
    ensures |ArraysOf(recs)| > 0 && ArraysOf(recs)[0] == [MAGIC, "3"]
  {
    hide Tokens;
  }

  lemma NoHeaderWrites(item: Item, id: nat)
    requires item.tokens == [MAGIC, "3"]
    ensures ItemWrites(item, id) == []
  {
  }

  lemma {:induction false} SkipSilent(items: seq<Item>, id: nat)
    requires items != [] && ItemWrites(items[0], id) == []
    ensures AllWrites(items, id) == AllWrites(items[1..], id)
  {
    hide ItemWrites;
    var init := items[..|items| - 1];
    if init == [] {
      assert AllWrites(init, id) == [] && items[1..] == [];
    } else {
      SkipSilent(init, id);
      assert items[1..][..|items| - 2] == init[1..] && items[1..][|items| - 2] == items[|items| - 1];
    }
  }

  // The lines of a round, without room selections and heartbeats, are the queue of the model's ReadLog at the same place.
  lemma RoundIsReadLog(s: Cluster.Cluster, l: Cluster.Link, recs: seq<AofRecord>, items: seq<Item>, room: string,
                       lines: seq<Send>, from: nat, closed: bool, now: int, maxOffset: nat)
    requires l.from < |s.nodes| && l.from <= U32_MAX && l in s.loaded && Cluster.Offset(s, l) == Position(from)
    requires SaysWhatWasDone(recs, s.nodes[l.from].log) && Logged(recs, l.from, now, maxOffset)
    requires ItemsAt(items, ArraysOf(recs), from) && Closed(lines, Plan(items, l.from, room).sends, closed, l.from, s.loaded[l])
    requires closed <==> from + |items| == |recs| + 1
    requires from + |items| > 0
    ensures var upto := Position(from + |items|);
            && Position(from) <= upto <= |s.nodes[l.from].log|
            && RoundDenotes(Executed(lines), Cluster.Batch(s, l, upto), now, maxOffset)
  {
    hide Plan, WritesIn, Logged, Denotes, SaysWhatWasDone, ItemsAt, ArraysOf, Executed, Closed, AllWrites;
    var shown, start := items, from;
    if from == 0 {
      ItemsBound(items, recs, from);
      HeaderSilent(items, recs, l.from);
      shown, start := items[1..], 1;
    }
    ItemsBound(shown, recs, start);
    SameLength(recs, s.nodes[l.from].log);
    PlanWrites(items, l.from, room);
    PlanWrites(shown, l.from, room);
    PlanNeverCloses(items, l.from, room);
    BatchIsReadLog(s, l, start - 1 + |shown|, recs, shown, room, now, maxOffset);
    ExecutedClosed(lines, Plan(items, l.from, room).sends, closed, l.from, s.loaded[l]);
    QueueDenotes(lines, Plan(items, l.from, room).sends, Cluster.Batch(s, l, start - 1 + |shown|), closed, l.from, s.loaded[l],
                 now, maxOffset);
  }

  lemma ItemsBound(items: seq<Item>, recs: seq<AofRecord>, from: nat)
    requires ItemsAt(items, ArraysOf(recs), from)
    ensures from + |items| <= |recs| + 1
  {
    ArraysLength(recs);
  }

  lemma QueueDenotes(lines: seq<Send>, sends: seq<Send>, queue: seq<Cmd>, closed: bool, id: nat, frontier: nat, now: int,
                     maxOffset: nat)
    requires id <= U32_MAX && Closed(lines, sends, closed, id, frontier)
    requires Executed(lines) == WritesIn(sends) + if closed then [lines[|sends|]] else []
    requires |WritesIn(sends)| <= |queue| && AllDenote(WritesIn(sends), queue[..|WritesIn(sends)|], now, maxOffset)
    requires queue[|WritesIn(sends)|..] == if closed then [Frontier(id, frontier)] else []
    ensures RoundDenotes(Executed(lines), queue, now, maxOffset)
  {
    hide WritesIn, Denotes, Executed;
    var n := |WritesIn(sends)|;
    assert |queue| == n + |queue[n..]|;
    forall k | 0 <= k < |queue|
      ensures LineDenotes(Executed(lines)[k], queue[k], now, maxOffset)
    {
      if k < n {
        assert Denotes(WritesIn(sends)[k], queue[..n][k], now, maxOffset);
      } else {
        assert queue[k] == queue[n..][k - n];
      }
    }
  }

  // A round of shipping in which the file is read is the model's ReadLog at the peer's offset: what the peer executes of it
  // is, line by line, that queue, and the frontier closes it exactly at the end of the log.
  method ShipRound(peer: Peer, file: string, ino: nat, ghost recs: seq<AofRecord>, env: ShipEnv, frontier: nat,
                   ghost s: Cluster.Cluster, ghost l: Cluster.Link, ghost now: int, ghost maxOffset: nat)
      returns (alive: bool, acked: nat, expected: nat, ghost upto: nat, ghost lines: seq<Send>)
    requires peer.Stands() && peer.RoomKnown() && peer.id == l.from <= U32_MAX && frontier <= U64_MAX
    requires AllEncodable(recs) && file == LogFile(recs) && NamedArrays(ArraysOf(recs), peer.id)
    requires ino == peer.inode ==> peer.logged <= ArraysOf(recs)
    requires l.from < |s.nodes| && l in s.loaded && s.loaded[l] == frontier
    requires SaysWhatWasDone(recs, s.nodes[l.from].log) && Logged(recs, l.from, now, maxOffset)
    requires Cluster.Offset(s, l) == Position(if ino == peer.inode && peer.offset <= |file| then peer.upto else 0)
    modifies peer
    ensures peer.Stands() && peer.RoomKnown()
    ensures (old(peer.connected) || env.connects) && env.read && env.reread ==>
              && Cluster.Offset(s, l) <= upto <= |s.nodes[l.from].log|
              && RoundDenotes(Executed(lines), Cluster.Batch(s, l, upto), now, maxOffset)
              && Cluster.Offset(s, l) <= Position(peer.upto) <= upto
              // with every write acknowledged the peer's offset is where the model's Acknowledge puts it
              && (acked >= expected ==> Position(peer.upto) == upto)
  {
    hide Plan, Logged, SaysWhatWasDone, ItemsAt, ArraysOf, Executed, Closed, NamedRooms, NamedArrays, Boundary, Bytes,
      AllInLimit, AllTrue, AllRan, LogFile, AllEncodable, Cluster.Batch, RoundDenotes, Replies, Flatten;
    LogIsArrays(recs);
    var closed;
    ghost var from, covered;
    alive, closed, acked, expected, from, covered, lines := peer.Ship(file, ino, ArraysOf(recs), frontier, env);
    upto := Position(covered);
    if (old(peer.connected) || env.connects) && env.read && env.reread {
      ghost var items, room :| ItemsAt(items, ArraysOf(recs), from) && covered == from + |items| && NamedRooms(items, l.from) &&
                               Closed(lines, Plan(items, l.from, room).sends, closed, l.from, frontier);
      EndsAt(recs, covered);
      EndsAt(recs, from);
      HeaderFits(recs, file);
      RoundIsReadLog(s, l, recs, items, room, lines, from, closed, now, maxOffset);
    }
  }

  // Acknowledging a batch moves the model's offset to the place up to which it was read.
  lemma AcknowledgeMoves(s: Cluster.Cluster, c: nat)
    requires Cluster.CanStep(s, Cluster.Acknowledge(c)) && |s.seen| == |s.nodes|
    ensures var l := Cluster.Link(s.conns[c].from, s.conns[c].to);
            && Cluster.Offset(Cluster.Advance(s, Cluster.Acknowledge(c), {}), l) == s.conns[c].mark
            && forall other :: other != l ==>
                 Cluster.Offset(Cluster.Advance(s, Cluster.Acknowledge(c), {}), other) == Cluster.Offset(s, other)
  {
  }

  lemma HeaderFits(recs: seq<AofRecord>, file: string)
    requires file == Bytes(ArraysOf(recs))
    ensures |ArraysOf(recs)| > 0 && Boundary(ArraysOf(recs), 1) <= |file|
  {
    hide Bytes, Encode;
    FirstArray(recs);
    BytesFrom(ArraysOf(recs), 0);
  }

  // A boundary is the end of the file exactly after the last array.
  lemma EndsAt(recs: seq<AofRecord>, covered: nat)
    requires covered <= |ArraysOf(recs)|
    ensures |ArraysOf(recs)| == |recs| + 1
    ensures Boundary(ArraysOf(recs), covered) == |Bytes(ArraysOf(recs))| <==> covered == |recs| + 1
  {
    hide Bytes;
    var all := ArraysOf(recs);
    ArraysLength(recs);
    assert all[..|all|] == all;
    if covered < |all| { BoundaryGrows(all, covered, |all|); }
  }
}
