/** Shipping the log to one peer: batches, acknowledgements, and where the offset stands. */
module Shipping {
  import opened Ints
  import opened Wrappers
  import opened Decimal
  import opened Resp
  import opened Recovery
  import opened LogMeaning
  import opened Wire

  const MAX_BATCH: nat := 4 * 1024 * 1024

  // -------- a log as a list of arrays --------

  function Bytes(lists: seq<seq<string>>): string {
    if lists == [] then [] else Bytes(lists[..|lists| - 1]) + Encode(lists[|lists| - 1])
  }

  predicate AllInLimit(lists: seq<seq<string>>) {
    forall i :: 0 <= i < |lists| ==> InLimit(lists[i])
  }

  function Boundary(lists: seq<seq<string>>, i: nat): nat
    requires i <= |lists|
  {
    |Bytes(lists[..i])|
  }

  lemma {:induction false} BytesFrom(lists: seq<seq<string>>, i: nat)
    requires i <= |lists|
    ensures Boundary(lists, i) <= |Bytes(lists)|
    ensures Bytes(lists)[..Boundary(lists, i)] == Bytes(lists[..i])
    ensures i < |lists| ==>
              && Boundary(lists, i + 1) == Boundary(lists, i) + |Encode(lists[i])| <= |Bytes(lists)|
              && Encode(lists[i]) == Bytes(lists)[Boundary(lists, i)..Boundary(lists, i + 1)]
  {
    hide Encode;
    if i == |lists| {
      assert lists[..i] == lists;
    } else {
      var init := lists[..|lists| - 1];
      BytesFrom(init, i);
      assert init[..i] == lists[..i];
      assert lists[..i + 1][..i] == lists[..i];
      if i < |init| {
        assert init[..i + 1] == lists[..i + 1];
        assert Bytes(lists)[Boundary(lists, i)..Boundary(lists, i + 1)] ==
               Bytes(init)[Boundary(lists, i)..Boundary(lists, i + 1)];
      } else {
        assert lists[..i + 1] == lists;
      }
    }
  }

  // The items are the arrays from number i on, with their boundaries.
  ghost predicate ItemsAt(items: seq<Item>, lists: seq<seq<string>>, i: nat) {
    && i + |items| <= |lists|
    && forall k :: 0 <= k < |items| ==> items[k] == Item(lists[i + k], Boundary(lists, i + k + 1))
  }

  ghost predicate NamedArrays(lists: seq<seq<string>>, id: nat) {
    forall i :: 0 <= i < |lists| && Own(lists[i], id) ==> lists[i][0] != ""
  }

  // Reading from a boundary, whatever the length read, finds exactly the arrays that fit, and their boundaries.
  lemma {:induction false} ScanFrom(lists: seq<seq<string>>, i: nat, len: nat)
    requires AllInLimit(lists) && i <= |lists| && Boundary(lists, i) + len <= |Bytes(lists)|
    ensures var at := Boundary(lists, i);
            var items := Scan(Bytes(lists)[at..at + len], at);
            && ItemsAt(items, lists, i)
            && (i + |items| < |lists| ==> at + len < Boundary(lists, i + |items| + 1))
    decreases |lists| - i
  {
    hide Encode, Bytes, ParseArray, Scan, ItemsAt, InLimit;
    var at := Boundary(lists, i);
    BytesFrom(lists, i);
    if i == |lists| {
      assert lists[..i] == lists && Bytes(lists)[at..at + len] == [];
      NoItems([], at, lists, i);
    } else {
      var e := Encode(lists[i]);
      SliceHead(Bytes(lists), at, e, len);
      if len < |e| {
        StrictPrefixNeedsMore(lists[i], len);
        NoItems(e[..len], at, lists, i);
      } else {
        var next := at + |e|;
        var rest := Bytes(lists)[next..next + (len - |e|)];
        RoundTrip(lists[i], rest);
        ScanFrom(lists, i + 1, len - |e|);
        ScanHead(e, lists[i], rest, at);
        OneMoreItem(Scan(rest, next), lists, i);
      }
    }
  }

  lemma NoItems(buf: string, at: nat, lists: seq<seq<string>>, i: nat)
    requires (buf == [] || ParseArray(buf).NeedMore?) && i <= |lists|
    ensures Scan(buf, at) == [] && ItemsAt([], lists, i)
  {
  }

  lemma OneMoreItem(rest: seq<Item>, lists: seq<seq<string>>, i: nat)
    requires i < |lists| && ItemsAt(rest, lists, i + 1)
    ensures ItemsAt([Item(lists[i], Boundary(lists, i + 1))] + rest, lists, i)
  {
    hide Boundary;
    var items := [Item(lists[i], Boundary(lists, i + 1))] + rest;
    forall k | 0 <= k < |items|
      ensures items[k] == Item(lists[i + k], Boundary(lists, i + k + 1))
    {
      if k > 0 { assert items[k] == rest[k - 1]; }
    }
  }

  lemma SliceHead(s: string, at: nat, e: string, len: nat)
    requires at + |e| <= |s| && at + len <= |s| && s[at..at + |e|] == e
    ensures len < |e| ==> s[at..at + len] == e[..len]
    ensures len >= |e| ==> s[at..at + len] == e + s[at + |e|..at + len]
  {
    if len < |e| { assert s[at..at + |e|][..len] == s[at..at + len]; }
  }

  lemma ScanHead(e: string, tokens: seq<string>, rest: string, at: nat)
    requires ParseArray(e + rest) == Complete(|e|, tokens)
    ensures Scan(e + rest, at) == [Item(tokens, at + |e|)] + Scan(rest, at + |e|)
  {
    hide ParseArray;
    assert (e + rest)[|e|..] == rest;
  }

  function Outgoing(sends: seq<Send>): seq<seq<string>> {
    seq(|sends|, i requires 0 <= i < |sends| => Arguments(sends[i]))
  }

  // The peer parses the bytes of a batch into exactly its commands, in order.
  lemma BatchParses(sends: seq<Send>)
    requires AllInLimit(Outgoing(sends))
    ensures var items := Scan(Bytes(Outgoing(sends)), 0);
            |items| == |sends| && forall i :: 0 <= i < |sends| ==> items[i].tokens == Arguments(sends[i])
  {
    hide Scan, Bytes, Arguments, InLimit;
    var lists := Outgoing(sends);
    var bytes := Bytes(lists);
    EmptyStart(lists);
    ScanFrom(lists, 0, |bytes|);
    assert bytes[0..|bytes|] == bytes;
    var items := Scan(bytes, 0);
    if |items| < |lists| { BytesFrom(lists, |items|); }
  }

  lemma EmptyStart(lists: seq<seq<string>>)
    ensures Boundary(lists, 0) == 0
  {
    assert lists[..0] == [];
  }

  // -------- replies --------

  // The complete reply lines of a stream, each positive or not.
  function Replies(s: string): seq<bool> {
    match FindCrlf(s)
    case None => []
    case Some(i) => [s[0] == '+'] + Replies(s[i + 2..])
  }

  function Lines(replies: seq<string>): string {
    if replies == [] then [] else replies[0] + "\r\n" + Lines(replies[1..])
  }

  // A reply line is positive exactly when it starts with a plus sign; what follows the last line end is no reply yet.
  lemma {:induction false} RepliesMean(replies: seq<string>, rest: string)
    requires forall i :: 0 <= i < |replies| ==> '\r' !in replies[i]
    requires '\r' !in rest
    ensures |Replies(Lines(replies) + rest)| == |replies|
    ensures forall i :: 0 <= i < |replies| ==> (Replies(Lines(replies) + rest)[i] <==> replies[i] != [] && replies[i][0] == '+')
  {
    hide FindCrlf, Replies;
    if replies == [] {
      assert Lines(replies) + rest == rest;
      NoCr(rest);
      NoReply(rest);
    } else {
      var more := Lines(replies[1..]) + rest;
      assert Lines(replies) + rest == replies[0] + "\r\n" + more;
      OneReply(replies[0], more);
      RepliesMean(replies[1..], rest);
    }
  }

  lemma OneReply(line: string, more: string)
    requires '\r' !in line
    ensures Replies(line + "\r\n" + more) == [line != [] && line[0] == '+'] + Replies(more)
  {
    hide FindCrlf;
    var s := line + "\r\n" + more;
    FindCrlfAfter(line, more);
    assert s[|line| + 2..] == more && s[0] == if line == [] then '\r' else line[0];
  }

  lemma {:induction false} NoCr(s: string)
    requires '\r' !in s
    ensures FindCrlf(s).None?
  {
    if |s| >= 2 {
      assert s[0] in s;
      NoCr(s[1..]);
    }
  }

  lemma ReplyNext(head: string, rest: string, all: seq<bool>, seen: nat)
    requires FindCrlf(head).Some? && seen <= |all| && all[seen..] == Replies(head + rest)
    ensures seen < |all| && (all[seen] <==> head[0] == '+')
    ensures all[seen + 1..] == Replies(head[FindCrlf(head).value + 2..] + rest)
  {
    hide FindCrlf;
    FindCrlfStable(head, rest);
    var i := FindCrlf(head).value;
    assert (head + rest)[i + 2..] == head[i + 2..] + rest;
    assert all[seen] == all[seen..][0] && all[seen + 1..] == all[seen..][1..];
  }

  // Reads replies however they are fragmented: the peer is alive when all of them arrive, and the leading positive
  // ones are acknowledged.
  method Deliver(chunks: seq<string>, expected: nat) returns (alive: bool, acked: nat)
    ensures alive <==> |Replies(Flatten(chunks))| >= expected
    ensures alive ==> acked == Leading(Replies(Flatten(chunks))[..expected])
  {
    hide FindCrlf, Leading, Replies;
    ghost var all := Replies(Flatten(chunks));
    ghost var unread := Flatten(chunks);
    var buf := "";
    var pos: nat, c: nat, seen: nat, failed := 0, 0, 0, false;
    acked := 0;
    assert chunks[0..] == chunks && buf[pos..] + unread == unread && all[0..] == all && all[..0] == [];
    LeadingNone();
    while seen < expected
      invariant pos <= |buf| && c <= |chunks| && seen <= |all| && seen <= expected
      invariant unread == Flatten(chunks[c..])
      invariant all[seen..] == Replies(buf[pos..] + unread)
      invariant acked == Leading(all[..seen]) && (failed <==> acked < seen)
      decreases |chunks| - c, expected - seen
    {
      var crlf := FindCrlf(buf[pos..]);
      if crlf.None? {
        if c == |chunks| {
          assert buf[pos..] + unread == buf[pos..];
          NoReply(buf[pos..]);
          return false, acked;
        }
        FlattenStep(chunks, c);
        unread := Flatten(chunks[c + 1..]);
        assert (buf + chunks[c])[pos..] + unread == buf[pos..] + (chunks[c] + unread);
        buf, c := buf + chunks[c], c + 1;
        continue;
      }
      ReplyNext(buf[pos..], unread, all, seen);
      LeadingNext(all, seen);
      DropDrop(buf, pos, crlf.value + 2);
      failed := failed || buf[pos] != '+';
      if !failed { acked := acked + 1; }
      seen := seen + 1;
      pos := pos + crlf.value + 2;
    }
    alive := true;
  }

  lemma NoReply(s: string)
    requires FindCrlf(s).None?
    ensures Replies(s) == []
  {
  }

  lemma LeadingNone()
    ensures Leading([]) == 0
  {
  }

  lemma {:induction false} LeadingNext(r: seq<bool>, k: nat)
    requires k < |r|
    ensures Leading(r[..k + 1]) == if Leading(r[..k]) == k && r[k] then k + 1 else Leading(r[..k])
  {
    if k > 0 {
      assert r[..k + 1][1..] == r[1..][..k] && r[..k][1..] == r[1..][..k - 1];
      if r[0] { LeadingNext(r[1..], k - 1); }
    } else {
      assert r[..1][1..] == [];
    }
  }

  // -------- building a batch --------

  lemma ScanStep(buf: string, at: nat)
    ensures match ParseArray(buf)
            case Complete(end, tokens) => Scan(buf, at) == [Item(tokens, at + end)] + Scan(buf[end..], at + end)
            case _ => Scan(buf, at) == []
  {
  }

  lemma PlanNext(items: seq<Item>, k: nat, id: nat, room: string)
    requires k < |items|
    ensures Plan(items[..k + 1], id, room) == AddItem(Plan(items[..k], id, room), items[k], id)
  {
    assert items[..k + 1][..k] == items[..k];
  }

  // Queues the writes of one array, pair by pair.
  method AddArray(b: Batch, item: Item, id: nat) returns (more: Batch)
    ensures more == AddItem(b, item, id)
  {
    hide Queue, ParseU64, Upper;
    more := b;
    var t := item.tokens;
    ghost var writes := Writes(t, id);
    if Own(t, id) {
      assert writes[..0] == [];
      if IsDelete(t) {
        more := Queue(more, t[0], ["CRDTDEL", t[2], t[|t| - 2], t[|t| - 1]]);
        assert writes[..1] == writes && writes[..1][..0] == [];
        assert AddWrites(b, t[0], writes[..0]) == b;
      } else {
        var i := 2;
        while i + 1 < PairsEnd(t)
          invariant 2 <= i && i % 2 == 0 && (i - 2) / 2 <= |writes|
          invariant more == AddWrites(b, t[0], writes[..(i - 2) / 2])
        {
          assert writes[..(i - 2) / 2 + 1][..(i - 2) / 2] == writes[..(i - 2) / 2];
          more := Queue(more, t[0], MergeOf(t, i));
          i := i + 2;
        }
        assert writes[..(i - 2) / 2] == writes;
      }
    }
    more := more.(marks := b.marks + [Mark(|more.sends|, item.end)]);
  }

  method Build(buf: string, at: nat, id: nat, room: string) returns (b: Batch, misaligned: bool)
    ensures b == Plan(Scan(buf, at), id, room)
    ensures misaligned <==> ParseArray(buf).Malformed?
  {
    hide ParseArray, Scan, AddItem;
    ghost var items, k: nat := Scan(buf, at), 0;
    b := Batch([], [], room);
    var pos: nat := 0;
    var st := Parse(buf, 0);
    assert buf[0..] == buf && items[0..] == items && items[..0] == [];
    while st.Complete?
      invariant pos <= |buf| && k <= |items| && (pos == 0 <==> k == 0)
      invariant st == ParseArray(buf[pos..]).Shift(pos)
      invariant items[k..] == Scan(buf[pos..], at + pos)
      invariant b == Plan(items[..k], id, room)
      invariant k > 0 ==> ParseArray(buf).Complete?
      decreases |buf| - pos
    {
      ScanStep(buf[pos..], at + pos);
      DropDrop(buf, pos, st.end - pos);
      assert items[k] == items[k..][0] && items[k + 1..] == items[k..][1..];
      PlanNext(items, k, id, room);
      b := AddArray(b, Item(st.args, at + st.end), id);
      pos, k := st.end, k + 1;
      st := Parse(buf, pos);
    }
    ScanStep(buf[pos..], at + pos);
    assert items[..k] == items;
    misaligned := pos == 0 && st.Malformed?;
  }

  // Moves the offset past the records whose replies were all positive, and stops at the first that is not.
  method Advance(marks: seq<Mark>, acked: nat, offset: nat) returns (reached: nat, k: nat)
    ensures k <= |marks| && reached == (if k == 0 then offset else marks[k - 1].offset)
    ensures forall i :: 0 <= i < k ==> marks[i].replies <= acked
    ensures k < |marks| ==> marks[k].replies > acked
  {
    reached, k := offset, 0;
    while k < |marks| && marks[k].replies <= acked
      invariant k <= |marks| && reached == (if k == 0 then offset else marks[k - 1].offset)
      invariant forall i :: 0 <= i < k ==> marks[i].replies <= acked
    {
      reached, k := marks[k].offset, k + 1;
    }
  }

  // -------- one peer --------

  // What the network and the disk answer during one round.
  datatype ShipEnv = ShipEnv(connects: bool, read: bool, reread: bool, sent: bool, replies: seq<string>)

  // The writes the peer answered positively, each with the room it ran in.
  ghost function Ran(start: string, sends: seq<Send>, replies: seq<bool>): set<(string, seq<string>)>
    requires |sends| <= |replies|
  {
    set j | 0 <= j < |sends| && replies[j] && sends[j].Write? ::
      (RoomReally(start, sends[..j], replies), sends[j].args)
  }

  // The peer acknowledged every write of an array, in the array's own room.
  ghost predicate ArrayRan(t: seq<string>, id: nat, ran: set<(string, seq<string>)>) {
    forall w :: w in Writes(t, id) ==> (t[0], w) in ran
  }

  ghost predicate AllRan(logged: seq<seq<string>>, upto: nat, id: nat, ran: set<(string, seq<string>)>) {
    upto <= |logged| && forall i :: 0 <= i < upto ==> ArrayRan(logged[i], id, ran)
  }

  // A confirmed record ran at the peer, in its own room.
  lemma Confirmed(b: Batch, items: seq<Item>, id: nat, start: string, replies: seq<bool>, i: nat)
    requires Tracks(b, start) && Marked(b, items, id) && |b.sends| <= |replies|
    requires i < |items| && b.marks[i].replies <= Leading(replies)
    ensures ArrayRan(items[i].tokens, id, Ran(start, b.sends, replies))
  {
    hide Writes, Directed, RoomReally, RoomAfter, Leading;
    forall w | w in Writes(items[i].tokens, id)
      ensures (items[i].tokens[0], w) in Ran(start, b.sends, replies)
    {
      var j :| 0 <= j < b.marks[i].replies && b.sends[j] == Write(items[i].tokens[0], w);
      AcknowledgedAtHome(start, b.sends, replies, j);
    }
  }

  // The closing line that announces a frontier: the peer reads the node and the frontier back from it.
  ghost predicate Announces(line: Send, id: nat, frontier: nat) {
    && line.Closing? && |line.args| == 3 && line.args[0] == "REPLFRONTIER"
    && ParseU64(line.args[1]) == Some(id) && ParseU64(line.args[2]) == Some(frontier)
  }

  // What is sent: the batch, closed by the frontier if it reached the end of the log, or a lone PING in place of nothing.
  ghost predicate Closed(lines: seq<Send>, sends: seq<Send>, reached: bool, id: nat, frontier: nat) {
    if reached then |lines| == |sends| + 1 && lines[..|sends|] == sends && Announces(lines[|sends|], id, frontier)
    else lines == if sends == [] then [Closing(["PING"])] else sends
  }

  class Peer {
    const id: nat
    var connected: bool
    var inode: nat
    var offset: nat
    var room: string // selected on the connection; empty when unknown

    // the peer's side: its selected room, and every write it acknowledged with the room it ran in
    ghost var remote: string
    ghost var ran: set<(string, seq<string>)>

    // the arrays of the log being shipped, and how many lie before the offset
    ghost var logged: seq<seq<string>>
    ghost var upto: nat

    // The offset is a record boundary, and every local record before it was acknowledged in its own room.
    ghost predicate Stands()
      reads this
    {
      && upto <= |logged| && AllInLimit(logged) && offset == Boundary(logged, upto)
      && AllRan(logged, upto, id, ran)
    }

    ghost predicate RoomKnown()
      reads this
    {
      connected ==> room == "" || room == remote
    }

    constructor (id: nat)
      ensures Stands() && RoomKnown() && offset == 0 && this.id == id
    {
      this.id, connected, inode, offset, room := id, false, 0, 0, "";
      remote, ran, logged, upto := "", {}, [], 0;
      new;
      assert logged[..0] == [];
    }

    // Reads a batch at the offset; a single record larger than a batch is read whole.
    method ReadBatch(file: string, env: ShipEnv) returns (b: Batch, ok: bool, misaligned: bool, ghost len: nat)
      requires offset <= |file|
      ensures offset + len <= |file|
      ensures ok <== env.read && env.reread
      ensures b == if ok then Plan(Scan(file[offset..offset + len], offset), id, room) else Batch([], [], room)
      ensures misaligned ==> ok && ParseArray(file[offset..offset + len]).Malformed?
      ensures ok && b.marks == [] && !misaligned ==> len == |file| - offset
      // at most 4 MiB, unless they hold no whole record
      ensures len <= 0x40_0000 || (Scan(file[offset..offset + 0x40_0000], offset) == [] && len == |file| - offset)
      ensures len < 0x40_0000 ==> len == |file| - offset
    {
      hide Scan, ParseArray, Plan;
      var n := Min(|file| - offset, MAX_BATCH);
      len := n;
      if !env.read { return Batch([], [], room), false, false, len; }
      b, misaligned := Build(file[offset..offset + n], offset, id, room);
      ok := true;
      MarksOfPlan(Scan(file[offset..offset + n], offset), id, room);
      if b.marks == [] && !misaligned && n < |file| - offset {
        if !env.reread { return Batch([], [], room), false, false, len; }
        len := |file| - offset;
        b, misaligned := Build(file[offset..offset + (|file| - offset)], offset, id, room);
      }
    }

    // Another file, or a shorter one, is shipped from its start: merges are idempotent.
    method Locate(file: string, ino: nat, ghost arrays: seq<seq<string>>)
      requires Stands() && AllInLimit(arrays) && (ino == inode ==> logged <= arrays)
      modifies this`inode, this`offset, this`upto, this`logged
      ensures Stands() && inode == ino && logged == arrays && offset <= |file|
      ensures upto == if ino == old(inode) && old(offset) <= |file| then old(upto) else 0
    {
      hide Bytes, Writes, InLimit;
      if ino != inode || offset > |file| {
        inode, offset, upto := ino, 0, 0;
        AtStart(arrays, id, ran);
      } else {
        assert arrays[..upto] == logged[..upto];
      }
      logged := arrays;
    }

    // Records what the replies mean: the room on the connection, and the offset.
    method Settle(b: Batch, ghost items: seq<Item>, ghost replies: seq<bool>, acked: nat)
      requires Stands() && connected && (room == "" || room == remote)
      requires NamedRooms(items, id) && b == Plan(items, id, room)
      requires ItemsAt(items, logged, upto)
      requires |b.sends| <= |replies| && acked == Leading(replies)
      modifies this`room, this`offset, this`upto, this`remote, this`ran
      ensures Stands() && RoomKnown() && old(ran) <= ran && old(upto) <= upto
      ensures acked >= |b.sends| ==>
                upto == old(upto) + |items| && offset == if b.marks == [] then old(offset) else b.marks[|b.marks| - 1].offset
      ensures acked < |b.sends| ==> upto < old(upto) + |items|
    {
      hide AllRan, Boundary, RoomReally, RoomAfter, Directed, Leading, AllInLimit, Plan, Ran;
      PlanTracks(items, id, room, remote);
      ghost var start := remote;
      var reached, k := Advance(b.marks, acked, offset);
      MoreRan(logged, upto, id, ran, b, items, start, replies, k);
      LastMark(items, id, room);
      ran := ran + Ran(start, b.sends, replies);
      if |b.sends| > 0 {
        if acked == |b.sends| { RoomsAgree(start, b.sends, replies); }
        remote := RoomReally(start, b.sends, replies);
        room := if acked == |b.sends| then b.room else "";
      }
      offset, upto := reached, upto + k;
    }

    // Sends a batch with its closing line and counts the leading positive replies; a broken connection counts none.
    method Exchange(b: Batch, reached: bool, frontier: nat, env: ShipEnv)
        returns (alive: bool, acked: nat, lines: seq<Send>, ghost replies: seq<bool>)
      requires id <= U64_MAX && frontier <= U64_MAX
      ensures Closed(lines, b.sends, reached, id, frontier)
      ensures |lines| == |b.sends| + (if reached || b.sends == [] then 1 else 0)
      ensures |b.sends| <= |replies| && acked == Leading(replies)
      ensures alive ==> env.sent && |replies| == |lines|
      ensures alive && AllTrue(Replies(Flatten(env.replies))) ==> acked == |lines|
    {
      hide Leading, Replies, ToDec, ParseU64;
      U64RoundTrip(id);
      U64RoundTrip(frontier);
      var closing := if reached then [Closing(["REPLFRONTIER", ToDec(id), ToDec(frontier)])]
                     else if b.sends == [] then [Closing(["PING"])] else [];
      lines := b.sends + closing;
      if env.sent {
        alive, acked := Deliver(env.replies, |lines|);
        if alive {
          replies := Replies(Flatten(env.replies))[..|lines|];
          if AllTrue(Replies(Flatten(env.replies))) { AllLeading(replies); }
          return;
        }
      }
      replies := seq(|b.sends|, _ => false);
      NoneLeading(replies);
      alive, acked := false, 0;
    }

    // One round. The file holds the arrays of the log, the last one perhaps cut short. `from` is where the batch starts,
    // `covered` where it ends, in arrays; `closed` says that it closes with this node's frontier.
    method Ship(file: string, ino: nat, ghost arrays: seq<seq<string>>, frontier: nat, env: ShipEnv)
        returns (alive: bool, closed: bool, acked: nat, expected: nat, ghost from: nat, ghost covered: nat,
                 ghost lines: seq<Send>)
      requires Stands() && RoomKnown() && id <= U64_MAX && frontier <= U64_MAX
      requires AllInLimit(arrays) && file <= Bytes(arrays)
      requires ino == inode ==> logged <= arrays
      requires NamedArrays(arrays, id)
      modifies this
      ensures Stands() && RoomKnown() && logged == arrays && old(ran) <= ran
      ensures from == (if ino == old(inode) && old(offset) <= |file| then old(upto) else 0)
      ensures from <= upto <= covered <= |arrays|
      // it sends the writes of the arrays between, closed by this node's frontier or not
      ensures old(connected) || env.connects ==>
                exists items, room :: ItemsAt(items, arrays, from) && covered == from + |items| && NamedRooms(items, id) &&
                  Closed(lines, Plan(items, id, room).sends, closed, id, frontier)
      ensures !old(connected) && !env.connects ==> lines == []
      // the frontier is sent exactly with a batch that ends at the end of the file, whatever the replies will be;
      ensures closed ==> Boundary(arrays, covered) == |file|
      ensures (old(connected) || env.connects) && env.read && env.reread && Boundary(arrays, covered) == |file| ==> closed
      // the offset ends there too exactly when every write of the batch was acknowledged
      ensures closed ==> (offset == |file| <==> acked >= expected)
      // and whether or not it closes, the offset moves over the whole batch exactly then
      ensures old(connected) || env.connects ==> (upto == covered <==> acked >= expected)
      // and a round in which nothing fails sends, and moves past, a record, if one is complete
      ensures (old(connected) || env.connects) && env.read && env.reread &&
              from < |arrays| && Boundary(arrays, from + 1) <= |file|
              ==> covered > from
      ensures alive && env.read && env.reread && AllTrue(Replies(Flatten(env.replies))) &&
              from < |arrays| && Boundary(arrays, from + 1) <= |file|
              ==> upto > from
    {
      hide Scan, Plan, Boundary, Bytes, AllInLimit, AllRan, Leading, Replies, NamedArrays, NamedRooms, ItemsAt, ParseArray,
        AllTrue, Closed;
      Locate(file, ino, arrays);
      from := upto;
      if !connected {
        if !env.connects { return false, false, 0, 0, from, from, []; }
        connected, room, remote := true, "", "default";
      }
      ghost var items;
      alive, closed, acked, expected, covered, lines, items := Round(file, frontier, env);
    }

    // Reads a batch at the offset, sends it, and settles what the replies mean.
    method Round(file: string, frontier: nat, env: ShipEnv)
        returns (alive: bool, closed: bool, acked: nat, expected: nat, ghost covered: nat, ghost lines: seq<Send>,
                 ghost items: seq<Item>)
      requires Stands() && connected && RoomKnown() && offset <= |file| && id <= U64_MAX && frontier <= U64_MAX
      requires file <= Bytes(logged) && NamedArrays(logged, id)
      modifies this`connected, this`room, this`offset, this`upto, this`remote, this`ran
      ensures Stands() && RoomKnown() && old(ran) <= ran && old(upto) <= upto <= covered <= |logged|
      ensures ItemsAt(items, logged, old(upto)) && covered == old(upto) + |items| && NamedRooms(items, id)
      ensures Closed(lines, Plan(items, id, old(room)).sends, closed, id, frontier)
      ensures closed ==> Boundary(logged, covered) == |file|
      ensures env.read && env.reread && Boundary(logged, covered) == |file| ==> closed
      ensures closed ==> (offset == |file| <==> acked >= expected)
      ensures upto == covered <==> acked >= expected
      ensures env.read && env.reread && old(upto) < |logged| && Boundary(logged, old(upto) + 1) <= |file|
              ==> covered > old(upto)
      ensures alive && env.read && env.reread && AllTrue(Replies(Flatten(env.replies))) &&
              old(upto) < |logged| && Boundary(logged, old(upto) + 1) <= |file|
              ==> upto > old(upto)
    {
      hide Scan, Plan, Boundary, Bytes, AllInLimit, AllRan, Leading, Replies, NamedArrays, NamedRooms, ItemsAt, ParseArray,
        AllTrue, Closed;
      var b, ok, misaligned, len := ReadBatch(file, env);
      items := if ok then Scan(file[offset..offset + len], offset) else [];
      ghost var from := upto;
      covered := upto + |items|;
      if ok { ItemsOfLog(logged, id, upto, file, len); } else { NothingPlanned(logged, upto, id, room); }
      BatchEnds(items, logged, upto, id, room);
      if misaligned && offset > 0 {
        ScanStep(file[offset..offset + len], offset);
        offset, upto := 0, 0;
        AtStart(logged, id, ran);
        NothingPlanned(logged, 0, id, room);
      }
      expected := |b.sends|;
      closed := ok && (if b.marks == [] then offset else b.marks[|b.marks| - 1].offset) == |file|;
      ghost var replies;
      var sent;
      alive, acked, sent, replies := Exchange(b, closed, frontier, env);
      lines := sent;
      Settle(b, items, replies, acked);
      connected := alive;
      if ok { SomeItem(logged, from, file, len, misaligned); }
      if closed && acked < expected { BoundaryGrows(logged, upto, covered); }
    }
  }

  // Where a planned batch ends.
  lemma BatchEnds(items: seq<Item>, lists: seq<seq<string>>, upto: nat, id: nat, room: string)
    requires ItemsAt(items, lists, upto)
    ensures upto + |items| <= |lists| && |Plan(items, id, room).marks| == |items|
    ensures items != [] ==> Plan(items, id, room).marks[|items| - 1].offset == Boundary(lists, upto + |items|)
  {
    hide Boundary, Writes, AddWrites;
    MarksOfPlan(items, id, room);
    if items != [] {
      var b := Plan(items[..|items| - 1], id, room);
      MarksOfPlan(items[..|items| - 1], id, room);
      assert Plan(items, id, room) == AddItem(b, items[|items| - 1], id);
      AddItemMark(b, items[|items| - 1], id);
    }
  }

  lemma AddItemMark(b: Batch, item: Item, id: nat)
    ensures var more := AddItem(b, item, id);
            more.marks == b.marks + [Mark(|more.sends|, item.end)]
  {
    hide Writes, AddWrites;
  }

  // The last record of a batch waits for all its replies.
  lemma LastMark(items: seq<Item>, id: nat, room: string)
    ensures var b := Plan(items, id, room);
            if items == [] then b.sends == [] else b.marks != [] && b.marks[|b.marks| - 1].replies == |b.sends|
  {
    hide Writes, AddWrites;
    if items != [] { AddItemMark(Plan(items[..|items| - 1], id, room), items[|items| - 1], id); }
  }

  lemma {:induction false} BoundaryGrows(lists: seq<seq<string>>, i: nat, j: nat)
    requires i < j <= |lists|
    ensures Boundary(lists, i) < Boundary(lists, j)
  {
    hide Bytes;
    BytesFrom(lists, j - 1);
    EncodeNotEmpty(lists[j - 1]);
    if i < j - 1 { BoundaryGrows(lists, i, j - 1); }
  }

  lemma EncodeNotEmpty(args: seq<string>)
    ensures |Encode(args)| > 0
  {
  }

  predicate AllTrue(replies: seq<bool>) {
    forall i :: 0 <= i < |replies| ==> replies[i]
  }

  lemma AllLeading(replies: seq<bool>)
    requires AllTrue(replies)
    ensures Leading(replies) == |replies|
  {
  }

  lemma {:induction false} MarksOfPlan(items: seq<Item>, id: nat, room: string)
    ensures |Plan(items, id, room).marks| == |items|
  {
    hide Writes, AddWrites;
    if items != [] {
      var b, item := Plan(items[..|items| - 1], id, room), items[|items| - 1];
      MarksOfPlan(items[..|items| - 1], id, room);
      AddItemMark(b, item, id);
    }
  }

  // A complete array after a boundary is found there, in a window that is the rest of the file if need be.
  lemma SomeItem(arrays: seq<seq<string>>, upto: nat, file: string, len: nat, misaligned: bool)
    requires AllInLimit(arrays) && file <= Bytes(arrays) && upto <= |arrays|
    requires Boundary(arrays, upto) + len <= |file|
    requires misaligned ==> ParseArray(file[Boundary(arrays, upto)..Boundary(arrays, upto) + len]).Malformed?
    ensures !misaligned
    ensures var at := Boundary(arrays, upto);
            upto < |arrays| && Boundary(arrays, upto + 1) <= |file| && Scan(file[at..at + len], at) == [] ==>
              len < |file| - at
  {
    hide Scan, Bytes, AllInLimit, ParseArray;
    var at := Boundary(arrays, upto);
    ScanFrom(arrays, upto, len);
    NeverMalformed(arrays, upto, len);
    assert file[at..at + len] == Bytes(arrays)[at..at + len];
  }

  lemma NeverMalformed(lists: seq<seq<string>>, i: nat, len: nat)
    requires AllInLimit(lists) && i <= |lists| && Boundary(lists, i) + len <= |Bytes(lists)|
    ensures !ParseArray(Bytes(lists)[Boundary(lists, i)..Boundary(lists, i) + len]).Malformed?
  {
    hide Encode, Bytes, ParseArray, InLimit;
    var at := Boundary(lists, i);
    BytesFrom(lists, i);
    if i == |lists| {
      assert lists[..i] == lists && Bytes(lists)[at..at + len] == [];
      EmptyNeedsMore();
    } else {
      var e := Encode(lists[i]);
      SliceHead(Bytes(lists), at, e, len);
      if len < |e| {
        StrictPrefixNeedsMore(lists[i], len);
      } else {
        RoundTrip(lists[i], Bytes(lists)[at + |e|..at + len]);
      }
    }
  }

  lemma ItemsOfLog(arrays: seq<seq<string>>, id: nat, upto: nat, file: string, len: nat)
    requires AllInLimit(arrays) && file <= Bytes(arrays) && upto <= |arrays| && NamedArrays(arrays, id)
    requires Boundary(arrays, upto) + len <= |file|
    ensures var at := Boundary(arrays, upto);
            var items := Scan(file[at..at + len], at);
            NamedRooms(items, id) && ItemsAt(items, arrays, upto)
  {
    hide Scan, Bytes, AllInLimit, Own;
    var at := Boundary(arrays, upto);
    ScanFrom(arrays, upto, len);
    assert file[at..at + len] == Bytes(arrays)[at..at + len];
  }

  lemma AtStart(arrays: seq<seq<string>>, id: nat, ran: set<(string, seq<string>)>)
    ensures Boundary(arrays, 0) == 0 && AllRan(arrays, 0, id, ran)
  {
    EmptyStart(arrays);
  }

  lemma NothingPlanned(arrays: seq<seq<string>>, upto: nat, id: nat, room: string)
    requires upto <= |arrays|
    ensures Plan([], id, room) == Batch([], [], room) && NamedRooms([], id) && ItemsAt([], arrays, upto)
  {
  }

  lemma NoneLeading(replies: seq<bool>)
    requires forall i :: 0 <= i < |replies| ==> !replies[i]
    ensures Leading(replies) == 0
  {
  }

  lemma MoreRan(logged: seq<seq<string>>, upto: nat, id: nat, ran: set<(string, seq<string>)>,
                b: Batch, items: seq<Item>, start: string, replies: seq<bool>, k: nat)
    requires AllRan(logged, upto, id, ran) && ItemsAt(items, logged, upto) && k <= |items|
    requires Tracks(b, start) && Marked(b, items, id) && |b.sends| <= |replies|
    requires forall i :: 0 <= i < k ==> b.marks[i].replies <= Leading(replies)
    ensures AllRan(logged, upto + k, id, ran + Ran(start, b.sends, replies))
  {
    hide Writes, Boundary, Leading, Tracks, Ran;
    forall i | 0 <= i < upto + k
      ensures ArrayRan(logged[i], id, ran + Ran(start, b.sends, replies))
    {
      if i >= upto {
        Confirmed(b, items, id, start, replies, i - upto);
        assert items[i - upto].tokens == logged[i];
      }
    }
  }
}
