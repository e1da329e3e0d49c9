/** Replaying a log into a node, and dumping a node as a log. */
module Restart {
  import opened Hlc
  import opened Node
  import opened Persistence
  import opened Wrappers

  // -------- replaying into a node --------

  function ReplayOp(n: Node, op: Op): Node {
    match op
    case Put(key, value, expireAt, v) =>
      n.(records := n.records[key := Record(value, expireAt, v)], clock := Observe(n.clock, v.ts))
    case Del(key, v) =>
      SetTomb(n.(records := n.records - {key}), key, v).(clock := Observe(n.clock, v.ts))
  }

  function ReplayEntry(n: Node, entry: Entry): Node {
    if entry == [] then n else ReplayOp(ReplayEntry(n, entry[..|entry| - 1]), entry[|entry| - 1])
  }

  function Replay(n: Node, log: seq<Entry>): Node {
    if log == [] then n else ReplayEntry(Replay(n, log[..|log| - 1]), log[|log| - 1])
  }

  lemma {:induction false} ReplayEntryMeaning(n: Node, entry: Entry)
    ensures ReplayEntry(n, entry).records == ApplyEntry(n.records, entry)
    ensures n.clock <= ReplayEntry(n, entry).clock
    ensures forall op :: op in entry ==> op.version.ts <= ReplayEntry(n, entry).clock
  {
    if entry != [] {
      ReplayEntryMeaning(n, entry[..|entry| - 1]);
      assert entry == entry[..|entry| - 1] + [entry[|entry| - 1]];
    }
  }

  // Replay rebuilds the records the log determines, with a clock above everything it contains.
  lemma {:induction false} ReplayMeaning(n: Node, log: seq<Entry>)
    ensures Replay(n, log).records == ApplyLog(n.records, log)
    ensures n.clock <= Replay(n, log).clock
    ensures forall e, op :: 0 <= e < |log| && op in log[e] ==> op.version.ts <= Replay(n, log).clock
  {
    if log != [] {
      var init := log[..|log| - 1];
      ReplayMeaning(n, init);
      ReplayEntryMeaning(Replay(n, init), log[|log| - 1]);
      forall e, op | 0 <= e < |log| && op in log[e]
        ensures op.version.ts <= Replay(n, log).clock
      {
        if e < |init| { assert op in init[e]; }
      }
    }
  }

  // -------- dumping the state as a log --------

  function DumpRecords(records: Records, order: seq<Key>, now: int): seq<Entry> {
    if order == [] then []
    else
      var k := order[|order| - 1];
      DumpRecords(records, order[..|order| - 1], now) +
      (if k in records && !records[k].Expired(now)
       then [[Put(k, records[k].value, records[k].expireAt, records[k].version)]] else [])
  }

  function DumpTombs(tombs: map<Key, Version>, order: seq<Key>): seq<Entry> {
    if order == [] then []
    else
      var k := order[|order| - 1];
      DumpTombs(tombs, order[..|order| - 1]) + (if k in tombs then [[Del(k, tombs[k])]] else [])
  }

  // Unexpired records first, tombstones after, each in any order the hash maps happen to give.
  function Dump(records: Records, tombs: map<Key, Version>, order: seq<Key>, now: int): seq<Entry> {
    DumpRecords(records, order, now) + DumpTombs(tombs, order)
  }

  ghost predicate Lists(order: seq<Key>, records: Records, tombs: map<Key, Version>) {
    (forall k :: k in records ==> k in order) && (forall k :: k in tombs ==> k in order)
  }

  lemma ApplyOne(records: Records, log: seq<Entry>, op: Op)
    ensures ApplyLog(records, log + [[op]]) == ApplyOp(ApplyLog(records, log), op)
  {
    ApplyLogConcat(records, log, [[op]]);
    ApplyLogOne(ApplyLog(records, log), [op]);
    ApplyEntryOne(ApplyLog(records, log), op);
  }

  lemma InOrder(order: seq<Key>, k: Key)
    requires order != []
    ensures k in order <==> k in order[..|order| - 1] || k == order[|order| - 1]
  {
    assert order == order[..|order| - 1] + [order[|order| - 1]];
  }

  lemma {:induction false} DumpRecordsMeaning(base: Records, records: Records, order: seq<Key>, now: int, k: Key)
    requires base == map[]
    ensures var d := ApplyLog(base, DumpRecords(records, order, now));
            (k in d <==> k in order && k in records && !records[k].Expired(now)) &&
            (k in d ==> d[k] == records[k])
  {
    if order != [] {
      var init, last := order[..|order| - 1], order[|order| - 1];
      InOrder(order, k);
      DumpRecordsMeaning(base, records, init, now, k);
      var before := DumpRecords(records, init, now);
      if last in records && !records[last].Expired(now) {
        ApplyOne(base, before, Put(last, records[last].value, records[last].expireAt, records[last].version));
      } else {
        assert before + [] == before;
      }
    }
  }

  lemma {:induction false} DumpTombsMeaning(base: Records, tombs: map<Key, Version>, order: seq<Key>, k: Key)
    ensures var d := ApplyLog(base, DumpTombs(tombs, order));
            (k in d <==> k in base && !(k in order && k in tombs)) &&
            (k in d ==> d[k] == base[k])
  {
    if order != [] {
      var init, last := order[..|order| - 1], order[|order| - 1];
      InOrder(order, k);
      DumpTombsMeaning(base, tombs, init, k);
      var before := DumpTombs(tombs, init);
      if last in tombs {
        ApplyOne(base, before, Del(last, tombs[last]));
      } else {
        assert before + [] == before;
      }
    }
  }

  lemma DumpMeaning(records: Records, tombs: map<Key, Version>, order: seq<Key>, now: int, k: Key)
    requires Lists(order, records, tombs)
    ensures var d := ApplyLog(map[], Dump(records, tombs, order, now));
            (k in d <==> k in records && !records[k].Expired(now) && k !in tombs) &&
            (k in d ==> d[k] == records[k])
  {
    var dumped := DumpRecords(records, order, now);
    ApplyLogConcat(map[], dumped, DumpTombs(tombs, order));
    DumpRecordsMeaning(map[], records, order, now, k);
    DumpTombsMeaning(ApplyLog(map[], dumped), tombs, order, k);
  }

  // A dump shows what the store shows exactly when no visible key also has a tombstone.
  lemma DumpFaithful(records: Records, tombs: map<Key, Version>, order: seq<Key>, now: int)
    requires Lists(order, records, tombs)
    ensures SameView(ApplyLog(map[], Dump(records, tombs, order, now)), records, now)
            <==> forall k :: k in records && !records[k].Expired(now) ==> k !in tombs
  {
    var d := ApplyLog(map[], Dump(records, tombs, order, now));
    forall k ensures (k in d <==> k in records && !records[k].Expired(now) && k !in tombs) &&
                     (k in d ==> d[k] == records[k])
    {
      DumpMeaning(records, tombs, order, now, k);
    }
    if SameView(d, records, now) {
      forall k | k in records && !records[k].Expired(now)
        ensures k !in tombs
      {
        SameViewKey(d, records, now, k);
      }
    }
  }

  // -------- which logs leave a key with both a record and a tombstone --------

  function LastIn(entry: Entry, k: Key): Option<Op> {
    if entry == [] then None
    else if entry[|entry| - 1].key == k then Some(entry[|entry| - 1]) else LastIn(entry[..|entry| - 1], k)
  }

  // The last mutation of a key in a log.
  function LastOp(log: seq<Entry>, k: Key): Option<Op> {
    if log == [] then None
    else if LastIn(log[|log| - 1], k).Some? then LastIn(log[|log| - 1], k) else LastOp(log[..|log| - 1], k)
  }

  lemma {:induction false} LastInDecides(base: Records, entry: Entry, k: Key)
    ensures k in ApplyEntry(base, entry) <==>
            match LastIn(entry, k) { case None => k in base case Some(op) => op.Put? }
  {
    if entry != [] { LastInDecides(base, entry[..|entry| - 1], k); }
  }

  lemma {:induction false} LastDecides(base: Records, log: seq<Entry>, k: Key)
    ensures k in ApplyLog(base, log) <==>
            match LastOp(log, k) { case None => k in base case Some(op) => op.Put? }
  {
    if log != [] {
      LastDecides(base, log[..|log| - 1], k);
      LastInDecides(ApplyLog(base, log[..|log| - 1]), log[|log| - 1], k);
    }
  }

  ghost predicate DelIn(entry: Entry, k: Key, above: nat) {
    exists op :: op in entry && op.Del? && op.key == k && op.version.ts > above
  }

  // A delete of the key above the watermark.
  ghost predicate Deletes(log: seq<Entry>, k: Key, above: nat) {
    exists e :: 0 <= e < |log| && DelIn(log[e], k, above)
  }

  lemma {:induction false} ReplayEntryTombs(n: Node, entry: Entry, k: Key)
    ensures var m := ReplayEntry(n, entry);
            && m.peers == n.peers && m.watermark == n.watermark
            && (k in m.tombs <==> k in n.tombs || (n.peers > 0 && DelIn(entry, k, n.watermark)))
  {
    if entry != [] {
      var init, last := entry[..|entry| - 1], entry[|entry| - 1];
      ReplayEntryTombs(n, init, k);
      assert entry == init + [last];
      assert DelIn(entry, k, n.watermark) <==>
             DelIn(init, k, n.watermark) || (last.Del? && last.key == k && last.version.ts > n.watermark);
    }
  }

  lemma {:induction false} ReplayTombs(n: Node, log: seq<Entry>, k: Key)
    ensures var m := Replay(n, log);
            && m.peers == n.peers && m.watermark == n.watermark
            && (k in m.tombs <==> k in n.tombs || (n.peers > 0 && Deletes(log, k, n.watermark)))
  {
    if log != [] {
      var init, last := log[..|log| - 1], log[|log| - 1];
      ReplayTombs(n, init, k);
      ReplayEntryTombs(Replay(n, init), last, k);
      DeletesMore(log, k, n.watermark);
    }
  }

  lemma DeletesMore(log: seq<Entry>, k: Key, above: nat)
    requires log != []
    ensures Deletes(log, k, above) <==> Deletes(log[..|log| - 1], k, above) || DelIn(log[|log| - 1], k, above)
  {
    if Deletes(log[..|log| - 1], k, above) {
      var e :| 0 <= e < |log| - 1 && DelIn(log[..|log| - 1][e], k, above);
      assert DelIn(log[e], k, above);
    }
    if Deletes(log, k, above) && !DelIn(log[|log| - 1], k, above) {
      var e :| 0 <= e < |log| && DelIn(log[e], k, above);
      assert DelIn(log[..|log| - 1][e], k, above);
    }
  }

  // Replay leaves a key with both exactly when peers are configured, the log's last mutation of the key is a write, and
  // some mutation before it is a delete; a dump of that state drops the key.
  lemma ReplayLeavesBothIff(n: Node, log: seq<Entry>, k: Key)
    requires n.records == map[] && n.tombs == map[]
    ensures k in Replay(n, log).records && k in Replay(n, log).tombs
            <==> n.peers > 0 && LastOp(log, k).Some? && LastOp(log, k).value.Put? && Deletes(log, k, n.watermark)
  {
    ReplayMeaning(n, log);
    LastDecides(n.records, log, k);
    ReplayTombs(n, log, k);
  }

  // -------- what a restart finds --------

  lemma {:induction false} LastInRecord(base: Records, entry: Entry, k: Key)
    ensures match LastIn(entry, k)
            case Some(Put(_, value, expireAt, v)) => Bound(ApplyEntry(base, entry), k, Record(value, expireAt, v))
            case Some(Del(_, _)) => k !in ApplyEntry(base, entry)
            case None => AgreeAt(base, ApplyEntry(base, entry), k)
  {
    if entry != [] { LastInRecord(base, entry[..|entry| - 1], k); }
  }

  ghost predicate Bound(records: Records, k: Key, r: Record) {
    k in records && records[k] == r
  }

  // A key is as the last mutation in the log says, with its value, deadline and version, or as it was before.
  ghost predicate Restored(before: Records, log: seq<Entry>, after: Records, k: Key) {
    match LastOp(log, k)
    case Some(Put(_, value, expireAt, v)) => Bound(after, k, Record(value, expireAt, v))
    case Some(Del(_, _)) => k !in after
    case None => AgreeAt(before, after, k)
  }

  lemma {:induction false} ReplayedRecord(n: Node, log: seq<Entry>, k: Key)
    ensures Restored(n.records, log, Replay(n, log).records, k)
  {
    if log != [] {
      var init, last := log[..|log| - 1], log[|log| - 1];
      ReplayedRecord(n, init, k);
      ReplayEntryMeaning(Replay(n, init), last);
      LastInRecord(Replay(n, init).records, last, k);
    }
  }

  ghost predicate HasDel(log: seq<Entry>, k: Key, v: Version) {
    exists e :: 0 <= e < |log| && Del(k, v) in log[e]
  }

  // A tombstone as the deletes of an entry, on top of an older one, leave it: the newest of them all.
  ghost predicate NewestTomb(before: map<Key, Version>, dels: iset<Version>, after: map<Key, Version>, k: Key) {
    && (k in after ==> after[k] in dels || (k in before && after[k] == before[k]))
    && (k in before ==> k in after && before[k].AtMost(after[k]))
    && (forall v :: v in dels ==> k in after && v.AtMost(after[k]))
  }

  ghost function DelsIn(entry: Entry, k: Key, above: nat): iset<Version> {
    iset v | Del(k, v) in entry && v.ts > above
  }

  ghost function Dels(log: seq<Entry>, k: Key, above: nat): iset<Version> {
    iset v | HasDel(log, k, v) && v.ts > above
  }

  lemma NewestMore(a: map<Key, Version>, d1: iset<Version>, b: map<Key, Version>, d2: iset<Version>, c: map<Key, Version>,
                   k: Key)
    requires NewestTomb(a, d1, b, k) && NewestTomb(b, d2, c, k)
    ensures NewestTomb(a, d1 + d2, c, k)
  {
  }

  lemma {:induction false} ReplayEntryNewest(n: Node, entry: Entry, k: Key)
    requires n.peers > 0
    ensures NewestTomb(n.tombs, DelsIn(entry, k, n.watermark), ReplayEntry(n, entry).tombs, k)
  {
    if entry != [] {
      var init, last := entry[..|entry| - 1], entry[|entry| - 1];
      ReplayEntryNewest(n, init, k);
      ReplayEntryTombs(n, init, k);
      assert entry == init + [last];
      var m := ReplayEntry(n, init);
      var one := iset v | last == Del(k, v) && v.ts > n.watermark;
      assert DelsIn(entry, k, n.watermark) == DelsIn(init, k, n.watermark) + one;
      NewestMore(n.tombs, DelsIn(init, k, n.watermark), m.tombs, one, ReplayOp(m, last).tombs, k);
    }
  }

  lemma {:induction false} ReplayNewest(n: Node, log: seq<Entry>, k: Key)
    requires n.peers > 0
    ensures NewestTomb(n.tombs, Dels(log, k, n.watermark), Replay(n, log).tombs, k)
  {
    if log != [] {
      var init, last := log[..|log| - 1], log[|log| - 1];
      ReplayNewest(n, init, k);
      ReplayTombs(n, init, k);
      ReplayEntryNewest(Replay(n, init), last, k);
      DelsMore(log, k, n.watermark);
      NewestMore(n.tombs, Dels(init, k, n.watermark), Replay(n, init).tombs, DelsIn(last, k, n.watermark),
                 Replay(n, log).tombs, k);
    }
  }

  lemma DelsMore(log: seq<Entry>, k: Key, above: nat)
    requires log != []
    ensures Dels(log, k, above) == Dels(log[..|log| - 1], k, above) + DelsIn(log[|log| - 1], k, above)
  {
    var init, last := log[..|log| - 1], log[|log| - 1];
    forall v
      ensures HasDel(log, k, v) <==> HasDel(init, k, v) || Del(k, v) in last
    {
      if HasDel(init, k, v) {
        var e :| 0 <= e < |init| && Del(k, v) in init[e];
        assert Del(k, v) in log[e];
      }
      if HasDel(log, k, v) && Del(k, v) !in last {
        var e :| 0 <= e < |log| && Del(k, v) in log[e];
        assert Del(k, v) in init[e];
      }
    }
  }

  // A key's tombstone is the newest of the log's deletes of it above the watermark: at or above each of them, and one of
  // them.
  ghost predicate NewestDelete(log: seq<Entry>, watermark: nat, tombs: map<Key, Version>, k: Key) {
    && (k in tombs ==> HasDel(log, k, tombs[k]) && tombs[k].ts > watermark)
    && (forall v :: HasDel(log, k, v) && v.ts > watermark ==> k in tombs && v.AtMost(tombs[k]))
  }

  lemma ReplayedTombstone(n: Node, log: seq<Entry>, k: Key)
    requires n.tombs == map[] && n.peers > 0
    ensures NewestDelete(log, n.watermark, Replay(n, log).tombs, k)
  {
    ReplayNewest(n, log, k);
    forall v | HasDel(log, k, v) && v.ts > n.watermark
      ensures k in Replay(n, log).tombs && v.AtMost(Replay(n, log).tombs[k])
    {
      assert v in Dels(log, k, n.watermark);
    }
  }

  // So a delete outlives the restart: where the key is found nowhere, a merge at or below any logged delete is ignored.
  lemma DeleteOutlivesRestart(n: Node, log: seq<Entry>, v: Version, op: Op, now: int)
    requires n.tombs == map[] && n.peers > 0 && HasDel(log, op.key, v) && v.ts > n.watermark && op.version.AtMost(v)
    requires Find(Replay(n, log), op.key, now).None?
    ensures Exec(Replay(n, log), Merge(op), now, true).1.Ignored?
  {
    hide Replay;
    ReplayedTombstone(n, log, op.key);
  }

  // The clock after replay is the greatest version of the log, or the clock before.
  lemma {:induction false} ReplayedClock(n: Node, log: seq<Entry>)
    ensures var m := Replay(n, log);
            m.clock == n.clock || exists e, op :: 0 <= e < |log| && op in log[e] && op.version.ts == m.clock
  {
    if log != [] {
      var init, last := log[..|log| - 1], log[|log| - 1];
      ReplayedClock(n, init);
      ReplayedEntryClock(Replay(n, init), last);
      var m, c := Replay(n, init), Replay(n, log).clock;
      if c == m.clock && c != n.clock {
        var e: int, op: Op :| 0 <= e < |init| && op in init[e] && op.version.ts == c;
        assert op in log[e];
      } else if c != m.clock {
        var op: Op :| op in last && op.version.ts == c;
        assert op in log[|log| - 1];
      }
    }
  }

  lemma {:induction false} ReplayedEntryClock(n: Node, entry: Entry)
    ensures var m := ReplayEntry(n, entry);
            m.clock == n.clock || exists op :: op in entry && op.version.ts == m.clock
  {
    if entry != [] {
      var init, last := entry[..|entry| - 1], entry[|entry| - 1];
      ReplayedEntryClock(n, init);
      assert entry == init + [last];
    }
  }

  // -------- a dump replayed --------

  lemma {:induction false} DumpRecordsNoDel(records: Records, order: seq<Key>, now: int, k: Key, v: Version)
    ensures !HasDel(DumpRecords(records, order, now), k, v)
  {
    if order != [] { DumpRecordsNoDel(records, order[..|order| - 1], now, k, v); }
  }

  lemma {:induction false} DumpTombsDel(tombs: map<Key, Version>, order: seq<Key>, k: Key, v: Version)
    ensures HasDel(DumpTombs(tombs, order), k, v) <==> k in order && k in tombs && tombs[k] == v
  {
    if order != [] {
      var init, last := order[..|order| - 1], order[|order| - 1];
      InOrder(order, k);
      DumpTombsDel(tombs, init, k, v);
      var before := DumpTombs(tombs, init);
      if last in tombs {
        HasDelConcat(before, [[Del(last, tombs[last])]], k, v);
        assert Del(last, tombs[last]) in [[Del(last, tombs[last])]][0];
      } else {
        assert before + [] == before;
      }
    }
  }

  lemma HasDelConcat(a: seq<Entry>, b: seq<Entry>, k: Key, v: Version)
    ensures HasDel(a + b, k, v) <==> HasDel(a, k, v) || HasDel(b, k, v)
  {
    if HasDel(a, k, v) {
      var e :| 0 <= e < |a| && Del(k, v) in a[e];
      assert Del(k, v) in (a + b)[e];
    }
    if HasDel(b, k, v) {
      var e :| 0 <= e < |b| && Del(k, v) in b[e];
      assert Del(k, v) in (a + b)[|a| + e];
    }
  }

  // A dump replayed into an empty node restores every tombstone with its version.
  lemma DumpRestoresTombs(n: Node, records: Records, tombs: map<Key, Version>, order: seq<Key>, now: int)
    requires Lists(order, records, tombs) && n.tombs == map[] && n.peers > 0
    requires forall k :: k in tombs ==> tombs[k].ts > n.watermark
    ensures Replay(n, Dump(records, tombs, order, now)).tombs == tombs
  {
    hide Replay;
    var dump := Dump(records, tombs, order, now);
    var after := Replay(n, dump).tombs;
    forall k
      ensures k in after <==> k in tombs
      ensures k in after ==> after[k] == tombs[k]
    {
      ReplayedTombstone(n, dump, k);
      forall v ensures HasDel(dump, k, v) <==> k in tombs && tombs[k] == v {
        DumpRecordsNoDel(records, order, now, k, v);
        DumpTombsDel(tombs, order, k, v);
        HasDelConcat(DumpRecords(records, order, now), DumpTombs(tombs, order), k, v);
      }
    }
  }
}
