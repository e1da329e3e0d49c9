/** Version order when records may expire: exactly which merges break it. */
module Expiry {
  import opened Ints
  import opened Hlc
  import opened Node
  import opened NodeLaws
  import opened Persistence

  // -------- one node --------

  // Nothing logged is newer than what is stored for its key, or than the clock.
  ghost predicate LogBehind(n: Node) {
    forall e, o :: 0 <= e < |n.log| && o in n.log[e] ==>
      && o.version.ts <= n.clock
      && (o.key in n.records ==> o.version.AtMost(n.records[o.key].version))
      && (o.key in n.tombs ==> o.version.AtMost(n.tombs[o.key]))
  }

  ghost predicate Sound(n: Node) {
    Disjoint(n) && ClockAbove(n) && TombsDue(n) && LogBehind(n)
  }

  // The log already holds a mutation of op's key that op is not newer than.
  ghost predicate Overtaken(n: Node, op: Op) {
    exists e, o :: 0 <= e < |n.log| && o in n.log[e] && o.key == op.key && op.version.AtMost(o.version)
  }

  // The merge finds nothing to compare with, since the newer record expired (erased already or not), and is applied.
  ghost predicate Revives(n: Node, op: Op, now: int) {
    Find(n, op.key, now).None? && op.key !in n.tombs && op.version.ts > n.watermark && Overtaken(n, op)
  }

  // Every logged mutation of the key is older.
  ghost predicate Newest(n: Node, op: Op) {
    forall e, o :: 0 <= e < |n.log| && o in n.log[e] && o.key == op.key ==> o.version.Below(op.version)
  }

  lemma NewestOrOvertaken(n: Node, op: Op)
    ensures Newest(n, op) <==> !Overtaken(n, op)
  {
  }

  // -------- shapes of a step --------

  // One key loses its record or tombstone, or keeps it.
  ghost predicate Fades(n: Node, m: Node, k: Key) {
    && (k in m.records ==> k in n.records && m.records[k] == n.records[k])
    && (k in m.tombs ==> k in n.tombs && m.tombs[k] == n.tombs[k])
  }

  ghost predicate FadesAll(n: Node, m: Node) {
    m.log == n.log && n.clock <= m.clock && forall k :: Fades(n, m, k)
  }

  // What is stored for the key of a new entry is that entry's.
  ghost predicate Stores(m: Node, op: Op) {
    && op.version.ts <= m.clock
    && (op.key in m.records ==> m.records[op.key].version == op.version)
    && (op.key in m.tombs ==> op.version.AtMost(m.tombs[op.key]) && m.tombs[op.key].ts <= m.clock)
  }

  ghost predicate Appends(n: Node, m: Node, entry: Entry) {
    && m.log == n.log + [entry] && n.clock <= m.clock
    && (forall op :: op in entry ==> Newest(n, op) && Stores(m, op))
    && (forall k :: (forall op :: op in entry ==> op.key != k) ==> Fades(n, m, k))
  }

  lemma FadesKeep(n: Node, m: Node)
    requires Sound(n) && FadesAll(n, m) && m.frontier <= m.clock <= U64_MAX && Disjoint(m) && TombsDue(m)
    ensures Sound(m) && (VersionsIncrease(n) ==> VersionsIncrease(m))
  {
    forall k
      ensures k in m.records ==> k in n.records && m.records[k] == n.records[k]
      ensures k in m.tombs ==> k in n.tombs && m.tombs[k] == n.tombs[k]
    {
      FadesAt(n, m, k);
    }
  }

  lemma AppendsBehind(n: Node, m: Node, entry: Entry)
    requires Sound(n) && Appends(n, m, entry)
    ensures LogBehind(m)
  {
    hide Fades;
    forall e, o | 0 <= e < |m.log| && o in m.log[e]
      ensures o.version.ts <= m.clock
      ensures o.key in m.records ==> o.version.AtMost(m.records[o.key].version)
      ensures o.key in m.tombs ==> o.version.AtMost(m.tombs[o.key])
    {
      if e < |n.log| {
        assert o in n.log[e];
        if op :| op in entry && op.key == o.key {
          assert Newest(n, op) && Stores(m, op);
        } else {
          FadesAt(n, m, o.key);
        }
      } else {
        assert o in entry && Stores(m, o);
      }
    }
  }

  lemma FadesAt(n: Node, m: Node, k: Key)
    requires Fades(n, m, k)
    ensures k in m.records ==> k in n.records && m.records[k] == n.records[k]
    ensures k in m.tombs ==> k in n.tombs && m.tombs[k] == n.tombs[k]
  {
  }

  lemma AppendsClock(n: Node, m: Node, entry: Entry)
    requires Sound(n) && Appends(n, m, entry) && m.frontier <= m.clock <= U64_MAX
    ensures ClockAbove(m)
  {
    hide Fades, Newest;
    forall k
      ensures k in m.records ==> m.records[k].version.ts <= m.clock
      ensures k in m.tombs ==> m.tombs[k].ts <= m.clock
    {
      if op :| op in entry && op.key == k { assert Stores(m, op); } else { FadesAt(n, m, k); }
    }
  }

  lemma AppendsOrder(n: Node, m: Node, entry: Entry)
    requires VersionsIncrease(n) && Appends(n, m, entry)
    ensures VersionsIncrease(m)
  {
    hide Fades, Stores;
    forall e, f, a, b | 0 <= e < f < |m.log| && a in m.log[e] && b in m.log[f] && a.key == b.key
      ensures a.version.Below(b.version)
    {
      assert a in n.log[e];
      if f < |n.log| { assert b in n.log[f]; } else { assert b in entry && Newest(n, b); }
    }
  }

  lemma AppendsKeep(n: Node, m: Node, entry: Entry)
    requires Sound(n) && Appends(n, m, entry) && m.frontier <= m.clock <= U64_MAX && Disjoint(m) && TombsDue(m)
    ensures Sound(m) && (VersionsIncrease(n) ==> VersionsIncrease(m))
  {
    hide Appends, LogBehind;
    AppendsBehind(n, m, entry);
    AppendsClock(n, m, entry);
    if VersionsIncrease(n) { AppendsOrder(n, m, entry); }
  }

  // -------- commands --------

  // The 64-bit clock has room for a local version.
  ghost predicate InRange(n: Node, cmd: Cmd) {
    if cmd.Merge? then cmd.op.version.ts <= U64_MAX else n.clock < U64_MAX
  }

  lemma IssuedNewest(n: Node, op: Op)
    requires LogBehind(n) && op.version.ts > n.clock
    ensures Newest(n, op)
  {
  }

  lemma IssuedAbove(n: Node, key: Key, now: int)
    requires ClockAbove(n) && n.clock < U64_MAX
    ensures n.clock < IssuedVersion(n, key, now).ts <= U64_MAX
  {
  }

  lemma IssueAppends(n: Node, op: Op, now: int)
    requires Sound(n) && n.clock < op.version.ts <= U64_MAX && (op.Del? ==> op.key in n.records)
    ensures Appends(n, Issue(n, op, now), [op])
    ensures Issue(n, op, now).frontier <= Issue(n, op, now).clock <= U64_MAX
  {
    IssuedNewest(n, op);
    hide Newest, LogBehind;
    var m := Issue(n, op, now);
    assert Stores(m, op);
    forall k | k != op.key ensures Fades(n, m, k) {}
  }

  lemma LookedFades(n: Node, key: Key, now: int)
    requires Sound(n)
    ensures FadesAll(n, Looked(n, key, now))
  {
  }

  lemma {:induction false} WriteAllStores(n: Node, pairs: seq<(Key, string)>, v: Version, now: int, k: Key)
    requires Disjoint(n)
    ensures var w := WriteAll(n, pairs, v, now);
            && w == n.(records := w.records, tombs := w.tombs) && Disjoint(w)
            && (if InPairs(pairs, k) then k in w.records && w.records[k].version == v && k !in w.tombs else Fades(n, w, k))
  {
    if pairs != [] {
      WriteAllStores(n, pairs[..|pairs| - 1], v, now, k);
      InPairsStep(pairs, k);
    }
  }

  lemma MsetAppends(n: Node, pairs: seq<(Key, string)>, v: Version, now: int)
    requires Sound(n) && n.clock < v.ts <= U64_MAX
    ensures var m := WriteAll(n, pairs, v, now).(clock := v.ts, log := n.log + [MsetEntry(pairs, v)]);
            Appends(n, m, MsetEntry(pairs, v)) && m.frontier <= m.clock
  {
    hide WriteAll, Newest, LogBehind, Fades;
    var entry := MsetEntry(pairs, v);
    var w := WriteAll(n, pairs, v, now);
    var m := w.(clock := v.ts, log := n.log + [entry]);
    WriteAllStores(n, pairs, v, now, Key("", ""));
    forall op | op in entry
      ensures Newest(n, op) && Stores(m, op)
    {
      var i :| 0 <= i < |pairs| && op == entry[i];
      assert pairs[i].0 == op.key;
      WriteAllStores(n, pairs, v, now, op.key);
      IssuedNewest(n, op);
    }
    forall k | forall op :: op in entry ==> op.key != k
      ensures Fades(n, m, k)
    {
      PairsAreLogged(pairs, v, k);
      WriteAllStores(n, pairs, v, now, k);
      FadesCopy(n, w, m, k);
    }
  }

  lemma FadesCopy(n: Node, w: Node, m: Node, k: Key)
    requires Fades(n, w, k) && m.records == w.records && m.tombs == w.tombs
    ensures Fades(n, m, k)
  {
  }

  lemma PairsAreLogged(pairs: seq<(Key, string)>, v: Version, k: Key)
    ensures InPairs(pairs, k) ==> exists op :: op in MsetEntry(pairs, v) && op.key == k
  {
    if InPairs(pairs, k) {
      var i :| 0 <= i < |pairs| && pairs[i].0 == k;
      assert MsetEntry(pairs, v)[i] in MsetEntry(pairs, v);
    }
  }

  lemma AcceptedNewest(n: Node, op: Op, now: int)
    requires Sound(n) && !Revives(n, op, now) && !Stale(n, op.key, op.version, now)
    ensures Newest(n, op)
  {
    NewestOrOvertaken(n, op);
  }

  lemma AcceptAppends(n: Node, op: Op, now: int)
    requires Sound(n) && Newest(n, op) && op.version.ts <= U64_MAX && !Stale(n, op.key, op.version, now)
    ensures var m := Exec(n, Merge(op), now, true).0;
            Appends(n, m, [op]) && m.frontier <= m.clock <= U64_MAX
  {
    hide Newest, LogBehind, Stores, Fades;
    var m := Exec(n, Merge(op), now, true).0;
    AcceptStores(n, op, now);
    forall k | k != op.key ensures Fades(n, m, k) { AcceptFades(n, op, now, k); }
  }

  lemma AcceptStores(n: Node, op: Op, now: int)
    requires Disjoint(n) && ClockAbove(n) && TombsDue(n) && !Stale(n, op.key, op.version, now)
    ensures Stores(Exec(n, Merge(op), now, true).0, op)
  {
  }

  lemma AcceptFades(n: Node, op: Op, now: int, k: Key)
    requires k != op.key
    ensures Fades(n, Exec(n, Merge(op), now, true).0, k)
  {
  }

  // Every other command, and every other merge, keeps the versions of the log increasing.
  lemma ExecKeeps(n: Node, cmd: Cmd, now: int)
    requires Sound(n) && InRange(n, cmd) && (cmd.Merge? ==> !Revives(n, cmd.op, now))
    ensures var m := Exec(n, cmd, now, true).0;
            Sound(m) && (VersionsIncrease(n) ==> VersionsIncrease(m))
  {
    hide Appends, LogBehind, VersionsIncrease, FadesAll, Revives;
    var m := Exec(n, cmd, now, true).0;
    ExecDisjoint(n, cmd, now, true);
    ExecTombsDue(n, cmd, now, true);
    match cmd
    case Set(key, value, expireAt, nx, xx) =>
      SingleKeeps(n, m, key, Put(key, value, expireAt, IssuedVersion(n, key, now)), now);
    case Expire(key, expireAt) =>
      if key in n.records {
        SingleKeeps(n, m, key, Put(key, n.records[key].value, expireAt, IssuedVersion(n, key, now)), now);
      } else {
        LookedFades(n, key, now);
        FadesKeep(n, m);
      }
    case Remove(key) =>
      SingleKeeps(n, m, key, Del(key, IssuedVersion(n, key, now)), now);
    case Mset(pairs) =>
      var v := Version(Next(n.clock, now, MaxOverwritten(n, pairs, now)), n.id);
      MaxOverwrittenBound(n, pairs, now);
      MsetAppends(n, pairs, v, now);
      AppendsKeep(n, m, MsetEntry(pairs, v));
    case Merge(op) =>
      MergeKeeps(n, op, now);
    case Frontier(from, f) =>
      HearFades(n, from, f, now);
      FadesKeep(n, m);
  }

  lemma SingleKeeps(n: Node, m: Node, key: Key, op: Op, now: int)
    requires Sound(n) && n.clock < U64_MAX && op.key == key && op.version == IssuedVersion(n, key, now)
    requires m == Issue(n, op, now) || m == Looked(n, key, now)
    requires m == Issue(n, op, now) && op.Del? ==> key in n.records
    requires Disjoint(m) && TombsDue(m)
    ensures Sound(m) && (VersionsIncrease(n) ==> VersionsIncrease(m))
  {
    hide Appends, LogBehind, VersionsIncrease, FadesAll, Issue, Looked;
    if m == Issue(n, op, now) {
      IssuedAbove(n, key, now);
      IssueAppends(n, op, now);
      AppendsKeep(n, m, [op]);
    } else {
      LookedFades(n, key, now);
      LookedClock(n, key, now);
      FadesKeep(n, m);
    }
  }

  lemma LookedClock(n: Node, key: Key, now: int)
    ensures Looked(n, key, now).clock == n.clock && Looked(n, key, now).frontier == n.frontier
  {
  }

  lemma HearFades(n: Node, from: nat, f: nat, now: int)
    requires Sound(n) && n.clock < U64_MAX
    ensures var m := Hear(n, from, f, now, true);
            FadesAll(n, m) && m.frontier <= m.clock <= U64_MAX
  {
    hide LogBehind, Low;
  }

  lemma MergeKeeps(n: Node, op: Op, now: int)
    requires Sound(n) && op.version.ts <= U64_MAX && !Revives(n, op, now)
    ensures var m := Exec(n, Merge(op), now, true).0;
            Sound(m) && (VersionsIncrease(n) ==> VersionsIncrease(m))
  {
    hide LogBehind, VersionsIncrease, Revives, Newest;
    var m := Exec(n, Merge(op), now, true).0;
    ExecDisjoint(n, Merge(op), now, true);
    ExecTombsDue(n, Merge(op), now, true);
    if Stale(n, op.key, op.version, now) {
      assert FadesAll(n, m);
      FadesKeep(n, m);
    } else {
      AcceptedNewest(n, op, now);
      AcceptAppends(n, op, now);
      AppendsKeep(n, m, [op]);
    }
  }

  // A merge keeps the versions of the log increasing if and only if it does not revive: the key has no unexpired record
  // and no tombstone, the version is above the watermark, and the log already holds one at least as new.
  lemma MergeKeepsOrderIff(n: Node, op: Op, now: int)
    requires Sound(n) && VersionsIncrease(n) && op.version.ts <= U64_MAX
    ensures VersionsIncrease(Exec(n, Merge(op), now, true).0) <==> !Revives(n, op, now)
  {
    if Revives(n, op, now) {
      var e, o :| 0 <= e < |n.log| && o in n.log[e] && o.key == op.key && op.version.AtMost(o.version);
      var m := Exec(n, Merge(op), now, true).0;
      assert m.log == n.log + [[op]];
      assert o in m.log[e] && op in m.log[|n.log|];
    } else {
      MergeKeeps(n, op, now);
    }
  }

  // -------- runs in which records expire --------

  // A command, or the erasing of keys that have expired.
  datatype Event = Do(cmd: Cmd, now: int) | Clean(keys: set<Key>, now: int)

  ghost predicate CanDo(n: Node, e: Event) {
    match e
    case Do(cmd, now) => InRange(n, cmd)
    case Clean(keys, now) => forall k :: k in keys && k in n.records ==> n.records[k].Expired(now)
  }

  ghost function After(n: Node, e: Event): Node {
    match e
    case Do(cmd, now) => Exec(n, cmd, now, true).0
    case Clean(keys, now) => n.(records := n.records - keys)
  }

  ghost predicate CanRun(n: Node, run: seq<Event>)
    decreases |run|
  {
    run == [] || (CanDo(n, run[0]) && CanRun(After(n, run[0]), run[1..]))
  }

  ghost function Final(n: Node, run: seq<Event>): Node
    decreases |run|
  {
    if run == [] then n else Final(After(n, run[0]), run[1..])
  }

  ghost predicate RevivesAt(n: Node, e: Event) {
    e.Do? && e.cmd.Merge? && Revives(n, e.cmd.op, e.now)
  }

  // Some merge of the run revives.
  ghost predicate SomeRevives(n: Node, run: seq<Event>)
    decreases |run|
  {
    run != [] && (RevivesAt(n, run[0]) || SomeRevives(After(n, run[0]), run[1..]))
  }

  lemma EventKeeps(n: Node, e: Event)
    requires Sound(n) && CanDo(n, e) && !RevivesAt(n, e)
    ensures Sound(After(n, e)) && (VersionsIncrease(n) ==> VersionsIncrease(After(n, e)))
  {
    hide LogBehind, VersionsIncrease, Exec, Revives;
    match e
    case Do(cmd, now) => ExecKeeps(n, cmd, now);
    case Clean(keys, now) =>
      var m := After(n, e);
      assert FadesAll(n, m);
      FadesKeep(n, m);
  }

  lemma EventAppends(n: Node, e: Event)
    ensures n.log <= After(n, e).log
  {
    hide Exec, SameView;
    if e.Do? { ExecLogsEffect(n, e.cmd, e.now, true); }
  }

  lemma BrokenStays(n: Node, m: Node)
    requires n.log <= m.log && !VersionsIncrease(n)
    ensures !VersionsIncrease(m)
  {
    var e, f, a, b :| 0 <= e < f < |n.log| && a in n.log[e] && b in n.log[f] && a.key == b.key && !a.version.Below(b.version);
    assert a in m.log[e] && b in m.log[f];
  }

  lemma {:induction false} BrokenRun(n: Node, run: seq<Event>)
    requires !VersionsIncrease(n)
    ensures !VersionsIncrease(Final(n, run))
    decreases |run|
  {
    hide VersionsIncrease, After;
    if run != [] {
      EventAppends(n, run[0]);
      BrokenStays(n, After(n, run[0]));
      BrokenRun(After(n, run[0]), run[1..]);
    }
  }

  lemma {:induction false} RunOrderIff(n: Node, run: seq<Event>)
    requires Sound(n) && VersionsIncrease(n) && CanRun(n, run)
    ensures VersionsIncrease(Final(n, run)) <==> !SomeRevives(n, run)
    decreases |run|
  {
    hide VersionsIncrease, Sound, After, CanDo, RevivesAt;
    if run != [] {
      if RevivesAt(n, run[0]) {
        RevivalBreaks(n, run[0]);
        BrokenRun(After(n, run[0]), run[1..]);
      } else {
        EventKeeps(n, run[0]);
        RunOrderIff(After(n, run[0]), run[1..]);
      }
    }
  }

  lemma RevivalBreaks(n: Node, e: Event)
    requires Sound(n) && VersionsIncrease(n) && CanDo(n, e) && RevivesAt(n, e)
    ensures !VersionsIncrease(After(n, e))
  {
    hide Exec, VersionsIncrease, Revives;
    MergeKeepsOrderIff(n, e.cmd.op, e.now);
  }

  // Version order with expiry, for any number of peers: from an empty node, after any run of commands, merges, frontiers
  // and expiry, the versions logged for each key strictly increase if and only if no merge of the run revived.
  lemma VersionOrderIff(id: nat, peers: nat, start: int, run: seq<Event>)
    requires CanRun(Fresh(id, peers, start), run)
    ensures VersionsIncrease(Final(Fresh(id, peers, start), run)) <==> !SomeRevives(Fresh(id, peers, start), run)
  {
    hide CanRun, SomeRevives;
    RunOrderIff(Fresh(id, peers, start), run);
  }

  // -------- the failing input --------

  // A write with a deadline, the deadline, and an older write of another node; with the expired record erased first or
  // still in place.
  function LateMerge(key: Key, now: nat, erased: bool): seq<Event> {
    [Do(Set(key, "new", now + 10, false, false), now)] + (if erased then [Clean({key}, now + 11)] else []) +
    [Do(Merge(Put(key, "old", 0, Version(now * 0x1_0000, 0))), now + 11)]
  }

  lemma ExpiryBreaksVersionOrder(peers: nat, key: Key, now: nat, erased: bool)
    requires 0x8000_0000 <= now < 0x1_0000_0000_0000
    ensures CanRun(Fresh(1, peers, now), LateMerge(key, now, erased))
    ensures !VersionsIncrease(Final(Fresh(1, peers, now), LateMerge(key, now, erased)))
  {
    var n0, run := Fresh(1, peers, now), LateMerge(key, now, erased);
    var n1 := After(n0, run[0]);
    var o := Put(key, "new", now + 10, Version(now * 0x1_0000 + 1, 1));
    assert n1.log == [[o]] && n1.records == map[key := Record("new", now + 10, o.version)];
    var n2 := if erased then After(n1, run[1]) else n1;
    var merge := run[|run| - 1];
    assert run[1..] == if erased then [run[1], merge] else [merge];
    assert o in n2.log[0] && Revives(n2, merge.cmd.op, now + 11);
    assert [merge][1..] == [];
    assert SomeRevives(n2, [merge]) && CanRun(n2, [merge]);
    if erased { assert [run[1], merge][1..] == [merge]; }
    assert CanRun(n1, run[1..]) && SomeRevives(n1, run[1..]);
    VersionOrderIff(1, peers, now, run);
  }
}
