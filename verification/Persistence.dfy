/** Restart: replaying the log, over whatever snapshots are left, shows what the live store shows. */
module Persistence {
  import opened Hlc
  import opened Node

  type Records = map<Key, Record>

  // -------- the meaning of a log --------

  // Replay applies the resulting state verbatim: no condition is evaluated again, no TTL restarts.
  function ApplyOp(records: Records, op: Op): Records {
    match op
    case Put(key, value, expireAt, v) => records[key := Record(value, expireAt, v)]
    case Del(key, v) => records - {key}
  }

  function ApplyEntry(records: Records, entry: Entry): Records {
    if entry == [] then records else ApplyOp(ApplyEntry(records, entry[..|entry| - 1]), entry[|entry| - 1])
  }

  function ApplyLog(records: Records, log: seq<Entry>): Records {
    if log == [] then records else ApplyEntry(ApplyLog(records, log[..|log| - 1]), log[|log| - 1])
  }

  // What a client can see at time t.
  function View(records: Records, t: int): Records {
    map k | k in records && !records[k].Expired(t) :: records[k]
  }

  ghost predicate SameView(a: Records, b: Records, t: int) {
    View(a, t) == View(b, t)
  }

  lemma SameViewKey(a: Records, b: Records, t: int, k: Key)
    requires SameView(a, b, t)
    ensures (k in a && !a[k].Expired(t)) <==> (k in b && !b[k].Expired(t))
    ensures k in a && !a[k].Expired(t) ==> a[k] == b[k]
  {
    assert k in View(a, t) <==> k in View(b, t);
    if k in View(a, t) { assert View(a, t)[k] == View(b, t)[k]; }
  }

  lemma SameViewOp(a: Records, b: Records, op: Op, t: int)
    requires SameView(a, b, t)
    ensures SameView(ApplyOp(a, op), ApplyOp(b, op), t)
  {
    var a', b' := ApplyOp(a, op), ApplyOp(b, op);
    forall k
      ensures (k in View(a', t)) <==> (k in View(b', t))
      ensures k in View(a', t) ==> View(a', t)[k] == View(b', t)[k]
    {
      SameViewKey(a, b, t, k);
    }
  }

  lemma {:induction false} ApplyLogConcat(records: Records, a: seq<Entry>, b: seq<Entry>)
    ensures ApplyLog(records, a + b) == ApplyLog(ApplyLog(records, a), b)
  {
    if b == [] {
      assert a + b == a;
    } else {
      var init := b[..|b| - 1];
      assert (a + b)[..|a + b| - 1] == a + init;
      ApplyLogConcat(records, a, init);
    }
  }

  // -------- a command logs exactly its effect --------

  lemma {:induction false} WriteAllRecords(n: Node, pairs: seq<(Key, string)>, v: Version, now: int)
    ensures WriteAll(n, pairs, v, now).records == ApplyEntry(n.records, MsetEntry(pairs, v))
    ensures WriteAll(n, pairs, v, now).log == n.log
  {
    if pairs != [] {
      var init := pairs[..|pairs| - 1];
      WriteAllRecords(n, init, v, now);
      assert MsetEntry(pairs, v)[..|pairs| - 1] == MsetEntry(init, v);
    }
  }

  lemma ApplyEntryOne(records: Records, op: Op)
    ensures ApplyEntry(records, [op]) == ApplyOp(records, op)
  {
    assert [op][..0] == [];
  }

  lemma ApplyLogOne(records: Records, entry: Entry)
    ensures ApplyLog(records, [entry]) == ApplyEntry(records, entry)
  {
    assert [entry][..0] == [];
  }

  lemma LookedView(n: Node, key: Key, now: int)
    ensures SameView(Looked(n, key, now).records, n.records, now)
  {
  }

  // The records after a step are those before it with the step's own log entries applied, as far as anyone can see.
  ghost predicate LogsEffect(n: Node, m: Node, now: int) {
    n.log <= m.log && SameView(m.records, ApplyLog(n.records, m.log[|n.log|..]), now)
  }

  lemma AppendedLogs(n: Node, m: Node, entry: Entry, now: int)
    requires m.log == n.log + [entry] && SameView(m.records, ApplyEntry(n.records, entry), now)
    ensures LogsEffect(n, m, now)
  {
    assert m.log[|n.log|..] == [entry];
    ApplyLogOne(n.records, entry);
  }

  lemma NothingLogged(n: Node, m: Node, now: int)
    requires m.log == n.log && SameView(m.records, n.records, now)
    ensures LogsEffect(n, m, now)
  {
    assert m.log[|n.log|..] == [];
  }

  lemma ExecLogsEffect(n: Node, cmd: Cmd, now: int, forget: bool)
    ensures LogsEffect(n, Exec(n, cmd, now, forget).0, now)
  {
    var m := Exec(n, cmd, now, forget).0;
    match cmd
    case Set(key, value, expireAt, nx, xx) =>
      SingleLogs(n, m, key, Put(key, value, expireAt, IssuedVersion(n, key, now)), now);
    case Mset(pairs) =>
      var v := Version(Next(n.clock, now, MaxOverwritten(n, pairs, now)), n.id);
      WriteAllRecords(n, pairs, v, now);
      AppendedLogs(n, m, MsetEntry(pairs, v), now);
    case Expire(key, expireAt) =>
      if key in n.records {
        SingleLogs(n, m, key, Put(key, n.records[key].value, expireAt, IssuedVersion(n, key, now)), now);
      } else {
        NothingLogged(n, m, now);
      }
    case Remove(key) =>
      SingleLogs(n, m, key, Del(key, IssuedVersion(n, key, now)), now);
    case Merge(op) =>
      MergeLogs(n, op, now, forget);
    case Frontier(from, f) =>
      NothingLogged(n, m, now);
  }

  lemma SingleLogs(n: Node, m: Node, key: Key, op: Op, now: int)
    requires m == Issue(n, op, now) || m == Looked(n, key, now)
    ensures LogsEffect(n, m, now)
  {
    if m == Issue(n, op, now) {
      ApplyEntryOne(n.records, op);
      AppendedLogs(n, m, [op], now);
    } else {
      LookedView(n, key, now);
      NothingLogged(n, m, now);
    }
  }

  lemma MergeLogs(n: Node, op: Op, now: int, forget: bool)
    ensures LogsEffect(n, Exec(n, Merge(op), now, forget).0, now)
  {
    var m := Exec(n, Merge(op), now, forget).0;
    var seen := n.(clock := Observe(n.clock, op.version.ts));
    LookedView(seen, op.key, now);
    if Stale(seen, op.key, op.version, now) {
      NothingLogged(n, m, now);
    } else {
      ApplyEntryOne(n.records, op);
      SameViewOp(Looked(seen, op.key, now).records, n.records, op, now);
      AppendedLogs(n, m, [op], now);
    }
  }

  // -------- what a log determines regardless of what it is replayed over --------

  ghost predicate Touches(log: seq<Entry>, k: Key) {
    exists e, op :: 0 <= e < |log| && op in log[e] && op.key == k
  }

  lemma TouchesConcat(a: seq<Entry>, b: seq<Entry>, k: Key)
    ensures Touches(a + b, k) <==> Touches(a, k) || Touches(b, k)
  {
    if Touches(a + b, k) {
      var e, op :| 0 <= e < |a + b| && op in (a + b)[e] && op.key == k;
      if e < |a| { assert op in a[e]; } else { assert op in b[e - |a|]; }
    }
    if Touches(a, k) {
      var e, op :| 0 <= e < |a| && op in a[e] && op.key == k;
      assert op in (a + b)[e];
    }
    if Touches(b, k) {
      var e, op :| 0 <= e < |b| && op in b[e] && op.key == k;
      assert op in (a + b)[e + |a|];
    }
  }

  lemma {:induction false} EntryUntouched(records: Records, entry: Entry, k: Key)
    requires forall op :: op in entry ==> op.key != k
    ensures k in ApplyEntry(records, entry) <==> k in records
    ensures k in records ==> ApplyEntry(records, entry)[k] == records[k]
  {
    if entry != [] {
      EntryUntouched(records, entry[..|entry| - 1], k);
      assert entry[|entry| - 1] in entry;
    }
  }

  lemma {:induction false} Untouched(records: Records, log: seq<Entry>, k: Key)
    requires !Touches(log, k)
    ensures k in ApplyLog(records, log) <==> k in records
    ensures k in records ==> ApplyLog(records, log)[k] == records[k]
  {
    if log != [] {
      var init, last := log[..|log| - 1], log[|log| - 1];
      assert log == init + [last];
      TouchesConcat(init, [last], k);
      forall op | op in last
        ensures op.key != k
      {
        assert op in [last][0];
      }
      Untouched(records, init, k);
      EntryUntouched(ApplyLog(records, init), last, k);
    }
  }

  // Two maps that agree on k.
  ghost predicate AgreeAt(a: Records, b: Records, k: Key) {
    (k in a <==> k in b) && (k in a ==> a[k] == b[k])
  }

  lemma {:induction false} AgreeEntry(a: Records, b: Records, entry: Entry, k: Key)
    requires AgreeAt(a, b, k) || exists op :: op in entry && op.key == k
    ensures AgreeAt(ApplyEntry(a, entry), ApplyEntry(b, entry), k)
  {
    if entry != [] {
      var init, last := entry[..|entry| - 1], entry[|entry| - 1];
      assert entry == init + [last];
      if last.key != k {
        AgreeEntry(a, b, init, k);
      }
    }
  }

  // The last record about a key decides it, whatever the log is replayed over.
  lemma {:induction false} AgreeLog(a: Records, b: Records, log: seq<Entry>, k: Key)
    requires AgreeAt(a, b, k) || Touches(log, k)
    ensures AgreeAt(ApplyLog(a, log), ApplyLog(b, log), k)
  {
    if log != [] {
      var init, last := log[..|log| - 1], log[|log| - 1];
      assert log == init + [last];
      TouchesConcat(init, [last], k);
      if Touches([last], k) {
        var e, op: Op :| 0 <= e < |[last]| && op in [last][e] && op.key == k;
        assert op in last;
      } else {
        AgreeLog(a, b, init, k);
      }
      AgreeEntry(ApplyLog(a, init), ApplyLog(b, init), last, k);
    }
  }
}
