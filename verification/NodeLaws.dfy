/** What every command keeps on one node: the clock is above everything stored, and logged versions only grow. */
module NodeLaws {
  import opened Ints
  import opened Hlc
  import opened Node

  // -------- the invariant of one node --------

  ghost predicate Disjoint(n: Node) {
    forall k :: k in n.tombs ==> k !in n.records
  }

  ghost predicate ClockAbove(n: Node) {
    && (forall k :: k in n.records ==> n.records[k].version.ts <= n.clock)
    && (forall k :: k in n.tombs ==> n.tombs[k].ts <= n.clock)
    && n.frontier <= n.clock <= U64_MAX
  }

  // A tombstone at or under the watermark has been forgotten.
  ghost predicate TombsAbove(n: Node) {
    forall k :: k in n.tombs ==> n.tombs[k].ts > n.watermark
  }

  ghost predicate Ok(n: Node) {
    Disjoint(n) && ClockAbove(n) && TombsAbove(n)
  }

  // No record has passed its deadline.
  ghost predicate Quiet(n: Node, now: int) {
    forall k :: k in n.records ==> !n.records[k].Expired(now)
  }

  // The hypotheses of a step: nothing expires and the 64-bit clock does not overflow.
  ghost predicate Enabled(n: Node, cmd: Cmd, now: int) {
    && Quiet(n, now)
    && (if cmd.Merge? then cmd.op.version.ts <= U64_MAX else n.clock < U64_MAX)
  }

  // The node holds a write or a delete of op's key that is at least as new as op.
  ghost predicate Dominates(n: Node, op: Op) {
    || (op.key in n.records && op.version.AtMost(n.records[op.key].version))
    || (op.key in n.tombs && op.version.AtMost(n.tombs[op.key]))
  }

  // The same, where the tombstone may have been forgotten under the watermark.
  ghost predicate Settled(n: Node, op: Op) {
    || Dominates(n, op)
    || (op.key !in n.records && op.key !in n.tombs && op.version.ts <= n.watermark)
  }

  // -------- multi-key writes --------

  ghost predicate InPairs(pairs: seq<(Key, string)>, k: Key) {
    exists i :: 0 <= i < |pairs| && pairs[i].0 == k
  }

  lemma InPairsStep(pairs: seq<(Key, string)>, k: Key)
    requires pairs != []
    ensures InPairs(pairs, k) <==> InPairs(pairs[..|pairs| - 1], k) || pairs[|pairs| - 1].0 == k
  {
    var init := pairs[..|pairs| - 1];
    if InPairs(init, k) {
      var i :| 0 <= i < |init| && init[i].0 == k;
      assert pairs[i].0 == k;
    }
    if InPairs(pairs, k) && pairs[|pairs| - 1].0 != k {
      var i :| 0 <= i < |pairs| && pairs[i].0 == k;
      assert init[i].0 == k;
    }
  }

  ghost predicate WroteAll(n: Node, m: Node, pairs: seq<(Key, string)>, v: Version) {
    && m == n.(records := m.records, tombs := m.tombs)
    && (forall k :: k in m.records <==> k in n.records || InPairs(pairs, k))
    && (forall k :: k in m.records && InPairs(pairs, k) ==>
          m.records[k].version == v && m.records[k].expireAt == 0)
    && (forall k :: k in m.records && !InPairs(pairs, k) ==> m.records[k] == n.records[k])
    && (forall k :: k in m.tombs <==> k in n.tombs && !InPairs(pairs, k))
    && (forall k :: k in m.tombs ==> m.tombs[k] == n.tombs[k])
  }

  lemma {:induction false} WriteAllEffect(n: Node, pairs: seq<(Key, string)>, v: Version, now: int)
    requires Disjoint(n) && Quiet(n, now)
    ensures WroteAll(n, WriteAll(n, pairs, v, now), pairs, v)
  {
    if pairs != [] {
      WriteAllEffect(n, pairs[..|pairs| - 1], v, now);
      forall k ensures InPairs(pairs, k) <==> InPairs(pairs[..|pairs| - 1], k) || pairs[|pairs| - 1].0 == k {
        InPairsStep(pairs, k);
      }
      WriteKeepsWroteAll(n, WriteAll(n, pairs[..|pairs| - 1], v, now), pairs, v, now);
    }
  }

  lemma WriteKeepsWroteAll(n: Node, m: Node, pairs: seq<(Key, string)>, v: Version, now: int)
    requires Disjoint(n) && Quiet(n, now) && pairs != []
    requires WroteAll(n, m, pairs[..|pairs| - 1], v)
    requires forall k :: InPairs(pairs, k) <==> InPairs(pairs[..|pairs| - 1], k) || pairs[|pairs| - 1].0 == k
    ensures WroteAll(n, Write(m, pairs[|pairs| - 1].0, pairs[|pairs| - 1].1, 0, v, now), pairs, v)
  {
    hide InPairs;
    var last := pairs[|pairs| - 1].0;
    var w := Write(m, last, pairs[|pairs| - 1].1, 0, v, now);
    assert Quiet(m, now);
    assert Find(m, last, now).None? <==> last !in m.records;
    assert last in m.records ==> last !in m.tombs;
    assert w.tombs == m.tombs - {last};
  }

  // With distinct keys each pair's own value is stored.
  lemma {:induction false} WriteAllValue(n: Node, pairs: seq<(Key, string)>, v: Version, now: int, i: nat)
    requires i < |pairs|
    requires forall a, b :: 0 <= a < b < |pairs| ==> pairs[a].0 != pairs[b].0
    ensures pairs[i].0 in WriteAll(n, pairs, v, now).records
    ensures WriteAll(n, pairs, v, now).records[pairs[i].0] == Record(pairs[i].1, 0, v)
  {
    if i < |pairs| - 1 {
      var init := pairs[..|pairs| - 1];
      assert init[i] == pairs[i] && pairs[i].0 != pairs[|pairs| - 1].0;
      WriteAllValue(n, init, v, now, i);
    }
  }

  lemma {:induction false} MaxOverwrittenBound(n: Node, pairs: seq<(Key, string)>, now: int)
    requires ClockAbove(n)
    ensures MaxOverwritten(n, pairs, now) <= n.clock
  {
    if pairs != [] {
      MaxOverwrittenBound(n, pairs[..|pairs| - 1], now);
    }
  }

  // -------- one command --------

  // The mutations a step appended to the log.
  function Added(n: Node, m: Node): seq<Entry>
    requires |n.log| <= |m.log|
  {
    m.log[|n.log|..]
  }

  // An earlier mutation of the same key, known to the node.
  ghost predicate Supersedes(n: Node, op: Op, o: Op) {
    o.key == op.key && o.version.ts <= n.clock && Settled(n, o)
  }

  ghost predicate Shape(n: Node, m: Node) {
    && Ok(m)
    && m.id == n.id && m.peers == n.peers
    && n.clock <= m.clock && n.watermark <= m.watermark
    && n.log <= m.log && |m.log| <= |n.log| + 1
  }

  ghost predicate KeepsSettled(n: Node, m: Node) {
    forall op :: Settled(n, op) && op.version.ts <= n.clock ==> Settled(m, op)
  }

  // A mutation new in m is settled there, and newer than everything n knew of its key.
  ghost predicate NewIn(n: Node, m: Node, op: Op) {
    && op.version.ts <= m.clock && Settled(m, op)
    && forall o: Op :: Supersedes(n, op, o) ==> o.version.Below(op.version)
  }

  // What one command keeps: the invariant, every earlier mutation settled, and one strictly newer entry at most.
  ghost predicate Step(n: Node, m: Node) {
    && Shape(n, m)
    && KeepsSettled(n, m)
    && (forall e, op :: |n.log| <= e < |m.log| && op in m.log[e] ==> NewIn(n, m, op))
  }

  lemma EntryStep(n: Node, m: Node, entry: Entry)
    requires Shape(n, m) && KeepsSettled(n, m) && m.log == n.log + [entry]
    requires forall op :: op in entry ==> NewIn(n, m, op)
    ensures Step(n, m)
  {
  }

  lemma IssueKeeps(n: Node, op: Op, now: int)
    requires Ok(n) && n.peers > 0 && Quiet(n, now)
    requires n.clock < op.version.ts <= U64_MAX
    requires op.Del? ==> op.key in n.records
    ensures KeepsSettled(n, Issue(n, op, now))
  {
    var m := Issue(n, op, now);
    forall o | Settled(n, o) && o.version.ts <= n.clock
      ensures Settled(m, o)
    {
      if o.key == op.key { assert o.version.Below(op.version); }
    }
  }

  lemma IssueStep(n: Node, op: Op, now: int)
    requires Ok(n) && n.peers > 0 && Quiet(n, now)
    requires n.clock < op.version.ts <= U64_MAX
    requires op.Del? ==> op.key in n.records
    ensures Step(n, Issue(n, op, now))
  {
    IssueKeeps(n, op, now);
    EntryStep(n, Issue(n, op, now), [op]);
  }

  lemma MsetShape(n: Node, pairs: seq<(Key, string)>, v: Version, m: Node)
    requires Ok(n) && n.peers > 0 && n.clock < v.ts <= U64_MAX
    requires m.clock == v.ts && m.log == n.log + [MsetEntry(pairs, v)]
    requires WroteAll(n, m.(clock := n.clock, log := n.log), pairs, v)
    ensures Shape(n, m) && KeepsSettled(n, m)
  {
  }

  lemma MsetStep(n: Node, pairs: seq<(Key, string)>, v: Version, now: int)
    requires Ok(n) && n.peers > 0 && Quiet(n, now)
    requires n.clock < v.ts <= U64_MAX
    ensures Step(n, WriteAll(n, pairs, v, now).(clock := v.ts, log := n.log + [MsetEntry(pairs, v)]))
  {
    var entry := MsetEntry(pairs, v);
    WriteAllEffect(n, pairs, v, now);
    var m := WriteAll(n, pairs, v, now).(clock := v.ts, log := n.log + [entry]);
    assert m.(clock := n.clock, log := n.log) == WriteAll(n, pairs, v, now);
    MsetShape(n, pairs, v, m);
    forall op | op in entry
      ensures NewIn(n, m, op)
    {
      var i :| 0 <= i < |pairs| && entry[i] == op;
      assert pairs[i].0 == op.key && InPairs(pairs, op.key) && op.version == v;
    }
    EntryStep(n, m, entry);
  }

  // An accepted merge is newer than everything settled for its key.
  lemma AcceptedIsNewer(n: Node, op: Op, now: int, o: Op)
    requires Disjoint(n) && Quiet(n, now)
    requires !Stale(n, op.key, op.version, now) && o.key == op.key && Settled(n, o)
    ensures o.version.Below(op.version)
  {
  }

  lemma ApplySettles(n: Node, op: Op, now: int)
    requires Ok(n) && n.peers > 0 && Quiet(n, now)
    requires !Stale(n, op.key, op.version, now) && op.version.ts <= n.clock
    ensures Ok(Apply(n, op, now)) && Settled(Apply(n, op, now), op)
  {
  }

  lemma ApplyKeepsSettled(n: Node, op: Op, now: int, o: Op)
    requires Disjoint(n) && n.peers > 0 && Quiet(n, now)
    requires !Stale(n, op.key, op.version, now) && Settled(n, o)
    ensures Settled(Apply(n, op, now), o)
  {
    if o.key == op.key { AcceptedIsNewer(n, op, now, o); }
  }

  lemma AcceptStep(n: Node, op: Op, now: int, seen: Node, m: Node)
    requires Ok(n) && n.peers > 0 && Quiet(n, now) && op.version.ts <= U64_MAX
    requires seen == n.(clock := Observe(n.clock, op.version.ts)) && !Stale(seen, op.key, op.version, now)
    requires m == Apply(seen, op, now).(log := n.log + [[op]])
    ensures Step(n, m)
  {
    hide Stale;
    ApplySettles(seen, op, now);
    forall o | Settled(n, o)
      ensures Settled(m, o) && (o.key == op.key ==> o.version.Below(op.version))
    {
      ApplyKeepsSettled(seen, op, now, o);
      if o.key == op.key { AcceptedIsNewer(seen, op, now, o); }
    }
    EntryStep(n, m, [op]);
  }

  lemma ClockStep(n: Node, m: Node)
    requires Ok(n) && n.clock <= m.clock <= U64_MAX && m == n.(clock := m.clock)
    ensures Step(n, m)
  {
    assert forall o :: Settled(n, o) ==> Settled(m, o);
  }

  lemma MergeStep(n: Node, op: Op, now: int)
    requires Ok(n) && n.peers > 0 && Quiet(n, now) && op.version.ts <= U64_MAX
    ensures Step(n, Exec(n, Merge(op), now, true).0)
  {
    var seen := n.(clock := Observe(n.clock, op.version.ts));
    assert Looked(seen, op.key, now) == seen;
    if Stale(seen, op.key, op.version, now) {
      ClockStep(n, seen);
    } else {
      AcceptStep(n, op, now, seen, Apply(seen, op, now).(log := n.log + [[op]]));
    }
  }

  lemma CollectKeeps(h: Node)
    requires Ok(h)
    ensures Ok(Collect(h)) && h.watermark <= Collect(h).watermark && KeepsSettled(h, Collect(h))
  {
  }

  lemma HearStep(n: Node, from: nat, f: nat, now: int, forget: bool)
    requires Ok(n) && n.clock < U64_MAX
    ensures Step(n, Hear(n, from, f, now, forget))
  {
    var h := Hear(n, from, f, now, false);
    assert forall o :: Settled(n, o) ==> Settled(h, o);
    CollectKeeps(h);
    assert KeepsSettled(n, Collect(h));
  }

  lemma ExecStep(n: Node, cmd: Cmd, now: int, forget: bool)
    requires Ok(n) && n.peers > 0 && Enabled(n, cmd, now)
    ensures Step(n, Exec(n, cmd, now, forget).0)
  {
    match cmd
    case Set(key, value, expireAt, nx, xx) =>
      IssueStep(n, Put(key, value, expireAt, IssuedVersion(n, key, now)), now);
    case Mset(pairs) =>
      MaxOverwrittenBound(n, pairs, now);
      MsetStep(n, pairs, Version(Next(n.clock, now, MaxOverwritten(n, pairs, now)), n.id), now);
    case Expire(key, expireAt) =>
      if key in n.records {
        IssueStep(n, Put(key, n.records[key].value, expireAt, IssuedVersion(n, key, now)), now);
      }
    case Remove(key) =>
      if key in n.records {
        IssueStep(n, Del(key, IssuedVersion(n, key, now)), now);
      }
    case Merge(op) =>
      MergeStep(n, op, now);
    case Frontier(from, f) =>
      HearStep(n, from, f, now, forget);
  }

  // -------- whole runs of one node --------

  datatype Timed = Timed(cmd: Cmd, now: int)

  ghost function Run(n: Node, run: seq<Timed>): Node {
    if run == [] then n
    else
      var last := run[|run| - 1];
      Exec(Run(n, run[..|run| - 1]), last.cmd, last.now, true).0
  }

  ghost predicate RunEnabled(n: Node, run: seq<Timed>) {
    run == [] ||
    (RunEnabled(n, run[..|run| - 1]) &&
     Enabled(Run(n, run[..|run| - 1]), run[|run| - 1].cmd, run[|run| - 1].now))
  }

  // Everything logged is settled and under the clock.
  ghost predicate LogSettled(n: Node) {
    forall e, op :: 0 <= e < |n.log| && op in n.log[e] ==> op.version.ts <= n.clock && Settled(n, op)
  }

  // The versions logged for a key strictly increase.
  ghost predicate VersionsIncrease(n: Node) {
    forall e, f, a, b :: 0 <= e < f < |n.log| && a in n.log[e] && b in n.log[f] && a.key == b.key ==>
      a.version.Below(b.version)
  }

  lemma StepKeepsSettled(n: Node, m: Node)
    requires LogSettled(n) && Step(n, m)
    ensures LogSettled(m)
  {
    forall e, op | 0 <= e < |m.log| && op in m.log[e]
      ensures op.version.ts <= m.clock && Settled(m, op)
    {
      if e < |n.log| { assert m.log[e] == n.log[e]; } else { assert NewIn(n, m, op); }
    }
  }

  lemma StepKeepsOrder(n: Node, m: Node)
    requires LogSettled(n) && VersionsIncrease(n) && Step(n, m)
    ensures VersionsIncrease(m)
  {
    forall e, f, a, b | 0 <= e < f < |m.log| && a in m.log[e] && b in m.log[f] && a.key == b.key
      ensures a.version.Below(b.version)
    {
      assert m.log[e] == n.log[e];
      if f < |n.log| { assert m.log[f] == n.log[f]; } else { assert NewIn(n, m, b) && Supersedes(n, b, a); }
    }
  }

  // Version order: with peers configured and no expiry, whatever merges and frontiers arrive,
  // the versions logged for a key strictly increase and the clock is above every stored or logged version.
  lemma {:induction false} VersionOrder(n: Node, run: seq<Timed>)
    requires n.peers > 0 && Ok(n) && LogSettled(n) && VersionsIncrease(n) && RunEnabled(n, run)
    ensures Run(n, run).peers == n.peers
    ensures Ok(Run(n, run)) && LogSettled(Run(n, run)) && VersionsIncrease(Run(n, run))
  {
    if run != [] {
      var before := Run(n, run[..|run| - 1]);
      VersionOrder(n, run[..|run| - 1]);
      ExecStep(before, run[|run| - 1].cmd, run[|run| - 1].now, true);
      StepKeepsSettled(before, Run(n, run));
      StepKeepsOrder(before, Run(n, run));
    }
  }

  // Every input of the clock: the wall clock of a step and the versions it observes.
  ghost predicate InputsUpTo(run: seq<Timed>, bound: nat) {
    forall i :: 0 <= i < |run| ==>
      && Wrap(run[i].now * 0x1_0000) <= bound
      && (run[i].cmd.Merge? ==> run[i].cmd.op.version.ts <= bound)
  }

  // How many versions a command issues: a merge or a command without effect issues none.
  ghost function IssuesAt(n: Node, cmd: Cmd, now: int): nat {
    var out := Exec(n, cmd, now, true).1;
    if out.Issued? || out.Heard? then 1 else 0
  }

  ghost function Issues(n: Node, run: seq<Timed>): nat {
    if run == [] then 0
    else
      var init, last := run[..|run| - 1], run[|run| - 1];
      Issues(n, init) + IssuesAt(Run(n, init), last.cmd, last.now)
  }

  lemma NextDrift(last: nat, now: int, over: nat, bound: nat)
    requires over <= last < U64_MAX && Wrap(now * 0x1_0000) <= bound
    ensures Next(last, now, over) <= Max(bound, last + 1)
  {
  }

  lemma ExecDrift(n: Node, cmd: Cmd, now: int, bound: nat)
    requires ClockAbove(n) && Enabled(n, cmd, now)
    requires Wrap(now * 0x1_0000) <= bound
    requires cmd.Merge? ==> cmd.op.version.ts <= bound
    ensures Exec(n, cmd, now, true).0.clock <= Max(bound, n.clock + IssuesAt(n, cmd, now))
  {
    match cmd
    case Set(key, value, expireAt, nx, xx) => NextDrift(n.clock, now, Overwritten(n, key, now), bound);
    case Mset(pairs) =>
      MaxOverwrittenBound(n, pairs, now);
      NextDrift(n.clock, now, MaxOverwritten(n, pairs, now), bound);
    case Expire(key, expireAt) => NextDrift(n.clock, now, Overwritten(n, key, now), bound);
    case Remove(key) => NextDrift(n.clock, now, Overwritten(n, key, now), bound);
    case Merge(op) =>
    case Frontier(from, f) => NextDrift(n.clock, now, 0, bound);
  }

  // The clock never runs ahead of its largest input by more than the number of versions issued.
  lemma {:induction false} ClockDrift(n: Node, run: seq<Timed>, bound: nat)
    requires n.peers > 0 && Ok(n) && LogSettled(n) && VersionsIncrease(n) && RunEnabled(n, run)
    requires n.clock <= bound && InputsUpTo(run, bound)
    ensures Run(n, run).clock <= bound + Issues(n, run)
  {
    if run != [] {
      var init := run[..|run| - 1];
      assert forall i :: 0 <= i < |init| ==> init[i] == run[i];
      ClockDrift(n, init, bound);
      VersionOrder(n, init);
      ExecDrift(Run(n, init), run[|run| - 1].cmd, run[|run| - 1].now, bound);
    }
  }

  // -------- records and tombstones stay apart, expiry or not --------

  lemma {:induction false} WriteAllDisjoint(n: Node, pairs: seq<(Key, string)>, v: Version, now: int)
    requires Disjoint(n)
    ensures Disjoint(WriteAll(n, pairs, v, now))
  {
    if pairs != [] { WriteAllDisjoint(n, pairs[..|pairs| - 1], v, now); }
  }

  lemma ApplyDisjoint(n: Node, op: Op, now: int)
    requires Disjoint(n)
    ensures Disjoint(Apply(n, op, now))
  {
  }

  lemma HearDisjoint(n: Node, from: nat, f: nat, now: int, forget: bool)
    requires Disjoint(n)
    ensures Disjoint(Hear(n, from, f, now, forget))
  {
  }

  // Live steps never leave a key with both a record and a tombstone.
  lemma ExecDisjoint(n: Node, cmd: Cmd, now: int, forget: bool)
    requires Disjoint(n)
    ensures Disjoint(Exec(n, cmd, now, forget).0)
  {
    hide Apply, Hear, WriteAll, MaxOverwritten, IssuedVersion, Stale;
    match cmd
    case Set(key, value, expireAt, nx, xx) => ApplyDisjoint(n, Put(key, value, expireAt, IssuedVersion(n, key, now)), now);
    case Mset(pairs) =>
      WriteAllDisjoint(n, pairs, Version(Next(n.clock, now, MaxOverwritten(n, pairs, now)), n.id), now);
    case Expire(key, expireAt) =>
      if key in n.records {
        ApplyDisjoint(n, Put(key, n.records[key].value, expireAt, IssuedVersion(n, key, now)), now);
      }
    case Remove(key) => ApplyDisjoint(n, Del(key, IssuedVersion(n, key, now)), now);
    case Merge(op) =>
      ApplyDisjoint(Looked(n.(clock := Observe(n.clock, op.version.ts)), op.key, now), op, now);
    case Frontier(from, f) => HearDisjoint(n, from, f, now, forget);
  }

  ghost predicate TombsDue(n: Node) {
    TombsAbove(n) && (n.peers == 0 ==> n.tombs == map[])
  }

  lemma {:induction false} WriteAllTombsDue(n: Node, pairs: seq<(Key, string)>, v: Version, now: int)
    requires TombsDue(n)
    ensures TombsDue(WriteAll(n, pairs, v, now))
    ensures WriteAll(n, pairs, v, now).watermark == n.watermark && WriteAll(n, pairs, v, now).peers == n.peers
  {
    if pairs != [] { WriteAllTombsDue(n, pairs[..|pairs| - 1], v, now); }
  }

  lemma ApplyTombsDue(n: Node, op: Op, now: int)
    requires TombsDue(n)
    ensures TombsDue(Apply(n, op, now)) && Apply(n, op, now).watermark == n.watermark
  {
  }

  // No tombstone at or under the watermark is kept, and none at all without peers.
  lemma ExecTombsDue(n: Node, cmd: Cmd, now: int, forget: bool)
    requires TombsDue(n)
    ensures TombsDue(Exec(n, cmd, now, forget).0)
  {
    hide Apply, WriteAll, MaxOverwritten, IssuedVersion, Stale, Low, Hear;
    match cmd
    case Set(key, value, expireAt, nx, xx) => ApplyTombsDue(n, Put(key, value, expireAt, IssuedVersion(n, key, now)), now);
    case Mset(pairs) =>
      WriteAllTombsDue(n, pairs, Version(Next(n.clock, now, MaxOverwritten(n, pairs, now)), n.id), now);
    case Expire(key, expireAt) =>
      if key in n.records {
        ApplyTombsDue(n, Put(key, n.records[key].value, expireAt, IssuedVersion(n, key, now)), now);
      }
    case Remove(key) => ApplyTombsDue(n, Del(key, IssuedVersion(n, key, now)), now);
    case Merge(op) =>
      ApplyTombsDue(Looked(n.(clock := Observe(n.clock, op.version.ts)), op.key, now), op, now);
    case Frontier(from, f) => HearTombsDue(n, from, f, now, forget);
  }

  lemma HearTombsDue(n: Node, from: nat, f: nat, now: int, forget: bool)
    requires TombsDue(n)
    ensures TombsDue(Hear(n, from, f, now, forget))
  {
    hide Low, Next;
  }
}
