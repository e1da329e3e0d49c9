/** A node that forgets tombstones, beside the same node that keeps them for ever. */
module Forgetting {
  import opened Ints
  import opened Hlc
  import opened Node
  import opened NodeLaws

  // r is s, except that it has forgotten the tombstones at or below its watermark.
  ghost predicate Coupled(r: Node, s: Node) {
    s.watermark == 0 && r == s.(watermark := r.watermark, tombs := Above(s.tombs, r.watermark))
  }

  lemma CoupledWrite(r: Node, s: Node, key: Key, value: string, expireAt: int, v: Version, now: int)
    requires Coupled(r, s)
    ensures Coupled(Write(r, key, value, expireAt, v, now), Write(s, key, value, expireAt, v, now))
  {
    var r', s' := Write(r, key, value, expireAt, v, now), Write(s, key, value, expireAt, v, now);
    assert Above(s.tombs - {key}, r.watermark) == Above(s.tombs, r.watermark) - {key};
    assert r'.tombs == Above(s'.tombs, r.watermark);
  }

  lemma {:induction false} CoupledWriteAll(r: Node, s: Node, pairs: seq<(Key, string)>, v: Version, now: int)
    requires Coupled(r, s)
    ensures Coupled(WriteAll(r, pairs, v, now), WriteAll(s, pairs, v, now))
  {
    if pairs != [] {
      var init, last := pairs[..|pairs| - 1], pairs[|pairs| - 1];
      CoupledWriteAll(r, s, init, v, now);
      CoupledWrite(WriteAll(r, init, v, now), WriteAll(s, init, v, now), last.0, last.1, 0, v, now);
    }
  }

  lemma CoupledErase(r: Node, s: Node, key: Key, v: Version)
    requires Coupled(r, s) && v.ts > 0 && r.peers > 0
    requires key in s.tombs ==> s.tombs[key].AtMost(v)
    ensures Coupled(Erase(r, key, v), Erase(s, key, v))
  {
    var r', s' := Erase(r, key, v), Erase(s, key, v);
    assert s'.tombs == s.tombs[key := v];
    assert r'.tombs == Above(s'.tombs, r.watermark);
  }

  lemma CoupledApply(r: Node, s: Node, op: Op, now: int)
    requires Coupled(r, s) && op.version.ts > 0 && r.peers > 0
    requires op.key in s.tombs ==> s.tombs[op.key].AtMost(op.version)
    ensures Coupled(Apply(r, op, now), Apply(s, op, now))
  {
    match op
    case Put(key, value, expireAt, v) => CoupledWrite(r, s, key, value, expireAt, v, now);
    case Del(key, v) => CoupledErase(r, s, key, v);
  }

  // Both issue the same version: what was forgotten lies under the clock.
  lemma CoupledVersion(r: Node, s: Node, key: Key, now: int)
    requires Coupled(r, s) && ClockAbove(s) && s.clock < U64_MAX
    ensures IssuedVersion(r, key, now) == IssuedVersion(s, key, now)
    ensures IssuedVersion(s, key, now).ts > s.clock
  {
  }

  lemma CoupledMsetVersion(r: Node, s: Node, pairs: seq<(Key, string)>, now: int)
    requires Coupled(r, s) && ClockAbove(s) && s.clock < U64_MAX
    ensures Next(r.clock, now, MaxOverwritten(r, pairs, now)) == Next(s.clock, now, MaxOverwritten(s, pairs, now))
  {
    MaxOverwrittenBound(s, pairs, now);
    assert ClockAbove(r);
    MaxOverwrittenBound(r, pairs, now);
  }

  // A late write under the watermark has been seen before, so both decide alike.
  lemma CoupledStale(r: Node, s: Node, op: Op, now: int)
    requires Coupled(r, s) && Disjoint(s) && Quiet(s, now) && op.version.ts > 0
    requires op.version.ts <= r.watermark ==> Dominates(s, op)
    ensures Stale(r, op.key, op.version, now) <==> Stale(s, op.key, op.version, now)
  {
  }

  lemma CoupledHear(r: Node, s: Node, from: nat, f: nat, now: int, forget: bool)
    requires Coupled(r, s)
    ensures Coupled(Hear(r, from, f, now, forget), Hear(s, from, f, now, false))
  {
    var r', s' := Hear(r, from, f, now, forget), Hear(s, from, f, now, false);
    assert r'.watermark >= r.watermark;
    assert r'.tombs == Above(s'.tombs, r'.watermark);
  }

  lemma CoupledMerge(r: Node, s: Node, op: Op, now: int, forget: bool)
    requires Coupled(r, s) && Ok(s) && Enabled(s, Merge(op), now) && s.peers > 0
    requires op.version.ts > 0 && (op.version.ts <= r.watermark ==> Dominates(s, op))
    ensures Exec(r, Merge(op), now, forget).1 == Exec(s, Merge(op), now, false).1
    ensures Coupled(Exec(r, Merge(op), now, forget).0, Exec(s, Merge(op), now, false).0)
  {
    var r1 := r.(clock := Observe(r.clock, op.version.ts));
    var s1 := s.(clock := Observe(s.clock, op.version.ts));
    assert Coupled(r1, s1);
    assert op.version.ts <= r1.watermark ==> Dominates(s1, op);
    CoupledStale(r1, s1, op, now);
    assert Looked(r1, op.key, now) == r1 && Looked(s1, op.key, now) == s1;
    if !Stale(s1, op.key, op.version, now) {
      CoupledApply(r1, s1, op, now);
    }
  }

  lemma CoupledIssue(r: Node, s: Node, op: Op, now: int)
    requires Coupled(r, s) && Ok(s) && s.clock < op.version.ts && s.peers > 0
    ensures Coupled(Issue(r, op, now), Issue(s, op, now))
  {
    CoupledApply(r, s, op, now);
  }

  // One command: the same observable outcome, and the two nodes stay coupled.
  lemma CoupledExec(r: Node, s: Node, cmd: Cmd, now: int, forget: bool)
    requires Coupled(r, s) && Ok(s) && Enabled(s, cmd, now) && s.peers > 0
    requires cmd.Merge? ==> cmd.op.version.ts > 0 && (cmd.op.version.ts <= r.watermark ==> Dominates(s, cmd.op))
    ensures Exec(r, cmd, now, forget).1 == Exec(s, cmd, now, false).1
    ensures Coupled(Exec(r, cmd, now, forget).0, Exec(s, cmd, now, false).0)
  {
    match cmd
    case Set(key, value, expireAt, nx, xx) =>
      CoupledVersion(r, s, key, now);
      CoupledIssue(r, s, Put(key, value, expireAt, IssuedVersion(s, key, now)), now);
    case Mset(pairs) =>
      CoupledMsetVersion(r, s, pairs, now);
      CoupledWriteAll(r, s, pairs, Version(Next(s.clock, now, MaxOverwritten(s, pairs, now)), s.id), now);
    case Expire(key, expireAt) =>
      CoupledVersion(r, s, key, now);
      if key in s.records {
        CoupledIssue(r, s, Put(key, s.records[key].value, expireAt, IssuedVersion(s, key, now)), now);
      }
    case Remove(key) =>
      CoupledVersion(r, s, key, now);
      CoupledIssue(r, s, Del(key, IssuedVersion(s, key, now)), now);
    case Merge(op) =>
      CoupledMerge(r, s, op, now, forget);
    case Frontier(from, f) =>
      CoupledHear(r, s, from, f, now, forget);
  }
}
