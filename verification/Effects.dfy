/** What each command does, as lookups before and after it see it. */
module Effects {
  import opened Ints
  import opened Hlc
  import opened Node
  import opened Wrappers

  // Every other key is found as before.
  ghost predicate FindsBut(n: Node, m: Node, keys: set<Key>, now: int) {
    forall k :: k !in keys ==> Find(m, k, now) == Find(n, k, now)
  }

  // Nothing is found differently, logged or issued.
  ghost predicate Unchanged(n: Node, m: Node, now: int) {
    FindsBut(n, m, {}, now) && m.log == n.log && m.clock == n.clock && m.tombs == n.tombs
  }

  // The clock moved to a version of this node, above the old clock and above what the key had, unless a counter was at
  // its maximum.
  ghost predicate IssuedAbove(n: Node, m: Node, key: Key, now: int) {
    && (n.clock < U64_MAX ==> n.clock < m.clock)
    && (Find(n, key, now).Some? && Find(n, key, now).value.version.ts < U64_MAX ==>
          Find(n, key, now).value.version.ts < m.clock)
    && (Find(n, key, now).None? && key in n.tombs && n.tombs[key].ts < U64_MAX ==> n.tombs[key].ts < m.clock)
  }

  predicate Lasting(expireAt: int, now: int) {
    expireAt <= 0 || now <= expireAt
  }

  lemma NextAbove(last: nat, now: int, overwritten: nat)
    ensures last < U64_MAX ==> last < Next(last, now, overwritten)
    ensures overwritten < U64_MAX ==> overwritten < Next(last, now, overwritten)
  {
  }

  // SET: with NX and the key found, or XX and the key absent, nothing changes; otherwise the key is found with the value
  // and the deadline given, under a new version.
  lemma SetEffect(n: Node, key: Key, value: string, expireAt: int, nx: bool, xx: bool, now: int)
    requires Lasting(expireAt, now)
    ensures var (m, out) := Exec(n, Set(key, value, expireAt, nx, xx), now, true);
            && (out.Skipped? <==> (nx && Find(n, key, now).Some?) || (xx && Find(n, key, now).None?))
            && (out.Skipped? ==> Unchanged(n, m, now))
            && (!out.Skipped? ==>
                  && out == Issued(Version(m.clock, n.id)) && FindsBut(n, m, {key}, now) && IssuedAbove(n, m, key, now)
                  && Find(m, key, now) == Some(Record(value, expireAt, Version(m.clock, n.id)))
                  && m.log == n.log + [[Put(key, value, expireAt, Version(m.clock, n.id))]])
  {
    hide Next;
    NextAbove(n.clock, now, Overwritten(n, key, now));
  }

  // EXPIRE of a key that is found: only its deadline and version change.
  lemma ExpireEffect(n: Node, key: Key, expireAt: int, now: int)
    requires Find(n, key, now).Some? && Lasting(expireAt, now)
    ensures var m := Exec(n, Expire(key, expireAt), now, true).0;
            && FindsBut(n, m, {key}, now) && IssuedAbove(n, m, key, now)
            && Find(m, key, now) == Some(Record(Find(n, key, now).value.value, expireAt, Version(m.clock, n.id)))
            && m.log == n.log + [[Put(key, Find(n, key, now).value.value, expireAt, Version(m.clock, n.id))]]
  {
    hide Next;
    NextAbove(n.clock, now, Overwritten(n, key, now));
  }

  // DEL of a key that is found: it is found no more, and with peers its version stays as a tombstone above the watermark.
  lemma RemoveEffect(n: Node, key: Key, now: int)
    requires Find(n, key, now).Some?
    ensures var m := Exec(n, Remove(key), now, true).0;
            && FindsBut(n, m, {key}, now) && IssuedAbove(n, m, key, now)
            && key !in m.records && m.log == n.log + [[Del(key, Version(m.clock, n.id))]]
            && (n.peers > 0 && m.clock > n.watermark ==> key in m.tombs && m.clock <= m.tombs[key].ts)
  {
    hide Next;
    NextAbove(n.clock, now, Overwritten(n, key, now));
  }

  // The last value given for a key.
  function LastGiven(pairs: seq<(Key, string)>, k: Key): Option<string> {
    if pairs == [] then None
    else if pairs[|pairs| - 1].0 == k then Some(pairs[|pairs| - 1].1) else LastGiven(pairs[..|pairs| - 1], k)
  }

  lemma {:induction false} WriteAllFinds(n: Node, pairs: seq<(Key, string)>, v: Version, now: int, k: Key)
    ensures Find(WriteAll(n, pairs, v, now), k, now) ==
            match LastGiven(pairs, k) { case Some(value) => Some(Record(value, 0, v)) case None => Find(n, k, now) }
  {
    if pairs != [] { WriteAllFinds(n, pairs[..|pairs| - 1], v, now, k); }
  }

  lemma {:induction false} OverwritesAll(n: Node, pairs: seq<(Key, string)>, now: int, k: Key)
    requires LastGiven(pairs, k).Some?
    ensures Overwritten(n, k, now) <= MaxOverwritten(n, pairs, now)
  {
    hide Overwritten;
    if pairs[|pairs| - 1].0 != k { OverwritesAll(n, pairs[..|pairs| - 1], now, k); }
  }

  lemma {:induction false} OverwritesOne(n: Node, pairs: seq<(Key, string)>, now: int)
    ensures var most := MaxOverwritten(n, pairs, now);
            most == 0 || exists i :: 0 <= i < |pairs| && most == Overwritten(n, pairs[i].0, now)
  {
    hide Overwritten;
    if pairs != [] {
      var init := pairs[..|pairs| - 1];
      OverwritesOne(n, init, now);
      if MaxOverwritten(n, pairs, now) == MaxOverwritten(n, init, now) != 0 {
        var i :| 0 <= i < |init| && MaxOverwritten(n, init, now) == Overwritten(n, init[i].0, now);
        assert pairs[i] == init[i];
      } else if MaxOverwritten(n, pairs, now) != 0 {
        assert MaxOverwritten(n, pairs, now) == Overwritten(n, pairs[|pairs| - 1].0, now);
      }
    }
  }

  // MSET: each key named is found with the last value given for it, without a deadline, under one new version, which is
  // above all that were replaced unless one of them is at the maximum.
  lemma MsetEffect(n: Node, pairs: seq<(Key, string)>, now: int, k: Key)
    ensures var m := Exec(n, Mset(pairs), now, true).0;
            match LastGiven(pairs, k)
            case Some(value) =>
              && Find(m, k, now) == Some(Record(value, 0, Version(m.clock, n.id)))
              && ((forall i :: 0 <= i < |pairs| ==> Overwritten(n, pairs[i].0, now) < U64_MAX) ==> IssuedAbove(n, m, k, now))
            case None => Find(m, k, now) == Find(n, k, now)
  {
    hide Next, WriteAll, MaxOverwritten;
    var most := MaxOverwritten(n, pairs, now);
    var v := Version(Next(n.clock, now, most), n.id);
    WriteAllFinds(n, pairs, v, now, k);
    NextAbove(n.clock, now, most);
    OverwritesOne(n, pairs, now);
    if LastGiven(pairs, k).Some? { OverwritesAll(n, pairs, now, k); }
  }

  // A merge: ignored when it is at or under the record found; with none found, the tombstone; with neither, the watermark.
  ghost predicate TooOld(n: Node, key: Key, v: Version, now: int) {
    || (Find(n, key, now).Some? && v.AtMost(Find(n, key, now).value.version))
    || (Find(n, key, now).None? && key in n.tombs && v.AtMost(n.tombs[key]))
    || (Find(n, key, now).None? && key !in n.tombs && v.ts <= n.watermark)
  }

  lemma MergeEffect(n: Node, op: Op, now: int)
    ensures var (m, out) := Exec(n, Merge(op), now, true);
            && (out.Ignored? <==> TooOld(n, op.key, op.version, now)) && (out.Applied? <==> !out.Ignored?)
            && FindsBut(n, m, if out.Ignored? then {} else {op.key}, now)
            && m.clock == Max(n.clock, op.version.ts)
            && (out.Ignored? ==> m.log == n.log && m.tombs == n.tombs)
            && (out.Applied? ==>
                  && m.log == n.log + [[op]]
                  && (op.Put? ==> op.key in m.records && m.records[op.key] == Record(op.value, op.expireAt, op.version))
                  && (op.Del? ==> op.key !in m.records)
                  && (op.Del? && n.peers > 0 && op.version.ts > n.watermark ==>
                        op.key in m.tombs && op.version.AtMost(m.tombs[op.key])))
  {
  }

  // A frontier: the sender's only grows, this node's own becomes a new version, and nothing is found differently.
  lemma FrontierEffect(n: Node, from: nat, f: nat, now: int)
    ensures var m := Exec(n, Frontier(from, f), now, true).0;
            && m.records == n.records && m.log == n.log && m.clock == m.frontier && (n.clock < U64_MAX ==> n.clock < m.frontier)
            && from in m.frontiers && f <= m.frontiers[from]
            && (m.frontiers[from] == f || (from in n.frontiers && m.frontiers[from] == n.frontiers[from]))
            && (from in n.frontiers ==> n.frontiers[from] <= m.frontiers[from])
            && m.frontiers - {from} == n.frontiers - {from}
            && CollectedFrom(n.tombs, n.watermark, m)
  {
    hide Next, Collect, CollectedFrom;
    NextAbove(n.clock, now, 0);
    CollectEffect(Hear(n, from, f, now, false));
    assert (n.frontiers[from := f] - {from}) == n.frontiers - {from};
    assert from in n.frontiers ==> n.frontiers[from := n.frontiers[from]] - {from} == n.frontiers - {from};
  }

  // The watermark is the least frontier of the other nodes once as many as there are peers were heard, and never goes
  // back; exactly the tombstones above a watermark that moved are left.
  ghost predicate CollectedFrom(tombs: map<Key, Version>, watermark: nat, m: Node) {
    && watermark <= m.watermark
    && (m.watermark > watermark ==>
          && m.peers > 0 && |m.frontiers - {m.id}| >= m.peers
          && (forall j :: j in m.frontiers && j != m.id ==> m.watermark <= m.frontiers[j])
          && (forall k :: k in m.tombs <==> k in tombs && tombs[k].ts > m.watermark)
          && (forall k :: k in m.tombs ==> m.tombs[k] == tombs[k]))
    && (m.watermark == watermark ==> m.tombs == tombs)
    && (m.peers > 0 && |m.frontiers - {m.id}| >= m.peers ==>
          m.watermark >= U64_MAX || exists j :: j in m.frontiers && j != m.id && m.frontiers[j] <= m.watermark)
  }

  lemma CollectEffect(n: Node)
    ensures CollectedFrom(n.tombs, n.watermark, Collect(n))
    ensures Collect(n) == n.(watermark := Collect(n).watermark, tombs := Collect(n).tombs)
  {
    hide Low, CollectedFrom;
    var low := Low(n.frontiers - {n.id});
    LowFacts(n.frontiers - {n.id});
    LowOfOthers(n.frontiers, n.id, low);
    CollectedTo(n, low, Collect(n));
  }

  lemma LowOfOthers(frontiers: map<nat, nat>, id: nat, low: nat)
    requires forall j :: j in frontiers - {id} ==> low <= (frontiers - {id})[j]
    requires low == U64_MAX || exists j :: j in frontiers - {id} && (frontiers - {id})[j] <= low
    ensures forall j :: j in frontiers && j != id ==> low <= frontiers[j]
    ensures low >= U64_MAX || exists j :: j in frontiers && j != id && frontiers[j] <= low
  {
    forall j | j in frontiers && j != id
      ensures low <= frontiers[j]
    {
      assert j in frontiers - {id};
    }
  }

  lemma CollectedTo(n: Node, low: nat, m: Node)
    requires forall j :: j in n.frontiers && j != n.id ==> low <= n.frontiers[j]
    requires low >= U64_MAX || exists j :: j in n.frontiers && j != n.id && n.frontiers[j] <= low
    requires m == if n.peers == 0 || |n.frontiers - {n.id}| < n.peers || low <= n.watermark then n
                  else n.(watermark := low, tombs := Above(n.tombs, low))
    ensures CollectedFrom(n.tombs, n.watermark, m)
  {
  }

  lemma LowFacts(m: map<nat, nat>)
    ensures forall k :: k in m ==> Low(m) <= m[k]
    ensures Low(m) == U64_MAX || exists k :: k in m && m[k] <= Low(m)
  {
  }
}
