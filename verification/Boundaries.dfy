/** A frontier heard ahead of the writes it vouches for: exactly which writes it makes a node ignore. */
module Boundaries {
  import opened Ints
  import opened Hlc
  import opened Node
  import opened Cluster

  // The frontiers of the other nodes, once this one is heard.
  function OthersHeard(n: Node, from: nat, f: nat): map<nat, nat> {
    var known := if from in n.frontiers then Max(n.frontiers[from], f) else f;
    n.frontiers[from := known] - {n.id}
  }

  // The watermark after it.
  ghost function WatermarkAfter(n: Node, from: nat, f: nat): nat {
    var others := OthersHeard(n, from, f);
    if n.peers == 0 || |others| < n.peers then n.watermark else Max(n.watermark, Low(others))
  }

  // A node hears a frontier, and then a write, whatever it stores for the key: the write is ignored exactly when it is at
  // or under the record found; or, with none found, the tombstone, if that outlives the frontier; or else the watermark,
  // which is the least frontier of the others once all peers were heard.
  lemma LateWriteIgnoredIff(n: Node, from: nat, f: nat, op: Op, heardAt: int, now: int)
    ensures var heard := Exec(n, Frontier(from, f), heardAt, true).0;
            var mark := WatermarkAfter(n, from, f);
            Exec(heard, Merge(op), now, true).1.Ignored? <==>
            match Find(n, op.key, now)
            case Some(r) => op.version.AtMost(r.version)
            case None =>
              if op.key in n.tombs && (mark == n.watermark || n.tombs[op.key].ts > mark)
              then op.version.AtMost(n.tombs[op.key])
              else op.version.ts <= mark
  {
    hide Low, Apply;
  }

  // -------- the failing input --------

  // A batch of a write and its closing frontier, of which the peer refuses the write.
  lemma RefusedWriteIsLost(k: Key, value: string, g: nat, now: int)
    requires 0x8000_0000 <= now < 0x8000_0000_0000
    ensures var a := Exec(Exec(Fresh(0, 1, now), Set(k, value, 0, false, false), now, true).0, Frontier(1, g), now, true).0;
            var batch := ShippedAll(a.log, 0) + [Frontier(0, a.frontier)];
            && |batch| == 2 && batch[0].Merge? && k in a.records
            && var b := Exec(Fresh(1, 1, now), batch[1], now, true).0; // the first command was refused
               Exec(b, batch[0], now, true).1.Ignored? && k !in Exec(b, batch[0], now, true).0.records
  {
    hide Exec, ShippedAll, WatermarkAfter, Fresh;
    var a1 := Exec(Fresh(0, 1, now), Set(k, value, 0, false, false), now, true).0;
    var op := Put(k, value, 0, Version(now * 0x1_0000 + 1, 0));
    WroteOnce(k, value, now);
    var a := Exec(a1, Frontier(1, g), now, true).0;
    HeardOnce(a1, g, now);
    ShippedOne(op);
    var b0 := Fresh(1, 1, now);
    FreshNode(now);
    LateWriteIgnoredIff(b0, 0, a.frontier, op, now, now);
    LowOfOne(b0, a.frontier);
    var b := Exec(b0, Frontier(0, a.frontier), now, true).0;
    HearKeepsRecords(b0, 0, a.frontier, now);
    IgnoredKeeps(b, op, now);
  }

  lemma FreshNode(now: int)
    ensures var n := Fresh(1, 1, now);
            n.frontiers == map[] && n.id == 1 && n.peers == 1 && n.watermark == 0 && n.records == map[] && n.tombs == map[]
  {
  }

  lemma WroteOnce(k: Key, value: string, now: int)
    requires 0x8000_0000 <= now < 0x8000_0000_0000
    ensures var a := Exec(Fresh(0, 1, now), Set(k, value, 0, false, false), now, true).0;
            var op := Put(k, value, 0, Version(now * 0x1_0000 + 1, 0));
            a.log == [[op]] && k in a.records && a.clock == op.version.ts && a.id == 0 && a.peers == 1
  {
  }

  lemma HeardOnce(n: Node, g: nat, now: int)
    requires n.clock < 0x8000_0000_0000_0000
    ensures var m := Exec(n, Frontier(1, g), now, true).0;
            m.log == n.log && m.records == n.records && m.frontier > n.clock
  {
    hide Low;
  }

  lemma HearKeepsRecords(n: Node, from: nat, f: nat, now: int)
    ensures Exec(n, Frontier(from, f), now, true).0.records == n.records
  {
    hide Low;
  }

  lemma ShippedOne(op: Op)
    requires op.version.node == 0
    ensures ShippedAll([[op]], 0) == [Merge(op)]
  {
    assert [[op]][1..] == [] && [op][1..] == [];
    assert Shipped([op], 0) == [Merge(op)] + Shipped([], 0);
    assert ShippedAll([[op]], 0) == Shipped([op], 0) + ShippedAll([], 0);
  }

  lemma LowOfOne(n: Node, f: nat)
    requires n.frontiers == map[] && n.id == 1 && n.peers == 1 && n.watermark == 0
    ensures WatermarkAfter(n, 0, f) >= if f <= U64_MAX then f else U64_MAX
  {
    var others := OthersHeard(n, 0, f);
    assert others == map[0 := f] && |others| == 1;
  }

  lemma IgnoredKeeps(n: Node, op: Op, now: int)
    requires Exec(n, Merge(op), now, true).1.Ignored? && op.key !in n.records
    ensures op.key !in Exec(n, Merge(op), now, true).0.records
  {
  }
}
