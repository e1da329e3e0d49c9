/** Nodes that have received every mutation hold, for each key, exactly the one with the greatest version. */
module Convergence {
  import opened Hlc
  import opened Node
  import opened NodeLaws
  import opened Cluster
  import opened ClusterLaws
  import opened Replication

  function AsPut(k: Key, r: Record): Op {
    Put(k, r.value, r.expireAt, r.version)
  }

  // -------- one node: its state is the newest of what it has seen --------

  ghost predicate Knows(n: Node, seen: set<Op>) {
    forall op :: op in seen ==> op.version.ts > 0 && Dominates(n, op)
  }

  ghost predicate HoldsSeen(n: Node, seen: set<Op>) {
    && (forall k :: k in n.records ==> AsPut(k, n.records[k]) in seen)
    && (forall k :: k in n.tombs ==> Del(k, n.tombs[k]) in seen)
  }

  ghost predicate OwnUnique(n: Node) {
    forall a, b :: a in Own(n) && b in Own(n) && a.key == b.key && a.version == b.version ==> a == b
  }

  ghost predicate SeenInv(n: Node, seen: set<Op>) {
    Knows(n, seen) && HoldsSeen(n, seen) && Own(n) <= seen && OwnUnique(n)
  }

  predicate DistinctKeys(cmd: Cmd) {
    cmd.Mset? ==> forall a, b :: 0 <= a < b < |cmd.pairs| ==> cmd.pairs[a].0 != cmd.pairs[b].0
  }

  ghost predicate OnePerKey(entry: Entry) {
    forall a, b :: a in entry && b in entry && a.key == b.key ==> a == b
  }

  // A step changes a key only to what it logs about it.
  ghost predicate ChangesLogged(n: Node, m: Node) {
    && n.log <= m.log && |m.log| <= |n.log| + 1
    && (forall k :: k in m.records ==>
          (k in n.records && m.records[k] == n.records[k]) ||
          (|m.log| > |n.log| && AsPut(k, m.records[k]) in m.log[|n.log|]))
    && (forall k :: k in m.tombs ==>
          (k in n.tombs && m.tombs[k] == n.tombs[k]) ||
          (|m.log| > |n.log| && Del(k, m.tombs[k]) in m.log[|n.log|]))
    && (|m.log| > |n.log| ==> OnePerKey(m.log[|n.log|]))
  }

  lemma MsetLogged(n: Node, pairs: seq<(Key, string)>, v: Version, now: int)
    requires Ok(n) && Quiet(n, now)
    requires forall a, b :: 0 <= a < b < |pairs| ==> pairs[a].0 != pairs[b].0
    ensures ChangesLogged(n, WriteAll(n, pairs, v, now).(clock := v.ts, log := n.log + [MsetEntry(pairs, v)]))
  {
    var w := WriteAll(n, pairs, v, now);
    var entry := MsetEntry(pairs, v);
    WriteAllEffect(n, pairs, v, now);
    forall k | k in w.records && InPairs(pairs, k)
      ensures AsPut(k, w.records[k]) in entry
    {
      var i :| 0 <= i < |pairs| && pairs[i].0 == k;
      WriteAllValue(n, pairs, v, now, i);
      assert entry[i] == AsPut(k, w.records[k]);
    }
    assert (n.log + [entry])[|n.log|] == entry;
  }

  lemma IssueLogged(n: Node, op: Op, now: int)
    requires Ok(n) && n.clock < op.version.ts && n.peers > 0
    ensures ChangesLogged(n, Issue(n, op, now))
  {
    assert (n.log + [[op]])[|n.log|] == [op];
  }

  lemma MergeLogged(n: Node, op: Op, now: int)
    requires Ok(n) && Quiet(n, now) && n.peers > 0
    ensures ChangesLogged(n, Exec(n, Merge(op), now, false).0)
  {
    assert (n.log + [[op]])[|n.log|] == [op];
  }

  lemma ExecLogged(n: Node, cmd: Cmd, now: int)
    requires Ok(n) && n.peers > 0 && Enabled(n, cmd, now) && DistinctKeys(cmd)
    ensures ChangesLogged(n, Exec(n, cmd, now, false).0)
  {
    match cmd
    case Set(key, value, expireAt, nx, xx) =>
      IssueLogged(n, Put(key, value, expireAt, IssuedVersion(n, key, now)), now);
    case Mset(pairs) =>
      MaxOverwrittenBound(n, pairs, now);
      MsetLogged(n, pairs, Version(Next(n.clock, now, MaxOverwritten(n, pairs, now)), n.id), now);
    case Expire(key, expireAt) =>
      if key in n.records {
        IssueLogged(n, Put(key, n.records[key].value, expireAt, IssuedVersion(n, key, now)), now);
      }
    case Remove(key) =>
      IssueLogged(n, Del(key, IssuedVersion(n, key, now)), now);
    case Merge(op) =>
      MergeLogged(n, op, now);
    case Frontier(from, f) =>
  }

  // Everything a step logs is now among what the node has seen.
  lemma LoggedSeen(n: Node, m: Node, cmd: Cmd, seen: set<Op>, op: Op)
    requires n.id == m.id && Own(n) <= seen && |m.log| == |n.log| + 1 && Appends(n, m, cmd)
    requires op in m.log[|n.log|]
    ensures op in seen + Learnt(cmd, n, m)
  {
    var entry :| m.log == n.log + [entry] && LogEntry(n, m, cmd, entry);
    if !cmd.Merge? { assert op in Own(m); }
  }

  lemma HoldsStep(n: Node, m: Node, cmd: Cmd, seen: set<Op>)
    requires n.id == m.id && Own(n) <= seen && HoldsSeen(n, seen) && ChangesLogged(n, m) && Appends(n, m, cmd)
    ensures HoldsSeen(m, seen + Learnt(cmd, n, m))
  {
    forall op | |m.log| > |n.log| && op in m.log[|n.log|]
      ensures op in seen + Learnt(cmd, n, m)
    {
      LoggedSeen(n, m, cmd, seen, op);
    }
  }

  lemma UniqueStep(n: Node, m: Node, cmd: Cmd, a: Op, b: Op)
    requires n.id == m.id && OwnDated(n) && OwnUnique(n) && ChangesLogged(n, m) && Appends(n, m, cmd)
    requires cmd.Merge? ==> cmd.op.version.node != n.id
    requires a in Own(m) && b in Own(m) && a.key == b.key && a.version == b.version
    ensures a == b
  {
    if m.log != n.log {
      var entry :| m.log == n.log + [entry] && LogEntry(n, m, cmd, entry);
      assert m.log[|n.log|] == entry;
      OwnAdded(n.log, entry, n.id, a);
      OwnAdded(n.log, entry, n.id, b);
    }
  }

  lemma KnowsStep(n: Node, m: Node, cmd: Cmd, seen: set<Op>)
    requires Grows(n, m) && Knows(n, seen) && m.watermark == 0 && NodeLaws.Step(n, m) && Appends(n, m, cmd)
    requires cmd.Merge? ==> cmd.op.version.ts > 0 && Dominates(m, cmd.op)
    ensures Knows(m, seen + Learnt(cmd, n, m))
  {
    forall op | op in Own(m) && op !in Own(n)
      ensures op.version.ts > 0 && Dominates(m, op)
    {
      if m.log != n.log {
        var entry :| m.log == n.log + [entry] && LogEntry(n, m, cmd, entry);
        OwnAdded(n.log, entry, n.id, op);
        assert m.log[|n.log|] == entry && NewIn(n, m, op);
      }
    }
  }

  lemma OwnSeen(n: Node, m: Node, cmd: Cmd, seen: set<Op>)
    requires n.id == m.id && Own(n) <= seen && Appends(n, m, cmd)
    requires cmd.Merge? ==> cmd.op.version.node != n.id
    ensures Own(m) <= seen + Learnt(cmd, n, m)
  {
    forall op | op in Own(m)
      ensures op in seen + Learnt(cmd, n, m)
    {
      if cmd.Merge? && m.log != n.log {
        var entry :| m.log == n.log + [entry] && LogEntry(n, m, cmd, entry);
        OwnAdded(n.log, entry, n.id, op);
      }
    }
  }

  lemma SeenStep(n: Node, seen: set<Op>, cmd: Cmd, now: int, id: nat, size: nat)
    requires NodeInv(n, id, size) && SeenInv(n, seen) && Enabled(n, cmd, now) && DistinctKeys(cmd)
    requires cmd.Merge? ==> cmd.op.version.node != id && cmd.op.version.ts > 0
    ensures var m := Exec(n, cmd, now, false).0; SeenInv(m, seen + Learnt(cmd, n, m))
  {
    var m := Exec(n, cmd, now, false).0;
    ExecGrows(n, cmd, now, id, size);
    ExecStep(n, cmd, now, false);
    ExecAppends(n, cmd, now);
    ExecLogged(n, cmd, now);
    if cmd.Merge? { MergeDominates(n, cmd.op, now); }
    KnowsStep(n, m, cmd, seen);
    HoldsStep(n, m, cmd, seen);
    OwnSeen(n, m, cmd, seen);
    forall a, b | a in Own(m) && b in Own(m) && a.key == b.key && a.version == b.version
      ensures a == b
    {
      UniqueStep(n, m, cmd, a, b);
    }
  }

  // -------- the cluster --------

  // A mutation some node issued.
  ghost predicate IsOp(nodes: seq<Node>, op: Op) {
    op.version.node < |nodes| && op in Own(nodes[op.version.node])
  }

  ghost predicate SeenReal(nodes: seq<Node>, seen: set<Op>) {
    forall op :: op in seen ==> IsOp(nodes, op)
  }

  ghost predicate ConvInv(s: Cluster) {
    |s.seen| == |s.nodes| && forall j :: 0 <= j < |s.nodes| ==> ConvNode(s.nodes, s.seen[j], j)
  }

  ghost predicate ConvNode(nodes: seq<Node>, seen: set<Op>, j: nat)
    requires j < |nodes|
  {
    SeenInv(nodes[j], seen) && SeenReal(nodes, seen)
  }

  predicate Distinct(a: Action) {
    a.Client? ==> DistinctKeys(a.cmd)
  }

  lemma RealGrows(nodes: seq<Node>, i: nat, m: Node, op: Op)
    requires i < |nodes| && Grows(nodes[i], m) && IsOp(nodes, op)
    ensures IsOp(nodes[i := m], op)
  {
    OwnPrefix(nodes[i].log, m.log, m.id);
  }

  lemma RealReplace(nodes: seq<Node>, i: nat, m: Node, seen: set<Op>)
    requires i < |nodes| && Grows(nodes[i], m) && SeenReal(nodes, seen)
    ensures SeenReal(nodes[i := m], seen)
  {
    forall op | op in seen
      ensures IsOp(nodes[i := m], op)
    {
      RealGrows(nodes, i, m, op);
    }
  }

  lemma OtherConv(nodes: seq<Node>, i: nat, m: Node, seen: set<Op>, j: nat)
    requires i < |nodes| && j < |nodes| && j != i && Grows(nodes[i], m) && ConvNode(nodes, seen, j)
    ensures ConvNode(nodes[i := m], seen, j)
  {
    RealReplace(nodes, i, m, seen);
  }

  lemma SelfConv(nodes: seq<Node>, i: nat, m: Node, seen: set<Op>, learnt: set<Op>)
    requires i < |nodes| && Grows(nodes[i], m) && SeenReal(nodes, seen)
    requires SeenInv(m, seen + learnt) && SeenReal(nodes[i := m], learnt)
    ensures ConvNode(nodes[i := m], seen + learnt, i)
  {
    RealReplace(nodes, i, m, seen);
  }

  lemma LearntReal(nodes: seq<Node>, i: nat, cmd: Cmd, m: Node)
    requires i < |nodes| && nodes[i].id == i && Grows(nodes[i], m)
    requires cmd.Merge? ==> IsOp(nodes, cmd.op)
    ensures SeenReal(nodes[i := m], Learnt(cmd, nodes[i], m))
  {
    if cmd.Merge? { RealGrows(nodes, i, m, cmd.op); }
  }

  lemma ConvAt(s: Cluster, i: nat, cmd: Cmd, now: int)
    requires Inv(s) && ConvInv(s) && i < |s.nodes| && Enabled(s.nodes[i], cmd, now) && Admissible(s.nodes, i, cmd)
    requires DistinctKeys(cmd)
    requires cmd.Merge? ==> IsOp(s.nodes, cmd.op)
    ensures ConvInv(AtNode(s, i, cmd, now, false))
  {
    var n := s.nodes[i];
    var m := Exec(n, cmd, now, false).0;
    assert NodeInv(n, i, |s.nodes|) && ConvNode(s.nodes, s.seen[i], i);
    if cmd.Merge? { assert NodeInv(s.nodes[cmd.op.version.node], cmd.op.version.node, |s.nodes|); }
    ExecGrows(n, cmd, now, i, |s.nodes|);
    SeenStep(n, s.seen[i], cmd, now, i, |s.nodes|);
    LearntReal(s.nodes, i, cmd, m);
    SelfConv(s.nodes, i, m, s.seen[i], Learnt(cmd, n, m));
    forall j | 0 <= j < |s.nodes| && j != i
      ensures ConvNode(s.nodes[i := m], s.seen[j], j)
    {
      OtherConv(s.nodes, i, m, s.seen[j], j);
    }
  }

  lemma ConvStep(s: Cluster, a: Action)
    requires Inv(s) && ConvInv(s) && CanStep(s, a) && Distinct(a)
    ensures ConvInv(Advance(s, a, {}))
  {
    match a
    case Client(at, cmd, now) => ConvAt(s, at, cmd, now);
    case Receive(c, now) =>
      HeadAdmissible(s, c);
      HeadOp(s, c);
      ConvAt(s, s.conns[c].to, s.conns[c].queue[0], now);
    case _ =>
  }

  lemma {:induction false} ConvRun(s: Cluster, run: seq<Action>)
    requires Inv(s) && ConvInv(s) && CanRun(s, run, {}) && (forall i :: 0 <= i < |run| ==> Distinct(run[i]))
    ensures Inv(Final(s, run, {})) && ConvInv(Final(s, run, {}))
    decreases |run|
  {
    if run != [] {
      ConvStep(s, run[0]);
      NextInv(s, run[0]);
      ConvRun(Advance(s, run[0], {}), run[1..]);
    }
  }

  lemma StartConv(nows: seq<int>)
    requires |nows| >= 2
    ensures ConvInv(Start(nows))
  {
  }

  // -------- convergence --------

  // Every mutation issued anywhere has reached every node.
  ghost predicate AllDelivered(s: Cluster) {
    forall op, j :: 0 <= j < |s.seen| && IsOp(s.nodes, op) ==> op in s.seen[j]
  }

  // The mutation of its key with the greatest (timestamp, node) of all.
  ghost predicate Greatest(nodes: seq<Node>, g: Op) {
    IsOp(nodes, g) && forall o :: IsOp(nodes, o) && o.key == g.key ==> o.version.AtMost(g.version)
  }

  lemma SameVersion(s: Cluster, a: Op, b: Op)
    requires ConvInv(s) && IsOp(s.nodes, a) && IsOp(s.nodes, b) && a.key == b.key && a.version == b.version
    ensures a == b
  {
    assert ConvNode(s.nodes, s.seen[a.version.node], a.version.node);
  }

  // What the node holds for the key of a mutation it knows: the record, or the tombstone.
  ghost predicate Holds(n: Node, held: Op) {
    || (held.key in n.records && held == AsPut(held.key, n.records[held.key]))
    || (held.key in n.tombs && held == Del(held.key, n.tombs[held.key]))
  }

  lemma HeldDominates(n: Node, held: Op, o: Op)
    requires Disjoint(n) && Holds(n, held) && o.key == held.key && Dominates(n, o)
    ensures o.version.AtMost(held.version)
  {
  }

  // What a node holds for a key is the greatest mutation of that key.
  lemma HeldIsGreatest(s: Cluster, j: nat, held: Op)
    requires ConvInv(s) && AllDelivered(s) && j < |s.nodes| && Disjoint(s.nodes[j]) && Holds(s.nodes[j], held)
    ensures Greatest(s.nodes, held)
  {
    var n := s.nodes[j];
    assert ConvNode(s.nodes, s.seen[j], j);
    assert held in s.seen[j];
    forall o | IsOp(s.nodes, o) && o.key == held.key
      ensures o.version.AtMost(held.version)
    {
      assert o in s.seen[j];
      HeldDominates(n, held, o);
    }
  }

  lemma HoldsSomething(n: Node, g: Op) returns (held: Op)
    requires Disjoint(n) && Dominates(n, g)
    ensures Holds(n, held) && held.key == g.key && (held.Put? <==> g.key in n.records)
  {
    held := if g.key in n.records then AsPut(g.key, n.records[g.key]) else Del(g.key, n.tombs[g.key]);
  }

  ghost predicate Shows(n: Node, g: Op) {
    if g.Put? then g.key in n.records && AsPut(g.key, n.records[g.key]) == g
    else g.key !in n.records
  }

  lemma AtMostBoth(a: Version, b: Version)
    requires a.AtMost(b) && b.AtMost(a)
    ensures a == b
  {
  }

  lemma GreatestIsHeld(s: Cluster, j: nat, g: Op)
    requires ConvInv(s) && AllDelivered(s) && j < |s.nodes| && Disjoint(s.nodes[j]) && Greatest(s.nodes, g)
    ensures Shows(s.nodes[j], g)
  {
    assert g in s.seen[j];
    assert ConvNode(s.nodes, s.seen[j], j);
    var held := HoldsSomething(s.nodes[j], g);
    HeldIsGreatest(s, j, held);
    AtMostBoth(held.version, g.version);
    SameVersion(s, held, g);
  }

  // Convergence. For any interleaving, any losses and any repeated deliveries, and whichever nodes forget tombstones,
  // once every node has received every mutation: a record shown anywhere is the greatest mutation of its key, the
  // greatest mutation of a key is what every node shows (a delete by the key's absence), and all nodes agree.
  lemma Converges(nows: seq<int>, run: seq<Action>, forgetful: set<nat>)
    requires |nows| >= 2 && CanRun(Start(nows), run, forgetful)
    requires forall i :: 0 <= i < |run| ==> Distinct(run[i])
    requires AllDelivered(Final(Start(nows), run, forgetful))
    ensures var r := Final(Start(nows), run, forgetful);
            && (forall j, g :: 0 <= j < |r.nodes| && Greatest(r.nodes, g) ==>
                  Shows(r.nodes[j], g))
            && (forall j, k :: 0 <= j < |r.nodes| && k in r.nodes[j].records ==>
                  Greatest(r.nodes, AsPut(k, r.nodes[j].records[k])))
            && (forall i, j :: 0 <= i < |r.nodes| && 0 <= j < |r.nodes| ==> r.nodes[i].records == r.nodes[j].records)
  {
    StartInv(nows);
    StartAlike(nows);
    StartConv(nows);
    AlikeRun(Start(nows), Start(nows), run, forgetful);
    ConvRun(Start(nows), run);
    var r, s := Final(Start(nows), run, forgetful), Final(Start(nows), run, {});
    SameOps(r, s);
    AgreeAll(s);
    SameShown(r, s);
  }

  lemma SameOps(r: Cluster, s: Cluster)
    requires Alike(r, s)
    ensures forall op :: IsOp(r.nodes, op) <==> IsOp(s.nodes, op)
    ensures forall g :: Greatest(r.nodes, g) <==> Greatest(s.nodes, g)
    ensures AllDelivered(r) <==> AllDelivered(s)
  {
    forall op ensures IsOp(r.nodes, op) <==> IsOp(s.nodes, op) {
      if op.version.node < |s.nodes| {
        assert Own(r.nodes[op.version.node]) == Own(s.nodes[op.version.node]);
      }
    }
  }

  lemma SameShown(r: Cluster, s: Cluster)
    requires Alike(r, s)
    ensures |r.nodes| == |s.nodes| && forall j :: 0 <= j < |r.nodes| ==> r.nodes[j].records == s.nodes[j].records
  {
    forall j | 0 <= j < |r.nodes|
      ensures r.nodes[j].records == s.nodes[j].records
    {
      assert Forgetting.Coupled(r.nodes[j], s.nodes[j]);
    }
  }

  lemma AgreeAll(s: Cluster)
    requires Inv(s) && ConvInv(s) && AllDelivered(s)
    ensures forall j, g :: 0 <= j < |s.nodes| && Greatest(s.nodes, g) ==>
              Shows(s.nodes[j], g)
    ensures forall j, k :: 0 <= j < |s.nodes| && k in s.nodes[j].records ==>
              Greatest(s.nodes, AsPut(k, s.nodes[j].records[k]))
    ensures forall i, j :: 0 <= i < |s.nodes| && 0 <= j < |s.nodes| ==> s.nodes[i].records == s.nodes[j].records
  {
    forall j, g | 0 <= j < |s.nodes| && Greatest(s.nodes, g)
      ensures Shows(s.nodes[j], g)
    {
      assert NodeInv(s.nodes[j], j, |s.nodes|);
      GreatestIsHeld(s, j, g);
    }
    forall j, k | 0 <= j < |s.nodes| && k in s.nodes[j].records
      ensures Greatest(s.nodes, AsPut(k, s.nodes[j].records[k]))
    {
      assert NodeInv(s.nodes[j], j, |s.nodes|);
      HeldIsGreatest(s, j, AsPut(k, s.nodes[j].records[k]));
    }
    forall i, j, k | 0 <= i < |s.nodes| && 0 <= j < |s.nodes| && k in s.nodes[i].records
      ensures k in s.nodes[j].records && s.nodes[j].records[k] == s.nodes[i].records[k]
    {
      Agree(s, i, j, k);
    }
  }

  lemma Agree(s: Cluster, i: nat, j: nat, k: Key)
    requires Inv(s) && ConvInv(s) && AllDelivered(s) && i < |s.nodes| && j < |s.nodes| && k in s.nodes[i].records
    ensures k in s.nodes[j].records && s.nodes[j].records[k] == s.nodes[i].records[k]
  {
    var g := AsPut(k, s.nodes[i].records[k]);
    assert NodeInv(s.nodes[i], i, |s.nodes|) && NodeInv(s.nodes[j], j, |s.nodes|);
    HeldIsGreatest(s, i, g);
    GreatestIsHeld(s, j, g);
  }
}
