/** The two theorems of replication: forgetting tombstones is unobservable, and delivered nodes converge. */
module Replication {
  import opened Hlc
  import opened Node
  import opened NodeLaws
  import opened Forgetting
  import opened Cluster
  import opened ClusterLaws

  // -------- forgetting --------

  // A watermark rises only to what every peer has promised.
  ghost predicate WatermarkBacked(n: Node, size: nat) {
    n.watermark == 0 ||
    forall i :: 0 <= i < size && i != n.id ==> i in n.frontiers && n.watermark <= n.frontiers[i]
  }

  // r is the cluster as it runs; s is the same cluster had no node forgotten anything.
  ghost predicate Alike(r: Cluster, s: Cluster) {
    && r == s.(nodes := r.nodes)
    && |r.nodes| == |s.nodes|
    && (forall i :: 0 <= i < |s.nodes| ==> Coupled(r.nodes[i], s.nodes[i]) && WatermarkBacked(r.nodes[i], |s.nodes|))
  }

  lemma {:induction false} SizeBelow(s: set<nat>, n: nat)
    requires forall x :: x in s ==> x < n
    ensures |s| <= n
  {
    if n > 0 {
      SizeBelow(s - {n - 1}, n - 1);
    }
  }

  // As many distinct peers as there are other nodes means all of them.
  lemma PeersHeard(heard: set<nat>, id: nat, size: nat, i: nat)
    requires id < size && |heard| >= size - 1 && i < size && i != id
    requires forall x :: x in heard ==> x < size && x != id
    ensures i in heard
  {
    if i !in heard {
      assert |heard + {i, id}| == |heard| + 2;
      SizeBelow(heard + {i, id}, size);
    }
  }

  lemma CollectBacked(n: Node, size: nat)
    requires n.id < size && n.peers == size - 1 && WatermarkBacked(n, size)
    requires forall i :: i in n.frontiers ==> i < size && i != n.id
    ensures WatermarkBacked(Collect(n), size)
  {
    var others := n.frontiers - {n.id};
    assert others == n.frontiers;
    if Collect(n) != n {
      forall i | 0 <= i < size && i != n.id
        ensures i in n.frontiers && Low(others) <= n.frontiers[i]
      {
        assert |others.Keys| == |others|;
        PeersHeard(others.Keys, n.id, size, i);
      }
    }
  }

  lemma ExecBacked(n: Node, cmd: Cmd, now: int, forget: bool, size: nat)
    requires n.id < size && n.peers == size - 1 && WatermarkBacked(n, size)
    requires Ok(n) && Enabled(n, cmd, now)
    requires forall i :: i in n.frontiers ==> i < size && i != n.id
    requires cmd.Frontier? ==> cmd.from < size && cmd.from != n.id
    ensures WatermarkBacked(Exec(n, cmd, now, forget).0, size)
  {
    hide Low, Above, MaxOverwritten, Stale;
    if cmd.Frontier? {
      var h := Hear(n, cmd.from, cmd.f, now, false);
      CollectBacked(h, size);
    } else if cmd.Mset? {
      WriteAllEffect(n, cmd.pairs, Version(Next(n.clock, now, MaxOverwritten(n, cmd.pairs, now)), n.id), now);
    }
  }

  // A merge under a backed watermark was delivered before.
  lemma UnderWatermark(s: Cluster, w: Node, j: nat, op: Op)
    requires Inv(s) && j < |s.nodes| && op.version.node < |s.nodes| && op.version.node != j
    requires op in Own(s.nodes[op.version.node])
    requires w.id == j && w.frontiers == s.nodes[j].frontiers && WatermarkBacked(w, |s.nodes|)
    requires op.version.ts <= w.watermark
    ensures Dominates(s.nodes[j], op)
  {
    var i := op.version.node;
    assert NodeInv(s.nodes[i], i, |s.nodes|);
    assert HeardInv(s.nodes, j);
    assert FrontierSound(s.nodes[i], s.nodes[j], s.nodes[j].frontiers[i], []);
  }

  // A command executed at node i of both clusters.
  lemma AlikeAt(r: Cluster, s: Cluster, i: nat, cmd: Cmd, now: int, forget: bool)
    requires Inv(s) && Alike(r, s) && i < |s.nodes| && Enabled(s.nodes[i], cmd, now) && Admissible(s.nodes, i, cmd)
    requires cmd.Merge? ==> cmd.op.version.node < |s.nodes| && cmd.op in Own(s.nodes[cmd.op.version.node])
    ensures Exec(r.nodes[i], cmd, now, forget).1 == Exec(s.nodes[i], cmd, now, false).1
    ensures Coupled(Exec(r.nodes[i], cmd, now, forget).0, Exec(s.nodes[i], cmd, now, false).0)
    ensures WatermarkBacked(Exec(r.nodes[i], cmd, now, forget).0, |s.nodes|)
  {
    assert NodeInv(s.nodes[i], i, |s.nodes|);
    if cmd.Merge? {
      assert NodeInv(s.nodes[cmd.op.version.node], cmd.op.version.node, |s.nodes|);
      if cmd.op.version.ts <= r.nodes[i].watermark {
        UnderWatermark(s, r.nodes[i], i, cmd.op);
      }
    }
    CoupledExec(r.nodes[i], s.nodes[i], cmd, now, forget);
    assert HeardInv(s.nodes, i);
    CoupledOk(r.nodes[i], s.nodes[i]);
    ExecBacked(r.nodes[i], cmd, now, forget, |s.nodes|);
  }

  lemma CoupledOk(r: Node, s: Node)
    requires Coupled(r, s) && Ok(s)
    ensures Ok(r)
  {
  }

  lemma AlikeReplace(r: Cluster, s: Cluster, i: nat, rm: Node, sm: Node, known: set<Op>, conns: seq<Conn>)
    requires Alike(r, s) && |s.seen| == |s.nodes| && i < |s.nodes|
    requires Coupled(rm, sm) && WatermarkBacked(rm, |s.nodes|)
    ensures Alike(r.(nodes := r.nodes[i := rm], seen := r.seen[i := known], conns := conns),
                  s.(nodes := s.nodes[i := sm], seen := s.seen[i := known], conns := conns))
  {
  }

  // The message at the head of a queue, seen as a command of the receiving node.
  lemma HeadOp(s: Cluster, c: nat)
    requires Inv(s) && c < |s.conns| && s.conns[c].alive && s.conns[c].queue != []
    ensures var cmd := s.conns[c].queue[0];
            cmd.Merge? ==> cmd.op.version.node < |s.nodes| && cmd.op in Own(s.nodes[cmd.op.version.node])
  {
    HeadAdmissible(s, c);
    assert NodeInv(s.nodes[s.conns[c].from], s.conns[c].from, |s.nodes|);
  }

  lemma AlikeClient(r: Cluster, s: Cluster, at: nat, cmd: Cmd, now: int, forgetful: set<nat>)
    requires Inv(s) && Alike(r, s) && CanStep(r, Client(at, cmd, now))
    ensures CanStep(s, Client(at, cmd, now))
    ensures Observed(r, Client(at, cmd, now), forgetful) == Observed(s, Client(at, cmd, now), {})
    ensures Alike(Advance(r, Client(at, cmd, now), forgetful), Advance(s, Client(at, cmd, now), {}))
  {
    AlikeAt(r, s, at, cmd, now, at in forgetful);
    var rm, sm := Exec(r.nodes[at], cmd, now, at in forgetful).0, Exec(s.nodes[at], cmd, now, false).0;
    AlikeReplace(r, s, at, rm, sm, s.seen[at] + Learnt(cmd, s.nodes[at], sm), s.conns);
  }

  lemma AlikeReceive(r: Cluster, s: Cluster, c: nat, now: int, forgetful: set<nat>)
    requires Inv(s) && Alike(r, s) && CanStep(r, Receive(c, now))
    ensures CanStep(s, Receive(c, now))
    ensures Observed(r, Receive(c, now), forgetful) == Observed(s, Receive(c, now), {})
    ensures Alike(Advance(r, Receive(c, now), forgetful), Advance(s, Receive(c, now), {}))
  {
    var to, cmd := s.conns[c].to, s.conns[c].queue[0];
    HeadAdmissible(s, c);
    HeadOp(s, c);
    AlikeAt(r, s, to, cmd, now, to in forgetful);
    var rm, sm := Exec(r.nodes[to], cmd, now, to in forgetful).0, Exec(s.nodes[to], cmd, now, false).0;
    AlikeReplace(r, s, to, rm, sm, s.seen[to] + Learnt(cmd, s.nodes[to], sm),
                 s.conns[c := s.conns[c].(queue := s.conns[c].queue[1..])]);
  }

  lemma AlikeStep(r: Cluster, s: Cluster, a: Action, forgetful: set<nat>)
    requires Inv(s) && Alike(r, s) && |r.seen| == |r.nodes| && CanStep(r, a)
    ensures CanStep(s, a)
    ensures Observed(r, a, forgetful) == Observed(s, a, {})
    ensures Alike(Advance(r, a, forgetful), Advance(s, a, {}))
  {
    hide Exec, Inv, WatermarkBacked;
    match a
    case Client(at, cmd, now) => AlikeClient(r, s, at, cmd, now, forgetful);
    case Receive(c, now) => AlikeReceive(r, s, c, now, forgetful);
    case LoadFrontier(l) =>
      assert Coupled(r.nodes[l.from], s.nodes[l.from]);
    case ReadLog(l, upto) =>
      assert Coupled(r.nodes[l.from], s.nodes[l.from]);
    case Acknowledge(c) =>
    case Lose(c) =>
    case Rewind(l) =>
  }

  lemma {:induction false} AlikeRun(r: Cluster, s: Cluster, run: seq<Action>, forgetful: set<nat>)
    requires Inv(s) && Alike(r, s) && |r.seen| == |r.nodes| && CanRun(r, run, forgetful)
    ensures CanRun(s, run, {})
    ensures Trace(r, run, forgetful) == Trace(s, run, {})
    ensures Alike(Final(r, run, forgetful), Final(s, run, {})) && Inv(Final(s, run, {}))
    decreases |run|
  {
    if run != [] {
      AlikeStep(r, s, run[0], forgetful);
      NextInv(s, run[0]);
      AlikeRun(Advance(r, run[0], forgetful), Advance(s, run[0], {}), run[1..], forgetful);
    }
  }

  lemma StartAlike(nows: seq<int>)
    requires |nows| >= 2
    ensures Alike(Start(nows), Start(nows))
  {
    var s := Start(nows);
    forall i | 0 <= i < |s.nodes|
      ensures Coupled(s.nodes[i], s.nodes[i])
    {
      assert Above(s.nodes[i].tombs, 0) == s.nodes[i].tombs;
    }
  }

  // Tombstone collection is safe. Whatever the interleaving, the losses and the repeated deliveries, and whichever
  // nodes collect, the same run is possible without any collection; every reply agrees (each version issued, each
  // accepted or ignored merge); and at the end every node shows the same records and has written the same log.
  lemma ForgettingIsUnobservable(nows: seq<int>, run: seq<Action>, forgetful: set<nat>)
    requires |nows| >= 2 && CanRun(Start(nows), run, forgetful)
    ensures CanRun(Start(nows), run, {})
    ensures Trace(Start(nows), run, forgetful) == Trace(Start(nows), run, {})
    ensures var r, s := Final(Start(nows), run, forgetful), Final(Start(nows), run, {});
            |r.nodes| == |s.nodes| == |nows| &&
            forall i :: 0 <= i < |nows| ==>
              && r.nodes[i].records == s.nodes[i].records
              && r.nodes[i].clock == s.nodes[i].clock
              && r.nodes[i].log == s.nodes[i].log
              && r.nodes[i].tombs == Above(s.nodes[i].tombs, r.nodes[i].watermark)
  {
    StartInv(nows);
    StartAlike(nows);
    AlikeRun(Start(nows), Start(nows), run, forgetful);
    FinalSize(Start(nows), run, {});
  }

  lemma {:induction false} FinalSize(s: Cluster, run: seq<Action>, forgetful: set<nat>)
    requires |s.seen| == |s.nodes| && CanRun(s, run, forgetful)
    ensures |Final(s, run, forgetful).nodes| == |s.nodes|
    decreases |run|
  {
    if run != [] { FinalSize(Advance(s, run[0], forgetful), run[1..], forgetful); }
  }
}
