/** From every reachable state the cluster can deliver everything, and then all nodes agree. */
module Delivery {
  import opened Ints
  import opened Node
  import opened NodeLaws
  import opened Cluster
  import opened ClusterLaws
  import opened Replication
  import opened Convergence

  // -------- delivering leaves every node's own mutations alone --------

  ghost predicate Fit(s: Cluster) {
    && |s.seen| == |s.nodes|
    && forall i :: 0 <= i < |s.nodes| ==> s.nodes[i].id == i && forall op :: op in Own(s.nodes[i]) ==> op.version.ts <= U64_MAX
  }

  ghost predicate Later(s: Cluster, t: Cluster) {
    && |t.nodes| == |s.nodes| && |t.seen| == |s.seen|
    && (forall i :: 0 <= i < |s.nodes| ==> t.nodes[i].id == s.nodes[i].id && Own(t.nodes[i]) == Own(s.nodes[i]))
    && (forall i :: 0 <= i < |s.seen| ==> s.seen[i] <= t.seen[i])
  }

  lemma LaterTrans(r: Cluster, s: Cluster, t: Cluster)
    requires Later(r, s) && Later(s, t)
    ensures Later(r, t)
  {
  }

  lemma LaterFit(s: Cluster, t: Cluster)
    requires Fit(s) && Later(s, t)
    ensures Fit(t)
  {
  }

  lemma {:induction false} RunConcat(s: Cluster, a: seq<Action>, b: seq<Action>, forgetful: set<nat>)
    requires |s.seen| == |s.nodes| && CanRun(s, a, forgetful)
    requires var t := Final(s, a, forgetful); |t.seen| == |t.nodes| && CanRun(t, b, forgetful)
    ensures CanRun(s, a + b, forgetful) && Final(s, a + b, forgetful) == Final(Final(s, a, forgetful), b, forgetful)
    decreases |a|
  {
    hide CanStep, Advance;
    if a == [] {
      assert a + b == b;
    } else {
      RunConcat(Advance(s, a[0], forgetful), a[1..], b, forgetful);
      assert (a + b)[1..] == a[1..] + b;
    }
  }

  // No client acts.
  predicate Silent(run: seq<Action>) {
    forall i :: 0 <= i < |run| ==> !run[i].Client?
  }

  // A merge from another node is always enabled at a time before every deadline, and adds nothing of the node's own.
  lemma MergeOwn(n: Node, op: Op, forget: bool)
    requires op.version.node != n.id && op.version.ts <= U64_MAX
    ensures Enabled(n, Merge(op), 0)
    ensures var m := Exec(n, Merge(op), 0, forget).0; m.id == n.id && Own(m) == Own(n)
  {
    hide Apply;
    var m := Exec(n, Merge(op), 0, forget).0;
    MergeLog(n, op, forget);
    if m.log != n.log {
      OwnPrefix(n.log, m.log, n.id);
      forall x | x in OwnIn(m.log, n.id)
        ensures x in OwnIn(n.log, n.id)
      {
        OwnAdded(n.log, [op], n.id, x);
      }
    }
  }

  lemma MergeLog(n: Node, op: Op, forget: bool)
    ensures var m := Exec(n, Merge(op), 0, forget).0; m.id == n.id && (m.log == n.log || m.log == n.log + [[op]])
  {
  }

  // The next command of a batch is received.
  lemma ReceiveOne(s: Cluster, c: nat, forgetful: set<nat>)
    requires Fit(s) && c < |s.conns| && s.conns[c].alive && s.conns[c].queue != []
    requires var conn := s.conns[c];
             && conn.from < |s.nodes| && conn.to < |s.nodes| && conn.from != conn.to
             && conn.queue[0].Merge? && conn.queue[0].op in Own(s.nodes[conn.from])
    ensures CanStep(s, Receive(c, 0))
    ensures var t := Advance(s, Receive(c, 0), forgetful);
            && Later(s, t) && s.conns[c].queue[0].op in t.seen[s.conns[c].to]
            && |t.conns| == |s.conns| && t.conns[c] == s.conns[c].(queue := s.conns[c].queue[1..])
  {
    hide Exec;
    var conn := s.conns[c];
    MergeOwn(s.nodes[conn.to], conn.queue[0].op, conn.to in forgetful);
  }

  lemma {:induction false} ReceiveMany(s: Cluster, c: nat, m: nat, forgetful: set<nat>) returns (run: seq<Action>)
    requires Fit(s) && c < |s.conns| && s.conns[c].alive && m <= |s.conns[c].queue|
    requires var conn := s.conns[c];
             && conn.from < |s.nodes| && conn.to < |s.nodes| && conn.from != conn.to
             && forall p :: 0 <= p < m ==> conn.queue[p].Merge? && conn.queue[p].op in Own(s.nodes[conn.from])
    ensures Silent(run) && CanRun(s, run, forgetful)
    ensures var t := Final(s, run, forgetful);
            Later(s, t) && forall p :: 0 <= p < m ==> s.conns[c].queue[p].op in t.seen[s.conns[c].to]
    decreases m
  {
    hide CanStep, Advance, Own, Fit;
    if m == 0 {
      run := [];
      return;
    }
    ReceiveFits(s, c);
    ReceiveOne(s, c, forgetful);
    var t := Advance(s, Receive(c, 0), forgetful);
    LaterFit(s, t);
    var queue := s.conns[c].queue;
    var rest := ReceiveMany(t, c, m - 1, forgetful);
    run := [Receive(c, 0)] + rest;
    assert run[1..] == rest;
    var u := Final(t, rest, forgetful);
    LaterTrans(s, t, u);
    forall p | 0 <= p < m
      ensures queue[p].op in u.seen[s.conns[c].to]
    {
      if p > 0 { assert queue[p] == t.conns[c].queue[p - 1]; }
    }
  }

  lemma ReceiveFits(s: Cluster, c: nat)
    requires Fit(s)
    ensures |s.seen| == |s.nodes|
  {
  }

  // -------- one link, all links --------

  // The sender starts over: it loads its frontier, reads its whole log, and all the merges are received.
  lemma DeliverLink(s: Cluster, l: Link, forgetful: set<nat>) returns (run: seq<Action>)
    requires Fit(s) && ValidLink(|s.nodes|, l)
    ensures Silent(run) && CanRun(s, run, forgetful)
    ensures var t := Final(s, run, forgetful); Later(s, t) && Own(s.nodes[l.from]) <= t.seen[l.to]
  {
    hide Exec, ShippedAll;
    var log := s.nodes[l.from].log;
    var s1 := Advance(s, Rewind(l), forgetful);
    var s2 := Advance(s1, LoadFrontier(l), forgetful);
    var s3 := Advance(s2, ReadLog(l, |log|), forgetful);
    var sent := ShippedAll(log, l.from);
    assert log[0..] == log && log[0..|log|] == log;
    assert s3.conns[|s.conns|].queue == sent + [Frontier(l.from, s2.loaded[l])];
    forall c ensures c in sent <==> c.Merge? && c.op in Own(s.nodes[l.from]) {
      ShippedAllHas(log, l.from, c);
    }
    assert forall p :: 0 <= p < |sent| ==> sent[p] in sent;
    var rest := ReceiveMany(s3, |s.conns|, |sent|, forgetful);
    RunThen(s2, ReadLog(l, |log|), rest, forgetful);
    RunThen(s1, LoadFrontier(l), [ReadLog(l, |log|)] + rest, forgetful);
    RunThen(s, Rewind(l), [LoadFrontier(l)] + ([ReadLog(l, |log|)] + rest), forgetful);
    run := [Rewind(l)] + ([LoadFrontier(l)] + ([ReadLog(l, |log|)] + rest));
    var t := Final(s3, rest, forgetful);
    forall op | op in Own(s.nodes[l.from])
      ensures op in t.seen[l.to]
    {
      assert Merge(op) in sent;
      var p :| 0 <= p < |sent| && sent[p] == Merge(op);
      assert s3.conns[|s.conns|].queue[p] == sent[p];
    }
  }

  lemma RunThen(s: Cluster, a: Action, rest: seq<Action>, forgetful: set<nat>)
    requires |s.seen| == |s.nodes| && CanStep(s, a) && CanRun(Advance(s, a, forgetful), rest, forgetful)
    ensures CanRun(s, [a] + rest, forgetful)
    ensures Final(s, [a] + rest, forgetful) == Final(Advance(s, a, forgetful), rest, forgetful)
  {
    hide CanStep, Advance;
    assert ([a] + rest)[1..] == rest;
  }

  // Links numbered row by row.
  function Numbered(k: nat, size: nat): Link
    requires size > 0
  {
    Link(k / size, k % size)
  }

  lemma {:induction false} DeliverLinks(s: Cluster, count: nat, forgetful: set<nat>) returns (run: seq<Action>)
    requires Fit(s) && |s.nodes| > 0 && count <= |s.nodes| * |s.nodes|
    ensures Silent(run) && CanRun(s, run, forgetful)
    ensures var t := Final(s, run, forgetful);
            Later(s, t) && forall k :: 0 <= k < count ==> Reached(s, t, Numbered(k, |s.nodes|))
    decreases count
  {
    hide Own, Fit, CanStep, Advance;
    ReceiveFits(s, 0);
    if count == 0 {
      run := [];
      return;
    }
    var before := DeliverLinks(s, count - 1, forgetful);
    var t := Final(s, before, forgetful);
    LaterFit(s, t);
    var l := Numbered(count - 1, |s.nodes|);
    RowBelow(count - 1, |s.nodes|);
    if l.from == l.to {
      run := before;
      return;
    }
    var more := DeliverLink(t, l, forgetful);
    RunConcat(s, before, more, forgetful);
    run := before + more;
    LaterTrans(s, t, Final(t, more, forgetful));
  }

  lemma RowBelow(k: nat, size: nat)
    requires k < size * size
    ensures Numbered(k, size).from < size && Numbered(k, size).to < size
  {
    if k / size >= size { assert size * (k / size) >= size * size; }
  }

  ghost predicate Reached(s: Cluster, t: Cluster, l: Link) {
    l.from < |s.nodes| && l.to < |t.seen| && (l.from != l.to ==> Own(s.nodes[l.from]) <= t.seen[l.to])
  }

  lemma DeliverAll(s: Cluster, forgetful: set<nat>) returns (run: seq<Action>)
    requires Fit(s) && |s.nodes| > 0 && forall j :: 0 <= j < |s.nodes| ==> Own(s.nodes[j]) <= s.seen[j]
    ensures Silent(run) && CanRun(s, run, forgetful) && AllDelivered(Final(s, run, forgetful))
  {
    hide Own;
    var size := |s.nodes|;
    run := DeliverLinks(s, size * size, forgetful);
    var t := Final(s, run, forgetful);
    forall op, j | 0 <= j < |t.seen| && IsOp(t.nodes, op)
      ensures op in t.seen[j]
    {
      var i := op.version.node;
      assert op in Own(s.nodes[i]);
      if i != j {
        LinkNumber(i, j, size);
        assert Reached(s, t, Numbered(i * size + j, size));
      }
    }
  }

  lemma LinkNumber(i: nat, j: nat, size: nat)
    requires i < size && j < size
    ensures i * size + j < size * size && Numbered(i * size + j, size) == Link(i, j)
  {
    Rows(i, size);
    QuotientOf(i, j, size);
  }

  lemma Rows(i: nat, size: nat)
    requires i < size
    ensures i * size + size <= size * size
  {
    if i + 1 < size { Grown(size, size - i - 1); }
    assert size * size == i * size + size + size * (size - i - 1);
  }

  lemma QuotientOf(i: nat, j: nat, size: nat)
    requires j < size
    ensures (i * size + j) / size == i && (i * size + j) % size == j
  {
    var q, r := (i * size + j) / size, (i * size + j) % size;
    assert size * (q - i) == j - r;
    if q > i { Grown(size, q - i); }
    if q < i { Grown(size, i - q); }
  }

  lemma Grown(size: nat, k: nat)
    requires k > 0
    ensures size * k >= size
  {
  }

  // -------- the cluster can always converge --------

  // Nothing that happened can keep the cluster from converging: from every reachable state, with whatever losses, repeated
  // deliveries and forgotten tombstones, some further run without any client leaves every node with the same records, each
  // of them the greatest mutation of its key.
  lemma CanConverge(nows: seq<int>, run: seq<Action>, forgetful: set<nat>) returns (more: seq<Action>)
    requires |nows| >= 2 && CanRun(Start(nows), run, forgetful)
    requires forall i :: 0 <= i < |run| ==> Distinct(run[i])
    ensures Silent(more) && CanRun(Start(nows), run + more, forgetful)
    ensures var r := Final(Start(nows), run + more, forgetful);
            && AllDelivered(r)
            && (forall i, j :: 0 <= i < |r.nodes| && 0 <= j < |r.nodes| ==> r.nodes[i].records == r.nodes[j].records)
            && (forall j, g :: 0 <= j < |r.nodes| && Greatest(r.nodes, g) ==> Shows(r.nodes[j], g))
  {
    hide CanStep, Advance, Inv, Alike, ConvInv;
    var r := Final(Start(nows), run, forgetful);
    ReachedFits(nows, run, forgetful);
    more := DeliverAll(r, forgetful);
    RunConcat(Start(nows), run, more, forgetful);
    assert forall i :: 0 <= i < |run + more| ==> Distinct((run + more)[i]);
    Converges(nows, run + more, forgetful);
  }

  lemma ReachedFits(nows: seq<int>, run: seq<Action>, forgetful: set<nat>)
    requires |nows| >= 2 && CanRun(Start(nows), run, forgetful)
    requires forall i :: 0 <= i < |run| ==> Distinct(run[i])
    ensures var r := Final(Start(nows), run, forgetful);
            Fit(r) && |r.nodes| > 0 && forall j :: 0 <= j < |r.nodes| ==> Own(r.nodes[j]) <= r.seen[j]
  {
    hide CanStep, Advance;
    StartInv(nows);
    StartAlike(nows);
    StartConv(nows);
    AlikeRun(Start(nows), Start(nows), run, forgetful);
    ConvRun(Start(nows), run);
    AlikeFits(Final(Start(nows), run, forgetful), Final(Start(nows), run, {}));
  }

  lemma AlikeFits(r: Cluster, s: Cluster)
    requires Alike(r, s) && Inv(s) && ConvInv(s)
    ensures Fit(r) && |r.nodes| > 0 && forall j :: 0 <= j < |r.nodes| ==> Own(r.nodes[j]) <= r.seen[j]
  {
    forall j | 0 <= j < |r.nodes|
      ensures r.nodes[j].id == j && Own(r.nodes[j]) <= r.seen[j]
      ensures forall op :: op in Own(r.nodes[j]) ==> op.version.ts <= U64_MAX
    {
      assert Forgetting.Coupled(r.nodes[j], s.nodes[j]) && NodeInv(s.nodes[j], j, |s.nodes|) && ConvNode(s.nodes, s.seen[j], j);
    }
  }
}
