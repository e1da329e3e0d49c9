/** What replication keeps when no node forgets: frontiers are sound, and offsets stand behind delivered records. */
module ClusterLaws {
  import opened Hlc
  import opened Node
  import opened NodeLaws
  import opened Cluster

  // -------- one node growing --------

  // Own mutations are dated after the zero clock and under the current one.
  ghost predicate OwnDated(n: Node) {
    forall op :: op in Own(n) ==> 0 < op.version.ts <= n.clock
  }

  ghost predicate NodeInv(n: Node, id: nat, size: nat) {
    && n.id == id && n.peers == size - 1 && size >= 2
    && Ok(n) && n.watermark == 0 && OwnDated(n)
  }

  // m is n after some command: it knows at least as much, and its new mutations are dated after n's clock.
  ghost predicate Grows(n: Node, m: Node) {
    && n.id == m.id && n.clock <= m.clock && n.log <= m.log
    && (forall op: Op :: op.version.ts > 0 && Dominates(n, op) ==> Dominates(m, op))
    && (forall op :: op in Own(m) && op !in Own(n) ==> op.version.ts > n.clock)
  }

  lemma OwnPrefix(log: seq<Entry>, longer: seq<Entry>, id: nat)
    requires log <= longer
    ensures OwnIn(log, id) <= OwnIn(longer, id)
  {
    forall op | op in OwnIn(log, id)
      ensures op in OwnIn(longer, id)
    {
      var e :| 0 <= e < |log| && op in log[e];
      assert op in longer[e];
    }
  }

  lemma OwnAdded(log: seq<Entry>, entry: Entry, id: nat, op: Op)
    requires op in OwnIn(log + [entry], id)
    ensures op in OwnIn(log, id) || (op in entry && op.version.node == id)
  {
    var e :| 0 <= e < |log + [entry]| && op in (log + [entry])[e];
    if e < |log| { assert op in log[e]; }
  }

  // The entry a command appends, if any.
  ghost predicate Appends(n: Node, m: Node, cmd: Cmd) {
    || m.log == n.log
    || exists entry :: m.log == n.log + [entry] && LogEntry(n, m, cmd, entry)
  }

  ghost predicate LogEntry(n: Node, m: Node, cmd: Cmd, entry: Entry) {
    if cmd.Merge? then entry == [cmd.op]
    else n.clock < m.clock && forall op :: op in entry ==> op.version == Version(m.clock, n.id)
  }

  lemma ExecAppends(n: Node, cmd: Cmd, now: int)
    requires Ok(n) && n.peers > 0 && Enabled(n, cmd, now)
    ensures Appends(n, Exec(n, cmd, now, false).0, cmd)
  {
    var m := Exec(n, cmd, now, false).0;
    match cmd
    case Set(key, value, expireAt, nx, xx) =>
      if m.log != n.log { assert LogEntry(n, m, cmd, [Put(key, value, expireAt, IssuedVersion(n, key, now))]); }
    case Mset(pairs) =>
      var v := Version(Next(n.clock, now, MaxOverwritten(n, pairs, now)), n.id);
      assert LogEntry(n, m, cmd, MsetEntry(pairs, v));
    case Expire(key, expireAt) =>
      if m.log != n.log {
        assert LogEntry(n, m, cmd, [Put(key, n.records[key].value, expireAt, IssuedVersion(n, key, now))]);
      }
    case Remove(key) =>
      if m.log != n.log { assert LogEntry(n, m, cmd, [Del(key, IssuedVersion(n, key, now))]); }
    case Merge(op) =>
    case Frontier(from, f) =>
  }

  lemma ExecGrows(n: Node, cmd: Cmd, now: int, id: nat, size: nat)
    requires NodeInv(n, id, size) && Enabled(n, cmd, now)
    requires cmd.Merge? ==> cmd.op.version.node != id
    ensures NodeInv(Exec(n, cmd, now, false).0, id, size)
    ensures Grows(n, Exec(n, cmd, now, false).0)
  {
    var m := Exec(n, cmd, now, false).0;
    ExecStep(n, cmd, now, false);
    ExecKeepsWatermark(n, cmd, now);
    KeepsDominating(n, m);
    ExecAppends(n, cmd, now);
    forall op | op in Own(m) && op !in Own(n)
      ensures n.clock < op.version.ts <= m.clock
    {
      if m.log != n.log {
        var entry :| m.log == n.log + [entry] && LogEntry(n, m, cmd, entry);
        OwnAdded(n.log, entry, n.id, op);
      }
    }
  }

  lemma KeepsDominating(n: Node, m: Node)
    requires Ok(n) && m.watermark == 0 && NodeLaws.Step(n, m)
    ensures forall op: Op :: op.version.ts > 0 && Dominates(n, op) ==> Dominates(m, op)
  {
    forall op: Op | op.version.ts > 0 && Dominates(n, op)
      ensures Dominates(m, op)
    {
      assert Settled(n, op) && op.version.ts <= n.clock;
    }
  }

  lemma ExecKeepsWatermark(n: Node, cmd: Cmd, now: int)
    requires Ok(n) && Enabled(n, cmd, now)
    ensures Exec(n, cmd, now, false).0.watermark == n.watermark
  {
    if cmd.Mset? {
      WriteAllEffect(n, cmd.pairs, Version(Next(n.clock, now, MaxOverwritten(n, cmd.pairs, now)), n.id), now);
    }
  }

  // -------- links between nodes --------

  // Everything `from` issued up to f has reached `to`, or is still ahead of this point on the wire.
  ghost predicate FrontierSound(from: Node, to: Node, f: nat, ahead: seq<Cmd>) {
    && f <= from.clock
    && forall op :: op in Own(from) && op.version.ts <= f ==> Dominates(to, op) || Merge(op) in ahead
  }

  ghost predicate PrefixDelivered(from: Node, to: Node, mark: nat, ahead: seq<Cmd>) {
    && mark <= |from.log|
    && forall op :: op in OwnIn(from.log[..mark], from.id) ==> Dominates(to, op) || Merge(op) in ahead
  }

  ghost predicate MessageInv(from: Node, to: Node, msg: Cmd, ahead: seq<Cmd>) {
    match msg
    case Merge(op) => op in Own(from)
    case Frontier(node, f) => node == from.id && FrontierSound(from, to, f, ahead)
    case _ => false
  }

  ghost predicate QueueInv(from: Node, to: Node, queue: seq<Cmd>) {
    forall p :: 0 <= p < |queue| ==> MessageInv(from, to, queue[p], queue[..p])
  }

  ghost predicate NodesInv(nodes: seq<Node>) {
    |nodes| >= 2 && forall i :: 0 <= i < |nodes| ==> NodeInv(nodes[i], i, |nodes|)
  }

  ghost predicate HeardInv(nodes: seq<Node>, j: nat)
    requires j < |nodes|
  {
    forall i :: i in nodes[j].frontiers ==>
      i < |nodes| && i != j && FrontierSound(nodes[i], nodes[j], nodes[j].frontiers[i], [])
  }

  ghost predicate FrontiersInv(nodes: seq<Node>) {
    forall j :: 0 <= j < |nodes| ==> HeardInv(nodes, j)
  }

  ghost predicate ConnInv(nodes: seq<Node>, c: Conn) {
    && c.from < |nodes| && c.to < |nodes| && c.from != c.to
    && PrefixDelivered(nodes[c.from], nodes[c.to], c.mark, c.queue)
    && QueueInv(nodes[c.from], nodes[c.to], c.queue)
  }

  ghost predicate LoadedInv(nodes: seq<Node>, loaded: map<Link, nat>) {
    forall l :: l in loaded ==> ValidLink(|nodes|, l) && loaded[l] <= nodes[l.from].clock
  }

  ghost predicate OffsetsInv(nodes: seq<Node>, offsets: map<Link, nat>) {
    forall l :: l in offsets ==>
      ValidLink(|nodes|, l) && PrefixDelivered(nodes[l.from], nodes[l.to], offsets[l], [])
  }

  ghost predicate ConnsInv(nodes: seq<Node>, conns: seq<Conn>) {
    forall c :: 0 <= c < |conns| && conns[c].alive ==> ConnInv(nodes, conns[c])
  }

  ghost predicate Inv(s: Cluster) {
    && |s.seen| == |s.nodes| && NodesInv(s.nodes) && FrontiersInv(s.nodes)
    && LoadedInv(s.nodes, s.loaded) && OffsetsInv(s.nodes, s.offsets) && ConnsInv(s.nodes, s.conns)
  }

  // -------- links survive growing nodes --------

  ghost predicate AllGrow(nodes: seq<Node>, nodes': seq<Node>) {
    |nodes| == |nodes'| && forall i :: 0 <= i < |nodes| ==> Grows(nodes[i], nodes'[i])
  }

  lemma SoundGrows(from: Node, to: Node, from': Node, to': Node, f: nat, ahead: seq<Cmd>)
    requires OwnDated(from) && Grows(from, from') && Grows(to, to') && FrontierSound(from, to, f, ahead)
    ensures FrontierSound(from', to', f, ahead)
  {
  }

  lemma PrefixGrows(from: Node, to: Node, from': Node, to': Node, mark: nat, ahead: seq<Cmd>)
    requires OwnDated(from) && Grows(from, from') && Grows(to, to') && PrefixDelivered(from, to, mark, ahead)
    ensures PrefixDelivered(from', to', mark, ahead)
  {
    assert from'.log[..mark] == from.log[..mark];
    OwnPrefix(from.log[..mark], from.log, from.id);
  }

  lemma QueueGrows(from: Node, to: Node, from': Node, to': Node, queue: seq<Cmd>)
    requires OwnDated(from) && Grows(from, from') && Grows(to, to') && QueueInv(from, to, queue)
    ensures QueueInv(from', to', queue)
  {
    OwnPrefix(from.log, from'.log, from.id);
    forall p | 0 <= p < |queue|
      ensures MessageInv(from', to', queue[p], queue[..p])
    {
      if queue[p].Frontier? { SoundGrows(from, to, from', to', queue[p].f, queue[..p]); }
    }
  }

  lemma OffsetsGrow(nodes: seq<Node>, nodes': seq<Node>, offsets: map<Link, nat>)
    requires NodesInv(nodes) && AllGrow(nodes, nodes') && OffsetsInv(nodes, offsets)
    ensures OffsetsInv(nodes', offsets)
  {
    forall l | l in offsets
      ensures PrefixDelivered(nodes'[l.from], nodes'[l.to], offsets[l], [])
    {
      PrefixGrows(nodes[l.from], nodes[l.to], nodes'[l.from], nodes'[l.to], offsets[l], []);
    }
  }

  lemma ConnsGrow(nodes: seq<Node>, nodes': seq<Node>, conns: seq<Conn>)
    requires NodesInv(nodes) && AllGrow(nodes, nodes') && ConnsInv(nodes, conns)
    ensures ConnsInv(nodes', conns)
  {
    forall c | 0 <= c < |conns| && conns[c].alive
      ensures ConnInv(nodes', conns[c])
    {
      var conn := conns[c];
      PrefixGrows(nodes[conn.from], nodes[conn.to], nodes'[conn.from], nodes'[conn.to], conn.mark, conn.queue);
      QueueGrows(nodes[conn.from], nodes[conn.to], nodes'[conn.from], nodes'[conn.to], conn.queue);
    }
  }

  // -------- a command at one node --------

  // A message on the wire, or a client's own command.
  ghost predicate Admissible(nodes: seq<Node>, i: nat, cmd: Cmd)
    requires i < |nodes|
  {
    match cmd
    case Merge(op) => op.version.node != i
    case Frontier(from, f) => from < |nodes| && from != i && FrontierSound(nodes[from], nodes[i], f, [])
    case _ => true
  }

  lemma GrowsRefl(n: Node)
    ensures Grows(n, n)
  {
  }

  lemma ReplaceGrows(nodes: seq<Node>, i: nat, m: Node)
    requires i < |nodes| && Grows(nodes[i], m)
    ensures AllGrow(nodes, nodes[i := m])
  {
    forall k | 0 <= k < |nodes| && k != i
      ensures Grows(nodes[k], nodes[k])
    {
      GrowsRefl(nodes[k]);
    }
  }

  lemma HeardKept(nodes: seq<Node>, nodes': seq<Node>, j: nat)
    requires NodesInv(nodes) && AllGrow(nodes, nodes') && j < |nodes| && HeardInv(nodes, j)
    requires nodes'[j].frontiers == nodes[j].frontiers
    ensures HeardInv(nodes', j)
  {
    forall i | i in nodes'[j].frontiers
      ensures FrontierSound(nodes'[i], nodes'[j], nodes'[j].frontiers[i], [])
    {
      SoundGrows(nodes[i], nodes[j], nodes'[i], nodes'[j], nodes[j].frontiers[i], []);
    }
  }

  // The table after hearing f from a sound sender.
  lemma HeardAdded(nodes: seq<Node>, nodes': seq<Node>, j: nat, from: nat, f: nat)
    requires NodesInv(nodes) && AllGrow(nodes, nodes') && j < |nodes| && HeardInv(nodes, j)
    requires from < |nodes| && from != j && FrontierSound(nodes[from], nodes[j], f, [])
    requires nodes'[j].frontiers ==
             nodes[j].frontiers[from := if from in nodes[j].frontiers then Max(nodes[j].frontiers[from], f) else f]
    ensures HeardInv(nodes', j)
  {
    forall i | i in nodes'[j].frontiers
      ensures i < |nodes| && i != j && FrontierSound(nodes'[i], nodes'[j], nodes'[j].frontiers[i], [])
    {
      if i in nodes[j].frontiers {
        SoundGrows(nodes[i], nodes[j], nodes'[i], nodes'[j], nodes[j].frontiers[i], []);
      }
      if i == from {
        SoundGrows(nodes[i], nodes[j], nodes'[i], nodes'[j], f, []);
      }
    }
  }

  lemma ReplaceInv(s: Cluster, i: nat, m: Node, known: set<Op>)
    requires Inv(s) && i < |s.nodes|
    requires NodeInv(m, i, |s.nodes|) && Grows(s.nodes[i], m) && HeardInv(s.nodes[i := m], i)
    ensures Inv(s.(nodes := s.nodes[i := m], seen := s.seen[i := known]))
  {
    var nodes' := s.nodes[i := m];
    ReplaceGrows(s.nodes, i, m);
    OffsetsGrow(s.nodes, nodes', s.offsets);
    ConnsGrow(s.nodes, nodes', s.conns);
    forall j | 0 <= j < |nodes'|
      ensures HeardInv(nodes', j)
    {
      if j != i { HeardKept(s.nodes, nodes', j); }
    }
  }

  // The frontier table only changes when a frontier is heard.
  ghost predicate FrontiersAfter(n: Node, m: Node, cmd: Cmd) {
    m.frontiers ==
    if cmd.Frontier? then
      n.frontiers[cmd.from := if cmd.from in n.frontiers then Max(n.frontiers[cmd.from], cmd.f) else cmd.f]
    else n.frontiers
  }

  lemma ExecFrontiers(n: Node, cmd: Cmd, now: int)
    requires Ok(n) && Enabled(n, cmd, now)
    ensures FrontiersAfter(n, Exec(n, cmd, now, false).0, cmd)
  {
    if cmd.Mset? {
      WriteAllEffect(n, cmd.pairs, Version(Next(n.clock, now, MaxOverwritten(n, cmd.pairs, now)), n.id), now);
    }
  }

  lemma StepAt(s: Cluster, i: nat, cmd: Cmd, m: Node, known: set<Op>)
    requires Inv(s) && i < |s.nodes| && Admissible(s.nodes, i, cmd)
    requires NodeInv(m, i, |s.nodes|) && Grows(s.nodes[i], m) && FrontiersAfter(s.nodes[i], m, cmd)
    ensures Inv(s.(nodes := s.nodes[i := m], seen := s.seen[i := known]))
  {
    ReplaceGrows(s.nodes, i, m);
    if cmd.Frontier? {
      HeardAdded(s.nodes, s.nodes[i := m], i, cmd.from, cmd.f);
    } else {
      HeardKept(s.nodes, s.nodes[i := m], i);
    }
    ReplaceInv(s, i, m, known);
  }

  lemma AtNodeInv(s: Cluster, i: nat, cmd: Cmd, now: int)
    requires Inv(s) && i < |s.nodes| && Enabled(s.nodes[i], cmd, now) && Admissible(s.nodes, i, cmd)
    ensures Inv(AtNode(s, i, cmd, now, false))
  {
    var n := s.nodes[i];
    var m := Exec(n, cmd, now, false).0;
    ExecGrows(n, cmd, now, i, |s.nodes|);
    ExecFrontiers(n, cmd, now);
    StepAt(s, i, cmd, m, s.seen[i] + Learnt(cmd, n, m));
  }

  // -------- building and consuming a batch --------

  lemma {:induction false} ShippedHas(entry: Entry, id: nat, c: Cmd)
    ensures c in Shipped(entry, id) <==> c.Merge? && c.op in entry && c.op.version.node == id
  {
    if entry != [] {
      ShippedHas(entry[1..], id, c);
      assert entry == [entry[0]] + entry[1..];
    }
  }

  lemma {:induction false} ShippedAllHas(log: seq<Entry>, id: nat, c: Cmd)
    ensures c in ShippedAll(log, id) <==> c.Merge? && c.op in OwnIn(log, id)
  {
    if log != [] {
      ShippedHas(log[0], id, c);
      ShippedAllHas(log[1..], id, c);
      OwnSplit(log, 1, id);
      if c.Merge? { assert c.op in OwnIn(log[..1], id) <==> c.op in log[..1][0] && c.op.version.node == id; }
    }
  }

  lemma OwnSplit(log: seq<Entry>, cut: nat, id: nat)
    requires cut <= |log|
    ensures OwnIn(log, id) == OwnIn(log[..cut], id) + OwnIn(log[cut..], id)
  {
    forall op
      ensures op in OwnIn(log, id) <==> op in OwnIn(log[..cut], id) || op in OwnIn(log[cut..], id)
    {
      if op in OwnIn(log, id) {
        var e :| 0 <= e < |log| && op in log[e];
        if e < cut { assert op in log[..cut][e]; } else { assert op in log[cut..][e - cut]; }
      }
      if op in OwnIn(log[cut..], id) {
        var e :| 0 <= e < |log[cut..]| && op in log[cut..][e];
        assert op in log[cut + e];
      }
      if op in OwnIn(log[..cut], id) {
        var e :| 0 <= e < cut && op in log[..cut][e];
        assert op in log[e];
      }
    }
  }

  // A batch starting at a delivered offset covers everything up to its mark.
  lemma BatchCovers(from: Node, to: Node, off: nat, upto: nat, queue: seq<Cmd>)
    requires PrefixDelivered(from, to, off, []) && off <= upto <= |from.log|
    requires forall op :: op in OwnIn(from.log[off..upto], from.id) ==> Merge(op) in queue
    ensures PrefixDelivered(from, to, upto, queue)
  {
    OwnSplit(from.log[..upto], off, from.id);
    assert from.log[..upto][..off] == from.log[..off] && from.log[..upto][off..] == from.log[off..upto];
  }

  lemma BatchQueue(from: Node, to: Node, off: nat, upto: nat, f: nat, queue: seq<Cmd>)
    requires PrefixDelivered(from, to, off, []) && off <= upto <= |from.log| && f <= from.clock
    requires queue == ShippedAll(from.log[off..upto], from.id) +
                      (if upto == |from.log| then [Frontier(from.id, f)] else [])
    ensures QueueInv(from, to, queue) && PrefixDelivered(from, to, upto, queue)
  {
    var merges := ShippedAll(from.log[off..upto], from.id);
    forall c ensures c in merges <==> c.Merge? && c.op in OwnIn(from.log[off..upto], from.id) {
      ShippedAllHas(from.log[off..upto], from.id, c);
    }
    BatchCovers(from, to, off, upto, merges);
    BatchCovers(from, to, off, upto, queue);
    OwnSplit(from.log[..upto], off, from.id);
    assert from.log[..upto][off..] == from.log[off..upto];
    OwnPrefix(from.log[..upto], from.log, from.id);
    forall p | 0 <= p < |queue|
      ensures MessageInv(from, to, queue[p], queue[..p])
    {
      if p < |merges| {
        assert queue[p] == merges[p] && merges[p] in merges;
      } else {
        assert queue[..p] == merges && from.log[..upto] == from.log;
      }
    }
  }

  lemma ReadLogInv(s: Cluster, l: Link, upto: nat)
    requires Inv(s) && CanStep(s, ReadLog(l, upto))
    ensures Inv(Advance(s, ReadLog(l, upto), {}))
  {
    var from, to, off := s.nodes[l.from], s.nodes[l.to], Offset(s, l);
    assert from.log[..0] == [];
    assert PrefixDelivered(from, to, off, []);
    BatchQueue(from, to, off, upto, s.loaded[l], Batch(s, l, upto));
    assert ConnInv(s.nodes, Conn(l.from, l.to, Batch(s, l, upto), upto, true));
  }

  lemma PopInv(from: Node, to: Node, queue: seq<Cmd>, mark: nat)
    requires queue != [] && QueueInv(from, to, queue) && PrefixDelivered(from, to, mark, queue)
    requires queue[0].Merge? ==> Dominates(to, queue[0].op)
    ensures QueueInv(from, to, queue[1..]) && PrefixDelivered(from, to, mark, queue[1..])
  {
    var rest := queue[1..];
    assert queue == [queue[0]] + rest;
    forall p | 0 <= p < |rest|
      ensures MessageInv(from, to, rest[p], rest[..p])
    {
      assert MessageInv(from, to, queue[p + 1], queue[..p + 1]);
      assert queue[..p + 1] == [queue[0]] + rest[..p];
    }
  }

  lemma MergeDominates(n: Node, op: Op, now: int)
    requires Ok(n) && n.watermark == 0 && n.peers > 0 && Enabled(n, Merge(op), now) && op.version.ts > 0
    ensures Dominates(Exec(n, Merge(op), now, false).0, op)
  {
    ExecStep(n, Merge(op), now, false);
    var m := Exec(n, Merge(op), now, false).0;
    if m.log != n.log { assert op in m.log[|n.log|]; }
  }

  lemma HeadAdmissible(s: Cluster, c: nat)
    requires Inv(s) && c < |s.conns| && s.conns[c].alive && s.conns[c].queue != []
    ensures Admissible(s.nodes, s.conns[c].to, s.conns[c].queue[0])
    ensures s.conns[c].queue[0].Merge? ==> s.conns[c].queue[0].op in Own(s.nodes[s.conns[c].from])
  {
    var conn := s.conns[c];
    assert MessageInv(s.nodes[conn.from], s.nodes[conn.to], conn.queue[0], conn.queue[..0]);
  }

  // Removing an executed command from its queue.
  lemma PopConn(t: Cluster, c: nat)
    requires Inv(t) && c < |t.conns| && t.conns[c].alive && t.conns[c].queue != []
    requires t.conns[c].queue[0].Merge? ==> Dominates(t.nodes[t.conns[c].to], t.conns[c].queue[0].op)
    ensures Inv(t.(conns := t.conns[c := t.conns[c].(queue := t.conns[c].queue[1..])]))
  {
    var conn := t.conns[c];
    assert ConnInv(t.nodes, conn);
    PopInv(t.nodes[conn.from], t.nodes[conn.to], conn.queue, conn.mark);
    assert ConnInv(t.nodes, conn.(queue := conn.queue[1..]));
  }

  lemma ReceiveInv(s: Cluster, c: nat, now: int)
    requires Inv(s) && CanStep(s, Receive(c, now))
    ensures Inv(Advance(s, Receive(c, now), {}))
  {
    var conn := s.conns[c];
    HeadAdmissible(s, c);
    AtNodeInv(s, conn.to, conn.queue[0], now);
    if conn.queue[0].Merge? {
      MergeDominates(s.nodes[conn.to], conn.queue[0].op, now);
    }
    PopConn(AtNode(s, conn.to, conn.queue[0], now, false), c);
  }

  // -------- every step keeps the invariant --------

  lemma StartInv(nows: seq<int>)
    requires |nows| >= 2
    ensures Inv(Start(nows))
  {
  }

  lemma AcknowledgeInv(s: Cluster, c: nat)
    requires Inv(s) && CanStep(s, Acknowledge(c))
    ensures Inv(Advance(s, Acknowledge(c), {}))
  {
    assert ConnInv(s.nodes, s.conns[c]);
  }

  lemma LoseInv(s: Cluster, c: nat)
    requires Inv(s) && c < |s.conns|
    ensures Inv(Advance(s, Lose(c), {}))
  {
  }

  lemma RewindInv(s: Cluster, l: Link)
    requires Inv(s) && ValidLink(|s.nodes|, l)
    ensures Inv(Advance(s, Rewind(l), {}))
  {
    assert s.nodes[l.from].log[..0] == [];
    assert PrefixDelivered(s.nodes[l.from], s.nodes[l.to], 0, []);
  }

  lemma LoadInv(s: Cluster, l: Link)
    requires Inv(s) && ValidLink(|s.nodes|, l)
    ensures Inv(Advance(s, LoadFrontier(l), {}))
  {
    assert NodeInv(s.nodes[l.from], l.from, |s.nodes|);
  }

  lemma NextInv(s: Cluster, a: Action)
    requires Inv(s) && CanStep(s, a)
    ensures Inv(Advance(s, a, {}))
  {
    match a
    case Client(at, cmd, now) => AtNodeInv(s, at, cmd, now);
    case LoadFrontier(l) => LoadInv(s, l);
    case ReadLog(l, upto) => ReadLogInv(s, l, upto);
    case Receive(c, now) => ReceiveInv(s, c, now);
    case Acknowledge(c) => AcknowledgeInv(s, c);
    case Lose(c) => LoseInv(s, c);
    case Rewind(l) => RewindInv(s, l);
  }
}
