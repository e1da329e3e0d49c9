/** N nodes that ship their own log records to each other: the state machine of replication. */
module Cluster {
  import opened Node
  import opened NodeLaws

  // A connection carries one batch; it may be lost at any time, after any prefix was executed.
  // `mark` is the log position its acknowledgement moves the sender's offset to.
  datatype Conn = Conn(from: nat, to: nat, queue: seq<Cmd>, mark: nat, alive: bool)

  datatype Link = Link(from: nat, to: nat)

  // `seen` records history: the mutations each node issued or was sent.
  datatype Cluster = Cluster(
    nodes: seq<Node>,
    loaded: map<Link, nat>,
    offsets: map<Link, nat>,
    conns: seq<Conn>,
    seen: seq<set<Op>>)

  function Offset(s: Cluster, l: Link): nat {
    if l in s.offsets then s.offsets[l] else 0
  }

  datatype Action =
    | Client(at: nat, cmd: Cmd, now: int)      // a client's command
    | LoadFrontier(link: Link)                 // ship() reads the frontier first,
    | ReadLog(link: Link, upto: nat)           // then the log, and sends a batch
    | Receive(conn: nat, now: int)             // the peer executes the next command of a batch
    | Acknowledge(conn: nat)                   // every reply was positive: the offset advances
    | Lose(conn: nat)                          // the connection breaks
    | Rewind(link: Link)                       // the offset is lost: resend from the start

  // -------- a node's own mutations --------

  ghost function OwnIn(log: seq<Entry>, id: nat): set<Op> {
    set e, op | 0 <= e < |log| && op in log[e] && op.version.node == id :: op
  }

  ghost function Own(n: Node): set<Op> {
    OwnIn(n.log, n.id)
  }

  // The merges that an entry becomes on the wire: only this node's own mutations travel.
  function Shipped(entry: Entry, id: nat): seq<Cmd> {
    if entry == [] then []
    else (if entry[0].version.node == id then [Merge(entry[0])] else []) + Shipped(entry[1..], id)
  }

  function ShippedAll(log: seq<Entry>, id: nat): seq<Cmd> {
    if log == [] then [] else Shipped(log[0], id) + ShippedAll(log[1..], id)
  }

  // A batch that reached the end of the log closes with the frontier read before it.
  function Batch(s: Cluster, l: Link, upto: nat): seq<Cmd>
    requires l.from < |s.nodes| && Offset(s, l) <= upto <= |s.nodes[l.from].log| && l in s.loaded
  {
    ShippedAll(s.nodes[l.from].log[Offset(s, l)..upto], l.from) +
    (if upto == |s.nodes[l.from].log| then [Frontier(l.from, s.loaded[l])] else [])
  }

  // -------- steps --------

  predicate ValidLink(size: nat, l: Link) {
    l.from < size && l.to < size && l.from != l.to
  }

  ghost predicate CanStep(s: Cluster, a: Action) {
    match a
    case Client(at, cmd, now) =>
      at < |s.nodes| && !cmd.Merge? && !cmd.Frontier? && Enabled(s.nodes[at], cmd, now)
    case LoadFrontier(l) => ValidLink(|s.nodes|, l)
    case ReadLog(l, upto) =>
      ValidLink(|s.nodes|, l) && l in s.loaded && Offset(s, l) <= upto <= |s.nodes[l.from].log|
    case Receive(c, now) =>
      && c < |s.conns| && s.conns[c].alive && s.conns[c].queue != []
      && s.conns[c].to < |s.nodes| && Enabled(s.nodes[s.conns[c].to], s.conns[c].queue[0], now)
    case Acknowledge(c) => c < |s.conns| && s.conns[c].alive && s.conns[c].queue == []
    case Lose(c) => c < |s.conns|
    case Rewind(l) => ValidLink(|s.nodes|, l)
  }

  // The mutations a node learns from a command: a merge's own, or those it just logged.
  ghost function Learnt(cmd: Cmd, n: Node, m: Node): set<Op> {
    if cmd.Merge? then {cmd.op} else OwnIn(m.log, m.id) - OwnIn(n.log, n.id)
  }

  ghost function AtNode(s: Cluster, i: nat, cmd: Cmd, now: int, forget: bool): Cluster
    requires i < |s.nodes| == |s.seen|
  {
    var m := Exec(s.nodes[i], cmd, now, forget).0;
    s.(nodes := s.nodes[i := m], seen := s.seen[i := s.seen[i] + Learnt(cmd, s.nodes[i], m)])
  }

  // `forgetful` are the nodes that collect tombstones.
  ghost function Advance(s: Cluster, a: Action, forgetful: set<nat>): (s': Cluster)
    requires CanStep(s, a) && |s.seen| == |s.nodes|
    ensures |s'.seen| == |s'.nodes| == |s.nodes|
  {
    match a
    case Client(at, cmd, now) => AtNode(s, at, cmd, now, at in forgetful)
    case LoadFrontier(l) => s.(loaded := s.loaded[l := s.nodes[l.from].frontier])
    case ReadLog(l, upto) => s.(conns := s.conns + [Conn(l.from, l.to, Batch(s, l, upto), upto, true)])
    case Receive(c, now) =>
      var conn := s.conns[c];
      AtNode(s, conn.to, conn.queue[0], now, conn.to in forgetful)
        .(conns := s.conns[c := conn.(queue := conn.queue[1..])])
    case Acknowledge(c) => s.(offsets := s.offsets[Link(s.conns[c].from, s.conns[c].to) := s.conns[c].mark])
    case Lose(c) => s.(conns := s.conns[c := s.conns[c].(alive := false)])
    case Rewind(l) => s.(offsets := s.offsets[l := 0])
  }

  // What an outside observer sees of a step: the reply, with the version issued or the decision taken.
  ghost function Observed(s: Cluster, a: Action, forgetful: set<nat>): Out
    requires CanStep(s, a)
  {
    match a
    case Client(at, cmd, now) => Exec(s.nodes[at], cmd, now, at in forgetful).1
    case Receive(c, now) =>
      Exec(s.nodes[s.conns[c].to], s.conns[c].queue[0], now, s.conns[c].to in forgetful).1
    case LoadFrontier(l) => Heard(s.nodes[l.from].frontier)
    case _ => Skipped
  }

  // -------- runs --------

  // Every node lists all the others as peers; node i starts empty at its own wall-clock time nows[i].
  function Start(nows: seq<int>): (s: Cluster)
    requires |nows| >= 2
    ensures |s.seen| == |s.nodes| == |nows| && s.loaded == map[] && s.offsets == map[] && s.conns == []
    ensures forall i :: 0 <= i < |nows| ==>
              var n := s.nodes[i];
              && n.id == i && n.peers == |nows| - 1 && n.log == [] && s.seen[i] == {}
              && n.records == map[] && n.tombs == map[] && n.frontiers == map[] && n.watermark == 0
              && n.clock == n.frontier
  {
    Cluster(seq(|nows|, i requires 0 <= i < |nows| => Fresh(i, |nows| - 1, nows[i])),
            map[], map[], [], seq(|nows|, i => {}))
  }

  ghost predicate CanRun(s: Cluster, run: seq<Action>, forgetful: set<nat>)
    requires |s.seen| == |s.nodes|
    decreases |run|
  {
    run == [] || (CanStep(s, run[0]) && CanRun(Advance(s, run[0], forgetful), run[1..], forgetful))
  }

  ghost function Final(s: Cluster, run: seq<Action>, forgetful: set<nat>): Cluster
    requires |s.seen| == |s.nodes| && CanRun(s, run, forgetful)
    decreases |run|
  {
    if run == [] then s else Final(Advance(s, run[0], forgetful), run[1..], forgetful)
  }

  ghost function Trace(s: Cluster, run: seq<Action>, forgetful: set<nat>): seq<Out>
    requires |s.seen| == |s.nodes| && CanRun(s, run, forgetful)
    decreases |run|
  {
    if run == [] then []
    else [Observed(s, run[0], forgetful)] + Trace(Advance(s, run[0], forgetful), run[1..], forgetful)
  }
}
