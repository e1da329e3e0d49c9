/** One node's replicated state and what each command does to it, free of strings and storage tiers. */
module Node {
  import opened Ints
  import opened Hlc
  import opened Wrappers

  datatype Key = Key(room: string, name: string)

  datatype Record = Record(value: string, expireAt: int, version: Version) {
    predicate Expired(now: int) {
      expireAt > 0 && now > expireAt
    }
  }

  // The mutation of one key, with the resulting state and its version.
  datatype Op =
    | Put(key: Key, value: string, expireAt: int, version: Version)
    | Del(key: Key, version: Version)

  // One log record: SET, CRDTMERGE, DEL and CRDTDEL carry one mutation, MSET one per pair.
  type Entry = seq<Op>

  datatype Node = Node(
    id: nat,
    peers: nat,
    records: map<Key, Record>,
    tombs: map<Key, Version>,
    frontiers: map<nat, nat>,
    watermark: nat,
    frontier: nat,
    clock: nat,
    log: seq<Entry>)

  function Fresh(id: nat, peers: nat, now: int): Node {
    var start := Next(0, now, 0);
    Node(id, peers, map[], map[], map[], 0, start, start, [])
  }

  // -------- lookups --------

  function Find(n: Node, key: Key, now: int): Option<Record> {
    if key in n.records && !n.records[key].Expired(now) then Some(n.records[key]) else None
  }

  // A lookup erases the record it finds expired, and leaves no tombstone.
  function Looked(n: Node, key: Key, now: int): Node {
    if key in n.records && n.records[key].Expired(now) then n.(records := n.records - {key}) else n
  }

  function TombTs(n: Node, key: Key): nat {
    if key in n.tombs then n.tombs[key].ts else 0
  }

  function Overwritten(n: Node, key: Key, now: int): nat {
    match Find(n, key, now)
    case Some(r) => r.version.ts
    case None => TombTs(n, key)
  }

  function MaxOverwritten(n: Node, pairs: seq<(Key, string)>, now: int): nat {
    if pairs == [] then 0
    else Max(MaxOverwritten(n, pairs[..|pairs| - 1], now), Overwritten(n, pairs[|pairs| - 1].0, now))
  }

  // -------- writes --------

  function Write(n: Node, key: Key, value: string, expireAt: int, v: Version, now: int): Node {
    var cleared := if Find(n, key, now).None? then n.tombs - {key} else n.tombs;
    n.(records := n.records[key := Record(value, expireAt, v)], tombs := cleared)
  }

  function WriteAll(n: Node, pairs: seq<(Key, string)>, v: Version, now: int): Node {
    if pairs == [] then n
    else
      var last := pairs[|pairs| - 1];
      Write(WriteAll(n, pairs[..|pairs| - 1], v, now), last.0, last.1, 0, v, now)
  }

  function SetTomb(n: Node, key: Key, v: Version): Node {
    if n.peers == 0 || v.ts <= n.watermark then n
    else n.(tombs := n.tombs[key := if key in n.tombs then MaxVersion(n.tombs[key], v) else v])
  }

  function Erase(n: Node, key: Key, v: Version): Node {
    SetTomb(n.(records := n.records - {key}), key, v)
  }

  function Apply(n: Node, op: Op, now: int): Node {
    match op
    case Put(key, value, expireAt, v) => Write(n, key, value, expireAt, v, now)
    case Del(key, v) => Erase(n, key, v)
  }

  predicate Stale(n: Node, key: Key, v: Version, now: int) {
    match Find(n, key, now)
    case Some(r) => v.AtMost(r.version)
    case None => if key in n.tombs then v.AtMost(n.tombs[key]) else v.ts <= n.watermark
  }

  // -------- frontiers --------

  // The smallest frontier in the table; all ones when it is empty.
  ghost function Low(m: map<nat, nat>): (low: nat)
    ensures low <= U64_MAX
    ensures forall k :: k in m ==> low <= m[k]
    ensures low == U64_MAX || exists k :: k in m && low == m[k]
    decreases |m|
  {
    if m == map[] then U64_MAX
    else
      var k :| k in m;
      var rest := m - {k};
      assert forall j :: j in m ==> j == k || (j in rest && rest[j] == m[j]);
      assert |rest.Keys| == |m.Keys - {k}|;
      var sub := Low(rest);
      if m[k] < sub then m[k] else sub
  }

  // The tombstones that survive a watermark.
  function Above(tombs: map<Key, Version>, watermark: nat): map<Key, Version> {
    map k | k in tombs && tombs[k].ts > watermark :: tombs[k]
  }

  ghost function Collect(n: Node): Node {
    var others := n.frontiers - {n.id};
    var low := Low(others);
    if n.peers == 0 || |others| < n.peers || low <= n.watermark then n
    else n.(watermark := low, tombs := Above(n.tombs, low))
  }

  ghost function Hear(n: Node, from: nat, f: nat, now: int, forget: bool): Node {
    var known := if from in n.frontiers then Max(n.frontiers[from], f) else f;
    var issued := Next(n.clock, now, 0);
    var heard := n.(frontiers := n.frontiers[from := known], clock := issued, frontier := issued);
    if forget then Collect(heard) else heard
  }

  // -------- commands --------

  datatype Cmd =
    | Set(key: Key, value: string, expireAt: int, nx: bool, xx: bool)
    | Mset(pairs: seq<(Key, string)>)
    | Expire(key: Key, expireAt: int)
    | Remove(key: Key)
    | Merge(op: Op)
    | Frontier(from: nat, f: nat)

  // What the caller observes: the version issued, or the decision taken.
  datatype Out = Skipped | Issued(version: Version) | Applied | Ignored | Heard(frontier: nat)

  function MsetEntry(pairs: seq<(Key, string)>, v: Version): Entry {
    seq(|pairs|, i requires 0 <= i < |pairs| => Put(pairs[i].0, pairs[i].1, 0, v))
  }

  // A local write of one key, whose condition already holds.
  function Issue(n: Node, op: Op, now: int): Node
  {
    Apply(n, op, now).(clock := op.version.ts, log := n.log + [[op]])
  }

  function IssuedVersion(n: Node, key: Key, now: int): Version {
    Version(Next(n.clock, now, Overwritten(n, key, now)), n.id)
  }

  // `forget` chooses between a node that collects tombstones and one that keeps them for ever.
  ghost function Exec(n: Node, cmd: Cmd, now: int, forget: bool): (Node, Out) {
    match cmd
    case Set(key, value, expireAt, nx, xx) =>
      var found := Find(n, key, now).Some?;
      if (nx && found) || (xx && !found) then (Looked(n, key, now), Skipped)
      else
        var v := IssuedVersion(n, key, now);
        (Issue(n, Put(key, value, expireAt, v), now), Issued(v))
    case Mset(pairs) =>
      var v := Version(Next(n.clock, now, MaxOverwritten(n, pairs, now)), n.id);
      (WriteAll(n, pairs, v, now).(clock := v.ts, log := n.log + [MsetEntry(pairs, v)]), Issued(v))
    case Expire(key, expireAt) =>
      (match Find(n, key, now)
       case None => (Looked(n, key, now), Skipped)
       case Some(r) =>
         var v := IssuedVersion(n, key, now);
         (Issue(n, Put(key, r.value, expireAt, v), now), Issued(v)))
    case Remove(key) =>
      if Find(n, key, now).None? then (Looked(n, key, now), Skipped)
      else
        var v := IssuedVersion(n, key, now);
        (Issue(n, Del(key, v), now), Issued(v))
    case Merge(op) =>
      var seen := n.(clock := Observe(n.clock, op.version.ts));
      if Stale(seen, op.key, op.version, now) then (Looked(seen, op.key, now), Ignored)
      else (Apply(Looked(seen, op.key, now), op, now).(log := n.log + [[op]]), Applied)
    case Frontier(from, f) =>
      var heard := Hear(n, from, f, now, forget);
      (heard, Heard(heard.frontier))
  }
}
