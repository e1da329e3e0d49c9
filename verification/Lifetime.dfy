/** The store over its lifetimes: commands, expiry, hibernation, log rewrites and restarts; what a restart shows. */
module Lifetime {
  import opened Hlc
  import opened Node
  import opened NodeLaws
  import opened Persistence
  import opened Restart
  import opened Wrappers

  // A rewrite under way. `was` and `tombs` are the memory the child inherited; `asleep` are the snapshots that the
  // sleeping rooms had at the fork; `read` is what the child found in the snapshot files when it came to them.
  datatype Fork = Fork(
    was: Records,
    tombs: map<Key, Version>,
    asleep: map<string, Records>,
    read: map<string, Records>,
    unread: set<string>,
    from: nat,
    now: int)

  // `disk` is the current log file, `snaps` the snapshot files, `time` the last wall-clock reading. Two sets are history:
  // `lost`, the live keys that the log alone does not show, and `forgotten`, the keys that went with a snapshot that could
  // not be read, and were not logged since.
  datatype Store = Store(
    node: Node,
    disk: seq<Entry>,
    awake: set<string>,
    snaps: map<string, Records>,
    time: int,
    rewrite: Option<Fork>,
    lost: set<Key>,
    forgotten: set<Key>)

  function Empty(id: nat, peers: nat, now: int): Store {
    Store(Fresh(id, peers, now), [], {}, map[], now, None, {}, {})
  }

  // How the snapshot of a room that wakes was read: an unreadable file stays, a corrupt one is set aside.
  datatype Load = Read | Unreadable | Corrupt

  datatype Action =
    | Do(cmd: Cmd, now: int, forget: bool)            // a command; its reads of the cold file succeed
    | Clean(keys: set<Key>, now: int)                 // expired keys leave RAM, or the cold file at a compaction
    | Wake(room: string, load: Load)
    | Sleep(room: string, resident: set<Key>)         // the snapshot holds the resident keys; the others are cold
    | BeginRewrite(registered: set<string>, now: int) // discard snapshots of awake rooms, then fork
    | ReadSnapshot(room: string)                      // the child comes to a room that slept at the fork
    | ReadCorrupt(room: string)                       // it finds the snapshot corrupt, sets it aside and gives up
    | CommitRewrite(order: seq<Key>)
    | AbortRewrite
    | Reboot(now: int, failed: set<string>, corrupt: set<string>) // the snapshots of these rooms cannot be read

  function CmdKeys(cmd: Cmd): set<Key> {
    match cmd
    case Mset(pairs) => set i | 0 <= i < |pairs| :: pairs[i].0
    case Merge(op) => {op.key}
    case Frontier(_, _) => {}
    case _ => {cmd.key}
  }

  // What the snapshot files hold; a room's file holds keys of that room only.
  function Loaded(snaps: map<string, Records>): Records {
    map r, k | r in snaps && k in snaps[r] && k.room == r :: k := snaps[r][k]
  }

  // What the child writes: resident and cold keys as of the fork, over the snapshots as it read them.
  function Child(f: Fork): Records {
    Loaded(f.read) + (f.was - Loaded(f.asleep).Keys)
  }

  function Tail(s: Store, f: Fork): seq<Entry>
    requires f.from <= |s.disk|
  {
    s.disk[f.from..]
  }

  // What the rewritten file would hold: the child's dump, then the records logged since the fork.
  function Spliced(s: Store, f: Fork, order: seq<Key>): seq<Entry>
    requires f.from <= |s.disk|
  {
    Dump(Child(f), f.tombs, order, f.now) + Tail(s, f)
  }

  // The keys a commit drops from the log: live, not logged since the fork, and either not written by the child or
  // deleted again by a tombstone that the dump puts after them.
  ghost function Dropped(s: Store, f: Fork): set<Key>
    requires f.from <= |s.disk|
  {
    set k | k in s.node.records && !Touches(Tail(s, f), k) && (k !in Child(f) || k in f.tombs)
  }

  // The records a process started now would hold: sleeping rooms' snapshots, and the log applied over them.
  function Restarted(s: Store): Records {
    ApplyLog(Loaded(s.snaps), s.disk)
  }

  function TouchedRooms(log: seq<Entry>): set<string> {
    set e, op | 0 <= e < |log| && op in log[e] :: op.key.room
  }

  function Without(snaps: map<string, Records>, failed: set<string>): map<string, Records> {
    map r | r in snaps && r !in failed :: snaps[r]
  }

  function Started(s: Store, now: int, failed: set<string>): Node {
    var n := Replay(Fresh(s.node.id, s.node.peers, now).(records := Loaded(Without(s.snaps, failed))), s.disk);
    n.(clock := Next(n.clock, now, 0), frontier := Next(n.clock, now, 0))
  }

  ghost predicate CanAct(s: Store, a: Action) {
    match a
    case Do(cmd, now, forget) => s.time <= now && forall k :: k in CmdKeys(cmd) ==> k.room in s.awake
    case Clean(keys, now) =>
      && s.time <= now
      && forall k :: k in keys && k in s.node.records ==>
           s.node.records[k].Expired(now) &&
           (k.room in s.awake || k.room !in s.snaps || k !in s.snaps[k.room])
    case Wake(room, load) => true
    case Sleep(room, resident) => room in s.awake && room != "default" // which is pinned
    case BeginRewrite(registered, now) => s.time <= now && s.rewrite.None?
    case ReadSnapshot(room) => s.rewrite.Some? && room in s.rewrite.value.unread
    case ReadCorrupt(room) => s.rewrite.Some? && room in s.rewrite.value.unread
    case CommitRewrite(order) =>
      && s.rewrite.Some? && s.rewrite.value.unread == {} && s.rewrite.value.from <= |s.disk|
      && Lists(order, Child(s.rewrite.value), s.rewrite.value.tombs)
    case AbortRewrite => s.rewrite.Some?
    case Reboot(now, failed, corrupt) => s.time <= now && corrupt <= failed <= TouchedRooms(s.disk)
  }

  // The keys that go with the snapshot of a room that wakes.
  function Unread(s: Store, room: string, load: Load): set<Key> {
    if load.Read? || room in s.awake || room !in s.snaps then {} else s.snaps[room].Keys
  }

  ghost function StillLost(lost: set<Key>, added: seq<Entry>): set<Key> {
    set k | k in lost && !Touches(added, k)
  }

  // The store after a command that took its node to m.
  ghost function After(s: Store, m: Node, now: int): Store
    requires |s.node.log| <= |m.log|
  {
    var added := Added(s.node, m);
    s.(node := m, disk := s.disk + added, time := now, lost := StillLost(s.lost, added),
       forgotten := StillLost(s.forgotten, added))
  }

  ghost function Act(s: Store, a: Action): Store
    requires CanAct(s, a)
  {
    match a
    case Do(cmd, now, forget) =>
      ExecLogsEffect(s.node, cmd, now, forget);
      After(s, Exec(s.node, cmd, now, forget).0, now)
    case Clean(keys, now) => s.(node := s.node.(records := s.node.records - keys), time := now)
    case Wake(room, load) =>
      var gone := Unread(s, room, load);
      s.(node := s.node.(records := s.node.records - gone), awake := s.awake + {room}, forgotten := s.forgotten + gone,
         snaps := if load.Corrupt? && room !in s.awake then Without(s.snaps, {room}) else s.snaps)
    case Sleep(room, resident) =>
      var kept := map k | k in s.node.records && k in resident && k.room == room :: s.node.records[k];
      s.(awake := s.awake - {room}, snaps := s.snaps[room := kept])
    case BeginRewrite(registered, now) =>
      var kept := map r | r in s.snaps && r !in s.awake :: s.snaps[r];
      var fork := Fork(s.node.records, s.node.tombs, kept, map[], kept.Keys * registered, |s.disk|, now);
      s.(snaps := kept, rewrite := Some(fork), time := now)
    case ReadSnapshot(room) =>
      var f := s.rewrite.value;
      var found := if room in s.snaps then s.snaps[room] else map[];
      s.(rewrite := Some(f.(read := f.read[room := found], unread := f.unread - {room})))
    case ReadCorrupt(room) =>
      var gone := Unread(s, room, Corrupt);
      s.(node := s.node.(records := s.node.records - gone), forgotten := s.forgotten + gone,
         snaps := Without(s.snaps, {room}), rewrite := None)
    case CommitRewrite(order) =>
      var f := s.rewrite.value;
      s.(disk := Spliced(s, f, order), rewrite := None, lost := Dropped(s, f))
    case AbortRewrite => s.(rewrite := None)
    case Reboot(now, failed, corrupt) =>
      var node := Started(s, now, failed);
      s.(node := node, awake := TouchedRooms(s.disk), snaps := Without(s.snaps, corrupt), time := now, rewrite := None,
         lost := Unlogged(node.records, s.disk), forgotten := Unlogged(Loaded(s.snaps), s.disk) - node.records.Keys)
  }

  // -------- the invariant --------

  ghost predicate Visible(a: Records, k: Key, t: int) {
    k in a && !a[k].Expired(t)
  }

  // Two maps show the same for one key.
  ghost predicate Alike(a: Records, b: Records, k: Key, t: int) {
    (Visible(a, k, t) <==> Visible(b, k, t)) && (Visible(a, k, t) ==> a[k] == b[k])
  }

  lemma AlikeLater(a: Records, b: Records, k: Key, t: int, later: int)
    requires Alike(a, b, k, t) && t <= later
    ensures Alike(a, b, k, later)
  {
  }

  lemma ViewKey(a: Records, k: Key, t: int)
    ensures k in View(a, t) <==> Visible(a, k, t)
    ensures k in View(a, t) ==> View(a, t)[k] == a[k]
  {
  }

  lemma SameViewAlike(a: Records, b: Records, t: int)
    ensures SameView(a, b, t) <==> forall k :: Alike(a, b, k, t)
  {
    if SameView(a, b, t) {
      forall k ensures Alike(a, b, k, t) { SameViewKey(a, b, t, k); }
    }
    if forall k :: Alike(a, b, k, t) {
      forall k
        ensures (k in View(a, t)) <==> (k in View(b, t))
        ensures k in View(a, t) ==> View(a, t)[k] == View(b, t)[k]
      {
        assert Alike(a, b, k, t);
      }
    }
  }

  // The log shows nothing of a lost key, and every other live key; of a forgotten one it may show anything.
  ghost predicate LogKey(log: seq<Entry>, records: Records, lost: set<Key>, forgotten: set<Key>, t: int, k: Key) {
    if k in lost then k !in ApplyLog(map[], log) else k in forgotten || Alike(ApplyLog(map[], log), records, k, t)
  }

  ghost predicate LogInv(log: seq<Entry>, records: Records, lost: set<Key>, forgotten: set<Key>, t: int) {
    forall k :: LogKey(log, records, lost, forgotten, t, k)
  }

  // A key in a snapshot that the log does not mention is live as the snapshot has it, unless it was forgotten.
  ghost predicate SnapsInv(log: seq<Entry>, snaps: map<string, Records>, records: Records, forgotten: set<Key>, t: int) {
    forall r, k :: r in snaps && k in snaps[r] && !Touches(log, k) && k !in forgotten ==> Alike(snaps[r], records, k, t)
  }

  ghost predicate Gone(records: Records, forgotten: set<Key>, t: int) {
    forall k :: k in forgotten ==> !Visible(records, k, t)
  }

  ghost predicate OwnRoom(snaps: map<string, Records>) {
    forall r, k :: r in snaps && k in snaps[r] ==> k.room == r
  }

  ghost predicate SleepersExact(s: Store) {
    forall r, k :: r in s.snaps && r !in s.awake && k in s.snaps[r] ==>
      k in s.node.records && s.node.records[k] == s.snaps[r][k]
  }

  // Since the fork: a key is live as the later records say, or as it was, unless it was forgotten.
  ghost predicate SinceKey(tail: seq<Entry>, was: Records, records: Records, forgotten: set<Key>, t: int, k: Key) {
    k in forgotten || if Touches(tail, k) then Alike(ApplyLog(map[], tail), records, k, t) else Alike(was, records, k, t)
  }

  ghost predicate SinceInv(tail: seq<Entry>, was: Records, records: Records, forgotten: set<Key>, t: int) {
    forall k :: SinceKey(tail, was, records, forgotten, t, k)
  }

  ghost predicate ForkInv(s: Store, f: Fork) {
    && f.from <= |s.disk| && f.now <= s.time
    && SinceInv(Tail(s, f), f.was, s.node.records, s.forgotten, s.time)
    && SnapsInv(Tail(s, f), s.snaps, f.was, s.forgotten, s.time)
    && SnapsInv(Tail(s, f), f.read, f.was, s.forgotten, s.time)
    && OwnRoom(f.read) && OwnRoom(f.asleep)
  }

  ghost predicate Inv(s: Store) {
    && OwnRoom(s.snaps) && SleepersExact(s)
    && LogInv(s.disk, s.node.records, s.lost, s.forgotten, s.time)
    && SnapsInv(s.disk, s.snaps, s.node.records, s.forgotten, s.time)
    && Gone(s.node.records, s.forgotten, s.time)
    && (s.rewrite.Some? ==> ForkInv(s, s.rewrite.value))
  }

  // -------- commands --------

  // A key the new entries mention is live as they say; any other is as it was.
  lemma EffectKey(n: Node, m: Node, now: int, base: Records, k: Key)
    requires LogsEffect(n, m, now)
    ensures var added := Added(n, m);
            if Touches(added, k) then Alike(ApplyLog(base, added), m.records, k, now)
            else Alike(n.records, m.records, k, now)
  {
    var added := Added(n, m);
    SameViewAlike(m.records, ApplyLog(n.records, added), now);
    assert Alike(m.records, ApplyLog(n.records, added), k, now);
    if Touches(added, k) {
      AgreeLog(base, n.records, added, k);
    } else {
      Untouched(n.records, added, k);
    }
  }

  lemma DoLogKey(log: seq<Entry>, n: Node, m: Node, lost: set<Key>, forgotten: set<Key>, t: int, now: int, k: Key)
    requires LogKey(log, n.records, lost, forgotten, t, k) && t <= now && LogsEffect(n, m, now)
    ensures var added := Added(n, m);
            LogKey(log + added, m.records, StillLost(lost, added), StillLost(forgotten, added), now, k)
  {
    hide ApplyLog, Touches;
    var added := Added(n, m);
    ApplyLogConcat(map[], log, added);
    var before := ApplyLog(map[], log);
    EffectKey(n, m, now, before, k);
    if !Touches(added, k) {
      Untouched(before, added, k);
      if k !in lost && k !in forgotten { AlikeLater(before, n.records, k, t, now); }
    }
  }

  lemma DoSinceKey(tail: seq<Entry>, was: Records, n: Node, m: Node, forgotten: set<Key>, t: int, now: int, k: Key)
    requires SinceKey(tail, was, n.records, forgotten, t, k) && t <= now && LogsEffect(n, m, now)
    ensures SinceKey(tail + Added(n, m), was, m.records, StillLost(forgotten, Added(n, m)), now, k)
  {
    hide ApplyLog, Touches;
    var added := Added(n, m);
    TouchesConcat(tail, added, k);
    ApplyLogConcat(map[], tail, added);
    var before := ApplyLog(map[], tail);
    EffectKey(n, m, now, before, k);
    if !Touches(added, k) {
      Untouched(before, added, k);
      if k !in forgotten { AlikeLater(if Touches(tail, k) then before else was, n.records, k, t, now); }
    }
  }

  lemma DoSnaps(log: seq<Entry>, snaps: map<string, Records>, n: Node, m: Node, forgotten: set<Key>, t: int, now: int)
    requires SnapsInv(log, snaps, n.records, forgotten, t) && t <= now && LogsEffect(n, m, now)
    ensures SnapsInv(log + Added(n, m), snaps, m.records, StillLost(forgotten, Added(n, m)), now)
  {
    hide Touches, SameView;
    var added := Added(n, m);
    forall r, k | r in snaps && k in snaps[r] && !Touches(log + added, k) && k !in StillLost(forgotten, added)
      ensures Alike(snaps[r], m.records, k, now)
    {
      TouchesConcat(log, added, k);
      EffectKey(n, m, now, map[], k);
      AlikeLater(snaps[r], n.records, k, t, now);
    }
  }

  lemma SnapsLater(log: seq<Entry>, more: seq<Entry>, snaps: map<string, Records>, records: Records, forgotten: set<Key>,
                   t: int, now: int)
    requires SnapsInv(log, snaps, records, forgotten, t) && t <= now
    ensures SnapsInv(log + more, snaps, records, StillLost(forgotten, more), now)
  {
    hide Touches;
    forall r, k | r in snaps && k in snaps[r] && !Touches(log + more, k) && k !in StillLost(forgotten, more)
      ensures Alike(snaps[r], records, k, now)
    {
      TouchesConcat(log, more, k);
      AlikeLater(snaps[r], records, k, t, now);
    }
  }

  lemma {:induction false} WriteAllFrame(n: Node, pairs: seq<(Key, string)>, v: Version, now: int, k: Key)
    requires forall i :: 0 <= i < |pairs| ==> pairs[i].0 != k
    ensures AgreeAt(n.records, WriteAll(n, pairs, v, now).records, k)
  {
    if pairs != [] { WriteAllFrame(n, pairs[..|pairs| - 1], v, now, k); }
  }

  lemma ApplyFrame(n: Node, op: Op, now: int, k: Key)
    requires k != op.key
    ensures AgreeAt(n.records, Apply(n, op, now).records, k)
  {
  }

  lemma LookedFrame(n: Node, key: Key, now: int, k: Key)
    requires k != key
    ensures AgreeAt(n.records, Looked(n, key, now).records, k)
  {
  }

  lemma MsetFrame(n: Node, pairs: seq<(Key, string)>, v: Version, now: int, k: Key)
    requires k !in CmdKeys(Mset(pairs))
    ensures AgreeAt(n.records, WriteAll(n, pairs, v, now).records, k)
  {
    forall i | 0 <= i < |pairs|
      ensures pairs[i].0 != k
    {
      assert pairs[i].0 in CmdKeys(Mset(pairs));
    }
    WriteAllFrame(n, pairs, v, now, k);
  }

  // A command only changes the keys it names.
  lemma ExecFrame(n: Node, cmd: Cmd, now: int, forget: bool, k: Key)
    requires k !in CmdKeys(cmd)
    ensures AgreeAt(n.records, Exec(n, cmd, now, forget).0.records, k)
  {
    hide Apply, Looked, WriteAll, MaxOverwritten, IssuedVersion, Stale;
    match cmd
    case Set(key, value, expireAt, nx, xx) =>
      ApplyFrame(n, Put(key, value, expireAt, IssuedVersion(n, key, now)), now, k);
      LookedFrame(n, key, now, k);
    case Mset(pairs) =>
      MsetFrame(n, pairs, Version(Next(n.clock, now, MaxOverwritten(n, pairs, now)), n.id), now, k);
    case Expire(key, expireAt) =>
      LookedFrame(n, key, now, k);
      if key in n.records {
        ApplyFrame(n, Put(key, n.records[key].value, expireAt, IssuedVersion(n, key, now)), now, k);
      }
    case Remove(key) =>
      ApplyFrame(n, Del(key, IssuedVersion(n, key, now)), now, k);
      LookedFrame(n, key, now, k);
    case Merge(op) =>
      var seen := n.(clock := Observe(n.clock, op.version.ts));
      LookedFrame(seen, op.key, now, k);
      ApplyFrame(Looked(seen, op.key, now), op, now, k);
    case Frontier(from, f) =>
  }

  lemma AfterInv(s: Store, m: Node, now: int)
    requires Inv(s) && s.time <= now && LogsEffect(s.node, m, now)
    requires forall k: Key :: k.room !in s.awake ==> AgreeAt(s.node.records, m.records, k)
    ensures Inv(After(s, m, now))
  {
    hide LogKey, SinceKey, SnapsInv, SameView, Touches, Alike, StillLost, Gone;
    var s' := After(s, m, now);
    var added := Added(s.node, m);
    SleepersKept(s, m, now);
    forall k ensures LogKey(s'.disk, m.records, s'.lost, s'.forgotten, now, k) {
      DoLogKey(s.disk, s.node, m, s.lost, s.forgotten, s.time, now, k);
    }
    DoSnaps(s.disk, s.snaps, s.node, m, s.forgotten, s.time, now);
    DoGone(s.node, m, s.forgotten, s.time, now);
    if s.rewrite.Some? {
      var f := s.rewrite.value;
      assert Tail(s', f) == Tail(s, f) + added;
      forall k ensures SinceKey(Tail(s', f), f.was, m.records, s'.forgotten, now, k) {
        DoSinceKey(Tail(s, f), f.was, s.node, m, s.forgotten, s.time, now, k);
      }
      SnapsLater(Tail(s, f), added, s.snaps, f.was, s.forgotten, s.time, now);
      SnapsLater(Tail(s, f), added, f.read, f.was, s.forgotten, s.time, now);
    }
  }

  lemma DoGone(n: Node, m: Node, forgotten: set<Key>, t: int, now: int)
    requires Gone(n.records, forgotten, t) && t <= now && LogsEffect(n, m, now)
    ensures Gone(m.records, StillLost(forgotten, Added(n, m)), now)
  {
    hide Touches, SameView;
    forall k | k in StillLost(forgotten, Added(n, m))
      ensures !Visible(m.records, k, now)
    {
      EffectKey(n, m, now, map[], k);
    }
  }

  lemma SleepersKept(s: Store, m: Node, now: int)
    requires SleepersExact(s) && OwnRoom(s.snaps) && |s.node.log| <= |m.log|
    requires forall k: Key :: k.room !in s.awake ==> AgreeAt(s.node.records, m.records, k)
    ensures SleepersExact(After(s, m, now))
  {
    forall r, k | r in s.snaps && r !in s.awake && k in s.snaps[r]
      ensures k in m.records && m.records[k] == s.snaps[r][k]
    {
      assert AgreeAt(s.node.records, m.records, k);
    }
  }

  lemma DoInv(s: Store, cmd: Cmd, now: int, forget: bool)
    requires Inv(s) && CanAct(s, Do(cmd, now, forget))
    ensures Inv(Act(s, Do(cmd, now, forget)))
  {
    hide Exec, Inv;
    var m := Exec(s.node, cmd, now, forget).0;
    ExecLogsEffect(s.node, cmd, now, forget);
    forall k: Key | k.room !in s.awake
      ensures AgreeAt(s.node.records, m.records, k)
    {
      ExecFrame(s.node, cmd, now, forget, k);
    }
    AfterInv(s, m, now);
  }

  // -------- expiry, hibernation and the fork --------

  lemma CleanInv(s: Store, keys: set<Key>, now: int)
    requires Inv(s) && CanAct(s, Clean(keys, now))
    ensures Inv(Act(s, Clean(keys, now)))
  {
    var left := s.node.records - keys;
    hide Touches, ApplyLog;
    forall k ensures Alike(s.node.records, left, k, now) {}
    forall k ensures LogKey(s.disk, left, s.lost, s.forgotten, now, k) {
      assert LogKey(s.disk, s.node.records, s.lost, s.forgotten, s.time, k);
    }
    if s.rewrite.Some? {
      var f := s.rewrite.value;
      var s' := Act(s, Clean(keys, now));
      assert Tail(s', f) == Tail(s, f);
      forall k ensures SinceKey(Tail(s, f), f.was, left, s.forgotten, now, k) {
        assert SinceKey(Tail(s, f), f.was, s.node.records, s.forgotten, s.time, k);
      }
    }
  }

  lemma SleepInv(s: Store, room: string, resident: set<Key>)
    requires Inv(s) && CanAct(s, Sleep(room, resident))
    ensures Inv(Act(s, Sleep(room, resident)))
  {
    hide Touches, ApplyLog;
    var s' := Act(s, Sleep(room, resident));
    if s.rewrite.Some? {
      var f := s.rewrite.value;
      assert Tail(s', f) == Tail(s, f);
      forall r, k | r in s'.snaps && k in s'.snaps[r] && !Touches(Tail(s, f), k) && k !in s.forgotten
        ensures Alike(s'.snaps[r], f.was, k, s.time)
      {
        assert SinceKey(Tail(s, f), f.was, s.node.records, s.forgotten, s.time, k);
      }
    }
  }

  lemma BeginInv(s: Store, registered: set<string>, now: int)
    requires Inv(s) && CanAct(s, BeginRewrite(registered, now))
    ensures Inv(Act(s, BeginRewrite(registered, now)))
  {
    hide Touches, ApplyLog;
    var s' := Act(s, BeginRewrite(registered, now));
    var f := s'.rewrite.value;
    assert Tail(s', f) == [];
    NothingTouched();
    forall k ensures LogKey(s.disk, s.node.records, s.lost, s.forgotten, now, k) {
      assert LogKey(s.disk, s.node.records, s.lost, s.forgotten, s.time, k);
    }
  }

  lemma NothingTouched()
    ensures forall k :: !Touches([], k)
  {
  }

  lemma ReadInv(s: Store, room: string)
    requires Inv(s) && CanAct(s, ReadSnapshot(room))
    ensures Inv(Act(s, ReadSnapshot(room)))
  {
    hide Touches, ApplyLog, LogInv, SinceInv;
    var s' := Act(s, ReadSnapshot(room));
    assert Tail(s', s'.rewrite.value) == Tail(s, s.rewrite.value);
  }

  // -------- the commit --------

  lemma ChildKey(s: Store, f: Fork, k: Key)
    requires ForkInv(s, f) && !Touches(Tail(s, f), k) && k in Child(f) && k !in s.forgotten
    ensures Alike(Child(f), f.was, k, s.time)
  {
    hide Touches, SinceInv;
    if k in f.was && k !in Loaded(f.asleep) {
    } else {
      assert k.room in f.read && k in f.read[k.room];
    }
  }

  lemma CommitKey(s: Store, f: Fork, order: seq<Key>, k: Key)
    requires ForkInv(s, f) && Lists(order, Child(f), f.tombs)
    ensures LogKey(Spliced(s, f, order), s.node.records, Dropped(s, f), s.forgotten, s.time, k)
  {
    hide Touches, ApplyLog, SinceInv, SnapsInv, Dump;
    var dump, tail := Dump(Child(f), f.tombs, order, f.now), Tail(s, f);
    ApplyLogConcat(map[], dump, tail);
    CommitSince(s, f, k);
    if Touches(tail, k) {
      AgreeLog(map[], ApplyLog(map[], dump), tail, k);
    } else {
      Untouched(ApplyLog(map[], dump), tail, k);
      DumpMeaning(Child(f), f.tombs, order, f.now, k);
      if k in Child(f) && k !in s.forgotten { ChildKey(s, f, k); }
    }
  }

  lemma CommitSince(s: Store, f: Fork, k: Key)
    requires ForkInv(s, f)
    ensures SinceKey(Tail(s, f), f.was, s.node.records, s.forgotten, s.time, k)
  {
  }

  lemma CommitInv(s: Store, order: seq<Key>)
    requires Inv(s) && CanAct(s, CommitRewrite(order))
    ensures Inv(Act(s, CommitRewrite(order)))
  {
    hide Touches, ApplyLog, ForkInv, LogKey, Spliced, Dropped, SnapsInv, SleepersExact, OwnRoom, Gone, Lists, Child;
    var f := s.rewrite.value;
    forall k ensures LogKey(Spliced(s, f, order), s.node.records, Dropped(s, f), s.forgotten, s.time, k) {
      CommitKey(s, f, order, k);
    }
    CommitSnaps(s, f, order);
    SameSleepers(s, Act(s, CommitRewrite(order)));
  }

  lemma SameSleepers(s: Store, s': Store)
    requires SleepersExact(s) && s'.snaps == s.snaps && s'.awake == s.awake && s'.node == s.node
    ensures SleepersExact(s')
  {
  }

  lemma CommitSnaps(s: Store, f: Fork, order: seq<Key>)
    requires ForkInv(s, f)
    ensures SnapsInv(Spliced(s, f, order), s.snaps, s.node.records, s.forgotten, s.time)
  {
    hide Touches, ApplyLog, SinceInv, Dump;
    forall r, k | r in s.snaps && k in s.snaps[r] && !Touches(Spliced(s, f, order), k) && k !in s.forgotten
      ensures Alike(s.snaps[r], s.node.records, k, s.time)
    {
      TouchesConcat(Dump(Child(f), f.tombs, order, f.now), Tail(s, f), k);
      CommitSince(s, f, k);
    }
  }

  // -------- the restart --------

  lemma StartedRecords(s: Store, now: int, failed: set<string>)
    ensures Started(s, now, failed).records == ApplyLog(Loaded(Without(s.snaps, failed)), s.disk)
    ensures Started(s, now, failed).id == s.node.id && Started(s, now, failed).peers == s.node.peers
  {
    var n := Fresh(s.node.id, s.node.peers, now).(records := Loaded(Without(s.snaps, failed)));
    ReplayMeaning(n, s.disk);
    ReplayIdentity(n, s.disk);
  }

  lemma {:induction false} ReplayEntryIdentity(n: Node, entry: Entry)
    ensures ReplayEntry(n, entry).id == n.id && ReplayEntry(n, entry).peers == n.peers
  {
    if entry != [] { ReplayEntryIdentity(n, entry[..|entry| - 1]); }
  }

  lemma {:induction false} ReplayIdentity(n: Node, log: seq<Entry>)
    ensures Replay(n, log).id == n.id && Replay(n, log).peers == n.peers
  {
    if log != [] {
      ReplayIdentity(n, log[..|log| - 1]);
      ReplayEntryIdentity(Replay(n, log[..|log| - 1]), log[|log| - 1]);
    }
  }

  // The keys that the files show but the log does not mention.
  ghost function Unlogged(records: Records, log: seq<Entry>): set<Key> {
    set k | k in records && !Touches(log, k)
  }

  lemma RebootLog(base: Records, log: seq<Entry>, forgotten: set<Key>, t: int)
    ensures LogInv(log, ApplyLog(base, log), Unlogged(ApplyLog(base, log), log), forgotten, t)
  {
    hide Touches, ApplyLog;
    var records := ApplyLog(base, log);
    forall k ensures LogKey(log, records, Unlogged(records, log), forgotten, t, k) {
      if Touches(log, k) {
        AgreeLog(map[], base, log, k);
      } else {
        Untouched(map[], log, k);
        Untouched(base, log, k);
      }
    }
  }

  // A key of a snapshot that was read, and that the log does not mention, is live as the snapshot has it; one of a
  // snapshot that was not read is forgotten.
  lemma RebootSnaps(snaps: map<string, Records>, log: seq<Entry>, failed: set<string>, r: string, k: Key)
    requires OwnRoom(snaps) && r in snaps && k in snaps[r] && !Touches(log, k)
    ensures var records := ApplyLog(Loaded(Without(snaps, failed)), log);
            if r in failed then k !in records && k in Unlogged(Loaded(snaps), log)
            else k in records && records[k] == snaps[r][k]
  {
    hide Touches, ApplyLog;
    Untouched(Loaded(Without(snaps, failed)), log, k);
    assert k in Loaded(snaps);
  }

  lemma RebootInv(s: Store, now: int, failed: set<string>, corrupt: set<string>)
    requires Inv(s) && CanAct(s, Reboot(now, failed, corrupt))
    ensures Inv(Act(s, Reboot(now, failed, corrupt)))
  {
    hide Touches, ApplyLog, LogInv, Started, TouchedRooms, Loaded, Without, Unlogged;
    var s' := Act(s, Reboot(now, failed, corrupt));
    WithoutSome(s.snaps, corrupt);
    StartedRecords(s, now, failed);
    RebootLog(Loaded(Without(s.snaps, failed)), s.disk, s'.forgotten, now);
    forall r, k | r in s.snaps && k in s.snaps[r]
      ensures !Touches(s.disk, k) && k !in s'.forgotten ==> k in s'.node.records && s'.node.records[k] == s.snaps[r][k]
      ensures r !in TouchedRooms(s.disk) ==> k in s'.node.records && s'.node.records[k] == s.snaps[r][k]
    {
      if !Touches(s.disk, k) { RebootSnaps(s.snaps, s.disk, failed, r, k); }
      if r !in TouchedRooms(s.disk) { UntouchedRoom(s.disk, k); }
    }
  }

  lemma WithoutSome(snaps: map<string, Records>, corrupt: set<string>)
    ensures forall r :: r in Without(snaps, corrupt) ==> r in snaps && Without(snaps, corrupt)[r] == snaps[r]
  {
  }

  lemma UntouchedRoom(log: seq<Entry>, k: Key)
    requires k.room !in TouchedRooms(log)
    ensures !Touches(log, k)
  {
  }

  // Every step keeps the invariant.
  lemma ActInv(s: Store, a: Action)
    requires Inv(s) && CanAct(s, a)
    ensures Inv(Act(s, a))
  {
    match a
    case Do(cmd, now, forget) => DoInv(s, cmd, now, forget);
    case Clean(keys, now) => CleanInv(s, keys, now);
    case Wake(room, load) => WakeInv(s, room, load);
    case Sleep(room, resident) => SleepInv(s, room, resident);
    case BeginRewrite(registered, now) => BeginInv(s, registered, now);
    case ReadSnapshot(room) => ReadInv(s, room);
    case ReadCorrupt(room) => ReadCorruptInv(s, room);
    case CommitRewrite(order) => CommitInv(s, order);
    case AbortRewrite => AbortInv(s);
    case Reboot(now, failed, corrupt) => RebootInv(s, now, failed, corrupt);
  }

  lemma WakeInv(s: Store, room: string, load: Load)
    requires Inv(s)
    ensures Inv(Act(s, Wake(room, load)))
  {
    hide Touches, ApplyLog;
    var s' := Act(s, Wake(room, load));
    var gone := Unread(s, room, load);
    forall k ensures k !in s'.forgotten ==> Alike(s.node.records, s'.node.records, k, s.time) {}
    forall k ensures LogKey(s.disk, s'.node.records, s.lost, s'.forgotten, s.time, k) {
      assert LogKey(s.disk, s.node.records, s.lost, s.forgotten, s.time, k);
    }
    WakeSleepers(s, room, load);
    if s.rewrite.Some? {
      var f := s.rewrite.value;
      assert Tail(s', f) == Tail(s, f);
      forall k ensures SinceKey(Tail(s, f), f.was, s'.node.records, s'.forgotten, s.time, k) {
        assert SinceKey(Tail(s, f), f.was, s.node.records, s.forgotten, s.time, k);
      }
    }
  }

  lemma WakeSleepers(s: Store, room: string, load: Load)
    requires SleepersExact(s) && OwnRoom(s.snaps)
    ensures SleepersExact(Act(s, Wake(room, load)))
  {
    var s' := Act(s, Wake(room, load));
    forall r, k | r in s'.snaps && r !in s'.awake && k in s'.snaps[r]
      ensures k in s'.node.records && s'.node.records[k] == s'.snaps[r][k]
    {
      assert r != room && s'.snaps[r] == s.snaps[r] && k.room == r;
      assert k !in Unread(s, room, load);
    }
  }

  // Setting the file aside forgets what waking the room with it would forget.
  lemma ReadCorruptInv(s: Store, room: string)
    requires Inv(s) && CanAct(s, ReadCorrupt(room))
    ensures Inv(Act(s, ReadCorrupt(room)))
  {
    hide Touches, ApplyLog, LogInv, SnapsInv, SinceInv;
    var dropped := s.(rewrite := None);
    AbortInv(s);
    WakeInv(dropped, room, Corrupt);
    var woken, s' := Act(dropped, Wake(room, Corrupt)), Act(s, ReadCorrupt(room));
    assert s'.node.records == woken.node.records && s'.forgotten == woken.forgotten;
    assert forall r :: r in s'.snaps ==> r != room && r in woken.snaps && s'.snaps[r] == woken.snaps[r];
    FewerSnaps(s.disk, woken.snaps, s'.snaps, s'.node.records, s'.forgotten, s.time);
  }

  lemma FewerSnaps(log: seq<Entry>, snaps: map<string, Records>, fewer: map<string, Records>, records: Records,
                   forgotten: set<Key>, t: int)
    requires SnapsInv(log, snaps, records, forgotten, t)
    requires forall r :: r in fewer ==> r in snaps && fewer[r] == snaps[r]
    ensures SnapsInv(log, fewer, records, forgotten, t)
  {
  }

  lemma AbortInv(s: Store)
    requires Inv(s) && s.rewrite.Some?
    ensures Inv(Act(s, AbortRewrite))
  {
    hide LogInv, SinceInv, SnapsInv;
  }

  // -------- runs --------

  ghost predicate CanRun(s: Store, run: seq<Action>)
    decreases |run|
  {
    run == [] || (CanAct(s, run[0]) && CanRun(Act(s, run[0]), run[1..]))
  }

  ghost function Final(s: Store, run: seq<Action>): Store
    requires CanRun(s, run)
    decreases |run|
  {
    if run == [] then s else Final(Act(s, run[0]), run[1..])
  }

  lemma {:induction false} RunInv(s: Store, run: seq<Action>)
    requires Inv(s) && CanRun(s, run)
    ensures Inv(Final(s, run))
    decreases |run|
  {
    hide Inv, Act, CanAct;
    if run != [] {
      ActInv(s, run[0]);
      RunInv(Act(s, run[0]), run[1..]);
    }
  }

  lemma EmptyInv(id: nat, peers: nat, now: int)
    ensures Inv(Empty(id, peers, now))
  {
  }

  // What a restart shows of one key that was not forgotten: the live record, or nothing of a lost one.
  lemma RestartKey(s: Store, t: int, k: Key)
    requires Inv(s) && s.time <= t && k !in s.forgotten
    ensures if k !in s.lost || (!Touches(s.disk, k) && k in Loaded(s.snaps)) then Alike(Restarted(s), s.node.records, k, t)
            else k !in Restarted(s)
  {
    hide Touches, ApplyLog, ForkInv, SleepersExact, Gone, LogKey, Alike;
    assert LogKey(s.disk, s.node.records, s.lost, s.forgotten, s.time, k);
    if k in Loaded(s.snaps) && !Touches(s.disk, k) {
      assert Alike(s.snaps[k.room], s.node.records, k, s.time);
      LoadedAlike(s.snaps, s.node.records, s.time, k);
    }
    AppliedKey(s.disk, Loaded(s.snaps), s.node.records, s.lost, s.forgotten, s.time, t, k);
  }

  lemma LoadedAlike(snaps: map<string, Records>, records: Records, t: int, k: Key)
    requires k in Loaded(snaps) && Alike(snaps[k.room], records, k, t)
    ensures Alike(Loaded(snaps), records, k, t)
  {
  }

  lemma AppliedKey(log: seq<Entry>, base: Records, records: Records, lost: set<Key>, forgotten: set<Key>, t: int,
                   later: int, k: Key)
    requires LogKey(log, records, lost, forgotten, t, k) && k !in forgotten && t <= later
    requires !Touches(log, k) && k in base ==> Alike(base, records, k, t)
    ensures if k !in lost || (!Touches(log, k) && k in base) then Alike(ApplyLog(base, log), records, k, later)
            else k !in ApplyLog(base, log)
  {
    hide Touches, ApplyLog;
    if Touches(log, k) {
      AgreeLog(map[], base, log, k);
    } else {
      Untouched(map[], log, k);
      Untouched(base, log, k);
    }
  }

  lemma ForgottenGone(s: Store, t: int, k: Key)
    requires Inv(s) && s.time <= t && k in s.forgotten
    ensures !Visible(s.node.records, k, t)
  {
  }

  // A restart shows nothing that is not live, but for keys whose snapshot could not be read: in every run of commands,
  // expiry, hibernation, waking, rewrites and earlier restarts, whatever the child of a rewrite read and whatever a dump
  // dropped, each key that replaying the file over the snapshots shows is live, with that value, deadline and version,
  // or was forgotten.
  lemma RestartNeverInvents(id: nat, peers: nat, start: int, run: seq<Action>, t: int)
    requires CanRun(Empty(id, peers, start), run)
    requires Final(Empty(id, peers, start), run).time <= t
    ensures var s := Final(Empty(id, peers, start), run);
            forall k :: k in View(Restarted(s), t) ==>
              k in s.forgotten || (k in View(s.node.records, t) && View(s.node.records, t)[k] == Restarted(s)[k])
  {
    hide Inv, Restarted;
    EmptyInv(id, peers, start);
    RunInv(Empty(id, peers, start), run);
    var s := Final(Empty(id, peers, start), run);
    forall k | k in View(Restarted(s), t) && k !in s.forgotten
      ensures k in View(s.node.records, t) && View(s.node.records, t)[k] == Restarted(s)[k]
    {
      RestartKey(s, t, k);
    }
  }

  // And it shows exactly the live keys if and only if each lost key that is still visible is kept by a snapshot and not
  // mentioned by the log, and no forgotten key is still shown by the log or a snapshot.
  lemma RestartShowsLiveIff(id: nat, peers: nat, start: int, run: seq<Action>, t: int)
    requires CanRun(Empty(id, peers, start), run)
    requires Final(Empty(id, peers, start), run).time <= t
    ensures var s := Final(Empty(id, peers, start), run);
            View(Restarted(s), t) == View(s.node.records, t) <==>
            && (forall k :: k in s.lost && k in View(s.node.records, t) ==> !Touches(s.disk, k) && k in Loaded(s.snaps))
            && (forall k :: k in s.forgotten ==> k !in View(Restarted(s), t))
  {
    hide Inv, Restarted, Touches, Loaded;
    EmptyInv(id, peers, start);
    RunInv(Empty(id, peers, start), run);
    var s := Final(Empty(id, peers, start), run);
    SameViewAlike(Restarted(s), s.node.records, t);
    forall k
      ensures Alike(Restarted(s), s.node.records, k, t) <==>
              && (k in s.lost && k in View(s.node.records, t) ==> !Touches(s.disk, k) && k in Loaded(s.snaps))
              && (k in s.forgotten ==> k !in View(Restarted(s), t))
    {
      ViewKey(s.node.records, k, t);
      ViewKey(Restarted(s), k, t);
      if k in s.forgotten { ForgottenGone(s, t, k); } else { RestartKey(s, t, k); }
    }
  }

  // -------- commits that lose nothing --------

  // A commit drops no visible key, and snapshots are read.
  ghost predicate Whole(s: Store, a: Action) {
    && (a.Wake? ==> Unread(s, a.room, a.load) == {}) && (a.ReadCorrupt? ==> Unread(s, a.room, Corrupt) == {})
    && (a.Reboot? ==> a.failed == {})
    && (a.CommitRewrite? && s.rewrite.Some? && s.rewrite.value.from <= |s.disk| ==>
          forall k :: k in Dropped(s, s.rewrite.value) ==> !Visible(s.node.records, k, s.time))
  }

  ghost predicate WholeRun(s: Store, run: seq<Action>)
    requires CanRun(s, run)
    decreases |run|
  {
    run == [] || (Whole(s, run[0]) && WholeRun(Act(s, run[0]), run[1..]))
  }

  ghost predicate Intact(s: Store) {
    s.forgotten == {} && forall k :: k in s.lost ==> !Visible(s.node.records, k, s.time)
  }

  lemma RebootIntact(s: Store, now: int, k: Key)
    requires Inv(s) && Intact(s) && s.time <= now && k in Unlogged(Restarted(s), s.disk)
    ensures !Visible(Restarted(s), k, now)
  {
    hide Touches, ApplyLog;
    RestartKey(s, now, k);
    assert LogKey(s.disk, s.node.records, s.lost, s.forgotten, s.time, k);
    Untouched(map[], s.disk, k);
  }

  lemma ActIntact(s: Store, a: Action)
    requires Inv(s) && Intact(s) && CanAct(s, a) && Whole(s, a)
    ensures Intact(Act(s, a))
  {
    hide Touches, ApplyLog, Inv, Started, SameView, Exec;
    var s' := Act(s, a);
    forall k | k in s'.lost
      ensures !Visible(s'.node.records, k, s'.time)
    {
      if a.Do? {
        ExecLogsEffect(s.node, a.cmd, a.now, a.forget);
        EffectKey(s.node, s'.node, a.now, map[], k);
      } else if a.Reboot? {
        StartedRecords(s, a.now, {});
        assert Without(s.snaps, {}) == s.snaps;
        RebootIntact(s, a.now, k);
      }
    }
    if a.Reboot? { NoneForgotten(s, a.now); }
  }

  lemma NoneForgotten(s: Store, now: int)
    ensures Unlogged(Loaded(s.snaps), s.disk) - Started(s, now, {}).records.Keys == {}
  {
    hide Touches, ApplyLog, Started;
    StartedRecords(s, now, {});
    assert Without(s.snaps, {}) == s.snaps;
    forall k | k in Unlogged(Loaded(s.snaps), s.disk)
      ensures k in Started(s, now, {}).records
    {
      Untouched(Loaded(s.snaps), s.disk, k);
    }
  }

  lemma {:induction false} RunIntact(s: Store, run: seq<Action>)
    requires Inv(s) && Intact(s) && CanRun(s, run) && WholeRun(s, run)
    ensures Intact(Final(s, run))
    decreases |run|
  {
    hide Inv, Act, CanAct, Whole, Intact;
    if run != [] {
      ActInv(s, run[0]);
      ActIntact(s, run[0]);
      RunIntact(Act(s, run[0]), run[1..]);
    }
  }

  // Replay equals live. From an empty directory, after any run of commands, expiry, hibernation, waking, rewrites and
  // restarts with successful appends and reads, in which no commit dropped a visible key, replaying the file over the
  // snapshots left on disk shows, at every time from the last step on, exactly the live keys with their values, deadlines and
  // versions.
  lemma RestartShowsLive(id: nat, peers: nat, start: int, run: seq<Action>, t: int)
    requires CanRun(Empty(id, peers, start), run) && WholeRun(Empty(id, peers, start), run)
    requires Final(Empty(id, peers, start), run).time <= t
    ensures var s := Final(Empty(id, peers, start), run);
            View(Restarted(s), t) == View(s.node.records, t)
  {
    hide Inv, Restarted, WholeRun, Touches;
    var s := Final(Empty(id, peers, start), run);
    EmptyInv(id, peers, start);
    RunIntact(Empty(id, peers, start), run);
    RestartShowsLiveIff(id, peers, start, run, t);
  }

  // -------- what exactly a commit drops --------

  lemma SpliceKey(s: Store, f: Fork, order: seq<Key>, t: int)
    requires ForkInv(s, f) && Lists(order, Child(f), f.tombs) && s.time <= t
    requires Gone(s.node.records, s.forgotten, s.time)
    ensures SameView(ApplyLog(map[], Spliced(s, f, order)), s.node.records, t) <==>
            && (forall k :: k in Dropped(s, f) ==> !Visible(s.node.records, k, t))
            && (forall k :: k in s.forgotten ==> !Visible(ApplyLog(map[], Spliced(s, f, order)), k, t))
  {
    hide SinceInv, SnapsInv, OwnRoom, Spliced, Dropped, ApplyLog, LogKey, Gone, SameView;
    forall k ensures LogKey(Spliced(s, f, order), s.node.records, Dropped(s, f), s.forgotten, s.time, k) {
      CommitKey(s, f, order, k);
    }
    LogShows(Spliced(s, f, order), s.node.records, Dropped(s, f), s.forgotten, s.time, t);
  }

  lemma LogShows(log: seq<Entry>, records: Records, lost: set<Key>, forgotten: set<Key>, t: int, later: int)
    requires LogInv(log, records, lost, forgotten, t) && Gone(records, forgotten, t) && t <= later
    ensures SameView(ApplyLog(map[], log), records, later) <==>
            && (forall k :: k in lost ==> !Visible(records, k, later))
            && (forall k :: k in forgotten ==> !Visible(ApplyLog(map[], log), k, later))
  {
    hide ApplyLog, LogKey, Gone, SameView, Alike, Visible;
    SameViewAlike(ApplyLog(map[], log), records, later);
    forall k
      ensures Alike(ApplyLog(map[], log), records, k, later) <==>
              && (k in lost ==> !Visible(records, k, later))
              && (k in forgotten ==> !Visible(ApplyLog(map[], log), k, later))
    {
      assert LogKey(log, records, lost, forgotten, t, k);
      AlikeUnlessLost(log, records, lost, forgotten, t, later, k);
    }
  }

  lemma AlikeUnlessLost(log: seq<Entry>, records: Records, lost: set<Key>, forgotten: set<Key>, t: int, later: int, k: Key)
    requires LogKey(log, records, lost, forgotten, t, k) && Gone(records, forgotten, t) && t <= later
    ensures Alike(ApplyLog(map[], log), records, k, later) <==>
            && (k in lost ==> !Visible(records, k, later))
            && (k in forgotten ==> !Visible(ApplyLog(map[], log), k, later))
  {
    hide ApplyLog;
  }

  // Live steps leave no key with both a record and a tombstone, so within one process lifetime neither does the fork.
  ghost predicate NoneBoth(s: Store) {
    Disjoint(s.node) && (s.rewrite.Some? ==> s.rewrite.value.was.Keys !! s.rewrite.value.tombs.Keys)
  }

  predicate OneLifetime(run: seq<Action>) {
    forall i :: 0 <= i < |run| ==> !run[i].Reboot?
  }

  lemma ActNoneBoth(s: Store, a: Action)
    requires NoneBoth(s) && CanAct(s, a) && !a.Reboot?
    ensures NoneBoth(Act(s, a))
  {
    hide Exec;
    if a.Do? {
      ExecLogsEffect(s.node, a.cmd, a.now, a.forget);
      ExecDisjoint(s.node, a.cmd, a.now, a.forget);
    }
  }

  lemma {:induction false} RunNoneBoth(s: Store, run: seq<Action>)
    requires NoneBoth(s) && CanRun(s, run) && OneLifetime(run)
    ensures NoneBoth(Final(s, run))
    decreases |run|
  {
    hide Act, CanAct, NoneBoth;
    if run != [] {
      ActNoneBoth(s, run[0]);
      RunNoneBoth(Act(s, run[0]), run[1..]);
    }
  }

  // Every visible key that was in the snapshot of a room asleep at the fork is in the snapshot the child read, or was
  // logged since.
  ghost predicate ReadInTime(s: Store, f: Fork, t: int)
    requires f.from <= |s.disk|
  {
    forall r, k :: r in f.asleep && k in f.asleep[r] && Visible(s.node.records, k, t) && !Touches(Tail(s, f), k) ==>
      r in f.read && k in f.read[r]
  }

  lemma DroppedSlept(s: Store, f: Fork, t: int, k: Key)
    requires ForkInv(s, f) && f.was.Keys !! f.tombs.Keys && s.time <= t && Gone(s.node.records, s.forgotten, s.time)
    requires k in Dropped(s, f) && Visible(s.node.records, k, t)
    ensures k.room in f.asleep && k in f.asleep[k.room] && !(k.room in f.read && k in f.read[k.room])
    ensures !Touches(Tail(s, f), k)
  {
    hide Touches, SnapsInv, ApplyLog, SinceInv;
    CommitSince(s, f, k);
  }

  lemma SleptDropped(s: Store, f: Fork, t: int, r: string, k: Key)
    requires ForkInv(s, f) && r in f.asleep && k in f.asleep[r] && !(r in f.read && k in f.read[r])
    requires Visible(s.node.records, k, t) && !Touches(Tail(s, f), k)
    ensures k in Dropped(s, f)
  {
    hide Touches, SnapsInv, ApplyLog, SinceInv;
    assert k in Loaded(f.asleep);
  }

  lemma DroppedInOneLifetime(s: Store, f: Fork, t: int)
    requires ForkInv(s, f) && f.was.Keys !! f.tombs.Keys && s.time <= t && Gone(s.node.records, s.forgotten, s.time)
    ensures ReadInTime(s, f, t) <==> forall k :: k in Dropped(s, f) ==> !Visible(s.node.records, k, t)
  {
    hide Touches, Dropped, SnapsInv, SinceInv, Visible;
    if ReadInTime(s, f, t) {
      forall k | k in Dropped(s, f)
        ensures !Visible(s.node.records, k, t)
      {
        if Visible(s.node.records, k, t) { DroppedSlept(s, f, t, k); }
      }
    } else {
      var r, k :| r in f.asleep && k in f.asleep[r] && Visible(s.node.records, k, t) && !Touches(Tail(s, f), k) &&
                  !(r in f.read && k in f.read[r]);
      SleptDropped(s, f, t, r, k);
    }
  }

  // Rewrite preserves meaning, within one process lifetime, exactly when the child read the sleeping rooms in time: the
  // dump followed by the records logged since shows the live store if and only if every visible key of a snapshot that
  // slept at the fork was still in the snapshot read, or was logged since the fork; and no forgotten key is shown.
  lemma SpliceShowsLiveIff(id: nat, peers: nat, start: int, run: seq<Action>, order: seq<Key>, t: int)
    requires CanRun(Empty(id, peers, start), run) && OneLifetime(run)
    requires var s := Final(Empty(id, peers, start), run);
             s.time <= t && s.rewrite.Some? && s.rewrite.value.unread == {} &&
             Lists(order, Child(s.rewrite.value), s.rewrite.value.tombs)
    ensures var s := Final(Empty(id, peers, start), run);
            var f := s.rewrite.value;
            f.from <= |s.disk| &&
            (View(ApplyLog(map[], Spliced(s, f, order)), t) == View(s.node.records, t) <==>
             ReadInTime(s, f, t) && forall k :: k in s.forgotten ==> !Visible(ApplyLog(map[], Spliced(s, f, order)), k, t))
  {
    hide ReadInTime, Dropped, Spliced, ApplyLog, CanAct, Act;
    var s := Final(Empty(id, peers, start), run);
    EmptyInv(id, peers, start);
    RunInv(Empty(id, peers, start), run);
    RunNoneBoth(Empty(id, peers, start), run);
    SpliceKey(s, s.rewrite.value, order, t);
    DroppedInOneLifetime(s, s.rewrite.value, t);
  }

  // -------- the two ways a commit loses a key --------

  lemma RunThen(s: Store, a: Action, rest: seq<Action>)
    requires CanAct(s, a) && CanRun(Act(s, a), rest)
    ensures CanRun(s, [a] + rest) && Final(s, [a] + rest) == Final(Act(s, a), rest)
  {
    hide CanAct, Act;
    assert ([a] + rest)[1..] == rest;
  }

  // The store after the first write in an empty directory.
  ghost predicate OneKey(s: Store, k: Key, r: Record) {
    && s.node.records == map[k := r] && s.node.tombs == map[] && s.rewrite.None? && s.snaps == map[] && s.forgotten == {}
    && s.disk == [[Put(k, r.value, r.expireAt, r.version)]] && s.awake == {k.room}
  }

  lemma FirstWrite(id: nat, peers: nat, k: Key, value: string, now: int) returns (s: Store, r: Record)
    ensures var s1 := Act(Empty(id, peers, now), Wake(k.room, Read));
            && CanAct(s1, Do(Set(k, value, 0, false, false), now, true))
            && s == Act(s1, Do(Set(k, value, 0, false, false), now, true))
            && OneKey(s, k, r) && s.time == now && s.node.id == id && s.node.peers == peers
            && r == Record(value, 0, Version(Next(Next(0, now, 0), now, 0), id)) && s.node.clock == r.version.ts
  {
    hide Next;
    var s1 := Act(Empty(id, peers, now), Wake(k.room, Read));
    ExecLogsEffect(s1.node, Set(k, value, 0, false, false), now, true);
    s := Act(s1, Do(Set(k, value, 0, false, false), now, true));
    r := s.node.records[k];
    assert s.disk == [[Put(k, value, 0, r.version)]];
  }

  // A room goes to sleep with its key; the rewrite forks; the room is woken, its key evicted to the cold file, and the
  // room put to sleep again; only then the child reads the room's snapshot.
  function LateRead(k: Key, value: string, now: int): seq<Action> {
    [Wake(k.room, Read)] + ([Do(Set(k, value, 0, false, false), now, true)] + SleepTwice(k, now))
  }

  function SleepTwice(k: Key, now: int): seq<Action> {
    [Sleep(k.room, {k})] + ([BeginRewrite({k.room}, now)] + ReadLate(k))
  }

  function ReadLate(k: Key): seq<Action> {
    [Wake(k.room, Read)] + ([Sleep(k.room, {})] + CommitLate(k))
  }

  function CommitLate(k: Key): seq<Action> {
    [ReadSnapshot(k.room)] + ([CommitRewrite([])] + [])
  }

  // The key is live and in no file that a restart reads.
  lemma LateReadLoses(id: nat, peers: nat, k: Key, value: string, now: int)
    requires k.room != "default"
    ensures var s0, run := Empty(id, peers, now), LateRead(k, value, now);
            && CanRun(s0, run) && OneLifetime(run)
            && Visible(Final(s0, run).node.records, k, now) && k !in Restarted(Final(s0, run))
  {
    hide Act, SleepTwice, Restarted;
    var s0 := Empty(id, peers, now);
    var s1 := Act(s0, Wake(k.room, Read));
    var s2, r := FirstWrite(id, peers, k, value, now);
    LateReadSteps(s2, k, r, now);
    NoReboot(k, value, now);
    RunThen(s1, Do(Set(k, value, 0, false, false), now, true), SleepTwice(k, now));
    RunThen(s0, Wake(k.room, Read), [Do(Set(k, value, 0, false, false), now, true)] + SleepTwice(k, now));
  }

  lemma NoReboot(k: Key, value: string, now: int)
    ensures OneLifetime(LateRead(k, value, now))
  {
  }

  lemma LateReadSteps(s2: Store, k: Key, r: Record, now: int)
    requires OneKey(s2, k, r) && s2.time == now && !r.Expired(now) && k.room != "default"
    ensures CanRun(s2, SleepTwice(k, now))
    ensures var s := Final(s2, SleepTwice(k, now)); Visible(s.node.records, k, now) && k !in Restarted(s)
  {
    hide Restarted;
    var s3 := Act(s2, Sleep(k.room, {k}));
    var s4 := Act(s3, BeginRewrite({k.room}, now));
    assert s3.snaps[k.room] == map[k := r];
    assert s3.snaps == map[k.room := map[k := r]];
    assert s4.snaps == s3.snaps && s4.snaps.Keys * {k.room} == {k.room};
    ForkedAsleep(s4, k, r, now);
    RunThen(s3, BeginRewrite({k.room}, now), ReadLate(k));
    RunThen(s2, Sleep(k.room, {k}), [BeginRewrite({k.room}, now)] + ReadLate(k));
  }

  lemma ForkedAsleep(s4: Store, k: Key, r: Record, now: int)
    requires s4.node.records == map[k := r] && s4.node.tombs == map[] && s4.awake == {} && k.room != "default"
    requires s4.rewrite == Some(Fork(map[k := r], map[], map[k.room := map[k := r]], map[], {k.room}, |s4.disk|, now))
    requires s4.snaps == map[k.room := map[k := r]] && !r.Expired(now)
    ensures CanRun(s4, ReadLate(k))
    ensures var s := Final(s4, ReadLate(k)); Visible(s.node.records, k, now) && k !in Restarted(s)
  {
    hide Restarted;
    var s5 := Act(s4, Wake(k.room, Read));
    var s6 := Act(s5, Sleep(k.room, {}));
    assert s6.snaps[k.room] == map[];
    SnapshotReplaced(s6, k, r, now);
    RunThen(s5, Sleep(k.room, {}), CommitLate(k));
    RunThen(s4, Wake(k.room, Read), [Sleep(k.room, {})] + CommitLate(k));
  }

  lemma SnapshotReplaced(s6: Store, k: Key, r: Record, now: int)
    requires s6.node.records == map[k := r] && s6.snaps == map[k.room := map[]] && !r.Expired(now)
    requires s6.rewrite == Some(Fork(map[k := r], map[], map[k.room := map[k := r]], map[], {k.room}, |s6.disk|, now))
    ensures CanRun(s6, CommitLate(k))
    ensures var s := Final(s6, CommitLate(k)); Visible(s.node.records, k, now) && k !in Restarted(s)
  {
    hide Restarted, Child;
    var s7 := Act(s6, ReadSnapshot(k.room));
    NothingRead(s7.rewrite.value, k, r);
    DroppedAll(s7, k);
    RunThen(s7, CommitRewrite([]), []);
    RunThen(s6, ReadSnapshot(k.room), [CommitRewrite([])] + []);
  }

  lemma LoadedKey(snaps: map<string, Records>, k: Key)
    ensures k in Loaded(snaps) <==> k.room in snaps && k in snaps[k.room]
  {
  }

  lemma NothingRead(f: Fork, k: Key, r: Record)
    requires f.was == map[k := r] && f.asleep == map[k.room := map[k := r]] && f.read == map[k.room := map[]]
    ensures Child(f) == map[]
  {
    hide Loaded;
    forall j ensures j !in Child(f) {
      LoadedKey(f.read, j);
      LoadedKey(f.asleep, j);
    }
  }

  lemma DroppedAll(s7: Store, k: Key)
    requires s7.snaps == map[k.room := map[]] && s7.rewrite.Some? && s7.rewrite.value.unread == {}
    requires s7.rewrite.value.from == |s7.disk| && Child(s7.rewrite.value) == map[] && s7.rewrite.value.tombs == map[]
    ensures CanAct(s7, CommitRewrite([])) && k !in Restarted(Act(s7, CommitRewrite([])))
  {
    hide ApplyLog, Child, Loaded;
    assert Tail(s7, s7.rewrite.value) == [];
    var s8 := Act(s7, CommitRewrite([]));
    assert s8.disk == [];
    LoadedKey(s8.snaps, k);
    NothingTouched();
    Untouched(Loaded(s8.snaps), [], k);
  }

  // -------- the way a wake loses a key --------

  function SleepAndWake(k: Key, value: string, now: int, load: Load): seq<Action> {
    [Wake(k.room, Read)] + ([Do(Set(k, value, 0, false, false), now, true)] +
    ([Sleep(k.room, {k})] + ([Wake(k.room, load)] + [])))
  }

  // A room goes to sleep with its key and wakes with a snapshot that cannot be read, or is corrupt and set aside: the key
  // is no longer live, and a restart shows it.
  lemma UnreadableWakeResurrects(id: nat, peers: nat, k: Key, value: string, now: int, load: Load, t: int)
    requires k.room != "default" && !load.Read? && now <= t
    ensures var s0, run := Empty(id, peers, now), SleepAndWake(k, value, now, load);
            && CanRun(s0, run)
            && var s := Final(s0, run);
            s.forgotten == {k} && k !in s.node.records && k in View(Restarted(s), t) && Restarted(s)[k].value == value
  {
    hide Act, Restarted;
    var write := Do(Set(k, value, 0, false, false), now, true);
    var s0 := Empty(id, peers, now);
    var s1 := Act(s0, Wake(k.room, Read));
    var s2, r := FirstWrite(id, peers, k, value, now);
    WakeUnread(s2, k, r, load);
    RunThen(s1, write, [Sleep(k.room, {k})] + ([Wake(k.room, load)] + []));
    RunThen(s0, Wake(k.room, Read), [write] + ([Sleep(k.room, {k})] + ([Wake(k.room, load)] + [])));
  }

  lemma WakeUnread(s2: Store, k: Key, r: Record, load: Load)
    requires OneKey(s2, k, r) && k.room != "default" && !load.Read?
    ensures var run := [Sleep(k.room, {k})] + ([Wake(k.room, load)] + []);
            && CanRun(s2, run)
            && var s := Final(s2, run);
            s.forgotten == {k} && k !in s.node.records && k in Restarted(s) && Restarted(s)[k] == r
  {
    hide Loaded;
    var s3 := Act(s2, Sleep(k.room, {k}));
    var s4 := Act(s3, Wake(k.room, load));
    assert s3.snaps[k.room] == map[k := r];
    ApplyOne(Loaded(s4.snaps), [], Put(k, r.value, r.expireAt, r.version));
    assert s4.disk == [] + [[Put(k, r.value, r.expireAt, r.version)]];
    RunThen(s3, Wake(k.room, load), []);
    RunThen(s2, Sleep(k.room, {k}), [Wake(k.room, load)] + []);
  }

  // A key is written, deleted and written again; the process restarts, and then rewrites its log.
  function DeleteAndRestart(k: Key, value: string, now: int): seq<Action> {
    [Wake(k.room, Read)] + ([Do(Set(k, value, 0, false, false), now, true)] + ([Do(Remove(k), now, true)] +
    ([Do(Set(k, value, 0, false, false), now, true)] + RestartAndRewrite(k, now))))
  }

  function RestartAndRewrite(k: Key, now: int): seq<Action> {
    [Reboot(now, {}, {})] + ([BeginRewrite({}, now)] + ([CommitRewrite([k])] + []))
  }

  // The log of the store: a write, a delete and a write of one key.
  ghost predicate Rewritten(s: Store, k: Key) {
    && s.snaps == map[] && s.rewrite.None? && |s.disk| == 3
    && (exists a, d, b :: s.disk == [[a], [d], [b]] && a.Put? && d.Del? && b.Put? && d.version.ts > 0 &&
          a.key == d.key == b.key == k && b.expireAt == 0)
  }

  lemma RewrittenLog(id: nat, peers: nat, k: Key, value: string, now: int) returns (s3: Store, s4: Store)
    requires 0 < now < 0x1_0000_0000_0000
    ensures var s1 := Act(Empty(id, peers, now), Wake(k.room, Read));
            && CanAct(s1, Do(Set(k, value, 0, false, false), now, true))
            && var s2 := Act(s1, Do(Set(k, value, 0, false, false), now, true));
            && CanAct(s2, Do(Remove(k), now, true)) && s3 == Act(s2, Do(Remove(k), now, true))
            && CanAct(s3, Do(Set(k, value, 0, false, false), now, true))
            && s4 == Act(s3, Do(Set(k, value, 0, false, false), now, true))
    ensures Rewritten(s4, k) && s4.node.peers == peers && s4.time == now && Inv(s4)
  {
    hide Inv, Act;
    var s1 := Act(Empty(id, peers, now), Wake(k.room, Read));
    var s2, r := FirstWrite(id, peers, k, value, now);
    s3 := RemoveStep(s2, k, r, now);
    s4 := SetStep(s3, k, value, now);
    EmptyInv(id, peers, now);
    ActInv(Empty(id, peers, now), Wake(k.room, Read));
    ActInv(s1, Do(Set(k, value, 0, false, false), now, true));
    ActInv(s2, Do(Remove(k), now, true));
    ActInv(s3, Do(Set(k, value, 0, false, false), now, true));
  }

  lemma RemoveStep(s: Store, k: Key, r: Record, now: int) returns (s': Store)
    requires OneKey(s, k, r) && s.time == now && r.expireAt == 0 && 0 < now < 0x1_0000_0000_0000
    ensures CanAct(s, Do(Remove(k), now, true)) && s' == Act(s, Do(Remove(k), now, true))
    ensures s'.snaps == map[] && s'.rewrite.None? && s'.awake == {k.room} && s'.time == now && k !in s'.node.records
    ensures s'.node.peers == s.node.peers
    ensures exists d :: s'.disk == s.disk + [[d]] && d.Del? && d.key == k && d.version.ts > 0
  {
    ExecLogsEffect(s.node, Remove(k), now, true);
    s' := Act(s, Do(Remove(k), now, true));
    var v := IssuedVersion(s.node, k, now);
    assert v.ts > 0;
    assert Added(s.node, s'.node) == [[Del(k, v)]];
    assert s'.disk == s.disk + [[Del(k, v)]];
  }

  lemma SetStep(s: Store, k: Key, value: string, now: int) returns (s': Store)
    requires s.awake == {k.room} && s.time == now && k !in s.node.records
    ensures CanAct(s, Do(Set(k, value, 0, false, false), now, true))
    ensures s' == Act(s, Do(Set(k, value, 0, false, false), now, true))
    ensures s'.snaps == s.snaps && s'.rewrite == s.rewrite && s'.time == now && s'.node.peers == s.node.peers
    ensures exists b :: s'.disk == s.disk + [[b]] && b.Put? && b.key == k && b.expireAt == 0
  {
    hide Next;
    ExecLogsEffect(s.node, Set(k, value, 0, false, false), now, true);
    s' := Act(s, Do(Set(k, value, 0, false, false), now, true));
    var v := IssuedVersion(s.node, k, now);
    assert Added(s.node, s'.node) == [[Put(k, value, 0, v)]];
    assert s'.disk == s.disk + [[Put(k, value, 0, v)]];
  }

  // The key is live, and a rewrite taken after the restart leaves it out of the log: replay kept its old tombstone.
  lemma RewriteAfterRestartLoses(id: nat, peers: nat, k: Key, value: string, now: int)
    requires peers > 0 && 0 < now < 0x1_0000_0000_0000
    ensures var s0, run := Empty(id, peers, now), DeleteAndRestart(k, value, now);
            CanRun(s0, run) && Visible(Final(s0, run).node.records, k, now) && k !in Restarted(Final(s0, run))
  {
    hide Act, RestartAndRewrite, Restarted, Rewritten, Inv;
    var s0 := Empty(id, peers, now);
    var s1 := Act(s0, Wake(k.room, Read));
    var s3, s4 := RewrittenLog(id, peers, k, value, now);
    var s2 := Act(s1, Do(Set(k, value, 0, false, false), now, true));
    RestartAndRewriteLoses(s4, k, now);
    var write := Do(Set(k, value, 0, false, false), now, true);
    RunThen(s3, write, RestartAndRewrite(k, now));
    RunThen(s2, Do(Remove(k), now, true), [write] + RestartAndRewrite(k, now));
    RunThen(s1, write, [Do(Remove(k), now, true)] + ([write] + RestartAndRewrite(k, now)));
    RunThen(s0, Wake(k.room, Read), [write] + ([Do(Remove(k), now, true)] + ([write] + RestartAndRewrite(k, now))));
  }

  // Such a log, replayed, leaves the key and no other with both a record and a tombstone.
  lemma ReplayedBoth(s: Store, k: Key, now: int)
    requires Rewritten(s, k) && s.node.peers > 0
    ensures Both(Started(s, now, {}), k, now)
  {
    hide Started, Both;
    var a, d, b :| s.disk == [[a], [d], [b]] && a.Put? && d.Del? && b.Put? && d.version.ts > 0 &&
                   a.key == d.key == b.key == k && b.expireAt == 0;
    ReplayedOps(s, k, now, a, d, b);
  }

  lemma ReplayedOps(s: Store, k: Key, now: int, a: Op, d: Op, b: Op)
    requires s.disk == [[a], [d], [b]] && a.Put? && d.Del? && b.Put? && d.version.ts > 0
    requires a.key == d.key == b.key == k && b.expireAt == 0 && s.snaps == map[] && s.node.peers > 0
    ensures Both(Started(s, now, {}), k, now)
  {
    hide Started, Replay, ApplyLog, Next, Loaded;
    LoadedNone();
    var m := Started(s, now, {});
    StartedRecords(s, now, {});
    StartedTombs(s, now);
    ThreeOps(a, d, b);
    assert m.records == map[k := Record(b.value, 0, b.version)];
    var n := Fresh(s.node.id, s.node.peers, now).(records := map[]);
    forall j ensures j in m.tombs <==> j == k {
      ThreeTombs(n, a, d, b, j);
    }
  }

  lemma LoadedNone()
    ensures Loaded(map[]) == map[]
  {
  }

  lemma StartedTombs(s: Store, now: int)
    requires s.snaps == map[]
    ensures Started(s, now, {}).tombs == Replay(Fresh(s.node.id, s.node.peers, now).(records := map[]), s.disk).tombs
  {
  }

  // The key, and no other, has a visible record and a tombstone.
  ghost predicate Both(n: Node, k: Key, now: int) {
    Visible(n.records, k, now) && k in n.tombs && forall j :: j in n.records || j in n.tombs ==> j == k
  }

  lemma ThreeTombs(n: Node, a: Op, d: Op, b: Op, j: Key)
    requires a.Put? && d.Del? && b.Put? && d.version.ts > 0 && n.tombs == map[] && n.peers > 0 && n.watermark == 0
    ensures j in Replay(n, [[a], [d], [b]]).tombs <==> j == d.key
  {
    hide Replay;
    var log := [[a], [d], [b]];
    ReplayTombs(n, log, j);
    if j == d.key { assert d in log[1] && DelIn(log[1], j, 0); }
  }

  lemma ThreeOps(a: Op, d: Op, b: Op)
    requires a.Put? && d.Del? && b.Put? && a.key == d.key == b.key
    ensures ApplyLog(map[], [[a], [d], [b]]) == map[b.key := Record(b.value, b.expireAt, b.version)]
  {
    var l1, l2 := [[a]], [[a], [d]];
    assert [[a], [d], [b]] == l2 + [[b]] && l2 == l1 + [[d]] && l1 == [] + [[a]];
    ApplyOne(map[], [], a);
    ApplyOne(map[], l1, d);
    ApplyOne(map[], l2, b);
  }

  lemma RestartAndRewriteLoses(s4: Store, k: Key, now: int)
    requires Rewritten(s4, k) && s4.node.peers > 0 && s4.time == now && Inv(s4)
    ensures CanRun(s4, RestartAndRewrite(k, now))
    ensures var s := Final(s4, RestartAndRewrite(k, now)); Visible(s.node.records, k, now) && k !in Restarted(s)
  {
    hide Inv, Started, Restarted, Both;
    var s5 := Act(s4, Reboot(now, {}, {}));
    ReplayedBoth(s4, k, now);
    ActInv(s4, Reboot(now, {}, {}));
    RewriteDropsBoth(s5, k, now);
    RunThen(s4, Reboot(now, {}, {}), [BeginRewrite({}, now)] + ([CommitRewrite([k])] + []));
  }

  lemma RewriteDropsBoth(s5: Store, k: Key, now: int)
    requires Both(s5.node, k, now) && s5.time == now && Inv(s5) && s5.snaps == map[] && s5.rewrite.None?
    ensures CanRun(s5, [BeginRewrite({}, now)] + ([CommitRewrite([k])] + []))
    ensures var s := Final(s5, [BeginRewrite({}, now)] + ([CommitRewrite([k])] + []));
            Visible(s.node.records, k, now) && k !in Restarted(s)
  {
    hide Inv, Restarted;
    var s6 := Act(s5, BeginRewrite({}, now));
    ForkOfAwake(s5, now);
    ActInv(s5, BeginRewrite({}, now));
    assert CanAct(s6, CommitRewrite([k]));
    CommitDropsBoth(s6, k, now);
    RunThen(s6, CommitRewrite([k]), []);
    RunThen(s5, BeginRewrite({}, now), [CommitRewrite([k])] + []);
  }

  lemma ForkOfAwake(s5: Store, now: int)
    requires s5.snaps == map[] && s5.rewrite.None? && s5.time == now
    ensures var f := Act(s5, BeginRewrite({}, now)).rewrite.value;
            Child(f) == s5.node.records && f.unread == {}
  {
    var f := Act(s5, BeginRewrite({}, now)).rewrite.value;
    assert f.asleep == map[] && Loaded(f.asleep) == map[] && Loaded(f.read) == map[];
  }

  lemma CommitDropsBoth(s6: Store, k: Key, now: int)
    requires Inv(s6) && CanAct(s6, CommitRewrite([k])) && s6.snaps == map[] && s6.time == now
    requires s6.rewrite.value.from == |s6.disk| && k in s6.rewrite.value.tombs && Visible(s6.node.records, k, now)
    ensures k !in Restarted(Act(s6, CommitRewrite([k])))
  {
    hide Inv, Touches, Restarted, Spliced, Child;
    var f := s6.rewrite.value;
    assert Tail(s6, f) == [];
    NothingTouched();
    var s7 := Act(s6, CommitRewrite([k]));
    assert k in s7.lost && Loaded(s7.snaps) == map[];
    ActInv(s6, CommitRewrite([k]));
    if k !in s7.forgotten { RestartKey(s7, now, k); } else { ForgottenGone(s7, now, k); }
  }
}
