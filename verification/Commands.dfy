/** The command handlers, argument by argument, refining the steps of a node. */
module Commands {
  import opened Ints
  import opened Hlc
  import opened Node
  import opened Effects
  import opened Wrappers
  import opened AofCodec
  import opened Decimal
  import opened LogMeaning
  import opened Recovery
  import opened Restart

  // Replies by kind; the wording of errors is not modelled.
  datatype Reply = Done | Nil | Refused | Count(n: nat) | StaleWrite | Converged | Deleted

  // -------- SET's options --------

  datatype SetOpts = SetOpts(nx: bool, xx: bool, expireAt: int)

  predicate IsCondition(s: string) {
    Upper(s) == "NX" || Upper(s) == "XX"
  }

  predicate IsUnit(s: string) {
    Upper(s) == "EX" || Upper(s) == "PX"
  }

  function Scale(unit: string): (scale: nat)
    ensures scale > 0
  {
    if Upper(unit) == "EX" then 1000 else 1
  }

  // The absolute deadline, when the number is positive and the sum fits in a signed 64-bit integer.
  function Deadline(unit: string, arg: string, now: int): Option<int> {
    match ParseI64(arg)
    case None => None
    case Some(n) => if n > 0 && now + n * Scale(unit) <= I64_MAX then Some(now + n * Scale(unit)) else None
  }

  // The grammar: at most one condition and at most one deadline, in either order.
  function Options(opts: seq<string>, now: int): Option<SetOpts> {
    if |opts| == 0 then Some(SetOpts(false, false, 0))
    else if |opts| == 1 && IsCondition(opts[0]) then Some(Conditioned(opts[0], 0))
    else if |opts| == 2 && IsUnit(opts[0]) then
      match Deadline(opts[0], opts[1], now)
      case Some(d) => Some(SetOpts(false, false, d))
      case None => None
    else if |opts| == 3 && IsCondition(opts[0]) && IsUnit(opts[1]) then
      match Deadline(opts[1], opts[2], now)
      case Some(d) => Some(Conditioned(opts[0], d))
      case None => None
    else if |opts| == 3 && IsUnit(opts[0]) && IsCondition(opts[2]) then
      match Deadline(opts[0], opts[1], now)
      case Some(d) => Some(Conditioned(opts[2], d))
      case None => None
    else None
  }

  function Conditioned(condition: string, expireAt: int): SetOpts {
    SetOpts(Upper(condition) == "NX", Upper(condition) == "XX", expireAt)
  }

  // EX gives seconds and PX milliseconds.
  ghost predicate DeadlineGiven(opts: seq<string>, now: int, expireAt: int) {
    exists i, n :: 0 <= i < |opts| - 1 && ParseI64(opts[i + 1]) == Some(n) && n > 0 &&
      ((Upper(opts[i]) == "EX" && expireAt == now + 1000 * n) || (Upper(opts[i]) == "PX" && expireAt == now + n))
  }

  ghost predicate DeadlinePart(d: seq<string>, now: int) {
    || d == []
    || (|d| == 2 && ParseI64(d[1]).Some? && ParseI64(d[1]).value > 0 &&
        ((Upper(d[0]) == "EX" && now + 1000 * ParseI64(d[1]).value <= I64_MAX) ||
         (Upper(d[0]) == "PX" && now + ParseI64(d[1]).value <= I64_MAX)))
  }

  ghost predicate ConditionPart(c: seq<string>) {
    c == [] || (|c| == 1 && (Upper(c[0]) == "NX" || Upper(c[0]) == "XX"))
  }

  // The options are a condition and a deadline, each of them optional, in either order.
  ghost predicate WellFormed(opts: seq<string>, now: int) {
    exists c, d :: ConditionPart(c) && DeadlinePart(d, now) && (opts == c + d || opts == d + c)
  }

  lemma OptionsIff(opts: seq<string>, now: int)
    ensures Options(opts, now).Some? <==> WellFormed(opts, now)
  {
    hide ParseI64, Upper, I64_MAX;
    if Options(opts, now).Some? {
      var split := if |opts| % 2 == 0 then 0 else if IsCondition(opts[0]) then 1 else |opts| - 1;
      var first, last := opts[..split], opts[split..];
      assert opts == first + last;
      assert (ConditionPart(first) && DeadlinePart(last, now)) || (ConditionPart(last) && DeadlinePart(first, now));
    }
    if WellFormed(opts, now) {
      var c, d :| ConditionPart(c) && DeadlinePart(d, now) && (opts == c + d || opts == d + c);
      Parts(c, d);
      Parts(d, c);
    }
  }

  lemma Parts(a: seq<string>, b: seq<string>)
    ensures forall i :: 0 <= i < |a| ==> (a + b)[i] == a[i]
    ensures forall i :: 0 <= i < |b| ==> (a + b)[|a| + i] == b[i]
  {
  }

  // SET, as lookups see it: nil, and nothing changed, exactly with NX and the key found, or XX and the key absent;
  // otherwise the key is found with the value and the deadline asked for, under a new version.
  ghost predicate SetDone(n: Node, m: Node, key: Key, value: string, opts: seq<string>, now: int, reply: Reply) {
    var found := Find(n, key, now).Some?;
    && (reply.Nil? <==> (Gives(opts, "NX") && found) || (Gives(opts, "XX") && !found))
    && (reply.Nil? ==> Unchanged(n, m, now))
    && (!reply.Nil? ==>
          && reply.Done? && FindsBut(n, m, {key}, now) && IssuedAbove(n, m, key, now)
          && Find(m, key, now).Some?
          && var r := Find(m, key, now).value;
             && r.value == value && r.version == Version(m.clock, n.id)
             && (if Gives(opts, "EX") || Gives(opts, "PX") then DeadlineGiven(opts, now, r.expireAt) else r.expireAt == 0)
             && m.log == n.log + [[Put(key, value, r.expireAt, r.version)]])
  }

  // MSET, as lookups see it: each key named is found with the last value given for it and no deadline, under a new version
  // above all that were replaced unless one of them is at the maximum; any other key is found as before.
  ghost predicate MsetDone(n: Node, m: Node, pairs: seq<(Key, string)>, now: int, k: Key) {
    match LastGiven(pairs, k)
    case Some(value) =>
      && Find(m, k, now) == Some(Record(value, 0, Version(m.clock, n.id)))
      && ((forall i :: 0 <= i < |pairs| ==> Overwritten(n, pairs[i].0, now) < U64_MAX) ==> IssuedAbove(n, m, k, now))
    case None => Find(m, k, now) == Find(n, k, now)
  }

  lemma MsetFinds(n: Node, pairs: seq<(Key, string)>, now: int)
    ensures forall k :: MsetDone(n, Exec(n, Mset(pairs), now, true).0, pairs, now, k)
  {
    hide Exec, Overwritten;
    forall k ensures MsetDone(n, Exec(n, Mset(pairs), now, true).0, pairs, now, k) {
      MsetEffect(n, pairs, now, k);
    }
  }

  lemma OptionsLast(opts: seq<string>, now: int)
    requires Options(opts, now).Some?
    ensures Lasting(Options(opts, now).value.expireAt, now)
  {
    hide ParseI64, Upper;
  }

  // What accepted options say.
  lemma OptionsMean(opts: seq<string>, now: int)
    requires Options(opts, now).Some?
    ensures var o := Options(opts, now).value;
            && (o.nx <==> Gives(opts, "NX")) && (o.xx <==> Gives(opts, "XX"))
            && (if Gives(opts, "EX") || Gives(opts, "PX") then DeadlineGiven(opts, now, o.expireAt) else o.expireAt == 0)
  {
    hide ParseI64;
    NoNumber("NX");
    NoNumber("XX");
    NoNumber("EX");
    NoNumber("PX");
    forall name
      ensures Gives(opts, name) <==> ((|opts| > 0 && Upper(opts[0]) == name) || (|opts| > 1 && Upper(opts[1]) == name) ||
                                      (|opts| > 2 && Upper(opts[2]) == name))
    {}
  }

  // An option's name is not a number.
  lemma NoNumber(name: string)
    requires name in {"NX", "XX", "EX", "PX"}
    ensures forall s :: Upper(s) == name ==> ParseI64(s).None?
  {
    forall s | Upper(s) == name
      ensures ParseI64(s).None?
    {
      assert |s| == 2 && UpperChar(s[0]) == Upper(s)[0] == name[0];
      assert !IsDigit(s[0]) && s[0] != '-';
    }
  }

  lemma GuardIsOverflow(n: int, scale: nat, now: int)
    requires scale > 0
    ensures n > (I64_MAX - now) / scale <==> now + n * scale > I64_MAX
  {
    var q := (I64_MAX - now) / scale;
    if n > q { Scaled(q + 1, n, scale); } else { Scaled(n, q, scale); }
  }

  lemma Scaled(a: int, b: int, scale: nat)
    requires a <= b
    ensures a * scale <= b * scale
  {
  }

  // The option loop accepts exactly that grammar.
  method ParseOptions(opts: seq<string>, now: int) returns (r: Option<SetOpts>)
    requires 0 <= now <= I64_MAX
    ensures r == Options(opts, now)
  {
    hide Upper, ParseI64;
    var nx, xx, expireAt := false, false, 0;
    var i := 0;
    while i < |opts|
      invariant 0 <= i <= |opts|
      invariant expireAt >= 0
      invariant Options(opts[..i], now) == Some(SetOpts(nx, xx, expireAt))
      invariant i == (if nx || xx then 1 else 0) + (if expireAt != 0 then 2 else 0)
    {
      var opt := Upper(opts[i]);
      if (opt == "NX" || opt == "XX") && !nx && !xx {
        nx, xx := opt == "NX", opt == "XX";
        i := i + 1;
      } else if (opt == "EX" || opt == "PX") && expireAt == 0 && i + 1 < |opts| {
        var scale := if opt == "EX" then 1000 else 1;
        match ParseI64(opts[i + 1]) {
          case None => return None;
          case Some(n) =>
            GuardIsOverflow(n, scale, now);
            if n <= 0 || n > (I64_MAX - now) / scale { return None; }
            expireAt := now + n * scale;
        }
        i := i + 2;
      } else {
        return None;
      }
    }
    assert opts[..i] == opts;
    r := Some(SetOpts(nx, xx, expireAt));
  }

  // -------- the store --------

  // A wall clock for which issued versions are in HLC format.
  predicate RealTime(now: int) {
    0x8000_0000 <= now < 0x1_0000_0000_0000
  }

  // Every record of the log means, to replay, exactly what was done.
  ghost predicate SaysWhatWasDone(aof: seq<AofRecord>, log: seq<Entry>) {
    |aof| == |log| && forall i :: 0 <= i < |log| ==> Meaning(aof[i]) == log[i]
  }

  class Database {
    const id: nat
    const peers: nat
    const maxOffset: nat

    var records: map<Key, Record>
    var tombs: map<Key, Version>
    var frontiers: map<nat, nat>
    var watermark: nat
    var frontier: nat
    var clock: nat
    var aof: seq<AofRecord>

    // what the records of the log did, for comparison with what they say
    ghost var log: seq<Entry>

    ghost function Abs(): Node
      reads this
    {
      Node(id, peers, records, tombs, frontiers, watermark, frontier, clock, log)
    }

    ghost predicate Faithful()
      reads this`aof, this`log
    {
      SaysWhatWasDone(aof, log)
    }

    constructor (id: nat, peers: nat, maxOffset: nat, now: int)
      ensures records == map[] && tombs == map[] && frontiers == map[] && watermark == 0 && aof == []
      ensures RealTime(now) ==> clock == frontier == now * 0x1_0000
      ensures Abs() == Fresh(id, peers, now) && this.maxOffset == maxOffset && Faithful()
    {
      this.id, this.peers, this.maxOffset := id, peers, maxOffset;
      records, tombs, frontiers, watermark, aof, log := map[], map[], map[], 0, [], [];
      var start := Next(0, now, 0);
      frontier, clock := start, start;
    }

    // Erases the key if it has expired, and returns it otherwise.
    method Lookup(key: Key, now: int) returns (r: Option<Record>)
      modifies this`records
      ensures r.Some? <==>
              key in old(records) && (old(records)[key].expireAt <= 0 || now <= old(records)[key].expireAt)
      ensures r.Some? ==> r.value == old(records)[key] && records == old(records)
      ensures r.None? ==> records == old(records) - {key}
      ensures r == Find(old(Abs()), key, now)
      ensures Abs() == Looked(old(Abs()), key, now)
    {
      if key !in records { return None; }
      if records[key].Expired(now) {
        records := records - {key};
        return None;
      }
      r := Some(records[key]);
    }

    function TombstoneTs(key: Key): (ts: nat)
      reads this
      ensures ts == TombTs(Abs(), key)
    {
      if key in tombs then tombs[key].ts else 0
    }

    method IssueVersion(overwritten: nat, now: int) returns (v: Version)
      modifies this`clock
      ensures v == Version(Next(old(clock), now, overwritten), id) && clock == v.ts
      ensures RealTime(now) ==> Normalize(v.ts) == v.ts
    {
      if RealTime(now) { NextIsHlcFormat(clock, now, overwritten); }
      clock := Next(clock, now, overwritten);
      v := Version(clock, id);
    }

    method SetTombstone(key: Key, v: Version)
      modifies this`tombs
      ensures peers == 0 || v.ts <= watermark ==> tombs == old(tombs)
      ensures peers > 0 && v.ts > watermark ==>
                && tombs.Keys == old(tombs).Keys + {key} && tombs - {key} == old(tombs) - {key}
                && v.AtMost(tombs[key]) && (key in old(tombs) ==> old(tombs)[key].AtMost(tombs[key]))
                && (tombs[key] == v || (key in old(tombs) && tombs[key] == old(tombs)[key]))
      ensures Abs() == SetTomb(old(Abs()), key, v)
    {
      if peers == 0 || v.ts <= watermark { return; }
      if key !in tombs {
        tombs := tombs[key := v];
      } else if tombs[key].AtMost(v) {
        tombs := tombs[key := v];
      }
    }

    // Stores a record whose lookup just gave `found`.
    method Store(key: Key, found: bool, record: Record, ghost now: int)
      requires found == Find(Abs(), key, now).Some?
      modifies this`records, this`tombs
      ensures Abs() == Write(old(Abs()), key, record.value, record.expireAt, record.version, now)
    {
      if !found { tombs := tombs - {key}; }
      records := records[key := record];
    }

    method Append(rec: AofRecord, ghost entry: Entry)
      modifies this`aof, this`log
      ensures aof == old(aof) + [rec] && log == old(log) + [entry]
      ensures old(Faithful()) && Meaning(rec) == entry ==> Faithful()
    {
      hide Meaning;
      aof, log := aof + [rec], log + [entry];
    }

    method HandleSet(room: string, args: seq<string>, now: int) returns (reply: Reply)
      requires |args| > 0 && Upper(args[0]) == "SET" && 0 <= now <= I64_MAX
      modifies this
      ensures reply.Refused? <==> |args| < 3 || !WellFormed(args[3..], now)
      ensures reply.Refused? ==> Abs() == old(Abs()) && aof == old(aof)
      ensures !reply.Refused? ==> SetDone(old(Abs()), Abs(), Key(room, args[1]), args[2], args[3..], now, reply)
      // it is the node's step
      ensures !reply.Refused? ==>
                && Options(args[3..], now).Some?
                && var o := Options(args[3..], now).value;
                   Abs() == Exec(old(Abs()), Set(Key(room, args[1]), args[2], o.expireAt, o.nx, o.xx), now, true).0
      ensures old(Faithful()) && RealTime(now) ==> Faithful()
    {
      hide Options, Upper, SaysWhatWasDone, Meaning, Exec, WellFormed, DeadlineGiven, Gives;
      if |args| < 3 { return Refused; }
      var opts := ParseOptions(args[3..], now);
      OptionsIff(args[3..], now);
      if opts.None? { return Refused; }
      OptionsMean(args[3..], now);
      OptionsLast(args[3..], now);
      SetEffect(Abs(), Key(room, args[1]), args[2], opts.value.expireAt, opts.value.nx, opts.value.xx, now);
      reply := SetKey(room, args, opts.value, now);
    }

    // With its options read.
    method SetKey(room: string, args: seq<string>, o: SetOpts, now: int) returns (reply: Reply)
      requires |args| >= 3 && Upper(args[0]) == "SET"
      modifies this
      ensures var done := Exec(old(Abs()), Set(Key(room, args[1]), args[2], o.expireAt, o.nx, o.xx), now, true);
              Abs() == done.0 && reply == if done.1.Skipped? then Nil else Done
      ensures reply.Nil? ==> aof == old(aof)
      ensures old(Faithful()) && RealTime(now) ==> Faithful()
    {
      hide Upper, SaysWhatWasDone, Meaning;
      var key := Key(room, args[1]);
      var r := Lookup(key, now);
      if (o.nx && r.Some?) || (o.xx && r.None?) { return Nil; }
      var v := IssueVersion(if r.Some? then r.value.version.ts else TombstoneTs(key), now);
      Store(key, r.Some?, Record(args[2], o.expireAt, v), now);
      if RealTime(now) { SetMeaning(room, args, o.expireAt, v); }
      Append(AofRecord(room, args, o.expireAt, v.ts, v.node), [Put(key, args[2], o.expireAt, v)]);
      reply := Done;
    }

    // The greatest version among the records and tombstones that the pairs are about to replace.
    method OverwrittenBy(room: string, args: seq<string>, now: int) returns (ts: nat)
      requires |args| >= 3 && |args| % 2 == 1
      modifies this`records
      ensures ts == MaxOverwritten(old(Abs()), Pairs(room, args), now)
      ensures Pruned(old(records), records, now, Pairs(room, args), 0)
    {
      ghost var n, pairs := Abs(), Pairs(room, args);
      hide Pruned;
      ts := 0;
      var i := 1;
      PrunedRefl(records, now, pairs);
      ghost var j: nat := 0;
      while i < |args|
        invariant i == 2 * j + 1 && j <= |pairs|
        invariant ts == MaxOverwritten(n, pairs[..j], now)
        invariant Abs() == n.(records := records) && Pruned(n.records, records, now, pairs, 0)
      {
        assert pairs[..j + 1][..j] == pairs[..j] && pairs[j].0 == Key(room, args[i]);
        PrunedFinds(n, Abs(), now, pairs, j);
        var r := Lookup(Key(room, args[i]), now);
        var one := if r.Some? then r.value.version.ts else TombstoneTs(Key(room, args[i]));
        if ts < one { ts := one; }
        i, j := i + 2, j + 1;
      }
      assert pairs[..j] == pairs;
    }

    method StorePairs(room: string, args: seq<string>, v: Version, now: int, ghost n: Node)
      requires |args| >= 3 && |args| % 2 == 1
      requires Abs() == n.(records := records) && Pruned(n.records, records, now, Pairs(room, args), 0)
      modifies this`records, this`tombs
      ensures Abs() == WriteAll(n, Pairs(room, args), v, now)
    {
      ghost var pairs := Pairs(room, args);
      hide Pruned, Write;
      var i := 1;
      ghost var j: nat := 0;
      while i < |args|
        invariant i == 2 * j + 1 && j <= |pairs|
        invariant Abs() == WriteAll(n, pairs[..j], v, now).(records := records)
        invariant Pruned(WriteAll(n, pairs[..j], v, now).records, records, now, pairs, j)
      {
        var key := Key(room, args[i]);
        assert pairs[..j + 1][..j] == pairs[..j] && pairs[j] == (key, args[i + 1]);
        PrunedWrite(WriteAll(n, pairs[..j], v, now), Abs(), now, pairs, j, v);
        var r := Lookup(key, now);
        Store(key, r.Some?, Record(args[i + 1], 0, v), now);
        i, j := i + 2, j + 1;
      }
      assert pairs[..j] == pairs;
      PrunedDone(WriteAll(n, pairs, v, now).records, records, now, pairs);
    }

    method HandleMset(room: string, args: seq<string>, now: int) returns (reply: Reply)
      requires |args| > 0 && Upper(args[0]) == "MSET"
      modifies this
      ensures reply.Refused? <==> |args| < 3 || |args| % 2 == 0
      ensures reply.Refused? ==> Abs() == old(Abs()) && aof == old(aof)
      ensures !reply.Refused? ==> forall k :: MsetDone(old(Abs()), Abs(), Pairs(room, args), now, k)
      ensures !reply.Refused? ==> Abs() == Exec(old(Abs()), Mset(Pairs(room, args)), now, true).0
      ensures old(Faithful()) && RealTime(now) ==> Faithful()
    {
      hide Upper, Meaning, WriteAll, MaxOverwritten, Pruned, SaysWhatWasDone, MsetDone;
      if |args| < 3 || |args| % 2 == 0 { return Refused; }
      ghost var n, pairs := Abs(), Pairs(room, args);
      var overwritten := OverwrittenBy(room, args, now);
      StorePairs(room, args, Version(Next(clock, now, overwritten), id), now, n);
      var v := IssueVersion(overwritten, now);
      WriteAllKeeps(n, pairs, v, now);
      if RealTime(now) { MsetMeaning(room, args, v); }
      Append(AofRecord(room, args, 0, v.ts, v.node), MsetEntry(pairs, v));
      assert Abs() == Exec(n, Mset(pairs), now, true).0;
      MsetFinds(n, pairs, now);
      reply := Done;
    }

    // Deletes one key that the lookup found.
    method DeleteFound(room: string, name: string, found: Record, now: int)
      requires Find(Abs(), Key(room, name), now) == Some(found)
      modifies this
      ensures Abs() == Exec(old(Abs()), Remove(Key(room, name)), now, true).0
      ensures old(Faithful()) && RealTime(now) ==> Faithful()
    {
      hide SaysWhatWasDone, Meaning;
      var key := Key(room, name);
      var v := IssueVersion(found.version.ts, now);
      records := records - {key};
      SetTombstone(key, v);
      if RealTime(now) { DelMeaning(room, ["DEL", name], v); }
      Append(AofRecord(room, ["DEL", name], 0, v.ts, v.node), [Del(key, v)]);
    }

    // Deletes every key named; the reply counts the live ones, each once.
    method HandleDel(room: string, args: seq<string>, now: int) returns (reply: Reply)
      modifies this
      ensures |args| < 2 ==> reply.Refused? && Abs() == old(Abs()) && aof == old(aof)
      ensures |args| >= 2 ==>
                && (forall k :: Find(Abs(), k, now) ==
                      if k.room == room && k.name in args[1..] then None else Find(old(Abs()), k, now))
                && Abs() == RemoveAll(old(Abs()), room, args[1..], now)
                && reply == Count(|LiveNamed(old(Abs()), room, args[1..], now)|)
      ensures old(Faithful()) && RealTime(now) ==> Faithful()
    {
      hide SaysWhatWasDone, Exec;
      if |args| < 2 { return Refused; }
      ghost var n, names := Abs(), args[1..];
      var deleted: nat, i := 0, 1;
      while i < |args|
        invariant 1 <= i <= |args|
        invariant Abs() == RemoveAll(n, room, names[..i - 1], now)
        invariant deleted == |LiveNamed(n, room, names[..i - 1], now)|
        invariant old(Faithful()) && RealTime(now) ==> Faithful()
      {
        var key := Key(room, args[i]);
        assert names[i - 1] == args[i];
        RemoveNext(n, room, names, i - 1, now);
        var r := Lookup(key, now);
        if r.Some? {
          DeleteFound(room, args[i], r.value, now);
          deleted := deleted + 1;
        }
        i := i + 1;
      }
      assert names[..i - 1] == names;
      forall k
        ensures Find(Abs(), k, now) == if k.room == room && k.name in names then None else Find(n, k, now)
      {
        RemoveAllFinds(n, room, names, now, k);
      }
      reply := Count(deleted);
    }

    // EXPIRE (scale 1000), PEXPIRE (1) and PERSIST (0).
    method HandleExpire(room: string, args: seq<string>, scale: nat, now: int) returns (reply: Reply)
      requires |args| > 0 && (scale == 0 || scale == 1 || scale == 1000) && 0 <= now <= I64_MAX
      modifies this
      ensures reply.Refused? <==> !(if scale == 0 then |args| == 2 else |args| >= 3 && Allowed(args[2], args[3..], scale, now))
      ensures reply.Refused? ==> Abs() == old(Abs()) && aof == old(aof)
      ensures !reply.Refused? && scale == 0 ==>
                |args| == 2 && Retimed(old(Abs()), Abs(), Key(room, args[1]), [], true, 0, false, now, reply)
      ensures !reply.Refused? && scale > 0 ==>
                && |args| >= 3 && ParseI64(args[2]).Some?
                && var amount := ParseI64(args[2]).value;
                   Retimed(old(Abs()), Abs(), Key(room, args[1]), args[3..], false, now + amount * scale, amount <= 0, now,
                           reply)
      // it is the node's step, if any
      ensures !reply.Refused? ==>
                && ExpireArgs(args, scale, now).Some?
                && var cmd := ExpireCmd(old(Abs()), Key(room, args[1]), ExpireArgs(args, scale, now).value, now);
                   Abs() == if cmd.Some? then Exec(old(Abs()), cmd.value, now, true).0
                            else Looked(old(Abs()), Key(room, args[1]), now)
      ensures old(Faithful()) && RealTime(now) ==> Faithful()
    {
      hide SaysWhatWasDone, Meaning, ExpireArgs, Exec, Retimed, ParseI64, ExpireCmd, Looked, Allowed;
      var parsed := ParseExpire(args, scale, now);
      AllowedIff(args, scale, now);
      if parsed.None? { return Refused; }
      ExpireArgsShape(args, scale, now);
      ExpireIsRetimed(Abs(), Key(room, args[1]), args, scale, now);
      reply := Retime(room, args[1], parsed.value, now);
    }

    // With its arguments read.
    method Retime(room: string, name: string, want: Expiry, now: int) returns (reply: Reply)
      modifies this
      ensures var cmd := ExpireCmd(old(Abs()), Key(room, name), want, now);
              && reply == Count(if cmd.Some? then 1 else 0)
              && Abs() == if cmd.Some? then Exec(old(Abs()), cmd.value, now, true).0
                          else Looked(old(Abs()), Key(room, name), now)
      ensures old(Faithful()) && RealTime(now) ==> Faithful()
    {
      hide SaysWhatWasDone, Meaning;
      var key := Key(room, name);
      var r := Lookup(key, now);
      if r.None? || (want.persist && r.value.expireAt == 0) { return Count(0); }
      var current := r.value.expireAt;
      var timed := current != 0;
      if (want.nx && timed) || (want.xx && !timed) || (want.gt && (!timed || want.deadline <= current)) ||
         (want.lt && timed && want.deadline >= current)
      {
        return Count(0);
      }
      if want.past {
        DeleteFound(room, name, r.value, now);
        return Count(1);
      }
      Redate(room, name, r.value, want.deadline, now);
      reply := Count(1);
    }

    // Gives a found record a new deadline and version, and logs its complete state.
    method Redate(room: string, name: string, found: Record, deadline: int, now: int)
      requires Find(Abs(), Key(room, name), now) == Some(found)
      modifies this
      ensures Abs() == Exec(old(Abs()), Expire(Key(room, name), deadline), now, true).0
      ensures old(Faithful()) && RealTime(now) ==> Faithful()
    {
      hide SaysWhatWasDone, Meaning;
      var key := Key(room, name);
      var v := IssueVersion(found.version.ts, now);
      records := records[key := Record(found.value, deadline, v)];
      if RealTime(now) { SetMeaning(room, ["SET", name, found.value], deadline, v); }
      Append(AofRecord(room, ["SET", name, found.value], deadline, v.ts, v.node), [Put(key, found.value, deadline, v)]);
    }

    // Reads a peer's version, brings it into HLC format, and refuses one too far in the future.
    method IncomingVersion(ts: string, node: string, now: int) returns (r: Option<Version>)
      modifies this`clock
      ensures r.Some? <==> InReach(ts, node, now, maxOffset)
      ensures r.Some? ==> r.value == Version(Normalize(ParseU64(ts).value), ParseU64(node).value)
      ensures r == Admitted(ts, node, now, maxOffset)
      ensures clock == if r.Some? then Observe(old(clock), r.value.ts) else old(clock)
    {
      var t := ReadU64(ts);
      var n := ReadU64(node);
      if t.None? || n.None? || n.value > U32_MAX { return None; }
      var v := Normalize(t.value);
      if PhysicalMs(v) > now + maxOffset { return None; }
      clock := Observe(clock, v);
      r := Some(Version(v, n.value));
    }

    method IsStale(key: Key, r: Option<Record>, v: Version, ghost now: int) returns (stale: bool)
      requires r == Find(Abs(), key, now)
      ensures stale == Stale(Abs(), key, v, now)
    {
      if r.Some? { return v.AtMost(r.value.version); }
      if key in tombs { return v.AtMost(tombs[key]); }
      stale := v.ts <= watermark;
    }

    method HandleCrdtMerge(room: string, args: seq<string>, now: int) returns (reply: Reply)
      requires |args| > 0 && Upper(args[0]) == "CRDTMERGE"
      modifies this
      ensures reply.Refused? <==>
              !(5 <= |args| <= 6 && InReach(args[3], args[4], now, maxOffset) &&
                (|args| == 6 ==> ParseI64(args[5]).Some? && ParseI64(args[5]).value >= 0))
      ensures reply.Refused? ==> Abs() == old(Abs()) && aof == old(aof)
      ensures !reply.Refused? ==>
                Merged(old(Abs()), Abs(), Key(room, args[1]), args[2], if |args| == 6 then ParseI64(args[5]) else None,
                       Version(Normalize(ParseU64(args[3]).value), ParseU64(args[4]).value), now, reply)
      ensures clock == old(clock) || clock < (now + maxOffset + 1) * 0x1_0000
      // it is the node's step
      ensures !reply.Refused? ==>
                var op := MergeOp(old(Abs()), room, args, now, maxOffset);
                op.Some? && Abs() == Exec(old(Abs()), Merge(op.value), now, true).0
      ensures old(Faithful()) ==> Faithful()
    {
      hide SaysWhatWasDone, Meaning, Upper, ParseI64, ParseU64, MergeOp, Exec, Admitted;
      MergeOpIff(Abs(), room, args, now, maxOffset);
      ghost var op := MergeOp(Abs(), room, args, now, maxOffset);
      if op.Some? { MergeEffect(Abs(), op.value, now); }
      reply := MergeKey(room, args, now);
    }

    method MergeKey(room: string, args: seq<string>, now: int) returns (reply: Reply)
      requires |args| > 0 && Upper(args[0]) == "CRDTMERGE"
      modifies this
      ensures var op := MergeOp(old(Abs()), room, args, now, maxOffset);
              && (reply.Refused? <==> op.None?)
              && (reply.Refused? ==> Abs() == old(Abs()) && aof == old(aof))
              && (op.Some? ==> var (n, out) := Exec(old(Abs()), Merge(op.value), now, true);
                               Abs() == n && reply == if out.Ignored? then StaleWrite else Converged)
      ensures old(Faithful()) ==> Faithful()
    {
      hide SaysWhatWasDone, Meaning, Upper, ParseI64, ParseU64, InReach;
      if |args| < 5 || |args| > 6 { return Refused; }
      var expireAt := 0;
      if |args| == 6 {
        var e := ParseI64(args[5]);
        if e.None? || e.value < 0 { return Refused; }
        expireAt := e.value;
      }
      var v := IncomingVersion(args[3], args[4], now);
      if v.None? { return Refused; }
      var key := Key(room, args[1]);
      var r := Lookup(key, now);
      var stale := IsStale(key, r, v.value, now);
      if stale { return StaleWrite; }
      var deadline := if |args| == 6 then expireAt else if r.Some? then r.value.expireAt else 0;
      Store(key, r.Some?, Record(args[2], deadline, v.value), now);
      MergeMeaning(room, args, deadline, v.value);
      Append(AofRecord(room, args, deadline, v.value.ts, v.value.node), [Put(key, args[2], deadline, v.value)]);
      reply := Converged;
    }

    method HandleCrdtDel(room: string, args: seq<string>, now: int) returns (reply: Reply)
      requires |args| > 0 && Upper(args[0]) == "CRDTDEL"
      modifies this
      ensures reply.Refused? <==> !(|args| == 4 && InReach(args[2], args[3], now, maxOffset))
      ensures reply.Refused? ==> Abs() == old(Abs()) && aof == old(aof)
      ensures !reply.Refused? ==>
                Buried(old(Abs()), Abs(), Key(room, args[1]),
                       Version(Normalize(ParseU64(args[2]).value), ParseU64(args[3]).value), now, reply)
      ensures clock == old(clock) || clock < (now + maxOffset + 1) * 0x1_0000
      // it is the node's step, and its record is faithful when replay's normalisation leaves the version alone
      ensures !reply.Refused? ==>
                var v := Admitted(args[2], args[3], now, maxOffset);
                v.Some? && Abs() == Exec(old(Abs()), Merge(Del(Key(room, args[1]), v.value)), now, true).0
      ensures old(Faithful()) &&
              (reply.Deleted? ==> Normalize(Normalize(ParseU64(args[2]).value)) == Normalize(ParseU64(args[2]).value))
              ==> Faithful()
    {
      hide SaysWhatWasDone, Meaning, Upper, ParseU64, Exec, Admitted;
      if |args| != 4 { return Refused; }
      AdmittedIff(args[2], args[3], now, maxOffset);
      ghost var v := Admitted(args[2], args[3], now, maxOffset);
      if v.Some? { MergeEffect(Abs(), Del(Key(room, args[1]), v.value), now); }
      reply := DeleteKey(room, args, now);
    }

    method DeleteKey(room: string, args: seq<string>, now: int) returns (reply: Reply)
      requires |args| == 4 && Upper(args[0]) == "CRDTDEL"
      modifies this
      ensures var v := Admitted(args[2], args[3], now, maxOffset);
              && (reply.Refused? <==> v.None?)
              && (reply.Refused? ==> Abs() == old(Abs()) && aof == old(aof))
              && (v.Some? ==> var (n, out) := Exec(old(Abs()), Merge(Del(Key(room, args[1]), v.value)), now, true);
                              Abs() == n && reply == if out.Ignored? then StaleWrite else Deleted)
              && (old(Faithful()) && (reply.Deleted? ==> Normalize(v.value.ts) == v.value.ts) ==> Faithful())
    {
      hide SaysWhatWasDone, Meaning, Upper, VersionOf, Apply, InReach;
      var v := IncomingVersion(args[2], args[3], now);
      if v.None? { return Refused; }
      var key := Key(room, args[1]);
      var r := Lookup(key, now);
      var stale := IsStale(key, r, v.value, now);
      if stale { return StaleWrite; }
      Bury(key, v.value, now);
      DelMeaning(room, args, v.value);
      Append(AofRecord(room, args, 0, v.value.ts, v.value.node), [Del(key, v.value)]);
      reply := Deleted;
    }

    method Bury(key: Key, v: Version, ghost now: int)
      modifies this`records, this`tombs
      ensures Abs() == Apply(old(Abs()), Del(key, v), now)
    {
      if key in records { records := records - {key}; }
      SetTombstone(key, v);
    }

    // The smallest frontier among the other nodes, and how many of them were heard.
    method LowestFrontier() returns (heard: nat, low: nat)
      ensures heard == |frontiers - {id}| && low == Low(frontiers - {id})
    {
      hide LowSoFar;
      ghost var others := frontiers - {id};
      var todo := frontiers.Keys;
      LowNone(others, todo);
      heard, low := 0, U64_MAX;
      while todo != {}
        invariant todo <= frontiers.Keys
        invariant heard == |others.Keys - todo|
        invariant LowSoFar(others, todo, low)
      {
        var k :| k in todo;
        StillHeard(others.Keys, todo, k);
        LowNext(others, todo, k, low);
        todo := todo - {k};
        if k == id { continue; }
        heard := heard + 1;
        if frontiers[k] < low { low := frontiers[k]; }
      }
      assert others.Keys - todo == others.Keys;
      LowIsUnique(others, low);
    }

    // Advances the watermark once every peer was heard, and forgets the tombstones it passes.
    method CollectTombstones()
      modifies this`watermark, this`tombs
      ensures CollectedFrom(old(tombs), old(watermark), Abs())
      ensures Abs() == Collect(old(Abs()))
    {
      CollectEffect(Abs());
      hide CollectedFrom;
      var heard, low := LowestFrontier();
      if peers == 0 || heard < peers || low <= watermark { return; }
      watermark := low;
      Forget();
    }

    // Erases, one by one, the tombstones at or below the watermark.
    method Forget()
      modifies this`tombs
      ensures tombs == Above(old(tombs), watermark)
    {
      ghost var before := tombs;
      var todo := tombs.Keys;
      while todo != {}
        invariant todo <= tombs.Keys <= before.Keys
        invariant forall k :: k in tombs ==> tombs[k] == before[k]
        invariant forall k :: k in before && k !in todo ==> (k in tombs <==> before[k].ts > watermark)
      {
        var k :| k in todo;
        if tombs[k].ts <= watermark { tombs := tombs - {k}; }
        todo := todo - {k};
      }
      assert tombs == Above(before, watermark);
    }

    method HandleReplFrontier(args: seq<string>, now: int) returns (reply: Reply)
      modifies this
      ensures var from := if |args| == 3 then ParseU64(args[1]) else None;
              var f := if |args| == 3 then ParseU64(args[2]) else None;
              var fine := from.Some? && from.value <= U32_MAX && f.Some?;
              && reply == (if fine then Done else Refused)
              && (fine ==> HeardOf(old(Abs()), Abs(), from.value, f.value))
              && Abs() == (if fine then Exec(old(Abs()), Frontier(from.value, f.value), now, true).0 else old(Abs()))
      ensures aof == old(aof)
    {
      hide ParseU64, Collect, CollectedFrom, HeardOf;
      if |args| != 3 { return Refused; }
      var from := ReadU64(args[1]);
      var f := ReadU64(args[2]);
      if from.None? || from.value > U32_MAX || f.None? { return Refused; }
      HeardEffect(Abs(), from.value, f.value, now);
      var known := if from.value in frontiers && frontiers[from.value] > f.value then frontiers[from.value] else f.value;
      frontiers := frontiers[from.value := known];
      var issued := IssueVersion(0, now);
      frontier := issued.ts;
      CollectTombstones();
      reply := Done;
    }

    // Redoes a logged record verbatim: no condition is evaluated again and no deadline restarts.
    method ReplayRecord(rec: AofRecord)
      modifies this`records, this`tombs, this`clock
      ensures IsDeadline(rec.args) && Meaning(rec) == [] ==>
                && records.Keys == old(records).Keys && tombs == old(tombs) && clock == old(clock)
                && forall k :: k in records ==>
                     records[k] == if k == Key(rec.room, rec.args[1]) then old(records)[k].(expireAt := rec.expireAt)
                                   else old(records)[k]
      ensures Abs() == if IsDeadline(rec.args) && Meaning(rec) == [] then
                         Redated(old(Abs()), Key(rec.room, rec.args[1]), rec.expireAt)
                       else ReplayEntry(old(Abs()), Meaning(rec))
    {
      hide Upper, ParseU64, ReplayEntry, Redated;
      if IsDeadline(rec.args) { RedatedOnly(Abs(), Key(rec.room, rec.args[1]), rec.expireAt); }
      ghost var n := Abs();
      var a := rec.args;
      ReplayEntryNone(n);
      if a == [] { return; }
      if IsMerge(a) || IsSet(a) {
        var v := if IsMerge(a) then VersionOf(a[3], a[4]) else Some(Version(Normalize(rec.ts), rec.node));
        if v.None? { return; }
        ReplayEntryOne(n, Put(Key(rec.room, a[1]), a[2], rec.expireAt, v.value));
        ReplayPut(Key(rec.room, a[1]), a[2], rec.expireAt, v.value);
        return;
      }
      if IsMset(a) {
        ReplayPairs(rec);
        return;
      }
      if IsDeadline(a) {
        RedateFound(Key(rec.room, a[1]), rec.expireAt);
        return;
      }
      if IsDel(a) {
        var key, v := Key(rec.room, a[1]), Version(Normalize(rec.ts), rec.node);
        ReplayEntryOne(n, Del(key, v));
        records := records - {key};
        SetTombstone(key, v);
        clock := Observe(clock, v.ts);
      }
    }

    // From the bytes of a file, read in any chunks and torn at its end, to the state its log determines.
    method Startup(chunks: seq<string>, ghost recs: seq<AofRecord>, ghost torn: string, ghost log: seq<Entry>)
      requires Flatten(chunks) == LogFile(recs) + torn && AllEncodable(recs) && Torn(torn)
      requires SaysWhatWasDone(recs, log) && forall i :: 0 <= i < |recs| ==> !IsDeadline(recs[i].args)
      modifies this`records, this`tombs, this`clock
      // each key is as the log's last mutation of it says, or else as it was
      ensures forall k :: Restored(old(records), log, records, k)
      // and its tombstone is the newest of the log's deletes of it above the watermark
      ensures old(tombs) == map[] && peers > 0 ==> forall k :: NewestDelete(log, watermark, tombs, k)
      ensures clock == old(clock) || exists i, op :: 0 <= i < |log| && op in log[i] && op.version.ts == clock
      ensures forall i, op :: 0 <= i < |log| && op in log[i] ==> op.version.ts <= clock
      ensures Abs() == Restart.Replay(old(Abs()), log)
    {
      hide Recover, AllEncodable, Torn, LogFile, Meaning, Restart.Replay, ReplayEntry, IsDeadline, Restored, NewestDelete;
      ghost var n := Abs();
      RecoverExact(recs, torn);
      var found, fate := RecoverFile(chunks);
      ReplayNone(n);
      assert log[..0] == [];
      for i := 0 to |found|
        invariant Abs() == Restart.Replay(n, log[..i])
      {
        ReplayNext(n, log, i);
        ReplayRecord(found[i]);
      }
      assert log[..|found|] == log;
      ReplayedState(n, log);
    }

    // Writes the state as records, in the order the hash maps happen to give: unexpired keys, then tombstones.
    method DumpState(order: seq<Key>, now: int) returns (recs: seq<AofRecord>)
      requires HlcVersions(records, tombs)
      ensures SaysWhatWasDone(recs, Dump(records, tombs, order, now))
    {
      hide Meaning, HlcVersions, DumpRecords, DumpTombs;
      recs := [];
      ghost var live, dead: seq<Entry> := [], [];
      DumpNone(records, tombs, order, now);
      for i := 0 to |order|
        invariant live == DumpRecords(records, order[..i], now) && SaysWhatWasDone(recs, live)
      {
        DumpNext(records, tombs, order, i, now);
        var k := order[i];
        if k in records && !records[k].Expired(now) {
          var r := records[k];
          RecordMeaning(records, tombs, k);
          recs := recs + [AofRecord(k.room, ["SET", k.name, r.value], r.expireAt, r.version.ts, r.version.node)];
          live := live + [[Put(k, r.value, r.expireAt, r.version)]];
        }
      }
      assert order[..|order|] == order && live + dead == live;
      for i := 0 to |order|
        invariant dead == DumpTombs(tombs, order[..i]) && SaysWhatWasDone(recs, live + dead)
      {
        DumpNext(records, tombs, order, i, now);
        var k := order[i];
        if k in tombs {
          TombMeaning(records, tombs, k);
          recs := recs + [AofRecord(k.room, ["DEL", k.name], 0, tombs[k].ts, tombs[k].node)];
          assert live + (dead + [[Del(k, tombs[k])]]) == (live + dead) + [[Del(k, tombs[k])]];
          dead := dead + [[Del(k, tombs[k])]];
        }
      }
      assert order[..|order|] == order;
    }

    method RedateFound(key: Key, expireAt: int)
      modifies this`records
      ensures Abs() == Redated(old(Abs()), key, expireAt)
    {
      if key in records { records := records[key := records[key].(expireAt := expireAt)]; }
    }

    method ReplayPut(key: Key, value: string, expireAt: int, v: Version)
      modifies this`records, this`clock
      ensures Abs() == ReplayOp(old(Abs()), Put(key, value, expireAt, v))
    {
      records := records[key := Record(value, expireAt, v)];
      clock := Observe(clock, v.ts);
    }

    method ReplayPairs(rec: AofRecord)
      requires IsMset(rec.args)
      modifies this`records, this`clock
      ensures Abs() == ReplayEntry(old(Abs()), Meaning(rec))
    {
      ghost var n, entry := Abs(), Meaning(rec);
      MsetShape(rec);
      hide Upper, Meaning, ReplayOp, ReplayEntry;
      ReplayEntryNone(n);
      assert entry[..0] == [];
      var i := 1;
      ghost var j: nat := 0;
      while i + 1 < |rec.args|
        invariant i == 2 * j + 1 && j <= |entry|
        invariant Abs() == ReplayEntry(n, entry[..j])
      {
        ReplayEntryNext(n, entry, j);
        ReplayPut(Key(rec.room, rec.args[i]), rec.args[i + 1], rec.expireAt, Version(Normalize(rec.ts), rec.node));
        i, j := i + 2, j + 1;
      }
      assert entry[..j] == entry;
    }
  }

  // -------- EXPIRE's options --------

  datatype Expiry = Expiry(nx: bool, xx: bool, gt: bool, lt: bool, persist: bool, deadline: int, past: bool)

  predicate Gives(opts: seq<string>, name: string) {
    exists i :: 0 <= i < |opts| && Upper(opts[i]) == name
  }

  predicate KnownOption(s: string) {
    var u := Upper(s);
    u == "NX" || u == "XX" || u == "GT" || u == "LT"
  }

  // What the arguments ask for: options in any order and number, and a deadline that fits in 64 bits.
  function ExpireArgs(args: seq<string>, scale: nat, now: int): Option<Expiry> {
    if scale == 0 then (if |args| == 2 then Some(Expiry(false, false, false, false, true, 0, false)) else None)
    else if |args| < 3 then None
    else
      var opts := args[3..];
      var nx, xx, gt, lt := Gives(opts, "NX"), Gives(opts, "XX"), Gives(opts, "GT"), Gives(opts, "LT");
      if (exists i :: 0 <= i < |opts| && !KnownOption(opts[i])) || (nx && (xx || gt || lt)) || (gt && lt) then None
      else
        match ParseI64(args[2])
        case None => None
        case Some(n) =>
          if n * scale < 0 - I64_MAX - 1 || now + n * scale > I64_MAX then None
          else Some(Expiry(nx, xx, gt, lt, false, now + n * scale, n <= 0))
  }

  // No deadline counts as an infinite one.
  predicate Later(deadline: int, than: int) {
    than != 0 && deadline > than
  }

  predicate Sooner(deadline: int, than: int) {
    than == 0 || deadline < than
  }

  ghost function ExpireCmd(n: Node, key: Key, want: Expiry, now: int): Option<Cmd> {
    match Find(n, key, now)
    case None => None
    case Some(r) =>
      if (want.persist || want.xx) && r.expireAt == 0 then None
      else if want.nx && r.expireAt != 0 then None
      else if want.gt && !Later(want.deadline, r.expireAt) then None
      else if want.lt && !Sooner(want.deadline, r.expireAt) then None
      else if want.past then Some(Remove(key))
      else Some(Expire(key, want.deadline))
  }

  // Known options only, NX alone, GT without LT, and a deadline that fits in a signed 64-bit integer.
  ghost predicate Allowed(amount: string, opts: seq<string>, scale: nat, now: int) {
    && (forall i :: 0 <= i < |opts| ==>
          Upper(opts[i]) == "NX" || Upper(opts[i]) == "XX" || Upper(opts[i]) == "GT" || Upper(opts[i]) == "LT")
    && (Gives(opts, "NX") ==> !Gives(opts, "XX") && !Gives(opts, "GT") && !Gives(opts, "LT"))
    && !(Gives(opts, "GT") && Gives(opts, "LT"))
    && ParseI64(amount).Some?
    && -0x8000_0000_0000_0000 <= ParseI64(amount).value * scale
    && now + ParseI64(amount).value * scale <= 0x7fff_ffff_ffff_ffff
  }

  lemma AllowedIff(args: seq<string>, scale: nat, now: int)
    requires |args| > 0
    ensures ExpireArgs(args, scale, now).Some? <==>
            if scale == 0 then |args| == 2 else |args| >= 3 && Allowed(args[2], args[3..], scale, now)
  {
    hide Upper, ParseI64, Gives;
  }

  // EXPIRE and PERSIST, as lookups see them. No deadline is 0, and counts as later than any. A deadline that is past
  // deletes the key; any other leaves it with its value, under a new version.
  ghost predicate Retimed(n: Node, m: Node, key: Key, opts: seq<string>, persist: bool, deadline: int, past: bool, now: int,
                          reply: Reply)
  {
    var found := Find(n, key, now);
    && (reply == Count(1) <==>
          && found.Some?
          && var e := found.value.expireAt;
             && (persist || Gives(opts, "XX") ==> e != 0) && (Gives(opts, "NX") ==> e == 0)
             && (Gives(opts, "GT") ==> e != 0 && deadline > e) && (Gives(opts, "LT") ==> e == 0 || deadline < e))
    && (reply != Count(1) ==> reply == Count(0) && Unchanged(n, m, now))
    && (reply == Count(1) ==>
          && FindsBut(n, m, {key}, now) && IssuedAbove(n, m, key, now)
          && (past ==> Find(m, key, now).None? && m.log == n.log + [[Del(key, Version(m.clock, n.id))]])
          && (!past ==>
                && Find(m, key, now) == Some(Record(found.value.value, deadline, Version(m.clock, n.id)))
                && m.log == n.log + [[Put(key, found.value.value, deadline, Version(m.clock, n.id))]]))
  }

  // The step that the arguments ask for does that.
  lemma ExpireIsRetimed(n: Node, key: Key, args: seq<string>, scale: nat, now: int)
    requires ExpireArgs(args, scale, now).Some? && |args| >= 2 && 0 <= now
    ensures var want := ExpireArgs(args, scale, now).value;
            var cmd := ExpireCmd(n, key, want, now);
            var m := if cmd.Some? then Exec(n, cmd.value, now, true).0 else Looked(n, key, now);
            var reply := Count(if cmd.Some? then 1 else 0);
            && (scale == 0 ==> |args| == 2 && Retimed(n, m, key, [], true, 0, false, now, reply))
            && (scale > 0 ==>
                  && |args| >= 3 && ParseI64(args[2]).Some?
                  && var amount := ParseI64(args[2]).value;
                     Retimed(n, m, key, args[3..], false, now + amount * scale, amount <= 0, now, reply))
  {
    hide ParseI64, Upper, Exec, IssuedAbove, FindsBut, KnownOption;
    var want := ExpireArgs(args, scale, now).value;
    var cmd := ExpireCmd(n, key, want, now);
    LookedUnchanged(n, key, now);
    if cmd.Some? {
      if want.past {
        RemoveEffect(n, key, now);
      } else {
        if scale > 0 { Ahead(ParseI64(args[2]).value, scale); }
        ExpireEffect(n, key, want.deadline, now);
      }
    }
  }

  lemma Ahead(amount: int, scale: nat)
    requires scale > 0
    ensures amount > 0 ==> amount * scale > 0
  {
  }

  lemma LookedUnchanged(n: Node, key: Key, now: int)
    ensures Unchanged(n, Looked(n, key, now), now)
  {
  }

  lemma ExpireArgsShape(args: seq<string>, scale: nat, now: int)
    requires ExpireArgs(args, scale, now).Some?
    ensures |args| >= 2
  {
  }

  method ParseExpire(args: seq<string>, scale: nat, now: int) returns (r: Option<Expiry>)
    requires |args| > 0 && 0 <= now <= I64_MAX
    ensures r == ExpireArgs(args, scale, now)
  {
    hide Upper, ParseI64;
    if (if scale != 0 then |args| < 3 else |args| != 2) { return None; }
    var nx, xx, gt, lt := false, false, false, false;
    var i := 3;
    ghost var opts := if |args| >= 3 then args[3..] else [];
    while i < |args|
      invariant 3 <= i && (i <= |args| || |args| == 2)
      invariant |args| >= 3 ==>
                  && (nx <==> Gives(opts[..i - 3], "NX")) && (xx <==> Gives(opts[..i - 3], "XX"))
                  && (gt <==> Gives(opts[..i - 3], "GT")) && (lt <==> Gives(opts[..i - 3], "LT"))
      invariant |args| >= 3 ==> forall j :: 0 <= j < i - 3 ==> KnownOption(opts[j])
      invariant |args| == 2 ==> !nx && !xx && !gt && !lt
    {
      var opt := Upper(args[i]);
      assert opts[i - 3] == args[i];
      GivesNext(opts, i - 3);
      if opt == "NX" { nx := true; }
      else if opt == "XX" { xx := true; }
      else if opt == "GT" { gt := true; }
      else if opt == "LT" { lt := true; }
      else { assert !KnownOption(opts[i - 3]); return None; }
      i := i + 1;
    }
    if |args| >= 3 { assert opts[..i - 3] == opts; }
    if nx && (xx || gt || lt) { return None; }
    if gt && lt { return None; }
    if scale == 0 { return Some(Expiry(nx, xx, gt, lt, true, 0, false)); }
    match ParseI64(args[2]) {
      case None => return None;
      case Some(n) =>
        GuardIsOverflow(n, scale, now);
        GuardIsOverflow(-n, scale, -1);
        if n < -((I64_MAX + 1) / scale) || n > (I64_MAX - now) / scale { return None; }
        r := Some(Expiry(nx, xx, gt, lt, false, now + n * scale, n <= 0));
    }
  }

  lemma GivesNext(opts: seq<string>, i: nat)
    requires i < |opts|
    ensures forall name :: Gives(opts[..i + 1], name) <==> Gives(opts[..i], name) || Upper(opts[i]) == name
  {
    hide Upper;
    forall name
      ensures Gives(opts[..i + 1], name) <==> Gives(opts[..i], name) || Upper(opts[i]) == name
    {
      assert opts[..i + 1][i] == opts[i];
      if Gives(opts[..i], name) {
        var j :| 0 <= j < i && Upper(opts[..i][j]) == name;
        assert opts[..i + 1][j] == opts[..i][j];
      }
      if Gives(opts[..i + 1], name) && Upper(opts[i]) != name {
        var j :| 0 <= j < i + 1 && Upper(opts[..i + 1][j]) == name;
        assert opts[..i][j] == opts[..i + 1][j];
      }
    }
  }

  // -------- replicated writes --------

  // The version a peer sent, if it parses and is not too far in the future.
  function Admitted(ts: string, node: string, now: int, maxOffset: nat): Option<Version> {
    match VersionOf(ts, node)
    case None => None
    case Some(v) => if PhysicalMs(v.ts) > now + maxOffset then None else Some(v)
  }

  // The write a CRDTMERGE carries; without its optional deadline it keeps the one in place.
  function MergeOp(n: Node, room: string, args: seq<string>, now: int, maxOffset: nat): Option<Op> {
    if |args| < 5 || |args| > 6 then None
    else
      var deadline := if |args| == 6 then ParseI64(args[5])
                      else match Find(n, Key(room, args[1]), now) { case Some(r) => Some(r.expireAt) case None => Some(0) };
      match (deadline, Admitted(args[3], args[4], now, maxOffset))
      case (Some(d), Some(v)) =>
        if |args| == 6 && d < 0 then None else Some(Put(Key(room, args[1]), args[2], d, v))
      case _ => None
  }

  // Both numbers parse, the node within 32 bits, and the version in HLC format is at most maxOffset ms ahead of the clock.
  ghost predicate InReach(ts: string, node: string, now: int, maxOffset: nat) {
    && ParseU64(ts).Some? && ParseU64(node).Some? && ParseU64(node).value <= 0xffff_ffff
    && Normalize(ParseU64(ts).value) < (now + maxOffset + 1) * 0x1_0000
  }

  lemma AdmittedIff(ts: string, node: string, now: int, maxOffset: nat)
    ensures Admitted(ts, node, now, maxOffset) ==
            if InReach(ts, node, now, maxOffset) then Some(Version(Normalize(ParseU64(ts).value), ParseU64(node).value))
            else None
  {
    hide ParseU64, Normalize;
  }

  lemma MergeOpIff(n: Node, room: string, args: seq<string>, now: int, maxOffset: nat)
    ensures var op := MergeOp(n, room, args, now, maxOffset);
            && (op.Some? <==> 5 <= |args| <= 6 && InReach(args[3], args[4], now, maxOffset) &&
                              (|args| == 6 ==> ParseI64(args[5]).Some? && ParseI64(args[5]).value >= 0))
            && (op.Some? ==>
                  var found := Find(n, Key(room, args[1]), now);
                  op.value == Put(Key(room, args[1]), args[2],
                                  if |args| == 6 then ParseI64(args[5]).value
                                  else if found.Some? then found.value.expireAt else 0,
                                  Version(Normalize(ParseU64(args[3]).value), ParseU64(args[4]).value)))
  {
    hide ParseU64, ParseI64, InReach, Admitted;
    if 5 <= |args| <= 6 { AdmittedIff(args[3], args[4], now, maxOffset); }
  }

  // A merge, as lookups see it: stale exactly when at or under what the node holds, and then nothing changes but the
  // clock; otherwise the key holds the value and version sent, with the deadline sent, or else the one it had.
  ghost predicate Merged(n: Node, m: Node, key: Key, value: string, sent: Option<int>, v: Version, now: int, reply: Reply) {
    var found := Find(n, key, now);
    var deadline := if sent.Some? then sent.value else if found.Some? then found.value.expireAt else 0;
    && reply == (if TooOld(n, key, v, now) then StaleWrite else Converged)
    && m.clock == Max(n.clock, v.ts)
    && (reply.StaleWrite? ==> FindsBut(n, m, {}, now) && m.log == n.log && m.tombs == n.tombs)
    && (reply.Converged? ==>
          && FindsBut(n, m, {key}, now) && key in m.records && m.records[key] == Record(value, deadline, v)
          && m.log == n.log + [[Put(key, value, deadline, v)]])
  }

  // A replicated delete: likewise; the key is gone, and with peers its tombstone is at or above the version sent.
  ghost predicate Buried(n: Node, m: Node, key: Key, v: Version, now: int, reply: Reply) {
    && reply == (if TooOld(n, key, v, now) then StaleWrite else Deleted)
    && m.clock == Max(n.clock, v.ts)
    && (reply.StaleWrite? ==> FindsBut(n, m, {}, now) && m.log == n.log && m.tombs == n.tombs)
    && (reply.Deleted? ==>
          && FindsBut(n, m, {key}, now) && key !in m.records && m.log == n.log + [[Del(key, v)]]
          && (n.peers > 0 && v.ts > n.watermark ==> key in m.tombs && v.AtMost(m.tombs[key])))
  }

  // A frontier heard: the sender's only grows, this node's own becomes a new version, the watermark follows.
  ghost predicate HeardOf(n: Node, m: Node, from: nat, f: nat) {
    && m.records == n.records && m.log == n.log && m.clock == m.frontier && (n.clock < U64_MAX ==> n.clock < m.frontier)
    && from in m.frontiers && m.frontiers[from] == (if from in n.frontiers then Max(n.frontiers[from], f) else f)
    && m.frontiers - {from} == n.frontiers - {from}
    && CollectedFrom(n.tombs, n.watermark, m)
  }

  lemma HeardEffect(n: Node, from: nat, f: nat, now: int)
    ensures HeardOf(n, Exec(n, Frontier(from, f), now, true).0, from, f)
  {
    hide Exec, CollectedFrom;
    FrontierEffect(n, from, f, now);
  }

  lemma MergeMeaning(room: string, args: seq<string>, expireAt: int, v: Version)
    requires |args| >= 5 && Upper(args[0]) == "CRDTMERGE" && VersionOf(args[3], args[4]) == Some(v)
    ensures Meaning(AofRecord(room, args, expireAt, v.ts, v.node)) == [Put(Key(room, args[1]), args[2], expireAt, v)]
  {
  }

  lemma StillHeard(others: set<nat>, todo: set<nat>, k: nat)
    requires k in todo
    ensures |others - (todo - {k})| == |others - todo| + if k in others then 1 else 0
  {
    if k in others {
      assert others - (todo - {k}) == (others - todo) + {k};
    } else {
      assert others - (todo - {k}) == others - todo;
    }
  }

  // The smallest of the values outside `todo`, all ones when there is none.
  ghost predicate LowSoFar(m: map<nat, nat>, todo: set<nat>, low: nat) {
    && low <= U64_MAX && (forall k :: k in m && k !in todo ==> low <= m[k])
    && (low == U64_MAX || exists k :: k in m && low == m[k])
  }

  lemma LowNone(m: map<nat, nat>, todo: set<nat>)
    requires m.Keys <= todo
    ensures LowSoFar(m, todo, U64_MAX)
  {
  }

  lemma LowNext(m: map<nat, nat>, todo: set<nat>, k: nat, low: nat)
    requires LowSoFar(m, todo, low)
    ensures k in m ==> LowSoFar(m, todo - {k}, if m[k] < low then m[k] else low)
    ensures k !in m ==> LowSoFar(m, todo - {k}, low)
  {
  }

  lemma LowIsUnique(m: map<nat, nat>, low: nat)
    requires LowSoFar(m, {}, low)
    ensures low == Low(m)
  {
  }

  function Redated(n: Node, key: Key, expireAt: int): Node {
    if key in n.records then n.(records := n.records[key := n.records[key].(expireAt := expireAt)]) else n
  }

  lemma RedatedOnly(n: Node, key: Key, expireAt: int)
    ensures var m := Redated(n, key, expireAt);
            && m.records.Keys == n.records.Keys && m.tombs == n.tombs && m.clock == n.clock
            && forall k :: k in m.records ==>
                 m.records[k] == if k == key then n.records[k].(expireAt := expireAt) else n.records[k]
  {
  }

  // Every stored version is a fixed point of normalisation.
  ghost predicate HlcVersions(records: map<Key, Record>, tombs: map<Key, Version>) {
    && (forall k :: k in records ==> Normalize(records[k].version.ts) == records[k].version.ts)
    && (forall k :: k in tombs ==> Normalize(tombs[k].ts) == tombs[k].ts)
  }

  lemma RecordMeaning(records: map<Key, Record>, tombs: map<Key, Version>, k: Key)
    requires HlcVersions(records, tombs) && k in records
    ensures var r := records[k];
            Meaning(AofRecord(k.room, ["SET", k.name, r.value], r.expireAt, r.version.ts, r.version.node)) ==
            [Put(k, r.value, r.expireAt, r.version)]
  {
    SetMeaning(k.room, ["SET", k.name, records[k].value], records[k].expireAt, records[k].version);
  }

  lemma TombMeaning(records: map<Key, Record>, tombs: map<Key, Version>, k: Key)
    requires HlcVersions(records, tombs) && k in tombs
    ensures Meaning(AofRecord(k.room, ["DEL", k.name], 0, tombs[k].ts, tombs[k].node)) == [Del(k, tombs[k])]
  {
    DelMeaning(k.room, ["DEL", k.name], tombs[k]);
  }

  lemma DumpNone(records: map<Key, Record>, tombs: map<Key, Version>, order: seq<Key>, now: int)
    ensures DumpRecords(records, order[..0], now) == [] && DumpTombs(tombs, order[..0]) == []
  {
  }

  lemma DumpNext(records: map<Key, Record>, tombs: map<Key, Version>, order: seq<Key>, i: nat, now: int)
    requires i < |order|
    ensures var k := order[i];
            && DumpRecords(records, order[..i + 1], now) == DumpRecords(records, order[..i], now) +
                 (if k in records && !records[k].Expired(now)
                  then [[Put(k, records[k].value, records[k].expireAt, records[k].version)]] else [])
            && DumpTombs(tombs, order[..i + 1]) ==
               DumpTombs(tombs, order[..i]) + (if k in tombs then [[Del(k, tombs[k])]] else [])
  {
    assert order[..i + 1][..i] == order[..i];
  }

  lemma ReplayEntryNone(n: Node)
    ensures ReplayEntry(n, []) == n
  {
  }

  lemma ReplayedState(n: Node, log: seq<Entry>)
    ensures var m := Restart.Replay(n, log);
            && (forall k :: Restored(n.records, log, m.records, k))
            && (n.tombs == map[] && n.peers > 0 ==> forall k :: NewestDelete(log, n.watermark, m.tombs, k))
            && (m.clock == n.clock || exists i, op :: 0 <= i < |log| && op in log[i] && op.version.ts == m.clock)
            && (forall i, op :: 0 <= i < |log| && op in log[i] ==> op.version.ts <= m.clock)
  {
    hide Restart.Replay, Restored, NewestDelete;
    ReplayMeaning(n, log);
    ReplayedClock(n, log);
    forall k
      ensures Restored(n.records, log, Restart.Replay(n, log).records, k)
      ensures n.tombs == map[] && n.peers > 0 ==> NewestDelete(log, n.watermark, Restart.Replay(n, log).tombs, k)
    {
      ReplayedRecord(n, log, k);
      if n.tombs == map[] && n.peers > 0 { ReplayedTombstone(n, log, k); }
    }
  }

  lemma ReplayNone(n: Node)
    ensures Restart.Replay(n, []) == n
  {
  }

  lemma ReplayNext(n: Node, log: seq<Entry>, i: nat)
    requires i < |log|
    ensures Restart.Replay(n, log[..i + 1]) == ReplayEntry(Restart.Replay(n, log[..i]), log[i])
  {
    assert log[..i + 1][..i] == log[..i];
  }

  lemma ReplayEntryNext(n: Node, entry: Entry, i: nat)
    requires i < |entry|
    ensures ReplayEntry(n, entry[..i + 1]) == ReplayOp(ReplayEntry(n, entry[..i]), entry[i])
  {
    assert entry[..i + 1][..i] == entry[..i];
  }

  lemma ReplayEntryOne(n: Node, op: Op)
    ensures ReplayEntry(n, [op]) == ReplayOp(n, op)
  {
    assert [op][..0] == [];
    assert ReplayEntry(n, []) == n;
  }

  lemma MsetShape(rec: AofRecord)
    requires IsMset(rec.args)
    ensures |Meaning(rec)| == (|rec.args| - 1) / 2
    ensures forall i :: 0 <= i < |Meaning(rec)| ==>
              Meaning(rec)[i] == Put(Key(rec.room, rec.args[2 * i + 1]), rec.args[2 * i + 2], rec.expireAt,
                                     Version(Normalize(rec.ts), rec.node))
  {
  }

  // -------- DEL --------

  // The names given, without repetitions, of keys that are live.
  ghost function LiveNamed(n: Node, room: string, names: seq<string>, now: int): set<string> {
    set x | x in names && Find(n, Key(room, x), now).Some?
  }

  ghost function RemoveAll(n: Node, room: string, names: seq<string>, now: int): Node {
    if names == [] then n
    else Exec(RemoveAll(n, room, names[..|names| - 1], now), Remove(Key(room, names[|names| - 1])), now, true).0
  }

  // Deleting a list of names leaves none of them, and every other key as it was.
  lemma {:induction false} RemoveAllFinds(n: Node, room: string, names: seq<string>, now: int, key: Key)
    ensures Find(RemoveAll(n, room, names, now), key, now) ==
            if key.room == room && key.name in names then None else Find(n, key, now)
  {
    if names != [] {
      var init, last := names[..|names| - 1], names[|names| - 1];
      assert names == init + [last];
      RemoveAllFinds(n, room, init, now, key);
      RemoveOneFinds(RemoveAll(n, room, init, now), Key(room, last), now, key);
    }
  }

  lemma RemoveOneFinds(n: Node, removed: Key, now: int, key: Key)
    ensures Find(Exec(n, Remove(removed), now, true).0, key, now) == if key == removed then None else Find(n, key, now)
  {
  }

  lemma RemoveNext(n: Node, room: string, names: seq<string>, i: nat, now: int)
    requires i < |names|
    ensures var m := RemoveAll(n, room, names[..i], now);
            && RemoveAll(n, room, names[..i + 1], now) == Exec(m, Remove(Key(room, names[i])), now, true).0
            && (Find(m, Key(room, names[i]), now).None? ==>
                  RemoveAll(n, room, names[..i + 1], now) == Looked(m, Key(room, names[i]), now))
            && (Find(m, Key(room, names[i]), now).Some? ==> Looked(m, Key(room, names[i]), now) == m)
            && |LiveNamed(n, room, names[..i + 1], now)| ==
               |LiveNamed(n, room, names[..i], now)| + (if Find(m, Key(room, names[i]), now).Some? then 1 else 0)
  {
    assert names[..i + 1][..i] == names[..i] && names[..i + 1] == names[..i] + [names[i]];
    RemoveAllFinds(n, room, names[..i], now, Key(room, names[i]));
    var before, after := LiveNamed(n, room, names[..i], now), LiveNamed(n, room, names[..i + 1], now);
    if Find(RemoveAll(n, room, names[..i], now), Key(room, names[i]), now).Some? {
      assert after == before + {names[i]} && names[i] !in before;
    } else {
      assert after == before;
    }
  }

  lemma DelMeaning(room: string, args: seq<string>, v: Version)
    requires IsDel(args)
    ensures Meaning(AofRecord(room, args, 0, v.ts, v.node)) == [Del(Key(room, args[1]), Version(Normalize(v.ts), v.node))]
  {
  }

  // A replicated delete is logged in HLC format and brought into it again by replay: it keeps its version exactly
  // when the version sent was 0 or at least 2^31.
  lemma DeleteSurvivesReplay(room: string, args: seq<string>, ts: nat, node: nat)
    requires |args| == 4 && Upper(args[0]) == "CRDTDEL"
    ensures var v := Version(Normalize(ts), node);
            Meaning(AofRecord(room, args, 0, v.ts, v.node)) == [Del(Key(room, args[1]), v)]
            <==> ts == 0 || ts >= 0x8000_0000
  {
    hide Upper, Normalize;
    DelMeaning(room, args, Version(Normalize(ts), node));
    NormalizeIdempotent(ts);
  }

  // The same records, except that some expired ones are gone, all of them keys still to be written.
  ghost predicate Pruned(before: map<Key, Record>, after: map<Key, Record>, now: int, pairs: seq<(Key, string)>, from: nat) {
    && (forall k :: k in after ==> k in before && after[k] == before[k])
    && (forall k :: k in before && k !in after ==>
          before[k].Expired(now) && exists j :: from <= j < |pairs| && pairs[j].0 == k)
  }

  lemma PrunedRefl(records: map<Key, Record>, now: int, pairs: seq<(Key, string)>)
    ensures Pruned(records, records, now, pairs, 0)
  {
  }

  lemma PrunedDone(before: map<Key, Record>, after: map<Key, Record>, now: int, pairs: seq<(Key, string)>)
    requires Pruned(before, after, now, pairs, |pairs|)
    ensures before == after
  {
  }

  lemma PrunedFinds(n: Node, m: Node, now: int, pairs: seq<(Key, string)>, i: nat)
    requires m == n.(records := m.records) && Pruned(n.records, m.records, now, pairs, 0) && i < |pairs|
    ensures Find(n, pairs[i].0, now) == Find(m, pairs[i].0, now)
    ensures Overwritten(n, pairs[i].0, now) == Overwritten(m, pairs[i].0, now)
    ensures Pruned(n.records, Looked(m, pairs[i].0, now).records, now, pairs, 0)
  {
  }

  lemma PrunedWrite(n: Node, m: Node, now: int, pairs: seq<(Key, string)>, i: nat, v: Version)
    requires m == n.(records := m.records) && Pruned(n.records, m.records, now, pairs, i) && i < |pairs|
    ensures var a, b := Write(n, pairs[i].0, pairs[i].1, 0, v, now),
                        Write(Looked(m, pairs[i].0, now), pairs[i].0, pairs[i].1, 0, v, now);
            b == a.(records := b.records) && Pruned(a.records, b.records, now, pairs, i + 1)
  {
  }

  lemma {:induction false} WriteAllKeeps(n: Node, pairs: seq<(Key, string)>, v: Version, now: int)
    ensures WriteAll(n, pairs, v, now) ==
            n.(records := WriteAll(n, pairs, v, now).records, tombs := WriteAll(n, pairs, v, now).tombs)
  {
    if pairs != [] { WriteAllKeeps(n, pairs[..|pairs| - 1], v, now); }
  }

  lemma SetMeaning(room: string, args: seq<string>, expireAt: int, v: Version)
    requires |args| >= 3 && Upper(args[0]) == "SET" && Normalize(v.ts) == v.ts
    ensures Meaning(AofRecord(room, args, expireAt, v.ts, v.node)) == [Put(Key(room, args[1]), args[2], expireAt, v)]
  {
  }

  lemma MsetMeaning(room: string, args: seq<string>, v: Version)
    requires |args| > 0 && Upper(args[0]) == "MSET" && Normalize(v.ts) == v.ts
    ensures Meaning(AofRecord(room, args, 0, v.ts, v.node)) == MsetEntry(Pairs(room, args), v)
  {
  }
}
