/** Hibernation snapshots: a room's keys as bytes, and reading them back. */
module Snapshot {
  import opened Ints
  import opened Hlc
  import opened Node
  import opened Wrappers
  import opened ByteCodec
  import opened ColdFile
  import opened FileIo

  type Keys = map<string, Record>

  const MAGIC := "RSNP"
  const VERSION: nat := 2
  const FLUSH_AT: nat := 65536

  // -------- reading --------

  datatype Blob = Blob(text: string, next: nat) | Short

  // A length and that many bytes; an absurd length is merely too long.
  function ReadBlob(s: string): (b: Blob)
    ensures b.Blob? ==> 8 <= b.next <= |s|
  {
    if |s| < 8 then Short
    else
      var len := FromLe(s[..8]);
      if len <= |s| - 8 then Blob(s[8..8 + len], 8 + len) else Short
  }

  datatype Entry = Entry(key: string, record: Record, next: nat) | Truncated

  // The fields after the value: version 1 has no version.
  function ReadMeta(key: string, value: string, t: string, v2: bool, before: nat): (e: Entry)
    ensures e.Entry? ==> before < e.next <= before + |t|
  {
    if |t| < 8 then Truncated
    else if !v2 then Entry(key, Record(value, Signed(FromLe(t[..8])), Version(Normalize(0), 1)), before + 8)
    else if |t| < 20 then Truncated
    else Entry(key, Record(value, Signed(FromLe(t[..8])),
                           Version(Normalize(FromLe(t[8..16])), FromLe(t[16..20]))), before + 20)
  }

  function ReadEntry(s: string, v2: bool): (e: Entry)
    ensures e.Entry? ==> 0 < e.next <= |s|
  {
    match ReadBlob(s)
    case Short => Truncated
    case Blob(key, n1) =>
      match ReadBlob(s[n1..])
      case Short => Truncated
      case Blob(value, n2) => ReadMeta(key, value, s[n1 + n2..], v2, n1 + n2)
  }

  datatype Loaded = Loaded(keys: Keys) | Corrupt

  // Entries until the promised number of distinct keys is there; a repeated key keeps its last record.
  function LoadEntries(s: string, count: nat, loaded: Keys, v2: bool): Loaded
    decreases |s|
  {
    if |loaded| >= count then Loaded(loaded)
    else
      match ReadEntry(s, v2)
      case Truncated => Corrupt
      case Entry(key, record, next) => LoadEntries(s[next..], count, loaded[key := record], v2)
  }

  predicate IsV2(data: string) {
    |data| >= 8 && data[..4] == MAGIC
  }

  // The promised number of records and where they start.
  function Header(data: string): Option<(nat, nat)> {
    if |data| < 8 then None
    else if !IsV2(data) then (if FromLe(data[..8]) > |data| then None else Some((FromLe(data[..8]), 8)))
    else if FromLe(data[4..8]) != VERSION || |data| < 16 || FromLe(data[8..16]) > |data| then None
    else Some((FromLe(data[8..16]), 16))
  }

  function Load(data: string): Loaded {
    match Header(data)
    case None => Corrupt
    case Some((count, off)) =>
      if off <= |data| then LoadEntries(data[off..], count, map[], IsV2(data)) else Corrupt
  }

  // The loading loop over an offset: on any bytes whatever it ends, inside the data, and the room is replaced only by
  // a complete load.
  method Wakeup(data: string, room: Keys) returns (ok: bool, keys: Keys)
    ensures ok <==> Load(data).Loaded?
    ensures keys == if ok then Load(data).keys else room
  {
    hide ReadEntry, LoadEntries, FromLe;
    var header := Header(data);
    if header.None? { return false, room; }
    var (count, off) := header.value;
    var v2 := IsV2(data);
    var loaded: Keys := map[];
    while |loaded| < count
      invariant off <= |data|
      invariant LoadEntries(data[off..], count, loaded, v2) == Load(data)
      decreases |data| - off
    {
      LoadStep(data[off..], count, loaded, v2);
      var e := ReadEntry(data[off..], v2);
      if e.Truncated? { return false, room; }
      assert data[off..][e.next..] == data[off + e.next..];
      loaded := loaded[e.key := e.record];
      off := off + e.next;
    }
    LoadStep(data[off..], count, loaded, v2);
    return true, loaded;
  }

  lemma LoadStep(s: string, count: nat, loaded: Keys, v2: bool)
    ensures if |loaded| >= count then LoadEntries(s, count, loaded, v2) == Loaded(loaded)
            else match ReadEntry(s, v2)
                 case Truncated => LoadEntries(s, count, loaded, v2) == Corrupt
                 case Entry(key, record, next) =>
                   LoadEntries(s, count, loaded, v2) == LoadEntries(s[next..], count, loaded[key := record], v2)
  {
  }

  // -------- writing --------

  function EntryBytes(key: string, r: Record): string
    requires Storable(r)
  {
    U64(|key|) + key + (U64(|r.value|) + r.value + (I64(r.expireAt) + U64(r.version.ts) + U32(r.version.node)))
  }

  predicate Lists(order: seq<string>, keys: Keys) {
    forall i :: 0 <= i < |order| ==> order[i] in keys
  }

  function EntriesBytes(order: seq<string>, keys: Keys): string
    requires Lists(order, keys) && AllStorable(keys)
  {
    if order == [] then [] else EntryBytes(order[0], keys[order[0]]) + EntriesBytes(order[1..], keys)
  }

  function Save(order: seq<string>, keys: Keys): string
    requires Lists(order, keys) && AllStorable(keys)
  {
    MAGIC + U32(VERSION) + U64(|keys|) + EntriesBytes(order, keys)
  }

  // The header: the magic, version 2 and the number of records, little-endian.
  lemma HeaderLayout(order: seq<string>, keys: Keys, i: nat)
    requires Lists(order, keys) && AllStorable(keys) && i < 8
    ensures var s := Save(order, keys);
            && s[..4] == "RSNP" && (i < 4 ==> s[4 + i] as nat == if i == 0 then 2 else 0)
            && s[8 + i] as nat == (|keys| / Pow256(i)) % 256 && s[16..] == EntriesBytes(order, keys)
  {
    hide Le, EntriesBytes;
    if i < 4 { LeByte(2, 4, i); }
    LeByte(|keys|, 8, i);
    assert Pow256(0) == 1 && (i > 0 ==> Pow256(i) > 2);
    var s := Save(order, keys);
    assert s[4..8] == U32(2) && s[8..16] == U64(|keys|);
    assert s[8 + i] == s[8..16][i] && (i < 4 ==> s[4 + i] == s[4..8][i]);
  }

  // A record: the key with its length, the value with its length, then deadline, timestamp and node.
  lemma EntryLayout(key: string, r: Record, i: nat)
    requires Storable(r) && i < 8
    ensures var s := EntryBytes(key, r);
            var at := 8 + |key|;
            var meta := at + 8 + |r.value|;
            && |s| == meta + 20 && s[8..at] == key && s[at + 8..meta] == r.value
            && s[i] as nat == (|key| / Pow256(i)) % 256 && s[at + i] as nat == (|r.value| / Pow256(i)) % 256
            && s[meta + i] as nat == (Unsigned(r.expireAt) / Pow256(i)) % 256
            && s[meta + 8 + i] as nat == (r.version.ts / Pow256(i)) % 256
            && (i < 4 ==> s[meta + 16 + i] as nat == (r.version.node / Pow256(i)) % 256)
  {
    hide Le, Pow256, Unsigned;
    LeByte(|key|, 8, i);
    LeByte(|r.value|, 8, i);
    LeByte(Unsigned(r.expireAt), 8, i);
    LeByte(r.version.ts, 8, i);
    if i < 4 { LeByte(r.version.node, 4, i); }
  }

  // Appends the buffer to the file; `calls` are the answers of the system.
  method Flush(file: string, buf: string, calls: seq<Io>) returns (ok: bool, out: string)
    ensures ok ==> out == file + buf
    ensures ok <==> buf == [] || Delivered(|buf|, calls) == |buf|
  {
    if buf == [] { return true, file + buf; }
    var written;
    ok, written := FileIo.WriteAll(buf, calls);
    out := file + buf[..written];
    assert buf[..|buf|] == buf;
  }

  // The fields of one entry, as they are fed to the buffer.
  function EntryFields(key: string, r: Record): seq<string>
    requires Storable(r)
  {
    [U64(|key|), key, U64(|r.value|), r.value, I64(r.expireAt), U64(r.version.ts), U32(r.version.node)]
  }

  function Concat(fields: seq<string>): string {
    if fields == [] then [] else Concat(fields[..|fields| - 1]) + fields[|fields| - 1]
  }

  lemma ConcatNext(fields: seq<string>, i: nat)
    requires i < |fields|
    ensures Concat(fields[..i + 1]) == Concat(fields[..i]) + fields[i]
  {
    assert fields[..i + 1][..i] == fields[..i];
  }

  lemma EntryConcat(key: string, r: Record)
    requires Storable(r)
    ensures Concat(EntryFields(key, r)) == EntryBytes(key, r)
  {
    hide Concat, U64, U32, I64;
    var f := EntryFields(key, r);
    ConcatNone();
    ConcatNext(f, 0);
    ConcatNext(f, 1);
    ConcatNext(f, 2);
    ConcatNext(f, 3);
    ConcatNext(f, 4);
    ConcatNext(f, 5);
    ConcatNext(f, 6);
    assert f[..0] == [] && f[..7] == f;
    assert Concat(f) == ([] + U64(|key|)) + key + U64(|r.value|) + r.value + I64(r.expireAt) + U64(r.version.ts) +
                        U32(r.version.node);
  }

  lemma ConcatNone()
    ensures Concat([]) == []
  {
  }

  // What is on its way to the file: the bytes written, the buffer, and how many flushes the system has answered.
  datatype Writing = Writing(ok: bool, file: string, buf: string, flushed: nat)

  // Feeds one field, and flushes the buffer once it is big enough; after a failed flush nothing more is written.
  method Feed(w: Writing, data: string, flushes: seq<seq<Io>>) returns (next: Writing)
    requires w.flushed <= |flushes|
    ensures next.flushed <= |flushes| && w.flushed <= next.flushed <= w.flushed + 1
    ensures next.ok ==> w.ok && next.file + next.buf == w.file + w.buf + data
    ensures w.ok && w.flushed < |flushes| && TakesAll(flushes[w.flushed], |w.buf + data|) ==> next.ok
  {
    hide Delivered;
    var buf := w.buf + data;
    assert w.file + buf == w.file + w.buf + data;
    if !w.ok || |buf| < FLUSH_AT { return w.(buf := buf); }
    if w.flushed == |flushes| { return w.(ok := false); }
    var ok, out := Flush(w.file, buf, flushes[w.flushed]);
    next := Writing(ok, out, "", w.flushed + 1);
    assert ok ==> out + "" == w.file + buf;
    TakenAll(flushes[w.flushed], |buf|);
  }

  lemma TakenAll(calls: seq<Io>, n: nat)
    ensures TakesAll(calls, n) ==> Delivered(n, calls) == n
  {
  }

  // The writing loops, key by key and field by field, with a buffer that is flushed as it grows: all bytes reach the
  // file, or the save fails.
  method SaveRoom(order: seq<string>, keys: Keys, flushes: seq<seq<Io>>) returns (ok: bool, file: string)
    requires Lists(order, keys) && AllStorable(keys)
    ensures ok ==> file == Save(order, keys)
    ensures |flushes| > 7 * |order| + 3 && (forall j :: 0 <= j < |flushes| ==> TakesAll(flushes[j], |Save(order, keys)|)) ==> ok
  {
    hide EntryBytes, EntriesBytes, U32, U64, Storable, Delivered, EntryFields, Concat;
    ghost var takes := |flushes| > 7 * |order| + 3 && forall j :: 0 <= j < |flushes| ==> TakesAll(flushes[j], |Save(order, keys)|);
    var w := Writing(true, "", "", 0);
    ghost var all := Save(order, keys);
    ghost var rest := EntriesBytes(order, keys);
    w := Feed(w, MAGIC, flushes);
    w := Feed(w, U32(VERSION), flushes);
    w := Feed(w, U64(|keys|), flushes);
    assert order[0..] == order;
    assert w.ok ==> w.file + w.buf + rest == all;
    for i := 0 to |order|
      invariant w.flushed <= |flushes| && w.flushed <= 7 * i + 3
      invariant w.ok ==> w.file + w.buf + EntriesBytes(order[i..], keys) == all
      invariant takes ==> w.ok
    {
      var r := keys[order[i]];
      EntriesMore(order, keys, i);
      w := FeedEntry(w, order[i], r, EntriesBytes(order[i + 1..], keys), all, flushes);
    }
    EntriesNone(order, keys);
    if !w.ok { return false, w.file; }
    if w.flushed == |flushes| && w.buf != [] { return false, w.file; }
    ok, file := Flush(w.file, w.buf, if w.flushed < |flushes| then flushes[w.flushed] else []);
    if w.flushed < |flushes| { TakenAll(flushes[w.flushed], |w.buf|); }
  }

  method FeedEntry(w: Writing, key: string, r: Record, ghost rest: string, ghost all: string, flushes: seq<seq<Io>>)
      returns (next: Writing)
    requires Storable(r) && w.flushed <= |flushes|
    requires w.ok ==> w.file + w.buf + (EntryBytes(key, r) + rest) == all
    ensures next.flushed <= |flushes| && next.flushed <= w.flushed + 7
    ensures next.ok ==> w.ok && next.file + next.buf + rest == all
    ensures w.ok && w.flushed + 7 < |flushes| && (forall j :: 0 <= j < |flushes| ==> TakesAll(flushes[j], |all|)) ==> next.ok
  {
    var fields := EntryFields(key, r);
    assert |fields| == 7;
    EntryConcat(key, r);
    ConcatNone();
    assert fields[..0] == [] && w.file + w.buf + [] == w.file + w.buf;
    hide EntryFields, EntryBytes, Storable, Concat, TakesAll;
    ghost var takes := w.ok && w.flushed + 7 < |flushes| && forall j :: 0 <= j < |flushes| ==> TakesAll(flushes[j], |all|);
    next := w;
    for i := 0 to 7
      invariant next.flushed <= |flushes| && next.flushed <= w.flushed + i
      invariant next.ok ==> w.ok && next.file + next.buf == w.file + w.buf + Concat(fields[..i])
      invariant takes ==> next.ok
    {
      if takes {
        PartOf(w.file + w.buf, next.file, next.buf, fields, i, rest, all, EntryBytes(key, r));
        TakesLess(flushes[next.flushed], |next.buf + fields[i]|, |all|);
      }
      Joined(w.file + w.buf, fields, i);
      next := Feed(next, fields[i], flushes);
    }
    assert fields[..7] == fields;
    if next.ok { assert w.file + w.buf + (EntryBytes(key, r) + rest) == w.file + w.buf + EntryBytes(key, r) + rest; }
  }

  lemma Joined(done: string, fields: seq<string>, i: nat)
    requires i < |fields|
    ensures done + Concat(fields[..i]) + fields[i] == done + Concat(fields[..i + 1])
  {
    hide Concat;
    ConcatNext(fields, i);
  }

  lemma TakesLess(calls: seq<Io>, n: nat, most: nat)
    requires n <= most && TakesAll(calls, most)
    ensures TakesAll(calls, n)
  {
  }

  lemma {:induction false} ConcatPrefix(fields: seq<string>, i: nat)
    requires i <= |fields|
    ensures |Concat(fields[..i])| <= |Concat(fields)|
  {
    if i < |fields| {
      ConcatPrefix(fields[..|fields| - 1], i);
      assert fields[..|fields| - 1][..i] == fields[..i];
    } else {
      assert fields[..i] == fields;
    }
  }

  // What has been fed so far is no longer than the whole.
  lemma PartOf(done: string, file: string, buf: string, fields: seq<string>, i: nat, rest: string, all: string, entry: string)
    requires i < |fields| && file + buf == done + Concat(fields[..i]) && Concat(fields) == entry
    requires done + (entry + rest) == all
    ensures |buf| + |fields[i]| <= |all|
  {
    hide Concat;
    ConcatNext(fields, i);
    ConcatPrefix(fields, i + 1);
  }

  lemma EntriesMore(order: seq<string>, keys: Keys, i: nat)
    requires Lists(order, keys) && AllStorable(keys) && i < |order|
    ensures EntriesBytes(order[i..], keys) == EntryBytes(order[i], keys[order[i]]) + EntriesBytes(order[i + 1..], keys)
  {
    hide EntryBytes, Storable;
    assert order[i..][1..] == order[i + 1..];
  }

  lemma EntriesNone(order: seq<string>, keys: Keys)
    requires Lists(order, keys) && AllStorable(keys)
    ensures EntriesBytes(order[|order|..], keys) == []
  {
  }

  // The whole of hibernation: the snapshot is written to a temporary file, synced and renamed over the old one, and only
  // then the keys are freed. Any failure leaves both the old file and the keys.
  method HibernateRoom(order: seq<string>, keys: Keys, previous: Option<string>, flushes: seq<seq<Io>>, synced: bool, closed: bool,
                       renamed: bool)
      returns (ok: bool, file: Option<string>, left: Keys)
    requires Lists(order, keys) && AllStorable(keys)
    ensures ok ==> file == Some(Save(order, keys)) && left == map[]
    ensures !ok ==> file == previous && left == keys
    ensures ok ==> synced && closed && renamed
    ensures |flushes| > 7 * |order| + 3 && (forall j :: 0 <= j < |flushes| ==> TakesAll(flushes[j], |Save(order, keys)|)) &&
            synced && closed && renamed
            ==> ok
  {
    hide Save, TakesAll;
    var written, tmp := SaveRoom(order, keys, flushes);
    if !written || !synced || !closed || !renamed { return false, previous, keys; }
    return true, Some(tmp), map[];
  }

  // -------- the round trip --------

  lemma BlobRoundTrip(a: string, rest: string)
    requires |a| < U64_SIZE
    ensures ReadBlob(U64(|a|) + a + rest) == Blob(a, 8 + |a|)
    ensures (U64(|a|) + a + rest)[8 + |a|..] == rest
  {
    hide FromLe, U64;
    U64RoundTrip(|a|);
    var s := U64(|a|) + a + rest;
    assert s[..8] == U64(|a|) && s[8..8 + |a|] == a;
  }

  // What fits the format.
  predicate Fits(key: string, r: Record) {
    |key| < U64_SIZE && |r.value| < U64_SIZE && Storable(r)
  }

  function Restored(r: Record): Record {
    r.(version := Version(Normalize(r.version.ts), r.version.node))
  }

  lemma MetaRoundTrip(key: string, r: Record, before: nat, rest: string)
    requires Storable(r)
    ensures var t := I64(r.expireAt) + U64(r.version.ts) + U32(r.version.node) + rest;
            |t| >= 20 && ReadMeta(key, r.value, t, true, before) == Entry(key, Restored(r), before + 20)
  {
    hide FromLe, U64, U32, I64, Normalize;
    I64RoundTrip(r.expireAt);
    U64RoundTrip(r.version.ts);
    U32RoundTrip(r.version.node);
    var t := I64(r.expireAt) + U64(r.version.ts) + U32(r.version.node) + rest;
    assert t[..8] == I64(r.expireAt) && t[8..16] == U64(r.version.ts) && t[16..20] == U32(r.version.node);
  }

  lemma EntryLength(key: string, r: Record)
    requires Storable(r)
    ensures |EntryBytes(key, r)| == 36 + |key| + |r.value|
  {
  }

  lemma EntryRoundTrip(key: string, r: Record, rest: string)
    requires Fits(key, r)
    ensures ReadEntry(EntryBytes(key, r) + rest, true) == Entry(key, Restored(r), |EntryBytes(key, r)|)
  {
    hide ReadBlob, ReadMeta, U64, U32, I64, Restored;
    EntryLength(key, r);
    var meta := I64(r.expireAt) + U64(r.version.ts) + U32(r.version.node);
    var s := EntryBytes(key, r) + rest;
    var tail := U64(|r.value|) + r.value + (meta + rest);
    assert s == U64(|key|) + key + tail;
    BlobRoundTrip(key, tail);
    BlobRoundTrip(r.value, meta + rest);
    var n1, n2 := 8 + |key|, 8 + |r.value|;
    assert s[n1 + n2..] == tail[n2..];
    MetaRoundTrip(key, r, n1 + n2, rest);
  }

  // An entry once read does not depend on what follows.
  lemma BlobStable(s: string, more: string)
    requires ReadBlob(s).Blob?
    ensures ReadBlob(s + more) == ReadBlob(s)
  {
    hide FromLe;
    assert (s + more)[..8] == s[..8];
    var len := FromLe(s[..8]);
    assert (s + more)[8..8 + len] == s[8..8 + len];
  }

  lemma MetaStable(key: string, value: string, t: string, v2: bool, before: nat, more: string)
    requires ReadMeta(key, value, t, v2, before).Entry?
    ensures ReadMeta(key, value, t + more, v2, before) == ReadMeta(key, value, t, v2, before)
  {
    hide FromLe;
    var tm := t + more;
    assert tm[..8] == t[..8];
    if v2 { assert tm[8..16] == t[8..16] && tm[16..20] == t[16..20]; }
  }

  lemma EntryStable(s: string, more: string, v2: bool)
    requires ReadEntry(s, v2).Entry?
    ensures ReadEntry(s + more, v2) == ReadEntry(s, v2)
  {
    hide ReadBlob, ReadMeta;
    var k := ReadBlob(s);
    BlobStable(s, more);
    assert (s + more)[k.next..] == s[k.next..] + more;
    var v := ReadBlob(s[k.next..]);
    BlobStable(s[k.next..], more);
    var n := k.next + v.next;
    assert (s + more)[n..] == s[n..] + more;
    MetaStable(k.text, v.text, s[n..], v2, n, more);
  }

  lemma EntryCut(key: string, r: Record, cut: nat)
    requires Fits(key, r) && cut < |EntryBytes(key, r)|
    ensures ReadEntry(EntryBytes(key, r)[..cut], true) == Truncated
  {
    hide ReadEntry, EntryBytes;
    var whole := EntryBytes(key, r);
    if ReadEntry(whole[..cut], true).Entry? {
      assert whole[..cut] + whole[cut..] == whole == whole + [];
      EntryStable(whole[..cut], whole[cut..], true);
      EntryRoundTrip(key, r, []);
    }
  }

  ghost predicate AllFit(keys: Keys) {
    forall k :: k in keys ==> Fits(k, keys[k])
  }

  predicate Distinct(order: seq<string>) {
    forall i, j :: 0 <= i < j < |order| ==> order[i] != order[j]
  }

  // Adds the restored records of the listed keys to a map.
  function With(loaded: Keys, order: seq<string>, keys: Keys): Keys
    requires Lists(order, keys)
    decreases |order|
  {
    if order == [] then loaded else With(loaded[order[0] := Restored(keys[order[0]])], order[1..], keys)
  }

  lemma {:induction false} LoadSaved(order: seq<string>, keys: Keys, loaded: Keys, count: nat, cut: nat)
    requires AllFit(keys) && AllStorable(keys) && Lists(order, keys) && Distinct(order)
    requires forall i :: 0 <= i < |order| ==> order[i] !in loaded
    requires |loaded| + |order| == count && cut <= |EntriesBytes(order, keys)|
    ensures LoadEntries(EntriesBytes(order, keys)[..cut], count, loaded, true) ==
            if cut == |EntriesBytes(order, keys)| then Loaded(With(loaded, order, keys)) else Corrupt
  {
    hide ReadEntry, EntryBytes, Fits, Storable, Restored, LoadEntries;
    var all := EntriesBytes(order, keys);
    var s := all[..cut];
    LoadStep(s, count, loaded, true);
    if order != [] {
      var k, r := order[0], keys[order[0]];
      var e, rest := EntryBytes(k, r), EntriesBytes(order[1..], keys);
      assert Fits(k, r);
      if cut < |e| {
        assert s == e[..cut];
        EntryCut(k, r, cut);
      } else {
        assert s == e + rest[..cut - |e|];
        EntryRoundTrip(k, r, rest[..cut - |e|]);
        assert s[|e|..] == rest[..cut - |e|];
        LoadSaved(order[1..], keys, loaded[k := Restored(r)], count, cut - |e|);
      }
    }
  }

  lemma {:induction false} WithIs(loaded: Keys, order: seq<string>, keys: Keys, k: string)
    requires Lists(order, keys)
    ensures var w := With(loaded, order, keys);
            && (k in w <==> k in loaded || k in order)
            && (k in order ==> k in w && w[k] == Restored(keys[k]))
            && (k in loaded && k !in order ==> w[k] == loaded[k])
    decreases |order|
  {
    hide Restored;
    if order != [] {
      WithIs(loaded[order[0] := Restored(keys[order[0]])], order[1..], keys, k);
    }
  }

  // The keys of the room, each once, in whatever order the hash map gives them.
  ghost predicate Enumerates(order: seq<string>, keys: Keys) {
    Lists(order, keys) && Distinct(order) && |order| == |keys| && forall k :: k in keys ==> k in order
  }

  lemma {:induction false} EntriesAtLeast(order: seq<string>, keys: Keys)
    requires Lists(order, keys) && AllStorable(keys)
    ensures |EntriesBytes(order, keys)| >= |order|
  {
    hide EntryBytes;
    if order != [] {
      EntryLength(order[0], keys[order[0]]);
      EntriesAtLeast(order[1..], keys);
    }
  }

  lemma SavedHeader(order: seq<string>, keys: Keys, cut: nat)
    requires Enumerates(order, keys) && AllStorable(keys) && |keys| < U64_SIZE && cut <= |Save(order, keys)|
    ensures var s := Save(order, keys)[..cut];
            && (cut < 16 ==> Header(s).None?)
            && (cut >= 16 ==> IsV2(s) && s[16..] == EntriesBytes(order, keys)[..cut - 16] &&
                              Header(s) == if |keys| > cut then None else Some((|keys|, 16)))
  {
    hide FromLe, U64, U32, EntriesBytes;
    U32RoundTrip(VERSION);
    U64RoundTrip(|keys|);
    var whole := Save(order, keys);
    var s := whole[..cut];
    assert whole[..4] == MAGIC && whole[4..8] == U32(VERSION) && whole[8..16] == U64(|keys|);
    assert whole[16..] == EntriesBytes(order, keys);
    if cut >= 8 { assert s[..4] == whole[..4] && s[4..8] == whole[4..8]; }
    if cut >= 16 { assert s[8..16] == whole[8..16] && s[16..] == whole[16..][..cut - 16]; }
  }

  // Hibernating and waking restores every key, value and deadline, and every version up to the HLC format; a file cut
  // anywhere is rejected.
  lemma SnapshotRoundTrip(order: seq<string>, keys: Keys, cut: nat)
    requires Enumerates(order, keys) && AllFit(keys) && AllStorable(keys) && |keys| < U64_SIZE
    requires cut <= |Save(order, keys)|
    ensures Load(Save(order, keys)[..cut]) ==
            if cut == |Save(order, keys)| then Loaded(map k | k in keys :: Restored(keys[k])) else Corrupt
  {
    hide FromLe, U64, U32, EntriesBytes, LoadEntries, Header, Restored, Fits, AllStorable;
    SavedHeader(order, keys, cut);
    SaveLength(order, keys);
    EntriesAtLeast(order, keys);
    if cut >= 16 && |keys| <= cut {
      LoadSaved(order, keys, map[], |keys|, cut - 16);
      forall k
        ensures k in With(map[], order, keys) <==> k in keys
        ensures k in keys ==> With(map[], order, keys)[k] == Restored(keys[k])
      {
        WithIs(map[], order, keys, k);
      }
      assert With(map[], order, keys) == map k | k in keys :: Restored(keys[k]);
    }
  }

  lemma SaveLength(order: seq<string>, keys: Keys)
    requires Lists(order, keys) && AllStorable(keys)
    ensures |Save(order, keys)| == 16 + |EntriesBytes(order, keys)|
  {
    hide EntriesBytes;
  }

  // The records come back unchanged exactly when every version is a fixed point of normalisation.
  lemma RestoredIff(order: seq<string>, keys: Keys)
    requires Enumerates(order, keys) && AllFit(keys) && AllStorable(keys) && |keys| < U64_SIZE
    ensures Load(Save(order, keys)) == Loaded(keys) <==>
            forall k :: k in keys ==> keys[k].version.ts == 0 || keys[k].version.ts >= LEGACY_LIMIT
  {
    hide Load, Save, Fits, AllStorable;
    var whole := Save(order, keys);
    SnapshotRoundTrip(order, keys, |whole|);
    assert whole[..|whole|] == whole;
    var restored := map k | k in keys :: Restored(keys[k]);
    if forall k :: k in keys ==> keys[k].version.ts == 0 || keys[k].version.ts >= LEGACY_LIMIT {
      assert restored == keys;
    } else {
      var k :| k in keys && keys[k].version.ts != 0 && keys[k].version.ts < LEGACY_LIMIT;
      assert restored[k] != keys[k];
    }
  }
}
