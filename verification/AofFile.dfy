/** The append-only file and its durable prefix, while appends, syncs and rewrites interleave. */
module AofFile {
  import opened Wrappers
  import opened Resp
  import opened AofCodec
  import opened Recovery
  import opened Canonical
  import opened LogFiles
  import opened FileIo

  datatype SyncPolicy = Always | Everysec | Off

  // A sync that the worker started outside the lock: what it captured, and the file it runs on.
  datatype Sync = Sync(generation: nat, offset: nat, inode: nat, dup: bool)

  // What the operating system answers during one append.
  datatype AppendEnv = AppendEnv(canOpen: bool, writes: seq<Io>, canTruncate: bool, synced: bool)

  // And while a new file is opened, or a rewrite is committed; `sized` says that the file's size could be read.
  datatype OpenEnv = OpenEnv(opens: bool, sized: bool, writes: seq<Io>, canTruncate: bool, synced: bool)
  datatype CommitEnv = CommitEnv(sized: bool, synced: bool, closed: bool, renamed: bool, reopened: bool)

  // The file has the length of what it started with and the completed records, up to `end`; after a cut that failed, the
  // torn bytes of one more record follow, last. A file without its whole header holds exactly those bytes.
  ghost predicate Shape(lead: string, file: string, end: nat, torn: bool, completed: seq<AofRecord>) {
    && AllTyped(completed) && end == |lead| + |EncodeAll(completed)| <= |file| && lead <= file
    && Cutoff(file[end..]) && (!torn ==> |file| == end)
    && (lead == HEADER || (lead < HEADER && file[..end] == lead + EncodeAll(completed)))
  }

  // The temporary file is the dump so far; the file ends with the records appended since the fork, and the process's size
  // moved by their length.
  ghost predicate Tail(tmp: string, dumped: seq<AofRecord>, from: nat, size: nat, file: string, end: nat,
                       completed: seq<AofRecord>, forkAt: nat)
  {
    && AllTyped(dumped) && tmp == LogFile(dumped) && forkAt <= |completed|
    && var tail := EncodeAll(completed[forkAt..]);
       from + |tail| == size && |tail| <= end <= |file| && file[end - |tail|..end] == tail
  }

  // The number of blocks that a copy takes.
  function Blocks(len: nat, block: nat): nat
    requires block > 0
  {
    if len == 0 then 0 else if len <= block then 1 else 1 + Blocks(len - block, block)
  }

  // The synced prefix is known to the process, within the file, and durable; a sync under way captured an offset within
  // the file it runs on.
  ghost predicate SyncHolds(synced: nat, size: nat, end: nat, durable: nat, length: nat, inflight: Option<Sync>,
                            generation: nat, inode: nat)
  {
    && synced <= size <= end && synced <= durable <= length
    && (inflight.Some? ==>
          var s := inflight.value;
          && s.generation <= generation && s.inode <= inode
          && (s.generation == generation ==> s.inode == inode && s.offset <= size)
          && (s.inode == inode ==> s.offset <= end))
  }

  lemma SyncSize(synced: nat, size: nat, end: nat, durable: nat, length: nat, inflight: Option<Sync>, generation: nat,
                 inode: nat)
    requires SyncHolds(synced, size, end, durable, length, inflight, generation, inode)
    ensures size <= end
  {
  }

  lemma SyncReopened(synced: nat, size: nat, end: nat, durable: nat, length: nat, inflight: Option<Sync>, generation: nat,
                     inode: nat)
    requires SyncHolds(synced, size, end, durable, length, inflight, generation, inode)
    ensures SyncHolds(0, size, end, durable, length, inflight, generation + 1, inode)
  {
  }

  lemma SyncClosed(synced: nat, size: nat, end: nat, durable: nat, length: nat, inflight: Option<Sync>, generation: nat,
                   inode: nat, more: nat)
    requires SyncHolds(synced, size, end, durable, length, inflight, generation, inode)
    ensures SyncHolds(synced, size, end, durable, length, inflight, generation + 1, inode)
    ensures SyncHolds(synced, size, end, durable, length + more, inflight, generation + 1, inode)
  {
  }

  lemma SyncAppended(synced: nat, size: nat, end: nat, durable: nat, length: nat, inflight: Option<Sync>, generation: nat,
                     inode: nat, more: nat)
    requires SyncHolds(synced, size, end, durable, length, inflight, generation, inode) && end <= length
    ensures SyncHolds(synced, size + more, end + more, durable, length + more, inflight, generation, inode)
    ensures SyncHolds(size + more, size + more, end + more, length + more, length + more, inflight, generation, inode)
  {
  }

  lemma SyncSwapped(synced: nat, size: nat, end: nat, durable: nat, length: nat, inflight: Option<Sync>, generation: nat,
                    inode: nat, now: nat, whole: nat)
    requires SyncHolds(synced, size, end, durable, length, inflight, generation, inode) && now <= whole
    ensures SyncHolds(now, now, whole, whole, whole, inflight, generation + 1, inode + 1)
    ensures SyncHolds(0, now, whole, whole, whole, inflight, generation + 1, inode + 1)
  {
  }

  class AofManager {
    // the process's own view, under its mutex
    const policy: SyncPolicy
    var open: bool
    var size: nat
    var synced: nat
    var generation: nat
    var torn: bool
    var healthy: bool
    var inflight: Option<Sync>
    var rewriteFrom: nat

    // the disk: the current file, how much of it is durable, and the temporary file of a rewrite
    var file: string
    var inode: nat
    var durable: nat
    var tmp: Option<string>

    // history: what the file started with, where its complete records end, the records whose write completed, the dump in
    // the temporary file, and the fork's place in the history
    ghost var lead: string
    ghost var end: nat
    ghost var completed: seq<AofRecord>
    ghost var dumped: seq<AofRecord>
    ghost var forkAt: nat

    // Kept by every step, whatever fails.
    ghost predicate Valid()
      reads this
    {
      && Shape(lead, file, end, torn, completed)
      && (tmp.Some? ==> Tail(tmp.value, dumped, rewriteFrom, size, file, end, completed, forkAt))
      && SyncHolds(synced, size, end, durable, |file|, inflight, generation, inode)
    }

    // The process knows how long the file is.
    ghost predicate Sized()
      reads this
    {
      size == end
    }

    // The file holds the completed records.
    ghost predicate Whole()
      reads this
    {
      end <= |file| && file[..end] == lead + EncodeAll(completed)
    }

    // A new file: its header is written and synced, unless the size cannot be read. A partial header is cut off again if
    // possible. After a failed write or sync the file is left closed, and the process goes on.
    constructor (policy: SyncPolicy, env: OpenEnv)
      ensures Valid() && Whole() && completed == [] && this.policy == policy && !torn && tmp.None? && inflight.None?
      ensures var n := if env.opens && env.sized then Delivered(|HEADER|, env.writes) else 0;
              lead == if n < |HEADER| && env.canTruncate then "" else HEADER[..n]
      ensures lead == HEADER || lead == "" ==> Sized()
      ensures open <==> env.opens && (env.sized ==> lead == HEADER && env.synced)
      ensures healthy == open
      ensures open && env.sized ==> synced == size == |HEADER|
    {
      var complete, written := WriteAll(HEADER, env.writes);
      var done := env.opens && env.sized && complete;
      var left := if done then HEADER
                  else if env.opens && env.sized && !env.canTruncate then HEADER[..written] else "";
      this.policy := policy;
      open := if env.opens && !env.sized then true else done && env.synced;
      healthy, torn := open, false;
      generation := if env.opens then 1 else 0;
      file, size := left, if done then |HEADER| else 0;
      synced, durable := if done && env.synced then |HEADER| else 0, if done && env.synced then |HEADER| else 0;
      inflight, rewriteFrom, tmp, inode := None, 0, None, 0;
      lead, end, completed, dumped, forkAt := left, |left|, [], [], 0;
      new;
      hide Shape, Delivered, EncodeAll;
      assert HEADER[..|HEADER|] == HEADER && HEADER[..0] == "";
      NewFile(left);
      NoRecord();
      assert left[..|left|] == left + [];
    }

    // The write of the record reaches the file in full.
    predicate Completes(rec: AofRecord, env: AppendEnv)
      reads this
    {
      && !torn && (open || env.canOpen)
      && Delivered(|EncodeRecord(rec)|, env.writes) == |EncodeRecord(rec)|
    }

    // Appends one record. A partial write is cut off again; if even that fails, appends stay blocked.
    method Append(rec: AofRecord, env: AppendEnv) returns (ok: bool)
      requires Valid() && Typed(rec)
      modifies this
      ensures Valid() && (Whole() <==> old(Whole())) && (Sized() <==> old(Sized()))
      ensures inode == old(inode) && tmp == old(tmp) && inflight == old(inflight) && lead == old(lead)
      ensures dumped == old(dumped) && forkAt == old(forkAt) && rewriteFrom == old(rewriteFrom)
      ensures completed == if old(Completes(rec, env)) then old(completed) + [rec] else old(completed)
      ensures old(Completes(rec, env)) ==> file == old(file) + EncodeRecord(rec) && size == old(size) + |EncodeRecord(rec)|
      ensures ok <==> old(Completes(rec, env)) && (policy.Always? ==> env.synced)
      ensures ok && policy.Always? ==> synced == size && size <= durable
      ensures ok ==> open
      // a failure shows until the log is opened again
      ensures !ok && !old(torn) ==> !healthy
      ensures ok ==> healthy == (old(healthy) || !old(open))
      ensures old(torn) ==> torn && file == old(file) && size == old(size) && synced == old(synced) && open == old(open) &&
                            healthy == old(healthy)
      ensures !old(torn) && torn ==> |file| > end && !env.canTruncate
      ensures !torn && !old(Completes(rec, env)) ==> file == old(file)
    {
      hide Shape, Tail, Typed, EncodeRecord, Delivered, SyncHolds, EncodeAll;
      if torn { return false; }
      var data := EncodeRecord(rec);
      if !open {
        if !env.canOpen {
          healthy := false;
          return false;
        }
        Reopen();
      }
      var complete, written := WriteAll(data, env.writes);
      if complete {
        ok := Written(rec, data, env.synced);
      } else {
        CutShort(rec, data, written, env.canTruncate);
        ok := false;
      }
    }

    method Reopen()
      requires Valid()
      modifies this`open, this`generation, this`synced, this`healthy
      ensures Valid() && open && healthy
    {
      hide Shape, Tail, SyncHolds;
      SyncReopened(synced, size, end, durable, |file|, inflight, generation, inode);
      open, generation, synced, healthy := true, generation + 1, 0, true;
    }

    // The whole record is in the file; under the policy `always` the answer waits for the sync.
    method Written(rec: AofRecord, data: string, flushed: bool) returns (ok: bool)
      requires Valid() && Typed(rec) && data == EncodeRecord(rec) && !torn
      modifies this`file, this`size, this`end, this`completed, this`healthy, this`synced, this`durable
      ensures Valid() && (Whole() <==> old(Whole())) && (Sized() <==> old(Sized()))
      ensures completed == old(completed) + [rec] && file == old(file) + data && size == old(size) + |data|
      ensures ok <==> (policy.Always? ==> flushed)
      ensures healthy == (old(healthy) && ok)
      ensures ok && policy.Always? ==> synced == size && size <= durable
    {
      hide Shape, Tail, Typed, EncodeRecord, SyncHolds, EncodeAll;
      Bounds(lead, file, end, torn, completed);
      Appended(lead, file, end, completed, rec);
      if tmp.Some? { TailMore(tmp.value, dumped, rewriteFrom, size, file, end, completed, forkAt, rec); }
      SyncAppended(synced, size, end, durable, |file|, inflight, generation, inode, |data|);
      Extend(rec, data);
      ok := true;
      if policy.Always? {
        if flushed { synced, durable := size, |file|; } else { healthy, ok := false, false; }
      }
    }

    method Extend(rec: AofRecord, data: string)
      modifies this`file, this`size, this`end, this`completed
      ensures file == old(file) + data && size == old(size) + |data| && end == old(end) + |data|
      ensures completed == old(completed) + [rec]
    {
      file, size, end, completed := file + data, size + |data|, end + |data|, completed + [rec];
    }

    // Only part of the record is in the file: it is cut off, and the file is closed.
    method CutShort(rec: AofRecord, data: string, written: nat, canTruncate: bool)
      requires Valid() && Typed(rec) && data == EncodeRecord(rec) && written < |data| && !torn
      modifies this`file, this`torn, this`healthy, this`open, this`generation
      ensures Valid() && (Whole() <==> old(Whole()))
      ensures !open && !healthy && file == old(file) + if torn then data[..written] else []
      ensures torn <==> written > 0 && !canTruncate
      ensures torn ==> |file| > end
    {
      hide Shape, Tail, Typed, EncodeRecord, SyncHolds, EncodeAll;
      Bounds(lead, file, end, torn, completed);
      SyncClosed(synced, size, end, durable, |file|, inflight, generation, inode, written);
      ghost var before := file;
      file := file + data[..written];
      healthy := false;
      if written > 0 && !canTruncate {
        torn := true;
        TornAfter(lead, before, end, completed, rec, written);
        if tmp.Some? { TailTorn(tmp.value, dumped, rewriteFrom, size, before, end, completed, forkAt, data[..written]); }
        assert file[..end] == before[..end];
      } else {
        file := file[..|file| - written];
        assert file == before;
      }
      open, generation := false, generation + 1;
    }

    // The worker, under the lock: it captures the generation, the size and the file, then lets go.
    method StartSync(dup: bool)
      requires Valid() && open && synced < size && inflight.None?
      modifies this`inflight
      ensures Valid() && inflight == Some(Sync(generation, size, inode, dup))
    {
      hide Shape, Tail;
      inflight := Some(Sync(generation, size, inode, dup));
    }

    // The sync completes: whatever was captured is durable in the file it ran on, but only a completion of the
    // current generation moves the durable prefix.
    method FinishSync(flushed: bool)
      requires Valid() && inflight.Some?
      modifies this`inflight, this`synced, this`durable, this`healthy
      ensures Valid() && inflight.None?
      ensures old(inflight).value.generation != generation ==> synced == old(synced) && healthy == old(healthy)
      ensures old(inflight).value.generation == generation && old(inflight).value.dup && flushed ==>
                synced == if old(inflight).value.offset > old(synced) then old(inflight).value.offset else old(synced)
      ensures !(old(inflight).value.dup && flushed) ==> synced == old(synced) && durable == old(durable)
      ensures old(inflight).value.generation == generation && old(inflight).value.dup ==> healthy == (old(healthy) && flushed)
      ensures old(durable) <= durable && old(synced) <= synced
    {
      hide Shape, Tail;
      Bounds(lead, file, end, torn, completed);
      var s := inflight.value;
      inflight := None;
      var ok := s.dup && flushed;
      if ok && s.inode == inode && durable < s.offset { durable := s.offset; }
      if s.dup && s.generation == generation {
        if !ok {
          healthy := false;
        } else if s.offset > synced {
          synced := s.offset;
        }
      }
    }

    // The kernel writes pages back whenever it likes.
    method WriteBack(upto: nat)
      requires Valid() && durable <= upto <= |file|
      modifies this`durable
      ensures Valid() && durable == upto
    {
      hide Shape, Tail;
      durable := upto;
    }

    method StartRewrite()
      requires Valid() && tmp.None?
      modifies this`tmp, this`rewriteFrom, this`dumped, this`forkAt
      ensures Valid() && tmp == Some(HEADER) && dumped == [] && forkAt == |completed| && rewriteFrom == size
    {
      hide Shape, SyncHolds, EncodeAll;
      tmp, rewriteFrom, dumped, forkAt := Some(HEADER), size, [], |completed|;
      Bounds(lead, file, end, torn, completed);
      NoRecord();
      assert HEADER + [] == HEADER && completed[forkAt..] == [] && file[end..end] == [];
    }

    // The child of the fork writes one record of its dump.
    method DumpRecord(rec: AofRecord)
      requires Valid() && tmp.Some? && Typed(rec)
      modifies this`tmp, this`dumped
      ensures Valid() && tmp.Some? && dumped == old(dumped) + [rec]
    {
      hide Shape, EncodeRecord, SyncHolds, Typed, EncodeAll;
      EncodeAllMore(dumped, rec);
      Regroup(HEADER, EncodeAll(dumped), EncodeRecord(rec));
      tmp, dumped := Some(tmp.value + EncodeRecord(rec)), dumped + [rec];
    }

    method AbortRewrite()
      requires Valid()
      modifies this`tmp
      ensures Valid() && tmp.None?
    {
      tmp := None;
    }

    // Copies the bytes from the fork's offset to the size, block by block, onto the dump.
    method CopyTail(block: nat, copied: nat) returns (ok: bool, out: string)
      requires Valid() && tmp.Some? && block > 0
      ensures rewriteFrom <= size <= |file|
      ensures ok <==> copied >= Blocks(size - rewriteFrom, block)
      ensures ok ==> out == tmp.value + file[rewriteFrom..size]
    {
      hide Shape, Blocks;
      TailBounds(tmp.value, dumped, rewriteFrom, size, file, end, completed, forkAt);
      hide Tail;
      SyncSize(synced, size, end, durable, |file|, inflight, generation, inode);
      ok, out := CopyBlocks(tmp.value, file, rewriteFrom, size, block, copied);
    }

    // Splices the tail onto the dump and swaps the files; a failure before the rename keeps the old file. The new file
    // holds the dump and the later records if and only if the bytes copied are those records: always when the process
    // knows how long the file is, or nothing was appended since the fork.
    method CommitRewrite(block: nat, copied: nat, env: CommitEnv) returns (ok: bool)
      requires Valid() && tmp.Some? && block > 0
      modifies this
      ensures Valid() && tmp.None? && old(rewriteFrom) <= old(size) <= |old(file)| && old(forkAt) <= |old(completed)|
      ensures inode == old(inode) + if copied >= Blocks(old(size) - old(rewriteFrom), block) && env.synced && env.closed &&
                                       env.renamed then 1 else 0
      ensures ok <==> inode != old(inode) && env.reopened
      ensures ok ==> open && synced == size && generation > old(generation)
      ensures healthy == (if inode != old(inode) then ok
                          else old(healthy) && !(copied >= Blocks(old(size) - old(rewriteFrom), block) && env.synced))
      ensures inode == old(inode) ==>
                file == old(file) && completed == old(completed) && torn == old(torn) && synced == old(synced) &&
                size == old(size) && generation == old(generation) && lead == old(lead) && end == old(end)
      ensures inode != old(inode) ==>
                && file == old(tmp).value + old(file)[old(rewriteFrom)..old(size)] && !torn && lead == HEADER
                && completed == old(dumped) + old(completed)[old(forkAt)..] && (Sized() <==> env.sized)
                && size == (if env.sized then |file| else 0)
                && (Whole() <==> old(file)[old(rewriteFrom)..old(size)] == EncodeAll(old(completed)[old(forkAt)..]))
                && (old(Sized()) || old(forkAt == |completed|) ==> Whole())
    {
      hide Shape, Tail, SyncHolds, EncodeAll, Blocks;
      var copiedAll, out := CopyTail(block, copied);
      TailBounds(tmp.value, dumped, rewriteFrom, size, file, end, completed, forkAt);
      if !copiedAll || !env.synced || !env.closed || !env.renamed {
        if copiedAll && env.synced { healthy := false; }
        tmp := None;
        return false;
      }
      SyncSize(synced, size, end, durable, |file|, inflight, generation, inode);
      Spliced(lead, tmp.value, dumped, rewriteFrom, size, file, end, torn, completed, forkAt);
      ok := Swap(out, env.sized, env.reopened);
    }

    // The rename happened: the spliced and synced file is the log now.
    method Swap(out: string, sized: bool, reopened: bool) returns (ok: bool)
      requires Valid() && tmp.Some? && forkAt <= |completed|
      requires Shape(HEADER, out, |out|, false, dumped + completed[forkAt..]) && out != []
      modifies this
      ensures Valid() && tmp.None? && !torn && lead == HEADER && inode == old(inode) + 1
      ensures generation == old(generation) + 1 && file == out && end == |out|
      ensures completed == old(dumped) + old(completed)[old(forkAt)..] && size == (if sized then |out| else 0)
      ensures ok == reopened == open == healthy && (ok ==> synced == size)
    {
      hide Shape, Tail, SyncHolds;
      ghost var known := if sized then |out| else 0;
      SyncSwapped(synced, size, end, durable, |file|, inflight, generation, inode, known, |out|);
      Replace(out);
      View(if sized then |out| else 0, reopened);
      ok := healthy;
    }

    method Replace(out: string)
      requires forkAt <= |completed|
      modifies this`completed, this`tmp, this`file, this`inode, this`lead, this`end, this`durable
      ensures completed == dumped + old(completed)[forkAt..] && tmp.None? && file == out && inode == old(inode) + 1
      ensures lead == HEADER && end == durable == |out|
    {
      completed := dumped + completed[forkAt..];
      tmp, file, inode, lead := None, out, inode + 1, HEADER;
      end, durable := |out|, |out|;
    }

    method View(known: nat, reopened: bool)
      modifies this`open, this`generation, this`healthy, this`torn, this`size, this`synced
      ensures open == healthy == reopened && generation == old(generation) + 1 && !torn && size == known
      ensures synced == if reopened then known else 0
    {
      open, generation, healthy, torn := reopened, generation + 1, reopened, false;
      size, synced := known, if reopened then known else 0;
    }

    // A process started on this file replays exactly the completed records, in order, does not set the file aside, and
    // with a header cuts exactly after them.
    ghost predicate Recovers()
      reads this
    {
      var r := Recover(file, 0, Undetected);
      && r.recs == completed && r.fate != Corrupt
      && (lead == HEADER ==> r.fate == if |file| == end then Intact else Cut(end))
    }

    // Whatever partial writes, failed cuts, reopenings and rewrites happened so far, it does so if and only if the file
    // got its header, holds the completed records, all of them within the parser's limits, and the torn bytes ask for
    // more; or got no whole header, holds no complete record, and what it holds asks for more.
    lemma RecoversCompletedIff()
      requires Valid()
      ensures Recovers() <==> if lead == HEADER then Whole() && AllEncodable(completed) && Asks(file[end..])
                              else completed == [] && Asks(file)
    {
      hide Recover, Tail, SyncHolds, EncodeAll, AllEncodable, Asks, Cutoff, AllTyped;
      var rest := file[end..];
      if lead == HEADER {
        var body := file[|HEADER|..end];
        ThreeParts(file, |HEADER|, end);
        SameBody(file[..end], body, EncodeAll(completed));
        HeadedIff(body, completed, rest);
      } else {
        Regroup(lead, EncodeAll(completed), rest);
        assert file == file[..end] + rest;
        HeadlessIff(lead, completed, rest);
      }
    }

    // After a power failure that keeps the durable bytes and any part of the others, the process replays a prefix of
    // the completed records, and no record that was synced is missing from it.
    lemma SurvivesPowerLoss(kept: nat) returns (j: nat)
      requires Valid() && lead == HEADER && Whole() && AllEncodable(completed) && durable <= kept <= |file|
      ensures j <= |completed|
      ensures Recover(file[..kept], 0, Undetected).recs == completed[..j]
      ensures synced == end ==> j == |completed|
      ensures forall i :: j < i <= |completed| ==> |LogFile(completed[..i])| > synced
    {
      hide Recover, Encodable, EncodeAll, Tail, AllTyped;
      if kept >= end {
        j := |completed|;
        assert completed[..j] == completed;
        assert file[..kept] == LogFile(completed) + file[end..][..kept - end];
        CutoffPrefix(file[end..], kept - end);
        CutAfter(completed, file[end..][..kept - end]);
      } else {
        assert file[..kept] == file[..end][..kept];
        if kept < |HEADER| {
          j := 0;
          assert file[..kept] == HEADER[..kept];
          HeaderCut(kept);
        } else {
          j := RecoverCut(completed, kept);
          forall i | j < i <= |completed|
            ensures |LogFile(completed[..i])| > synced
          {
            PrefixSizes(completed, j + 1, i);
          }
        }
      }
    }
  }

  // The copying loop.
  method CopyBlocks(before: string, file: string, from: nat, to: nat, block: nat, copied: nat) returns (ok: bool, out: string)
    requires from <= to <= |file| && block > 0
    ensures ok <==> copied >= Blocks(to - from, block)
    ensures ok ==> out == before + file[from..to]
  {
    hide Blocks;
    out := before;
    var off: nat, done: nat := from, 0;
    assert file[from..from] == [] && before + [] == before;
    while off < to
      invariant from <= off <= to && done <= copied
      invariant Blocks(to - from, block) == done + Blocks(to - off, block)
      invariant out == before + file[from..off]
    {
      BlocksStep(to - off, block);
      if done == copied { return false, out; }
      var n := if block < to - off then block else to - off;
      JoinSlices(before, file, from, off, n);
      out := out + file[off..off + n];
      off, done := off + n, done + 1;
    }
    BlocksStep(0, block);
    ok := true;
  }

  // -------- the failing input --------

  // A rewrite is committed whose size cannot be read; another is begun, a record is appended and acknowledged, and the
  // commit succeeds: the start of the file was copied in place of the record, and recovery returns nothing.
  method FailedSizeLoses(rec: AofRecord) returns (appended: bool, committed: bool, file: string)
    requires Encodable(rec)
    ensures appended && committed
    ensures file == HEADER + (HEADER + EncodeRecord(rec))[..|EncodeRecord(rec)|]
    ensures Recover(file, 0, Undetected) == Recovered([], Corrupt)
  {
    hide EncodeRecord, EncodeAll, Shape, Tail, SyncHolds, Encodable, Recover, Delivered, Blocks;
    var data := EncodeRecord(rec);
    RecordLength(rec);
    OneCall(|data|);
    OneBlock(|data|, |data|);
    var a := SizeUnknown(|data|);
    a.StartRewrite();
    EncodableTyped(rec);
    appended := a.Append(rec, AppendEnv(true, [Wrote(|data|)], true, true));
    committed := a.CommitRewrite(|data|, 1, CommitEnv(true, true, true, true, true));
    file := a.file;
    assert file == HEADER + (HEADER + data)[0..|data|];
    HeaderTwice((HEADER + data)[|HEADER|..|data|]);
    assert (HEADER + data)[..|data|] == HEADER + (HEADER + data)[|HEADER|..|data|];
  }

  // A log rewritten while it was empty, by a commit that could not read the new size.
  method SizeUnknown(block: nat) returns (a: AofManager)
    requires block > 0
    ensures fresh(a) && a.Valid() && a.policy.Everysec? && a.open && !a.torn && a.tmp.None?
    ensures a.file == HEADER && a.size == 0
  {
    hide EncodeAll, Shape, Tail, SyncHolds, Delivered, Blocks;
    OneCall(|HEADER|);
    OneBlock(0, block);
    a := new AofManager(Everysec, OpenEnv(true, true, [Wrote(|HEADER|)], true, true));
    assert HEADER[..|HEADER|] == HEADER;
    a.StartRewrite();
    var committed := a.CommitRewrite(block, 0, CommitEnv(false, true, true, true, true));
    assert a.file == HEADER + [] == HEADER;
  }

  lemma EncodableTyped(rec: AofRecord)
    requires Encodable(rec)
    ensures Typed(rec)
  {
  }

  lemma OneCall(n: nat)
    requires n > 0
    ensures Delivered(n, [Wrote(n)]) == n
  {
  }

  lemma OneBlock(len: nat, block: nat)
    requires len <= block && block > 0
    ensures Blocks(len, block) == if len == 0 then 0 else 1
  {
  }

  // A header where a record should be is rejected.
  lemma HeaderTwice(rest: string)
    ensures Recover(HEADER + (HEADER + rest), 0, Undetected) == Recovered([], Corrupt)
  {
    hide ParseArray;
    RecoverHeader(HEADER + rest);
    HeaderParses(rest);
  }

  // -------- lemmas --------

  lemma JoinSlices(before: string, s: string, a: nat, b: nat, n: nat)
    requires a <= b && b + n <= |s|
    ensures before + s[a..b] + s[b..b + n] == before + s[a..b + n]
  {
    assert s[a..b] + s[b..b + n] == s[a..b + n];
  }

  lemma ThreeParts(s: string, a: nat, b: nat)
    requires a <= b <= |s|
    ensures s == s[..a] + (s[a..b] + s[b..]) && s[..b] == s[..a] + s[a..b]
  {
  }

  lemma SameBody(whole: string, body: string, other: string)
    requires whole == HEADER + body
    ensures whole == HEADER + other <==> body == other
  {
    if whole == HEADER + other { assert body == whole[|HEADER|..] == other; }
  }

  lemma BlocksStep(len: nat, block: nat)
    requires block > 0
    ensures Blocks(len, block) == if len == 0 then 0 else 1 + Blocks(len - (if block < len then block else len), block)
  {
  }

  lemma NewFile(left: string)
    requires left <= HEADER
    ensures Shape(left, left, |left|, false, [])
  {
    NoRecord();
    assert left[|left|..] == [] && left[..|left|] == left + [];
  }

  lemma Bounds(lead: string, file: string, end: nat, torn: bool, completed: seq<AofRecord>)
    requires Shape(lead, file, end, torn, completed)
    ensures end <= |file| && (!torn ==> |file| == end)
  {
  }

  lemma TailBounds(tmp: string, dumped: seq<AofRecord>, from: nat, size: nat, file: string, end: nat,
                   completed: seq<AofRecord>, forkAt: nat)
    requires Tail(tmp, dumped, from, size, file, end, completed, forkAt)
    ensures from <= size && forkAt <= |completed| && end <= |file|
  {
  }

  lemma EncodeAllMore(recs: seq<AofRecord>, rec: AofRecord)
    ensures EncodeAll(recs + [rec]) == EncodeAll(recs) + EncodeRecord(rec)
  {
    hide EncodeRecord;
    assert (recs + [rec])[..|recs|] == recs;
  }

  lemma TypedMore(recs: seq<AofRecord>, rec: AofRecord)
    requires AllTyped(recs) && Typed(rec)
    ensures AllTyped(recs + [rec])
  {
    hide Typed;
  }

  lemma Appended(lead: string, file: string, end: nat, completed: seq<AofRecord>, rec: AofRecord)
    requires Shape(lead, file, end, false, completed) && Typed(rec)
    ensures var data := EncodeRecord(rec);
            && Shape(lead, file + data, end + |data|, false, completed + [rec])
            && ((file + data)[..end + |data|] == lead + EncodeAll(completed + [rec]) <==>
                file[..end] == lead + EncodeAll(completed))
  {
    hide EncodeRecord, Typed, EncodeAll, AllTyped;
    var data := EncodeRecord(rec);
    EncodeAllMore(completed, rec);
    TypedMore(completed, rec);
    var all := file + data;
    assert all[..end + |data|] == all && all[end + |data|..] == [] && file[..end] == file;
    assert lead + (EncodeAll(completed) + data) == (lead + EncodeAll(completed)) + data;
    if all == (lead + EncodeAll(completed)) + data { assert file == all[..|file|] == lead + EncodeAll(completed); }
  }

  lemma TornAfter(lead: string, file: string, end: nat, completed: seq<AofRecord>, rec: AofRecord, written: nat)
    requires Shape(lead, file, end, false, completed) && Typed(rec) && written < |EncodeRecord(rec)|
    ensures Shape(lead, file + EncodeRecord(rec)[..written], end, true, completed)
  {
    hide EncodeRecord, Typed, EncodeAll, AllTyped;
    var torn := EncodeRecord(rec)[..written];
    assert (file + torn)[..end] == file[..end] && (file + torn)[end..] == torn && TornOf(torn, rec);
  }

  lemma TailMore(tmp: string, dumped: seq<AofRecord>, from: nat, size: nat, file: string, end: nat,
                 completed: seq<AofRecord>, forkAt: nat, rec: AofRecord)
    requires Tail(tmp, dumped, from, size, file, end, completed, forkAt) && |file| == end
    ensures var data := EncodeRecord(rec);
            Tail(tmp, dumped, from, size + |data|, file + data, end + |data|, completed + [rec], forkAt)
  {
    hide EncodeRecord, EncodeAll, AllTyped, LogFile;
    var data, later := EncodeRecord(rec), completed[forkAt..];
    assert (completed + [rec])[forkAt..] == later + [rec];
    EncodeAllMore(later, rec);
    var t := EncodeAll(later);
    assert (file + data)[end - |t|..] == file[end - |t|..] + data;
  }

  lemma TailTorn(tmp: string, dumped: seq<AofRecord>, from: nat, size: nat, file: string, end: nat,
                 completed: seq<AofRecord>, forkAt: nat, torn: string)
    requires Tail(tmp, dumped, from, size, file, end, completed, forkAt)
    ensures Tail(tmp, dumped, from, size, file + torn, end, completed, forkAt)
  {
    hide EncodeAll, AllTyped, LogFile;
    var t := EncodeAll(completed[forkAt..]);
    assert (file + torn)[end - |t|..end] == file[end - |t|..end];
  }

  // The spliced file has the shape of a log of the dump and the later records, whatever bytes were copied; it is that log
  // exactly when those bytes are the later records.
  lemma Spliced(lead: string, tmp: string, dumped: seq<AofRecord>, from: nat, size: nat, file: string, end: nat, torn: bool,
                completed: seq<AofRecord>, forkAt: nat)
    requires Shape(lead, file, end, torn, completed)
    requires Tail(tmp, dumped, from, size, file, end, completed, forkAt) && size <= end
    ensures from <= size <= |file| && forkAt <= |completed|
    ensures var out, all := tmp + file[from..size], dumped + completed[forkAt..];
            && Shape(HEADER, out, |out|, false, all) && out != []
            && (out[..|out|] == HEADER + EncodeAll(all) <==> file[from..size] == EncodeAll(completed[forkAt..]))
    ensures size == end || forkAt == |completed| ==> file[from..size] == EncodeAll(completed[forkAt..])
  {
    hide EncodeAll, Typed;
    var later := completed[forkAt..];
    var t, copied := EncodeAll(later), file[from..size];
    EncodeAllConcat(dumped, later);
    Regroup(HEADER, EncodeAll(dumped), t);
    Regroup(HEADER, EncodeAll(dumped), copied);
    var out, all := tmp + copied, dumped + later;
    assert out[..|out|] == out && out[|out|..] == [];
    assert AllTyped(all) by { TypedTail(dumped, completed, forkAt); }
    if out == tmp + t { assert copied == out[|tmp|..] == t; }
    if forkAt == |completed| {
      assert later == [];
      NoRecord();
    }
  }

  lemma TypedTail(a: seq<AofRecord>, b: seq<AofRecord>, i: nat)
    requires AllTyped(a) && AllTyped(b) && i <= |b|
    ensures AllTyped(a + b[i..])
  {
    hide Typed;
  }

  lemma CutoffPrefix(torn: string, n: nat)
    requires Cutoff(torn) && n <= |torn|
    ensures Cutoff(torn[..n])
  {
    hide Typed, EncodeRecord;
    if torn != [] {
      var x :| Typed(x) && TornOf(torn, x);
      assert TornOf(torn[..n], x);
    }
  }

  lemma CutAfter(completed: seq<AofRecord>, torn: string)
    requires AllEncodable(completed) && Cutoff(torn)
    ensures Recover(LogFile(completed) + torn, 0, Undetected).recs == completed
  {
    hide Recover, EncodeAll, Encodable, Cutoff;
    Regroup(HEADER, EncodeAll(completed), torn);
    RecoverHeader(EncodeAll(completed) + torn);
    RecoverMany(completed, torn, |HEADER|);
    NothingMore(torn, |HEADER| + |EncodeAll(completed)|);
    assert completed + [] == completed;
  }

  lemma NothingMore(torn: string, at: nat)
    requires Cutoff(torn)
    ensures Recover(torn, at, V3).recs == []
  {
    hide ParseArray, Cutoff;
    if torn != [] { CutoffShape(torn); } else { EmptyNeedsMore(); }
  }

  lemma HeaderCut(kept: nat)
    requires kept < |HEADER|
    ensures Recover(HEADER[..kept], 0, Undetected).recs == []
  {
    hide ParseArray;
    HeaderParses([]);
    assert HEADER + [] == HEADER;
    CutNeedsMore(HEADER, kept);
  }

  lemma PrefixSize(recs: seq<AofRecord>, i: nat)
    requires i <= |recs|
    ensures |LogFile(recs[..i])| <= |LogFile(recs)|
    ensures LogFile(recs)[|LogFile(recs[..i])|..] == EncodeAll(recs[i..])
  {
    hide EncodeAll;
    EncodeAllConcat(recs[..i], recs[i..]);
    assert recs[..i] + recs[i..] == recs;
  }

  lemma PrefixSizes(recs: seq<AofRecord>, i: nat, j: nat)
    requires i <= j <= |recs|
    ensures |LogFile(recs[..i])| <= |LogFile(recs[..j])|
  {
    PrefixSize(recs[..j], i);
    assert recs[..j][..i] == recs[..i];
  }

  // A log cut anywhere after its header replays a prefix of its records.
  lemma RecoverCut(recs: seq<AofRecord>, kept: nat) returns (j: nat)
    requires AllEncodable(recs) && |HEADER| <= kept <= |LogFile(recs)|
    ensures j <= |recs| && Recover(LogFile(recs)[..kept], 0, Undetected).recs == recs[..j]
    ensures j < |recs| ==> kept < |LogFile(recs[..j + 1])|
    ensures kept == |LogFile(recs)| ==> j == |recs|
  {
    hide Recover, Encodable, EncodeRecord;
    var cut := kept - |HEADER|;
    j := CutPoint(recs, cut);
    var p := EncodeAll(recs[..j]);
    var torn := EncodeAll(recs)[|p|..cut];
    assert LogFile(recs)[..kept] == LogFile(recs[..j]) + torn;
    RecoverExact(recs[..j], torn);
    if j < |recs| {
      PrefixSizes(recs, j + 1, |recs|);
      assert recs[..|recs|] == recs;
    }
  }
}
