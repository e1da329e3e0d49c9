/** Reading the log back: chunk by chunk, as if the whole file were parsed at once. */
module Recovery {
  import opened Wrappers
  import opened Decimal
  import opened Resp
  import opened AofCodec

  // How the file is left: untouched, truncated at an offset, or set aside as corrupt.
  datatype Fate = Intact | Cut(at: nat) | Corrupt

  datatype Recovered = Recovered(recs: seq<AofRecord>, fate: Fate) {
    function After(before: seq<AofRecord>): Recovered {
      Recovered(before + recs, fate)
    }
  }

  // What the tokens of one complete array mean in a given state of format detection.
  datatype Reading = Skip(fmt: Fmt) | Replay(fmt: Fmt, rec: AofRecord) | Reject

  function Read(fmt: Fmt, tokens: seq<string>): Reading {
    if fmt == Undetected && |tokens| == 2 && tokens[0] == MAGIC then
      if ParseU64(tokens[1]) == Some(VERSION) then Skip(V3) else Reject
    else
      var f := if fmt != Undetected then fmt
               else if |tokens| >= 2 && IsWriteCmd(tokens[1]) then V2 else V1;
      match BuildRecord(f, tokens)
      case None => Reject
      case Some(rec) => Replay(f, rec)
  }

  // One-shot recovery of the bytes s that start at offset `at` of the file.
  function Recover(s: string, at: nat, fmt: Fmt): Recovered
    decreases |s|
  {
    match ParseArray(s)
    case NeedMore => Recovered([], if s == [] then Intact else Cut(at))
    case Malformed => Recovered([], Corrupt)
    case Complete(end, tokens) =>
      match Read(fmt, tokens)
      case Reject => Recovered([], Corrupt)
      case Skip(f) => Recover(s[end..], at + end, f)
      case Replay(f, rec) => Recover(s[end..], at + end, f).After([rec])
  }

  function Flatten(chunks: seq<string>): string {
    if chunks == [] then [] else chunks[0] + Flatten(chunks[1..])
  }

  // What is left to recover, after what was replayed, is the whole recovery.
  ghost predicate Resumes(rest: string, at: nat, fmt: Fmt, recs: seq<AofRecord>, whole: Recovered) {
    Recover(rest, at, fmt).After(recs) == whole
  }

  lemma AfterAfter(r: Recovered, a: seq<AofRecord>, b: seq<AofRecord>)
    ensures r.After(b).After(a) == r.After(a + b)
  {
    assert a + (b + r.recs) == (a + b) + r.recs;
  }

  // One array read at the head of the bytes that are left.
  lemma ResumeStep(rest: string, at: nat, fmt: Fmt, recs: seq<AofRecord>, whole: Recovered)
    requires Resumes(rest, at, fmt, recs, whole)
    ensures ParseArray(rest).NeedMore? ==> whole == Recovered(recs, if rest == [] then Intact else Cut(at))
    ensures ParseArray(rest).Malformed? ==> whole == Recovered(recs, Corrupt)
    ensures ParseArray(rest).Complete? ==>
              var p := ParseArray(rest);
              match Read(fmt, p.args)
              case Reject => whole == Recovered(recs, Corrupt)
              case Skip(f) => Resumes(rest[p.end..], at + p.end, f, recs, whole)
              case Replay(f, rec) => Resumes(rest[p.end..], at + p.end, f, recs + [rec], whole)
  {
    hide ParseArray, Read;
    assert recs + [] == recs;
    var p := ParseArray(rest);
    if p.Complete? && Read(fmt, p.args).Replay? {
      var r := Read(fmt, p.args);
      AfterAfter(Recover(rest[p.end..], at + p.end, r.fmt), recs, [r.rec]);
    }
  }

  lemma ResumeStart(file: string)
    ensures Resumes(file, 0, Undetected, [], Recover(file, 0, Undetected))
  {
    var r := Recover(file, 0, Undetected);
    assert [] + r.recs == r.recs;
  }

  // The verdict on the buffered bytes is the verdict on everything that is left.
  lemma BufferDecides(buffered: string, unread: string)
    ensures !ParseArray(buffered).NeedMore? ==> ParseArray(buffered + unread) == ParseArray(buffered)
  {
    hide ParseArray;
    if !ParseArray(buffered).NeedMore? { ParseStable(buffered, unread); }
  }

  lemma FlattenStep(chunks: seq<string>, c: nat)
    requires c < |chunks|
    ensures Flatten(chunks[c..]) == chunks[c] + Flatten(chunks[c + 1..])
  {
    assert chunks[c..][1..] == chunks[c + 1..];
  }

  // The reading loop: fill the buffer while an array is incomplete, drop what was consumed, remember how much.
  // However the file is cut into chunks, it replays and truncates as one-shot recovery of the whole file does.
  method RecoverFile(chunks: seq<string>) returns (recs: seq<AofRecord>, fate: Fate)
    ensures Recovered(recs, fate) == Recover(Flatten(chunks), 0, Undetected)
  {
    hide ParseArray, Recover, Resumes, Read;
    ghost var whole := Recover(Flatten(chunks), 0, Undetected);
    ghost var rest := Flatten(chunks);
    ResumeStart(rest);
    recs, fate := [], Intact;
    var fmt := Undetected;
    var buf := "";
    var pos: nat, compacted: nat, c: nat := 0, 0, 0;
    assert chunks[0..] == chunks && buf[pos..] + Flatten(chunks[c..]) == rest;
    while true
      invariant pos <= |buf| && c <= |chunks|
      invariant rest == buf[pos..] + Flatten(chunks[c..])
      invariant Resumes(rest, compacted + pos, fmt, recs, whole)
      decreases |rest|
    {
      var st := Parse(buf, pos);
      while st.NeedMore? && c < |chunks|
        invariant pos <= |buf| && c <= |chunks|
        invariant rest == buf[pos..] + Flatten(chunks[c..])
        invariant st == ParseArray(buf[pos..]).Shift(pos)
        invariant Resumes(rest, compacted + pos, fmt, recs, whole)
        decreases |chunks| - c
      {
        FlattenStep(chunks, c);
        Refill(buf, pos, chunks[c], Flatten(chunks[c + 1..]));
        buf, compacted, pos := buf[pos..] + chunks[c], compacted + pos, 0;
        c := c + 1;
        st := Parse(buf, pos);
      }
      ResumeStep(rest, compacted + pos, fmt, recs, whole);
      BufferDecides(buf[pos..], Flatten(chunks[c..]));
      if st.NeedMore? {
        assert chunks[c..] == [] && rest == buf[pos..];
        fate := if pos < |buf| then Cut(compacted + pos) else Intact;
        return;
      }
      if st.Malformed? {
        fate := Corrupt;
        return;
      }
      var reading := Read(fmt, st.args);
      if reading.Reject? {
        fate := Corrupt;
        return;
      }
      Consume(buf, pos, st.end, Flatten(chunks[c..]));
      rest := rest[st.end - pos..];
      pos := st.end;
      fmt := reading.fmt;
      if reading.Replay? { recs := recs + [reading.rec]; }
    }
  }

  lemma Refill(buf: string, pos: nat, chunk: string, unread: string)
    requires pos <= |buf|
    ensures buf[pos..] + (chunk + unread) == (buf[pos..] + chunk)[0..] + unread
  {
  }

  lemma Consume(buf: string, pos: nat, end: nat, unread: string)
    requires pos <= end <= |buf|
    ensures (buf[pos..] + unread)[end - pos..] == buf[end..] + unread
  {
  }

  // -------- what recovery finds in a log --------

  lemma RecoverOne(rec: AofRecord, tail: string, at: nat)
    requires Encodable(rec)
    ensures Recover(EncodeRecord(rec) + tail, at, V3) ==
            Recover(tail, at + |EncodeRecord(rec)|, V3).After([rec])
  {
    hide ParseArray, EncodeRecord, BuildRecord, Tokens;
    RecordRoundTrip(rec, tail);
    assert (EncodeRecord(rec) + tail)[|EncodeRecord(rec)|..] == tail;
  }

  predicate AllEncodable(recs: seq<AofRecord>) {
    forall i :: 0 <= i < |recs| ==> Encodable(recs[i])
  }

  lemma {:induction false} RecoverMany(recs: seq<AofRecord>, tail: string, at: nat)
    requires AllEncodable(recs)
    ensures Recover(EncodeAll(recs) + tail, at, V3) == Recover(tail, at + |EncodeAll(recs)|, V3).After(recs)
  {
    hide Recover, EncodeRecord, Encodable;
    if recs == [] {
      var r := Recover(tail, at, V3);
      assert EncodeAll(recs) + tail == tail && [] + r.recs == r.recs;
    } else {
      var init, last := recs[..|recs| - 1], recs[|recs| - 1];
      var e := EncodeRecord(last);
      assert EncodeAll(recs) + tail == EncodeAll(init) + (e + tail);
      RecoverMany(init, e + tail, at);
      RecoverOne(last, tail, at + |EncodeAll(init)|);
      AfterAfter(Recover(tail, at + |EncodeAll(recs)|, V3), init, [last]);
      assert init + [last] == recs;
    }
  }

  // A strict prefix of some record: what a crash or a failed write can leave at the end of the file.
  ghost predicate Torn(torn: string) {
    torn == [] || exists x :: Encodable(x) && TornOf(torn, x)
  }

  predicate TornOf(torn: string, x: AofRecord) {
    torn < EncodeRecord(x)
  }

  lemma RecoverTorn(torn: string, at: nat)
    requires Torn(torn)
    ensures Recover(torn, at, V3) == Recovered([], if torn == [] then Intact else Cut(at))
  {
    hide ParseArray, Encode, Encodable;
    if torn != [] {
      var x :| Encodable(x) && TornOf(torn, x);
      TokensInLimit(x);
      StrictPrefixNeedsMore(Tokens(x), |torn|);
      assert Encode(Tokens(x))[..|torn|] == torn;
    } else {
      RecoverEmpty(at);
    }
  }

  lemma RecoverEmpty(at: nat)
    ensures Recover([], at, V3) == Recovered([], Intact)
  {
  }

  lemma RecoverHeader(tail: string)
    ensures Recover(HEADER + tail, 0, Undetected) == Recover(tail, |HEADER|, V3)
  {
    hide ParseArray;
    HeaderParses(tail);
    U64RoundTrip(3);
    assert ToDec(3) == "3";
    assert (HEADER + tail)[|HEADER|..] == tail;
  }

  function LogFile(recs: seq<AofRecord>): string {
    HEADER + EncodeAll(recs)
  }

  // A header, complete records and a torn tail: exactly the complete records are replayed, in order, and the file is
  // truncated exactly at the end of the last one.
  lemma RecoverExact(recs: seq<AofRecord>, torn: string)
    requires AllEncodable(recs) && Torn(torn)
    ensures Recover(LogFile(recs) + torn, 0, Undetected) ==
            Recovered(recs, if torn == [] then Intact else Cut(|LogFile(recs)|))
  {
    hide Recover, EncodeAll, Encodable;
    assert LogFile(recs) + torn == HEADER + (EncodeAll(recs) + torn);
    RecoverHeader(EncodeAll(recs) + torn);
    RecoverMany(recs, torn, |HEADER|);
    RecoverTorn(torn, |LogFile(recs)|);
    assert recs + [] == recs;
  }

  // -------- any cut --------

  lemma {:induction false} EncodeAllConcat(a: seq<AofRecord>, b: seq<AofRecord>)
    ensures EncodeAll(a + b) == EncodeAll(a) + EncodeAll(b)
  {
    hide EncodeRecord;
    if b == [] {
      assert a + b == a && EncodeAll(a) + [] == EncodeAll(a);
    } else {
      var init := b[..|b| - 1];
      assert (a + b)[..|a + b| - 1] == a + init;
      EncodeAllConcat(a, init);
      Regroup(EncodeAll(a), EncodeAll(init), EncodeRecord(b[|b| - 1]));
    }
  }

  // Where a cut falls: after some number of whole records, inside the next one.
  lemma {:induction false} CutPoint(recs: seq<AofRecord>, cut: nat) returns (j: nat)
    requires AllEncodable(recs) && cut <= |EncodeAll(recs)|
    ensures j <= |recs| && |EncodeAll(recs[..j])| <= cut
    ensures EncodeAll(recs[..j]) == EncodeAll(recs)[..|EncodeAll(recs[..j])|]
    ensures Torn(EncodeAll(recs)[|EncodeAll(recs[..j])|..cut])
    ensures j < |recs| ==> cut < |EncodeAll(recs[..j + 1])|
  {
    hide EncodeRecord, Encodable;
    if cut == |EncodeAll(recs)| {
      j := |recs|;
      assert recs[..j] == recs && EncodeAll(recs)[cut..cut] == [];
    } else {
      var init, last := recs[..|recs| - 1], recs[|recs| - 1];
      var e := EncodeAll(init);
      if cut < |e| {
        j := CutPoint(init, cut);
        assert init[..j] == recs[..j];
        assert EncodeAll(recs)[..|e|] == e;
        assert EncodeAll(recs)[|EncodeAll(recs[..j])|..cut] == e[|EncodeAll(recs[..j])|..cut];
        if j < |init| { assert init[..j + 1] == recs[..j + 1]; }
      } else {
        j := |init|;
        var torn := EncodeAll(recs)[|e|..cut];
        assert torn == EncodeRecord(last)[..cut - |e|];
        assert TornOf(torn, last);
        assert recs[..j + 1] == recs;
      }
    }
  }
}
