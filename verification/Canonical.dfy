/** The encoder is the shortest: whatever else parses to the same arguments is longer. */
module Canonical {
  import opened Ints
  import opened Wrappers
  import opened Decimal
  import opened Resp
  import opened AofCodec
  import opened Recovery

  // -------- numbers --------

  lemma {:induction false} ShortestDec(d: string)
    requires d != [] && AllDigits(d)
    ensures |ToDec(Value(d))| <= |d|
    ensures |ToDec(Value(d))| == |d| ==> ToDec(Value(d)) == d
  {
    var init, last := d[..|d| - 1], d[|d| - 1];
    assert IsDigit(last) && Digit(DigitValue(last)) == last;
    if Value(d) >= 10 {
      assert init != [];
      ShortestDec(init);
      assert Value(d) / 10 == Value(init) && Value(d) % 10 == DigitValue(last);
      assert d == init + [last];
    } else if |d| == 1 {
      assert Value(init) == 0 && d == [last];
    }
  }

  lemma {:induction false} LongerDec(a: nat, b: nat)
    requires a <= b
    ensures |ToDec(a)| <= |ToDec(b)|
  {
    if b >= 10 && a >= 10 { LongerDec(a / 10, b / 10); }
  }

  lemma ShortestSigned(s: string, n: int)
    requires ParseI64(s) == Some(n)
    ensures |ToSigned(n)| <= |s| && (|ToSigned(n)| == |s| ==> ToSigned(n) == s)
  {
    hide ToDec, Value;
    var neg := s[0] == '-';
    var d := if neg then s[1..] else s;
    ShortestDec(d);
    if neg {
      assert s == "-" + d;
      if n == 0 { SingleZero(); }
    }
  }

  lemma SingleZero()
    ensures |ToDec(0)| == 1
  {
  }

  // -------- arrays --------

  lemma ShortestHeader(s: string, prefix: char, max: nat)
    requires ReadHeader(s, prefix, max).Number?
    ensures var h := ReadHeader(s, prefix, max);
            && |EncodeHeader(prefix, h.value)| <= h.next
            && (|EncodeHeader(prefix, h.value)| == h.next ==> s[..h.next] == EncodeHeader(prefix, h.value))
  {
    hide ToDec, Value, FindCrlf;
    var window := s[..Min(MAX_HEADER, |s|)];
    var crlf := FindCrlf(window).value;
    var digits := window[1..crlf];
    ShortestDec(digits);
    HeaderSlices(s, |window|, crlf);
  }

  lemma HeaderSlices(s: string, n: nat, crlf: nat)
    requires 1 <= crlf && crlf + 2 <= n <= |s| && s[crlf] == '\r' && s[crlf + 1] == '\n'
    ensures s[..crlf + 2] == [s[0]] + s[..n][1..crlf] + "\r\n"
  {
  }

  lemma ShortestBulk(s: string)
    requires ReadBulk(s).Got?
    ensures var b := ReadBulk(s);
            && |EncodeBulk(b.value)| <= b.next
            && (|EncodeBulk(b.value)| == b.next ==> s[..b.next] == EncodeBulk(b.value))
  {
    hide ReadHeader, EncodeHeader;
    var h := ReadHeader(s, '$', MAX_BULK);
    ShortestHeader(s, '$', MAX_BULK);
    var b := ReadBulk(s);
    assert |b.value| == h.value && s[..b.next] == s[..h.next] + b.value + "\r\n";
  }

  lemma {:induction false} ShortestBulks(s: string, count: nat)
    requires ReadBulks(s, count).Complete?
    ensures var r := ReadBulks(s, count);
            && |EncodeBulks(r.args)| <= r.end
            && (|EncodeBulks(r.args)| == r.end ==> s[..r.end] == EncodeBulks(r.args))
    decreases count
  {
    hide ReadBulk, EncodeBulk, EncodeBulks, InLimitEach;
    if count == 0 {
      NoBulks();
    } else {
      var b := ReadBulk(s);
      ShortestBulk(s);
      ShortestBulks(s[b.next..], count - 1);
      var rest := ReadBulks(s[b.next..], count - 1);
      var r := ReadBulks(s, count);
      assert r.args == [b.value] + rest.args && r.end == b.next + rest.end;
      FirstBulk(b.value, rest.args);
      Joined(s, b.next, rest.end);
    }
  }

  lemma NoBulks()
    ensures EncodeBulks([]) == []
  {
  }

  lemma FirstBulk(value: string, rest: seq<string>)
    ensures EncodeBulks([value] + rest) == EncodeBulk(value) + EncodeBulks(rest)
  {
    hide EncodeBulk;
    assert ([value] + rest)[1..] == rest;
  }

  lemma Joined(s: string, a: nat, b: nat)
    requires a + b <= |s|
    ensures s[..a + b] == s[..a] + s[a..][..b]
  {
  }

  // Bytes that parse to some arguments are at least as long as their encoding, and no longer only if they are it.
  lemma ShortestArray(s: string)
    requires ParseArray(s).Complete?
    ensures var p := ParseArray(s);
            |Encode(p.args)| <= p.end && (|Encode(p.args)| == p.end ==> s[..p.end] == Encode(p.args))
  {
    hide ReadHeader, ReadBulks, EncodeHeader, EncodeBulks;
    var h := ReadHeader(s, '*', MAX_ARGS);
    ShortestHeader(s, '*', MAX_ARGS);
    ShortestBulks(s[h.next..], h.value);
    var rest := ReadBulks(s[h.next..], h.value);
    assert s[..h.next + rest.end] == s[..h.next] + s[h.next..][..rest.end];
  }

  // -------- records --------

  lemma BulkLength(x: string, y: string)
    requires |x| <= |y|
    ensures |EncodeBulk(x)| <= |EncodeBulk(y)| && (|EncodeBulk(x)| == |EncodeBulk(y)| ==> |x| == |y|)
  {
    hide ToDec;
    LongerDec(|x|, |y|);
  }

  lemma {:induction false} BulksConcat(a: seq<string>, b: seq<string>)
    ensures EncodeBulks(a + b) == EncodeBulks(a) + EncodeBulks(b)
  {
    hide EncodeBulk;
    if a == [] {
      assert a + b == b && [] + EncodeBulks(b) == EncodeBulks(b);
    } else {
      BulksConcat(a[1..], b);
      assert (a + b)[1..] == a[1..] + b;
      assert EncodeBulk(a[0]) + (EncodeBulks(a[1..]) + EncodeBulks(b)) ==
             (EncodeBulk(a[0]) + EncodeBulks(a[1..])) + EncodeBulks(b);
    }
  }

  lemma ThreeBulks(x: string, y: string, z: string)
    ensures EncodeBulks([x, y, z]) == EncodeBulk(x) + EncodeBulk(y) + EncodeBulk(z)
  {
    hide EncodeBulk, EncodeBulks;
    assert [x, y, z] == [x] + ([y] + ([z] + []));
    FirstBulk(x, [y] + ([z] + []));
    FirstBulk(y, [z] + []);
    FirstBulk(z, []);
    NoBulks();
    assert EncodeBulk(x) + (EncodeBulk(y) + (EncodeBulk(z) + [])) == EncodeBulk(x) + EncodeBulk(y) + EncodeBulk(z);
  }

  // The three numbers after the meta token, in the record's own form and as they were read.
  lemma ShortestNumbers(head: seq<string>, e: string, t: string, n: string, e': string, t': string, n': string)
    requires |e| <= |e'| && |t| <= |t'| && |n| <= |n'|
    ensures |EncodeBulks(head + [e, t, n])| <= |EncodeBulks(head + [e', t', n'])|
    ensures |EncodeBulks(head + [e, t, n])| == |EncodeBulks(head + [e', t', n'])| ==>
              |e| == |e'| && |t| == |t'| && |n| == |n'|
  {
    hide EncodeBulk, EncodeBulks;
    BulksConcat(head, [e, t, n]);
    BulksConcat(head, [e', t', n']);
    ThreeBulks(e, t, n);
    ThreeBulks(e', t', n');
    BulkLength(e, e');
    BulkLength(t, t');
    BulkLength(n, n');
  }

  // The same for a record: its own encoding is the shortest array that builds it.
  lemma ShortestRecord(tokens: seq<string>, rec: AofRecord)
    requires BuildV3(tokens) == Some(rec) && InLimit(tokens)
    ensures Encodable(rec) && |EncodeRecord(rec)| <= |Encode(tokens)|
    ensures |EncodeRecord(rec)| == |Encode(tokens)| ==> Tokens(rec) == tokens
  {
    hide ToDec, ToSigned, ParseI64, ParseU64, EncodeBulks, EncodeHeader;
    var k := |tokens|;
    var head, e, t, n := tokens[..k - 3], tokens[k - 3], tokens[k - 2], tokens[k - 1];
    Widths(e, t, n);
    ShortestSigned(e, rec.expireAt);
    ShortestUnsigned(t, rec.ts);
    ShortestUnsigned(n, rec.node);
    assert tokens == head + [e, t, n];
    assert Tokens(rec) == head + [ToSigned(rec.expireAt), ToDec(rec.ts), ToDec(rec.node)];
    ShortestNumbers(head, ToSigned(rec.expireAt), ToDec(rec.ts), ToDec(rec.node), e, t, n);
  }

  lemma ShortestUnsigned(s: string, n: nat)
    requires ParseU64(s) == Some(n)
    ensures |ToDec(n)| <= |s| && (|ToDec(n)| == |s| ==> ToDec(n) == s)
  {
    hide ToDec;
    ShortestDec(s);
  }

  lemma Widths(e: string, t: string, n: string)
    ensures ParseI64(e).Some? ==> 0 - I64_MAX - 1 <= ParseI64(e).value <= I64_MAX
    ensures ParseU64(t).Some? ==> ParseU64(t).value <= U64_MAX
  {
  }

  // -------- files --------

  lemma EncodeAllFirst(rec: AofRecord, rest: seq<AofRecord>)
    ensures EncodeAll([rec] + rest) == EncodeRecord(rec) + EncodeAll(rest)
  {
    hide EncodeRecord;
    EncodeAllConcat([rec], rest);
    assert [rec][..0] == [];
    assert EncodeAll([rec]) == EncodeAll([]) + EncodeRecord(rec);
    assert [] + EncodeRecord(rec) == EncodeRecord(rec);
  }

  // How far recovery got.
  function Used(s: string, at: nat, fate: Fate): int {
    match fate
    case Intact => |s|
    case Cut(c) => c - at
    case Corrupt => 0
  }

  // What recovery read is at least as long as the records it returns, and no longer only if it is their encoding.
  lemma {:induction false} ShortestLog(s: string, at: nat)
    requires Recover(s, at, V3).fate != Corrupt
    ensures var r := Recover(s, at, V3);
            var used := Used(s, at, r.fate);
            && 0 <= used <= |s| && AllEncodable(r.recs) && |EncodeAll(r.recs)| <= used
            && (|EncodeAll(r.recs)| == used ==> s[..used] == EncodeAll(r.recs))
    decreases |s|
  {
    hide ParseArray, BuildV3, EncodeAll, Encode, Encodable, Tokens;
    NoRecord();
    var p := ParseArray(s);
    if p.Complete? {
      var rec := BuildV3(p.args).value;
      var rest := s[p.end..];
      ShortestLog(rest, at + p.end);
      ShortestArray(s);
      ShortestRecord(p.args, rec);
      var r := Recover(rest, at + p.end, V3);
      RecoverStep(s, at, rec);
      EncodeAllFirst(rec, r.recs);
      OneMore(rec, r.recs);
      Joined(s, p.end, Used(rest, at + p.end, r.fate));
      assert EncodeRecord(rec) == Encode(Tokens(rec));
    } else {
      RecoverStop(s, at);
    }
  }

  lemma NoRecord()
    ensures EncodeAll([]) == []
  {
  }

  lemma OneMore(rec: AofRecord, rest: seq<AofRecord>)
    requires Encodable(rec) && AllEncodable(rest)
    ensures AllEncodable([rec] + rest)
  {
    hide Encodable;
  }

  lemma RecoverStep(s: string, at: nat, rec: AofRecord)
    requires ParseArray(s).Complete? && BuildV3(ParseArray(s).args) == Some(rec)
    ensures var p := ParseArray(s);
            Recover(s, at, V3) == Recover(s[p.end..], at + p.end, V3).After([rec])
  {
    hide ParseArray, BuildV3;
  }

  lemma RecoverStop(s: string, at: nat)
    requires !ParseArray(s).Complete? && Recover(s, at, V3).fate != Corrupt
    ensures Recover(s, at, V3) == Recovered([], if s == [] then Intact else Cut(at))
  {
    hide ParseArray;
  }
}
