/** What recovery makes of a log file that need not be in order: exactly when it returns the completed records. */
module LogFiles {
  import opened Wrappers
  import opened Decimal
  import opened Resp
  import opened AofCodec
  import opened Recovery
  import opened Canonical

  predicate AllTyped(recs: seq<AofRecord>) {
    forall i :: 0 <= i < |recs| ==> Typed(recs[i])
  }

  // A strict prefix of some record, within the parser's limits or not: what a failed write can leave.
  ghost predicate Cutoff(torn: string) {
    torn == [] || exists x :: Typed(x) && TornOf(torn, x)
  }

  // Recovery stops there without rejecting anything.
  predicate Asks(rest: string) {
    rest == [] || ParseArray(rest).NeedMore?
  }

  lemma RecordHead(rec: AofRecord)
    ensures |EncodeRecord(rec)| >= 2 && EncodeRecord(rec)[0] == '*'
  {
    hide ToDec, EncodeBulks;
  }

  lemma RecordLength(rec: AofRecord)
    ensures |EncodeRecord(rec)| >= |HEADER|
  {
    hide ToDec, ToSigned, EncodeBulk;
    BulksConcat([rec.room] + rec.args, [META, ToSigned(rec.expireAt), ToDec(rec.ts), ToDec(rec.node)]);
    assert Tokens(rec) == [rec.room] + rec.args + [META, ToSigned(rec.expireAt), ToDec(rec.ts), ToDec(rec.node)];
    FirstBulk(META, [ToSigned(rec.expireAt), ToDec(rec.ts), ToDec(rec.node)]);
    ThreeBulks(ToSigned(rec.expireAt), ToDec(rec.ts), ToDec(rec.node));
    BulkAtLeast(META);
    BulkAtLeast(ToSigned(rec.expireAt));
    BulkAtLeast(ToDec(rec.ts));
    BulkAtLeast(ToDec(rec.node));
  }

  lemma BulkAtLeast(x: string)
    ensures |EncodeBulk(x)| >= |x| + 6
  {
    hide ToDec;
    ToDecValue(|x|);
  }

  lemma CutoffShape(torn: string)
    requires Cutoff(torn) && torn != []
    ensures torn[0] == '*' && !ParseArray(torn).Complete?
  {
    hide ParseArray, Encode, Typed;
    var x :| Typed(x) && TornOf(torn, x);
    RecordHead(x);
    if ParseArray(torn).Complete? {
      var whole := Encode(Tokens(x));
      ParseStable(torn, whole[|torn|..]);
      assert torn + whole[|torn|..] == whole + [];
      if InLimit(Tokens(x)) { RoundTrip(Tokens(x), []); } else { OverLimitRejected(Tokens(x), []); }
    }
  }

  // -------- a file with its header --------

  // Whatever bytes of the right length follow the header, recovery returns the completed records and stops after them
  // exactly when those bytes are their encoding, all within the limits, and the rest asks for more.
  lemma HeadedIff(body: string, completed: seq<AofRecord>, torn: string)
    requires |body| == |EncodeAll(completed)|
    ensures Recover(HEADER + (body + torn), 0, Undetected) ==
            Recovered(completed, if torn == [] then Intact else Cut(|HEADER| + |body|)) <==>
            body == EncodeAll(completed) && AllEncodable(completed) && Asks(torn)
  {
    hide Recover, EncodeAll, AllEncodable, ParseArray;
    var s := body + torn;
    RecoverHeader(s);
    var want := Recovered(completed, if torn == [] then Intact else Cut(|HEADER| + |body|));
    if Recover(s, |HEADER|, V3) == want {
      ShortestLog(s, |HEADER|);
      assert s[..|body|] == body;
    }
    if body == EncodeAll(completed) && AllEncodable(completed) {
      RecoverMany(completed, torn, |HEADER|);
      StopIff(torn, |HEADER| + |body|, completed);
    }
  }

  lemma StopIff(torn: string, at: nat, before: seq<AofRecord>)
    ensures Recover(torn, at, V3).After(before) == Recovered(before, if torn == [] then Intact else Cut(at)) <==> Asks(torn)
  {
    hide ParseArray, BuildRecord;
    var r := Recover(torn, at, V3);
    assert before + [] == before;
    if torn == [] { EmptyNeedsMore(); }
    if r.recs != [] { assert |before + r.recs| > |before|; }
  }

  // -------- a file without it --------

  lemma StarBreaksHeader(s: string, j: nat, prefix: char, max: nat)
    requires 1 <= j < |s| && s[j] == '*'
    requires forall i :: 0 <= i && i + 1 < j ==> !(s[i] == '\r' && s[i + 1] == '\n')
    ensures !ReadHeader(s, prefix, max).Number?
  {
    hide FindCrlf, Value;
    var window := s[..Min(MAX_HEADER, |s|)];
    var crlf := FindCrlf(window);
    if crlf.Some? && crlf.value > j { assert window[1..crlf.value][j - 1] == '*'; }
  }

  lemma HeaderAt(s: string, head: string, prefix: char, n: nat, max: nat)
    requires n <= max <= MAX_BULK && prefix != '\r' && head == EncodeHeader(prefix, n) && head <= s
    ensures ReadHeader(s, prefix, max) == Number(|head|, n)
  {
    hide ReadHeader, EncodeHeader;
    assert s == head + s[|head|..];
    HeaderRoundTrip(prefix, n, max, s[|head|..]);
  }

  lemma SmallHeaders()
    ensures EncodeHeader('*', 2) == "*2\r\n" && EncodeHeader('$', 11) == "$11\r\n" && EncodeHeader('$', 1) == "$1\r\n"
  {
    hide ToDec;
    SmallNumbers();
  }

  lemma HeaderStart()
    ensures |HEADER| == 29 && HEADER[..4] == "*2\r\n"
  {
  }

  lemma HeaderLength()
    ensures HEADER[4..9] == "$11\r\n"
  {
    assert HEADER[4] == '$';
    assert HEADER[5] == '1';
    assert HEADER[6] == '1';
    assert HEADER[7] == '\r';
    assert HEADER[8] == '\n';
  }

  lemma HeaderMagic()
    ensures HEADER[9..20] == MAGIC && HEADER[20] == '\r' && HEADER[21] == '\n'
  {
    assert HEADER[9] == 'S' && HEADER[10] == 'O' && HEADER[11] == 'M' && HEADER[12] == 'N' && HEADER[13] == 'I';
    assert HEADER[14] == 'U' && HEADER[15] == 'M' && HEADER[16] == '-' && HEADER[17] == 'A' && HEADER[18] == 'O';
    assert HEADER[19] == 'F';
  }

  lemma HeaderVersion()
    ensures HEADER[22..26] == "$1\r\n"
  {
    assert HEADER[22] == '$' && HEADER[23] == '1' && HEADER[24] == '\r' && HEADER[25] == '\n';
  }

  lemma HeaderParts()
    ensures EncodeHeader('*', 2) == "*2\r\n" && EncodeHeader('$', 11) == "$11\r\n" && EncodeHeader('$', 1) == "$1\r\n"
    ensures |HEADER| == 29 && HEADER[..4] == "*2\r\n" && HEADER[4..9] == "$11\r\n" && HEADER[22..26] == "$1\r\n"
    ensures HEADER[9..20] == MAGIC && HEADER[20] == '\r' && HEADER[21] == '\n'
  {
    hide EncodeHeader;
    SmallHeaders();
    HeaderStart();
    HeaderLength();
    HeaderMagic();
    HeaderVersion();
  }

  lemma NoStarInMagic(v: string, i: nat)
    requires i < |v| && v[i] == '*'
    ensures v != MAGIC
  {
    assert forall k :: 0 <= k < |MAGIC| ==> MAGIC[k] != '*';
  }

  // The first of two bulk strings, when part of a header is followed by a record.
  lemma BrokenMagic(s: string, p: nat)
    requires 4 <= p < 22 && p < |s| && s[..p] == HEADER[..p] && s[p] == '*'
    ensures var b := ReadBulk(s[4..]);
            !b.Got? || b.value != MAGIC
  {
    hide ReadHeader, EncodeHeader;
    HeaderParts();
    var u := s[4..];
    if p == 4 {
      assert u[0] == '*';
      WrongPrefix(u, '$');
    } else if p < 9 {
      assert u[p - 4] == '*' && forall i :: 0 <= i < p - 4 ==> u[i] == HEADER[4 + i];
      StarBreaksHeader(u, p - 4, '$', MAX_BULK);
    } else {
      assert u[..5] == HEADER[4..9];
      HeaderAt(u, "$11\r\n", '$', 11, MAX_BULK);
      var b := ReadBulk(u);
      assert u[p - 4] == '*';
      if b.Got? && p < 20 {
        assert b.value[p - 9] == u[p - 4];
        NoStarInMagic(b.value, p - 9);
      }
    }
  }

  lemma WrongPrefix(s: string, prefix: char)
    requires s != [] && s[0] != prefix
    ensures ReadHeader(s, prefix, MAX_BULK) == Bad
  {
  }

  lemma BrokenVersion(s: string, p: nat)
    requires 22 <= p < 29 && p < |s| && s[..p] == HEADER[..p] && s[p] == '*'
    ensures var b := ReadBulk(s[22..]);
            !b.Got? || ParseU64(b.value) != Some(3)
  {
    hide ReadHeader, EncodeHeader;
    HeaderParts();
    var v := s[22..];
    if p == 22 {
      WrongPrefix(v, '$');
    } else if p < 26 {
      assert v[p - 22] == '*' && forall i :: 0 <= i < p - 22 ==> v[i] == HEADER[22 + i];
      StarBreaksHeader(v, p - 22, '$', MAX_BULK);
    } else {
      assert v[..4] == HEADER[22..26];
      HeaderAt(v, "$1\r\n", '$', 1, MAX_BULK);
      assert v[p - 22] == '*';
      var star := ['*'];
      assert !IsDigit(star[0]) && (p == 26 ==> v[4..5] == star);
    }
  }

  // Part of a header and a record after it are not a header.
  lemma NeverHeader(s: string, p: nat)
    requires 1 <= p < |HEADER| && p < |s| && s[..p] == HEADER[..p] && s[p] == '*' && ParseArray(s).Complete?
    ensures !Read(Undetected, ParseArray(s).args).Skip?
  {
    hide ReadHeader, ReadBulk, EncodeHeader, BuildRecord, ParseU64;
    HeaderParts();
    var args := ParseArray(s).args;
    if p < 4 {
      assert forall i :: 0 <= i < p ==> s[i] == HEADER[i];
      StarBreaksHeader(s, p, '*', MAX_ARGS);
    } else {
      assert s[..4] == HEADER[..4];
      HeaderAt(s, "*2\r\n", '*', 2, MAX_ARGS);
      TwoBulks(s[4..]);
      if p < 22 {
        BrokenMagic(s, p);
      } else {
        MagicAt(s, p);
        DropDrop(s, 4, 18);
        BrokenVersion(s, p);
      }
    }
  }

  lemma MagicAt(s: string, p: nat)
    requires 22 <= p <= |s| && p <= |HEADER| && s[..p] == HEADER[..p]
    ensures ReadBulk(s[4..]) == Got(MAGIC, 18)
  {
    hide ReadHeader, EncodeHeader;
    HeaderParts();
    var u := s[4..];
    SameSlice(s, HEADER, p, 4, 9);
    SameSlice(s, HEADER, p, 9, 20);
    assert u[..5] == s[4..9];
    HeaderAt(u, "$11\r\n", '$', 11, MAX_BULK);
    assert u[5..16] == s[9..20] && u[16] == s[20] && u[17] == s[21];
  }

  lemma TwoBulks(u: string)
    requires ReadBulks(u, 2).Complete?
    ensures ReadBulk(u).Got? && ReadBulk(u[ReadBulk(u).next..]).Got?
    ensures ReadBulks(u, 2).args == [ReadBulk(u).value, ReadBulk(u[ReadBulk(u).next..]).value]
  {
    hide ReadBulk;
    var b := ReadBulk(u);
    var v := u[b.next..];
    assert ReadBulks(v, 1).Complete?;
    assert ReadBulks(v[ReadBulk(v).next..], 0) == Complete(0, []);
  }

  // -------- a record after part of a header, read as an older format --------

  // How a record starts.
  lemma RecordStart(rec: AofRecord) returns (more: string)
    requires rec.args != []
    ensures EncodeRecord(rec) ==
            EncodeHeader('*', |rec.args| + 5) + EncodeHeader('$', |rec.room|) + rec.room + "\r\n" + ['$'] + more
  {
    hide EncodeHeader, ToDec, ToSigned;
    var meta := [META, ToSigned(rec.expireAt), ToDec(rec.ts), ToDec(rec.node)];
    FirstBulk(rec.room, rec.args + meta);
    FirstBulk(rec.args[0], rec.args[1..] + meta);
    assert Tokens(rec) == [rec.room] + (rec.args + meta);
    assert rec.args + meta == [rec.args[0]] + (rec.args[1..] + meta);
    var second := EncodeBulk(rec.args[0]) + EncodeBulks(rec.args[1..] + meta);
    StartsWithPrefix('$', |rec.args[0]|);
    more := second[1..];
  }

  lemma StartsWithPrefix(prefix: char, n: nat)
    ensures EncodeHeader(prefix, n) != [] && EncodeHeader(prefix, n)[0] == prefix
  {
    hide ToDec;
  }

  lemma SixAndSeven()
    ensures EncodeHeader('*', 6) == "*6\r\n" && EncodeHeader('*', 7) == "*7\r\n" && EncodeHeader('$', 7) == "$7\r\n"
  {
    assert Digit(6) == '6' && Digit(7) == '7';
  }

  // A record of two arguments in the room "default", and one of one argument in a room whose name is as long as the magic.
  lemma StartOfTwo(rec: AofRecord)
    requires rec.room == "default" && |rec.args| == 2
    ensures "*7\r\n$7\r\ndefault\r\n$" <= EncodeRecord(rec)
  {
    hide EncodeHeader, EncodeRecord;
    var more := RecordStart(rec);
    SixAndSeven();
    assert EncodeHeader('*', 7) + EncodeHeader('$', 7) + rec.room + "\r\n" + ['$'] == "*7\r\n$7\r\ndefault\r\n$";
  }

  lemma StartOfOne(rec: AofRecord)
    requires |rec.room| == 11 && |rec.args| == 1
    ensures "*6\r\n$11\r\n" + rec.room <= EncodeRecord(rec)
  {
    hide EncodeHeader, EncodeRecord;
    var more := RecordStart(rec);
    SixAndSeven();
    SmallHeaders();
    assert EncodeHeader('*', 6) + EncodeHeader('$', 11) == "*6\r\n$11\r\n";
    assert EncodeRecord(rec) == "*6\r\n$11\r\n" + rec.room + ("\r\n" + ['$'] + more);
  }

  // What is read there are two strings, the first of which holds the rest of the magic and the start of the record.
  lemma TwoStrings(s: string, p: nat)
    requires 1 <= p < |HEADER| && p < |s| && s[..p] == HEADER[..p] && s[p] == '*' && ParseArray(s).Complete?
    requires Read(Undetected, ParseArray(s).args).Replay?
    ensures 9 <= p < 20 && |s| >= 22 && s[20] == '\r' && s[21] == '\n' && ReadBulk(s[22..]).Got?
    ensures ParseArray(s).args == [s[9..20], ReadBulk(s[22..]).value] && ParseArray(s).end == 22 + ReadBulk(s[22..]).next
  {
    hide ReadHeader, ReadBulk, EncodeHeader, BuildRecord, ParseU64;
    HeaderParts();
    assert forall i :: 0 <= i < p ==> s[i] == s[..p][i] == HEADER[i];
    if p < 4 {
      StarBreaksHeader(s, p, '*', MAX_ARGS);
    } else {
      assert s[..4] == HEADER[..4];
      HeaderAt(s, "*2\r\n", '*', 2, MAX_ARGS);
      TwoBulks(s[4..]);
      if p >= 22 {
        MagicAt(s, p);
      } else {
        FirstString(s, p);
        DropDrop(s, 4, 18);
      }
    }
  }

  lemma FirstString(s: string, p: nat)
    requires 4 <= p < 22 && p < |s| && s[..p] == HEADER[..p] && s[p] == '*' && ReadBulk(s[4..]).Got?
    ensures 9 <= p < 20 && |s| >= 22 && s[20] == '\r' && s[21] == '\n' && ReadBulk(s[4..]) == Got(s[9..20], 18)
  {
    hide ReadHeader, EncodeHeader;
    HeaderParts();
    var u := s[4..];
    assert forall i :: 0 <= i < p ==> s[i] == s[..p][i] == HEADER[i];
    if p == 4 {
      assert u[0] == '*';
      WrongPrefix(u, '$');
    } else if p < 9 {
      assert u[p - 4] == '*' && forall i :: 0 <= i < p - 4 ==> u[i] == HEADER[4 + i];
      StarBreaksHeader(u, p - 4, '$', MAX_BULK);
    } else {
      assert u[..5] == HEADER[4..9];
      HeaderAt(u, "$11\r\n", '$', 11, MAX_BULK);
      assert u[16] == s[20] && u[17] == s[21] && u[5..16] == s[9..20];
    }
  }

  // If what is read there is the record itself, the next byte is no record's.
  lemma ReadAsItself(s: string, p: nat, rec: AofRecord)
    requires 1 <= p < |HEADER| && p < |s| && s[..p] == HEADER[..p] && EncodeRecord(rec) <= s[p..]
    requires ParseArray(s).Complete?
    requires var r := Read(Undetected, ParseArray(s).args); r.Replay? && r.rec == rec
    ensures ParseArray(s[ParseArray(s).end..]) == Malformed
  {
    hide ReadBulk, ParseArray, ReadHeader, EncodeHeader, EncodeRecord;
    RecordHead(rec);
    assert s[p] == s[p..][0] == EncodeRecord(rec)[0];
    TwoStrings(s, p);
    var x, b := s[9..20], ReadBulk(s[22..]);
    if IsWriteCmd(b.value) {
      StartOfOne(rec);
      OneArgument(s, p, rec.room, b.value);
    } else {
      StartOfTwo(rec);
      TwoArguments(s, p);
    }
  }

  lemma TwoArguments(s: string, p: nat)
    requires 9 <= p < 20 && |s| >= 22 && s[..p] == HEADER[..p] && s[20] == '\r' && s[21] == '\n'
    requires "*7\r\n$7\r\ndefault\r\n$" <= s[p..] && ReadBulk(s[22..]).Got?
    ensures ParseArray(s[22 + ReadBulk(s[22..]).next..]) == Malformed
  {
    hide ReadHeader, EncodeHeader;
    var head := "*7\r\n$7\r\ndefault\r\n$";
    assert forall i :: 0 <= i < |head| ==> s[p + i] == s[p..][i] == head[i];
    assert s[20] == head[20 - p] && s[21] == head[21 - p];
    assert p == 18 || p == 14;
    var v := s[22..];
    if p == 14 {
      assert v[0] == head[8];
      WrongPrefix(v, '$');
    } else {
      SixAndSeven();
      assert v[0] == head[4] == '$' && v[1] == head[5] == '7' && v[2] == head[6] == '\r' && v[3] == head[7] == '\n';
      assert v[..4] == "$7\r\n";
      HeaderAt(v, "$7\r\n", '$', 7, MAX_BULK);
      assert ReadBulk(v).next == 13 && s[35] == head[17];
      NoArray(s[35..]);
    }
  }

  lemma NoArray(s: string)
    requires s != [] && s[0] != '*'
    ensures ParseArray(s) == Malformed
  {
  }

  lemma OneArgument(s: string, p: nat, room: string, value: string)
    requires 9 <= p < 20 && |s| >= 22 && s[..p] == HEADER[..p] && s[20] == '\r' && s[21] == '\n'
    requires s[9..20] == room && |room| == 11 && "*6\r\n$11\r\n" + room <= s[p..]
    requires ReadBulk(s[22..]).Got? && ReadBulk(s[22..]).value == value
    ensures !IsWriteCmd(value)
  {
    hide ReadHeader, EncodeHeader, IsWriteCmd;
    HeaderParts();
    GotPrefix(s[22..]);
    var head, v := "*6\r\n$11\r\n", s[22..];
    assert forall i :: 0 <= i < 9 ==> s[p..][i] == head[i];
    assert forall i :: 0 <= i < 11 ==> s[p..][9 + i] == room[i] && s[9 + i] == room[i];
    Recurs(s, p, room);
    SameSlice(s, HEADER, p, 9, p);
    assert HEADER[9] == HEADER[9..20][0] == 'S';
    SecondString(s, p);
    AsLongAsMagic(v);
  }

  // The room is read where the record says it is, and again eleven bytes from the magic's place.
  lemma Recurs(s: string, p: nat, room: string)
    requires |room| == 11 && 9 <= p && |s| >= p + 20
    requires forall i :: 0 <= i < 9 ==> s[p..][i] == "*6\r\n$11\r\n"[i]
    requires forall i :: 0 <= i < 11 ==> s[p..][9 + i] == room[i] && s[9 + i] == room[i]
    ensures forall j :: p <= j < p + 9 ==> s[j] == "*6\r\n$11\r\n"[j - p]
    ensures forall j :: p + 9 <= j < p + 20 ==> s[j] == s[j - p]
  {
    forall j | p <= j < p + 9 ensures s[j] == "*6\r\n$11\r\n"[j - p] { assert s[p..][j - p] == s[j]; }
    forall j | p + 9 <= j < p + 20 ensures s[j] == s[j - p] {
      var i := j - p - 9;
      assert s[p..][9 + i] == s[j] && s[9 + i] == room[i];
    }
  }

  lemma AsLongAsMagic(v: string)
    requires |v| >= 5 && v[0] == '$' && v[1] == '1' && v[2] == '1' && v[3] == '\r' && v[4] == '\n'
    requires ReadBulk(v).Got?
    ensures !IsWriteCmd(ReadBulk(v).value)
  {
    hide ReadHeader, EncodeHeader, IsWriteCmd;
    SmallHeaders();
    assert v[..5] == "$11\r\n";
    HeaderAt(v, "$11\r\n", '$', 11, MAX_BULK);
    LongerThanCommands(ReadBulk(v).value);
  }

  lemma GotPrefix(s: string)
    requires ReadBulk(s).Got?
    ensures s != [] && s[0] == '$'
  {
  }

  // Only a cut before the magic, or before its last two bytes, puts a line break after the first string and a length after it.
  lemma SecondString(s: string, p: nat)
    requires 9 <= p < 20 && |s| >= p + 20 && s[20] == '\r' && s[21] == '\n' && s[22] == '$' && (p > 9 ==> s[9] == 'S')
    requires forall j :: p <= j < p + 9 ==> s[j] == "*6\r\n$11\r\n"[j - p]
    requires forall j :: p + 9 <= j < p + 20 ==> s[j] == s[j - p]
    ensures s[23] == '1' && s[24] == '1' && s[25] == '\r' && s[26] == '\n'
  {
    var head := "*6\r\n$11\r\n";
    assert 20 < p + 9 ==> s[20] == head[20 - p];
    assert p + 9 <= 20 ==> s[20] == s[20 - p];
    assert p + 9 <= 22 ==> s[22] == s[22 - p];
    assert p <= 10 ==> s[10] == head[10 - p];
    assert p == 9 || p == 18;
    assert forall k :: 4 <= k < 9 ==> (p == 18 ==> s[18 + k] == head[k]) && (p == 9 ==> s[18 + k] == s[9 + k] == head[k]);
    assert head[5] == '1' && head[6] == '1' && head[7] == '\r' && head[8] == '\n';
  }

  lemma SameSlice(s: string, t: string, p: nat, a: nat, b: nat)
    requires a <= b <= p <= |s| && p <= |t| && s[..p] == t[..p]
    ensures s[a..b] == t[a..b] && forall i :: 0 <= i < p ==> s[i] == t[i]
  {
    assert forall i :: 0 <= i < p ==> s[i] == s[..p][i] == t[..p][i] == t[i];
  }

  lemma LongerThanCommands(value: string)
    requires |value| == 11
    ensures !IsWriteCmd(value)
  {
  }

  // Without a header the first record is taken for one of an older format: its meta tokens become arguments.
  lemma HeadlessMisread(recs: seq<AofRecord>, torn: string)
    requires AllTyped(recs) && recs != []
    ensures var r := Recover(EncodeAll(recs) + torn, 0, Undetected);
            r.recs != recs || r.fate == Corrupt
  {
    hide Recover, EncodeAll, EncodeRecord, Typed, Encodable;
    var first := recs[0];
    EncodeAllFirst(first, recs[1..]);
    assert [first] + recs[1..] == recs;
    Regroup(EncodeRecord(first), EncodeAll(recs[1..]), torn);
    HeadlessFirst(first, EncodeAll(recs[1..]) + torn);
  }

  lemma HeadlessFirst(rec: AofRecord, rest: string)
    requires Typed(rec)
    ensures var r := Recover(EncodeRecord(rec) + rest, 0, Undetected);
            r.fate == Corrupt || (r.recs != [] && |r.recs[0].args| > |rec.args|)
  {
    hide ParseArray, Encode, Encodable, Tokens;
    EncodableIff(rec);
    if Encodable(rec) {
      RecordRoundTrip(rec, rest);
      TokensLength(rec);
    } else {
      OverLimitRejected(Tokens(rec), rest);
    }
  }

  lemma TokensLength(rec: AofRecord)
    ensures |Tokens(rec)| == |rec.args| + 5
  {
  }

  // A file that starts with part of a header, or none: recovery returns the completed records, without setting the file
  // aside, exactly when there are none and the bytes that are there ask for more.
  lemma HeadlessIff(lead: string, completed: seq<AofRecord>, torn: string)
    requires lead < HEADER && AllTyped(completed) && Cutoff(torn)
    ensures var file := lead + (EncodeAll(completed) + torn);
            var r := Recover(file, 0, Undetected);
            r.recs == completed && r.fate != Corrupt <==> completed == [] && Asks(file)
  {
    hide Recover, EncodeAll, Typed, ParseArray;
    var file := lead + (EncodeAll(completed) + torn);
    if completed == [] {
      NoRecord();
      assert file == lead + torn;
      NothingSkipped(lead, torn);
      NoneIff(file);
    } else if lead == [] {
      HeadlessMisread(completed, torn);
      assert file == EncodeAll(completed) + torn;
    } else {
      SomeAfterPart(file, lead, completed, torn);
    }
  }

  lemma NothingSkipped(lead: string, torn: string)
    requires lead < HEADER && Cutoff(torn)
    ensures ParseArray(lead + torn).Complete? ==> !Read(Undetected, ParseArray(lead + torn).args).Skip?
  {
    hide ParseArray, EncodeRecord, Read;
    var file := lead + torn;
    if lead == [] {
      assert file == torn;
      if torn != [] { CutoffShape(torn); } else { EmptyNeedsMore(); }
    } else if torn == [] {
      assert file == lead == HEADER[..|lead|];
      HeaderParses([]);
      assert HEADER + [] == HEADER;
      CutNeedsMore(HEADER, |lead|);
    } else {
      CutoffShape(torn);
      assert file[|lead|] == '*' && file[..|lead|] == lead == HEADER[..|lead|];
      if ParseArray(file).Complete? { NeverHeader(file, |lead|); }
    }
  }

  lemma NoneIff(file: string)
    requires ParseArray(file).Complete? ==> !Read(Undetected, ParseArray(file).args).Skip?
    ensures var r := Recover(file, 0, Undetected);
            r.recs == [] && r.fate != Corrupt <==> Asks(file)
  {
    hide ParseArray, Read;
    if file == [] { EmptyNeedsMore(); }
  }

  lemma SomeAfterPart(file: string, lead: string, completed: seq<AofRecord>, torn: string)
    requires [] < lead < HEADER && completed != [] && file == lead + (EncodeAll(completed) + torn)
    ensures var r := Recover(file, 0, Undetected);
            r.recs != completed || r.fate == Corrupt
  {
    hide ParseArray, EncodeAll, EncodeRecord, Read;
    var first := completed[0];
    EncodeAllFirst(first, completed[1..]);
    assert [first] + completed[1..] == completed;
    RecordHead(first);
    Regroup(EncodeRecord(first), EncodeAll(completed[1..]), torn);
    assert file[|lead|..] == EncodeRecord(first) + (EncodeAll(completed[1..]) + torn);
    assert file[|lead|] == '*' && file[..|lead|] == lead == HEADER[..|lead|];
    if ParseArray(file).Complete? {
      NeverHeader(file, |lead|);
      var reading := Read(Undetected, ParseArray(file).args);
      if reading.Replay? && reading.rec == first {
        ReadAsItself(file, |lead|, first);
      }
    }
  }
}
