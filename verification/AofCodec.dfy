/** Log records as RESP arrays: the version 3 format, and reading the older ones. */
module AofCodec {
  import opened Ints
  import opened Wrappers
  import opened Decimal
  import opened Resp

  const MAGIC := "SOMNIUM-AOF"
  const META := "SOMNIUM-META"
  const HEADER := "*2\r\n$11\r\nSOMNIUM-AOF\r\n$1\r\n3\r\n"
  const VERSION: nat := 3

  // A mutation with its resulting state: absolute deadline and version travel with it.
  datatype AofRecord = AofRecord(room: string, args: seq<string>, expireAt: int, ts: nat, node: nat)

  datatype Fmt = Undetected | V3 | V2 | V1

  function Tokens(rec: AofRecord): seq<string> {
    [rec.room] + rec.args + [META, ToSigned(rec.expireAt), ToDec(rec.ts), ToDec(rec.node)]
  }

  function EncodeRecord(rec: AofRecord): string {
    Encode(Tokens(rec))
  }

  function EncodeAll(recs: seq<AofRecord>): string {
    if recs == [] then [] else EncodeAll(recs[..|recs| - 1]) + EncodeRecord(recs[|recs| - 1])
  }

  predicate IsWriteCmd(c: string) {
    c == "SET" || c == "DEL" || c == "CRDTMERGE"
  }

  function BuildV3(tokens: seq<string>): Option<AofRecord> {
    var n := |tokens|;
    if n < 5 || tokens[n - 4] != META then None
    else
      match (ParseI64(tokens[n - 3]), ParseU64(tokens[n - 2]), ParseU64(tokens[n - 1]))
      case (Some(expireAt), Some(ts), Some(node)) =>
        if node > U32_MAX then None else Some(AofRecord(tokens[0], tokens[1..n - 4], expireAt, ts, node))
      case _ => None
  }

  function BuildRecord(fmt: Fmt, tokens: seq<string>): Option<AofRecord> {
    match fmt
    case V3 => BuildV3(tokens)
    case V2 => if tokens == [] then None else Some(AofRecord(tokens[0], tokens[1..], 0, 0, 1))
    case _ => Some(AofRecord("default", tokens, 0, 0, 1))
  }

  // Every field has its machine width.
  predicate Typed(rec: AofRecord) {
    0 - I64_MAX - 1 <= rec.expireAt <= I64_MAX && rec.ts <= U64_MAX && rec.node <= U32_MAX
  }

  // What fits the format: five tokens are added to the arguments, and every field has its width.
  predicate Encodable(rec: AofRecord) {
    && |rec.args| + 5 <= MAX_ARGS
    && |rec.room| <= MAX_BULK && (forall i :: 0 <= i < |rec.args| ==> |rec.args[i]| <= MAX_BULK)
    && Typed(rec)
  }

  lemma NumbersAreShort(rec: AofRecord)
    requires Typed(rec)
    ensures |ToSigned(rec.expireAt)| <= MAX_BULK && |ToDec(rec.ts)| <= MAX_BULK && |ToDec(rec.node)| <= MAX_BULK
  {
    assert Pow10(20) == 100000000000000000000 by {
      assert Pow10(5) == 100000;
      assert Pow10(10) == 10000000000;
      assert Pow10(15) == 1000000000000000;
    }
    ToDecLength(rec.ts, 20);
    ToDecLength(rec.node, 20);
    ToDecLength(if rec.expireAt < 0 then 0 - rec.expireAt else rec.expireAt, 20);
  }

  lemma TokensInLimit(rec: AofRecord)
    requires Encodable(rec)
    ensures InLimit(Tokens(rec))
  {
    hide ToDec, ToSigned;
    NumbersAreShort(rec);
  }

  // The tokens are within the parser's limits exactly for such records.
  lemma EncodableIff(rec: AofRecord)
    requires Typed(rec)
    ensures InLimit(Tokens(rec)) <==> Encodable(rec)
  {
    hide ToDec, ToSigned;
    NumbersAreShort(rec);
    var t := Tokens(rec);
    assert t[0] == rec.room && forall i :: 0 <= i < |rec.args| ==> t[i + 1] == rec.args[i];
  }

  // A record read back from its tokens is the record written, whatever its deadline's sign.
  lemma BuildRoundTrip(rec: AofRecord)
    requires Encodable(rec)
    ensures BuildRecord(V3, Tokens(rec)) == Some(rec)
  {
    hide ToDec, ToSigned, ParseU64, ParseI64;
    var t := Tokens(rec);
    I64RoundTrip(rec.expireAt);
    U64RoundTrip(rec.ts);
    U64RoundTrip(rec.node);
    assert t[1..|t| - 4] == rec.args;
  }

  // A v3 record survives the file: it parses to its own tokens, ends where it ends, and builds back.
  lemma RecordRoundTrip(rec: AofRecord, rest: string)
    requires Encodable(rec)
    ensures ParseArray(EncodeRecord(rec) + rest) == Complete(|EncodeRecord(rec)|, Tokens(rec))
    ensures BuildRecord(V3, Tokens(rec)) == Some(rec)
  {
    hide ParseArray, Encode, Tokens, BuildRecord;
    TokensInLimit(rec);
    RoundTrip(Tokens(rec), rest);
    BuildRoundTrip(rec);
  }

  lemma SmallNumbers()
    ensures ToDec(1) == "1" && ToDec(2) == "2" && ToDec(3) == "3" && ToDec(11) == "11"
  {
    assert Digit(1) == '1' && Digit(2) == '2' && Digit(3) == '3';
    assert ToDec(11) == ToDec(1) + [Digit(1)];
  }

  lemma MagicBulk()
    ensures EncodeBulk(MAGIC) == "$11\r\nSOMNIUM-AOF\r\n"
  {
    hide ToDec;
    SmallNumbers();
    assert |MAGIC| == 11;
    assert EncodeHeader('$', 11) == "$11\r\n";
  }

  lemma VersionBulk()
    ensures EncodeBulk("3") == "$1\r\n3\r\n"
  {
    hide ToDec;
    SmallNumbers();
    assert EncodeHeader('$', 1) == "$1\r\n";
  }

  lemma HeaderEncodes()
    ensures HEADER == Encode([MAGIC, "3"])
  {
    hide ToDec, EncodeBulk;
    SmallNumbers();
    MagicBulk();
    VersionBulk();
    var args := [MAGIC, "3"];
    assert args[1..] == ["3"] && ["3"][1..] == [];
    assert EncodeBulks(["3"]) == EncodeBulk("3") + EncodeBulks([]);
    assert EncodeBulks(args) == EncodeBulk(MAGIC) + EncodeBulks(["3"]);
    assert EncodeHeader('*', 2) == "*2\r\n";
    assert HEADER == "*2\r\n" + ("$11\r\nSOMNIUM-AOF\r\n" + "$1\r\n3\r\n");
  }

  lemma HeaderParses(rest: string)
    ensures ParseArray(HEADER + rest) == Complete(|HEADER|, [MAGIC, "3"])
  {
    hide ParseArray, Encode;
    HeaderEncodes();
    RoundTrip([MAGIC, "3"], rest);
  }
}
