/** What a shipped record does at the peer: exactly what the log says it did here. */
module WireMeaning {
  import opened Hlc
  import opened Node
  import opened Wrappers
  import opened Decimal
  import opened Resp
  import opened AofCodec
  import opened Recovery
  import opened LogMeaning
  import opened Commands
  import opened Wire
  import opened Shipping

  // The write that a received CRDTMERGE or CRDTDEL asks for, if the handlers accept it.
  function Received(n: Node, room: string, args: seq<string>, now: int, maxOffset: nat): Option<Op> {
    if |args| == 0 then None
    else if args[0] == "CRDTMERGE" then MergeOp(n, room, args, now, maxOffset)
    else if args[0] == "CRDTDEL" && |args| == 4 then
      match Admitted(args[2], args[3], now, maxOffset)
      case Some(v) => Some(Del(Key(room, args[1]), v))
      case None => None
    else None
  }

  // A record as the local write commands log it.
  predicate Local(rec: AofRecord, id: nat) {
    && Encodable(rec) && rec.node == id && rec.expireAt >= 0 && Normalize(rec.ts) == rec.ts
    && ((|rec.args| >= 3 && Upper(rec.args[0]) == "SET") || (|rec.args| >= 3 && Upper(rec.args[0]) == "MSET") ||
        (|rec.args| == 2 && Upper(rec.args[0]) == "DEL"))
  }

  lemma VersionSurvives(rec: AofRecord, id: nat)
    requires Local(rec, id)
    ensures VersionOf(ToDec(rec.ts), ToDec(rec.node)) == Some(Version(rec.ts, rec.node))
    ensures ParseI64(ToSigned(rec.expireAt)) == Some(rec.expireAt)
  {
    hide ToDec, ParseU64, ParseI64, ToSigned;
    U64RoundTrip(rec.ts);
    U64RoundTrip(rec.node);
    I64RoundTrip(rec.expireAt);
  }

  lemma LocalIsOwn(rec: AofRecord, id: nat)
    requires Local(rec, id)
    ensures Own(Tokens(rec), id)
  {
    hide ToDec, ParseU64, ToSigned, Upper;
    U64RoundTrip(rec.node);
  }

  lemma TokenPlaces(rec: AofRecord)
    ensures var t := Tokens(rec);
            && |t| == |rec.args| + 5 && t[|t| - 4] == META && t[|t| - 3] == ToSigned(rec.expireAt)
            && t[|t| - 2] == ToDec(rec.ts) && t[|t| - 1] == ToDec(rec.node)
            && (forall i :: 0 <= i < |rec.args| ==> t[i + 1] == rec.args[i])
  {
    hide ToDec, ToSigned;
  }

  // One pair of a local SET or MSET.
  lemma MergeMeansPair(rec: AofRecord, id: nat, n: Node, now: int, maxOffset: nat, key: string, value: string)
    requires Local(rec, id) && PhysicalMs(rec.ts) <= now + maxOffset
    ensures Received(n, rec.room, ["CRDTMERGE", key, value, ToDec(rec.ts), ToDec(rec.node), ToSigned(rec.expireAt)], now,
                     maxOffset) ==
            Some(Put(Key(rec.room, key), value, rec.expireAt, Version(rec.ts, rec.node)))
  {
    hide ToDec, ParseU64, ParseI64, ToSigned, Upper, VersionOf;
    VersionSurvives(rec, id);
  }

  lemma DeleteMeansKey(rec: AofRecord, id: nat, n: Node, now: int, maxOffset: nat, key: string)
    requires Local(rec, id) && PhysicalMs(rec.ts) <= now + maxOffset
    ensures Received(n, rec.room, ["CRDTDEL", key, ToDec(rec.ts), ToDec(rec.node)], now, maxOffset) ==
            Some(Del(Key(rec.room, key), Version(rec.ts, rec.node)))
  {
    hide ToDec, ParseU64, ToSigned, Upper, VersionOf;
    VersionSurvives(rec, id);
  }

  // The commands of a local record, received in its room by a peer whose clock allows its version, are its own
  // mutations, one for one: same keys, values, deadlines and versions.
  lemma ShippedMeansLogged(rec: AofRecord, id: nat, n: Node, now: int, maxOffset: nat, k: nat)
    requires Local(rec, id) && PhysicalMs(rec.ts) <= now + maxOffset
    requires k < |Writes(Tokens(rec), id)|
    ensures |Writes(Tokens(rec), id)| == |Meaning(rec)|
    ensures Received(n, rec.room, Writes(Tokens(rec), id)[k], now, maxOffset) == Some(Meaning(rec)[k])
  {
    hide ToDec, ToSigned, Upper, VersionOf, Own, Received, Encodable, Tokens;
    LocalIsOwn(rec, id);
    TokenPlaces(rec);
    if IsDelete(Tokens(rec)) {
      DeleteMeansKey(rec, id, n, now, maxOffset, rec.args[1]);
    } else {
      MergeMeansPair(rec, id, n, now, maxOffset, rec.args[1 + 2 * k], rec.args[2 + 2 * k]);
    }
  }

  // -------- the log as arrays --------

  function ArraysOf(recs: seq<AofRecord>): seq<seq<string>> {
    [[MAGIC, "3"]] + seq(|recs|, i requires 0 <= i < |recs| => Tokens(recs[i]))
  }

  // The file that appends leave is the encoding of its header and its records' tokens.
  lemma {:induction false} LogIsArrays(recs: seq<AofRecord>)
    requires AllEncodable(recs)
    ensures LogFile(recs) == Bytes(ArraysOf(recs)) && AllInLimit(ArraysOf(recs))
  {
    hide Encode, Tokens, Encodable;
    if recs == [] {
      HeaderEncodes();
      var one := [[MAGIC, "3"]];
      assert ArraysOf(recs) == one && one[..0] == [] && Bytes([]) == [];
      assert Bytes(one) == Encode(one[0]);
      assert HEADER + [] == HEADER;
    } else {
      var init, last := recs[..|recs| - 1], recs[|recs| - 1];
      LogIsArrays(init);
      TokensInLimit(last);
      assert ArraysOf(recs)[..|recs|] == ArraysOf(init);
      Regroup(HEADER, EncodeAll(init), EncodeRecord(last));
      assert forall i :: 0 <= i < |recs| ==> ArraysOf(recs)[i] == ArraysOf(init)[i];
    }
  }
}
