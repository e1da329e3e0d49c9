/** Older log formats, and what recovery refuses. */
module Formats {
  import opened Decimal
  import opened Resp
  import opened AofCodec
  import opened Recovery

  function Arrays(lists: seq<seq<string>>): string {
    if lists == [] then [] else Encode(lists[0]) + Arrays(lists[1..])
  }

  // Version 1 arrays are commands of the default room; in version 2 the room comes first. Neither has a version or a
  // deadline of its own.
  function OldRecord(t: seq<string>, rooms: bool): AofRecord
    requires rooms ==> t != []
  {
    if rooms then AofRecord(t[0], t[1..], 0, 0, 1) else AofRecord("default", t, 0, 0, 1)
  }

  function OldRecords(lists: seq<seq<string>>, rooms: bool): seq<AofRecord>
    requires rooms ==> [] !in lists
  {
    if lists == [] then [] else [OldRecord(lists[0], rooms)] + OldRecords(lists[1..], rooms)
  }

  predicate AllWithin(lists: seq<seq<string>>) {
    forall i :: 0 <= i < |lists| ==> InLimit(lists[i])
  }

  // The first array tells the formats apart: the second token is a write command exactly when rooms come first.
  predicate NamesRooms(first: seq<string>) {
    |first| >= 2 && first[1] in ["SET", "DEL", "CRDTMERGE"]
  }

  lemma {:induction false} OldRest(lists: seq<seq<string>>, at: nat, rooms: bool)
    requires AllWithin(lists) && (rooms ==> [] !in lists)
    ensures Recover(Arrays(lists), at, if rooms then V2 else V1) == Recovered(OldRecords(lists, rooms), Intact)
    decreases |lists|
  {
    hide ParseArray, Encode, InLimit;
    if lists == [] {
      EmptyNeedsMore();
    } else {
      RoundTrip(lists[0], Arrays(lists[1..]));
      assert Arrays(lists)[|Encode(lists[0])|..] == Arrays(lists[1..]);
      OldRest(lists[1..], at + |Encode(lists[0])|, rooms);
    }
  }

  // A file of an older format is replayed whole, in the format that its first array has.
  lemma OldLogRead(lists: seq<seq<string>>)
    requires AllWithin(lists) && lists != [] && !(|lists[0]| == 2 && lists[0][0] == "SOMNIUM-AOF")
    requires NamesRooms(lists[0]) ==> [] !in lists
    ensures Recover(Arrays(lists), 0, Undetected) == Recovered(OldRecords(lists, NamesRooms(lists[0])), Intact)
  {
    hide ParseArray, Encode, InLimit;
    RoundTrip(lists[0], Arrays(lists[1..]));
    assert Arrays(lists)[|Encode(lists[0])|..] == Arrays(lists[1..]);
    OldRest(lists[1..], |Encode(lists[0])|, NamesRooms(lists[0]));
  }

  // A header of any other version is refused, and so is, after the header, an array whose last tokens are not the meta
  // token, a signed deadline, and an unsigned version and 32-bit node.
  lemma OtherVersionRefused(version: string, rest: string)
    requires InLimit([MAGIC, version]) && (ParseU64(version).Some? ==> ParseU64(version).value != 3)
    ensures Recover(Encode([MAGIC, version]) + rest, 0, Undetected) == Recovered([], Corrupt)
  {
    hide ParseArray, Encode, ParseU64;
    RoundTrip([MAGIC, version], rest);
  }

  ghost predicate Marked(t: seq<string>) {
    var n := |t|;
    && n >= 5 && t[n - 4] == "SOMNIUM-META" && ParseI64(t[n - 3]).Some? && ParseU64(t[n - 2]).Some?
    && ParseU64(t[n - 1]).Some? && ParseU64(t[n - 1]).value <= 0xffff_ffff
  }

  ghost function MarkedRecord(t: seq<string>): AofRecord
    requires Marked(t)
  {
    var n := |t|;
    AofRecord(t[0], t[1..n - 4], ParseI64(t[n - 3]).value, ParseU64(t[n - 2]).value, ParseU64(t[n - 1]).value)
  }

  // After the header an array is a record exactly when it is so marked; its fields stand in this order.
  lemma RecordIff(t: seq<string>, rest: string)
    requires InLimit(t)
    ensures var r := Recover(HEADER + (Encode(t) + rest), 0, Undetected);
            if Marked(t) then r.recs != [] && r.recs[0] == MarkedRecord(t) else r == Recovered([], Corrupt)
  {
    hide ParseArray, Encode, ParseU64, ParseI64, InLimit;
    RecoverHeader(Encode(t) + rest);
    RoundTrip(t, rest);
  }
}
