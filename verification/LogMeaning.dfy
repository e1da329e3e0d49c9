/** What a log record says happened: the reading that replay gives it. */
module LogMeaning {
  import opened Ints
  import opened Hlc
  import opened Node
  import opened Wrappers
  import opened AofCodec
  import opened Decimal

  function UpperChar(c: char): char {
    if 'a' <= c <= 'z' then (c as int - 32) as char else c
  }

  function Upper(s: string): (u: string)
    ensures |u| == |s|
  {
    seq(|s|, i requires 0 <= i < |s| => UpperChar(s[i]))
  }

  predicate IsMerge(args: seq<string>) {
    |args| >= 5 && Upper(args[0]) == "CRDTMERGE"
  }

  predicate IsSet(args: seq<string>) {
    |args| >= 3 && Upper(args[0]) == "SET"
  }

  predicate IsMset(args: seq<string>) {
    |args| >= 1 && Upper(args[0]) == "MSET"
  }

  predicate IsDel(args: seq<string>) {
    (|args| >= 2 && Upper(args[0]) == "DEL") || (|args| >= 4 && Upper(args[0]) == "CRDTDEL")
  }

  // A deadline change of an old log, where the record holds no value.
  predicate IsDeadline(args: seq<string>) {
    |args| >= 2 && (Upper(args[0]) == "EXPIRE" || Upper(args[0]) == "PEXPIRE" || Upper(args[0]) == "PERSIST")
  }

  // The key-value pairs of an MSET, an odd key at the end ignored.
  function Pairs(room: string, args: seq<string>): (ps: seq<(Key, string)>) {
    if |args| == 0 then []
    else seq((|args| - 1) / 2, i requires 0 <= i < (|args| - 1) / 2 => (Key(room, args[2 * i + 1]), args[2 * i + 2]))
  }

  function VersionOf(ts: string, node: string): Option<Version> {
    match (ParseU64(ts), ParseU64(node))
    case (Some(t), Some(n)) => if n <= U32_MAX then Some(Version(Normalize(t), n)) else None
    case _ => None
  }

  // A merge carries its version in its own arguments; every other record in its meta fields.
  function Meaning(rec: AofRecord): Entry {
    var a := rec.args;
    var meta := Version(Normalize(rec.ts), rec.node);
    if IsMerge(a) then
      match VersionOf(a[3], a[4])
      case Some(v) => [Put(Key(rec.room, a[1]), a[2], rec.expireAt, v)]
      case None => []
    else if IsSet(a) then [Put(Key(rec.room, a[1]), a[2], rec.expireAt, meta)]
    else if IsMset(a) then
      var pairs := Pairs(rec.room, a);
      seq(|pairs|, i requires 0 <= i < |pairs| => Put(pairs[i].0, pairs[i].1, rec.expireAt, meta))
    else if IsDel(a) then [Del(Key(rec.room, a[1]), meta)]
    else []
  }
}
