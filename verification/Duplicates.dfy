/** An MSET that names a key twice: the writer keeps the last value, a peer the first. */
module Duplicates {
  import opened Hlc
  import opened Node
  import opened Wrappers

  function First(pairs: seq<(Key, string)>, k: Key): Option<string> {
    if pairs == [] then None else if pairs[0].0 == k then Some(pairs[0].1) else First(pairs[1..], k)
  }

  function Last(pairs: seq<(Key, string)>, k: Key): Option<string> {
    if pairs == [] then None
    else if pairs[|pairs| - 1].0 == k then Some(pairs[|pairs| - 1].1) else Last(pairs[..|pairs| - 1], k)
  }

  ghost function Receive(n: Node, pairs: seq<(Key, string)>, v: Version, now: int): Node {
    if pairs == [] then n
    else
      var last := pairs[|pairs| - 1];
      Exec(Receive(n, pairs[..|pairs| - 1], v, now), Merge(Put(last.0, last.1, 0, v)), now, true).0
  }

  lemma {:induction false} FirstOfMore(pairs: seq<(Key, string)>, p: (Key, string), k: Key)
    ensures First(pairs + [p], k) == if First(pairs, k).Some? then First(pairs, k) else if p.0 == k then Some(p.1) else None
  {
    if pairs == [] {
      assert ([p])[1..] == [] && pairs + [p] == [p];
    } else {
      assert (pairs + [p])[1..] == pairs[1..] + [p];
      FirstOfMore(pairs[1..], p, k);
    }
  }

  lemma {:induction false} WriterKeepsLast(n: Node, pairs: seq<(Key, string)>, v: Version, now: int, k: Key)
    ensures var w := WriteAll(n, pairs, v, now);
            match Last(pairs, k)
            case Some(x) => k in w.records && w.records[k] == Record(x, 0, v)
            case None => k in w.records <==> k in n.records
  {
    if pairs != [] { WriterKeepsLast(n, pairs[..|pairs| - 1], v, now, k); }
  }

  // A peer that holds nothing as new takes the first value of each key and ignores the later ones.
  lemma {:induction false} PeerKeepsFirst(n: Node, pairs: seq<(Key, string)>, v: Version, now: int, k: Key)
    requires !Stale(n, k, v, now)
    ensures var m := Receive(n, pairs, v, now);
            match First(pairs, k)
            case Some(x) => k in m.records && m.records[k] == Record(x, 0, v)
            case None => Find(m, k, now) == Find(n, k, now) && !Stale(m, k, v, now)
  {
    if pairs != [] {
      var init, last := pairs[..|pairs| - 1], pairs[|pairs| - 1];
      assert pairs == init + [last];
      FirstOfMore(init, last, k);
      PeerKeepsFirst(n, init, v, now, k);
      ReceiveOne(Receive(n, init, v, now), last, v, now, k);
    }
  }

  lemma ReceiveOne(m: Node, p: (Key, string), v: Version, now: int, k: Key)
    ensures var after := Exec(m, Merge(Put(p.0, p.1, 0, v)), now, true).0;
            && (p.0 == k && !Stale(m, k, v, now) ==> k in after.records && after.records[k] == Record(p.1, 0, v))
            && (p.0 != k || Stale(m, k, v, now) ==>
                  Find(after, k, now) == Find(m, k, now) && (Stale(after, k, v, now) <==> Stale(m, k, v, now)))
            && (k in m.records && m.records[k].version == v && !m.records[k].Expired(now) ==>
                  k in after.records && after.records[k] == m.records[k])
  {
  }

  // Writer and peer agree on a key exactly when its first and last values are the same.
  lemma AgreeIff(writer: Node, peer: Node, pairs: seq<(Key, string)>, v: Version, now: int, k: Key)
    requires !Stale(peer, k, v, now) && First(pairs, k).Some?
    ensures Find(WriteAll(writer, pairs, v, now), k, now) == Find(Receive(peer, pairs, v, now), k, now)
            <==> First(pairs, k) == Last(pairs, k)
  {
    FirstLast(pairs, k);
    WriterKeepsLast(writer, pairs, v, now, k);
    PeerKeepsFirst(peer, pairs, v, now, k);
  }

  lemma {:induction false} FirstLast(pairs: seq<(Key, string)>, k: Key)
    ensures First(pairs, k).Some? <==> Last(pairs, k).Some?
  {
    if pairs != [] {
      var init, last := pairs[..|pairs| - 1], pairs[|pairs| - 1];
      assert pairs == init + [last];
      FirstOfMore(init, last, k);
      FirstLast(init, k);
    }
  }

  // MSET k a k b leaves b here and a at the peer, with the same version: nothing repairs it.
  lemma DuplicateKeysDiverge(k: Key, writer: Node, peer: Node, v: Version, now: int)
    requires !Stale(peer, k, v, now)
    ensures var pairs := [(k, "a"), (k, "b")];
            Find(WriteAll(writer, pairs, v, now), k, now) == Some(Record("b", 0, v)) &&
            Find(Receive(peer, pairs, v, now), k, now) == Some(Record("a", 0, v))
  {
    var pairs := [(k, "a"), (k, "b")];
    WriterKeepsLast(writer, pairs, v, now, k);
    PeerKeepsFirst(peer, pairs, v, now, k);
  }
}
