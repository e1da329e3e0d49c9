/** The hybrid logical clock that versions every write, and the version order of last-writer-wins. */
module Hlc {
  import opened Ints

  // Values below this are legacy timestamps in milliseconds.
  const LEGACY_LIMIT: nat := 0x8000_0000_0000

  // A version: an HLC timestamp, ties broken by the writing node.
  datatype Version = Version(ts: nat, node: nat) {
    predicate AtMost(v: Version) {
      ts < v.ts || (ts == v.ts && node <= v.node)
    }

    predicate Below(v: Version) {
      ts < v.ts || (ts == v.ts && node < v.node)
    }
  }

  function MaxVersion(a: Version, b: Version): (m: Version)
    ensures a.AtMost(m) && b.AtMost(m) && (m == a || m == b)
  {
    if a.AtMost(b) then b else a
  }

  function Max(a: int, b: int): int {
    if a < b then b else a
  }

  // Conversion to, and arithmetic in, an unsigned 64-bit integer.
  function Wrap(x: int): (r: nat)
    ensures r <= U64_MAX
  {
    if 0 <= x <= U64_MAX then x else x % U64_SIZE
  }

  // Moves a legacy millisecond timestamp into the 48+16 bit format.
  function Normalize(ts: nat): nat {
    if ts < LEGACY_LIMIT then ts * 0x1_0000 else ts
  }

  function PhysicalMs(ts: nat): nat {
    ts / 0x1_0000
  }

  // The clock value of the next local write.
  function Next(last: nat, now: int, overwritten: nat): nat {
    Max(Wrap(now * 0x1_0000), Max(Wrap(last + 1), Wrap(overwritten + 1)))
  }

  function Observe(last: nat, ts: nat): nat {
    Max(last, ts)
  }

  /** The clock of one node, updated in place by the command thread. */
  class Clock {
    var last: nat

    constructor ()
      ensures last == 0
    {
      last := 0;
    }

    method Issue(now: int, overwritten: nat) returns (ts: nat)
      modifies this
      // the least timestamp that is at or above the wall clock and above both counters, unless one of them wraps
      ensures 0 <= now < 0x1_0000_0000_0000 && old(last) < U64_MAX && overwritten < U64_MAX ==>
                && now * 0x1_0000 <= ts && old(last) < ts && overwritten < ts
                && (ts == now * 0x1_0000 || ts == old(last) + 1 || ts == overwritten + 1)
      ensures ts == last == Next(old(last), now, overwritten)
    {
      var physical := Wrap(now * 0x1_0000);
      var logical := Wrap(last + 1);
      var above := Wrap(overwritten + 1);
      last := physical;
      if last < logical { last := logical; }
      if last < above { last := above; }
      ts := last;
    }

    method See(ts: nat)
      modifies this
      ensures old(last) <= last && ts <= last && (last == old(last) || last == ts)
      ensures last == Observe(old(last), ts)
    {
      if last < ts { last := ts; }
    }
  }

  // An issued version exceeds the clock and the version it overwrites exactly when neither counter wraps.
  lemma NextExceeds(last: nat, now: int, overwritten: nat)
    requires last <= U64_MAX && overwritten <= U64_MAX
    ensures last < Next(last, now, overwritten) && overwritten < Next(last, now, overwritten)
            <==> last < U64_MAX && overwritten < U64_MAX
  {
  }

  // Normalising twice changes nothing exactly for 0 and for values of at least 2^31.
  lemma NormalizeIdempotent(ts: nat)
    ensures Normalize(Normalize(ts)) == Normalize(ts) <==> ts == 0 || ts >= 0x8000_0000
  {
  }

  // With a wall clock past 2^31 ms every issued version is already in HLC format.
  lemma NextIsHlcFormat(last: nat, now: int, overwritten: nat)
    requires 0x8000_0000 <= now < 0x1_0000_0000_0000
    ensures Next(last, now, overwritten) >= LEGACY_LIMIT
    ensures Normalize(Next(last, now, overwritten)) == Next(last, now, overwritten)
  {
  }
}
