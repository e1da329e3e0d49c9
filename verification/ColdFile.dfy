/** The cold file: records of evicted keys, found through an exact index. */
module ColdFile {
  import opened Ints
  import opened Hlc
  import opened Node
  import opened ByteCodec
  import opened Sums

  const HEADER_BYTES: nat := 20

  // What the fixed-width fields can hold.
  predicate Storable(r: Record) {
    && 0 - I64_SIZE <= r.expireAt < I64_SIZE
    && r.version.ts < U64_SIZE && r.version.node < U32_SIZE
  }

  predicate AllStorable<K(!new)>(m: map<K, Record>) {
    forall k :: k in m ==> Storable(m[k])
  }

  function EncodeCold(r: Record): (s: string)
    requires Storable(r)
    ensures |s| == HEADER_BYTES + |r.value|
  {
    I64(r.expireAt) + U64(r.version.ts) + U32(r.version.node) + r.value
  }

  function DecodeCold(raw: string): Record
    requires |raw| >= HEADER_BYTES
  {
    Record(raw[20..], Signed(FromLe(raw[..8])), Version(FromLe(raw[8..16]), FromLe(raw[16..20])))
  }

  lemma ColdRoundTrip(r: Record)
    requires Storable(r)
    ensures DecodeCold(EncodeCold(r)) == r
  {
    hide U64, U32, I64, FromLe;
    I64RoundTrip(r.expireAt);
    U64RoundTrip(r.version.ts);
    U32RoundTrip(r.version.node);
    var raw := EncodeCold(r);
    assert raw[..8] == I64(r.expireAt) && raw[8..16] == U64(r.version.ts);
    assert raw[16..20] == U32(r.version.node) && raw[20..] == r.value;
  }

  // The fields are little-endian, the deadline in two's complement, in this order, and the value follows.
  lemma ColdLayout(r: Record, i: nat)
    requires Storable(r) && i < 8
    ensures var s := EncodeCold(r);
            && s[i] as nat == (Unsigned(r.expireAt) / Pow256(i)) % 256
            && s[8 + i] as nat == (r.version.ts / Pow256(i)) % 256
            && (i < 4 ==> s[16 + i] as nat == (r.version.node / Pow256(i)) % 256)
            && s[20..] == r.value
  {
    hide Le, Pow256, Unsigned;
    LeByte(Unsigned(r.expireAt), 8, i);
    LeByte(r.version.ts, 8, i);
    if i < 4 { LeByte(r.version.node, 4, i); }
    var s := EncodeCold(r);
    assert s[..8] == I64(r.expireAt) && s[8..16] == U64(r.version.ts) && s[16..20] == U32(r.version.node);
    assert s[i] == s[..8][i] && s[8 + i] == s[8..16][i] && (i < 4 ==> s[16 + i] == s[16..20][i]);
  }

  // -------- extents --------

  datatype ColdRef = ColdRef(off: nat, len: nat)

  predicate Apart(a: ColdRef, b: ColdRef) {
    a.off + a.len <= b.off || b.off + b.len <= a.off
  }

  function Slice(disk: string, ref: ColdRef): string
    requires ref.off + ref.len <= |disk|
  {
    disk[ref.off..ref.off + ref.len]
  }

  // A write at an offset inside or at the end of the file; bytes beyond it stay.
  function Overlay(disk: string, off: nat, data: string): (d: string)
    requires off <= |disk|
    ensures |d| >= |disk| && off + |data| <= |d|
  {
    disk[..off] + data + (if off + |data| < |disk| then disk[off + |data|..] else [])
  }

  lemma OverlayKeeps(disk: string, off: nat, data: string, ref: ColdRef)
    requires off <= |disk| && ref.off + ref.len <= off
    ensures Slice(Overlay(disk, off, data), ref) == Slice(disk, ref)
  {
  }

  lemma OverlayWrites(disk: string, off: nat, data: string)
    requires off <= |disk|
    ensures Slice(Overlay(disk, off, data), ColdRef(off, |data|)) == data
  {
  }

  function Lens(index: map<Key, ColdRef>): map<Key, nat> {
    map k | k in index :: index[k].len
  }

  // The extent of one key holds its record.
  ghost predicate Stored(disk: string, ref: ColdRef, end: nat, r: Record) {
    ref.off + ref.len <= end <= |disk| && Storable(r) && Slice(disk, ref) == EncodeCold(r)
  }

  ghost predicate AllStored(disk: string, index: map<Key, ColdRef>, end: nat, cold: map<Key, Record>) {
    index.Keys == cold.Keys && end <= |disk| && forall k :: k in index ==> Stored(disk, index[k], end, cold[k])
  }

  ghost predicate AllApart(index: map<Key, ColdRef>) {
    forall j, k :: j in index && k in index && j != k ==> Apart(index[j], index[k])
  }

  // Live extents are inside the file, apart from each other, and every other byte is counted as obsolete.
  ghost predicate ColdHolds(disk: string, index: map<Key, ColdRef>, end: nat, obsolete: nat, cold: map<Key, Record>) {
    AllStored(disk, index, end, cold) && AllApart(index) && end == obsolete + Sum(Lens(index))
  }

  lemma ColdEmpty()
    ensures ColdHolds([], map[], 0, 0, map[])
  {
    assert Lens(map[]) == map[];
  }

  lemma ColdEnd(disk: string, index: map<Key, ColdRef>, end: nat, obsolete: nat, cold: map<Key, Record>)
    requires ColdHolds(disk, index, end, obsolete, cold)
    ensures end <= |disk| && index.Keys == cold.Keys
  {
  }

  // A write of any length past the logical end leaves every record readable.
  lemma ColdTorn(disk: string, index: map<Key, ColdRef>, end: nat, obsolete: nat, cold: map<Key, Record>, part: string)
    requires ColdHolds(disk, index, end, obsolete, cold)
    ensures ColdHolds(Overlay(disk, end, part), index, end, obsolete, cold)
  {
    hide EncodeCold, Storable;
    forall k | k in index
      ensures Stored(Overlay(disk, end, part), index[k], end, cold[k])
    {
      assert Stored(disk, index[k], end, cold[k]);
      OverlayKeeps(disk, end, part, index[k]);
    }
  }

  lemma ColdEvict(disk: string, index: map<Key, ColdRef>, end: nat, obsolete: nat, cold: map<Key, Record>, k: Key,
                  r: Record)
    requires ColdHolds(disk, index, end, obsolete, cold) && k !in index && Storable(r)
    ensures var data := EncodeCold(r);
            ColdHolds(Overlay(disk, end, data), index[k := ColdRef(end, |data|)], end + |data|, obsolete, cold[k := r])
  {
    hide EncodeCold, Overlay, AllStored, AllApart, Storable;
    var data := EncodeCold(r);
    ColdEnd(disk, index, end, obsolete, cold);
    ColdTorn(disk, index, end, obsolete, cold, data);
    OverlayWrites(disk, end, data);
    StoredMore(Overlay(disk, end, data), index, end, cold, k, r);
    ApartMore(disk, index, end, cold, k, |data|);
    assert Lens(index[k := ColdRef(end, |data|)]) == Lens(index)[k := |data|];
    SumAdd(Lens(index), k, |data|);
  }

  // The same when the key still had an extent, which is then neither live nor counted as obsolete.
  lemma ColdReplace(disk: string, index: map<Key, ColdRef>, end: nat, dead: nat, cold: map<Key, Record>, k: Key, r: Record)
    requires ColdHolds(disk, index, end, dead, cold) && Storable(r)
    ensures var data := EncodeCold(r);
            ColdHolds(Overlay(disk, end, data), index[k := ColdRef(end, |data|)], end + |data|,
                      dead + (if k in index then index[k].len else 0), cold[k := r])
  {
    hide ColdHolds, EncodeCold, Overlay, Storable;
    ColdEnd(disk, index, end, dead, cold);
    if k in index {
      ColdTake(disk, index, end, dead, cold, k);
      ColdEvict(disk, index - {k}, end, dead + index[k].len, cold - {k}, k, r);
      var ref := ColdRef(end, |EncodeCold(r)|);
      assert (index - {k})[k := ref] == index[k := ref] && (cold - {k})[k := r] == cold[k := r];
    } else {
      ColdEvict(disk, index, end, dead, cold, k, r);
    }
  }

  lemma StoredMore(disk: string, index: map<Key, ColdRef>, end: nat, cold: map<Key, Record>, k: Key, r: Record)
    requires AllStored(disk, index, end, cold) && Storable(r) && end + |EncodeCold(r)| <= |disk|
    requires Slice(disk, ColdRef(end, |EncodeCold(r)|)) == EncodeCold(r)
    ensures AllStored(disk, index[k := ColdRef(end, |EncodeCold(r)|)], end + |EncodeCold(r)|, cold[k := r])
  {
    hide EncodeCold, Slice, Storable;
    var x := index[k := ColdRef(end, |EncodeCold(r)|)];
    forall j | j in x
      ensures Stored(disk, x[j], end + |EncodeCold(r)|, cold[k := r][j])
    {
      if j != k { assert Stored(disk, index[j], end, cold[j]); }
    }
  }

  lemma ApartMore(disk: string, index: map<Key, ColdRef>, end: nat, cold: map<Key, Record>, k: Key, len: nat)
    requires AllStored(disk, index, end, cold) && AllApart(index)
    ensures AllApart(index[k := ColdRef(end, len)])
  {
    forall j | j in index
      ensures index[j].off + index[j].len <= end
    {
      hide EncodeCold, Storable;
      assert Stored(disk, index[j], end, cold[j]);
    }
    hide AllStored;
  }

  // The bytes of a live extent decode to the record evicted last.
  lemma ColdRead(disk: string, index: map<Key, ColdRef>, end: nat, obsolete: nat, cold: map<Key, Record>, k: Key)
    requires ColdHolds(disk, index, end, obsolete, cold) && k in index
    ensures k in cold && index[k].off + index[k].len <= end <= |disk| && index[k].len >= HEADER_BYTES
    ensures Storable(cold[k]) && Slice(disk, index[k]) == EncodeCold(cold[k])
    ensures DecodeCold(Slice(disk, index[k])) == cold[k]
  {
    hide EncodeCold, DecodeCold, Storable;
    assert Stored(disk, index[k], end, cold[k]);
    ColdRoundTrip(cold[k]);
  }

  lemma ColdTake(disk: string, index: map<Key, ColdRef>, end: nat, obsolete: nat, cold: map<Key, Record>, k: Key)
    requires ColdHolds(disk, index, end, obsolete, cold) && k in index
    ensures ColdHolds(disk, index - {k}, end, obsolete + index[k].len, cold - {k})
  {
    hide AllStored, AllApart;
    StoredFewer(disk, index, end, cold, k);
    SumRemove(Lens(index), k);
    assert Lens(index) - {k} == Lens(index - {k});
  }

  lemma StoredFewer(disk: string, index: map<Key, ColdRef>, end: nat, cold: map<Key, Record>, k: Key)
    requires AllStored(disk, index, end, cold) && AllApart(index)
    ensures AllStored(disk, index - {k}, end, cold - {k}) && AllApart(index - {k})
  {
    hide EncodeCold, Storable;
    forall j | j in index - {k}
      ensures Stored(disk, (index - {k})[j], end, (cold - {k})[j])
    {
      assert Stored(disk, index[j], end, cold[j]);
    }
  }
}
