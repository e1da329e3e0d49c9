/** Fixed-width little-endian integers, as they are copied to and from memory. */
module ByteCodec {
  import opened Ints

  function Pow256(width: nat): (p: nat)
    ensures p > 0
  {
    if width == 0 then 1 else 256 * Pow256(width - 1)
  }

  function Le(n: nat, width: nat): (s: string)
    ensures |s| == width
  {
    if width == 0 then [] else [(n % 256) as char] + Le(n / 256, width - 1)
  }

  function FromLe(s: string): nat {
    if s == [] then 0 else s[0] as nat + 256 * FromLe(s[1..])
  }

  lemma {:induction false} LeRoundTrip(n: nat, width: nat)
    requires n < Pow256(width)
    ensures FromLe(Le(n, width)) == n
  {
    if width > 0 {
      LeRoundTrip(n / 256, width - 1);
      assert Le(n, width)[1..] == Le(n / 256, width - 1);
    }
  }

  lemma Widths()
    ensures Pow256(4) == U32_SIZE && Pow256(8) == U64_SIZE
  {
    assert Pow256(2) == 0x1_0000;
    assert Pow256(4) == U32_SIZE;
    assert Pow256(6) == 0x1_0000_0000_0000;
  }

  // Two's complement.
  function Unsigned(n: int): (u: nat)
    requires 0 - I64_SIZE <= n < I64_SIZE
    ensures u < U64_SIZE
  {
    if n < 0 then n + U64_SIZE else n
  }

  function Signed(u: nat): int {
    if u >= I64_SIZE then u - U64_SIZE else u
  }

  function U32(n: nat): string {
    Le(n, 4)
  }

  function U64(n: nat): string {
    Le(n, 8)
  }

  function I64(n: int): string
    requires 0 - I64_SIZE <= n < I64_SIZE
  {
    U64(Unsigned(n))
  }

  lemma U32RoundTrip(n: nat)
    requires n < U32_SIZE
    ensures |U32(n)| == 4 && FromLe(U32(n)) == n
  {
    hide Pow256, Le, FromLe;
    Widths();
    LeRoundTrip(n, 4);
  }

  lemma U64RoundTrip(n: nat)
    requires n < U64_SIZE
    ensures |U64(n)| == 8 && FromLe(U64(n)) == n
  {
    hide Pow256, Le, FromLe;
    Widths();
    LeRoundTrip(n, 8);
  }

  lemma I64RoundTrip(n: int)
    requires 0 - I64_SIZE <= n < I64_SIZE
    ensures |I64(n)| == 8 && Signed(FromLe(I64(n))) == n
  {
    hide Le, FromLe;
    U64RoundTrip(Unsigned(n));
  }

  // Byte i is digit i in base 256, the least significant first.
  lemma {:induction false} LeByte(n: nat, width: nat, i: nat)
    requires i < width
    ensures Le(n, width)[i] as nat == (n / Pow256(i)) % 256
  {
    if i > 0 {
      LeByte(n / 256, width - 1, i - 1);
      DivDiv(n, Pow256(i - 1));
    }
  }

  lemma DivDiv(n: nat, p: nat)
    requires p > 0
    ensures (n / 256) / p == n / (256 * p)
  {
    var q, r := n / (256 * p), n % (256 * p);
    assert n == 256 * (p * q) + r;
    assert n / 256 == p * q + r / 256 && 0 <= r / 256 < p;
    assert (p * q + r / 256) / p == q by { Quotient(p, q, r / 256); }
  }

  lemma Quotient(p: nat, q: nat, r: nat)
    requires r < p
    ensures (p * q + r) / p == q
  {
    var d, m := (p * q + r) / p, (p * q + r) % p;
    assert p * (d - q) == r - m;
    if d > q { AtLeast(p, d - q); }
    if d < q { AtLeast(p, q - d); }
  }

  lemma AtLeast(p: nat, k: nat)
    requires k > 0
    ensures p * k >= p
  {
  }
}
