/** Numbers of two and four bytes, least significant first, as archives keep them. */
module LittleEndian {
  import opened Arith
  import opened Lz77

  const TWO_16 := 0x1_0000
  const TWO_32 := 0x1_0000_0000

  function Read16(s: seq<byte>, p: nat): (v: nat)
    requires p + 2 <= |s|
    ensures v < TWO_16
  {
    s[p] as nat + 256 * (s[p + 1] as nat)
  }

  function Read32(s: seq<byte>, p: nat): (v: nat)
    requires p + 4 <= |s|
    ensures v < TWO_32
  {
    Read16(s, p) + TWO_16 * Read16(s, p + 2)
  }

  // Reading takes notice of the bytes read only.
  lemma SameBytes(s: seq<byte>, p: nat, t: seq<byte>, q: nat)
    requires p + 4 <= |s| && q + 4 <= |t| && s[p..p + 4] == t[q..q + 4]
    ensures Read32(s, p) == Read32(t, q) && Read16(s, p) == Read16(t, q)
  {
    var a, b := s[p..p + 4], t[q..q + 4];
    assert a[0] == s[p] && a[1] == s[p + 1] && a[2] == s[p + 2] && a[3] == s[p + 3];
    assert b[0] == t[q] && b[1] == t[q + 1] && b[2] == t[q + 2] && b[3] == t[q + 3];
  }

  // Everything but n bytes at p is as it was.
  twostate predicate OnlyAt(a: array<byte>, p: nat, n: nat)
    reads a
  {
    forall i {:trigger a[i]} :: 0 <= i < a.Length && !(p <= i < p + n) ==> a[i] == old(a[i])
  }

  // A number modulo a product, in two parts.
  lemma TwoParts(v: nat, p: nat, q: nat)
    requires p > 0 && q > 0
    ensures v % p + p * (v / p % q) == v % (p * q)
  {
    var k, r := v / p / q, v / p % q;
    assert v / p == q * k + r;
    assert p * (q * k + r) == (p * q) * k + p * r;
    MulMono(p, r + 1, q);
    DivUnique(v, p * q, k, p * r + v % p);
  }

  method Write16(a: array<byte>, p: nat, v: nat)
    requires p + 2 <= a.Length
    modifies a
    ensures OnlyAt(a, p, 2) && Read16(a[..], p) == v % TWO_16
  {
    TwoParts(v, 256, 256);
    a[p] := v % 256;
    a[p + 1] := v / 256 % 256;
  }

  method Write32(a: array<byte>, p: nat, v: nat)
    requires p + 4 <= a.Length
    modifies a
    ensures OnlyAt(a, p, 4) && Read32(a[..], p) == v % TWO_32
    ensures Read16(a[..], p) == v % TWO_16 && Read16(a[..], p + 2) == v / TWO_16 % TWO_16
  {
    TwoParts(v, TWO_16, TWO_16);
    Write16(a, p, v);
    ghost var low := a[p..p + 2];
    Write16(a, p + 2, v / TWO_16);
    assert a[p] == low[0] && a[p + 1] == low[1];
  }
}
