/** Bit strings. The compressed stream packs numbers least significant bit first, and Huffman
    code words most significant bit first (section 3.1.1 of RFC 1951). */
module Bits {
  import opened Sums
  import opened Arith

  // The low n bits of v, least significant first.
  function LsbBits(v: nat, n: nat): (r: seq<bool>)
    ensures |r| == n
  {
    if n == 0 then [] else [v % 2 == 1] + LsbBits(v / 2, n - 1)
  }

  // The low n bits of v, most significant first.
  function MsbBits(v: nat, n: nat): (r: seq<bool>)
    ensures |r| == n
  {
    if n == 0 then [] else MsbBits(v / 2, n - 1) + [v % 2 == 1]
  }

  // The number whose bits, least significant first, are s.
  function Value(s: seq<bool>): (v: nat)
    ensures v < Pow2(|s|)
  {
    if s == [] then 0 else (if s[0] then 1 else 0) + 2 * Value(s[1..])
  }

  lemma {:induction false} ValueOfBits(v: nat, n: nat)
    requires v < Pow2(n)
    ensures Value(LsbBits(v, n)) == v
  {
    if n > 0 {
      ValueOfBits(v / 2, n - 1);
      assert LsbBits(v, n)[1..] == LsbBits(v / 2, n - 1);
    }
  }

  lemma {:induction false} BitsOfValue(s: seq<bool>)
    ensures LsbBits(Value(s), |s|) == s
  {
    if s != [] {
      BitsOfValue(s[1..]);
      assert Value(s) / 2 == Value(s[1..]);
    }
  }

  lemma {:induction false} LsbConcat(a: nat, m: nat, b: nat, n: nat)
    requires a < Pow2(m)
    ensures LsbBits(a + Pow2(m) * b, m + n) == LsbBits(a, m) + LsbBits(b, n)
  {
    if m > 0 {
      var c := a + Pow2(m) * b;
      assert c == a + 2 * (Pow2(m - 1) * b);
      assert c / 2 == a / 2 + Pow2(m - 1) * b && c % 2 == a % 2;
      LsbConcat(a / 2, m - 1, b, n);
    } else {
      assert Pow2(0) * b == b;
    }
  }

  lemma {:induction false} ValueConcat(s: seq<bool>, t: seq<bool>)
    ensures Value(s + t) == Value(s) + Pow2(|s|) * Value(t)
  {
    if s == [] {
      assert s + t == t;
    } else {
      ValueConcat(s[1..], t);
      assert (s + t)[1..] == s[1..] + t;
      assert |s[1..]| == |s| - 1;
      Double(Pow2(|s| - 1), Value(t));
    }
  }

  // The first m of n bits are the bits of the low part.
  lemma {:induction false} LsbPrefix(v: nat, m: nat, n: nat)
    requires m <= n
    ensures LsbBits(v, n)[..m] == LsbBits(v, m)
  {
    if m > 0 {
      LsbPrefix(v / 2, m - 1, n - 1);
      assert LsbBits(v, n)[..m] == [v % 2 == 1] + LsbBits(v / 2, n - 1)[..m - 1];
    }
  }

  // The remaining bits are those of the high part.
  lemma {:induction false} LsbSuffix(v: nat, m: nat, n: nat)
    requires m <= n
    ensures LsbBits(v, n)[m..] == LsbBits(v / Pow2(m), n - m)
  {
    if m > 0 {
      LsbSuffix(v / 2, m - 1, n - 1);
      assert LsbBits(v, n)[m..] == LsbBits(v / 2, n - 1)[m - 1..];
      DivTwice(v, Pow2(m - 1));
    }
  }

  // Only the low n bits matter.
  lemma {:induction false} LsbModulo(v: nat, n: nat)
    ensures LsbBits(v % Pow2(n), n) == LsbBits(v, n)
  {
    if n > 0 {
      LsbModulo(v / 2, n - 1);
      ModHalf(v, Pow2(n - 1));
    }
  }

  // Dropping the last k bits of a code word halves its number k times.
  lemma {:induction false} MsbPrefix(v: nat, n: nat, k: nat)
    requires k <= n
    ensures MsbBits(v, n)[..k] == MsbBits(v / Pow2(n - k), k)
  {
    if k < n {
      MsbPrefix(v / 2, n - 1, k);
      assert MsbBits(v, n)[..k] == MsbBits(v / 2, n - 1)[..k];
      DivTwice(v, Pow2(n - k - 1));
    }
  }

  lemma {:induction false} MsbInjective(u: nat, v: nat, n: nat)
    requires u < Pow2(n) && v < Pow2(n) && MsbBits(u, n) == MsbBits(v, n)
    ensures u == v
  {
    if n > 0 {
      assert MsbBits(u, n)[..n - 1] == MsbBits(u / 2, n - 1);
      assert MsbBits(v, n)[..n - 1] == MsbBits(v / 2, n - 1);
      assert MsbBits(u, n)[n - 1] == (u % 2 == 1) && MsbBits(v, n)[n - 1] == (v % 2 == 1);
      MsbInjective(u / 2, v / 2, n - 1);
    }
  }

  // The last bit of the code becomes the first bit of its reversal.
  lemma MoveBit(rest: nat, l: nat, rev: nat, k: nat)
    requires l > 0
    ensures MsbBits(rest, l) + LsbBits(rev, k) == MsbBits(rest / 2, l - 1) + LsbBits(2 * rev + rest % 2, k + 1)
  {
    var b := [rest % 2 == 1];
    assert MsbBits(rest, l) == MsbBits(rest / 2, l - 1) + b;
    assert LsbBits(2 * rev + rest % 2, k + 1) == b + LsbBits(rev, k);
  }

  // The reversal loop: the stream order of a code word is the low-first order of its reversal.
  method ReverseBits(code: nat, size: nat) returns (rev: nat)
    requires code < Pow2(size)
    ensures rev < Pow2(size)
    ensures LsbBits(rev, size) == MsbBits(code, size)
  {
    rev := 0;
    var rest, l := code, size;
    while l > 0
      invariant 0 <= l <= size
      invariant rev < Pow2(size - l)
      invariant MsbBits(code, size) == MsbBits(rest, l) + LsbBits(rev, size - l)
    {
      MoveBit(rest, l, rev, size - l);
      rev := 2 * rev + rest % 2;
      rest := rest / 2;
      l := l - 1;
    }
  }
}
