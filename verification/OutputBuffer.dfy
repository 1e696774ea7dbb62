/** Where the decompressor puts its output: a fixed buffer that it may only fill, or a circular one that is
    handed to a callback each time it is full and then written over from the start. A circular buffer of
    n bytes goes on holding the last n bytes of everything put out. */
module OutputBuffer {
  import opened Arith
  import opened Sums
  import opened Lz77

  // Whether a size can serve as a mask plus one.
  predicate IsPowerOfTwo(n: nat) {
    n == 1 || (n > 0 && n % 2 == 0 && IsPowerOfTwo(n / 2))
  }

  lemma {:induction false} PowerIsOne(k: nat)
    ensures IsPowerOfTwo(Pow2(k))
  {
    if k > 0 {
      PowerIsOne(k - 1);
    }
  }

  // The sizes let through are just the powers of two.
  lemma {:induction false} PowersOfTwo(n: nat)
    ensures IsPowerOfTwo(n) <==> exists k: nat :: n == Pow2(k)
  {
    if IsPowerOfTwo(n) {
      if n == 1 {
        assert n == Pow2(0);
      } else {
        PowersOfTwo(n / 2);
        var k: nat :| n / 2 == Pow2(k);
        assert n == Pow2(k + 1);
      }
    }
    forall k: nat | n == Pow2(k) ensures IsPowerOfTwo(n) {
      PowerIsOne(k);
    }
  }

  // Positions one buffer apart have one remainder, and stepping keeps that.
  lemma ModuloKept(a: int, b: int, n: nat)
    requires n > 0 && a % n == b % n
    ensures (a + 1) % n == (b + 1) % n && a % n == (b - n) % n
  {
    var q, p := a / n, b / n;
    assert a == n * q + a % n && b == n * p + a % n;
    if a % n + 1 < n {
      DivUnique(a + 1, n, q, a % n + 1);
      DivUnique(b + 1, n, p, a % n + 1);
    } else {
      assert n * (q + 1) == n * q + n && n * (p + 1) == n * p + n;
      DivUnique(a + 1, n, q + 1, 0);
      DivUnique(b + 1, n, p + 1, 0);
    }
    assert n * (p - 1) == n * p - n;
    DivUnique(b - n, n, p - 1, a % n);
  }

  // A position at most one buffer below or above the buffer's start.
  lemma ModuloNear(a: int, n: nat)
    requires n > 0 && 0 <= a + n && a < n
    ensures a % n == if a < 0 then a + n else a
  {
    DivUnique(a, n, if a < 0 then -1 else 0, if a < 0 then a + n else a);
  }

  // One buffer handed over is one that can no longer be.
  lemma OneLess(n: nat, left: nat)
    requires left >= 1
    ensures n + n * (1 + (left - 1)) == n * (1 + left) && n <= n * left
  {
    MulMono(n, 1, left);
  }

  class Output {
    const buf: array<byte>
    const wraps: bool
    var pos: nat
    // What the callback has been given, and how many more times it will accept a buffer.
    var sent: seq<byte>
    var left: nat

    ghost predicate Valid()
      reads this, buf
    {
      && pos <= buf.Length
      && (if wraps then buf.Length > 0 else sent == [] && left == 0)
      && (sent != [] ==> |sent| >= buf.Length && buf[pos..] == sent[|sent| - (buf.Length - pos)..])
    }

    // Everything put out so far.
    ghost function All(): (r: seq<byte>)
      reads this, buf
      requires Valid()
      ensures |r| == |sent| + pos
    {
      sent + buf[..pos]
    }

    // How much can be put out in all.
    ghost function Capacity(): (r: nat)
      reads `sent, `left
    {
      |sent| + buf.Length * (1 + left)
    }

    // A buffer in which every legal distance can be followed.
    ghost predicate Wide() {
      wraps ==> buf.Length >= LZ_DICT_SIZE
    }

    constructor Fixed(out: array<byte>)
      ensures Valid() && All() == [] && buf == out && !wraps && Capacity() == out.Length && pos == 0
    {
      buf, wraps, pos, sent, left := out, false, 0, [], 0;
    }

    constructor Circular(out: array<byte>, accepted: nat)
      requires out.Length > 0
      ensures Valid() && All() == [] && buf == out && wraps && Capacity() == out.Length * (1 + accepted)
      ensures pos == 0 && sent == [] && left == accepted
    {
      buf, wraps, pos, sent, left := out, true, 0, [], accepted;
    }

    lemma Within()
      requires Valid()
      ensures |All()| + (buf.Length - pos) + buf.Length * left == Capacity()
      ensures pos <= buf.Length && |All()| + (buf.Length - pos) <= Capacity() && (wraps ==> buf.Length > 0)
    {}

    static lemma HandedOver(sent: seq<byte>, s: seq<byte>)
      ensures (sent + s)[|sent|..] == s[0..] == s[..|s|] == s && sent + s + s[..0] == sent + s
    {}

    // Room for one more byte: when the buffer is full, a circular one is handed over and begun again.
    method MakeRoom() returns (ok: bool)
      requires Valid()
      modifies `pos, `sent, `left
      ensures Valid() && All() == old(All()) && Capacity() == old(Capacity())
      ensures ok <==> |All()| < Capacity()
      ensures ok ==> pos < buf.Length && (pos == old(pos) || (wraps && pos == 0 && old(pos) == buf.Length))
    {
      Within();
      if pos < buf.Length {
        return true;
      }
      if !wraps || left == 0 {
        return false;
      }
      OneLess(buf.Length, left);
      HandedOver(sent, buf[..]);
      sent := sent + buf[..];
      left := left - 1;
      pos := 0;
      ok := true;
    }

    // Stores one byte.
    method Put(b: byte)
      requires Valid() && pos < buf.Length
      modifies `pos, buf
      ensures Valid() && All() == old(All()) + [b] && pos == old(pos) + 1
    {
      ghost var before := buf[..];
      buf[pos] := b;
      assert buf[..pos + 1] == before[..pos] + [b];
      assert buf[pos + 1..] == before[pos..][1..];
      pos := pos + 1;
    }

    // Stores n bytes at once.
    method PutRun(input: seq<byte>, from: nat, n: nat)
      requires Valid() && pos + n <= buf.Length && from + n <= |input|
      modifies `pos, buf
      ensures Valid() && All() == old(All()) + input[from..from + n] && pos == old(pos) + n
    {
      ghost var before := buf[..];
      forall i | 0 <= i < n {
        buf[pos + i] := input[from + i];
      }
      assert buf[..pos + n] == before[..pos] + input[from..from + n];
      assert buf[pos + n..] == before[pos..][n..];
      pos := pos + n;
    }

    // The place in the buffer that is dist before a place in the output.
    function Source(from: nat, dist: nat): (r: nat)
      requires if wraps then buf.Length > 0 else dist <= from
      ensures wraps ==> r < buf.Length
    {
      if wraps then (from - dist) % buf.Length else from - dist
    }

    // A place that is dist before the next byte, on this lap or on the one before.
    ghost predicate Before(src: nat, dist: nat)
      reads this
    {
      src + dist == pos || (wraps && src + dist == pos + buf.Length && dist <= buf.Length)
    }

    // Whether dist can be followed from here.
    ghost predicate Legal(dist: nat)
      reads this, buf
      requires Valid()
    {
      1 <= dist <= |All()| && (wraps ==> dist <= buf.Length)
    }

    lemma SourceIsBefore(from: nat, dist: nat)
      requires Valid() && Legal(dist) && (wraps || dist <= from)
      requires if wraps then (from - dist) % buf.Length == (pos - dist) % buf.Length else from == pos
      ensures Before(Source(from, dist), dist)
    {
      if wraps {
        ModuloNear(pos - dist, buf.Length);
      }
    }

    // The byte there.
    lemma ByteBefore(src: nat, dist: nat)
      requires Valid() && Legal(dist) && Before(src, dist) && src < buf.Length
      ensures buf[src] == All()[|All()| - dist]
    {
      if src + dist != pos {
        assert sent != [] && src >= pos;
        assert buf[src] == buf[pos..][src - pos];
      }
    }
  }
}
