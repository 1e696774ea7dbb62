/** The compressor's bit output: whole bytes go to a bounded buffer, the bits of an unfinished byte
    stay in an accumulator. Bytes past the end of the buffer are dropped; a position short of the
    end afterwards means that none were. */
module BitOutput {
  import opened Sums
  import opened Arith
  import opened Bits
  import opened Lz77

  // The bits of a byte string, least significant first.
  function BytesBits(s: seq<byte>): (r: seq<bool>)
    ensures |r| == 8 * |s|
  {
    if s == [] then [] else BytesBits(s[..|s| - 1]) + LsbBits(s[|s| - 1], 8)
  }

  lemma BytesBitsSnoc(s: seq<byte>, b: byte)
    ensures BytesBits(s + [b]) == BytesBits(s) + LsbBits(b, 8)
  {
    assert (s + [b])[..|s|] == s;
  }

  lemma {:induction false} BytesBitsConcat(s: seq<byte>, t: seq<byte>)
    ensures BytesBits(s + t) == BytesBits(s) + BytesBits(t)
    decreases |t|
  {
    hide LsbBits;
    if t == [] {
      assert s + t == s;
    } else {
      var t' := t[..|t| - 1];
      BytesBitsConcat(s, t');
      BytesBitsSnoc(s + t', t[|t| - 1]);
      assert s + t == (s + t') + [t[|t| - 1]];
      Assoc(BytesBits(s), BytesBits(t'), LsbBits(t[|t| - 1], 8));
    }
  }

  lemma OneByte(v: nat, b: byte)
    requires b == v % 256
    ensures BytesBits([b]) == LsbBits(v, 8) && Pow2(8 * 1) == 256
  {
    Pow2Table();
    LsbModulo(v, 8);
    BytesBitsSnoc([], b);
  }

  lemma HighPart(v: nat, n: nat)
    requires n >= 8 && v < Pow2(n)
    ensures v / 256 < Pow2(n - 8)
  {
    Pow2Add(8, n - 8);
    Pow2Table();
    DivBelow(Pow2(n - 8), v, 256);
  }

  // Putting n bits above m bits.
  lemma PutAbove(low: nat, m: nat, b: nat, n: nat)
    requires low < Pow2(m) && b < Pow2(n)
    ensures low + Pow2(m) * b < Pow2(m + n)
    ensures LsbBits(low + Pow2(m) * b, m + n) == LsbBits(low, m) + LsbBits(b, n)
  {
    LsbConcat(low, m, b, n);
    Pow2Add(m, n);
    MulMono(Pow2(m), b + 1, Pow2(n));
    assert Pow2(m) * (b + 1) == Pow2(m) * b + Pow2(m);
  }

  lemma Assoc(a: seq<bool>, b: seq<bool>, c: seq<bool>)
    ensures (a + b) + c == a + (b + c)
  {}

  // Bytes already stored and the bits of an accumulator make up the bits e.
  ghost predicate Carried(s: seq<byte>, bitBuffer: nat, bitsIn: nat, e: seq<bool>) {
    bitBuffer < Pow2(bitsIn) && e == BytesBits(s) + LsbBits(bitBuffer, bitsIn)
  }

  lemma CarriedLength(s: seq<byte>, bitBuffer: nat, bitsIn: nat, e: seq<bool>)
    requires Carried(s, bitBuffer, bitsIn, e)
    ensures |e| == 8 * |s| + bitsIn
  {}

  lemma PutCarries(s: seq<byte>, bitBuffer: nat, bitsIn: nat, e: seq<bool>, b: nat, l: nat)
    requires Carried(s, bitBuffer, bitsIn, e) && b < Pow2(l)
    ensures Carried(s, bitBuffer + Pow2(bitsIn) * b, bitsIn + l, e + LsbBits(b, l))
  {
    hide LsbBits, BytesBits, Pow2;
    PutAbove(bitBuffer, bitsIn, b, l);
    Assoc(BytesBits(s), LsbBits(bitBuffer, bitsIn), LsbBits(b, l));
  }

  // Moving n whole bytes of the accumulator behind the stored ones.
  lemma StoreCarries(s: seq<byte>, stored: seq<byte>, bitBuffer: nat, bitsIn: nat, e: seq<bool>, n: nat)
    requires Carried(s, bitBuffer, bitsIn, e) && 8 * n <= bitsIn && BytesBits(stored) == LsbBits(bitBuffer, 8 * n)
    ensures Carried(s + stored, bitBuffer / Pow2(8 * n), bitsIn - 8 * n, e)
  {
    hide LsbBits, BytesBits, Pow2;
    var m := 8 * n;
    BytesBitsConcat(s, stored);
    LsbPrefix(bitBuffer, m, bitsIn);
    LsbSuffix(bitBuffer, m, bitsIn);
    Pow2Add(m, bitsIn - m);
    DivBelow(Pow2(bitsIn - m), bitBuffer, Pow2(m));
    var bits := LsbBits(bitBuffer, bitsIn);
    assert bits == bits[..m] + bits[m..];
    Assoc(BytesBits(s), bits[..m], bits[m..]);
  }

  // The first n bytes from pos on carry the low 8n bits of v.
  ghost predicate Carries(s: seq<byte>, pos: nat, v: nat, n: nat) {
    pos + n <= |s| && BytesBits(s[pos..pos + n]) == LsbBits(v, 8 * n)
  }

  // The first n of a word's eight little-endian bytes carry its low 8n bits.
  method StoreWord(buf: array<byte>, pos: nat, v: nat)
    requires pos + 8 <= buf.Length && v < Pow2(64)
    modifies buf
    ensures buf[..pos] == old(buf[..pos])
    ensures forall n: nat :: n <= 8 ==> Carries(buf[..], pos, v, n)
  {
    hide Pow2, LsbBits, BytesBits;
    ghost var before := buf[..pos];
    var rest: nat, k: nat := v, 0;
    NoBytes(v);
    LsbPrefix(v, 0, 0);
    while k < 8
      invariant 0 <= k <= 8
      invariant buf[..pos] == before
      invariant rest == v / Pow2(8 * k)
      invariant forall n: nat :: n <= k ==> Carries(buf[..], pos, v, n)
    {
      ghost var written := buf[pos..pos + k];
      ghost var s0 := buf[..];
      assert Carries(s0, pos, v, k) && s0[pos..pos + k] == written;
      buf[pos + k] := rest % 256;
      assert buf[..][pos..pos + k + 1] == written + [rest % 256];
      BytesBitsSnoc(written, rest % 256);
      NextByte(v, k);
      forall n: nat | n <= k + 1 ensures Carries(buf[..], pos, v, n) {
        if n <= k {
          assert Carries(s0, pos, v, n);
          assert buf[..][pos..pos + n] == s0[pos..pos + n];
        } else {
          assert n == k + 1;
        }
      }
      rest := rest / 256;
      k := k + 1;
    }
  }

  lemma NoBytes(v: nat)
    ensures v / Pow2(8 * 0) == v && BytesBits([]) == LsbBits(v, 8 * 0)
  {}

  lemma NextByte(v: nat, k: nat)
    ensures v / Pow2(8 * k) / 256 == v / Pow2(8 * (k + 1))
    ensures LsbBits(v, 8 * k) + LsbBits(v / Pow2(8 * k) % 256, 8) == LsbBits(v, 8 * (k + 1))
  {
    hide Pow2, LsbBits;
    var m, n := 8 * k, 8 * (k + 1);
    Pow2Table();
    DivPow(v, m, 8);
    LsbPrefix(v, m, n);
    LsbSuffix(v, m, n);
    LsbModulo(v / Pow2(m), 8);
    assert LsbBits(v, n) == LsbBits(v, n)[..m] + LsbBits(v, n)[m..];
  }

  lemma {:induction false} DivPow(v: nat, m: nat, n: nat)
    ensures v / Pow2(m) / Pow2(n) == v / Pow2(m + n)
  {
    if m > 0 {
      DivPow(v / 2, m - 1, n);
      DivTwice(v, Pow2(m - 1));
      DivTwice(v, Pow2(m + n - 1));
    }
  }

  lemma SamePhase(at: nat, bitsIn: nat, l: nat)
    requires at % 8 == bitsIn % 8
    ensures (at + l) % 8 == (bitsIn + l) % 8
  {}

  class Writer {
    const buf: array<byte>
    const end: nat
    var pos: nat
    var bitBuffer: nat
    var bitsIn: nat
    // Every bit put since the buffer was last emptied.
    ghost var emitted: seq<bool>
    // Bytes that writing on leaves alone, so that the writer can go back to their end.
    ghost var kept: seq<byte>

    // Short of the end the buffer and the accumulator hold all the bits; at the end, too many were put.
    ghost predicate Sound()
      reads this, buf
    {
      && end + 16 == buf.Length && |kept| <= pos <= buf.Length && buf[..|kept|] == kept
      && bitBuffer < Pow2(bitsIn)
      && (if pos < end then Carried(buf[..pos], bitBuffer, bitsIn, emitted) else |emitted| >= 8 * end)
    }

    ghost predicate Valid()
      reads this, buf
    {
      Sound() && bitsIn < 8 && |emitted| % 8 == bitsIn
    }

    constructor (size: nat)
      requires size > 16
      ensures Valid() && fresh(buf) && emitted == [] && pos == 0 && bitsIn == 0 && end == size - 16
    {
      buf := new byte[size](_ => 0);
      end := size - 16;
      pos, bitBuffer, bitsIn := 0, 0, 0;
      emitted, kept := [], [];
    }

    // Appends the low l bits of b.
    method PutBits(b: nat, l: nat)
      requires Valid() && l <= 16 && b < Pow2(l)
      modifies `pos, `bitBuffer, `bitsIn, `emitted, buf
      ensures Valid() && emitted == old(emitted) + LsbBits(b, l)
    {
      hide LsbBits, BytesBits, Pow2, Carried;
      PutAbove(bitBuffer, bitsIn, b, l);
      SamePhase(|emitted|, bitsIn, l);
      if pos < end {
        PutCarries(buf[..pos], bitBuffer, bitsIn, emitted, b, l);
      }
      bitBuffer := bitBuffer + Pow2(bitsIn) * b;
      bitsIn := bitsIn + l;
      emitted := emitted + LsbBits(b, l);
      assert Sound();
      FlushBytes();
    }

    // Moves whole bytes from the accumulator to the buffer.
    method FlushBytes()
      requires Sound() && |emitted| % 8 == bitsIn % 8
      modifies `pos, `bitBuffer, `bitsIn, buf
      ensures Valid()
    {
      hide LsbBits, BytesBits, Pow2, Carried, Sound;
      while bitsIn >= 8
        invariant Sound() && |emitted| % 8 == bitsIn % 8
      {
        FlushByte();
      }
    }

    // The lowest byte of the accumulator is stored if there is room.
    method FlushByte()
      requires Sound() && bitsIn >= 8
      modifies `pos, `bitBuffer, `bitsIn, buf
      ensures Sound() && bitsIn == old(bitsIn) - 8
    {
      hide LsbBits, BytesBits, Pow2, Carried;
      HighPart(bitBuffer, bitsIn);
      if pos < end {
        ghost var whole, low := buf[..pos], bitBuffer % 256;
        buf[pos] := bitBuffer % 256;
        pos := pos + 1;
        OneByte(bitBuffer, low);
        StoreCarries(whole, [low], bitBuffer, bitsIn, emitted, 1);
        CarriedLength(whole + [low], bitBuffer / 256, bitsIn - 8, emitted);
        assert buf[..pos] == whole + [low];
        assert buf[..|kept|] == whole[..|kept|];
      }
      bitBuffer := bitBuffer / 256;
      bitsIn := bitsIn - 8;
    }

    // Short of the end, no bit was dropped.
    ghost predicate Fits()
      reads this
    {
      |emitted| < 8 * end
    }

    lemma FitsShortOfEnd()
      requires Valid()
      ensures pos < end <==> Fits()
    {
      hide LsbBits, BytesBits, Pow2;
    }

    // Short of the end, the position is the number of whole bytes put.
    lemma WholeBytes()
      requires Valid()
      ensures pos < end ==> pos == |emitted| / 8
    {
      hide LsbBits, BytesBits, Pow2;
      if pos < end {
        CarriedLength(buf[..pos], bitBuffer, bitsIn, emitted);
      }
    }

    // Notes the bytes so far as ones to go back to.
    method Mark()
      requires Valid() && pos < end
      modifies `kept
      ensures Valid() && Returnable(pos, bitBuffer, bitsIn, emitted)
    {
      kept := buf[..pos];
    }

    // A state that the writer can go back to.
    ghost predicate Returnable(pos0: nat, bitBuffer0: nat, bitsIn0: nat, emitted0: seq<bool>)
      reads `kept
    {
      && pos0 == |kept| < end && bitsIn0 < 8 && |emitted0| % 8 == bitsIn0
      && Carried(kept, bitBuffer0, bitsIn0, emitted0)
    }

    // Forgets what was put since the mark.
    method Return(pos0: nat, bitBuffer0: nat, bitsIn0: nat, ghost emitted0: seq<bool>)
      requires Valid() && Returnable(pos0, bitBuffer0, bitsIn0, emitted0)
      modifies `pos, `bitBuffer, `bitsIn, `emitted
      ensures Valid() && emitted == emitted0 && pos == pos0 && bitBuffer == bitBuffer0 && bitsIn == bitsIn0
    {
      pos, bitBuffer, bitsIn := pos0, bitBuffer0, bitsIn0;
      emitted := emitted0;
    }

    // Hands over the stored bytes; the bits of an unfinished byte stay.
    method Rewind() returns (bytes: seq<byte>)
      requires Valid() && pos < end
      modifies `pos, `emitted, `kept
      ensures Valid() && pos == 0 && |emitted| < 8 && old(emitted) == BytesBits(bytes) + emitted
    {
      bytes := buf[..pos];
      pos := 0;
      emitted := LsbBits(bitBuffer, bitsIn);
      kept := [];
      assert buf[..0] == [];
      assert BytesBits([]) + emitted == emitted;
    }

    // Zero bits up to a byte boundary.
    method Align()
      requires Valid()
      modifies `pos, `bitBuffer, `bitsIn, `emitted, buf
      ensures Valid() && bitsIn == 0 && |emitted| % 8 == 0
      ensures emitted == old(emitted) + LsbBits(0, Padding(|old(emitted)|))
    {
      hide LsbBits, Carried;
      assert LsbBits(0, 0) == [];
      if bitsIn > 0 {
        PutBits(0, 8 - bitsIn);
      }
    }
  }

  // How many bits are left of the current byte.
  function Padding(at: nat): (n: nat)
    ensures n < 8 && (at + n) % 8 == 0
  {
    (8 - at % 8) % 8
  }
}
