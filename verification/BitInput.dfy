/** The decompressor's bit input: an accumulator fed with whole bytes. A field takes as many bytes
    as it needs; a code takes two bytes at once while two are left, and single bytes, as few as will do,
    at the end of the input. */
module BitInput {
  import opened Sums
  import opened Arith
  import opened Bits
  import opened Lz77
  import opened BitOutput
  import opened BlockCodec

  // Bits in an accumulator, then bits of bytes still to be read.
  ghost function Ahead(input: seq<byte>, pos: nat, bitBuf: nat, numBits: nat): seq<bool>
    requires pos <= |input|
  {
    LsbBits(bitBuf, numBits) + BytesBits(input[pos..])
  }

  lemma FeedByte(input: seq<byte>, pos: nat, bitBuf: nat, numBits: nat)
    requires pos < |input| && bitBuf < Pow2(numBits)
    ensures bitBuf + Pow2(numBits) * input[pos] < Pow2(numBits + 8)
    ensures Ahead(input, pos + 1, bitBuf + Pow2(numBits) * input[pos], numBits + 8) == Ahead(input, pos, bitBuf, numBits)
  {
    hide Pow2, LsbBits, BytesBits;
    var b := input[pos];
    EightBits(b);
    PutAbove(bitBuf, numBits, b, 8);
    assert input[pos..] == [b] + input[pos + 1..];
    BytesBitsConcat([b], input[pos + 1..]);
    OneByte(b, b);
    Assoc(LsbBits(bitBuf, numBits), LsbBits(b, 8), BytesBits(input[pos + 1..]));
  }

  lemma EightBits(b: byte)
    ensures b < Pow2(8)
  {
    Pow2Table();
  }

  lemma DropBits(input: seq<byte>, pos: nat, bitBuf: nat, numBits: nat, n: nat)
    requires pos <= |input| && bitBuf < Pow2(numBits) && n <= numBits
    ensures 0 <= bitBuf / Pow2(n) < Pow2(numBits - n) && bitBuf % Pow2(n) == Value(Ahead(input, pos, bitBuf, numBits)[..n])
    ensures Ahead(input, pos, bitBuf / Pow2(n), numBits - n) == Ahead(input, pos, bitBuf, numBits)[n..]
  {
    hide Pow2, LsbBits, BytesBits, Value;
    LsbPrefix(bitBuf, n, numBits);
    LsbSuffix(bitBuf, n, numBits);
    LowPart(bitBuf, n);
    Pow2Add(n, numBits - n);
    DivBelow(Pow2(numBits - n), bitBuf, Pow2(n));
    SplitAhead(LsbBits(bitBuf, numBits), BytesBits(input[pos..]), n);
  }

  lemma LowPart(v: nat, n: nat)
    ensures v % Pow2(n) == Value(LsbBits(v, n))
  {
    hide Pow2, LsbBits, Value;
    LsbModulo(v, n);
    ValueOfBits(v % Pow2(n), n);
  }

  lemma SplitAhead(s: seq<bool>, t: seq<bool>, n: nat)
    requires n <= |s|
    ensures (s + t)[..n] == s[..n] && (s + t)[n..] == s[n..] + t
  {}

  class Reader {
    const input: seq<byte>
    var pos: nat
    var bitBuf: nat
    var numBits: nat

    ghost predicate Valid()
      reads this
    {
      pos <= |input| && bitBuf < Pow2(numBits)
    }

    // Every bit not yet taken.
    ghost function Rest(): (r: seq<bool>)
      reads this
      requires Valid()
      ensures |r| == numBits + 8 * (|input| - pos)
    {
      Ahead(input, pos, bitBuf, numBits)
    }

    constructor (input: seq<byte>)
      ensures Valid() && Rest() == BytesBits(input) && this.input == input && numBits == 0
    {
      this.input := input;
      pos, bitBuf, numBits := 0, 0, 0;
      new;
      assert input[0..] == input;
      assert LsbBits(0, 0) + BytesBits(input) == BytesBits(input);
    }

    // Goes on where an earlier call stopped.
    constructor Resume(input: seq<byte>, bitBuf: nat, numBits: nat)
      requires bitBuf < Pow2(numBits)
      ensures Valid() && Rest() == LsbBits(bitBuf, numBits) + BytesBits(input)
      ensures this.input == input && pos == 0 && this.bitBuf == bitBuf && this.numBits == numBits
    {
      this.input := input;
      pos, this.bitBuf, this.numBits := 0, bitBuf, numBits;
      new;
      assert input[0..] == input;
    }

    // Puts one more byte into the accumulator; false when there is none.
    method GetByte() returns (ok: bool)
      requires Valid()
      modifies `pos, `bitBuf, `numBits
      ensures Valid() && Rest() == old(Rest()) && (ok <==> old(pos) < |input|)
      ensures numBits == old(numBits) + if ok then 8 else 0
      ensures pos == old(pos) + if ok then 1 else 0
      ensures !ok ==> bitBuf == old(bitBuf)
    {
      if pos >= |input| {
        return false;
      }
      FeedByte(input, pos, bitBuf, numBits);
      bitBuf := bitBuf + Pow2(numBits) * input[pos];
      pos, numBits := pos + 1, numBits + 8;
      ok := true;
    }

    // Puts four more bytes into the accumulator.
    method Refill()
      requires Valid() && pos + 4 <= |input| && numBits < 30
      modifies `pos, `bitBuf, `numBits
      ensures Valid() && Rest() == old(Rest()) && pos == old(pos) + 4 && numBits == old(numBits) + 32 < 64
    {
      for k := 0 to 4
        invariant Valid() && Rest() == old(Rest()) && pos == old(pos) + k && numBits == old(numBits) + 8 * k
      {
        var ok := GetByte();
      }
    }

    // Passes n bytes, the accumulator being empty.
    method Advance(n: nat)
      requires Valid() && numBits == 0 && n <= |input| - pos
      modifies `pos
      ensures Valid() && pos == old(pos) + n && Rest() == BytesBits(input[pos..])
    {
      pos := pos + n;
    }

    // Takes n bits that are in the accumulator.
    method Take(n: nat) returns (v: nat)
      requires Valid() && n <= numBits
      modifies `bitBuf, `numBits
      ensures Valid() && v == Value(old(Rest())[..n]) && Rest() == old(Rest())[n..] && numBits == old(numBits) - n
    {
      DropBits(input, pos, bitBuf, numBits, n);
      v := bitBuf % Pow2(n);
      bitBuf := bitBuf / Pow2(n);
      numBits := numBits - n;
    }

    // Takes n bits, reading bytes as needed.
    method GetBits(n: nat) returns (ok: bool, v: nat)
      requires Valid()
      modifies `pos, `bitBuf, `numBits
      ensures Valid() && (ok <==> ReadBits(old(Rest()), n).Got?) && |Rest()| <= |old(Rest())|
      ensures ok ==> ReadBits(old(Rest()), n) == Got(v, Rest())
      ensures !ok ==> Rest() == old(Rest()) && pos == |input|
    {
      while numBits < n
        invariant Valid() && Rest() == old(Rest())
      {
        ok := GetByte();
        if !ok {
          return false, 0;
        }
      }
      v := Take(n);
      ok := true;
    }
  }
}
