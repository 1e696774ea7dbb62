/** A stored block: its length, and its bytes from the accumulator and then in stretches. */
module StoredBlock {
  import opened Arith
  import opened Sums
  import opened Bits
  import opened Lz77
  import opened BitOutput
  import opened BlockCodec
  import opened Inflate
  import opened BitInput
  import opened OutputBuffer
  import opened Outcomes
  import opened HeaderReader

  // Sixteen bits are two bytes, the low one first.
  lemma TwoBytes(bits: seq<bool>)
    ensures |bits| >= 16 ==> Value(bits[..16]) == Value(bits[..8]) + 256 * Value(bits[8..][..8]) && bits[8..][8..] == bits[16..]
  {
    if |bits| >= 16 {
      hide Value;
      ValueConcat(bits[..8], bits[8..][..8]);
      assert bits[..16] == bits[..8] + bits[8..][..8];
      Pow2Table();
    }
  }

  method GetTwoBytes(r: Reader) returns (ok: bool, v: nat)
    requires r.Valid()
    modifies r`pos, r`bitBuf, r`numBits
    ensures r.Valid() && |r.Rest()| <= |old(r.Rest())| && (ok <==> ReadBits(old(r.Rest()), 16).Got?)
    ensures ok ==> ReadBits(old(r.Rest()), 16) == Got(v, r.Rest()) && r.numBits % 8 == old(r.numBits) % 8
    ensures ok ==> v < 0x1_0000
  {
    hide *;
    ghost var bits, before, start := r.Rest(), r.numBits, r.pos;
    TwoFields(bits);
    var low, high;
    ok, low := r.GetBits(8);
    if !ok {
      return false, 0;
    }
    ok, high := r.GetBits(8);
    v := low + 256 * high;
    if ok {
      SamePhase(before, |r.input| - start, r.numBits, |r.input| - r.pos);
    }
  }

  // A field of sixteen bits as two of eight.
  lemma TwoFields(bits: seq<bool>)
    ensures var low := ReadBits(bits, 8);
      && (ReadBits(bits, 16).Got? <==> low.Got? && ReadBits(low.rest, 8).Got?)
      && (ReadBits(bits, 16).Got? ==>
        var high := ReadBits(low.rest, 8);
        && ReadBits(bits, 16) == Got(low.value + 256 * high.value, high.rest)
        && low.value + 256 * high.value < 0x1_0000 && |high.rest| == |bits| - 16)
  {
    hide Value;
    TwoBytes(bits);
    FieldBelow(bits, 16);
    Pow2Table();
  }

  lemma SamePhase(a: int, i: int, b: int, j: int)
    requires a + 8 * i == b + 8 * j + 16
    ensures a % 8 == b % 8
  {}

  // The bytes of a byte string are read back from its bits, as far as they go.
  lemma {:induction false} BytesAhead(s: seq<byte>, n: nat)
    ensures n <= |s| ==> ReadBytes(BytesBits(s), n) == Got(s[..n], BytesBits(s[n..]))
    ensures n > |s| ==> ReadBytes(BytesBits(s), n) == Bad
    decreases n
  {
    hide LsbBits, BytesBits, Value, Pow2;
    if n == 0 {
      assert s[0..] == s;
    } else if s == [] {
      EmptyBits();
    } else {
      assert s == [s[0]] + s[1..];
      BytesBitsConcat([s[0]], s[1..]);
      OneByte(s[0], s[0]);
      Powers8();
      ReadsBits(s[0], 8, BytesBits(s[1..]));
      BytesAhead(s[1..], n - 1);
      assert n <= |s| ==> s[..n] == [s[0]] + s[1..][..n - 1] && s[1..][n - 1..] == s[n..];
    }
  }

  lemma EmptyBits()
    ensures BytesBits([]) == []
  {}

  lemma Powers8()
    ensures Pow2(8) == 256
  {
    Pow2Table();
  }

  lemma BadIsReached(out: seq<byte>, room: nat)
    ensures Appended(out, Bad) == Bad && forall status, out', rest :: Reached(Bad, room, status, out', rest)
  {}

  // n bytes from these bits are still to come.
  ghost predicate Coming(goal: Read<seq<byte>>, out: seq<byte>, bits: seq<bool>, n: nat) {
    Appended(out, ReadBytes(bits, n)) == goal
  }

  // One of them.
  lemma ComingByte(goal: Read<seq<byte>>, out: seq<byte>, bits: seq<bool>, n: nat)
    requires n > 0 && Coming(goal, out, bits, n)
    ensures goal.Got? ==> out < goal.value
    ensures |bits| >= 8 ==> Value(bits[..8]) < 256 && Coming(goal, out + [Value(bits[..8]) as byte], bits[8..], n - 1)
  {
    hide Value, ReadBytes, Appended;
    Powers8();
    FieldBelow(bits, 8);
    if |bits| >= 8 {
      NextByte(out, bits, n);
    }
    if goal.Got? {
      Enough(out, bits, n);
      FirstByte(out, bits, n);
    }
  }

  lemma Enough(out: seq<byte>, bits: seq<bool>, n: nat)
    ensures Appended(out, ReadBytes(bits, n)).Got? ==> ReadBytes(bits, n).Got?
  {}

  // Full with something still to come.
  lemma StopsShort(goal: Read<seq<byte>>, out: seq<byte>, room: nat, rest: seq<bool>)
    requires |out| == room && (goal.Got? ==> out < goal.value)
    ensures Reached(goal, room, HasMoreOutput, out, rest)
  {}

  // The bytes of a stored block: those already in the accumulator one by one, the rest in stretches.
  method CopyStored(r: Reader, length: nat, o: Output) returns (status: Status)
    requires r.Valid() && r.numBits % 8 == 0 && o.Valid()
    modifies r`pos, r`bitBuf, r`numBits, o`pos, o`sent, o`left, o.buf
    ensures r.Valid() && |r.Rest()| <= |old(r.Rest())|
    ensures o.Valid() && o.Capacity() == old(o.Capacity()) && Midway(status)
    ensures Reached(Appended(old(o.All()), ReadBytes(old(r.Rest()), length)), o.Capacity(), status, o.All(), r.Rest())
    ensures status == Fine ==> Appended(old(o.All()), ReadBytes(old(r.Rest()), length)) == Got(o.All(), r.Rest())
  {
    hide ReadBytes, BytesBits, LsbBits, Value, Reached, Appended, Reader.Valid, Reader.Rest, Output.Valid,
      Output.All, Output.Capacity;
    ghost var goal, bits0, room := Appended(o.All(), ReadBytes(r.Rest(), length)), r.Rest(), o.Capacity();
    var counter := length;
    o.Within();
    while counter > 0 && r.numBits > 0
      invariant r.Valid() && r.numBits % 8 == 0 && |r.Rest()| <= |bits0|
      invariant o.Valid() && o.Capacity() == room >= |o.All()|
      invariant Coming(goal, o.All(), r.Rest(), counter)
    {
      ghost var a, bits := o.All(), r.Rest();
      ComingByte(goal, a, bits, counter);
      var dist := r.Take(8);
      var ok := o.MakeRoom();
      if !ok {
        StopsShort(goal, a, room, r.Rest());
        return HasMoreOutput;
      }
      o.Put(dist);
      o.Within();
      counter := counter - 1;
    }
    ghost var goal' := Appended(o.All(), ReadBytes(r.Rest(), counter));
    status := CopyStretch(r, counter, o);
    ComingIsReached(goal, goal', room, status, o.All(), r.Rest());
  }

  lemma ComingIsReached(goal: Read<seq<byte>>, goal': Read<seq<byte>>, room: nat, status: Status, out: seq<byte>, rest: seq<bool>)
    requires (goal.Got? ==> goal' == goal) && Reached(goal', room, status, out, rest)
    ensures Reached(goal, room, status, out, rest)
  {}

  // Copies bytes straight from the input, as many as both sides allow, until all are there.
  method CopyStretch(r: Reader, length: nat, o: Output) returns (status: Status)
    requires r.Valid() && (length == 0 || r.numBits == 0) && o.Valid()
    modifies r`pos, o`pos, o`sent, o`left, o.buf
    ensures r.Valid() && |r.Rest()| <= |old(r.Rest())|
    ensures o.Valid() && o.Capacity() == old(o.Capacity()) && Midway(status)
    ensures Reached(Appended(old(o.All()), ReadBytes(old(r.Rest()), length)), o.Capacity(), status, o.All(), r.Rest())
    ensures status == Fine ==> Appended(old(o.All()), ReadBytes(old(r.Rest()), length)) == Got(o.All(), r.Rest())
  {
    hide ReadBytes, Coming, BytesBits, LsbBits, Ahead, Reached, Appended, Reader.Valid, Reader.Rest, Output.Valid,
      Output.All, Output.Capacity;
    ghost var goal, bits0, room := Appended(o.All(), ReadBytes(r.Rest(), length)), r.Rest(), o.Capacity();
    var counter := length;
    o.Within();
    ComingFirst(o.All(), r.Rest(), length);
    while counter > 0
      invariant r.Valid() && (counter == 0 || r.numBits == 0) && |r.Rest()| <= |bits0|
      invariant o.Valid() && o.Capacity() == room >= |o.All()|
      invariant Coming(goal, o.All(), r.Rest(), counter)
    {
      ghost var a, s := o.All(), r.input[r.pos..];
      OnlyBytes(r);
      StretchLeft(goal, a, s, counter, room);
      var ok := o.MakeRoom();
      if !ok {
        return HasMoreOutput;
      }
      if r.pos >= |r.input| {
        return NeedsMoreInput;
      }
      var n := Least3(o.buf.Length - o.pos, |r.input| - r.pos, counter);
      o.PutRun(r.input, r.pos, n);
      assert r.input[r.pos..r.pos + n] == s[..n];
      r.Advance(n);
      assert r.input[r.pos..] == s[n..];
      StretchMoves(goal, a, s, counter, n);
      o.Within();
      counter := counter - n;
    }
    NothingLeft(goal, o.All(), r.Rest(), room);
    status := Fine;
  }

  lemma ComingFirst(out: seq<byte>, bits: seq<bool>, n: nat)
    ensures Coming(Appended(out, ReadBytes(bits, n)), out, bits, n)
  {}

  lemma OnlyBytes(r: Reader)
    requires r.Valid() && r.numBits == 0
    ensures r.Rest() == BytesBits(r.input[r.pos..]) && r.pos <= |r.input|
  {}

  function Least3(a: nat, b: nat, c: nat): (r: nat)
    ensures r <= a && r <= b && r <= c && (r == a || r == b || r == c)
  {
    Min(Min(a, b), c)
  }

  lemma NothingLeft(goal: Read<seq<byte>>, out: seq<byte>, bits: seq<bool>, room: nat)
    requires Coming(goal, out, bits, 0) && |out| <= room
    ensures Reached(goal, room, Fine, out, bits) && goal == Got(out, bits)
  {
    assert out + [] == out;
  }

  // Bytes still to come cannot come from an empty input, nor go to a full output.
  lemma StretchLeft(goal: Read<seq<byte>>, out: seq<byte>, s: seq<byte>, n: nat, room: nat)
    requires n > 0 && Coming(goal, out, BytesBits(s), n) && |out| <= room
    ensures s == [] ==> Reached(goal, room, NeedsMoreInput, out, BytesBits(s))
    ensures |out| == room ==> Reached(goal, room, HasMoreOutput, out, BytesBits(s))
  {
    hide ReadBytes, BytesBits;
    BytesAhead(s, n);
  }

  // m of them moved.
  lemma StretchMoves(goal: Read<seq<byte>>, out: seq<byte>, s: seq<byte>, n: nat, m: nat)
    requires m <= n && m <= |s| && Coming(goal, out, BytesBits(s), n)
    ensures Coming(goal, out + s[..m], BytesBits(s[m..]), n - m)
  {
    hide ReadBytes, BytesBits, Appended;
    StretchJoins(out, s, n, m);
  }

  lemma StretchJoins(out: seq<byte>, s: seq<byte>, n: nat, m: nat)
    requires m <= n && m <= |s|
    ensures Appended(out + s[..m], ReadBytes(BytesBits(s[m..]), n - m)) == Appended(out, ReadBytes(BytesBits(s), n))
  {
    hide ReadBytes, BytesBits;
    BytesAhead(s, n);
    BytesAhead(s[m..], n - m);
    if n <= |s| {
      assert s[..m] + s[m..][..n - m] == s[..n] && s[m..][n - m..] == s[n..];
      assert out + s[..m] + s[m..][..n - m] == out + s[..n];
    }
  }

  // Bytes read, after those already out.
  ghost function Appended(out: seq<byte>, bytes: Read<seq<byte>>): Read<seq<byte>> {
    match bytes
    case Bad => Bad
    case Got(b, rest) => Got(out + b, rest)
  }

  lemma FirstByte(out: seq<byte>, bits: seq<bool>, n: nat)
    requires n > 0 && ReadBytes(bits, n).Got?
    ensures out < Appended(out, ReadBytes(bits, n)).value
  {
    hide Value;
    ByteValue(bits);
    var b := Value(bits[..8]) as byte;
    assert ReadBytes(bits, n).value == [b] + ReadBytes(bits[8..], n - 1).value;
    Joined(out, b, ReadBytes(bits[8..], n - 1).value);
  }

  lemma NextByte(out: seq<byte>, bits: seq<bool>, n: nat)
    requires n > 0 && |bits| >= 8
    ensures Value(bits[..8]) < 256
    ensures Appended(out + [Value(bits[..8]) as byte], ReadBytes(bits[8..], n - 1)) == Appended(out, ReadBytes(bits, n))
  {
    hide Value;
    ByteValue(bits);
    var r := ReadBytes(bits[8..], n - 1);
    if r.Got? {
      Joined(out, Value(bits[..8]) as byte, r.value);
    }
  }

  lemma Joined(out: seq<byte>, b: byte, rest: seq<byte>)
    ensures out + [b] + rest == out + ([b] + rest)
  {}

  // A stored block: on to the next byte boundary, the length and its complement, the bytes.
  method InflateStored(r: Reader, o: Output, ghost at: nat) returns (status: Status)
    requires r.Valid() && o.Valid() && Padding(at) == r.numBits % 8
    modifies r`pos, r`bitBuf, r`numBits, o`pos, o`sent, o`left, o.buf
    ensures r.Valid() && |r.Rest()| <= |old(r.Rest())|
    ensures o.Valid() && o.Capacity() == old(o.Capacity()) && Midway(status)
    ensures Reached(Appended(old(o.All()), ReadStored(old(r.Rest()), at)), o.Capacity(), status, o.All(), r.Rest())
    ensures status == Fine ==> Appended(old(o.All()), ReadStored(old(r.Rest()), at)) == Got(o.All(), r.Rest())
  {
    hide ReadBits, ReadBytes, Value, Ahead, Reached, Appended, Reader.Valid, Reader.Rest, Output.Valid, Output.All,
      Output.Capacity;
    ghost var bits := r.Rest();
    Skips(r.Rest(), r.numBits % 8);
    BadIsReached(o.All(), o.Capacity());
    var skipped := r.Take(r.numBits % 8);
    var ok, len, nlen;
    ok, len := GetTwoBytes(r);
    if !ok {
      return NeedsMoreInput;
    }
    ok, nlen := GetTwoBytes(r);
    if !ok {
      return NeedsMoreInput;
    }
    if len != 0xFFFF - nlen {
      return Failed;
    }
    ghost var ahead := r.Rest();
    status := CopyStored(r, len, o);
    assert ReadStored(bits, at) == ReadBytes(ahead, len);
  }

  lemma Skips(bits: seq<bool>, n: nat)
    requires n <= |bits|
    ensures ReadBits(bits, n) == Got(Value(bits[..n]), bits[n..])
  {}
}
