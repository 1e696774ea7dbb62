/** Stored blocks decompressed over many calls: each call gets some input and some room, stops wherever
    either runs out, and goes on from there the next time. */
module StoredStream {
  import opened Wrappers
  import opened Sums
  import opened Bits
  import opened Lz77
  import opened BitOutput
  import opened BlockCodec
  import opened Inflate
  import opened BitInput
  import opened HeaderReader
  import opened StoredBlock
  import opened Inflater

  // ---------- what a stream of stored blocks means ----------

  ghost function Then(bytes: seq<byte>, more: Option<seq<byte>>): Option<seq<byte>> {
    match more
    case None => None
    case Some(m) => Some(bytes + m)
  }

  // The bytes of a stream of stored blocks of which these bits, the last of `end`, are still ahead.
  ghost function StoredOnly(bits: seq<bool>, end: nat): Option<seq<byte>>
    requires |bits| <= end
    decreases |bits|
  {
    match ReadBits(bits, 3)
    case Bad => None
    case Got(v, rest) =>
      if v / 2 != 0 then None else
      match ReadStored(rest, end - |rest|)
      case Bad => None
      case Got(bytes, rest) => Then(bytes, if v == 1 then Some([]) else StoredOnly(rest, end))
  }

  // It is the meaning of the stream.
  lemma {:induction false} StoredOnlyInflates(bits: seq<bool>, end: nat, out: seq<byte>)
    requires |bits| <= end && StoredOnly(bits, end).Some?
    ensures Inflated(bits, end - |bits|, out) == Some(out + StoredOnly(bits, end).value)
    decreases |bits|
  {
    hide ReadStored, Value, Inflated, StoredOnly;
    StoredUnfolds(bits, end);
    var v := Value(bits[..3]);
    var bytes := ReadStored(bits[3..], end - |bits[3..]|);
    HeaderBitsSplit(bits);
    InflatedUnfolds(bits, end - |bits|, out);
    if v == 1 {
      assert bytes.value + [] == bytes.value;
    } else {
      StoredOnlyInflates(bytes.rest, end, out + bytes.value);
      Appends(out, bytes.value, StoredOnly(bytes.rest, end).value);
    }
  }

  lemma Appends(a: seq<byte>, b: seq<byte>, c: seq<byte>)
    ensures a + b + c == a + (b + c)
  {}

  lemma StoredUnfolds(bits: seq<bool>, end: nat)
    requires |bits| <= end && StoredOnly(bits, end).Some?
    ensures |bits| >= 3 && Value(bits[..3]) / 2 == 0
    ensures var s := ReadStored(bits[3..], end - |bits[3..]|);
      && s.Got? && |s.rest| <= |bits[3..]|
      && StoredOnly(bits, end) == Then(s.value, if Value(bits[..3]) == 1 then Some([]) else StoredOnly(s.rest, end))
  {
    hide ReadStored, Value;
  }

  // ---------- what is owed to the caller at each point ----------

  // Where a call may stop: before a block's header, among the four bytes of its length, before the
  // next of its bytes, holding one there was no room for, or at an end.
  datatype Point = Header | Lengths(raw: seq<byte>) | Payload | Holding(b: byte) | Finished | Broken | Coded

  function Word(low: byte, high: byte): nat {
    low + 256 * high
  }

  // n bytes of a block and what follows it.
  ghost function Body(n: nat, final: bool, bits: seq<bool>, end: nat): Option<seq<byte>>
    requires |bits| <= end
  {
    match ReadBytes(bits, n)
    case Bad => None
    case Got(bytes, rest) => Then(bytes, if final then Some([]) else StoredOnly(rest, end))
  }

  // A block of whose length these bytes are known.
  ghost function Sized(raw: seq<byte>, final: bool, bits: seq<bool>, end: nat): Option<seq<byte>>
    requires |raw| <= 4 && |bits| <= end
  {
    match ReadBytes(bits, 4 - |raw|)
    case Bad => None
    case Got(more, rest) =>
      BytesRead(bits, 4 - |raw|);
      var h := raw + more;
      if Word(h[0], h[1]) != 0xFFFF - Word(h[2], h[3]) then None else Body(Word(h[0], h[1]), final, rest, end)
  }

  lemma {:induction false} BytesRead(bits: seq<bool>, n: nat)
    ensures ReadBytes(bits, n).Got? ==> |ReadBytes(bits, n).value| == n
    decreases n
  {
    hide ReadBits;
    if n > 0 {
      match ReadBits(bits, 8)
      case Bad =>
      case Got(_, rest) => BytesRead(rest, n - 1);
    }
  }

  ghost function Owed(p: Point, final: bool, n: nat, bits: seq<bool>, end: nat): Option<seq<byte>>
    requires |bits| <= end && (p.Lengths? ==> |p.raw| <= 4) && (p.Holding? ==> n > 0)
  {
    match p
    case Header => StoredOnly(bits, end)
    case Lengths(raw) => Sized(raw, final, bits, end)
    case Payload => Body(n, final, bits, end)
    case Holding(b) => Then([b], Body(n - 1, final, bits, end))
    case Finished => Some([])
    case Broken => None
    case Coded => None
  }

  // ---------- the steps between those points ----------

  // The byte in front.
  function Front(bits: seq<bool>): byte
    requires |bits| >= 8
  {
    ByteValue(bits);
    Value(bits[..8]) as byte
  }

  lemma FirstOfBytes(bits: seq<bool>, n: nat)
    requires n > 0
    ensures |bits| < 8 ==> ReadBytes(bits, n) == Bad
    ensures |bits| >= 8 ==> ReadBytes(bits, n) == match ReadBytes(bits[8..], n - 1)
      case Bad => Bad
      case Got(bs, rest) => Got([Front(bits)] + bs, rest)
  {
    hide Value;
  }

  lemma NoMoreBytes(bits: seq<bool>)
    ensures ReadBytes(bits, 0) == Got([], bits)
  {}

  // Two bytes and two more, or the two fields of a stored block's header.
  ghost function HeaderBytes(bits: seq<bool>): Read<seq<byte>> {
    match ReadBytes(bits, 4)
    case Bad => Bad
    case Got(h, rest) =>
      BytesRead(bits, 4);
      if Word(h[0], h[1]) != 0xFFFF - Word(h[2], h[3]) then Bad else ReadBytes(rest, Word(h[0], h[1]))
  }

  lemma FourBytes(bits: seq<bool>)
    ensures |bits| < 32 ==> ReadBytes(bits, 4) == Bad
    ensures |bits| >= 32 ==>
      ReadBytes(bits, 4) == Got([Front(bits), Front(bits[8..]), Front(bits[16..]), Front(bits[24..])], bits[32..])
  {
    hide ReadBytes, Value, Front;
    FirstOfBytes(bits, 4);
    if |bits| >= 8 {
      var b := bits[8..];
      FirstOfBytes(b, 3);
      if |b| >= 8 {
        var c := b[8..];
        assert c == bits[16..];
        FirstOfBytes(c, 2);
        if |c| >= 8 {
          var d := c[8..];
          assert d == bits[24..];
          FirstOfBytes(d, 1);
          if |d| >= 8 {
            assert d[8..] == bits[32..];
            NoMoreBytes(bits[32..]);
            FourJoined(Front(bits), Front(b), Front(c), Front(d));
          }
        }
      }
    }
  }

  lemma FourJoined(a: byte, b: byte, c: byte, d: byte)
    ensures [a] + ([b] + ([c] + ([d] + []))) == [a, b, c, d]
  {}

  lemma WordIsField(bits: seq<bool>)
    requires |bits| >= 16
    ensures Value(bits[..16]) == Word(Front(bits), Front(bits[8..])) && bits[8..][8..] == bits[16..]
  {
    hide Value;
    TwoBytes(bits);
  }

  lemma StoredFields(bits: seq<bool>, at: nat)
    requires |bits| >= Padding(at)
    ensures ReadStored(bits, at) == HeaderBytes(bits[Padding(at)..])
  {
    hide Value, ReadBytes, Front, Word, Padding;
    var b := bits[Padding(at)..];
    FourBytes(b);
    if |b| >= 32 {
      WordIsField(b);
      WordIsField(b[16..]);
      assert b[16..][8..] == b[24..] && b[16..][16..] == b[32..];
    }
  }

  lemma HeaderMoves(bits: seq<bool>, end: nat)
    requires 3 <= |bits| <= end && end % 8 == 0
    ensures var v := Value(bits[..3]);
      var rest := bits[3..];
      StoredOnly(bits, end) == if v / 2 != 0 then None else Sized([], v == 1, rest[|rest| % 8..], end)
  {
    hide Value, ReadStored, ReadBytes, Word, StoredOnly;
    var rest := bits[3..];
    Phase(end, |rest|, |rest|, end - |rest|);
    StoredFields(rest, end - |rest|);
    StoredStep(bits, end);
    NoRaw(rest[|rest| % 8..], Value(bits[..3]) == 1, end);
  }

  lemma StoredStep(bits: seq<bool>, end: nat)
    requires 3 <= |bits| <= end
    ensures StoredOnly(bits, end) ==
      if Value(bits[..3]) / 2 != 0 then None else Carried(ReadStored(bits[3..], end - |bits[3..]|), Value(bits[..3]) == 1, end)
  {
    hide Value, ReadStored;
  }

  // A block's bytes and what follows it.
  ghost function Carried(block: Read<seq<byte>>, final: bool, end: nat): Option<seq<byte>> {
    match block
    case Bad => None
    case Got(bytes, rest) => if |rest| > end then None else Then(bytes, if final then Some([]) else StoredOnly(rest, end))
  }

  lemma NoRaw(bits: seq<bool>, final: bool, end: nat)
    requires |bits| <= end
    ensures Sized([], final, bits, end) == Carried(HeaderBytes(bits), final, end)
  {
    hide Word, ReadBytes, StoredOnly;
    BytesRead(bits, 4);
    match ReadBytes(bits, 4)
    case Bad =>
    case Got(h, rest) => assert [] + h == h;
  }

  lemma LengthMoves(raw: seq<byte>, final: bool, bits: seq<bool>, end: nat)
    requires |raw| < 4 && 8 <= |bits| <= end
    ensures Sized(raw, final, bits, end) == Sized(raw + [Front(bits)], final, bits[8..], end)
  {
    hide Word, ReadBytes, Body, Front;
    FirstOfBytes(bits, 4 - |raw|);
    BytesRead(bits, 4 - |raw|);
    match ReadBytes(bits[8..], 3 - |raw|)
    case Bad =>
    case Got(bs, rest) => assert raw + ([Front(bits)] + bs) == raw + [Front(bits)] + bs;
  }

  lemma LengthKnown(raw: seq<byte>, final: bool, bits: seq<bool>, end: nat)
    requires |raw| == 4 && |bits| <= end
    ensures Sized(raw, final, bits, end) ==
      if Word(raw[0], raw[1]) != 0xFFFF - Word(raw[2], raw[3]) then None else Body(Word(raw[0], raw[1]), final, bits, end)
  {
    hide Word, ReadBytes, Body;
    NoMoreBytes(bits);
    assert raw + [] == raw;
  }

  lemma BodyMoves(n: nat, final: bool, bits: seq<bool>, end: nat)
    requires n > 0 && 8 <= |bits| <= end
    ensures Body(n, final, bits, end) == Then([Front(bits)], Body(n - 1, final, bits[8..], end))
  {
    hide ReadBytes, StoredOnly, Front;
    FirstOfBytes(bits, n);
    match ReadBytes(bits[8..], n - 1)
    case Bad =>
    case Got(bs, rest) =>
      var more := if final then Some([]) else StoredOnly(rest, end);
      if more.Some? {
        Appends([Front(bits)], bs, more.value);
      }
  }

  lemma BodyEnds(final: bool, bits: seq<bool>, end: nat)
    requires |bits| <= end
    ensures Body(0, final, bits, end) == if final then Some([]) else StoredOnly(bits, end)
  {
    hide ReadBytes, StoredOnly;
    NoMoreBytes(bits);
    var more := if final then Some([]) else StoredOnly(bits, end);
    if more.Some? {
      assert [] + more.value == more.value;
    }
  }

  // A stretch of bytes straight from the input.
  lemma {:induction false} StretchMoved(n: nat, m: nat, final: bool, s: seq<byte>, future: seq<bool>, end: nat)
    requires m <= n && m <= |s| && 8 * |s| + |future| <= end
    ensures Body(n, final, BytesBits(s) + future, end) == Then(s[..m], Body(n - m, final, BytesBits(s[m..]) + future, end))
    decreases m
  {
    hide Body, Front, BytesBits, LsbBits;
    if m == 0 {
      assert s[0..] == s;
      NothingFirst(Body(n, final, BytesBits(s) + future, end));
    } else {
      var tail := BytesBits(s[1..]) + future;
      ByteInFront(s, future);
      BodyMoves(n, final, BytesBits(s) + future, end);
      StretchMoved(n - 1, m - 1, final, s[1..], future, end);
      assert s[1..][m - 1..] == s[m..] && s[..m] == [s[0]] + s[1..][..m - 1];
      ThenThen([s[0]], s[1..][..m - 1], Body(n - m, final, BytesBits(s[m..]) + future, end));
    }
  }

  lemma NothingFirst(x: Option<seq<byte>>)
    ensures Then([], x) == x
  {
    if x.Some? {
      assert [] + x.value == x.value;
    }
  }

  lemma ThenThen(a: seq<byte>, b: seq<byte>, x: Option<seq<byte>>)
    ensures Then(a, Then(b, x)) == Then(a + b, x)
  {
    if x.Some? {
      Appends(a, b, x.value);
    }
  }

  lemma ByteInFront(s: seq<byte>, future: seq<bool>)
    requires s != []
    ensures |BytesBits(s) + future| >= 8 && Front(BytesBits(s) + future) == s[0]
    ensures (BytesBits(s) + future)[8..] == BytesBits(s[1..]) + future
  {
    hide *;
    assert s == [s[0]] + s[1..];
    BytesBitsConcat([s[0]], s[1..]);
    OneByte(s[0], s[0]);
    Assoc(LsbBits(s[0], 8), BytesBits(s[1..]), future);
    FrontOf(s[0], BytesBits(s[1..]) + future);
  }

  lemma FrontOf(b: byte, tail: seq<bool>)
    ensures |LsbBits(b, 8) + tail| >= 8 && Front(LsbBits(b, 8) + tail) == b && (LsbBits(b, 8) + tail)[8..] == tail
  {
    hide LsbBits, Value, Pow2;
    Powers8();
    ReadsBits(b, 8, tail);
  }

  // ---------- the resumable decompressor ----------

  datatype Progress = NeedsMore | NoRoom | Ended | Refused | NotStored

  lemma AheadOf(r: Reader)
    requires r.Valid()
    ensures |r.Rest()| % 8 == r.numBits % 8
    ensures r.numBits == 0 ==> r.Rest() == BytesBits(r.input[r.pos..])
  {}

  // The first bits are those of the part that is here.
  lemma FrontHere(here: seq<bool>, future: seq<bool>, n: nat)
    requires n <= |here|
    ensures (here + future)[..n] == here[..n] && (here + future)[n..] == here[n..] + future
  {}

  lemma HeaderTaken(here: seq<bool>, future: seq<bool>, end: nat)
    requires 3 <= |here| && |here + future| <= end && end % 8 == 0 && |future| % 8 == 0
    ensures var v := Value(here[..3]);
      var k := |here[3..]| % 8;
      StoredOnly(here + future, end) == if v / 2 != 0 then None else Sized([], v == 1, here[3..][k..] + future, end)
  {
    hide StoredOnly, Sized, Value;
    FrontHere(here, future, 3);
    HeaderMoves(here + future, end);
    FrontHere(here[3..], future, |here[3..]| % 8);
  }

  lemma ByteTaken(here: seq<bool>, future: seq<bool>)
    requires |here| >= 8
    ensures |here + future| >= 8 && Front(here + future) as nat == Value(here[..8]) && (here + future)[8..] == here[8..] + future
  {
    hide Value;
    FrontHere(here, future, 8);
  }

  lemma Starved(p: Point, final: bool, n: nat, bits: seq<bool>, end: nat)
    requires |bits| <= end && Hungry(p, n, |bits|)
    ensures Owed(p, final, n, bits, end) == None
  {
    hide ReadBytes;
    if p.Lengths? {
      FirstOfBytes(bits, 4 - |p.raw|);
    } else if p.Payload? {
      FirstOfBytes(bits, n);
    }
  }

  class Inflator {
    var point: Point
    var final: bool
    var counter: nat
    var bitBuf: nat
    var numBits: nat

    constructor ()
      ensures Between() && point == Header && numBits == 0
    {
      point, final, counter, bitBuf, numBits := Header, false, 0, 0, 0;
      new;
      assert Pow2(0) == 1;
    }

    ghost predicate Shaped()
      reads this
    {
      (point.Lengths? ==> |point.raw| <= 4) && (point.Holding? ==> counter > 0)
    }

    // Inside a block's bytes the accumulator holds whole bytes.
    ghost predicate At(r: Reader, future: seq<bool>, end: nat)
      reads this, r
    {
      && r.Valid() && Shaped() && |r.Rest() + future| <= end && end % 8 == 0 && |future| % 8 == 0
      && (point.Lengths? || point.Payload? || point.Holding? ==> r.numBits % 8 == 0)
    }

    ghost predicate Between()
      reads this
    {
      bitBuf < Pow2(numBits) && Shaped() && (point.Lengths? || point.Payload? || point.Holding? ==> numBits % 8 == 0)
    }

    // What is still owed when these bits follow.
    ghost function Due(bits: seq<bool>, end: nat): Option<seq<byte>>
      reads this
      requires Shaped() && |bits| <= end
    {
      Owed(point, final, counter, bits, end)
    }

    // The final bit and the type of a block, and on to the next byte boundary.
    method ReadHeader(r: Reader, ghost future: seq<bool>, ghost end: nat) returns (ok: bool)
      requires point.Header? && At(r, future, end)
      modifies this, r
      ensures At(r, future, end) && Due(r.Rest() + future, end) == old(Due(r.Rest() + future, end))
      ensures ok ==> |r.Rest()| < |old(r.Rest())|
      ensures !ok ==> point.Header? && r.pos == |r.input| && |r.Rest()| < 3 && r.Rest() == old(r.Rest())
    {
      hide StoredOnly, Sized, Value, Pow2, Ahead, LsbBits, BytesBits;
      ghost var here := r.Rest();
      var v;
      ok, v := r.GetBits(3);
      if !ok {
        return;
      }
      HeaderTaken(here, future, end);
      AheadOf(r);
      if v / 2 != 0 {
        point := if v / 2 == 3 then Broken else Coded;
        return;
      }
      var skipped := r.Take(r.numBits % 8);
      final, point := v == 1, Lengths([]);
    }

    // One of the four bytes of a block's length and its complement.
    method ReadLength(r: Reader, ghost future: seq<bool>, ghost end: nat) returns (ok: bool)
      requires point.Lengths? && |point.raw| < 4 && At(r, future, end)
      modifies this`point, r
      ensures At(r, future, end) && Due(r.Rest() + future, end) == old(Due(r.Rest() + future, end))
      ensures ok ==> |r.Rest()| < |old(r.Rest())|
      ensures !ok ==> point == old(point) && r.pos == |r.input| && |r.Rest()| < 8 && r.Rest() == old(r.Rest())
    {
      hide StoredOnly, Sized, Value, Pow2, Ahead, LsbBits, BytesBits, Front;
      ghost var here := r.Rest();
      FieldBelow(here, 8);
      Powers8();
      var v;
      ok, v := r.GetBits(8);
      if !ok {
        return;
      }
      ByteTaken(here, future);
      LengthMoves(point.raw, final, here + future, end);
      AheadOf(r);
      point := Lengths(point.raw + [v as byte]);
    }

    // The length must be repeated in complement.
    method CheckLength(r: Reader, ghost future: seq<bool>, ghost end: nat)
      requires point.Lengths? && |point.raw| == 4 && At(r, future, end)
      modifies this`point, this`counter
      ensures At(r, future, end) && Due(r.Rest() + future, end) == old(Due(r.Rest() + future, end))
      ensures point.Payload? || point.Broken?
    {
      hide StoredOnly, Sized, Body, Ahead;
      var raw := point.raw;
      LengthKnown(raw, final, r.Rest() + future, end);
      counter := Word(raw[0], raw[1]);
      point := if counter != 0xFFFF - Word(raw[2], raw[3]) then Broken else Payload;
    }

    // A byte of the block that was still in the accumulator.
    method TakeByte(r: Reader, ghost future: seq<bool>, ghost end: nat)
      requires point.Payload? && counter > 0 && r.numBits > 0 && At(r, future, end)
      modifies this`point, r`bitBuf, r`numBits
      ensures At(r, future, end) && Due(r.Rest() + future, end) == old(Due(r.Rest() + future, end))
      ensures point.Holding? && |r.Rest()| < |old(r.Rest())|
    {
      hide StoredOnly, Body, Value, Pow2, Ahead, LsbBits, BytesBits, Front;
      ghost var here := r.Rest();
      FieldBelow(here, 8);
      Powers8();
      ByteTaken(here, future);
      BodyMoves(counter, final, here + future, end);
      var v := r.Take(8);
      point := Holding(v as byte);
    }

    // As many bytes straight from the input as both sides allow.
    method CopyBytes(r: Reader, room: nat, ghost future: seq<bool>, ghost end: nat) returns (bytes: seq<byte>)
      requires point.Payload? && counter > 0 && r.numBits == 0 && r.pos < |r.input| && room > 0 && At(r, future, end)
      modifies this`counter, r`pos
      ensures At(r, future, end) && old(Due(r.Rest() + future, end)) == Then(bytes, Due(r.Rest() + future, end))
      ensures 0 < |bytes| <= room && |r.Rest()| < |old(r.Rest())|
    {
      hide StoredOnly, Body, Ahead, BytesBits;
      ghost var s := r.input[r.pos..];
      AheadOf(r);
      var n := Least3(room, |r.input| - r.pos, counter);
      StretchMoved(counter, n, final, s, future, end);
      bytes := r.input[r.pos..r.pos + n];
      assert bytes == s[..n] && r.input[r.pos + n..] == s[n..];
      r.pos := r.pos + n;
      counter := counter - n;
      AheadOf(r);
    }

    // A block is over.
    method EndBlock(r: Reader, ghost future: seq<bool>, ghost end: nat)
      requires point.Payload? && counter == 0 && At(r, future, end)
      modifies this`point
      ensures At(r, future, end) && Due(r.Rest() + future, end) == old(Due(r.Rest() + future, end))
      ensures point.Finished? || point.Header?
    {
      hide StoredOnly, Body, Ahead;
      BodyEnds(final, r.Rest() + future, end);
      point := if final then Finished else Header;
    }

    // From one point to the next, or to where the call must stop. The bytes put out are returned.
    method Step(r: Reader, room: nat, ghost future: seq<bool>, ghost end: nat) returns (stop: Option<Progress>, bytes: seq<byte>)
      requires At(r, future, end)
      modifies this, r
      ensures At(r, future, end) && |bytes| <= room && |r.Rest()| <= |old(r.Rest())|
      ensures old(Due(r.Rest() + future, end)) == Then(bytes, Due(r.Rest() + future, end))
      ensures stop.None? ==> |r.Rest()| < |old(r.Rest())| || Rank(point) < old(Rank(point))
      ensures stop.Some? ==> bytes == [] && !(stop.value.NoRoom? && room > 0) && Fits(stop.value, r)
    {
      hide StoredOnly, Sized, Body, LsbBits, BytesBits, Pow2, Ahead, Owed;
      stop, bytes := None, [];
      match point {
        case Header =>
          Inside(r, future, end);
          var ok := ReadHeader(r, future, end);
          stop := if ok then None else Some(NeedsMore);
        case Lengths(raw) =>
          Inside(r, future, end);
          if |raw| < 4 {
            var ok := ReadLength(r, future, end);
            stop := if ok then None else Some(NeedsMore);
          } else {
            CheckLength(r, future, end);
          }
        case Payload =>
          Inside(r, future, end);
          if counter == 0 {
            EndBlock(r, future, end);
          } else if r.numBits > 0 {
            TakeByte(r, future, end);
          } else if room == 0 {
            stop := Some(NoRoom);
          } else if r.pos >= |r.input| {
            stop := Some(NeedsMore);
          } else {
            bytes := CopyBytes(r, room, future, end);
          }
        case Holding(b) =>
          if room == 0 {
            stop := Some(NoRoom);
          } else {
            bytes := PutByte(r, future, end);
          }
        case Finished => stop := Some(Ended);
        case Broken => stop := Some(Refused);
        case Coded => stop := Some(NotStored);
      }
      Inside(r, future, end);
      NothingFirst(Due(r.Rest() + future, end));
    }

    // The reason to stop is the one the point and the input give.
    ghost predicate Fits(status: Progress, r: Reader)
      reads this, r
    {
      && r.Valid()
      && (status.NeedsMore? ==> r.pos == |r.input| && Hungry(point, counter, |r.Rest()|))
      && (status.Ended? <==> point.Finished?) && (status.Refused? <==> point.Broken?) && (status.NotStored? <==> point.Coded?)
    }

    lemma Inside(r: Reader, future: seq<bool>, end: nat)
      requires At(r, future, end)
      ensures r.Valid() && Shaped() && |r.Rest() + future| <= end
      ensures r.numBits == 0 && r.pos == |r.input| ==> |r.Rest()| == 0
    {
      AheadOf(r);
    }

    // The byte held is put out.
    method PutByte(r: Reader, ghost future: seq<bool>, ghost end: nat) returns (bytes: seq<byte>)
      requires point.Holding? && At(r, future, end)
      modifies this`point, this`counter
      ensures At(r, future, end) && old(Due(r.Rest() + future, end)) == Then(bytes, Due(r.Rest() + future, end))
      ensures |bytes| == 1 && point.Payload?
    {
      hide Body, Ahead;
      bytes := [point.b];
      counter, point := counter - 1, Payload;
    }

    // One call: goes on until the stream is over or wrong, the input is used up, or the room is.
    method Resume(input: seq<byte>, room: nat, ghost future: seq<bool>, ghost end: nat)
      returns (status: Progress, used: nat, out: seq<byte>)
      requires Between() && |Kept() + BytesBits(input) + future| <= end && end % 8 == 0 && |future| % 8 == 0
      modifies this
      ensures Between() && used <= |input| && |out| <= room && |Kept() + BytesBits(input[used..]) + future| <= end
      ensures old(Due(Kept() + BytesBits(input) + future, end)) == Then(out, Due(Kept() + BytesBits(input[used..]) + future, end))
      ensures status.NeedsMore? ==> used == |input| && (future == [] ==> Due(Kept() + BytesBits(input[used..]) + future, end) == None)
      ensures status.NoRoom? ==> |out| == room
      ensures (status.Ended? <==> point.Finished?) && (status.Refused? <==> point.Broken?) && (status.NotStored? <==> point.Coded?)
    {
      hide StoredOnly, Sized, Body, LsbBits, BytesBits, Pow2, Ahead, Owed;
      var r := new Reader.Resume(input, bitBuf, numBits);
      Begins(r, future, end);
      out := [];
      NothingFirst(Due(r.Rest() + future, end));
      var stop: Option<Progress> := None;
      while stop.None?
        invariant fresh(r) && r.input == input && At(r, future, end) && |out| <= room && |r.Rest() + future| <= end && Shaped()
        invariant old(Due(Kept() + BytesBits(input) + future, end)) == Then(out, Due(r.Rest() + future, end))
        invariant stop.Some? ==> Fits(stop.value, r) && (stop.value.NoRoom? ==> |out| == room)
        decreases stop.None?, |r.Rest()|, Rank(point)
      {
        var bytes;
        stop, bytes := Step(r, room - |out|, future, end);
        Inside(r, future, end);
        ThenThen(out, bytes, Due(r.Rest() + future, end));
        out := out + bytes;
      }
      status := stop.value;
      Finishes(r, future, end);
      bitBuf, numBits, used := r.bitBuf, r.numBits, r.pos;
      if status.NeedsMore? && future == [] {
        assert r.Rest() + future == r.Rest();
        Starved(point, final, counter, r.Rest(), end);
      }
    }

    lemma Begins(r: Reader, future: seq<bool>, end: nat)
      requires Between() && r.Valid() && r.bitBuf == bitBuf && r.numBits == numBits && r.pos == 0
      requires |Kept() + BytesBits(r.input) + future| <= end && end % 8 == 0 && |future| % 8 == 0
      ensures r.Rest() == Kept() + BytesBits(r.input) && At(r, future, end)
    {
      hide LsbBits, BytesBits;
      assert r.input[0..] == r.input;
    }

    lemma Finishes(r: Reader, future: seq<bool>, end: nat)
      requires At(r, future, end)
      ensures r.bitBuf < Pow2(r.numBits) && r.Rest() == LsbBits(r.bitBuf, r.numBits) + BytesBits(r.input[r.pos..])
      ensures point.Lengths? || point.Payload? || point.Holding? ==> r.numBits % 8 == 0
    {
      hide LsbBits, BytesBits;
    }

    // The bits kept from call to call.
    ghost function Kept(): (r: seq<bool>)
      reads this
      ensures |r| == numBits
    {
      LsbBits(bitBuf, numBits)
    }
  }

  function Rank(p: Point): nat {
    if p.Lengths? || p.Holding? then 2 else if p.Payload? then 1 else 0
  }

  // With so few bits nothing can be done before more come.
  ghost predicate Hungry(p: Point, n: nat, bits: nat) {
    || (p.Header? && bits < 3)
    || (p.Lengths? && |p.raw| < 4 && bits < 8)
    || (p.Payload? && n > 0 && bits < 8)
  }

  // ---------- runs of calls ----------

  // The input a call adds to what the last one left unread, and the room it gives.
  datatype Call = Call(input: seq<byte>, room: nat)

  function Inputs(calls: seq<Call>): seq<byte> {
    if calls == [] then [] else calls[0].input + Inputs(calls[1..])
  }

  // What the whole input means.
  ghost function Meaning(input: seq<byte>): Option<seq<byte>> {
    BytesLong(input);
    StoredOnly(BytesBits(input), 8 * |input|)
  }

  lemma BytesLong(s: seq<byte>)
    ensures |BytesBits(s)| == 8 * |s|
  {}

  lemma NextCall(kept: seq<bool>, held: seq<byte>, calls: seq<Call>)
    requires calls != []
    ensures kept + BytesBits(held + calls[0].input) + BytesBits(Inputs(calls[1..])) == kept + BytesBits(held) + BytesBits(Inputs(calls))
  {
    hide BytesBits;
    var a, b, c := BytesBits(held), BytesBits(calls[0].input), BytesBits(Inputs(calls[1..]));
    BytesBitsConcat(held, calls[0].input);
    BytesBitsConcat(calls[0].input, Inputs(calls[1..]));
    assert kept + (a + b) + c == kept + a + (b + c);
  }

  // However the input and the room are cut up: a session that ends has put out what the input means,
  // and one that never ran out of room on an input that means something ends.
  method Session(calls: seq<Call>) returns (status: Progress, out: seq<byte>)
    ensures status.Ended? ==> Meaning(Inputs(calls)) == Some(out) && Inflated(BytesBits(Inputs(calls)), 0, []) == Some(out)
    ensures Meaning(Inputs(calls)).Some? ==> out <= Meaning(Inputs(calls)).value && (status.Ended? || status.NoRoom?)
  {
    hide StoredOnly, Owed, BytesBits, LsbBits, Inputs, Inflated;
    var m := new Inflator();
    ghost var end := 8 * |Inputs(calls)|;
    var held: seq<byte> := [];
    status, out := NeedsMore, [];
    Opening(m, calls);
    var i := 0;
    while i < |calls|
      invariant fresh(m) && 0 <= i <= |calls| && m.Between()
      invariant |m.Kept() + BytesBits(held) + BytesBits(Inputs(calls[i..]))| <= end
      invariant Meaning(Inputs(calls)) == Then(out, m.Due(m.Kept() + BytesBits(held) + BytesBits(Inputs(calls[i..])), end))
      invariant status.Ended? ==> m.point.Finished?
      invariant status.Refused? ==> m.point.Broken?
      invariant status.NotStored? ==> m.point.Coded?
      invariant i == |calls| && status.NeedsMore? ==> Meaning(Inputs(calls)) == None
    {
      ghost var future := BytesBits(Inputs(calls[i + 1..]));
      NextCall(m.Kept(), held, calls[i..]);
      assert calls[i..][1..] == calls[i + 1..];
      BytesLong(Inputs(calls[i + 1..]));
      var input, used, o := held + calls[i].input, 0, [];
      status, used, o := m.Resume(input, calls[i].room, future, end);
      NoMoreCalls(calls[i + 1..]);
      held := input[used..];
      ThenThen(out, o, m.Due(m.Kept() + BytesBits(held) + future, end));
      out := out + o;
      i := i + 1;
    }
    Closing(m, held, calls[i..], end, out);
    if status.Ended? {
      BytesLong(Inputs(calls));
      StoredOnlyInflates(BytesBits(Inputs(calls)), end, []);
      assert [] + out == out;
    }
  }

  lemma NoMoreCalls(calls: seq<Call>)
    ensures calls == [] ==> BytesBits(Inputs(calls)) == []
  {}

  lemma Opening(m: Inflator, calls: seq<Call>)
    requires m.Between() && m.point.Header? && m.numBits == 0
    ensures |m.Kept() + BytesBits([]) + BytesBits(Inputs(calls))| <= 8 * |Inputs(calls)|
    ensures Meaning(Inputs(calls)) == Then([], m.Due(m.Kept() + BytesBits([]) + BytesBits(Inputs(calls)), 8 * |Inputs(calls)|))
    ensures calls == [] ==> Meaning(Inputs(calls)) == None
  {
    hide StoredOnly, BytesBits, Inputs;
    BytesLong([]);
    BytesLong(Inputs(calls));
    assert m.Kept() + BytesBits([]) + BytesBits(Inputs(calls)) == BytesBits(Inputs(calls));
    NothingFirst(Meaning(Inputs(calls)));
    NoMoreCalls(calls);
    Starved(Header, false, 0, [], 0);
  }

  lemma Closing(m: Inflator, held: seq<byte>, calls: seq<Call>, end: nat, out: seq<byte>)
    requires m.Between() && |m.Kept() + BytesBits(held) + BytesBits(Inputs(calls))| <= end
    ensures var meaning := Then(out, m.Due(m.Kept() + BytesBits(held) + BytesBits(Inputs(calls)), end));
      && (m.point.Finished? ==> meaning == Some(out))
      && (m.point.Broken? || m.point.Coded? ==> meaning == None)
      && (meaning.Some? ==> out <= meaning.value)
  {
    hide BytesBits, Inputs, LsbBits, StoredOnly, Sized, Body;
    assert out + [] == out;
  }
}
