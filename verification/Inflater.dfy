/** The decompressor: block after block, into a fixed output or a circular one. Of every valid stream the
    output gets what the stream means, or as much as there is room for. */
module Inflater {
  import opened Wrappers
  import opened Sums
  import opened Bits
  import opened Lz77
  import opened BitOutput
  import opened DecodeTable
  import opened Canonical
  import opened InflateTable
  import opened BlockCodec
  import opened CodeHeader
  import opened CodeTables
  import opened StaticBlock
  import opened Inflate
  import opened BitInput
  import opened TableDecode
  import opened OutputBuffer
  import opened Outcomes
  import opened HeaderReader
  import opened CodedBlock
  import opened StoredBlock

  // A block coded with tables for these sizes.
  method InflateWith(r: Reader, lit: array<nat>, numLit: nat, dist: array<nat>, numDist: nat, o: Output)
    returns (status: Status)
    requires r.Valid() && o.Valid() && numLit <= lit.Length == 288 && numDist <= dist.Length == 288 && numDist <= 32
    requires forall i :: 0 <= i < numLit ==> lit[i] <= MAX_BITS
    requires forall i :: 0 <= i < numDist ==> dist[i] <= MAX_BITS
    modifies r`pos, r`bitBuf, r`numBits, o`pos, o`sent, o`left, o.buf
    ensures r.Valid() && |r.Rest()| <= |old(r.Rest())|
    ensures o.Valid() && o.Capacity() == old(o.Capacity()) && Midway(status)
    ensures var l, d := Padded(lit[..numLit], 288), Padded(dist[..numDist], 32);
      var c := Codes(Words(l), Words(d));
      Accepts(l) && Accepts(d) ==>
        Ended(!o.wraps && RunsOver(c, old(r.Rest()), old(o.All()), o.Capacity()), o.Wide(),
                  ReadCoded(c, old(r.Rest()), old(o.All())), o.Capacity(), status, o.All(), r.Rest())
    ensures status == Fine ==>
      var l, d := Padded(lit[..numLit], 288), Padded(dist[..numDist], 32);
      var c := Codes(Words(l), Words(d));
      && Accepts(l) && Accepts(d)
      && (!o.wraps && Whole(c, old(r.Rest())) ==> ReadCoded(c, old(r.Rest()), old(o.All())) == Got(o.All(), r.Rest()))
    ensures status == Overrun ==> numLit > 286
  {
    hide Accepts, Decodes, Words, ReadCoded, RunsOver, Heads, Ended, Padded, Whole, Reader.Valid, Reader.Rest,
      Output.Valid, Output.All, Output.Capacity;
    PaddedLength(lit[..numLit], 288);
    PaddedLength(dist[..numDist], 32);
    PaddedWords(lit[..numLit], 288);
    PaddedWords(dist[..numDist], 32);
    ghost var l, d := Padded(lit[..numLit], 288), Padded(dist[..numDist], 32);
    var ok, lookUp0, tree0, lookUp1, tree1;
    ghost var at0, at1;
    ok, lookUp1, tree1, at1 := MakeTable(dist, numDist);
    if !ok {
      return Failed;
    }
    ok, lookUp0, tree0, at0 := MakeTable(lit, numLit);
    if !ok {
      return Failed;
    }
    status := InflateCoded(r, lookUp0, tree0, lookUp1, tree1, o,
      Words(lit[..numLit]), at0, Words(dist[..numDist]), at1, Codes(Words(l), Words(d)));
  }

  lemma PaddedLength(sizes: seq<nat>, n: nat)
    requires |sizes| <= n
    ensures |Padded(sizes, n)| == n
  {}

  // Whether a block's symbols run over the end of a fixed output.
  ghost predicate BodyRunsOver(kind: nat, bits: seq<bool>, out: seq<byte>, room: nat) {
    if kind == 1 then RunsOver(StaticCodes(), bits, out, room)
    else if kind == 2 then
      match ReadHeader(bits)
      case Bad => false
      case Got(h, rest) =>
        |h.0| == 288 && |h.1| == 32 && RunsOver(Codes(Words(h.0), Words(h.1)), rest, out, room)
    else false
  }

  // A block with the fixed codes.
  method InflateStatic(r: Reader, o: Output) returns (status: Status)
    requires r.Valid() && o.Valid()
    modifies r`pos, r`bitBuf, r`numBits, o`pos, o`sent, o`left, o.buf
    ensures r.Valid() && |r.Rest()| <= |old(r.Rest())|
    ensures o.Valid() && o.Capacity() == old(o.Capacity()) && Midway(status)
    ensures |StaticCodes().litLen| == 288 && |StaticCodes().dist| == 32
    ensures Ended(!o.wraps && RunsOver(StaticCodes(), old(r.Rest()), old(o.All()), o.Capacity()), o.Wide(),
                  ReadCoded(StaticCodes(), old(r.Rest()), old(o.All())), o.Capacity(), status, o.All(), r.Rest())
    ensures status == Fine && !o.wraps && Unreserved(StaticCodes(), old(r.Rest())) ==>
      ReadCoded(StaticCodes(), old(r.Rest()), old(o.All())) == Got(o.All(), r.Rest())
  {
    hide Accepts, Words, StaticLit, StaticDist, Fits, ReadCoded, RunsOver, Ended, Padded, Unreserved, NoGap, Reader.Valid, Reader.Rest,
      Output.Valid, Output.All, Output.Capacity;
    StaticNoGap();
    var lit, dist := StaticSizes();
    StaticFit();
    Unpadded(lit[..288], dist[..32]);
    status := InflateWith(r, lit, 288, dist, 32, o);
  }

  lemma StaticNoGap()
    ensures |StaticCodes().litLen| == 288 && |StaticCodes().dist| == 32
    ensures NoGap(StaticCodes().litLen) && NoGap(StaticCodes().dist)
  {
    hide NoGap, Words, StaticLit, StaticDist, Fits, Complete;
    StaticShape();
    StaticComplete();
    CompleteIs(StaticLit(), 9);
    CompleteIs(StaticDist(), 5);
    Wider(StaticLit(), 9, MAX_BITS);
    Wider(StaticDist(), 5, MAX_BITS);
    CompleteNoGap(StaticLit());
    CompleteNoGap(StaticDist());
  }

  lemma CompleteIs(sizes: seq<nat>, m: nat)
    ensures Complete(sizes, m) ==> Fits(sizes, m)
  {}

  // A block whose codes are complete and whose matches are all of the format.
  ghost predicate BodyWhole(kind: nat, bits: seq<bool>) {
    if kind == 1 then |StaticCodes().litLen| == 288 && |StaticCodes().dist| == 32 && Unreserved(StaticCodes(), bits)
    else if kind == 2 then
      HeaderWhole(bits) && match ReadHeader(bits)
        case Bad => true
        case Got(h, rest) =>
          && |h.0| == 288 && |h.1| == 32 && Complete(h.0, MAX_BITS) && Complete(h.1, MAX_BITS)
          && Unreserved(Codes(Words(h.0), Words(h.1)), rest)
    else kind == 0 || kind == 3
  }

  // The codes of a whole block have no gaps.
  lemma WholeCodes(bits: seq<bool>)
    requires BodyWhole(2, bits) && ReadHeader(bits).Got?
    ensures var h := ReadHeader(bits);
      |h.value.0| == 288 && |h.value.1| == 32 && Whole(Codes(Words(h.value.0), Words(h.value.1)), h.rest)
  {
    hide NoGap, Words, ReadHeader, Unreserved, Complete;
    var h := ReadHeader(bits);
    CompleteNoGap(h.value.0);
    CompleteNoGap(h.value.1);
  }

  // The body of one block.
  method InflateBody(r: Reader, kind: nat, o: Output, ghost at: nat) returns (status: Status)
    requires r.Valid() && o.Valid() && Padding(at) == r.numBits % 8
    modifies r`pos, r`bitBuf, r`numBits, o`pos, o`sent, o`left, o.buf
    ensures r.Valid() && |r.Rest()| <= |old(r.Rest())|
    ensures o.Valid() && o.Capacity() == old(o.Capacity()) && Midway(status)
    ensures Ended(!o.wraps && BodyRunsOver(kind, old(r.Rest()), old(o.All()), o.Capacity()), o.Wide(),
                  ReadBody(kind, old(r.Rest()), at, old(o.All())), o.Capacity(), status, o.All(), r.Rest())
    ensures status == Fine && !o.wraps && BodyWhole(kind, old(r.Rest())) ==>
      ReadBody(kind, old(r.Rest()), at, old(o.All())) == Got(o.All(), r.Rest())
  {
    hide Accepts, Words, StaticCodes, ReadCoded, RunsOver, ReadStored, ReadHeader, Padded, Reached, Whole, Unreserved, HeaderWhole,
      Complete, Reader.Valid, Reader.Rest, Output.Valid, Output.All, Output.Capacity;
    BadIsReached(o.All(), o.Capacity());
    if kind == 0 {
      status := InflateStored(r, o, at);
    } else if kind == 3 {
      status := Failed;
    } else if kind == 1 {
      status := InflateStatic(r, o);
    } else {
      ghost var bits := r.Rest();
      var lit, numLit, dist, numDist;
      status, lit, numLit, dist, numDist := ReadDynamic(r);
      if status != Fine {
        return;
      }
      HeaderShape(bits);
      if BodyWhole(2, bits) && ReadHeader(bits).Got? {
        WholeCodes(bits);
      }
      status := InflateWith(r, lit, numLit, dist, numDist, o);
    }
  }

  lemma HeaderShape(bits: seq<bool>)
    ensures ReadHeader(bits).Got? ==> Accepts(ReadHeader(bits).value.0) && Accepts(ReadHeader(bits).value.1)
  {
    hide Accepts, ReadListed, ReadCounts, Padded;
  }

  lemma Unpadded(lit: seq<nat>, dist: seq<nat>)
    requires |lit| == 288 && |dist| == 32
    ensures Padded(lit, 288) == lit && Padded(dist, 32) == dist
  {}

  method StaticSizes() returns (lit: array<nat>, dist: array<nat>)
    ensures fresh(lit) && fresh(dist) && lit.Length == dist.Length == 288
    ensures lit[..288] == StaticLit() && dist[..32] == StaticDist()
    ensures forall i :: 0 <= i < 288 ==> lit[i] <= MAX_BITS
    ensures forall i :: 0 <= i < 32 ==> dist[i] <= MAX_BITS
  {
    lit := new nat[288](_ => 0);
    for i := 0 to 288
      invariant forall j :: 0 <= j < i ==> lit[j] == StaticSize(j)
    {
      lit[i] := if i <= 143 then 8 else if i <= 255 then 9 else if i <= 279 then 7 else 8;
    }
    StaticLitAt(lit[..]);
    assert lit[..288] == lit[..];
    dist := new nat[288](_ => 0);
    for i := 0 to 32
      invariant lit[..288] == StaticLit() && forall j :: 0 <= j < 288 ==> lit[j] <= MAX_BITS
      invariant forall j :: 0 <= j < i ==> dist[j] == 5
    {
      dist[i] := 5;
    }
    assert dist[..32] == StaticDist();
  }

  // What a valid stream's next block says.
  lemma BlockSays(bits: seq<bool>, at: nat, out: seq<byte>)
    requires Inflated(bits, at, out).Some?
    ensures ReadBits(bits, 3).Got?
    ensures var h := ReadBits(bits, 3);
      var body := ReadBody(h.value / 2, h.rest, at + 3, out);
      && body.Got? && |body.rest| <= |h.rest| < |bits|
      && Inflated(bits, at, out)
        == (if h.value % 2 == 1 then Some(body.value) else Inflated(body.rest, at + |bits| - |body.rest|, body.value))
  {
    hide ReadBody, Value, Inflated;
    InflatedUnfolds(bits, at, out);
    HeaderBitsSplit(bits);
  }

  lemma InflatedUnfolds(bits: seq<bool>, at: nat, out: seq<byte>)
    ensures Inflated(bits, at, out) == match ReadBlock(bits, at, out)
      case Bad => None
      case Got(r, rest) => if r.0 then Some(r.1) else Inflated(rest, at + |bits| - |rest|, r.1)
  {
    hide ReadBlock;
  }

  // Three bits at once are the final bit and the two of the type.
  lemma HeaderBitsSplit(bits: seq<bool>)
    requires |bits| >= 3
    ensures Value(bits[..3]) % 2 == Value(bits[..1]) && Value(bits[..3]) / 2 == Value(bits[1..][..2]) && bits[1..][2..] == bits[3..]
  {
    hide Value;
    ValueConcat(bits[..1], bits[1..][..2]);
    assert bits[..3] == bits[..1] + bits[1..][..2];
    TwoPowers();
  }

  // The phase of a position in its byte is told by the bits still in the accumulator.
  lemma Phase(total: nat, left: nat, numBits: nat, at: nat)
    requires total % 8 == 0 && at + left == total && left % 8 == numBits % 8
    ensures Padding(at) == numBits % 8
  {}

  lemma GrowsOn(bits: seq<bool>, at: nat, out: seq<byte>)
    ensures Inflated(bits, at, out).Some? ==> out <= Inflated(bits, at, out).value
    decreases |bits|
  {
    hide ReadBody, Value, Inflated;
    if Inflated(bits, at, out).Some? {
      BlockSays(bits, at, out);
      var h := ReadBits(bits, 3);
      var body := ReadBody(h.value / 2, h.rest, at + 3, out);
      BodyGrows(h.value / 2, h.rest, at + 3, out);
      if h.value % 2 != 1 {
        GrowsOn(body.rest, at + |bits| - |body.rest|, body.value);
      }
    }
  }

  lemma BodyGrows(kind: nat, bits: seq<bool>, at: nat, out: seq<byte>)
    ensures ReadBody(kind, bits, at, out).Got? ==> out <= ReadBody(kind, bits, at, out).value
  {
    hide ReadCoded, ReadStored, ReadHeader, Words;
    if ReadBody(kind, bits, at, out).Got? {
      if kind == 1 {
        StaticShape();
        CodedGrows(StaticCodes(), bits, out);
      } else if kind == 2 {
        var h := ReadHeader(bits);
        CodedGrows(Codes(Words(h.value.0), Words(h.value.1)), h.rest, out);
      }
    }
  }

  // A block's output is a first part of the stream's.
  lemma BodyWithin(body: Read<seq<byte>>, header: nat, bits: seq<bool>, at: nat, out: seq<byte>, goal: Option<seq<byte>>)
    requires goal.Some? && body.Got? && |body.rest| <= |bits|
    requires goal == if header % 2 == 1 then Some(body.value) else Inflated(body.rest, at + |bits| - |body.rest|, body.value)
    ensures body.value <= goal.value
  {
    if header % 2 != 1 {
      GrowsOn(body.rest, at + |bits| - |body.rest|, body.value);
    }
  }

  lemma ThreeTaken(bits: seq<bool>)
    ensures ReadBits(bits, 3).Got? ==> |ReadBits(bits, 3).rest| == |bits| - 3
  {}

  // Whether the blocks of a stream lead to a match that runs over the end of a fixed output.
  ghost predicate StreamRunsOver(bits: seq<bool>, at: nat, out: seq<byte>, room: nat)
    decreases |bits|
  {
    match ReadBits(bits, 3)
    case Bad => false
    case Got(header, rest) =>
      || BodyRunsOver(header / 2, rest, out, room)
      || (header % 2 == 0 && match ReadBody(header / 2, rest, at + 3, out)
          case Bad => false
          case Got(out', rest') => |out'| <= room && StreamRunsOver(rest', at + |bits| - |rest'|, out', room))
  }

  lemma BlockRunsOver(bits: seq<bool>, at: nat, out: seq<byte>, room: nat)
    requires StreamRunsOver(bits, at, out, room)
    ensures ReadBits(bits, 3).Got?
    ensures var h := ReadBits(bits, 3);
      var body := ReadBody(h.value / 2, h.rest, at + 3, out);
      || BodyRunsOver(h.value / 2, h.rest, out, room)
      || (h.value % 2 == 0 && body.Got? && |body.value| <= room && |body.rest| <= |bits|
          && StreamRunsOver(body.rest, at + |bits| - |body.rest|, body.value, room))
  {
    hide ReadBody, BodyRunsOver, ReadBits;
  }

  // Every block is whole, as far as the blocks can be read.
  ghost predicate StreamWhole(bits: seq<bool>, at: nat, out: seq<byte>)
    decreases |bits|
  {
    match ReadBits(bits, 3)
    case Bad => true
    case Got(header, rest) =>
      && BodyWhole(header / 2, rest)
      && (header % 2 == 0 ==> match ReadBody(header / 2, rest, at + 3, out)
          case Bad => true
          case Got(out', rest') => StreamWhole(rest', at + |bits| - |rest'|, out'))
  }

  // What the stream means from here on is what it meant from its start, whatever that is.
  ghost predicate Tracked(bits: seq<bool>, at: nat, out: seq<byte>, goal: Option<seq<byte>>, sure: bool) {
    sure ==> Inflated(bits, at, out) == goal && StreamWhole(bits, at, out)
  }

  // A block is read as its body says, and the stream goes on after it or has come to its end.
  lemma TrackBlock(bits: seq<bool>, at: nat, out: seq<byte>, goal: Option<seq<byte>>, sure: bool,
                   header: nat, rest: seq<bool>, out': seq<byte>, rest': seq<bool>)
    requires Tracked(bits, at, out, goal, sure) && ReadBits(bits, 3) == Got(header, rest) && |rest'| <= |rest|
    requires sure && BodyWhole(header / 2, rest) ==> ReadBody(header / 2, rest, at + 3, out) == Got(out', rest')
    ensures |rest'| < |bits|
    ensures header % 2 == 0 ==> Tracked(rest', at + |bits| - |rest'|, out', goal, sure)
    ensures header % 2 == 1 && sure ==> goal == Some(out')
  {
    hide Inflated, ReadBody, Value, BodyWhole;
    if sure {
      InflatedUnfolds(bits, at, out);
      HeaderBitsSplit(bits);
    }
  }

  // What a whole run comes to.
  ghost predicate Delivered(goal: Option<seq<byte>>, room: nat, status: Status, out: seq<byte>) {
    goal.Some? ==>
      if |goal.value| <= room then status == Done && out == goal.value
      else status == HasMoreOutput && out == goal.value[..room]
  }

  ghost predicate Outcome(over: bool, valid: bool, goal: Option<seq<byte>>, room: nat, status: Status, out: seq<byte>) {
    && (over ==> status == Overrun)
    && (valid ==> Delivered(goal, room, status, out))
  }

  // What is still to come of a stream.
  ghost predicate OnStream(bits: seq<bool>, at: nat, out: seq<byte>, goal: Option<seq<byte>>, room: nat, valid: bool, over: bool) {
    && (valid ==> goal.Some? && Inflated(bits, at, out) == goal)
    && (over ==> StreamRunsOver(bits, at, out, room))
  }

  // A block is taken, and the stream goes on after it or has come to its end.
  lemma BlockTaken(bits: seq<bool>, at: nat, out: seq<byte>, goal: Option<seq<byte>>, room: nat, valid: bool, over: bool,
                   header: nat, rest: seq<bool>, status: Status, out': seq<byte>, rest': seq<bool>)
    requires OnStream(bits, at, out, goal, room, valid, over) && Midway(status) && |out'| <= room && |rest'| <= |rest|
    requires ReadBits(bits, 3) == Got(header, rest)
    requires Ended(over && BodyRunsOver(header / 2, rest, out, room), valid || over,
      ReadBody(header / 2, rest, at + 3, out), room, status, out', rest')
    ensures |rest'| < |bits|
    ensures status == Fine && header % 2 == 0 ==> OnStream(rest', at + |bits| - |rest'|, out', goal, room, valid, over)
    ensures status == Fine && header % 2 == 1 ==> Outcome(over, valid, goal, room, Done, out')
    ensures status != Fine ==> Outcome(over, valid, goal, room, status, out')
  {
    hide Inflated, ReadBody, ReadBits, Value, StreamRunsOver, BodyRunsOver;
    ThreeTaken(bits);
    var body := ReadBody(header / 2, rest, at + 3, out);
    if valid {
      BlockSays(bits, at, out);
      BodyWithin(body, header, bits, at, out, goal);
    }
    if over {
      BlockRunsOver(bits, at, out, room);
    }
  }

  lemma NoHeader(bits: seq<bool>, at: nat, out: seq<byte>, goal: Option<seq<byte>>, room: nat, valid: bool, over: bool)
    requires OnStream(bits, at, out, goal, room, valid, over) && ReadBits(bits, 3).Bad?
    ensures !valid && !over
  {
    hide Inflated, StreamRunsOver, ReadBits;
    if valid {
      BlockSays(bits, at, out);
    }
    if over {
      BlockRunsOver(bits, at, out, room);
    }
  }

  // Decompresses a whole stream. Of any stream that means something the output gets just that, or as much
  // as there is room for.
  method InflateStream(r: Reader, o: Output) returns (status: Status)
    requires r.Valid() && r.pos == 0 && r.numBits == 0 && o.Valid() && o.All() == []
    modifies r`pos, r`bitBuf, r`numBits, o`pos, o`sent, o`left, o.buf
    ensures o.Valid() && o.Capacity() == old(o.Capacity())
    ensures status != Fine && (status == BadParam <==> o.wraps && !IsPowerOfTwo(o.buf.Length))
    ensures o.Wide() && status != BadParam ==> Delivered(Inflated(old(r.Rest()), 0, []), o.Capacity(), status, o.All())
    ensures !o.wraps && StreamRunsOver(old(r.Rest()), 0, [], o.Capacity()) ==> status == Overrun
    ensures status == Done && !o.wraps && StreamWhole(old(r.Rest()), 0, []) ==> Inflated(old(r.Rest()), 0, []) == Some(o.All())
  {
    hide StreamWhole, BodyWhole, Tracked, Inflated, Delivered, OnStream, Ended, Outcome, IsPowerOfTwo, ReadBody, BytesBits, Padding, ReadBits, Value,
      StreamRunsOver, BodyRunsOver, Output.Wide, Reader.Valid, Reader.Rest, Output.Valid, Output.All,
      Output.Capacity;
    if o.wraps && !IsPowerOfTwo(o.buf.Length) {
      return BadParam;
    }
    ghost var room, at := o.Capacity(), 0;
    ghost var goal, over := Inflated(r.Rest(), 0, []), !o.wraps && StreamRunsOver(r.Rest(), 0, [], room);
    ghost var valid, sure := goal.Some? && o.Wide(), !o.wraps && StreamWhole(r.Rest(), 0, []);
    TrackStart(r.Rest(), sure);
    NothingGiven(room);
    FixedIsWide(o);
    StreamSet(r.Rest(), goal, room, valid, over);
    o.Within();
    while true
      invariant r.Valid() && o.Valid() && o.Capacity() == room >= |o.All()| && at + |r.Rest()| == 8 * |r.input|
      invariant OnStream(r.Rest(), at, o.All(), goal, room, valid, over) && Tracked(r.Rest(), at, o.All(), goal, sure)
      decreases |r.Rest()|
    {
      ghost var bits, a := r.Rest(), o.All();
      var ok, header := r.GetBits(3);
      if !ok {
        NoHeader(bits, at, a, goal, room, valid, over);
        return NeedsMoreInput;
      }
      ThreeTaken(bits);
      ghost var rest := r.Rest();
      Phase(8 * |r.input|, |rest|, r.numBits, at + 3);
      status := InflateBody(r, header / 2, o, at + 3);
      o.Within();
      EndedAlso(!o.wraps, BodyRunsOver(header / 2, rest, a, room), o.Wide(), over, valid || over,
                ReadBody(header / 2, rest, at + 3, a), room, status, o.All(), r.Rest());
      BlockTaken(bits, at, a, goal, room, valid, over, header, rest, status, o.All(), r.Rest());
      OutcomeSays(over, valid, goal, room, if status == Fine then Done else status, o.All());
      if status != Fine {
        return;
      }
      TrackBlock(bits, at, a, goal, sure, header, rest, o.All(), r.Rest());
      at := at + |bits| - |r.Rest()|;
      if header % 2 == 1 {
        return Done;
      }
    }
  }

  lemma TrackStart(bits: seq<bool>, sure: bool)
    requires sure ==> StreamWhole(bits, 0, [])
    ensures Tracked(bits, 0, [], Inflated(bits, 0, []), sure)
  {}

  lemma FixedIsWide(o: Output)
    ensures !o.wraps ==> o.Wide()
  {}

  // Less asked of the end of a block.
  lemma EndedAlso(fixed: bool, over: bool, wide: bool, over': bool, valid: bool,
                  goal: Read<seq<byte>>, room: nat, status: Status, out: seq<byte>, rest: seq<bool>)
    requires Ended(fixed && over, wide, goal, room, status, out, rest) && (over' ==> fixed) && (valid ==> wide)
    ensures Ended(over' && over, valid, goal, room, status, out, rest)
  {}

  lemma OutcomeSays(over: bool, valid: bool, goal: Option<seq<byte>>, room: nat, status: Status, out: seq<byte>)
    ensures Outcome(over, valid, goal, room, status, out) <==>
      (over ==> status == Overrun) && (valid ==> Delivered(goal, room, status, out))
  {}

  lemma StreamSet(bits: seq<bool>, goal: Option<seq<byte>>, room: nat, valid: bool, over: bool)
    requires goal == Inflated(bits, 0, []) && (valid ==> goal.Some?) && (over ==> StreamRunsOver(bits, 0, [], room))
    ensures OnStream(bits, 0, [], goal, room, valid, over)
  {}

  lemma NothingGiven(room: nat)
    ensures forall status, out :: Delivered(None, room, status, out)
  {}

  // Into a buffer of the caller's.
  method Decompress(input: seq<byte>, out: array<byte>) returns (status: Status, n: nat)
    modifies out
    ensures n <= out.Length && status != Fine
    ensures Delivered(Inflated(BytesBits(input), 0, []), out.Length, status, out[..n])
    ensures StreamRunsOver(BytesBits(input), 0, [], out.Length) ==> status == Overrun
    ensures status == Done && StreamWhole(BytesBits(input), 0, []) ==> Inflated(BytesBits(input), 0, []) == Some(out[..n])
  {
    hide Inflated, BytesBits, StreamRunsOver, StreamWhole;
    var r := new Reader(input);
    var o := new Output.Fixed(out);
    status := InflateStream(r, o);
    n := o.pos;
    assert o.All() == out[..n];
  }

  // Into a circular buffer that a callback is handed each time it is full and once more at the end.
  method DecompressToCallback(input: seq<byte>, accepted: nat) returns (ok: bool, sent: seq<byte>)
    ensures var goal := Inflated(BytesBits(input), 0, []);
      goal.Some? ==>
        && (ok <==> |goal.value| <= LZ_DICT_SIZE * accepted)
        && sent == if ok then goal.value else goal.value[..LZ_DICT_SIZE * accepted]
  {
    hide Inflated, BytesBits, Delivered, StreamRunsOver, IsPowerOfTwo, Reader.Rest, Output.Valid, Output.All,
      Output.Capacity;
    var dict := new byte[LZ_DICT_SIZE];
    var r := new Reader(input);
    var o := new Output.Circular(dict, accepted);
    DictIsPowerOfTwo();
    var status := InflateStream(r, o);
    HandedOver(o, accepted, Inflated(BytesBits(input), 0, []), status);
    sent := o.sent;
    if o.pos > 0 {
      if o.left == 0 {
        return false, sent;
      }
      sent := sent + dict[..o.pos];
    }
    ok := status == Done;
  }

  lemma DictIsPowerOfTwo()
    ensures IsPowerOfTwo(LZ_DICT_SIZE)
  {
    PowerIsOne(15);
    Pow2Table();
  }

  // What has been handed over at the end, and what is left in the buffer for the last time.
  lemma HandedOver(o: Output, accepted: nat, goal: Option<seq<byte>>, status: Status)
    requires o.Valid() && o.buf.Length == LZ_DICT_SIZE && o.Capacity() == LZ_DICT_SIZE * (1 + accepted)
    requires Delivered(goal, o.Capacity(), status, o.All())
    ensures o.pos <= LZ_DICT_SIZE
    ensures goal.Some? ==>
      var all := if o.pos > 0 && o.left > 0 then o.sent + o.buf[..o.pos] else o.sent;
      var ok := status == Done && (o.pos == 0 || o.left > 0);
      && (ok <==> |goal.value| <= LZ_DICT_SIZE * accepted)
      && all == if ok then goal.value else goal.value[..LZ_DICT_SIZE * accepted]
  {
    assert |o.sent| + LZ_DICT_SIZE * o.left == LZ_DICT_SIZE * accepted;
    assert o.All()[..|o.sent|] == o.sent;
  }
}
