/** What a compressed stream means (section 3.2.3 of RFC 1951): blocks, each stored or coded, up to the
    one marked final. The lemmas say that each kind of block the compressor writes is read back. */
module Inflate {
  import opened Wrappers
  import opened Sums
  import opened Bits
  import opened Lz77
  import opened TokenBuffer
  import opened BitOutput
  import opened DecodeTable
  import opened InflateTable
  import opened BlockCodec
  import opened LzCodes
  import opened CodeHeader
  import opened DynamicBlock
  import opened StaticBlock

  function ReadBytes(bits: seq<bool>, n: nat): (r: Read<seq<byte>>)
    ensures r.Got? ==> |r.rest| <= |bits|
    decreases n
  {
    if n == 0 then Got([], bits)
    else
      match ReadBits(bits, 8)
      case Bad => Bad
      case Got(b, rest) =>
        ByteValue(bits);
        match ReadBytes(rest, n - 1)
        case Bad => Bad
        case Got(bs, rest) => Got([b as byte] + bs, rest)
  }

  lemma ByteValue(bits: seq<bool>)
    ensures |bits| >= 8 ==> Value(bits[..8]) < 256
  {
    Pow2Table();
  }

  // A stored block's bytes: after the next byte boundary their number, its complement, and they.
  function ReadStored(bits: seq<bool>, at: nat): (r: Read<seq<byte>>)
    ensures r.Got? ==> |r.rest| <= |bits|
  {
    match ReadBits(bits, Padding(at))
    case Bad => Bad
    case Got(_, rest) =>
      match ReadBits(rest, 16)
      case Bad => Bad
      case Got(len, rest) =>
        match ReadBits(rest, 16)
        case Bad => Bad
        case Got(nlen, rest) => if len + nlen != 0xFFFF then Bad else ReadBytes(rest, len)
  }

  // Tokens under two codes, expanded.
  ghost function ReadCoded(c: Codes, bits: seq<bool>, out: seq<byte>): (r: Read<seq<byte>>)
    requires |c.litLen| == 288 && |c.dist| == 32
    ensures r.Got? ==> |r.rest| <= |bits|
  {
    ReadTokensShorter(c, bits);
    match ReadTokens(c, bits)
    case Bad => Bad
    case Got(ts, rest) =>
      match Expand(out, ts)
      case None => Bad
      case Some(out') => Got(out', rest)
  }

  lemma {:induction false} ReadTokensShorter(c: Codes, bits: seq<bool>)
    requires |c.litLen| == 288 && |c.dist| == 32
    ensures ReadTokens(c, bits).Got? ==> |ReadTokens(c, bits).rest| <= |bits|
    decreases |bits|
  {
    hide ReadSymbol, ReadMatch;
    match ReadSymbol(c.litLen, bits) {
      case Bad =>
      case Got(sym, rest) =>
        if sym < 256 {
          ReadTokensShorter(c, rest);
        } else if sym > 256 {
          match ReadMatch(c, sym, rest) {
            case Bad =>
            case Got(_, rest) => ReadTokensShorter(c, rest);
          }
        }
    }
  }

  // The output after a block's body.
  ghost function ReadBody(kind: nat, bits: seq<bool>, at: nat, out: seq<byte>): (r: Read<seq<byte>>)
    ensures r.Got? ==> |r.rest| <= |bits|
  {
    if kind == 0 then
      match ReadStored(bits, at)
      case Bad => Bad
      case Got(bytes, rest) => Got(out + bytes, rest)
    else if kind == 1 then ReadCoded(StaticCodes(), bits, out)
    else if kind == 2 then
      match ReadHeader(bits)
      case Bad => Bad
      case Got(sizes, rest) =>
        if |sizes.0| == 288 && |sizes.1| == 32 && |rest| <= |bits| then
          ReadCoded(Codes(Words(sizes.0), Words(sizes.1)), rest, out)
        else Bad
    else Bad
  }

  // One block: whether it is the last, and the output after it.
  ghost function ReadBlock(bits: seq<bool>, at: nat, out: seq<byte>): (r: Read<(bool, seq<byte>)>)
    ensures r.Got? ==> |r.rest| < |bits|
  {
    match ReadBits(bits, 1)
    case Bad => Bad
    case Got(final, rest) =>
      match ReadBits(rest, 2)
      case Bad => Bad
      case Got(kind, rest) =>
        match ReadBody(kind, rest, at + 3, out)
        case Bad => Bad
        case Got(out', rest) => Got((final == 1, out'), rest)
  }

  // The output of a stream that goes on with these bits at position `at`.
  ghost function Inflated(bits: seq<bool>, at: nat, out: seq<byte>): Option<seq<byte>>
    decreases |bits|
  {
    match ReadBlock(bits, at, out)
    case Bad => None
    case Got(r, rest) =>
      if r.0 then Some(r.1) else Inflated(rest, at + |bits| - |rest|, r.1)
  }

  // ---------- what the blocks written are read as ----------

  ghost predicate BodyFor(kind: nat, body: seq<bool>, at: nat, out: seq<byte>, out': seq<byte>) {
    forall rest :: ReadBody(kind, body + rest, at, out) == Got(out', rest)
  }

  ghost predicate BlockFor(block: seq<bool>, at: nat, out: seq<byte>, out': seq<byte>, final: bool) {
    forall rest :: ReadBlock(block + rest, at, out) == Got((final, out'), rest)
  }

  function Mark(final: bool): (r: seq<bool>)
    ensures |r| == 1
  {
    LsbBits(if final then 1 else 0, 1)
  }

  lemma BlockOfBody(final: bool, kind: nat, body: seq<bool>, at: nat, out: seq<byte>, out': seq<byte>)
    requires kind <= 2 && BodyFor(kind, body, at + 3, out, out')
    ensures BlockFor(Mark(final) + (LsbBits(kind, 2) + body), at, out, out', final)
  {
    hide ReadBits, LsbBits, ReadBody, Pow2;
    var block := Mark(final) + (LsbBits(kind, 2) + body);
    forall rest ensures ReadBlock(block + rest, at, out) == Got((final, out'), rest) {
      assert block + rest == Mark(final) + (LsbBits(kind, 2) + (body + rest));
      TwoPowers();
      ReadsBits(if final then 1 else 0, 1, LsbBits(kind, 2) + (body + rest));
      ReadsBits(kind, 2, body + rest);
      assert ReadBody(kind, body + rest, at + 3, out) == Got(out', rest);
    }
  }

  lemma TwoPowers()
    ensures Pow2(1) == 2 && Pow2(2) == 4
  {}

  lemma {:induction false} ReadsBytes(bytes: seq<byte>, rest: seq<bool>)
    ensures ReadBytes(BytesBits(bytes) + rest, |bytes|) == Got(bytes, rest)
    decreases |bytes|
  {
    hide ReadBits, LsbBits, BytesBits, Pow2;
    if bytes == [] {
      NoBytes(0);
      assert BytesBits(bytes) + rest == rest;
    } else {
      var tail := BytesBits(bytes[1..]);
      assert bytes == [bytes[0]] + bytes[1..];
      BytesBitsConcat([bytes[0]], bytes[1..]);
      OneByte(bytes[0], bytes[0]);
      assert BytesBits(bytes) + rest == LsbBits(bytes[0], 8) + (tail + rest);
      Pow2Table();
      ReadsBits(bytes[0], 8, tail + rest);
      ReadsBytes(bytes[1..], rest);
    }
  }

  function StoredBits(at: nat, bytes: seq<byte>): (r: seq<bool>)
    requires |bytes| <= 0xFFFF
  {
    LsbBits(0, Padding(at)) + (LsbBits(|bytes|, 16) + (LsbBits(0xFFFF - |bytes|, 16) + BytesBits(bytes)))
  }

  // The stored-block round trip.
  lemma StoredReads(at: nat, bytes: seq<byte>, out: seq<byte>)
    requires |bytes| <= 0xFFFF
    ensures BodyFor(0, StoredBits(at, bytes), at, out, out + bytes)
  {
    hide ReadBits, LsbBits, BytesBits, Pow2, ReadBytes;
    forall rest ensures ReadBody(0, StoredBits(at, bytes) + rest, at, out) == Got(out + bytes, rest) {
      var d := BytesBits(bytes) + rest;
      var c := LsbBits(0xFFFF - |bytes|, 16) + d;
      var b := LsbBits(|bytes|, 16) + c;
      assert StoredBits(at, bytes) + rest == LsbBits(0, Padding(at)) + b;
      Pow2Table();
      ReadsBits(0, Padding(at), b);
      ReadsBits(|bytes|, 16, c);
      ReadsBits(0xFFFF - |bytes|, 16, d);
      ReadsBytes(bytes, rest);
    }
  }

  // A block under the fixed codes.
  lemma StaticReads(ts: seq<Token>, at: nat, out: seq<byte>, out': seq<byte>)
    requires AllEncodable(ts) && Expand(out, ts) == Some(out')
    ensures |StaticCodes().litLen| == 288 && |StaticCodes().dist| == 32
    ensures BodyFor(1, BlockBits(StaticCodes(), ts), at, out, out')
  {
    hide ReadTokens, Expand, StaticCodes, BlockBits, CodesOk, Coded;
    StaticShape();
    StaticAccepted();
    forall rest ensures ReadBody(1, BlockBits(StaticCodes(), ts) + rest, at, out) == Got(out', rest) {
      BlockRoundTrip(StaticCodes(), ts, rest);
    }
  }

  lemma StaticShape()
    ensures |StaticCodes().litLen| == 288 && |StaticCodes().dist| == 32
  {}

  // A block under codes of its own.
  lemma DynamicReads(ts: seq<Token>, lit: seq<nat>, dist: seq<nat>, header: seq<bool>, at: nat, out: seq<byte>, out': seq<byte>)
    requires |lit| == 288 && |dist| == 32 && AllEncodable(ts) && Expand(out, ts) == Some(out')
    requires HeaderFor(header, lit, dist)
    requires var c := Codes(Words(lit), Words(dist)); CodesOk(c) && forall i :: 0 <= i < |ts| ==> Coded(c, ts[i])
    ensures BodyFor(2, header + BlockBits(Codes(Words(lit), Words(dist)), ts), at, out, out')
  {
    hide ReadTokens, Expand, ReadHeader, CodesOk, Coded, BlockBits;
    var c := Codes(Words(lit), Words(dist));
    var b := BlockBits(c, ts);
    forall rest ensures ReadBody(2, header + b + rest, at, out) == Got(out', rest) {
      assert header + b + rest == header + (b + rest);
      BlockRoundTrip(c, ts, rest);
      assert ReadHeader(header + (b + rest)) == Got((lit, dist), b + rest);
    }
  }

  // ---------- streams ----------

  // The bits so far are whole blocks, none final, whose output is out.
  ghost predicate Carrying(stream: seq<bool>, out: seq<byte>) {
    forall rest :: Inflated(stream + rest, 0, []) == Inflated(rest, |stream|, out)
  }

  // The bits so far make up a whole stream, whatever follows.
  ghost predicate Finished(stream: seq<bool>, out: seq<byte>) {
    forall rest :: Inflated(stream + rest, 0, []) == Some(out)
  }

  lemma EmptyStream()
    ensures Carrying([], [])
  {
    hide Inflated;
    forall rest: seq<bool> ensures Inflated([] + rest, 0, []) == Inflated(rest, 0, []) {
      assert [] + rest == rest;
    }
  }

  lemma StreamGrows(stream: seq<bool>, block: seq<bool>, out: seq<byte>, out': seq<byte>)
    requires Carrying(stream, out) && BlockFor(block, |stream|, out, out', false)
    ensures Carrying(stream + block, out')
  {
    hide ReadBlock;
    forall rest ensures Inflated(stream + block + rest, 0, []) == Inflated(rest, |stream + block|, out') {
      assert stream + block + rest == stream + (block + rest);
      assert ReadBlock(block + rest, |stream|, out) == Got((false, out'), rest);
    }
  }

  lemma StreamEnds(stream: seq<bool>, block: seq<bool>, tail: seq<bool>, out: seq<byte>, out': seq<byte>)
    requires Carrying(stream, out) && BlockFor(block, |stream|, out, out', true)
    ensures Finished(stream + block + tail, out')
  {
    hide ReadBlock;
    forall rest ensures Inflated(stream + block + tail + rest, 0, []) == Some(out') {
      assert stream + block + tail + rest == stream + (block + (tail + rest));
      assert ReadBlock(block + (tail + rest), |stream|, out) == Got((true, out'), tail + rest);
    }
  }
}
