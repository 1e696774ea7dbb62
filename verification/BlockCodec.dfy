/** The payload of a compressed block: the tokens of the packed buffer as code words and extra
    bits, ended by the end-of-block code (section 3.2.3 of RFC 1951). Two encoders, one token at a
    time and up to three literals at a time, write the same bits; reading them back gives the
    tokens again. */
module BlockCodec {
  import opened Sums
  import opened Arith
  import opened Bits
  import opened Lz77
  import opened Symbols
  import opened TokenBuffer
  import opened BitOutput
  import opened DecodeTable

  // The two code tables of a block, by their words.
  datatype Codes = Codes(litLen: seq<Path>, dist: seq<Path>)

  // The bits of one token.
  function TokenBits(c: Codes, t: Token): (r: seq<bool>)
    requires Encodable(t) && |c.litLen| == 288 && |c.dist| == 32
  {
    match t
    case Literal(b) => c.litLen[b]
    case Match(len, dist) =>
      var l, d := len - MIN_MATCH_LEN, dist - 1;
      LengthInverts(l);
      DistanceInverts(d);
      c.litLen[LenSym(l)] + LsbBits(l % Pow2(LenExtra(l)), LenExtra(l))
        + (c.dist[DistSym(d)] + LsbBits(d % Pow2(DistExtra(d)), DistExtra(d)))
  }

  function TokensBits(c: Codes, ts: seq<Token>): (r: seq<bool>)
    requires AllEncodable(ts) && |c.litLen| == 288 && |c.dist| == 32
  {
    if ts == [] then [] else TokensBits(c, ts[..|ts| - 1]) + TokenBits(c, ts[|ts| - 1])
  }

  function BlockBits(c: Codes, ts: seq<Token>): (r: seq<bool>)
    requires AllEncodable(ts) && |c.litLen| == 288 && |c.dist| == 32
  {
    TokensBits(c, ts) + c.litLen[END_OF_BLOCK]
  }

  // Every symbol that the tokens use has a code word.
  ghost predicate Coded(c: Codes, t: Token)
    requires Encodable(t) && |c.litLen| == 288 && |c.dist| == 32
  {
    match t
    case Literal(b) => c.litLen[b] != []
    case Match(len, dist) =>
      LengthInverts(len - MIN_MATCH_LEN);
      DistanceInverts(dist - 1);
      c.litLen[LenSym(len - MIN_MATCH_LEN)] != [] && c.dist[DistSym(dist - 1)] != []
  }

  ghost predicate CodesOk(c: Codes) {
    && |c.litLen| == 288 && |c.dist| == 32
    && PrefixCode(c.litLen) && PrefixCode(c.dist)
    && c.litLen[END_OF_BLOCK] != []
  }

  // ---------- reading a block back ----------

  datatype Read<T> = Bad | Got(value: T, rest: seq<bool>)

  // The symbol whose word heads the bits, if any.
  ghost function ReadSymbol(words: seq<Path>, bits: seq<bool>): (r: Read<nat>)
    ensures r.Got? ==> |r.rest| < |bits| && r.value < |words|
  {
    if exists i :: Used(words, i) && IsPrefix(words[i], bits) then
      var i :| Used(words, i) && IsPrefix(words[i], bits);
      Got(i, bits[|words[i]|..])
    else Bad
  }

  function ReadBits(bits: seq<bool>, n: nat): (r: Read<nat>)
    ensures r.Got? ==> |r.rest| <= |bits|
  {
    if n <= |bits| then Got(Value(bits[..n]), bits[n..]) else Bad
  }

  // A match after its length symbol: extra length bits, distance symbol, extra distance bits. The last
  // two symbols of each kind stand for nothing.
  ghost function ReadMatch(c: Codes, sym: nat, bits: seq<bool>): (r: Read<Token>)
    requires 257 <= sym < 288 && |c.dist| == 32
    ensures r.Got? ==> |r.rest| < |bits|
  {
    if sym > 285 then Bad else
    match ReadBits(bits, LengthField(sym).1)
    case Bad => Bad
    case Got(extra, rest) =>
      match ReadSymbol(c.dist, rest)
      case Bad => Bad
      case Got(d, rest) => if d > 29 then Bad else
        match ReadBits(rest, DistField(d).1)
        case Bad => Bad
        case Got(extraDist, rest) =>
          Got(Match(LengthField(sym).0 + extra, DistField(d).0 + extraDist), rest)
  }

  // The tokens up to the end-of-block symbol, as section 3.2.3 of RFC 1951 reads them.
  ghost function ReadTokens(c: Codes, bits: seq<bool>): Read<seq<Token>>
    requires |c.litLen| == 288 && |c.dist| == 32
    decreases |bits|
  {
    match ReadSymbol(c.litLen, bits)
    case Bad => Bad
    case Got(sym, rest) =>
      if sym == END_OF_BLOCK then Got([], rest)
      else if sym < 256 then
        match ReadTokens(c, rest)
        case Bad => Bad
        case Got(ts, rest) => Got([Literal(sym)] + ts, rest)
      else
        match ReadMatch(c, sym, rest)
        case Bad => Bad
        case Got(t, rest) =>
          match ReadTokens(c, rest)
          case Bad => Bad
          case Got(ts, rest) => Got([t] + ts, rest)
  }

  lemma ReadsSymbol(words: seq<Path>, i: nat, rest: seq<bool>)
    requires PrefixCode(words) && Used(words, i)
    ensures ReadSymbol(words, words[i] + rest) == Got(i, rest)
  {
    var bits := words[i] + rest;
    assert bits[..|words[i]|] == words[i] && bits[|words[i]|..] == rest;
    assert IsPrefix(words[i], bits);
    forall j | Used(words, j) && IsPrefix(words[j], bits) ensures j == i {
      OneMatch(words, i, j, bits);
    }
  }

  lemma ReadsBits(v: nat, n: nat, rest: seq<bool>)
    requires v < Pow2(n)
    ensures ReadBits(LsbBits(v, n) + rest, n) == Got(v, rest)
  {
    var bits := LsbBits(v, n) + rest;
    assert bits[..n] == LsbBits(v, n) && bits[n..] == rest;
    ValueOfBits(v, n);
  }

  lemma ModBelow(v: nat, n: nat)
    ensures v % Pow2(n) < Pow2(n)
  {}

  // A match is read back from its bits.
  lemma ReadsMatch(c: Codes, t: Token, rest: seq<bool>)
    requires CodesOk(c) && Encodable(t) && t.Match? && Coded(c, t)
    ensures var l := t.len - MIN_MATCH_LEN;
      && 257 <= LenSym(l) <= 285
      && TokenBits(c, t) + rest == c.litLen[LenSym(l)] + (TokenBits(c, t) + rest)[|c.litLen[LenSym(l)]|..]
      && ReadMatch(c, LenSym(l), (TokenBits(c, t) + rest)[|c.litLen[LenSym(l)]|..]) == Got(t, rest)
  {
    hide PrefixCode, LenSym, DistSym, LenExtra, DistExtra, LsbBits, Pow2, ReadSymbol, ReadBits, LengthField, DistField;
    var l, d := t.len - MIN_MATCH_LEN, t.dist - 1;
    LengthInverts(l);
    DistanceInverts(d);
    var x, y := l % Pow2(LenExtra(l)), d % Pow2(DistExtra(d));
    ModBelow(l, LenExtra(l));
    ModBelow(d, DistExtra(d));
    var w, v := c.litLen[LenSym(l)], c.dist[DistSym(d)];
    var lx, dx := LsbBits(x, LenExtra(l)), LsbBits(y, DistExtra(d));
    assert TokenBits(c, t) + rest == w + (lx + (v + (dx + rest)));
    assert (TokenBits(c, t) + rest)[|w|..] == lx + (v + (dx + rest));
    ReadsBits(x, LenExtra(l), v + (dx + rest));
    ReadsSymbol(c.dist, DistSym(d), dx + rest);
    ReadsBits(y, DistExtra(d), rest);
  }

  lemma TokensBitsFront(c: Codes, ts: seq<Token>)
    requires ts != [] && AllEncodable(ts) && |c.litLen| == 288 && |c.dist| == 32
    ensures AllEncodable(ts[1..])
    ensures TokensBits(c, ts) == TokenBits(c, ts[0]) + TokensBits(c, ts[1..])
    decreases |ts|
  {
    if |ts| > 1 {
      var k := |ts| - 1;
      TokensBitsFront(c, ts[..k]);
      assert ts[..k][1..] == ts[1..][..k - 1];
    } else {
      assert ts[..0] == [];
    }
  }

  // The block round trip: what the encoder writes, the decoder reads back, and no bit more.
  lemma {:induction false} BlockRoundTrip(c: Codes, ts: seq<Token>, rest: seq<bool>)
    requires |c.litLen| == 288 && |c.dist| == 32 && CodesOk(c) && AllEncodable(ts)
    requires forall i :: 0 <= i < |ts| ==> Coded(c, ts[i])
    ensures ReadTokens(c, BlockBits(c, ts) + rest) == Got(ts, rest)
    decreases |ts|
  {
    hide CodesOk, ReadSymbol, ReadMatch, TokenBits, TokensBits;
    if ts == [] {
      assert BlockBits(c, []) + rest == c.litLen[END_OF_BLOCK] + rest by { NoTokens(c); }
      EndIsRead(c, rest);
    } else {
      var t, ts' := ts[0], ts[1..];
      TokensBitsFront(c, ts);
      var tail := BlockBits(c, ts') + rest;
      assert BlockBits(c, ts) + rest == TokenBits(c, t) + tail;
      BlockRoundTrip(c, ts', rest);
      assert [t] + ts' == ts;
      FirstIsRead(c, t, tail);
    }
  }

  lemma NoTokens(c: Codes)
    requires |c.litLen| == 288 && |c.dist| == 32
    ensures TokensBits(c, []) == []
  {}

  lemma EndIsRead(c: Codes, rest: seq<bool>)
    requires CodesOk(c)
    ensures ReadTokens(c, c.litLen[END_OF_BLOCK] + rest) == Got([], rest)
  {
    ReadsSymbol(c.litLen, END_OF_BLOCK, rest);
  }

  lemma FirstIsRead(c: Codes, t: Token, tail: seq<bool>)
    requires CodesOk(c) && Encodable(t) && Coded(c, t)
    ensures ReadTokens(c, TokenBits(c, t) + tail)
         == (match ReadTokens(c, tail) case Bad => Bad case Got(ts, rest) => Got([t] + ts, rest))
  {
    hide PrefixCode, ReadSymbol, ReadMatch, LenSym, DistSym, LenExtra, DistExtra;
    match t {
      case Literal(b) => ReadsSymbol(c.litLen, b, tail);
      case Match(len, dist) =>
        LengthInverts(len - MIN_MATCH_LEN);
        var w := c.litLen[LenSym(len - MIN_MATCH_LEN)];
        ReadsMatch(c, t, tail);
        ReadsSymbol(c.litLen, LenSym(len - MIN_MATCH_LEN), (TokenBits(c, t) + tail)[|w|..]);
    }
  }
}
