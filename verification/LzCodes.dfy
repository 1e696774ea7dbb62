/** Writing a block's tokens as code words: the portable encoder puts one token at a time, the fast
    one collects up to three literals in a 64-bit accumulator and stores it eight bytes at once.
    Both write the same bits or run out of room on the same blocks. */
module LzCodes {
  import opened Sums
  import opened Arith
  import opened Bits
  import opened Lz77
  import opened Symbols
  import opened TokenBuffer
  import opened TokenReader
  import opened BitOutput
  import opened DecodeTable
  import opened BlockCodec

  // The bit-reversed codes of a table and their sizes.
  datatype Coding = Coding(codes: seq<nat>, sizes: seq<nat>)

  // Each coded symbol's number, low bit first, is its code word.
  ghost predicate Spelled(k: Coding, words: seq<Path>) {
    && |k.codes| == |k.sizes| >= |words|
    && forall i :: 0 <= i < |words| && words[i] != [] ==> SpelledAt(k, words, i)
  }

  ghost predicate SpelledAt(k: Coding, words: seq<Path>, i: nat)
    requires |k.codes| == |k.sizes| >= |words| > i
  {
    && k.sizes[i] <= MAX_BITS && k.codes[i] < Pow2(k.sizes[i])
    && LsbBits(k.codes[i], k.sizes[i]) == words[i]
  }

  // The packed tokens and the tables they are to be coded with.
  ghost predicate Job(lz: seq<byte>, ts: seq<Token>, c: Codes, lit: Coding, dist: Coding) {
    && AllEncodable(ts) && lz == Pack(ts)
    && |c.litLen| == 288 && |c.dist| == 32 && Spelled(lit, c.litLen) && Spelled(dist, c.dist)
    && c.litLen[END_OF_BLOCK] != []
    && forall i :: 0 <= i < |ts| ==> Coded(c, ts[i])
  }

  lemma TokensBitsStep(c: Codes, ts: seq<Token>, k: nat)
    requires AllEncodable(ts) && |c.litLen| == 288 && |c.dist| == 32 && k < |ts|
    ensures TokensBits(c, ts[..k + 1]) == TokensBits(c, ts[..k]) + TokenBits(c, ts[k])
  {
    assert ts[..k + 1][..k] == ts[..k];
  }

  lemma NothingWritten(c: Codes, e: seq<bool>)
    requires |c.litLen| == 288 && |c.dist| == 32
    ensures e + TokensBits(c, []) == e
  {}

  // What the encoder looks up for a match.
  lemma MatchCodes(ts: seq<Token>, k: nat, c: Codes, lit: Coding, dist: Coding)
    requires k < |ts| && ts[k].Match? && Encodable(ts[k]) && |c.litLen| == 288 && |c.dist| == 32
    requires Coded(c, ts[k]) && Spelled(lit, c.litLen) && Spelled(dist, c.dist)
    ensures var l, d := ts[k].len - MIN_MATCH_LEN, ts[k].dist - 1;
      && LenSym(l) < 288 <= |lit.codes| == |lit.sizes| && DistSym(d) < 32 <= |dist.codes| == |dist.sizes|
      && LenExtra(l) <= 5 && DistExtra(d) <= 13
      && SpelledAt(lit, c.litLen, LenSym(l)) && SpelledAt(dist, c.dist, DistSym(d))
      && l % Pow2(LenExtra(l)) < Pow2(LenExtra(l)) && d % Pow2(DistExtra(d)) < Pow2(DistExtra(d))
      && TokenBits(c, ts[k]) == c.litLen[LenSym(l)] + LsbBits(l % Pow2(LenExtra(l)), LenExtra(l))
           + (c.dist[DistSym(d)] + LsbBits(d % Pow2(DistExtra(d)), DistExtra(d)))
  {
    hide SpelledAt, LenSym, DistSym, LenExtra, DistExtra, Pow2, LsbBits;
    LengthInverts(ts[k].len - MIN_MATCH_LEN);
    DistanceInverts(ts[k].dist - 1);
    ModBelow(ts[k].len - MIN_MATCH_LEN, LenExtra(ts[k].len - MIN_MATCH_LEN));
    ModBelow(ts[k].dist - 1, DistExtra(ts[k].dist - 1));
  }

  lemma FourParts(e: seq<bool>, w: seq<bool>, x: seq<bool>, v: seq<bool>, y: seq<bool>)
    ensures e + w + x + v + y == e + (w + x + (v + y))
  {}

  // ---------- the portable encoder ----------

  // The code word and extra bits of a length, then of a distance.
  method PutMatch(w: Writer, matchLen: byte, matchDist: nat, lit: Coding, dist: Coding, ghost c: Codes,
                  ghost ts: seq<Token>, ghost k: nat)
    requires w.Valid() && k < |ts| && ts[k].Match? && Encodable(ts[k]) && |c.litLen| == 288 && |c.dist| == 32
    requires Coded(c, ts[k]) && Spelled(lit, c.litLen) && Spelled(dist, c.dist)
    requires matchLen == ts[k].len - MIN_MATCH_LEN && matchDist == ts[k].dist - 1
    modifies w`pos, w`bitBuffer, w`bitsIn, w`emitted, w.buf
    ensures w.Valid() && w.emitted == old(w.emitted) + TokenBits(c, ts[k])
  {
    hide Pow2, LsbBits, LenSym, LenExtra, DistSym, DistExtra, SmallDistSym, SmallDistExtra, LargeDistSym,
      LargeDistExtra, Spelled, TokenBits, w.Valid;
    ghost var e, l, d := w.emitted, matchLen as nat, matchDist;
    MatchCodes(ts, k, c, lit, dist);
    DistTables(matchDist);
    w.PutBits(lit.codes[LenSym(matchLen)], lit.sizes[LenSym(matchLen)]);
    w.PutBits(matchLen % Pow2(LenExtra(matchLen)), LenExtra(matchLen));
    var sym, numExtraBits;
    if matchDist < 512 {
      sym, numExtraBits := SmallDistSym(matchDist), SmallDistExtra(matchDist);
    } else {
      sym, numExtraBits := LargeDistSym(matchDist / 256), LargeDistExtra(matchDist / 256);
    }
    w.PutBits(dist.codes[sym], dist.sizes[sym]);
    w.PutBits(matchDist % Pow2(numExtraBits), numExtraBits);
    FourParts(e, c.litLen[LenSym(l)], LsbBits(l % Pow2(LenExtra(l)), LenExtra(l)),
              c.dist[DistSym(d)], LsbBits(d % Pow2(DistExtra(d)), DistExtra(d)));
  }

  lemma DistTables(d: nat)
    ensures DistSym(d) == if d < 512 then SmallDistSym(d) else LargeDistSym(d / 256)
    ensures DistExtra(d) == if d < 512 then SmallDistExtra(d) else LargeDistExtra(d / 256)
  {}

  lemma LiteralCode(t: Token, c: Codes, lit: Coding)
    requires t.Literal? && |c.litLen| == 288 && |c.dist| == 32 && Coded(c, t) && Spelled(lit, c.litLen)
    ensures t.value < |lit.codes| == |lit.sizes| && |lit.sizes| >= 288
    ensures SpelledAt(lit, c.litLen, t.value) && TokenBits(c, t) == c.litLen[t.value]
  {}

  // The code of the end of a block.
  method PutEnd(w: Writer, lit: Coding, ghost c: Codes)
    requires w.Valid() && |c.litLen| == 288 && c.litLen[END_OF_BLOCK] != [] && Spelled(lit, c.litLen)
    modifies w`pos, w`bitBuffer, w`bitsIn, w`emitted, w.buf
    ensures w.Valid() && w.emitted == old(w.emitted) + c.litLen[END_OF_BLOCK]
  {
    hide Pow2, LsbBits, w.Valid;
    assert SpelledAt(lit, c.litLen, END_OF_BLOCK);
    w.PutBits(lit.codes[END_OF_BLOCK], lit.sizes[END_OF_BLOCK]);
  }

  // One token at a time.
  method CompressPortable(w: Writer, lz: array<byte>, end: nat, lit: Coding, dist: Coding,
                          ghost c: Codes, ghost ts: seq<Token>) returns (ok: bool)
    requires w.Valid() && end <= lz.Length && lz != w.buf && Job(lz[..end], ts, c, lit, dist)
    modifies w`pos, w`bitBuffer, w`bitsIn, w`emitted, w.buf
    ensures w.Valid() && w.emitted == old(w.emitted) + BlockBits(c, ts)
    ensures ok <==> |w.emitted| < 8 * w.end
  {
    hide Pow2, LsbBits, Before, Inside, Coded, Spelled, SpelledAt, TokensBits, TokenBits, Pack, Body, w.Valid;
    ghost var s, e, k := lz[..end], w.emitted, 0;
    var p: nat, flags: nat := 0, 1;
    StartBefore(s, ts);
    NothingWritten(c, e);
    assert ts[..0] == [];
    AtEnd(s, ts, k, p, flags);
    while p < end
      invariant w.Valid() && p <= end && k <= |ts| && lz[..end] == s
      invariant Before(s, ts, k, p, flags) && (p < end <==> k < |ts|)
      invariant w.emitted == e + TokensBits(c, ts[..k])
      decreases |ts| - k
    {
      AtEnd(s, ts, k, p, flags);
      if flags == 1 {
        LoadAny(s, ts, k, p);
        assert lz[p] == s[p];
        flags := lz[p] as int + 256;
        p := p + 1;
      }
      ReadToken(s, ts, k, p, flags);
      TokensBitsStep(c, ts, k);
      Step(s, ts, k, p, flags);
      BodyOf(s, p, ts[k]);
      assert lz[p] == s[p];
      Assoc(e, TokensBits(c, ts[..k]), TokenBits(c, ts[k]));
      if flags % 2 == 1 {
        assert lz[p + 1] == s[p + 1] && lz[p + 2] == s[p + 2];
        var matchLen, matchDist := lz[p], lz[p + 1] as int + 256 * lz[p + 2] as int;
        p := p + 3;
        PutMatch(w, matchLen, matchDist, lit, dist, c, ts, k);
      } else {
        LiteralCode(ts[k], c, lit);
        WordSize(lit, c.litLen, lz[p]);
        w.PutBits(lit.codes[lz[p]], lit.sizes[lz[p]]);
        p := p + 1;
      }
      flags := flags / 2;
      k := k + 1;
      AtEnd(s, ts, k, p, flags);
    }
    assert ts[..k] == ts;
    PutEnd(w, lit, c);
    Assoc(e, TokensBits(c, ts), c.litLen[END_OF_BLOCK]);
    w.FitsShortOfEnd();
    ok := w.pos < w.end;
  }

  lemma WordSize(k: Coding, words: seq<Path>, i: nat)
    requires |k.codes| == |k.sizes| >= |words| > i && SpelledAt(k, words, i)
    ensures k.sizes[i] <= 15 && k.codes[i] < Pow2(k.sizes[i]) && LsbBits(k.codes[i], k.sizes[i]) == words[i]
  {}

  lemma StartBefore(lz: seq<byte>, ts: seq<Token>)
    requires AllEncodable(ts) && lz == Pack(ts)
    ensures Before(lz, ts, 0, 0, 1)
  {
    assert ts[..0] == [];
  }

  // A flag register of one, short of the end, stands at the head of a group.
  lemma LoadAny(lz: seq<byte>, ts: seq<Token>, k: nat, p: nat)
    requires AllEncodable(ts) && Before(lz, ts, k, p, 1) && k < |ts|
    ensures p < |lz| && Inside(lz, ts, k, p + 1, lz[p] as int + 256)
  {
    hide Inside, Pack;
    LoadFlags(lz, ts, k, p, 1);
  }

  // The bytes of a token, one by one.
  lemma BodyOf(lz: seq<byte>, p: nat, t: Token)
    requires Encodable(t) && p + |Body(t)| <= |lz| && lz[p..p + |Body(t)|] == Body(t)
    ensures t.Literal? ==> |Body(t)| == 1 && lz[p] == t.value
    ensures t.Match? ==> |Body(t)| == 3 && lz[p] == t.len - MIN_MATCH_LEN
    ensures t.Match? ==> lz[p + 1] as int + 256 * lz[p + 2] as int == t.dist - 1
  {
    var b := lz[p..p + |Body(t)|];
    assert b[0] == lz[p];
    if t.Match? {
      assert b[1] == lz[p + 1] && b[2] == lz[p + 2];
    }
  }

  // ---------- the fast encoder ----------

  // Puts the low l bits of b above the accumulator's bits.
  method PutFast(bitBuffer: nat, bitsIn: nat, b: nat, l: nat, ghost s: seq<byte>, ghost e: seq<bool>)
    returns (bitBuffer': nat, bitsIn': nat)
    requires Carried(s, bitBuffer, bitsIn, e) && b < Pow2(l)
    ensures bitsIn' == bitsIn + l && Carried(s, bitBuffer', bitsIn', e + LsbBits(b, l))
  {
    PutCarries(s, bitBuffer, bitsIn, e, b, l);
    bitBuffer' := bitBuffer + Pow2(bitsIn) * b;
    bitsIn' := bitsIn + l;
  }

  // A match is at most 48 bits.
  method PutMatchFast(bitBuffer: nat, bitsIn: nat, matchLen: byte, matchDist: nat, lit: Coding, dist: Coding,
                      ghost c: Codes, ghost ts: seq<Token>, ghost k: nat, ghost s: seq<byte>, ghost e: seq<bool>)
    returns (bitBuffer': nat, bitsIn': nat)
    requires k < |ts| && ts[k].Match? && Encodable(ts[k]) && |c.litLen| == 288 && |c.dist| == 32
    requires Coded(c, ts[k]) && Spelled(lit, c.litLen) && Spelled(dist, c.dist)
    requires matchLen == ts[k].len - MIN_MATCH_LEN && matchDist == ts[k].dist - 1
    requires Carried(s, bitBuffer, bitsIn, e)
    ensures bitsIn' <= bitsIn + 48 && Carried(s, bitBuffer', bitsIn', e + TokenBits(c, ts[k]))
  {
    hide Pow2, LsbBits, LenSym, LenExtra, DistSym, DistExtra, SmallDistSym, SmallDistExtra, LargeDistSym,
      LargeDistExtra, Spelled, TokenBits, Carried;
    ghost var l, d := matchLen as nat, matchDist;
    MatchCodes(ts, k, c, lit, dist);
    DistTables(matchDist);
    MaskedTables(matchDist);
    ghost var w, x := c.litLen[LenSym(l)], LsbBits(l % Pow2(LenExtra(l)), LenExtra(l));
    ghost var v, y := c.dist[DistSym(d)], LsbBits(d % Pow2(DistExtra(d)), DistExtra(d));
    bitBuffer', bitsIn' := PutFast(bitBuffer, bitsIn, lit.codes[LenSym(matchLen)], lit.sizes[LenSym(matchLen)], s, e);
    bitBuffer', bitsIn' := PutFast(bitBuffer', bitsIn', matchLen % Pow2(LenExtra(matchLen)), LenExtra(matchLen), s, e + w);
    var s0, n0 := SmallDistSym(matchDist % 512), SmallDistExtra(matchDist % 512);
    var s1, n1 := LargeDistSym(matchDist / 256), LargeDistExtra(matchDist / 256);
    var sym := if matchDist < 512 then s0 else s1;
    var numExtraBits := if matchDist < 512 then n0 else n1;
    bitBuffer', bitsIn' := PutFast(bitBuffer', bitsIn', dist.codes[sym], dist.sizes[sym], s, e + w + x);
    bitBuffer', bitsIn' := PutFast(bitBuffer', bitsIn', matchDist % Pow2(numExtraBits), numExtraBits, s, e + w + x + v);
    FourParts(e, w, x, v, y);
  }

  lemma MaskedTables(d: nat)
    ensures d < 512 ==> d % 512 == d
  {}

  // One literal, at most 15 bits.
  method PutLiteralFast(bitBuffer: nat, bitsIn: nat, value: byte, lit: Coding, ghost c: Codes, ghost ts: seq<Token>,
                        ghost k: nat, ghost s: seq<byte>, ghost e: seq<bool>)
    returns (bitBuffer': nat, bitsIn': nat)
    requires AllEncodable(ts) && k < |ts| && ts[k].Literal? && |c.litLen| == 288 && |c.dist| == 32
    requires Coded(c, ts[k]) && Spelled(lit, c.litLen) && value == ts[k].value
    requires Carried(s, bitBuffer, bitsIn, e + TokensBits(c, ts[..k]))
    ensures bitsIn' <= bitsIn + 15 && Carried(s, bitBuffer', bitsIn', e + TokensBits(c, ts[..k + 1]))
  {
    hide Pow2, LsbBits, TokenBits, TokensBits, Carried, Coded, Spelled;
    LiteralCode(ts[k], c, lit);
    WordSize(lit, c.litLen, value);
    TokensBitsStep(c, ts, k);
    Assoc(e, TokensBits(c, ts[..k]), TokenBits(c, ts[k]));
    bitBuffer', bitsIn' := PutFast(bitBuffer, bitsIn, lit.codes[value], lit.sizes[value], s, e + TokensBits(c, ts[..k]));
  }

  // One turn's tokens: a match, or up to three literals of one group.
  method PutTurn(lz: array<byte>, end: nat, p: nat, flags: nat, bitBuffer: nat, bitsIn: nat, lit: Coding, dist: Coding,
                 ghost c: Codes, ghost ts: seq<Token>, ghost k: nat, ghost s: seq<byte>, ghost e: seq<bool>)
    returns (p': nat, flags': nat, bitBuffer': nat, bitsIn': nat, ghost k': nat)
    requires end <= lz.Length && Job(lz[..end], ts, c, lit, dist) && Inside(lz[..end], ts, k, p, flags)
    requires Carried(s, bitBuffer, bitsIn, e + TokensBits(c, ts[..k]))
    ensures k < k' <= |ts| && bitsIn' <= bitsIn + 48 && Before(lz[..end], ts, k', p', flags' / 2)
    ensures Carried(s, bitBuffer', bitsIn', e + TokensBits(c, ts[..k']))
  {
    hide Pow2, LsbBits, Before, Inside, Coded, Spelled, SpelledAt, TokensBits, TokenBits, Pack, Body, Carried;
    ghost var z := lz[..end];
    p', flags', k' := p, flags, k;
    InsideBound(z, ts, k, p, flags);
    ReadToken(z, ts, k, p, flags);
    BodyOf(z, p, ts[k]);
    Step(z, ts, k, p, flags);
    assert lz[p'] == z[p'];
    if flags' % 2 == 1 {
      assert lz[p + 1] == z[p + 1] && lz[p + 2] == z[p + 2];
      var matchLen, matchDist := lz[p'], lz[p' + 1] as int + 256 * lz[p' + 2] as int;
      p' := p' + 3;
      bitBuffer', bitsIn' := PutMatchFast(bitBuffer, bitsIn, matchLen, matchDist, lit, dist, c, ts, k, s, e + TokensBits(c, ts[..k]));
      TokensBitsStep(c, ts, k);
      Assoc(e, TokensBits(c, ts[..k]), TokenBits(c, ts[k]));
    } else {
      bitBuffer', bitsIn' := PutLiteralFast(bitBuffer, bitsIn, lz[p'], lit, c, ts, k', s, e);
      p' := p' + 1;
      if flags' / 2 % 2 == 0 && p' < end {
        flags', k' := NextLiteral(z, p' - 1, flags', ts, k');
        assert lz[p'] == z[p'];
        bitBuffer', bitsIn' := PutLiteralFast(bitBuffer', bitsIn', lz[p'], lit, c, ts, k', s, e);
        p' := p' + 1;
        if flags' / 2 % 2 == 0 && p' < end {
          flags', k' := NextLiteral(z, p' - 1, flags', ts, k');
          assert lz[p'] == z[p'];
          bitBuffer', bitsIn' := PutLiteralFast(bitBuffer', bitsIn', lz[p'], lit, c, ts, k', s, e);
          p' := p' + 1;
        }
      }
    }
    k' := k' + 1;
  }

  lemma InsideBound(lz: seq<byte>, ts: seq<Token>, k: nat, p: nat, flags: nat)
    requires AllEncodable(ts) && Inside(lz, ts, k, p, flags)
    ensures k < |ts|
  {}

  // Shifting on to another literal of the same group.
  method NextLiteral(ghost lz: seq<byte>, ghost p: nat, flags: nat, ghost ts: seq<Token>, ghost k: nat)
    returns (flags': nat, ghost k': nat)
    requires AllEncodable(ts) && Inside(lz, ts, k, p, flags) && k < |ts| && ts[k].Literal?
    requires flags / 2 % 2 == 0 && p + 1 < |lz|
    ensures flags' == flags / 2 && k' == k + 1 < |ts| && ts[k'].Literal? && Inside(lz, ts, k', p + 1, flags')
    ensures lz[p + 1] == ts[k'].value && Before(lz, ts, k' + 1, p + 2, flags' / 2)
  {
    hide Before, Inside, Pack;
    SecondLiteral(lz, ts, k, p, flags);
    ReadToken(lz, ts, k + 1, p + 1, flags / 2);
    BodyOf(lz, p + 1, ts[k + 1]);
    Step(lz, ts, k + 1, p + 1, flags / 2);
    flags', k' := flags / 2, k + 1;
  }

  // Stores the accumulator's whole bytes as part of an eight-byte word.
  method StoreBytes(buf: array<byte>, pos: nat, bitBuffer: nat, bitsIn: nat, ghost e: seq<bool>)
    returns (pos': nat, bitBuffer': nat, bitsIn': nat)
    requires pos + 8 <= buf.Length && bitsIn <= 55 && Carried(buf[..pos], bitBuffer, bitsIn, e)
    modifies buf
    ensures buf[..pos] == old(buf[..pos])
    ensures pos <= pos' <= buf.Length && bitsIn' <= 7 && Carried(buf[..pos'], bitBuffer', bitsIn', e)
  {
    hide Pow2, LsbBits, BytesBits;
    ghost var s := buf[..pos];
    Pow2Mono(bitsIn, 64);
    StoreWord(buf, pos, bitBuffer);
    var n := bitsIn / 8;
    assert Carries(buf[..], pos, bitBuffer, n);
    StoreCarries(s, buf[..][pos..pos + n], bitBuffer, bitsIn, e, n);
    pos' := pos + n;
    assert buf[..pos'] == s + buf[..][pos..pos + n];
    bitBuffer' := bitBuffer / Pow2(8 * n);
    bitsIn' := bitsIn - 8 * n;
  }

  // A 64-bit accumulator of at most 55 bits, stored once a turn.
  method CompressFast(w: Writer, lz: array<byte>, end: nat, lit: Coding, dist: Coding,
                      ghost c: Codes, ghost ts: seq<Token>) returns (ok: bool)
    requires w.Valid() && w.pos < w.end && end <= lz.Length && lz != w.buf && Job(lz[..end], ts, c, lit, dist)
    modifies w`pos, w`bitBuffer, w`bitsIn, w`emitted, w.buf
    ensures w.Valid()
    ensures ok ==> w.emitted == old(w.emitted) + BlockBits(c, ts)
    ensures ok <==> |old(w.emitted) + BlockBits(c, ts)| < 8 * w.end
    ensures !ok ==> unchanged(w) || w.emitted == old(w.emitted) + BlockBits(c, ts)
  {
    hide Pow2, LsbBits, Before, Inside, Coded, Spelled, SpelledAt, TokensBits, TokenBits, Pack, Body, BytesBits;
    ghost var z, e, k := lz[..end], w.emitted, 0;
    var p: nat, flags: nat := 0, 1;
    var pos, bitBuffer, bitsIn := w.pos, w.bitBuffer, w.bitsIn;
    StartBefore(z, ts);
    NothingWritten(c, e);
    assert ts[..0] == [];
    AtEnd(z, ts, k, p, flags);
    while p < end
      invariant w.Valid() && p <= end && k <= |ts| && lz[..end] == z
      invariant w.pos <= pos <= w.buf.Length && bitsIn <= 7
      invariant unchanged(w)
      invariant Before(z, ts, k, p, flags) && (p < end <==> k < |ts|)
      invariant Carried(w.buf[..pos], bitBuffer, bitsIn, e + TokensBits(c, ts[..k]))
      decreases |ts| - k
    {
      AtEnd(z, ts, k, p, flags);
      if flags == 1 {
        LoadAny(z, ts, k, p);
        assert lz[p] == z[p];
        flags := lz[p] as int + 256;
        p := p + 1;
      }
      p, flags, bitBuffer, bitsIn, k := PutTurn(lz, end, p, flags, bitBuffer, bitsIn, lit, dist, c, ts, k, w.buf[..pos], e);
      if pos >= w.end {
        NoRoom(w.buf[..pos], bitBuffer, bitsIn, e, c, ts, k);
        return false;
      }
      ghost var before := w.buf[..pos];
      assert before[..w.pos] == w.buf[..w.pos];
      label stored:
      pos, bitBuffer, bitsIn := StoreBytes(w.buf, pos, bitBuffer, bitsIn, e + TokensBits(c, ts[..k]));
      assert w.buf[..w.pos] == before[..w.pos];
      KeepsValid@stored(w);
      flags := flags / 2;
      AtEnd(z, ts, k, p, flags);
    }
    assert ts[..k] == ts;
    ok := FinishFast(w, pos, bitBuffer, bitsIn, lit, c, e + TokensBits(c, ts));
    Assoc(e, TokensBits(c, ts), c.litLen[END_OF_BLOCK]);
  }

  // Writing beyond the writer's position leaves what it holds.
  twostate lemma KeepsValid(w: Writer)
    requires old(w.Valid()) && unchanged(w) && w.pos < w.end && w.buf[..w.pos] == old(w.buf[..w.pos])
    ensures w.Valid()
  {
    hide Carried;
  }

  // A position at the end means that the block's bits do not fit.
  lemma NoRoom(s: seq<byte>, bitBuffer: nat, bitsIn: nat, e: seq<bool>, c: Codes, ts: seq<Token>, k: nat)
    requires AllEncodable(ts) && |c.litLen| == 288 && |c.dist| == 32 && k <= |ts|
    requires Carried(s, bitBuffer, bitsIn, e + TokensBits(c, ts[..k]))
    ensures |e + BlockBits(c, ts)| >= 8 * |s|
  {
    hide TokensBits;
    MoreTokens(c, ts, k);
  }

  lemma {:induction false} MoreTokens(c: Codes, ts: seq<Token>, k: nat)
    requires AllEncodable(ts) && |c.litLen| == 288 && |c.dist| == 32 && k <= |ts|
    ensures |TokensBits(c, ts[..k])| <= |TokensBits(c, ts)|
    decreases |ts| - k
  {
    if k == |ts| {
      assert ts[..k] == ts;
    } else {
      TokensBitsStep(c, ts, k);
      MoreTokens(c, ts, k + 1);
    }
  }

  // Hands the accumulator back to the writer and ends the block.
  method FinishFast(w: Writer, pos: nat, bitBuffer: nat, bitsIn: nat, lit: Coding, ghost c: Codes, ghost e: seq<bool>)
    returns (ok: bool)
    requires w.Valid() && w.pos <= pos <= w.buf.Length && bitsIn <= 7
    requires Carried(w.buf[..pos], bitBuffer, bitsIn, e)
    requires |c.litLen| == 288 && c.litLen[END_OF_BLOCK] != [] && Spelled(lit, c.litLen)
    modifies w`pos, w`bitBuffer, w`bitsIn, w`emitted, w.buf
    ensures w.Valid() && w.emitted == e + c.litLen[END_OF_BLOCK] && (ok <==> |w.emitted| < 8 * w.end)
  {
    hide Pow2, LsbBits, BytesBits, Spelled;
    HandOver(w.buf[..pos], bitBuffer, bitsIn, e);
    w.pos, w.bitsIn, w.bitBuffer := pos, 0, 0;
    w.emitted := BytesBits(w.buf[..pos]);
    var rest: nat, left := bitBuffer, bitsIn;
    while left > 0
      invariant w.Valid() && left <= 7 && rest < Pow2(left)
      invariant w.emitted + LsbBits(rest, left) == e
    {
      var n := if left < 16 then left else 16;
      SplitOff(rest, left);
      w.PutBits(rest % Pow2(n), n);
      rest := rest / Pow2(n);
      left := left - n;
      NoMoreBits(rest, w.emitted);
    }
    NoMoreBits(rest, w.emitted);
    PutEnd(w, lit, c);
    w.FitsShortOfEnd();
    ok := w.pos < w.end;
  }

  lemma HandOver(s: seq<byte>, bitBuffer: nat, bitsIn: nat, e: seq<bool>)
    requires Carried(s, bitBuffer, bitsIn, e)
    ensures Carried(s, 0, 0, BytesBits(s)) && BytesBits(s) + LsbBits(bitBuffer, bitsIn) == e && bitBuffer < Pow2(bitsIn)
  {
    NoMoreBits(0, BytesBits(s));
  }

  lemma SplitOff(rest: nat, left: nat)
    requires rest < Pow2(left)
    ensures rest % Pow2(left) == rest && rest / Pow2(left) == 0 < Pow2(0)
  {
    hide Pow2;
    DivUnique(rest, Pow2(left), 0, rest);
  }

  lemma NoMoreBits(rest: nat, e: seq<bool>)
    ensures e + LsbBits(rest, 0) == e
  {}
}
