/** How long a block coded with its own codes can be. However the tokens fill the token buffer, and
    whether or not the code lengths had to be limited, the block ends well short of the output buffer:
    the fixed codes bound what the best codes take, and limiting adds at most a bit for each
    literal/length symbol and a fifth of one for each distance. */
module BlockSize {
  import opened Sums
  import opened Bits
  import opened Lz77
  import opened Symbols
  import opened TokenBuffer
  import opened PrefixCost
  import opened MinimumRedundancy
  import opened DecodeTable
  import opened Canonical
  import opened SymbolCost
  import opened HuffmanTable
  import opened InflateTable
  import opened BlockCodec
  import opened DynamicBlock
  import opened StaticBlock

  // ---------- the length of a block, by its counts ----------

  function Lengths(words: seq<Path>): (r: seq<nat>)
    ensures |r| == |words|
  {
    seq(|words|, i requires 0 <= i < |words| => |words[i]|)
  }

  // The bits after the symbols of a token, and whether it has a distance.
  function ExtraBits(t: Token): nat
    requires Encodable(t)
  {
    if t.Match? then LenExtra(t.len - MIN_MATCH_LEN) + DistExtra(t.dist - 1) else 0
  }

  function AllExtra(ts: seq<Token>): nat
    requires AllEncodable(ts)
  {
    if ts == [] then 0 else AllExtra(ts[..|ts| - 1]) + ExtraBits(ts[|ts| - 1])
  }

  function Matches(ts: seq<Token>): nat {
    if ts == [] then 0 else Matches(ts[..|ts| - 1]) + if ts[|ts| - 1].Match? then 1 else 0
  }

  lemma TokenLength(c: Codes, t: Token)
    requires Encodable(t) && |c.litLen| == 288 && |c.dist| == 32
    ensures LitLenSym(t) < 286 && LitLenSym(t) != 256 && (t.Match? ==> DistSym(t.dist - 1) < 30)
    ensures |TokenBits(c, t)| == |c.litLen[LitLenSym(t)]| + ExtraBits(t) + if t.Match? then |c.dist[DistSym(t.dist - 1)]| else 0
  {
    hide LenSym, DistSym, LenExtra, DistExtra, LsbBits, Pow2;
    SymInRange(t);
  }

  lemma CostCount(w: seq<nat>, l: seq<nat>, s: nat, v: nat)
    requires |w| == |l| && s < |w|
    ensures Cost(w[s := v], l) == Cost(w, l) - w[s] * l[s] + v * l[s]
  {
    hide Sum;
    SumUpdate(CostTerms(w, l), s, v * l[s]);
    assert CostTerms(w[s := v], l) == CostTerms(w, l)[s := v * l[s]];
  }

  lemma OneMoreCounted(w: seq<nat>, l: seq<nat>, s: nat)
    requires |w| == |l| && s < |w|
    ensures Cost(w[s := w[s] + 1], l) == Cost(w, l) + l[s]
  {
    CostCount(w, l, s, w[s] + 1);
    assert (w[s] + 1) * l[s] == w[s] * l[s] + l[s];
  }

  lemma NoCost(w: seq<nat>, l: seq<nat>)
    requires |w| == |l| && forall i :: 0 <= i < |w| ==> w[i] == 0
    ensures Cost(w, l) == 0
  {
    SumOfZeros(CostTerms(w, l));
  }

  lemma {:induction false} TokensLength(c: Codes, ts: seq<Token>)
    requires AllEncodable(ts) && |c.litLen| == 288 && |c.dist| == 32
    ensures |TokensBits(c, ts)| == Cost(LitCounts(ts), Lengths(c.litLen)) + Cost(DistCounts(ts), Lengths(c.dist)) + AllExtra(ts)
  {
    hide Cost, TokenBits, ExtraBits, LenSym, DistSym, LitLenSym;
    var l, d := Lengths(c.litLen), Lengths(c.dist);
    if ts == [] {
      NoCost(LitCounts(ts), l);
      NoCost(DistCounts(ts), d);
    } else {
      var k := |ts| - 1;
      TokensLength(c, ts[..k]);
      TokenLength(c, ts[k]);
      var a, b, s := LitCounts(ts[..k]), DistCounts(ts[..k]), LitLenSym(ts[k]);
      assert LitCounts(ts) == a[s := a[s] + 1];
      OneMoreCounted(a, l, s);
      if ts[k].Match? {
        var t := DistSym(ts[k].dist - 1);
        assert DistCounts(ts) == b[t := b[t] + 1];
        OneMoreCounted(b, d, t);
      } else {
        assert DistCounts(ts) == b;
      }
    }
  }

  // A block's length: what each of its symbols costs, and the extra bits.
  lemma BlockLength(c: Codes, ts: seq<Token>)
    requires AllEncodable(ts) && |c.litLen| == 288 && |c.dist| == 32
    ensures |BlockBits(c, ts)| == Cost(LitCounts(ts)[END_OF_BLOCK := 1], Lengths(c.litLen))
      + Cost(DistCounts(ts), Lengths(c.dist)) + AllExtra(ts)
  {
    hide Cost, TokensBits, LitLenCount;
    TokensLength(c, ts);
    LitCountsSum(ts);
    CostCount(LitCounts(ts), Lengths(c.litLen), END_OF_BLOCK, 1);
    assert LitCounts(ts)[END_OF_BLOCK] == 0;
  }

  lemma {:induction false} MatchesCounted(ts: seq<Token>)
    requires AllEncodable(ts)
    ensures Sum(DistCounts(ts)) == Matches(ts)
  {
    hide DistSym;
    if ts == [] {
      SumOfZeros(DistCounts(ts));
    } else {
      var k := |ts| - 1;
      MatchesCounted(ts[..k]);
      var b := DistCounts(ts[..k]);
      if ts[k].Match? {
        var t := DistSym(ts[k].dist - 1);
        SymInRange(ts[k]);
        assert DistCounts(ts) == b[t := b[t] + 1];
        SumUpdate(b, t, b[t] + 1);
      } else {
        assert DistCounts(ts) == b;
      }
    }
  }

  // ---------- the fixed codes as a bound ----------

  lemma KraftSnoc(l: seq<nat>, m: nat)
    requires l != [] && forall i :: 0 <= i < |l| ==> l[i] <= m
    ensures KraftSum(l, m) == KraftSum(l[..|l| - 1], m) + Pow2(m - l[|l| - 1])
  {
    hide Pow2;
    assert KraftTerms(l, m)[..|l| - 1] == KraftTerms(l[..|l| - 1], m);
  }

  lemma OneMoreKraft(r: seq<SymFreq>, x: SymFreq, l: seq<nat>, m: nat)
    requires Within(r, x.sym) && x.sym < |l| && forall i :: 0 <= i < |l| ==> l[i] <= m
    ensures Within(r + [x], |l|) && KraftSum(SizesOf(r + [x], l), m) == KraftSum(SizesOf(r, l[..x.sym]), m) + Pow2(m - l[x.sym])
  {
    hide KraftSum, Pow2;
    var s := SizesOf(r + [x], l);
    KraftSnoc(s, m);
    assert s[..|r|] == SizesOf(r, l[..x.sym]);
  }

  lemma UsedSnoc(counts: seq<nat>)
    requires counts != []
    ensures var k := |counts| - 1;
      && Within(UsedSyms(counts[..k]), k) && Within(UsedSyms(counts), k + 1)
      && UsedSyms(counts) == UsedSyms(counts[..k]) + if counts[k] != 0 then [SymFreq(counts[k], k)] else []
  {
    UsedSymsFacts(counts[..|counts| - 1]);
    UsedSymsFacts(counts);
  }

  // A code for all symbols gives one for those in use.
  lemma {:induction false} UsedKraft(counts: seq<nat>, l: seq<nat>, m: nat)
    requires |l| == |counts| && forall i :: 0 <= i < |l| ==> l[i] <= m
    ensures Within(UsedSyms(counts), |l|) && KraftSum(SizesOf(UsedSyms(counts), l), m) <= KraftSum(l, m)
  {
    hide KraftSum, Pow2, UsedSyms;
    UsedSymsFacts(counts);
    if counts == [] {
      NoneUsed();
      assert SizesOf(UsedSyms(counts), l) == l;
    } else {
      var k := |counts| - 1;
      UsedSnoc(counts);
      UsedKraft(counts[..k], l[..k], m);
      KraftSnoc(l, m);
      var r := UsedSyms(counts[..k]);
      if counts[k] != 0 {
        OneMoreKraft(r, SymFreq(counts[k], k), l, m);
      } else {
        assert r + [] == r;
        assert SizesOf(r, l) == SizesOf(r, l[..k]);
      }
    }
  }

  lemma NoneUsed()
    ensures UsedSyms([]) == []
  {}

  lemma CompleteUsable(counts: seq<nat>, l: seq<nat>, m: nat)
    requires |l| == |counts| && (forall i :: 0 <= i < |l| ==> 1 <= l[i]) && Complete(l, m)
    ensures Usable(counts, l, m)
  {
    hide KraftSum, Kraft;
    UsedKraft(counts, l, m);
    KraftOfCounts(l, m);
  }

  lemma StaticUsable(counts: seq<nat>, dists: seq<nat>)
    requires |counts| == 288 && |dists| == 32
    ensures Usable(counts, StaticLit(), 9) && Usable(dists, StaticDist(), 5)
  {
    hide Complete, Usable;
    StaticComplete();
    AllPositiveSizes();
    CompleteUsable(counts, StaticLit(), 9);
    CompleteUsable(dists, StaticDist(), 5);
  }

  lemma AllPositiveSizes()
    ensures forall i :: 0 <= i < 288 ==> StaticLit()[i] >= 1
    ensures forall i :: 0 <= i < 32 ==> StaticDist()[i] >= 1
  {}

  // The words have the lengths they are given.
  lemma WordLengths(sizes: seq<nat>)
    requires Fits(sizes, MAX_BITS)
    ensures Lengths(Words(sizes)) == sizes
  {
    hide Kraft, Code, MsbBits;
    forall i | 0 <= i < |sizes| ensures Lengths(Words(sizes))[i] == sizes[i] {}
  }

  // Five times a static token's bits, five more for its symbol and one for its distance, against the
  // bytes it takes in the token buffer.
  lemma TokenSlack(t: Token)
    requires Encodable(t)
    ensures |StaticCodes().litLen| == 288 && |StaticCodes().dist| == 32
    ensures 25 * (5 * |TokenBits(StaticCodes(), t)| + 5 + if t.Match? then 1 else 0) <= 161 * (8 * |Body(t)| + 1)
  {
    hide LenSym, DistSym, LenExtra, DistExtra, LitLenSym, Pow2, LsbBits, CodeWord, StaticLit, StaticDist;
    SymInRange(t);
    if t.Match? {
      LengthInverts(t.len - MIN_MATCH_LEN);
      DistanceInverts(t.dist - 1);
      WordLength(LenSym(t.len - MIN_MATCH_LEN), DistSym(t.dist - 1));
      LengthCost(t.len - MIN_MATCH_LEN);
    } else {
      WordLength(t.value, 0);
    }
  }

  lemma {:induction false} TokensSlack(ts: seq<Token>)
    requires AllEncodable(ts)
    ensures |StaticCodes().litLen| == 288 && |StaticCodes().dist| == 32
    ensures 25 * (5 * |TokensBits(StaticCodes(), ts)| + 5 * |ts| + Matches(ts)) <= 161 * FlaggedBits(ts)
    decreases |ts|
  {
    hide TokenBits, Body, StaticCodes;
    assert |StaticCodes().litLen| == 288 && |StaticCodes().dist| == 32 by { TokenSlack(Literal(0)); }
    if ts != [] {
      TokensSlack(ts[..|ts| - 1]);
      TokenSlack(ts[|ts| - 1]);
    }
  }

  // ---------- the bound ----------

  // Codes for a block that are near the best cost little more than the fixed ones.
  lemma AgainstStatic(ts: seq<Token>, lit: seq<nat>, dist: seq<nat>)
    requires AllEncodable(ts) && |lit| == 288 && |dist| == 32 && Fits(lit, MAX_BITS) && Fits(dist, MAX_BITS)
    requires NearOptimal(LitCounts(ts)[END_OF_BLOCK := 1], lit) && NearOptimal(DistCounts(ts), dist)
    ensures |StaticCodes().litLen| == 288 && |StaticCodes().dist| == 32
    ensures 5 * |BlockBits(Codes(Words(lit), Words(dist)), ts)| <= 5 * |BlockBits(StaticCodes(), ts)| + 5 * (|ts| + 1) + Matches(ts)
  {
    hide Cost, Sum, Words, Fits, BlockBits, LitCounts, DistCounts, Usable, StaticLit, StaticDist, Lengths;
    var a, b := LitCounts(ts)[END_OF_BLOCK := 1], DistCounts(ts);
    StaticFit();
    WordLengths(lit);
    WordLengths(dist);
    WordLengths(StaticLit());
    WordLengths(StaticDist());
    BlockLength(Codes(Words(lit), Words(dist)), ts);
    BlockLength(StaticCodes(), ts);
    StaticUsable(a, b);
    assert NotFar(a, lit, StaticLit()) && NotFar(b, dist, StaticDist());
    EndSum(ts);
    MatchesCounted(ts);
  }

  lemma EndSum(ts: seq<Token>)
    requires AllEncodable(ts)
    ensures Sum(LitCounts(ts)[END_OF_BLOCK := 1]) == |ts| + 1
  {
    hide Sum, LitLenCount;
    LitCountsSum(ts);
    SumUpdate(LitCounts(ts), END_OF_BLOCK, 1);
    assert LitCounts(ts)[END_OF_BLOCK] == 0;
  }

  // No tokens that the token buffer can hold take more.
  lemma DynamicBlockFits(ts: seq<Token>, lit: seq<nat>, dist: seq<nat>)
    requires AllEncodable(ts) && |Pack(ts)| <= LZ_CODE_BUF_SIZE
    requires |lit| == 288 && |dist| == 32 && Fits(lit, MAX_BITS) && Fits(dist, MAX_BITS)
    requires NearOptimal(LitCounts(ts)[END_OF_BLOCK := 1], lit) && NearOptimal(DistCounts(ts), dist)
    ensures |BlockBits(Codes(Words(lit), Words(dist)), ts)| <= 8 * 84412
  {
    hide Pack, Words, Fits, StaticCodes, NearOptimal, FlaggedBits, LitCounts, DistCounts, TokensBits;
    AgainstStatic(ts, lit, dist);
    TokensSlack(ts);
    PackedCost(ts);
    EndLength();
  }
}
