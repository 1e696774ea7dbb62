/** Starting a dynamic block: the two codes are built from the symbol counts, their sizes packed, a
    third code built for the packed form, and the header written. */
module DynamicBlock {
  import opened Wrappers
  import opened Sums
  import opened Bits
  import opened Lz77
  import opened Symbols
  import opened TokenBuffer
  import opened BitOutput
  import opened DecodeTable
  import opened Canonical
  import opened HuffmanTable
  import opened InflateTable
  import opened BlockCodec
  import opened LzCodes
  import opened CodeLengths
  import opened CodeHeader
  import opened CodeTables

  // ---------- the counts ----------

  function LitCounts(ts: seq<Token>): (r: seq<nat>)
    requires AllEncodable(ts)
    ensures |r| == 288
  {
    seq(288, s requires 0 <= s < 288 => LitLenCount(ts, s))
  }

  function DistCounts(ts: seq<Token>): (r: seq<nat>)
    requires AllEncodable(ts)
    ensures |r| == 32
  {
    seq(32, s requires 0 <= s < 32 => DistCount(ts, s))
  }

  lemma {:induction false} LitCountsSum(ts: seq<Token>)
    requires AllEncodable(ts)
    ensures Sum(LitCounts(ts)) == |ts|
    ensures LitLenCount(ts, 256) == LitLenCount(ts, 286) == LitLenCount(ts, 287) == 0
  {
    hide LenSym, LenExtra;
    if ts == [] {
      SumOfZeros(LitCounts([]));
    } else {
      var k := |ts| - 1;
      LitCountsSum(ts[..k]);
      var c, s := LitCounts(ts[..k]), LitLenSym(ts[k]);
      SymInRange(ts[k]);
      assert LitCounts(ts) == c[s := c[s] + 1];
      SumUpdate(c, s, c[s] + 1);
    }
  }

  lemma SymInRange(t: Token)
    requires Encodable(t)
    ensures LitLenSym(t) < 286 && LitLenSym(t) != 256 && (t.Match? ==> DistSym(t.dist - 1) < 30)
  {
    if t.Match? {
      LengthInverts(t.len - MIN_MATCH_LEN);
      DistanceInverts(t.dist - 1);
    }
  }

  lemma {:induction false} DistCountsSum(ts: seq<Token>)
    requires AllEncodable(ts)
    ensures Sum(DistCounts(ts)) <= |ts| && DistCount(ts, 30) == DistCount(ts, 31) == 0
  {
    hide DistSym, DistExtra;
    if ts == [] {
      SumOfZeros(DistCounts([]));
    } else {
      var k := |ts| - 1;
      DistCountsSum(ts[..k]);
      var c := DistCounts(ts[..k]);
      if ts[k].Match? {
        var s := DistSym(ts[k].dist - 1);
        SymInRange(ts[k]);
        assert DistCounts(ts) == c[s := c[s] + 1];
        SumUpdate(c, s, c[s] + 1);
      } else {
        assert DistCounts(ts) == c;
      }
    }
  }

  lemma {:induction false} Counts2Sum(items: seq<Item>, counts: seq<int>)
    requires ItemsOk(items) && |counts| == LENGTH_SYMBOLS
    requires forall s :: 0 <= s < LENGTH_SYMBOLS ==> counts[s] == SymCount(items, s)
    ensures Sum(counts) == |items|
    decreases |items|
  {
    hide Pow2;
    if items == [] {
      SumOfZeros(counts);
    } else {
      var k := |items| - 1;
      var s := items[k].sym;
      var before := counts[s := counts[s] - 1];
      Counts2Sum(items[..k], before);
      SumUpdate(counts, s, counts[s] - 1);
    }
  }

  lemma {:induction false} ItemCounted(items: seq<Item>, i: nat)
    requires i < |items|
    ensures SymCount(items, items[i].sym) > 0
  {
    if i < |items| - 1 {
      ItemCounted(items[..|items| - 1], i);
    }
  }

  // A token's symbols are counted.
  lemma {:induction false} TokenCounted(ts: seq<Token>, i: nat)
    requires AllEncodable(ts) && i < |ts|
    ensures LitLenCount(ts, LitLenSym(ts[i])) > 0
    ensures ts[i].Match? ==> DistCount(ts, DistSym(ts[i].dist - 1)) > 0
  {
    hide LenSym, DistSym;
    if i < |ts| - 1 {
      TokenCounted(ts[..|ts| - 1], i);
    }
  }

  // Codes built from the counts have a word for every symbol the tokens use.
  lemma CountedCoded(ts: seq<Token>, lit: seq<nat>, dist: seq<nat>)
    requires AllEncodable(ts) && |lit| == 288 && |dist| == 32
    requires Fits(lit, MAX_BITS) && Fits(dist, MAX_BITS) && lit[END_OF_BLOCK] > 0
    requires forall s :: 0 <= s < 288 && LitLenCount(ts, s) > 0 ==> lit[s] > 0
    requires forall s :: 0 <= s < 32 && DistCount(ts, s) > 0 ==> dist[s] > 0
    ensures var c := Codes(Words(lit), Words(dist)); CodesOk(c) && forall i :: 0 <= i < |ts| ==> Coded(c, ts[i])
  {
    hide LenSym, DistSym, LenExtra, DistExtra, LitLenCount, DistCount, PrefixCode, Fits, Words, Coded, LitLenSym;
    WordsAreCode(lit);
    WordsAreCode(dist);
    var c := Codes(Words(lit), Words(dist));
    WordNonempty(lit, END_OF_BLOCK);
    forall i | 0 <= i < |ts| ensures Coded(c, ts[i]) {
      TokenCounted(ts, i);
      SymInRange(ts[i]);
      WordNonempty(lit, LitLenSym(ts[i]));
      if ts[i].Match? {
        WordNonempty(dist, DistSym(ts[i].dist - 1));
      }
      SymsCoded(c, ts[i]);
    }
  }

  lemma WordNonempty(sizes: seq<nat>, i: nat)
    requires Fits(sizes, MAX_BITS) && i < |sizes| && sizes[i] > 0
    ensures Words(sizes)[i] != []
  {}

  lemma SymsCoded(c: Codes, t: Token)
    requires Encodable(t) && |c.litLen| == 288 && |c.dist| == 32 && LitLenSym(t) < 286 && c.litLen[LitLenSym(t)] != []
    requires t.Match? ==> DistSym(t.dist - 1) < 30 && c.dist[DistSym(t.dist - 1)] != []
    ensures Coded(c, t)
  {
    hide LenSym, DistSym, LenExtra, DistExtra;
  }

  // ---------- the packed sizes ----------

  lemma {:induction false} ItemsBytesPrefix(items: seq<Item>, k: nat)
    requires k < |items|
    ensures var at := |ItemsBytes(items[..k])|;
      && at + |ItemBytes(items[k])| <= |ItemsBytes(items)|
      && ItemsBytes(items)[at..at + |ItemBytes(items[k])|] == ItemBytes(items[k])
      && |ItemsBytes(items[..k + 1])| == at + |ItemBytes(items[k])|
    decreases |items|
  {
    hide ItemBytes;
    assert items[..k + 1][..k] == items[..k];
    var m := |items| - 1;
    if k == m {
      assert items[..k + 1] == items;
    } else {
      ItemsBytesPrefix(items[..m], k);
      assert items[..m][..k] == items[..k] && items[..m][..k + 1] == items[..k + 1];
      InPrefix(ItemsBytes(items[..m]), ItemBytes(items[m]), |ItemsBytes(items[..k])|, |ItemBytes(items[k])|);
    }
  }

  lemma InPrefix(s: seq<nat>, t: seq<nat>, at: nat, n: nat)
    requires at + n <= |s|
    ensures (s + t)[at..at + n] == s[at..at + n]
  {}

  lemma NextItem(packed: seq<nat>, n: nat, items: seq<Item>, k: nat, idx: nat)
    requires n <= |packed| && packed[..n] == ItemsBytes(items) && k <= |items| && idx == |ItemsBytes(items[..k])|
    ensures idx < n <==> k < |items|
    ensures k < |items| ==> idx + |ItemBytes(items[k])| <= n && packed[idx] == items[k].sym
    ensures k < |items| && items[k].sym >= 16 ==> packed[idx + 1] == items[k].extra
    ensures k < |items| ==> |ItemsBytes(items[..k + 1])| == idx + |ItemBytes(items[k])|
  {
    hide ItemsBytes;
    if k < |items| {
      ItemsBytesPrefix(items, k);
      var b := packed[..n][idx..idx + |ItemBytes(items[k])|];
      assert b[0] == packed[idx];
      assert items[k].sym >= 16 ==> b[1] == packed[idx + 1];
    } else {
      assert items[..k] == items;
    }
  }

  lemma ItemsBitsStep(words: seq<Path>, items: seq<Item>, k: nat, e: seq<bool>)
    requires |words| == LENGTH_SYMBOLS && ItemsOk(items) && k < |items|
    ensures e + ItemsBits(words, items[k..]) == e + words[items[k].sym] + LsbBits(items[k].extra, Width(items[k].sym))
      + ItemsBits(words, items[k + 1..])
  {
    hide ItemOk;
    assert items[k..][1..] == items[k + 1..];
  }

  // Writes the packed sizes under the third code.
  method PutItems(w: Writer, p: Packer, k2: Coding, ghost words: seq<Path>)
    requires w.Valid() && p.Valid() && |words| == LENGTH_SYMBOLS && Spelled(k2, words) && |p.have| <= MAX_SIZES
    requires forall i :: 0 <= i < |p.items| ==> p.items[i].sym < LENGTH_SYMBOLS && words[p.items[i].sym] != []
    modifies w`pos, w`bitBuffer, w`bitsIn, w`emitted, w.buf
    ensures w.Valid() && ItemsOk(p.items) && w.emitted == old(w.emitted) + ItemsBits(words, p.items)
  {
    hide w.Valid, Pow2, LsbBits, ItemsBytes, ItemsBits, ItemOk, Unrolled, SymCount, Width;
    ghost var items, e, k := p.items, w.emitted, 0;
    var idx: nat, n, packed := 0, p.n, p.packed[..];
    NoItems(items);
    assert items[0..] == items;
    NextItem(packed, n, items, 0, 0);
    while idx < n
      invariant w.Valid() && k <= |items| && idx == |ItemsBytes(items[..k])| && (idx < n <==> k < |items|)
      invariant w.emitted + ItemsBits(words, items[k..]) == e + ItemsBits(words, items)
      decreases |items| - k
    {
      NextItem(packed, n, items, k, idx);
      ItemsBitsStep(words, items, k, w.emitted);
      var code := packed[idx];
      idx := idx + 1;
      WordSize(k2, words, code);
      ItemFits(items, k);
      w.PutBits(k2.codes[code], k2.sizes[code]);
      if code >= 16 {
        w.PutBits(packed[idx], Width(code));
        idx := idx + 1;
      }
      k := k + 1;
      NextItem(packed, n, items, k, idx);
    }
    NoMoreItems(words, items[k..], w.emitted);
  }

  lemma ItemFits(items: seq<Item>, k: nat)
    requires ItemsOk(items) && k < |items|
    ensures items[k].extra < Pow2(Width(items[k].sym)) && items[k].sym <= 18
    ensures items[k].sym < 16 ==> |ItemBytes(items[k])| == 1 && LsbBits(items[k].extra, Width(items[k].sym)) == []
    ensures items[k].sym >= 16 ==> |ItemBytes(items[k])| == 2
  {}

  lemma NoItems(items: seq<Item>)
    ensures ItemsBytes(items[..0]) == []
  {}

  lemma NoMoreItems(words: seq<Path>, items: seq<Item>, e: seq<bool>)
    requires |words| == LENGTH_SYMBOLS && items == []
    ensures e + ItemsBits(words, items) == e
  {}

  // ---------- starting the block ----------

  // How many of the first n sizes are kept once trailing zeros are dropped, but no fewer than least.
  method Trimmed(sizes: seq<nat>, most: nat, least: nat) returns (n: nat)
    requires least <= most <= |sizes| && forall i :: most <= i < |sizes| ==> sizes[i] == 0
    ensures least <= n <= most && forall i :: n <= i < |sizes| ==> sizes[i] == 0
    ensures n > least ==> sizes[n - 1] != 0
  {
    n := most;
    while n > least
      invariant least <= n <= most && forall i :: n <= i < |sizes| ==> sizes[i] == 0
    {
      if sizes[n - 1] != 0 {
        break;
      }
      n := n - 1;
    }
  }

  // The symbol whose size is sent at a place of the fixed order.
  function PlaceSent(i: nat): (s: nat)
    requires i < LENGTH_SYMBOLS
    ensures s < LENGTH_SYMBOLS
  {
    SwizzleIsPermutation();
    SWIZZLE[i]
  }

  // How many sizes of the code-length code are sent.
  method TrimmedLens(lens: seq<nat>) returns (n: nat)
    requires |lens| >= LENGTH_SYMBOLS
    ensures LensSent(lens, n) && (n > 4 ==> lens[PlaceSent(n - 1)] != 0)
  {
    SwizzleIsPermutation();
    var last := 18;
    while last >= 0
      invariant -1 <= last <= 18
      invariant forall s :: 0 <= s < LENGTH_SYMBOLS && PLACE_OF[s] > last ==> lens[s] == 0
    {
      if lens[SWIZZLE[last]] != 0 {
        break;
      }
      last := last - 1;
    }
    n := if last + 1 < 4 then 4 else last + 1;
  }

  // The counts of a block's tokens, with one end-of-block symbol.
  lemma EndCounted(ts: seq<Token>, counts: seq<nat>, counts': seq<nat>, dist: seq<nat>)
    requires AllEncodable(ts) && |ts| <= 60000 && Counted(ts, counts, dist) && counts' == counts[END_OF_BLOCK := 1]
    ensures Sum(counts'[..288]) == |ts| + 1 && Sum(dist[..32]) <= |ts|
    ensures counts'[286] == counts'[287] == 0 && dist[30] == dist[31] == 0
    ensures counts'[..288] == LitCounts(ts)[END_OF_BLOCK := 1] && dist[..32] == DistCounts(ts)
  {
    hide Sum, LitLenCount, DistCount;
    LitCountsSum(ts);
    DistCountsSum(ts);
    var c := LitCounts(ts);
    assert counts'[..288] == c[END_OF_BLOCK := 1];
    assert dist[..32] == DistCounts(ts);
    SumUpdate(c, END_OF_BLOCK, 1);
  }

  // What a header stands for: after it, whatever follows, the decoder has both lists of sizes.
  ghost predicate HeaderFor(header: seq<bool>, lit: seq<nat>, dist: seq<nat>) {
    forall rest :: ReadHeader(header + rest) == Got((lit, dist), rest)
  }

  // What a block is coded with, and that the decoder can undo it.
  ghost predicate BlockCodes(ts: seq<Token>, c: Codes, lit: Coding, dist: Coding) {
    && AllEncodable(ts) && |c.litLen| == 288 && |c.dist| == 32 && CodesOk(c)
    && Spelled(lit, c.litLen) && Spelled(dist, c.dist)
    && forall i :: 0 <= i < |ts| ==> Coded(c, ts[i])
  }

  // Both codes of a block, from its counts.
  method BuildCodes(litCount: array<nat>, distCount: array<nat>, ghost ts: seq<Token>) returns (lit: Coding, dist: Coding)
    requires litCount.Length == distCount.Length == 288 && litCount != distCount
    requires AllEncodable(ts) && |ts| <= 60000 && Counted(ts, litCount[..], distCount[..])
    modifies litCount
    ensures |lit.sizes| == |lit.codes| == |dist.sizes| == |dist.codes| == 288
    ensures BlockCodes(ts, Codes(Words(lit.sizes), Words(dist.sizes[..32])), lit, dist)
    ensures Accepts(lit.sizes) && Accepts(dist.sizes[..32])
    ensures Fits(lit.sizes, MAX_BITS) && Fits(dist.sizes[..32], MAX_BITS)
    ensures lit.sizes[286] == lit.sizes[287] == 0 && forall i :: 30 <= i < 288 ==> dist.sizes[i] == 0
    ensures NearOptimal(LitCounts(ts)[END_OF_BLOCK := 1], lit.sizes) && NearOptimal(DistCounts(ts), dist.sizes[..32])
  {
    hide NearOptimal, Accepts, Fits, Spelled, Words, Sum, Pow2, LitLenCount, DistCount, UsedSyms, Complete, Coded, CodesOk;
    ghost var counts, dists := litCount[..], distCount[..];
    litCount[END_OF_BLOCK] := 1;
    EndCounted(ts, counts, litCount[..], dists);
    assert distCount[..] == dists && distCount[..32] == dists[..32];
    assert litCount[..288] == litCount[..];
    Powers15();
    lit := BuildCoding(litCount, 288, 15);
    dist := BuildCoding(distCount, 32, 15);
    assert lit.sizes[..288] == lit.sizes;
    CountedCoded(ts, lit.sizes, dist.sizes[..32]);
  }

  lemma Powers15()
    ensures 288 <= Pow2(15) && 19 <= Pow2(7)
  {
    Pow2Table();
  }

  function SymCounts(items: seq<Item>): (r: seq<nat>)
    ensures |r| == LENGTH_SYMBOLS
  {
    seq(LENGTH_SYMBOLS, s requires 0 <= s < LENGTH_SYMBOLS => SymCount(items, s))
  }

  // The header sends no trailing zero of either list beyond the fewest sizes there may be, packs both lists as
  // one, and codes the packed symbols for their counts, sending no trailing zero of that code's sizes either.
  ghost predicate HeaderPacked(header: seq<bool>, lit: seq<nat>, dist: seq<nat>, numLit: nat, numDist: nat, numLens: nat, lens: seq<nat>) {
    && |lit| == 288 && |dist| == 32 && 257 <= numLit <= 286 && 1 <= numDist <= 30 && 4 <= numLens <= |lens| == LENGTH_SYMBOLS
    && (numLit > 257 ==> lit[numLit - 1] != 0) && (numDist > 1 ==> dist[numDist - 1] != 0)
    && (numLens > 4 ==> lens[PlaceSent(numLens - 1)] != 0)
    && var items := PackedOf(lit[..numLit] + dist[..numDist]);
      && ItemsOk(items) && SizesFor(SymCounts(items), lens, 7)
      && header == HeaderBits(numLit, numDist, numLens, lens, items)
  }

  ghost predicate WellPacked(header: seq<bool>, lit: seq<nat>, dist: seq<nat>) {
    exists numLit, numDist, numLens, lens :: HeaderPacked(header, lit, dist, numLit, numDist, numLens, lens)
  }

  // The third code, from the packed symbols' counts.
  method BuildLengthCode(p: Packer) returns (k: Coding)
    requires p.Valid() && |p.have| <= MAX_SIZES
    ensures |k.sizes| == |k.codes| == 288 && Accepts(k.sizes[..LENGTH_SYMBOLS])
    ensures Fits(k.sizes[..LENGTH_SYMBOLS], MAX_BITS) && Spelled(k, Words(k.sizes[..LENGTH_SYMBOLS]))
    ensures forall s :: 0 <= s < LENGTH_SYMBOLS ==> k.sizes[s] < 8
    ensures ItemsOk(p.items) && forall i :: 0 <= i < |p.items| ==> k.sizes[p.items[i].sym] > 0
    ensures SizesFor(SymCounts(p.items), k.sizes[..LENGTH_SYMBOLS], 7)
  {
    hide Accepts, Spelled, Words, Sum, Pow2, UsedSyms, Complete, SymCount, ItemsBytes, Unrolled;
    ghost var counts := p.counts[..LENGTH_SYMBOLS];
    assert counts == SymCounts(p.items);
    Counts2Sum(p.items, counts);
    Powers15();
    k := BuildCoding(p.counts, LENGTH_SYMBOLS, 7);
    SmallSizes(k.sizes[..LENGTH_SYMBOLS], counts);
    forall i | 0 <= i < |p.items| ensures k.sizes[p.items[i].sym] > 0 {
      ItemCounted(p.items, i);
      assert ItemOk(p.items[i]);
      assert k.sizes[..LENGTH_SYMBOLS][p.items[i].sym] == k.sizes[p.items[i].sym];
      assert counts[p.items[i].sym] == SymCount(p.items, p.items[i].sym);
    }
    forall s | 0 <= s < LENGTH_SYMBOLS ensures k.sizes[s] < 8 {
      assert k.sizes[..LENGTH_SYMBOLS][s] == k.sizes[s];
    }
  }

  lemma SmallSizes(sizes: seq<nat>, counts: seq<nat>)
    requires SizesFor(counts, sizes, 7)
    ensures forall s :: 0 <= s < |sizes| ==> sizes[s] <= 7
  {}

  lemma HeaderSuits(numLit: nat, numDist: nat, numLens: nat, lens: seq<nat>, items: seq<Item>, lit: seq<nat>, dist: seq<nat>)
    requires HeaderOk(numLit, numDist, lens, items, lit, dist) && LensSent(lens, numLens)
    ensures HeaderFor(HeaderBits(numLit, numDist, numLens, lens, items), lit, dist)
  {
    hide HeaderOk, ReadHeader, HeaderBits, LensSent;
    assert numLit >= 257 && numDist >= 1 && 4 <= numLens <= |lens| == LENGTH_SYMBOLS && ItemsOk(items) by {
      HeaderParts(numLit, numDist, numLens, lens, items, lit, dist);
    }
    forall rest ensures ReadHeader(HeaderBits(numLit, numDist, numLens, lens, items) + rest) == Got((lit, dist), rest) {
      HeaderRoundTrip(numLit, numDist, numLens, lens, items, lit, dist, rest);
    }
  }

  lemma HeaderParts(numLit: nat, numDist: nat, numLens: nat, lens: seq<nat>, items: seq<Item>, lit: seq<nat>, dist: seq<nat>)
    requires HeaderOk(numLit, numDist, lens, items, lit, dist) && LensSent(lens, numLens)
    ensures numLit >= 257 && numDist >= 1 && 4 <= numLens <= |lens| == LENGTH_SYMBOLS && ItemsOk(items)
  {}

  // The sizes of the code-length code, in the fixed order.
  method PutLens(w: Writer, lens: seq<nat>, n: nat)
    requires w.Valid() && |lens| == LENGTH_SYMBOLS && n <= LENGTH_SYMBOLS
    requires forall s :: 0 <= s < LENGTH_SYMBOLS ==> lens[s] < 8
    modifies w`pos, w`bitBuffer, w`bitsIn, w`emitted, w.buf
    ensures w.Valid() && w.emitted == old(w.emitted) + LensBits(lens, 0, n)
  {
    hide w.Valid, LsbBits, Pow2;
    ghost var e := w.emitted;
    Pow2Table();
    var i := 0;
    while i < n
      invariant i <= n && w.Valid() && w.emitted + LensBits(lens, i, n) == e + LensBits(lens, 0, n)
    {
      Assoc(w.emitted, LsbBits(lens[SWIZZLE[i]], 3), LensBits(lens, i + 1, n));
      w.PutBits(lens[SWIZZLE[i]], 3);
      i := i + 1;
    }
    assert w.emitted + LensBits(lens, n, n) == w.emitted;
  }

  // The whole header of a dynamic block, after its type.
  method PutHeader(w: Writer, numLit: nat, numDist: nat, k2: Coding, p: Packer, ghost lit: seq<nat>, ghost dist: seq<nat>)
    returns (ghost header: seq<bool>, ghost numLens: nat)
    requires w.Valid() && p.Valid() && |p.have| <= MAX_SIZES && |k2.sizes| == |k2.codes| == 288
    requires Spelled(k2, Words(k2.sizes[..LENGTH_SYMBOLS])) && forall s :: 0 <= s < LENGTH_SYMBOLS ==> k2.sizes[s] < 8
    requires HeaderOk(numLit, numDist, k2.sizes[..LENGTH_SYMBOLS], p.items, lit, dist)
    modifies w`pos, w`bitBuffer, w`bitsIn, w`emitted, w.buf
    ensures w.Valid() && w.emitted == old(w.emitted) + header && HeaderFor(header, lit, dist) && |header| <= 5000
    ensures 257 <= numLit && 1 <= numDist && 4 <= numLens <= LENGTH_SYMBOLS && ItemsOk(p.items)
    ensures numLens > 4 ==> k2.sizes[PlaceSent(numLens - 1)] != 0
    ensures header == HeaderBits(numLit, numDist, numLens, k2.sizes[..LENGTH_SYMBOLS], p.items)
  {
    hide w.Valid, LsbBits, Pow2, Spelled, Words, HeaderOk, LensBits, ItemsBits, HeaderFor, PlaceSent;
    ghost var e := w.emitted;
    var lens := k2.sizes[..LENGTH_SYMBOLS];
    var n := TrimmedLens(lens);
    numLens := n;
    HeaderNumbers(numLit, numDist, n, lens, p.items, lit, dist);
    HeaderSuits(numLit, numDist, n, lens, p.items, lit, dist);
    header := HeaderBits(numLit, numDist, n, lens, p.items);
    HeaderLength(numLit, numDist, n, lens, p);
    w.PutBits(numLit - 257, 5);
    w.PutBits(numDist - 1, 5);
    w.PutBits(n - 4, 4);
    PutLens(w, lens, n);
    PutItems(w, p, k2, Words(lens));
    FiveParts(e, LsbBits(numLit - 257, 5), LsbBits(numDist - 1, 5), LsbBits(n - 4, 4), LensBits(lens, 0, n), ItemsBits(Words(lens), p.items));
  }

  lemma HeaderLength(numLit: nat, numDist: nat, n: nat, lens: seq<nat>, p: Packer)
    requires numLit >= 257 && numDist >= 1 && 4 <= n <= |lens| == LENGTH_SYMBOLS && p.Valid() && |p.have| <= MAX_SIZES
    requires ItemsOk(p.items) && forall s :: 0 <= s < LENGTH_SYMBOLS ==> lens[s] < 8
    ensures |HeaderBits(numLit, numDist, n, lens, p.items)| <= 5000
  {
    hide LsbBits, Pow2, ItemsBytes, Unrolled, SymCount, CodeWord, ItemOk;
    assert |p.items| <= 320;
    LensLength(lens, 0, n);
    ItemsLength(Words(lens), p.items);
  }

  lemma {:induction false} LensLength(lens: seq<nat>, k: nat, n: nat)
    requires |lens| == LENGTH_SYMBOLS && k <= n <= LENGTH_SYMBOLS
    ensures |LensBits(lens, k, n)| == 3 * (n - k)
    decreases n - k
  {
    if k < n {
      LensLength(lens, k + 1, n);
    }
  }

  lemma {:induction false} ItemsLength(words: seq<Path>, items: seq<Item>)
    requires |words| == LENGTH_SYMBOLS && ItemsOk(items) && forall s :: 0 <= s < LENGTH_SYMBOLS ==> |words[s]| <= 7
    ensures |ItemsBits(words, items)| <= 14 * |items|
    decreases |items|
  {
    hide Pow2, LsbBits;
    if items != [] {
      ItemsLength(words, items[1..]);
    }
  }

  lemma FiveParts(e: seq<bool>, p: seq<bool>, q: seq<bool>, r: seq<bool>, s: seq<bool>, t: seq<bool>)
    ensures e + p + q + r + s + t == e + (p + (q + (r + (s + t))))
  {}

  lemma HeaderNumbers(numLit: nat, numDist: nat, numLens: nat, lens: seq<nat>, items: seq<Item>, lit: seq<nat>, dist: seq<nat>)
    requires HeaderOk(numLit, numDist, lens, items, lit, dist) && LensSent(lens, numLens)
    ensures 257 <= numLit && numLit - 257 < Pow2(5) && 1 <= numDist && numDist - 1 < Pow2(5)
    ensures 4 <= numLens <= |lens| == LENGTH_SYMBOLS && numLens - 4 < Pow2(4) && ItemsOk(items)
    ensures forall i :: 0 <= i < |items| ==> items[i].sym < LENGTH_SYMBOLS && Words(lens)[items[i].sym] != []
  {
    Pow2Table();
    forall i | 0 <= i < |items| ensures items[i].sym < LENGTH_SYMBOLS && Words(lens)[items[i].sym] != [] {
      assert ItemOk(items[i]);
      WordNonempty(lens, items[i].sym);
    }
  }

  lemma SuitsHeader(numLit: nat, numDist: nat, lens: seq<nat>, items: seq<Item>, lit: seq<nat>, dist: seq<nat>)
    requires 257 <= numLit <= 286 && 1 <= numDist <= 30 && |lens| == |lit| == |dist| == 288
    requires Accepts(lens[..LENGTH_SYMBOLS]) && Fits(lens[..LENGTH_SYMBOLS], MAX_BITS)
    requires Accepts(lit) && Accepts(dist[..32])
    requires forall s :: 0 <= s < LENGTH_SYMBOLS ==> lens[s] < 8
    requires ItemsOk(items) && forall i :: 0 <= i < |items| ==> lens[items[i].sym] > 0
    requires Unrolled(items) == Some(lit[..numLit] + dist[..numDist])
    requires forall i :: numLit <= i < 288 ==> lit[i] == 0
    requires forall i :: numDist <= i < 288 ==> dist[i] == 0
    ensures HeaderOk(numLit, numDist, lens[..LENGTH_SYMBOLS], items, lit, dist[..32])
  {
    hide Accepts, Fits, Unrolled, Pow2;
    assert dist[..32][..numDist] == dist[..numDist];
    forall i | 0 <= i < |items| ensures lens[..LENGTH_SYMBOLS][items[i].sym] > 0 {
      assert ItemOk(items[i]);
    }
  }

  // Writes the block type and header; the codes returned are those the decoder will rebuild.
  method StartDynamicBlock(w: Writer, litCount: array<nat>, distCount: array<nat>, ghost ts: seq<Token>)
    returns (lit: Coding, dist: Coding, ghost header: seq<bool>)
    requires w.Valid() && litCount.Length == distCount.Length == 288 && litCount != distCount
    requires AllEncodable(ts) && |ts| <= 60000 && Counted(ts, litCount[..], distCount[..])
    modifies w`pos, w`bitBuffer, w`bitsIn, w`emitted, w.buf, litCount
    ensures |lit.sizes| == 288 && |dist.sizes| == 288
    ensures BlockCodes(ts, Codes(Words(lit.sizes), Words(dist.sizes[..32])), lit, dist)
    ensures w.Valid() && w.emitted == old(w.emitted) + (LsbBits(2, 2) + header)
    ensures HeaderFor(header, lit.sizes, dist.sizes[..32]) && |header| <= 5000
    ensures WellPacked(header, lit.sizes, dist.sizes[..32])
    ensures Fits(lit.sizes, MAX_BITS) && Fits(dist.sizes[..32], MAX_BITS)
    ensures NearOptimal(LitCounts(ts)[END_OF_BLOCK := 1], lit.sizes) && NearOptimal(DistCounts(ts), dist.sizes[..32])
  {
    hide NearOptimal, LitCounts, DistCounts, w.Valid, LsbBits, Pow2, Spelled, Words, LensBits, ItemsBits, HeaderFor, Counted, BlockCodes, Accepts,
      UsedSyms, Complete, Unrolled, Fits, HeaderOk, ItemsOk, Packed, SizesFor, PackedOf, SymCounts, PlaceSent;
    ghost var e, numLens := w.emitted, 0;
    lit, dist := BuildCodes(litCount, distCount, ts);
    var numLit := Trimmed(lit.sizes, 286, 257);
    var numDist := Trimmed(dist.sizes, 30, 1);
    var p := new Packer();
    SizesSmall(lit.sizes, dist.sizes[..32]);
    p.Pack(lit.sizes[..numLit] + dist.sizes[..numDist]);
    var k2 := BuildLengthCode(p);
    SmallPowers();
    w.PutBits(2, 2);
    SuitsHeader(numLit, numDist, k2.sizes, p.items, lit.sizes, dist.sizes);
    header, numLens := PutHeader(w, numLit, numDist, k2, p, lit.sizes, dist.sizes[..32]);
    assert dist.sizes[..32][..numDist] == dist.sizes[..numDist];
    assert HeaderPacked(header, lit.sizes, dist.sizes[..32], numLit, numDist, numLens, k2.sizes[..LENGTH_SYMBOLS]);
    Assoc(e, LsbBits(2, 2), header);
  }

  lemma SizesSmall(lit: seq<nat>, dist: seq<nat>)
    requires Fits(lit, MAX_BITS) && Fits(dist, MAX_BITS)
    ensures forall i :: 0 <= i < |lit| ==> lit[i] < 16
    ensures forall i :: 0 <= i < |dist| ==> dist[i] < 16
  {}
}
