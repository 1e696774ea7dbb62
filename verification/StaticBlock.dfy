/** The fixed codes (section 3.2.6 of RFC 1951). They cover every symbol, and a block coded with them
    always fits the output buffer, however the tokens fill the token buffer. */
module StaticBlock {
  import opened Sums
  import opened Arith
  import opened Bits
  import opened Lz77
  import opened Symbols
  import opened TokenBuffer
  import opened BitOutput
  import opened DecodeTable
  import opened Canonical
  import opened HuffmanTable
  import opened InflateTable
  import opened BlockCodec
  import opened LzCodes
  import opened CodeLengths
  import opened CodeTables
  import opened DynamicBlock

  function StaticLit(): (r: seq<nat>)
    ensures |r| == 288
  {
    Copies(8, 144) + Copies(9, 112) + Copies(7, 24) + Copies(8, 8)
  }

  function StaticDist(): (r: seq<nat>)
    ensures |r| == 32
  {
    Copies(5, 32)
  }

  function StaticSize(i: nat): nat {
    if i <= 143 then 8 else if i <= 255 then 9 else if i <= 279 then 7 else 8
  }

  lemma StaticLitAt(sizes: seq<nat>)
    requires |sizes| == 288 && forall i :: 0 <= i < 288 ==> sizes[i] == StaticSize(i)
    ensures sizes == StaticLit()
  {
    var s := StaticLit();
    forall i | 0 <= i < 288 ensures sizes[i] == s[i] {}
  }

  ghost function StaticCodes(): Codes {
    Codes(Words(StaticLit()), Words(StaticDist()))
  }

  lemma {:induction false} CopiesOf(v: nat, n: nat, l: nat)
    ensures Occurrences(Copies(v, n), l) == if v == l then n else 0
    decreases n
  {
    if n > 0 {
      CopiesOf(v, n - 1, l);
      assert Copies(v, n)[..n - 1] == Copies(v, n - 1);
    }
  }

  lemma ConcatOccurrences(s: seq<nat>, t: seq<nat>, l: nat)
    ensures Occurrences(s + t, l) == Occurrences(s, l) + Occurrences(t, l)
  {
    OccurrencesSplit(s + t, |s|, l);
    assert (s + t)[..|s|] == s && (s + t)[|s|..] == t;
  }

  lemma StaticOccurrences(l: nat)
    ensures Occurrences(StaticLit(), l) == if l == 7 then 24 else if l == 8 then 152 else if l == 9 then 112 else 0
    ensures Occurrences(StaticDist(), l) == if l == 5 then 32 else 0
  {
    hide Occurrences, Copies;
    CopiesOf(8, 144, l);
    CopiesOf(9, 112, l);
    CopiesOf(7, 24, l);
    CopiesOf(8, 8, l);
    CopiesOf(5, 32, l);
    ConcatOccurrences(Copies(8, 144), Copies(9, 112), l);
    ConcatOccurrences(Copies(8, 144) + Copies(9, 112), Copies(7, 24), l);
    ConcatOccurrences(Copies(8, 144) + Copies(9, 112) + Copies(7, 24), Copies(8, 8), l);
  }

  // No codes up to size k, then those of size k + 1.
  lemma {:induction false} KraftZero(c: seq<nat>, k: nat)
    requires k < |c| && forall i :: 1 <= i <= k ==> c[i] == 0
    ensures Kraft(c, k) == 0
  {
    if k > 0 {
      KraftZero(c, k - 1);
    }
  }

  lemma StaticComplete()
    ensures Complete(StaticLit(), 9) && Complete(StaticDist(), 5)
  {
    var c, d := Counts(StaticLit(), 9), Counts(StaticDist(), 5);
    forall l ensures Occurrences(StaticLit(), l) == (if l == 7 then 24 else if l == 8 then 152 else if l == 9 then 112 else 0)
                  && Occurrences(StaticDist(), l) == if l == 5 then 32 else 0 {
      StaticOccurrences(l);
    }
    hide Occurrences;
    KraftZero(c, 6);
    KraftZero(d, 4);
    Pow2Table();
    assert Kraft(c, 7) == 24;
    assert Kraft(c, 8) == 200;
  }

  lemma StaticFit()
    ensures Accepts(StaticLit()) && Accepts(StaticDist())
    ensures Fits(StaticLit(), MAX_BITS) && Fits(StaticDist(), MAX_BITS)
  {
    StaticComplete();
    assert Fits(StaticLit(), 9) && Fits(StaticDist(), 5);
    hide Complete, Fits, Counts, Total;
    Wider(StaticLit(), 9, MAX_BITS);
    Wider(StaticDist(), 5, MAX_BITS);
  }

  lemma StaticCoded(t: Token)
    requires Encodable(t)
    ensures |StaticCodes().litLen| == 288 && |StaticCodes().dist| == 32 && Coded(StaticCodes(), t)
  {
    hide Fits, Words, LenSym, DistSym, LenExtra, DistExtra, LitLenSym, Coded, StaticLit, StaticDist;
    StaticFit();
    SymInRange(t);
    AllPositive(LitLenSym(t), 0);
    WordNonempty(StaticLit(), LitLenSym(t));
    if t.Match? {
      AllPositive(0, DistSym(t.dist - 1));
      WordNonempty(StaticDist(), DistSym(t.dist - 1));
    }
    SymsCoded(StaticCodes(), t);
  }

  lemma AllPositive(i: nat, d: nat)
    requires i < 288 && d < 32
    ensures StaticLit()[i] > 0 && StaticDist()[d] > 0
  {}

  // The fixed codes can be written, read, and have a word for everything.
  lemma StaticAccepted()
    ensures CodesOk(StaticCodes())
    ensures forall t :: Encodable(t) ==> Coded(StaticCodes(), t)
  {
    hide Fits, Words, PrefixCode, Coded, StaticLit, StaticDist, Encodable, Accepts;
    StaticFit();
    WordsAreCode(StaticLit());
    WordsAreCode(StaticDist());
    AllPositive(END_OF_BLOCK, 0);
    WordNonempty(StaticLit(), END_OF_BLOCK);
    forall t | Encodable(t) ensures Coded(StaticCodes(), t) {
      StaticCoded(t);
    }
  }

  // Fills in the sizes, and builds the codes from them.
  method StartStaticBlock(w: Writer) returns (lit: Coding, dist: Coding)
    requires w.Valid()
    modifies w`pos, w`bitBuffer, w`bitsIn, w`emitted, w.buf
    ensures w.Valid() && w.emitted == old(w.emitted) + LsbBits(1, 2)
    ensures Spelled(lit, StaticCodes().litLen) && Spelled(dist, StaticCodes().dist)
  {
    hide w.Valid, Words, Spelled, CodesFor, Complete, Fits;
    var counts := new nat[MAX_HUFF_SYMBOLS];
    var sizes := new nat[MAX_HUFF_SYMBOLS];
    var codes := new nat[MAX_HUFF_SYMBOLS];
    for i := 0 to MAX_HUFF_SYMBOLS
      invariant forall j :: 0 <= j < i ==> sizes[j] == StaticSize(j)
      invariant w.Valid() && w.emitted == old(w.emitted)
    {
      sizes[i] := if i <= 143 then 8 else if i <= 255 then 9 else if i <= 279 then 7 else 8;
    }
    StaticLitAt(sizes[..]);
    assert sizes[..288] == sizes[..];
    StaticFit();
    lit := StaticCoding(counts, sizes, codes, 288, StaticLit());
    var sizes1 := new nat[MAX_HUFF_SYMBOLS];
    var codes1 := new nat[MAX_HUFF_SYMBOLS];
    for i := 0 to 32
      invariant forall j :: 0 <= j < i ==> sizes1[j] == 5
      invariant w.Valid() && w.emitted == old(w.emitted)
    {
      sizes1[i] := 5;
    }
    assert sizes1[..32] == StaticDist();
    dist := StaticCoding(counts, sizes1, codes1, 32, StaticDist());
    SmallPowers();
    w.PutBits(1, 2);
  }

  method StaticCoding(counts: array<nat>, sizes: array<nat>, codes: array<nat>, tableLen: nat, ghost known: seq<nat>)
    returns (k: Coding)
    requires counts != sizes && codes != counts && codes != sizes
    requires counts.Length == sizes.Length == codes.Length == MAX_HUFF_SYMBOLS
    requires 32 <= tableLen <= MAX_HUFF_SYMBOLS && sizes[..tableLen] == known && Fits(known, 15)
    modifies sizes, codes
    ensures Spelled(k, Words(known))
  {
    hide Spelled, Words, CodesFor, Fits, SizesFor;
    Powers15();
    ghost var depths := OptimizeHuffmanTable(counts, sizes, codes, tableLen, 15, true);
    k := Coding(codes[..], sizes[..]);
    assert k.sizes[..tableLen] == sizes[..tableLen];
    WordsSpelled(k.codes, k.sizes, tableLen, 15);
  }

  // ---------- the bound ----------

  // A token's bits against the bytes it takes in the token buffer, flag bit included.
  lemma TokenCost(t: Token)
    requires Encodable(t)
    ensures |StaticCodes().litLen| == 288 && |StaticCodes().dist| == 32
    ensures 25 * |TokenBits(StaticCodes(), t)| <= 31 * (8 * |Body(t)| + 1)
  {
    hide LenSym, DistSym, LenExtra, DistExtra, LitLenSym, Pow2, LsbBits, CodeWord;
    SymInRange(t);
    if t.Match? {
      LengthInverts(t.len - MIN_MATCH_LEN);
      DistanceInverts(t.dist - 1);
      WordLength(LenSym(t.len - MIN_MATCH_LEN), DistSym(t.dist - 1));
      LengthCost(t.len - MIN_MATCH_LEN);
    } else {
      WordLength(t.value, 0);
    }
  }

  lemma WordLength(i: nat, d: nat)
    requires i < 288 && d < 32
    ensures |Words(StaticLit())[i]| == (if i < 144 then 8 else if i < 256 then 9 else if i < 280 then 7 else 8)
    ensures |Words(StaticDist())[d]| == 5
  {}

  // Length symbols from 280 on carry at most five extra bits, those before at most four.
  lemma LengthCost(l: nat)
    requires l < 256
    ensures LenSym(l) != 256 && LenSym(l) >= 257
    ensures LenSym(l) >= 280 ==> LenExtra(l) <= 5
    ensures LenSym(l) < 280 ==> LenExtra(l) <= 4
  {}

  // Nine eighths of a byte a literal, twenty-five eighths a match.
  function FlaggedBits(ts: seq<Token>): (n: nat)
    requires AllEncodable(ts)
  {
    8 * |Bodies(ts)| + |ts|
  }

  lemma {:induction false} TokensCost(ts: seq<Token>)
    requires AllEncodable(ts)
    ensures |StaticCodes().litLen| == 288 && |StaticCodes().dist| == 32
    ensures 25 * |TokensBits(StaticCodes(), ts)| <= 31 * FlaggedBits(ts)
    decreases |ts|
  {
    hide TokenBits, Body, StaticCodes;
    assert |StaticCodes().litLen| == 288 && |StaticCodes().dist| == 32 by { TokenCost(Literal(0)); }
    if ts != [] {
      TokensCost(ts[..|ts| - 1]);
      TokenCost(ts[|ts| - 1]);
    }
  }

  lemma {:induction false} BodiesConcat(s: seq<Token>, t: seq<Token>)
    requires AllEncodable(s) && AllEncodable(t)
    ensures AllEncodable(s + t) && Bodies(s + t) == Bodies(s) + Bodies(t)
    decreases |t|
  {
    if t == [] {
      assert s + t == s;
    } else {
      hide Body, Bodies;
      var k := |t| - 1;
      BodiesConcat(s, t[..k]);
      BodiesLast(t);
      BodiesLast(s + t);
      assert (s + t)[..|s + t| - 1] == s + t[..k];
      ConcatAssoc(Bodies(s), Bodies(t[..k]), Body(t[k]));
    }
  }

  lemma BodiesLast(t: seq<Token>)
    requires AllEncodable(t) && t != []
    ensures Bodies(t) == Bodies(t[..|t| - 1]) + Body(t[|t| - 1])
  {}

  lemma ConcatAssoc(a: seq<byte>, b: seq<byte>, c: seq<byte>)
    ensures (a + b) + c == a + (b + c)
  {}

  lemma {:induction false} PackedCost(ts: seq<Token>)
    requires AllEncodable(ts)
    ensures FlaggedBits(ts) <= 8 * |Pack(ts)|
    decreases |ts|
  {
    if ts != [] {
      hide Bodies, Pack, Group;
      var full := LastGroup(|ts|);
      PackedCost(ts[..full]);
      PackEnd(ts, full);
      GroupCost(ts, full);
    }
  }

  lemma LastGroup(n: nat) returns (full: nat)
    requires n > 0
    ensures full < n <= full + 8 && full % 8 == 0
  {
    full := (n - 1) / 8 * 8;
  }

  lemma GroupCost(ts: seq<Token>, full: nat)
    requires AllEncodable(ts) && full < |ts| <= full + 8
    ensures FlaggedBits(ts) <= FlaggedBits(ts[..full]) + 8 * |Group(ts[full..])|
  {
    hide Bodies, Group;
    assert ts == ts[..full] + ts[full..];
    BodiesConcat(ts[..full], ts[full..]);
    GroupLength(ts[full..]);
  }

  lemma GroupLength(ts: seq<Token>)
    requires AllEncodable(ts) && |ts| <= 8
    ensures |Group(ts)| == 1 + |Bodies(ts)|
  {}

  // A static block of any tokens that the token buffer can hold takes less than the output buffer.
  lemma StaticBlockFits(ts: seq<Token>)
    requires AllEncodable(ts) && |Pack(ts)| <= LZ_CODE_BUF_SIZE
    ensures |StaticCodes().litLen| == 288 && |StaticCodes().dist| == 32
    ensures |BlockBits(StaticCodes(), ts)| <= 8 * 81300
  {
    hide Pack, TokensBits, StaticCodes, FlaggedBits;
    TokensCost(ts);
    PackedCost(ts);
    EndLength();
  }

  lemma EndLength()
    ensures |StaticCodes().litLen| == 288 && |StaticCodes().litLen[END_OF_BLOCK]| == 7
  {
    WordLength(END_OF_BLOCK, 0);
  }
}
