/** Length symbols 286 and 287 stand for nothing, yet the fixed codes have words for them, and the tables
    hold the length zero. The copy of such a match writes three bytes all the same: where a fixed output
    has fewer left, it runs over the end. */
module EmptyMatch {
  import opened Arith
  import opened Sums
  import opened Bits
  import opened Lz77
  import opened Symbols
  import opened BitOutput
  import opened DecodeTable
  import opened Canonical
  import opened InflateTable
  import opened BlockCodec
  import opened CodeLengths
  import opened StaticBlock
  import opened Inflate
  import opened HeaderReader
  import opened CodedBlock
  import opened Inflater

  // The words of some literals.
  ghost function LiteralBits(c: Codes, literals: seq<byte>): seq<bool>
    requires |c.litLen| == 288
  {
    if literals == [] then [] else c.litLen[literals[0]] + LiteralBits(c, literals[1..])
  }

  // A match by its length symbol, its distance symbol and the extra bits of the distance.
  ghost function MatchBits(c: Codes, sym: nat, d: nat, extra: nat): seq<bool>
    requires |c.litLen| == 288 && |c.dist| == 32 && sym < 288 && d < 32
  {
    c.litLen[sym] + (c.dist[d] + LsbBits(extra, DistField(d).1))
  }

  // The codes have words for what is asked of them.
  ghost predicate HasWords(c: Codes, literals: seq<byte>, sym: nat, d: nat) {
    && CodesOk(c)
    && (forall i :: 0 <= i < |literals| ==> c.litLen[literals[i]] != [])
    && 286 <= sym <= 287 && c.litLen[sym] != []
    && d < 32 && c.dist[d] != []
  }

  lemma ReadsEmptyMatch(c: Codes, sym: nat, d: nat, extra: nat, rest: seq<bool>)
    requires HasWords(c, [], sym, d) && extra < Pow2(DistField(d).1)
    ensures var bits, f: (nat, nat) := MatchBits(c, sym, d, extra) + rest, (0, DistField(d).0 + extra);
      && ReadSymbol(c.litLen, bits) == Got(sym, bits[|c.litLen[sym]|..])
      && ReadFields(c, sym, bits[|c.litLen[sym]|..]) == Got(f, rest)
  {
    hide PrefixCode, LsbBits, Pow2, ReadSymbol, ReadBits, LengthField, DistField;
    var e := LsbBits(extra, DistField(d).1);
    var bits := MatchBits(c, sym, d, extra) + rest;
    assert bits == c.litLen[sym] + (c.dist[d] + (e + rest));
    assert bits[|c.litLen[sym]|..] == c.dist[d] + (e + rest);
    ReadsSymbol(c.litLen, sym, c.dist[d] + (e + rest));
    NoField(c.dist[d] + (e + rest), 0);
    ReadsSymbol(c.dist, d, e + rest);
    ReadsBits(extra, DistField(d).1, rest);
  }

  // Such a match runs over just when fewer than three bytes are left; otherwise it stands for three.
  lemma EmptyMatchRunsOver(c: Codes, out: seq<byte>, sym: nat, d: nat, extra: nat, rest: seq<bool>, room: nat)
    requires HasWords(c, [], sym, d) && extra < Pow2(DistField(d).1) && 1 <= DistField(d).0 + extra <= |out| <= room
    ensures RunsOver(c, MatchBits(c, sym, d, extra) + rest, out, room) <==>
      |out| + 3 > room || RunsOver(c, rest, CopyBack(out, 3, DistField(d).0 + extra), room)
  {
    hide MatchBits, DistField, CodesOk, ReadSymbol, ReadFields, CopyBack;
    ReadsEmptyMatch(c, sym, d, extra, rest);
  }

  lemma {:induction false} LiteralsRunOver(c: Codes, out: seq<byte>, literals: seq<byte>, rest: seq<bool>, room: nat)
    requires CodesOk(c) && |out| + |literals| <= room
    requires forall i :: 0 <= i < |literals| ==> c.litLen[literals[i]] != []
    ensures RunsOver(c, LiteralBits(c, literals) + rest, out, room) <==> RunsOver(c, rest, out + literals, room)
    decreases |literals|
  {
    if literals == [] {
      assert out + literals == out && LiteralBits(c, literals) + rest == rest;
    } else {
      hide PrefixCode, ReadSymbol, ReadFields;
      var b, ls := literals[0], literals[1..];
      assert LiteralBits(c, literals) + rest == c.litLen[b] + (LiteralBits(c, ls) + rest);
      assert out + [b] + ls == out + literals;
      ReadsSymbol(c.litLen, b, LiteralBits(c, ls) + rest);
      LiteralsRunOver(c, out + [b], ls, rest, room);
    }
  }

  lemma EndRunsNoFurther(c: Codes, out: seq<byte>, rest: seq<bool>, room: nat)
    requires CodesOk(c)
    ensures !RunsOver(c, c.litLen[END_OF_BLOCK] + rest, out, room)
  {
    hide PrefixCode, ReadSymbol, ReadFields;
    ReadsSymbol(c.litLen, END_OF_BLOCK, rest);
  }

  // A block of literals and one such match runs over the end of its output exactly when the output is
  // at most two bytes longer than the literals.
  lemma BlockRunsOverIff(c: Codes, literals: seq<byte>, sym: nat, d: nat, extra: nat, rest: seq<bool>, room: nat)
    requires HasWords(c, literals, sym, d) && extra < Pow2(DistField(d).1)
    requires 1 <= DistField(d).0 + extra <= |literals| <= room
    ensures RunsOver(c, LiteralBits(c, literals) + (MatchBits(c, sym, d, extra) + (c.litLen[END_OF_BLOCK] + rest)), [], room)
      <==> room < |literals| + 3
  {
    hide LiteralBits, MatchBits, DistField, PrefixCode, RunsOver, CopyBack;
    var end := c.litLen[END_OF_BLOCK] + rest;
    LiteralsRunOver(c, [], literals, MatchBits(c, sym, d, extra) + end, room);
    assert [] + literals == literals;
    EmptyMatchRunsOver(c, literals, sym, d, extra, end, room);
    EndRunsNoFurther(c, CopyBack(literals, 3, DistField(d).0 + extra), rest, room);
  }

  // ---------- an input ----------

  // One final block with the fixed codes: a literal, symbol 286, distance symbol 0.
  const RUNS_OVER: seq<byte> := [0x4B, 0x1C, 0x03]

  // The codes before those of a size, among the fixed ones.
  lemma StaticFirst()
    ensures var c := Counts(StaticLit(), MAX_BITS); First(c, 8) == 48
    ensures var d := Counts(StaticDist(), MAX_BITS); First(d, 5) == 0
  {
    var c, d := Counts(StaticLit(), MAX_BITS), Counts(StaticDist(), MAX_BITS);
    forall l ensures Occurrences(StaticLit(), l) == (if l == 7 then 24 else if l == 8 then 152 else if l == 9 then 112 else 0)
                  && Occurrences(StaticDist(), l) == if l == 5 then 32 else 0 {
      StaticOccurrences(l);
    }
    hide Occurrences, StaticLit, StaticDist;
    KraftZero(c, 6);
    KraftZero(d, 4);
    assert Kraft(c, 7) == 24;
  }

  lemma StaticWord(i: nat, code: nat)
    requires i < 288 && StaticLit()[i] == 8 && 48 + Occurrences(StaticLit()[..i], 8) == code
    ensures Words(StaticLit())[i] == MsbBits(code, 8)
  {
    hide Occurrences, StaticLit, Kraft, MsbBits;
    StaticFirst();
  }

  lemma Word97()
    ensures StaticCodes().litLen[97] == MsbBits(145, 8)
  {
    hide Occurrences, Words, MsbBits;
    assert StaticLit()[..97] == Copies(8, 97);
    CopiesOf(8, 97, 8);
    StaticWord(97, 145);
  }

  lemma Word286()
    ensures StaticCodes().litLen[286] == MsbBits(198, 8)
  {
    hide Occurrences, Words, MsbBits;
    var a, b, c, d := Copies(8, 144), Copies(9, 112), Copies(7, 24), Copies(8, 6);
    assert StaticLit()[..286] == a + b + c + d;
    CopiesOf(8, 144, 8);
    CopiesOf(9, 112, 8);
    CopiesOf(7, 24, 8);
    CopiesOf(8, 6, 8);
    ConcatOccurrences(a, b, 8);
    ConcatOccurrences(a + b, c, 8);
    ConcatOccurrences(a + b + c, d, 8);
    StaticWord(286, 198);
  }

  lemma DistWord0()
    ensures StaticCodes().dist[0] == MsbBits(0, 5)
  {
    hide Kraft, StaticDist, MsbBits;
    StaticFirst();
    assert StaticDist()[..0] == [];
    assert StaticDist()[0] == 5 by { DistSize(); }
  }

  lemma DistSize()
    ensures StaticDist()[0] == 5
  {}

  // A word is its bits the other way round.
  lemma {:induction false} WordFront(code: nat, n: nat)
    ensures MsbBits(code, n + 1) == [code / Pow2(n) % 2 == 1] + MsbBits(code, n)
  {
    if n > 0 {
      WordFront(code / 2, n - 1);
      DivTwice(code, Pow2(n - 1));
    } else {
      assert MsbBits(code, 1) == MsbBits(code / 2, 0) + [code % 2 == 1];
    }
  }

  lemma NextBit(code: nat, n: nat, v: nat, bit: nat)
    requires MsbBits(code, n) == LsbBits(v, n) && bit == code / Pow2(n) % 2
    ensures MsbBits(code, n + 1) == LsbBits(bit + 2 * v, n + 1)
  {
    WordFront(code, n);
  }

  // The words of the block as the numbers whose bits they are.
  lemma Word145()
    ensures MsbBits(145, 8) == LsbBits(137, 8)
  {
    hide MsbBits, LsbBits;
    SmallPowers();
    NoBits(145);
    NextBit(145, 0, 0, 1);
    NextBit(145, 1, 1, 0);
    NextBit(145, 2, 2, 0);
    NextBit(145, 3, 4, 0);
    NextBit(145, 4, 8, 1);
    NextBit(145, 5, 17, 0);
    NextBit(145, 6, 34, 0);
    NextBit(145, 7, 68, 1);
  }

  lemma Word198()
    ensures MsbBits(198, 8) == LsbBits(99, 8)
  {
    hide MsbBits, LsbBits;
    SmallPowers();
    NoBits(198);
    NextBit(198, 0, 0, 0);
    NextBit(198, 1, 0, 1);
    NextBit(198, 2, 1, 1);
    NextBit(198, 3, 3, 0);
    NextBit(198, 4, 6, 0);
    NextBit(198, 5, 12, 0);
    NextBit(198, 6, 24, 1);
    NextBit(198, 7, 49, 1);
  }

  lemma {:induction false} ZeroWord(n: nat)
    ensures MsbBits(0, n) == LsbBits(0, n)
  {
    if n > 0 {
      ZeroWord(n - 1);
      NextBit(0, n - 1, 0, 0);
    }
  }

  lemma NoBits(code: nat)
    ensures MsbBits(code, 0) == LsbBits(0, 0)
  {}

  lemma ThreeBytes(a: byte, b: byte, c: byte)
    ensures BytesBits([a, b, c]) == LsbBits(a + 256 * (b + 256 * c), 24)
  {
    hide LsbBits;
    SmallPowers();
    BytesBitsSnoc([], a);
    BytesBitsSnoc([a], b);
    BytesBitsSnoc([a, b], c);
    assert [] + [a] == [a] && [a] + [b] == [a, b] && [a, b] + [c] == [a, b, c];
    LsbConcat(b, 8, c, 8);
    LsbConcat(a, 8, b + 256 * c, 16);
  }

  // The bits of the three bytes, as the codes have them.
  lemma InputBits()
    ensures BytesBits(RUNS_OVER) == LsbBits(3, 3) + (MsbBits(145, 8) + (MsbBits(198, 8) + MsbBits(0, 5)))
  {
    hide BytesBits, LsbBits, MsbBits;
    SmallPowers();
    ThreeBytes(0x4B, 0x1C, 0x03);
    Word145();
    Word198();
    ZeroWord(5);
    LsbConcat(99, 8, 0, 5);
    LsbConcat(137, 8, 99, 13);
    LsbConcat(3, 3, 137 + 256 * 99, 21);
  }

  lemma FirstBlockRunsOver(body: seq<bool>, room: nat)
    requires |StaticCodes().litLen| == 288 && |StaticCodes().dist| == 32 && RunsOver(StaticCodes(), body, [], room)
    ensures StreamRunsOver(LsbBits(3, 3) + body, 0, [], room)
  {
    hide StaticCodes, RunsOver, ReadBody, ReadBits, LsbBits;
    Pow2Table();
    ReadsBits(3, 3, body);
  }

  lemma WordsThere()
    ensures HasWords(StaticCodes(), [97], 286, 0)
  {
    hide CodesOk, StaticCodes;
    StaticAccepted();
    CodesOkSizes();
    Word97();
    Word286();
    DistWord0();
  }

  lemma CodesOkSizes()
    ensures |StaticCodes().litLen| == 288 && |StaticCodes().dist| == 32
  {}

  // Into an output of one byte these three bytes run over.
  lemma InputRunsOver()
    ensures StreamRunsOver(BytesBits(RUNS_OVER), 0, [], 1)
  {
    hide StreamRunsOver, CodesOk, StaticCodes, BytesBits, MsbBits, RunsOver, CopyBack, Words;
    var c := StaticCodes();
    WordsThere();
    CodesOkSizes();
    InputBits();
    Word97();
    Word286();
    DistWord0();
    assert Pow2(0) == 1 && DistField(0) == (1, 0);
    var body := LiteralBits(c, [97]) + (MatchBits(c, 286, 0, 0) + []);
    assert body == MsbBits(145, 8) + (MsbBits(198, 8) + MsbBits(0, 5));
    EmptyMatchRunsOver(c, [97], 286, 0, 0, [], 1);
    assert [] + [97] == [97];
    LiteralsRunOver(c, [], [97], MatchBits(c, 286, 0, 0) + [], 1);
    FirstBlockRunsOver(body, 1);
  }
}
