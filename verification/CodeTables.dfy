/** The tables of a dynamic block, made from symbol counts: what the compressor codes with is what
    the decompressor rebuilds from the code sizes. */
module CodeTables {
  import opened Sums
  import opened Bits
  import opened Canonical
  import opened HuffmanTable
  import opened DecodeTable
  import opened InflateTable
  import opened LzCodes

  // A limit one bit wider changes no code word.
  lemma WiderByOne(sizes: seq<nat>, m: nat)
    requires Fits(sizes, m)
    ensures Fits(sizes, m + 1) && (Complete(sizes, m) ==> Complete(sizes, m + 1))
    ensures forall i :: 0 <= i < |sizes| && sizes[i] > 0 ==> CodeWord(sizes, m, i) == CodeWord(sizes, m + 1, i)
  {
    hide MsbBits, Occurrences;
    var c, d := Counts(sizes, m), Counts(sizes, m + 1);
    NoneOf(sizes, m + 1);
    FirstDepends(d, c, m);
    forall i | 0 <= i < |sizes| && sizes[i] > 0 ensures CodeWord(sizes, m, i) == CodeWord(sizes, m + 1, i) {
      FirstDepends(d, c, sizes[i] - 1);
    }
  }

  lemma {:induction false} Wider(sizes: seq<nat>, m: nat, n: nat)
    requires Fits(sizes, m) && m <= n
    ensures Fits(sizes, n) && (Complete(sizes, m) ==> Complete(sizes, n))
    ensures forall i :: 0 <= i < |sizes| && sizes[i] > 0 ==> CodeWord(sizes, m, i) == CodeWord(sizes, n, i)
    decreases n - m
  {
    hide Fits, Complete, CodeWord;
    if m < n {
      WiderByOne(sizes, m);
      Wider(sizes, m + 1, n);
    }
  }

  // Only symbols that occur get codes.
  lemma {:induction false} TotalUsed(counts: seq<nat>, sizes: seq<nat>, m: nat)
    requires |counts| == |sizes|
    requires forall i :: 0 <= i < |sizes| && sizes[i] > 0 ==> counts[i] > 0
    ensures Total(Counts(sizes, m), m) <= |UsedSyms(counts)|
    decreases |sizes|
  {
    if sizes == [] {
      TotalZero(Counts(sizes, m), m);
    } else {
      var k := |sizes| - 1;
      TotalUsed(counts[..k], sizes[..k], m);
      TotalStep(Counts(sizes[..k], m), Counts(sizes, m), sizes[k], m);
    }
  }

  lemma SizesAccepted(counts: seq<nat>, sizes: seq<nat>, limit: nat)
    requires limit <= MAX_BITS && SizesFor(counts, sizes, limit)
    ensures Accepts(sizes) && Fits(sizes, MAX_BITS)
  {
    hide Fits, Complete, UsedSyms, Counts, Total;
    Wider(sizes, limit, MAX_BITS);
    TotalUsed(counts, sizes, MAX_BITS);
  }

  lemma WordsSpelled(codes: seq<nat>, sizes: seq<nat>, tableLen: nat, limit: nat)
    requires |codes| == |sizes| >= tableLen && limit <= MAX_BITS
    requires Fits(sizes[..tableLen], limit) && CodesFor(sizes[..tableLen], codes, limit)
    ensures Spelled(Coding(codes, sizes), Words(sizes[..tableLen]))
  {
    hide CodeWord, LsbBits, Pow2;
    var s := sizes[..tableLen];
    Wider(s, limit, MAX_BITS);
    var words, k := Words(s), Coding(codes, sizes);
    forall i | 0 <= i < |words| && words[i] != [] ensures SpelledAt(k, words, i) {
      assert CodeStored(s, codes, limit, i);
      assert s[i] == sizes[i] && s[i] <= limit;
    }
  }

  // A table for some counts: the coding to write with, from which the decoder's words follow.
  method BuildCoding(huffCount: array<nat>, tableLen: nat, limit: nat) returns (k: Coding)
    requires huffCount.Length == MAX_HUFF_SYMBOLS && tableLen <= MAX_HUFF_SYMBOLS
    requires 1 <= limit <= MAX_BITS && tableLen <= Pow2(limit) && Sum(huffCount[..tableLen]) < 0x1_0000
    ensures |k.sizes| == |k.codes| == MAX_HUFF_SYMBOLS
    ensures SizesFor(huffCount[..tableLen], k.sizes[..tableLen], limit)
    ensures forall i :: tableLen <= i < |k.sizes| ==> k.sizes[i] == 0
    ensures limit == 15 ==> NearOptimal(huffCount[..tableLen], k.sizes[..tableLen])
    ensures Accepts(k.sizes[..tableLen]) && Fits(k.sizes[..tableLen], MAX_BITS)
    ensures Spelled(k, Words(k.sizes[..tableLen]))
  {
    hide Accepts, Fits, CodesFor, Spelled, Words, Sum, Pow2, NearOptimal, OptimalWithin;
    var codeSizes := new nat[MAX_HUFF_SYMBOLS](_ => 0);
    var codes := new nat[MAX_HUFF_SYMBOLS](_ => 0);
    ghost var counts := huffCount[..tableLen];
    ghost var depths := OptimizeHuffmanTable(huffCount, codeSizes, codes, tableLen, limit, false);
    assert huffCount[..tableLen] == counts;
    k := Coding(codes[..], codeSizes[..]);
    assert k.sizes[..tableLen] == codeSizes[..tableLen];
    SizesAccepted(counts, k.sizes[..tableLen], limit);
    WordsSpelled(k.codes, k.sizes, tableLen, limit);
  }
}
