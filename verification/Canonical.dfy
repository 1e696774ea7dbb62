/** Canonical Huffman codes (section 3.2.2 of RFC 1951): codes are determined by the code sizes
    alone. Both the compressor and the decompressor compute them; here is what they are. */
module Canonical {
  import opened Sums
  import opened Bits
  import opened Arith

  // How often size l occurs.
  function Occurrences(sizes: seq<nat>, l: nat): (n: nat)
    ensures n <= |sizes|
  {
    if sizes == [] then 0
    else Occurrences(sizes[..|sizes| - 1], l) + if sizes[|sizes| - 1] == l then 1 else 0
  }

  // The number of codes of each size 0..m.
  function Counts(sizes: seq<nat>, m: nat): (c: seq<nat>)
    ensures |c| == m + 1
  {
    seq(m + 1, l requires 0 <= l <= m => Occurrences(sizes, l))
  }

  // The Kraft sum of counts 1..m, in units of 2^-m.
  function Kraft(c: seq<nat>, m: nat): nat
    requires m < |c|
  {
    if m == 0 then 0 else 2 * Kraft(c, m - 1) + c[m]
  }

  // The number of codes of size 1..m.
  function Total(c: seq<nat>, m: nat): nat
    requires m < |c|
  {
    if m == 0 then 0 else Total(c, m - 1) + c[m]
  }

  // The first code of size l: twice what the shorter sizes have used up.
  function First(c: seq<nat>, l: nat): nat
    requires 1 <= l <= |c|
  {
    2 * Kraft(c, l - 1)
  }

  // The code of symbol i among sizes of at most m.
  function Code(sizes: seq<nat>, m: nat, i: nat): nat
    requires i < |sizes| && 1 <= sizes[i] <= m
  {
    First(Counts(sizes, m), sizes[i]) + Occurrences(sizes[..i], sizes[i])
  }

  // The code word of symbol i as it appears in the stream.
  function CodeWord(sizes: seq<nat>, m: nat, i: nat): (w: seq<bool>)
    requires i < |sizes| && 1 <= sizes[i] <= m
    ensures |w| == sizes[i]
  {
    MsbBits(Code(sizes, m, i), sizes[i])
  }

  // Sizes that leave room for all their codes.
  ghost predicate Fits(sizes: seq<nat>, m: nat) {
    && (forall i :: 0 <= i < |sizes| ==> sizes[i] <= m)
    && Kraft(Counts(sizes, m), m) <= Pow2(m)
  }

  // Sizes whose codes use up all the room.
  ghost predicate Complete(sizes: seq<nat>, m: nat) {
    && (forall i :: 0 <= i < |sizes| ==> sizes[i] <= m)
    && Kraft(Counts(sizes, m), m) == Pow2(m)
  }

  lemma {:induction false} OccurrencesSplit(sizes: seq<nat>, i: nat, l: nat)
    requires i <= |sizes|
    ensures Occurrences(sizes, l) == Occurrences(sizes[..i], l) + Occurrences(sizes[i..], l)
  {
    if i == |sizes| {
      assert sizes[..i] == sizes;
    } else {
      var n := |sizes| - 1;
      OccurrencesSplit(sizes[..n], i, l);
      assert sizes[..n][..i] == sizes[..i];
      assert sizes[..n][i..] == sizes[i..][..n - i];
    }
  }

  lemma {:induction false} OccurrencesUpdate(sizes: seq<nat>, i: nat, v: nat, l: nat)
    requires i < |sizes|
    ensures Occurrences(sizes[i := v], l)
         == Occurrences(sizes, l) - (if sizes[i] == l then 1 else 0) + if v == l then 1 else 0
  {
    var n := |sizes| - 1;
    if i < n {
      OccurrencesUpdate(sizes[..n], i, v, l);
      assert sizes[i := v][..n] == sizes[..n][i := v];
    } else {
      assert sizes[i := v][..n] == sizes[..n];
    }
  }

  // The symbols of one size are numbered consecutively.
  lemma RankBelowCount(sizes: seq<nat>, i: nat)
    requires i < |sizes|
    ensures Occurrences(sizes[..i], sizes[i]) < Occurrences(sizes, sizes[i])
  {
    OccurrencesSplit(sizes, i + 1, sizes[i]);
    assert sizes[..i + 1][..i] == sizes[..i];
  }

  lemma RanksDiffer(sizes: seq<nat>, i: nat, j: nat)
    requires i < j < |sizes| && sizes[i] == sizes[j]
    ensures Occurrences(sizes[..i], sizes[i]) < Occurrences(sizes[..j], sizes[i])
  {
    RankBelowCount(sizes[..j], i);
    assert sizes[..j][..i] == sizes[..i];
  }

  // Room used at size l, carried to a larger size.
  lemma {:induction false} KraftGrows(c: seq<nat>, l: nat, m: nat)
    requires l <= m < |c|
    ensures Pow2(m - l) * Kraft(c, l) <= Kraft(c, m)
  {
    if l < m {
      KraftGrows(c, l, m - 1);
      Double(Pow2(m - 1 - l), Kraft(c, l));
    }
  }

  lemma KraftWithin(c: seq<nat>, l: nat, m: nat)
    requires l <= m < |c| && Kraft(c, m) <= Pow2(m)
    ensures Kraft(c, l) <= Pow2(l)
  {
    KraftGrows(c, l, m);
    Pow2Add(l, m - l);
    Commute(Pow2(l), Pow2(m - l));
    if Kraft(c, l) > Pow2(l) {
      MulMono(Pow2(m - l), Pow2(l) + 1, Kraft(c, l));
    }
  }

  lemma Commute(a: nat, b: nat)
    ensures b * (a + 1) == a * b + b
  {}

  // Every code lies in its size's range, below the room used up to that size.
  lemma CodeRange(sizes: seq<nat>, m: nat, i: nat)
    requires Fits(sizes, m) && i < |sizes| && sizes[i] > 0
    ensures First(Counts(sizes, m), sizes[i]) <= Code(sizes, m, i) < Kraft(Counts(sizes, m), sizes[i])
    ensures Kraft(Counts(sizes, m), sizes[i]) <= Pow2(sizes[i])
  {
    RankBelowCount(sizes, i);
    KraftWithin(Counts(sizes, m), sizes[i], m);
  }

  // A longer code, cut to a shorter size, lies beyond all codes of that size.
  lemma LongerCodeBeyond(sizes: seq<nat>, m: nat, i: nat, l: nat)
    requires Fits(sizes, m) && i < |sizes| && 0 < l < sizes[i]
    ensures Kraft(Counts(sizes, m), l) <= Code(sizes, m, i) / Pow2(sizes[i] - l)
  {
    var c := Counts(sizes, m);
    var n := sizes[i];
    KraftGrows(c, l, n - 1);
    Double(Pow2(n - 1 - l), Kraft(c, l));
    DivAtLeast(Kraft(c, l), Code(sizes, m, i), Pow2(n - l));
  }

  // No code word is a prefix of another.
  lemma PrefixFree(sizes: seq<nat>, m: nat, i: nat, j: nat)
    requires Fits(sizes, m) && i < |sizes| && j < |sizes| && i != j
    requires 0 < sizes[i] <= sizes[j]
    ensures CodeWord(sizes, m, i) != CodeWord(sizes, m, j)[..sizes[i]]
  {
    CodeRange(sizes, m, i);
    CodeRange(sizes, m, j);
    var l, n := sizes[i], sizes[j];
    MsbPrefix(Code(sizes, m, j), n, l);
    var cut := Code(sizes, m, j) / Pow2(n - l);
    if l == n {
      assert cut == Code(sizes, m, j);
      if i < j {
        RanksDiffer(sizes, i, j);
      } else {
        RanksDiffer(sizes, j, i);
      }
    } else {
      LongerCodeBeyond(sizes, m, j, l);
      CutInRange(Code(sizes, m, j), n, l);
    }
    if CodeWord(sizes, m, i) == CodeWord(sizes, m, j)[..l] {
      MsbInjective(Code(sizes, m, i), cut, l);
    }
  }

  lemma CutInRange(v: nat, n: nat, l: nat)
    requires v < Pow2(n) && l <= n
    ensures v / Pow2(n - l) < Pow2(l)
  {
    Pow2Add(n - l, l);
    DivBelow(Pow2(l), v, Pow2(n - l));
  }

  // ---------- counting sizes ----------

  lemma {:induction false} KraftUpdate(c: seq<nat>, i: nat, v: nat, m: nat)
    requires 1 <= i < |c| && m < |c|
    ensures Kraft(c[i := v], m) == Kraft(c, m) + if i <= m then Pow2(m - i) * (v - c[i]) else 0
  {
    if m > 0 {
      KraftUpdate(c, i, v, m - 1);
      if i < m {
        Double(Pow2(m - 1 - i), v - c[i]);
      }
    }
  }

  lemma {:induction false} TotalUpdate(c: seq<nat>, i: nat, v: nat, m: nat)
    requires 1 <= i < |c| && m < |c|
    ensures Total(c[i := v], m) == Total(c, m) + if i <= m then v - c[i] else 0
  {
    if m > 0 {
      TotalUpdate(c, i, v, m - 1);
    }
  }
}
