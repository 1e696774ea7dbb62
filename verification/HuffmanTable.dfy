/** From symbol frequencies to code sizes and codes: the compressor's table builder, which sorts,
    finds minimum-redundancy lengths, limits them, hands them out and assigns canonical codes. */
module HuffmanTable {
  import opened Arith
  import opened Sums
  import opened Bits
  import opened PrefixCost
  import opened MinimumRedundancy
  import opened RadixSort
  import opened Canonical
  import opened CodeLimit
  import opened DeepWeights
  import opened LimitCost
  import opened SymbolCost

  const MAX_HUFF_SYMBOLS := 288

  // The symbols that occur, with their frequencies, in symbol order.
  function UsedSyms(counts: seq<nat>): (r: seq<SymFreq>)
    ensures |r| <= |counts|
  {
    if counts == [] then []
    else
      var k := |counts| - 1;
      UsedSyms(counts[..k]) + if counts[k] != 0 then [SymFreq(counts[k], k)] else []
  }

  // What a table built from frequencies promises.
  ghost predicate SizesFor(counts: seq<nat>, sizes: seq<nat>, limit: nat) {
    && |sizes| == |counts|
    && (forall i :: 0 <= i < |sizes| ==> (sizes[i] > 0 <==> counts[i] > 0))
    && (forall i, j :: 0 <= i < |sizes| && 0 <= j < |sizes| && 0 < counts[i] < counts[j] ==> sizes[j] <= sizes[i])
    && (|UsedSyms(counts)| >= 2 ==> Canonical.Complete(sizes, limit))
    && (|UsedSyms(counts)| == 1 ==> forall i :: 0 <= i < |sizes| ==> sizes[i] <= 1)
    && Fits(sizes, limit)
  }

  // The stored codes are the canonical code words, bits reversed.
  ghost predicate CodesFor(sizes: seq<nat>, codes: seq<nat>, limit: nat)
    requires |sizes| <= |codes|
  {
    forall i :: 0 <= i < |sizes| ==> CodeStored(sizes, codes, limit, i)
  }

  ghost predicate CodeStored(sizes: seq<nat>, codes: seq<nat>, limit: nat, i: nat)
    requires i < |sizes| <= |codes|
  {
    0 < sizes[i] <= limit ==>
      (codes[i] < Pow2(sizes[i]) && LsbBits(codes[i], sizes[i]) == CodeWord(sizes, limit, i))
  }

  // ---------- the used symbols ----------

  lemma {:induction false} UsedSymsFacts(counts: seq<nat>)
    ensures forall p :: 0 <= p < |UsedSyms(counts)| ==> InTable(UsedSyms(counts)[p], counts)
    ensures forall p, q :: 0 <= p < q < |UsedSyms(counts)| ==> UsedSyms(counts)[p].sym < UsedSyms(counts)[q].sym
    ensures Sum(Keys(UsedSyms(counts))) == Sum(counts)
  {
    if counts != [] {
      var k := |counts| - 1;
      UsedSymsFacts(counts[..k]);
      var r := UsedSyms(counts[..k]);
      if counts[k] != 0 {
        assert Keys(r + [SymFreq(counts[k], k)]) == Keys(r) + [counts[k]];
        SumAppend(Keys(r), counts[k]);
      } else {
        assert r + [] == r;
      }
    }
  }

  ghost predicate InTable(x: SymFreq, counts: seq<nat>) {
    x.sym < |counts| && counts[x.sym] == x.key > 0
  }

  lemma {:induction false} EverySymUsed(counts: seq<nat>, i: nat)
    requires i < |counts| && counts[i] > 0
    ensures SymFreq(counts[i], i) in UsedSyms(counts)
  {
    var k := |counts| - 1;
    if i < k {
      EverySymUsed(counts[..k], i);
    }
  }

  method CollectUsed(counts: array<nat>, tableLen: nat) returns (syms: array<SymFreq>, n: nat)
    requires tableLen <= MAX_HUFF_SYMBOLS && tableLen <= counts.Length
    ensures fresh(syms) && syms.Length == MAX_HUFF_SYMBOLS
    ensures n == |UsedSyms(counts[..tableLen])| && syms[..n] == UsedSyms(counts[..tableLen])
  {
    syms := new SymFreq[MAX_HUFF_SYMBOLS](_ => SymFreq(0, 0));
    n := 0;
    for i := 0 to tableLen
      invariant n <= i
      invariant n == |UsedSyms(counts[..i])| && syms[..n] == UsedSyms(counts[..i])
    {
      assert counts[..i + 1][..i] == counts[..i];
      if counts[i] != 0 {
        ghost var before := syms[..n];
        syms[n] := SymFreq(counts[i], i);
        n := n + 1;
        assert syms[..n] == before + [SymFreq(counts[i], i)];
      }
    }
  }

  // ---------- counting lengths ----------

  // The two forms of the Kraft sum agree.
  lemma {:induction false} KraftOfCounts(e: seq<nat>, m: nat)
    requires forall i :: 0 <= i < |e| ==> 1 <= e[i] <= m
    ensures Kraft(Counts(e, m), m) == KraftSum(e, m)
    ensures Total(Counts(e, m), m) == |e|
  {
    if e == [] {
      AllZeroCounts(Counts(e, m), m);
    } else {
      var k := |e| - 1;
      KraftOfCounts(e[..k], m);
      CountsSnoc(e, m);
      assert KraftTerms(e, m)[..k] == KraftTerms(e[..k], m);
    }
  }

  lemma CountsSnoc(e: seq<nat>, m: nat)
    requires e != [] && 1 <= e[|e| - 1] <= m
    ensures var k := |e| - 1;
      && Kraft(Counts(e, m), m) == Kraft(Counts(e[..k], m), m) + Pow2(m - e[k])
      && Total(Counts(e, m), m) == Total(Counts(e[..k], m), m) + 1
  {
    var k := |e| - 1;
    OneMore(Counts(e[..k], m), e[k], m);
    assert Counts(e, m) == Counts(e[..k], m)[e[k] := Counts(e[..k], m)[e[k]] + 1];
  }

  lemma OneMore(c: seq<nat>, v: nat, m: nat)
    requires 1 <= v <= m < |c|
    ensures Kraft(c[v := c[v] + 1], m) == Kraft(c, m) + Pow2(m - v)
    ensures Total(c[v := c[v] + 1], m) == Total(c, m) + 1
  {
    KraftUpdate(c, v, c[v] + 1, m);
    TotalUpdate(c, v, c[v] + 1, m);
  }

  lemma {:induction false} AllZeroCounts(c: seq<nat>, m: nat)
    requires m < |c| && forall i :: 0 <= i < |c| ==> c[i] == 0
    ensures Kraft(c, m) == 0 && Total(c, m) == 0
  {
    if m > 0 {
      AllZeroCounts(c, m - 1);
    }
  }

  // Counts the lengths left in the keys.
  method CountLengths(syms: array<SymFreq>, n: nat) returns (numCodes: array<nat>)
    requires n <= syms.Length
    requires forall i :: 0 <= i < n ==> syms[i].key <= MAX_SUPPORTED_HUFF_CODESIZE
    ensures fresh(numCodes) && numCodes[..] == Counts(Keys(syms[..n]), MAX_SUPPORTED_HUFF_CODESIZE)
  {
    numCodes := new nat[MAX_SUPPORTED_HUFF_CODESIZE + 1](_ => 0);
    for i := 0 to n
      invariant numCodes[..] == Counts(Keys(syms[..i]), MAX_SUPPORTED_HUFF_CODESIZE)
    {
      assert Keys(syms[..i + 1])[..i] == Keys(syms[..i]);
      numCodes[syms[i].key] := numCodes[syms[i].key] + 1;
    }
  }

  // ---------- handing out lengths ----------

  // The lengths given to the symbols from position j on, longest to the rarest.
  ghost predicate HandedOut(sizes: seq<nat>, syms: seq<SymFreq>, j: nat, given: seq<nat>) {
    && j <= |syms| && |given| == |syms| - j
    && (forall p :: j <= p < |syms| ==> syms[p].sym < |sizes| && sizes[syms[p].sym] == given[p - j])
    && Covered(sizes, syms, j)
    && (forall p, q :: 0 <= p <= q < |given| ==> given[p] >= given[q] >= 1)
    && forall l :: 1 <= l ==> Occurrences(sizes, l) == Occurrences(given, l)
  }

  ghost predicate DistinctSyms(syms: seq<SymFreq>) {
    forall p, q :: 0 <= p < q < |syms| ==> syms[p].sym != syms[q].sym
  }

  // Giving length v to the symbol at position j - 1.
  lemma HandOutOne(sizes: seq<nat>, syms: seq<SymFreq>, j: nat, given: seq<nat>, v: nat)
    requires 0 < j && HandedOut(sizes, syms, j, given) && DistinctSyms(syms)
    requires syms[j - 1].sym < |sizes| && v >= 1
    requires forall p :: 0 <= p < |given| ==> given[p] <= v
    ensures HandedOut(sizes[syms[j - 1].sym := v], syms, j - 1, [v] + given)
  {
    hide Occurrences;
    var s := syms[j - 1].sym;
    assert sizes[s] == 0;
    forall l | 1 <= l ensures Occurrences(sizes[s := v], l) == Occurrences([v] + given, l) {
      OccurrencesUpdate(sizes, s, v, l);
      Prepended(v, given, l);
    }
    HandOutCovers(sizes, syms, j, v);
  }

  // Only symbols that were handed a length have one.
  ghost predicate Covered(sizes: seq<nat>, syms: seq<SymFreq>, j: nat) {
    forall s :: 0 <= s < |sizes| && sizes[s] != 0 ==> exists p :: j <= p < |syms| && syms[p].sym == s
  }

  lemma HandOutCovers(sizes: seq<nat>, syms: seq<SymFreq>, j: nat, v: nat)
    requires 0 < j <= |syms| && Covered(sizes, syms, j) && syms[j - 1].sym < |sizes|
    ensures Covered(sizes[syms[j - 1].sym := v], syms, j - 1)
  {
    var s := syms[j - 1].sym;
    var sizes' := sizes[s := v];
    forall t | 0 <= t < |sizes'| && sizes'[t] != 0
      ensures exists p :: j - 1 <= p < |syms| && syms[p].sym == t
    {
      if t == s {
        assert syms[j - 1].sym == t;
      } else {
        assert sizes[t] != 0;
        var p :| j <= p < |syms| && syms[p].sym == t;
      }
    }
  }

  method AssignSizes(codeSizes: array<nat>, syms: array<SymFreq>, n: nat, numCodes: array<nat>, limit: nat)
    returns (ghost given: seq<nat>)
    requires codeSizes != numCodes && n <= syms.Length && 1 <= limit < numCodes.Length
    requires DistinctSyms(syms[..n])
    requires forall p :: 0 <= p < n ==> syms[p].sym < codeSizes.Length
    requires Total(numCodes[..], limit) == n
    requires forall s :: 0 <= s < codeSizes.Length ==> codeSizes[s] == 0
    modifies codeSizes
    ensures HandedOut(codeSizes[..], syms[..n], 0, given)
    ensures forall p :: 0 <= p < |given| ==> given[p] <= limit
    ensures forall l :: 1 <= l <= limit ==> Occurrences(given, l) == numCodes[l]
  {
    hide HandedOut, Kraft, DistinctSyms;
    ghost var c := numCodes[..];
    var j := n;
    given := [];
    NothingHandedOut(codeSizes[..], syms[..n]);
    var i := 1;
    while i <= limit
      invariant 1 <= i <= limit + 1
      invariant j == n - Total(c, i - 1) && 0 <= j
      invariant HandedOut(codeSizes[..], syms[..n], j, given)
      invariant forall p :: 0 <= p < |given| ==> given[p] < i
      invariant forall l :: 1 <= l < i ==> Occurrences(given, l) == c[l]
      invariant numCodes[..] == c
    {
      TotalGrows(c, i, limit);
      ghost var lower := given;
      given := AssignOneSize(codeSizes, syms, n, j, i, numCodes[i], given);
      forall l | 1 <= l < i + 1 ensures Occurrences(given, l) == c[l] {
        NoneOf(lower, i);
      }
      j := j - numCodes[i];
      i := i + 1;
    }
  }

  // Gives length v to the next k symbols, rarest last.
  method AssignOneSize(codeSizes: array<nat>, syms: array<SymFreq>, n: nat, j: nat, v: nat, k: nat, ghost given: seq<nat>)
    returns (ghost given': seq<nat>)
    requires n <= syms.Length && k <= j <= n && v >= 1
    requires DistinctSyms(syms[..n])
    requires forall p :: 0 <= p < n ==> syms[p].sym < codeSizes.Length
    requires HandedOut(codeSizes[..], syms[..n], j, given)
    requires forall p :: 0 <= p < |given| ==> given[p] <= v
    modifies codeSizes
    ensures HandedOut(codeSizes[..], syms[..n], j - k, given')
    ensures forall p :: 0 <= p < |given'| ==> given'[p] <= v
    ensures forall l :: Occurrences(given', l) == Occurrences(given, l) + if l == v then k else 0
  {
    var j', l := j, k;
    given' := given;
    while l > 0
      invariant 0 <= l <= k && j' == j - (k - l)
      invariant HandedOut(codeSizes[..], syms[..n], j', given')
      invariant forall p :: 0 <= p < |given'| ==> given'[p] <= v
      invariant forall m :: Occurrences(given', m) == Occurrences(given, m) + if m == v then k - l else 0
    {
      forall m ensures Occurrences([v] + given', m) == Occurrences(given', m) + if m == v then 1 else 0 {
        Prepended(v, given', m);
      }
      AssignNext(codeSizes, syms, n, j', v, given');
      j' := j' - 1;
      given' := [v] + given';
      l := l - 1;
    }
  }

  // Gives length v to one more symbol.
  method AssignNext(codeSizes: array<nat>, syms: array<SymFreq>, n: nat, j: nat, v: nat, ghost given: seq<nat>)
    requires n <= syms.Length && 0 < j <= n && v >= 1
    requires DistinctSyms(syms[..n])
    requires forall p :: 0 <= p < n ==> syms[p].sym < codeSizes.Length
    requires HandedOut(codeSizes[..], syms[..n], j, given)
    requires forall p :: 0 <= p < |given| ==> given[p] <= v
    modifies codeSizes
    ensures HandedOut(codeSizes[..], syms[..n], j - 1, [v] + given)
  {
    HandOutOne(codeSizes[..], syms[..n], j, given, v);
    ghost var before := codeSizes[..];
    codeSizes[syms[j - 1].sym] := v;
    assert codeSizes[..] == before[syms[..n][j - 1].sym := v];
  }

  lemma Prepended(v: nat, s: seq<nat>, l: nat)
    ensures Occurrences([v] + s, l) == Occurrences(s, l) + if l == v then 1 else 0
  {
    OccurrencesSplit([v] + s, 1, l);
    assert ([v] + s)[..1] == [v] && ([v] + s)[1..] == s;
    assert [v][..0] == [];
  }

  lemma NothingHandedOut(sizes: seq<nat>, syms: seq<SymFreq>)
    requires forall s :: 0 <= s < |sizes| ==> sizes[s] == 0
    ensures HandedOut(sizes, syms, |syms|, [])
  {
    forall l | 1 <= l ensures Occurrences(sizes, l) == 0 {
      NoneOf(sizes, l);
    }
  }

  lemma {:induction false} NoneOf(s: seq<nat>, l: nat)
    requires forall i :: 0 <= i < |s| ==> s[i] != l
    ensures Occurrences(s, l) == 0
  {
    if s != [] {
      NoneOf(s[..|s| - 1], l);
    }
  }

  // ---------- assigning codes ----------

  // The next code of each size once the first i symbols have theirs.
  ghost predicate NextCodes(next: seq<nat>, sizes: seq<nat>, limit: nat, i: nat)
    requires i <= |sizes|
  {
    && |next| == limit + 1
    && forall l :: 1 <= l <= limit ==>
      next[l] == First(Counts(sizes, limit), l) + Occurrences(sizes[..i], l)
  }

  // First codes depend only on the counts of sizes 1 and up.
  lemma {:induction false} FirstDepends(c: seq<nat>, d: seq<nat>, l: nat)
    requires l < |c| && l < |d|
    requires forall i :: 1 <= i <= l ==> c[i] == d[i]
    ensures Kraft(c, l) == Kraft(d, l)
  {
    TotalsAgree(c, d, l);
  }

  method FirstCodes(numCodes: array<nat>, limit: nat, ghost sizes: seq<nat>) returns (nextCode: array<nat>)
    requires 1 <= limit < numCodes.Length
    requires forall l :: 1 <= l <= limit ==> numCodes[l] == Occurrences(sizes, l)
    ensures fresh(nextCode) && NextCodes(nextCode[..], sizes, limit, 0)
  {
    nextCode := new nat[limit + 1](_ => 0);
    ghost var c := Counts(sizes, limit);
    var j, i := 0, 2;
    while i <= limit
      invariant 2 <= i <= limit + 1
      invariant j == First(c, i - 1)
      invariant forall l :: 1 <= l < i ==> nextCode[l] == First(c, l)
    {
      j := (j + numCodes[i - 1]) * 2;
      nextCode[i] := j;
      i := i + 1;
    }
  }

  method AssignCodes(codeSizes: array<nat>, codes: array<nat>, tableLen: nat, limit: nat, nextCode: array<nat>)
    requires codeSizes != codes && nextCode != codes && nextCode != codeSizes
    requires tableLen <= codeSizes.Length && tableLen <= codes.Length && 1 <= limit <= 15
    requires Fits(codeSizes[..tableLen], limit)
    requires NextCodes(nextCode[..], codeSizes[..tableLen], limit, 0)
    modifies codes, nextCode
    ensures CodesFor(codeSizes[..tableLen], codes[..], limit)
  {
    ghost var sizes := codeSizes[..tableLen];
    for i := 0 to tableLen
      invariant codeSizes[..tableLen] == sizes
      invariant NextCodes(nextCode[..], sizes, limit, i)
      invariant forall k :: 0 <= k < i ==> CodeStored(sizes, codes[..], limit, k)
    {
      ghost var before := codes[..];
      assert forall k :: 0 <= k < i ==> CodeStored(sizes, before, limit, k);
      AssignCode(codeSizes, codes, tableLen, limit, nextCode, i);
      forall k | 0 <= k < i + 1 ensures CodeStored(sizes, codes[..], limit, k) {
        assert k < i ==> CodeStored(sizes, before, limit, k);
      }
    }
  }

  // Assigns the code of one symbol.
  method AssignCode(codeSizes: array<nat>, codes: array<nat>, tableLen: nat, limit: nat, nextCode: array<nat>, i: nat)
    requires codeSizes != codes && nextCode != codes && nextCode != codeSizes
    requires i < tableLen <= codeSizes.Length && tableLen <= codes.Length && 1 <= limit <= 15
    requires Fits(codeSizes[..tableLen], limit)
    requires NextCodes(nextCode[..], codeSizes[..tableLen], limit, i)
    modifies codes, nextCode
    ensures NextCodes(nextCode[..], codeSizes[..tableLen], limit, i + 1)
    ensures CodeStored(codeSizes[..tableLen], codes[..], limit, i)
    ensures forall k :: 0 <= k < codes.Length && k != i ==> codes[k] == old(codes[k])
  {
    ghost var sizes := codeSizes[..tableLen];
    assert sizes[..i + 1][..i] == sizes[..i];
    var size := codeSizes[i];
    if size == 0 {
      return;
    }
    CodeFits(sizes, limit, i);
    var code := nextCode[size];
    nextCode[size] := nextCode[size] + 1;
    codes[i] := StoreReversed(code, size);
  }

  lemma CodeFits(sizes: seq<nat>, limit: nat, i: nat)
    requires Fits(sizes, limit) && i < |sizes| && sizes[i] > 0
    ensures sizes[i] <= limit && Code(sizes, limit, i) < Pow2(sizes[i])
  {
    CodeRange(sizes, limit, i);
  }

  lemma SixteenBits(size: nat)
    requires size <= 15
    ensures Pow2(size) <= 0x1_0000
  {
    Pow2Mono(size, 16);
    Pow2Table();
  }

  // A reversed code, cut to the 16 bits it is stored in.
  method StoreReversed(code: nat, size: nat) returns (stored: nat)
    requires code < Pow2(size) && size <= 15
    ensures stored < Pow2(size) && LsbBits(stored, size) == MsbBits(code, size)
  {
    hide LsbBits, MsbBits;
    var rev := ReverseBits(code, size);
    SixteenBits(size);
    stored := U16(rev);
  }

  // ---------- the whole table ----------

  // Sizes handed out to sorted symbols serve the frequencies they came from.
  lemma SizesServe(counts: seq<nat>, sizes: seq<nat>, syms: seq<SymFreq>, given: seq<nat>, limit: nat)
    requires |sizes| == |counts| && SortedByKey(syms) && multiset(syms) == multiset(UsedSyms(counts))
    requires |syms| == |UsedSyms(counts)|
    requires HandedOut(sizes, syms, 0, given)
    requires forall p :: 0 <= p < |given| ==> given[p] <= limit
    requires |syms| >= 2 ==> Kraft(Counts(given, limit), limit) == Pow2(limit)
    requires |syms| <= 1 ==> forall p :: 0 <= p < |given| ==> given[p] == 1
    requires limit >= 1
    ensures SizesFor(counts, sizes, limit)
  {
    hide HandedOut, Occurrences, Kraft, Counts, UsedSyms, SortedByKey;
    UsedSymsFacts(counts);
    AllInTable(counts, syms);
    HandedOnce(sizes, syms, given);
    forall i | 0 <= i < |sizes| ensures sizes[i] > 0 <==> counts[i] > 0 {
      SizePositive(counts, sizes, syms, given, i);
    }
    forall i, j | 0 <= i < |sizes| && 0 <= j < |sizes| && 0 < counts[i] < counts[j] ensures sizes[j] <= sizes[i] {
      FrequentShorter(counts, sizes, syms, given, i, j);
    }
    forall i | 0 <= i < |sizes| ensures sizes[i] <= limit && (|syms| == 1 ==> sizes[i] <= 1) {
      SizeWithin(sizes, syms, given, limit, i);
    }
    SameKraft(sizes, syms, given, limit);
    if |syms| <= 1 {
      FewFit(given, limit);
    }
  }

  lemma HandedOnce(sizes: seq<nat>, syms: seq<SymFreq>, given: seq<nat>)
    requires HandedOut(sizes, syms, 0, given)
    ensures |given| == |syms|
  {}

  lemma FrequentShorter(counts: seq<nat>, sizes: seq<nat>, syms: seq<SymFreq>, given: seq<nat>, i: nat, j: nat)
    requires |sizes| == |counts| && SortedByKey(syms) && multiset(syms) == multiset(UsedSyms(counts))
    requires HandedOut(sizes, syms, 0, given) && i < |sizes| && j < |sizes| && 0 < counts[i] < counts[j]
    ensures sizes[j] <= sizes[i]
  {
    var p := PlaceOfSym(counts, syms, i);
    var q := PlaceOfSym(counts, syms, j);
  }

  lemma SizeWithin(sizes: seq<nat>, syms: seq<SymFreq>, given: seq<nat>, limit: nat, i: nat)
    requires HandedOut(sizes, syms, 0, given) && i < |sizes|
    requires forall p :: 0 <= p < |given| ==> given[p] <= limit
    requires |syms| <= 1 ==> forall p :: 0 <= p < |given| ==> given[p] == 1
    ensures sizes[i] <= limit && (|syms| == 1 ==> sizes[i] <= 1)
  {
    if sizes[i] != 0 {
      var p :| 0 <= p < |syms| && syms[p].sym == i;
    }
  }

  lemma SameKraft(sizes: seq<nat>, syms: seq<SymFreq>, given: seq<nat>, limit: nat)
    requires HandedOut(sizes, syms, 0, given)
    ensures Kraft(Counts(sizes, limit), limit) == Kraft(Counts(given, limit), limit)
  {
    forall l | 1 <= l <= limit ensures Counts(sizes, limit)[l] == Counts(given, limit)[l] {}
    FirstDepends(Counts(sizes, limit), Counts(given, limit), limit);
  }

  lemma FewFit(given: seq<nat>, limit: nat)
    requires |given| <= 1 && limit >= 1 && forall p :: 0 <= p < |given| ==> given[p] == 1
    ensures Kraft(Counts(given, limit), limit) <= Pow2(limit)
  {
    KraftOfCounts(given, limit);
    if |given| == 1 {
      assert KraftTerms(given, limit) == [Pow2(limit - 1)];
      SumAppend([], Pow2(limit - 1));
      assert [] + [Pow2(limit - 1)] == [Pow2(limit - 1)];
    }
  }

  lemma PlaceOfSym(counts: seq<nat>, syms: seq<SymFreq>, i: nat) returns (p: nat)
    requires multiset(syms) == multiset(UsedSyms(counts)) && i < |counts| && counts[i] > 0
    ensures p < |syms| && syms[p] == SymFreq(counts[i], i)
  {
    EverySymUsed(counts, i);
    var x := SymFreq(counts[i], i);
    assert x in multiset(UsedSyms(counts));
    assert x in syms;
    p :| 0 <= p < |syms| && syms[p] == x;
  }

  lemma SizePositive(counts: seq<nat>, sizes: seq<nat>, syms: seq<SymFreq>, given: seq<nat>, i: nat)
    requires |sizes| == |counts| && multiset(syms) == multiset(UsedSyms(counts)) && i < |sizes|
    requires forall p :: 0 <= p < |syms| ==> InTable(syms[p], counts)
    requires HandedOut(sizes, syms, 0, given)
    ensures sizes[i] > 0 <==> counts[i] > 0
  {
    if counts[i] > 0 {
      var p := PlaceOfSym(counts, syms, i);
    }
  }

  // Distinct symbols stay distinct under permutation.
  lemma DistinctPermuted(a: seq<SymFreq>, b: seq<SymFreq>)
    requires multiset(a) == multiset(b)
    requires forall p, q :: 0 <= p < q < |a| ==> a[p].sym < a[q].sym
    ensures DistinctSyms(b)
  {
    forall p, q | 0 <= p < q < |b| ensures b[p].sym != b[q].sym {
      if b[p].sym == b[q].sym {
        assert b[p] in multiset(a) && b[q] in multiset(a);
        assert b[p] in a && b[q] in a;
        assert b[p] == b[q];
        TwiceInMultiset(b, p, q);
        OnceInMultiset(a, b[p]);
      }
    }
  }

  lemma TwiceInMultiset(b: seq<SymFreq>, p: nat, q: nat)
    requires p < q < |b| && b[p] == b[q]
    ensures multiset(b)[b[p]] >= 2
  {
    WithoutMultiset(b, q);
    assert Without(b, q)[p] == b[p];
    assert b[p] in multiset(Without(b, q));
  }

  lemma {:induction false} OnceInMultiset(a: seq<SymFreq>, x: SymFreq)
    requires forall p, q :: 0 <= p < q < |a| ==> a[p].sym < a[q].sym
    ensures multiset(a)[x] <= 1
  {
    if a != [] {
      var k := |a| - 1;
      assert a == a[..k] + [a[k]];
      OnceInMultiset(a[..k], x);
      assert forall p :: 0 <= p < k ==> a[..k][p].sym < a[k].sym;
      assert a[k] !in a[..k];
    }
  }

  // What the sorted symbols satisfy before their keys become lengths.
  ghost predicate SortedSyms(counts: seq<nat>, syms: seq<SymFreq>) {
    && |syms| == |UsedSyms(counts)|
    && multiset(syms) == multiset(UsedSyms(counts))
    && SortedByKey(syms)
    && DistinctSyms(syms)
    && Frequencies(Keys(syms))
    && forall p :: 0 <= p < |syms| ==> syms[p].sym < |counts|
  }

  lemma SortedSymsFacts(counts: seq<nat>, syms: seq<SymFreq>)
    requires StablySorted(UsedSyms(counts), syms) && Sum(counts) < 0x1_0000
    ensures SortedSyms(counts, syms)
  {
    UsedSymsFacts(counts);
    StableIsPermutation(UsedSyms(counts), syms);
    assert |multiset(syms)| == |multiset(UsedSyms(counts))|;
    DistinctPermuted(UsedSyms(counts), syms);
    AllInTable(counts, syms);
    SortedFrequencies(counts, syms);
  }

  lemma SortedFrequencies(counts: seq<nat>, syms: seq<SymFreq>)
    requires multiset(syms) == multiset(UsedSyms(counts)) && SortedByKey(syms) && Sum(counts) < 0x1_0000
    ensures Frequencies(Keys(syms))
  {
    AllInTable(counts, syms);
    KeysSumPermuted(syms, UsedSyms(counts));
    UsedSymsFacts(counts);
    var w := Keys(syms);
    forall i | 0 <= i < |w| ensures w[i] >= 1 {
      assert InTable(syms[i], counts);
    }
  }

  lemma AllInTable(counts: seq<nat>, syms: seq<SymFreq>)
    requires multiset(syms) == multiset(UsedSyms(counts))
    ensures forall p :: 0 <= p < |syms| ==> InTable(syms[p], counts)
  {
    UsedSymsFacts(counts);
    forall p | 0 <= p < |syms| ensures InTable(syms[p], counts) {
      assert syms[p] in multiset(syms);
      assert syms[p] in UsedSyms(counts);
    }
  }

  method SortUsed(counts: array<nat>, tableLen: nat) returns (syms: array<SymFreq>, n: nat)
    requires tableLen <= MAX_HUFF_SYMBOLS && tableLen <= counts.Length
    requires Sum(counts[..tableLen]) < 0x1_0000
    ensures fresh(syms) && n <= syms.Length && SortedSyms(counts[..tableLen], syms[..n])
    ensures StablySorted(UsedSyms(counts[..tableLen]), syms[..n])
  {
    var syms0;
    syms0, n := CollectUsed(counts, tableLen);
    var syms1 := new SymFreq[MAX_HUFF_SYMBOLS](_ => SymFreq(0, 0));
    UsedSymsFacts(counts[..tableLen]);
    SumNonNegative(counts[..tableLen]);
    forall i | 0 <= i < n ensures syms0[i].key < 0x1_0000 {
      assert InTable(syms0[..n][i], counts[..tableLen]);
    }
    syms := RadixSortSyms(syms0, syms1, n);
    SortedSymsFacts(counts[..tableLen], syms[..n]);
  }

  // The lengths that minimum redundancy gives to n symbols, counted.
  ghost predicate LengthsCounted(numCodes: seq<nat>, n: nat) {
    && |numCodes| == MAX_SUPPORTED_HUFF_CODESIZE + 1
    && Total(numCodes, MAX_SUPPORTED_HUFF_CODESIZE) == n
    && (n >= 2 ==> Kraft(numCodes, MAX_SUPPORTED_HUFF_CODESIZE) == Pow2(MAX_SUPPORTED_HUFF_CODESIZE))
    && (n == 1 ==> numCodes[1] == 1)
  }

  method MeasureLengths(syms: array<SymFreq>, n: nat) returns (numCodes: array<nat>)
    requires n <= syms.Length && Frequencies(Keys(syms[..n]))
    modifies syms
    ensures fresh(numCodes) && SameSyms(syms[..], old(syms[..]), n)
    ensures LengthsCounted(numCodes[..], n)
    ensures n >= 2 ==> OptimalLengths(Keys(old(syms[..n])), Keys(syms[..n])) && LightBelow(Keys(old(syms[..n])), Keys(syms[..n]))
    ensures numCodes[..] == Counts(Keys(syms[..n]), MAX_SUPPORTED_HUFF_CODESIZE)
  {
    hide LightBelow;
    CalculateMinimumRedundancy(syms, n);
    ghost var e := Keys(syms[..n]);
    forall i | 0 <= i < n ensures 1 <= syms[i].key <= MAX_SUPPORTED_HUFF_CODESIZE {
      assert e[i] == syms[i].key;
    }
    numCodes := CountLengths(syms, n);
    KraftOfCounts(e, MAX_SUPPORTED_HUFF_CODESIZE);
    if n == 1 {
      assert e == [1];
      assert [1][..0] == [];
    }
  }

  // The number of codes no longer than the limit, when there is at most one code.
  lemma FewTotal(num: seq<nat>, n: nat, limit: nat)
    requires LengthsCounted(num, n) && n <= 1 && 1 <= limit <= MAX_SUPPORTED_HUFF_CODESIZE
    ensures Total(num, limit) == n
  {
    TotalGrows(num, limit, MAX_SUPPORTED_HUFF_CODESIZE);
    TotalGrows(num, 1, limit);
    assert Total(num, 1) == num[1];
  }

  // What was handed out, seen on the table's own symbols and the frequencies' records.
  lemma HandedOnTable(sizes: seq<nat>, syms: seq<SymFreq>, sorted: seq<SymFreq>, given: seq<nat>, tableLen: nat)
    requires HandedOut(sizes, syms, 0, given) && tableLen <= |sizes| && |syms| == |sorted|
    requires forall p :: 0 <= p < |syms| ==> syms[p].sym == sorted[p].sym < tableLen
    ensures HandedOut(sizes[..tableLen], sorted, 0, given)
    ensures forall s :: tableLen <= s < |sizes| ==> sizes[s] == 0
    ensures forall l :: 1 <= l ==> Occurrences(sizes[..tableLen], l) == Occurrences(given, l)
  {
    forall s | 0 <= s < |sizes| && sizes[s] != 0 ensures exists p :: 0 <= p < |sorted| && sorted[p].sym == s {
      var p :| 0 <= p < |syms| && syms[p].sym == s;
      assert sorted[p].sym == s;
    }
    forall l | 1 <= l ensures Occurrences(sizes[..tableLen], l) == Occurrences(given, l) {
      OccurrencesSplit(sizes, tableLen, l);
      NoneOf(sizes[tableLen..], l);
    }
  }

  lemma GivenFills(given: seq<nat>, num: seq<nat>, limit: nat)
    requires limit < |num|
    requires forall l :: 1 <= l <= limit ==> Occurrences(given, l) == num[l]
    ensures Kraft(Counts(given, limit), limit) == Kraft(num, limit)
  {
    FirstDepends(Counts(given, limit), num, limit);
  }

  lemma OneGiven(given: seq<nat>)
    requires |given| == 1 && Occurrences(given, 1) == 1
    ensures given[0] == 1
  {
    assert given[..0] == [];
  }

  lemma SymsFit(counts: seq<nat>, syms: seq<SymFreq>)
    requires SortedSyms(counts, syms)
    ensures |syms| <= |counts|
  {}

  // How far the lengths were changed, and what the tree's deep parts weigh.
  ghost predicate Limited(w: seq<nat>, e: seq<nat>, num: seq<nat>, limit: nat, lowest: nat, split: nat) {
    && LightBelow(w, e)
    && Lowest(Counts(e, MAX_SUPPORTED_HUFF_CODESIZE), num, limit, lowest, split, |e|)
    && (lowest < limit ==> Free(Counts(e, MAX_SUPPORTED_HUFF_CODESIZE), lowest) >= 1)
  }

  // How many codes of each size, none longer than the limit.
  method LimitedLengths(syms: array<SymFreq>, n: nat, limit: nat)
    returns (numCodes: array<nat>, ghost e: seq<nat>, ghost lowest: nat, ghost split: nat)
    requires n <= syms.Length && Frequencies(Keys(syms[..n])) && 1 <= limit <= 15 && n <= Pow2(limit)
    modifies syms
    ensures fresh(numCodes) && numCodes.Length == MAX_SUPPORTED_HUFF_CODESIZE + 1
    ensures SameSyms(syms[..], old(syms[..]), n)
    ensures Total(numCodes[..], limit) == n
    ensures n >= 2 ==> Kraft(numCodes[..], limit) == Pow2(limit)
    ensures n == 1 ==> numCodes[1] == 1
    ensures n >= 2 ==> OptimalLengths(Keys(old(syms[..n])), e)
    ensures n >= 2 ==> Limited(Keys(old(syms[..n])), e, numCodes[..], limit, lowest, split)
    ensures n >= 2 ==> Shortened(Counts(e, MAX_SUPPORTED_HUFF_CODESIZE), numCodes[..], limit)
    ensures n >= 2 && NoneBeyond(e, limit) ==> LengthsKept(numCodes[..], e, limit)
    ensures n >= 2 && numCodes[limit] == 0 ==> NoneBeyond(e, limit)
  {
    hide Kraft, Total, OptimalLengths, Frequencies, LightBelow, Lowest, Free, Shortened;
    numCodes := MeasureLengths(syms, n);
    e := Keys(syms[..n]);
    ghost var measured := numCodes[..];
    if n <= 1 {
      FewTotal(numCodes[..], n, limit);
    }
    if n >= 2 {
      DepthsSmall(Keys(old(syms[..n])), e);
      MeasuredBeyond(measured, e, limit);
    }
    lowest, split := EnforceMaxCodeSize(numCodes, n, limit);
    if n >= 2 && NoneBeyond(e, limit) {
      NothingCut(measured, e, limit);
    }
  }

  ghost predicate NoneBeyond(e: seq<nat>, limit: nat) {
    forall p :: 0 <= p < |e| ==> e[p] <= limit
  }

  // The counts are still those of the lengths.
  ghost predicate LengthsKept(num: seq<nat>, e: seq<nat>, limit: nat) {
    limit < |num| && forall l :: 1 <= l ==> Occurrences(e, l) == if l <= limit then num[l] else 0
  }

  lemma NothingCut(measured: seq<nat>, e: seq<nat>, limit: nat)
    requires measured == Counts(e, MAX_SUPPORTED_HUFF_CODESIZE) && 1 <= limit <= 15 && NoneBeyond(e, limit)
    ensures LengthsKept(measured, e, limit)
  {
    forall l | 1 <= l ensures Occurrences(e, l) == if l <= limit then measured[l] else 0 {
      if l > limit {
        NoneOf(e, l);
      }
    }
  }

  // No length is beyond the limit just when none that is counted is.
  lemma MeasuredBeyond(measured: seq<nat>, e: seq<nat>, limit: nat)
    requires measured == Counts(e, MAX_SUPPORTED_HUFF_CODESIZE) && forall i :: 0 <= i < |e| ==> e[i] <= 22
    ensures NoneBeyond(e, limit) <==> forall i :: limit < i < |measured| ==> measured[i] == 0
  {
    if NoneBeyond(e, limit) {
      forall i | limit < i < |measured| ensures measured[i] == 0 {
        NoneOf(e, i);
      }
    } else {
      var p :| 0 <= p < |e| && e[p] > limit;
      OccursOnce(e, p);
      assert measured[e[p]] == Occurrences(e, e[p]);
    }
  }

  lemma DepthsSmall(w: seq<nat>, e: seq<nat>)
    requires OptimalLengths(w, e)
    ensures forall i :: 0 <= i < |e| ==> e[i] <= 22
  {}

  lemma OccursOnce(e: seq<nat>, p: nat)
    requires p < |e|
    ensures Occurrences(e, e[p]) > 0
  {
    RankBelowCount(e, p);
  }

  // Clears the table and gives every used symbol its size.
  method HandOutSizes(codeSizes: array<nat>, syms: array<SymFreq>, n: nat, numCodes: array<nat>, limit: nat,
                      ghost tableLen: nat, ghost sorted: seq<SymFreq>)
    returns (ghost given: seq<nat>)
    requires codeSizes != numCodes && n <= syms.Length && 1 <= limit < numCodes.Length && tableLen <= codeSizes.Length
    requires |sorted| == n && DistinctSyms(sorted)
    requires forall p :: 0 <= p < n ==> syms[p].sym == sorted[p].sym < tableLen
    requires Total(numCodes[..], limit) == n
    requires n >= 2 ==> Kraft(numCodes[..], limit) == Pow2(limit)
    requires n == 1 ==> numCodes[1] == 1
    modifies codeSizes
    ensures HandedOut(codeSizes[..tableLen], sorted, 0, given)
    ensures forall p :: 0 <= p < |given| ==> given[p] <= limit
    ensures n >= 2 ==> Kraft(Counts(given, limit), limit) == Pow2(limit)
    ensures n <= 1 ==> forall p :: 0 <= p < |given| ==> given[p] == 1
    ensures forall i :: tableLen <= i < codeSizes.Length ==> codeSizes[i] == 0
    ensures forall l :: 1 <= l <= limit ==> numCodes[l] == Occurrences(codeSizes[..tableLen], l)
    ensures forall l :: 1 <= l <= limit ==> numCodes[l] == Occurrences(given, l)
  {
    ghost var limited := numCodes[..];
    forall i | 0 <= i < codeSizes.Length {
      codeSizes[i] := 0;
    }
    assert numCodes[..] == limited;
    given := AssignSizes(codeSizes, syms, n, numCodes, limit);
    HandedOnTable(codeSizes[..], syms[..n], sorted, given, tableLen);
    GivenFills(given, numCodes[..], limit);
    if n == 1 {
      OneGiven(given);
    }
  }

  // The dynamic table: sizes for the frequencies, and how many codes each size has.
  method SizesFromFrequencies(huffCount: array<nat>, codeSizes: array<nat>, tableLen: nat, limit: nat)
    returns (numCodes: array<nat>, ghost depths: seq<nat>)
    requires huffCount != codeSizes && huffCount.Length == codeSizes.Length == MAX_HUFF_SYMBOLS
    requires tableLen <= MAX_HUFF_SYMBOLS && 1 <= limit <= 15 && tableLen <= Pow2(limit)
    requires Sum(huffCount[..tableLen]) < 0x1_0000
    modifies codeSizes
    ensures fresh(numCodes) && numCodes.Length == MAX_SUPPORTED_HUFF_CODESIZE + 1
    ensures SizesFor(huffCount[..tableLen], codeSizes[..tableLen], limit)
    ensures forall i :: tableLen <= i < codeSizes.Length ==> codeSizes[i] == 0
    ensures forall l :: 1 <= l <= limit ==> numCodes[l] == Occurrences(codeSizes[..tableLen], l)
    ensures OptimalWithin(huffCount[..tableLen], codeSizes[..tableLen], depths, limit)
    ensures limit == 15 ==> NearOptimal(huffCount[..tableLen], codeSizes[..tableLen])
    ensures |UsedSyms(huffCount[..tableLen])| >= 2
      ==> Shortened(Counts(depths, MAX_SUPPORTED_HUFF_CODESIZE), numCodes[..], limit)
  {
    hide Shortened, Optimal, OptimalLengths, StablySorted, LengthsKept, Limited, NearOptimal, HandedOut, SizesFor, NoneBeyond,
      SortedSyms, Occurrences, Kraft, Counts, Total, UsedSyms, Frequencies;
    ghost var counts := huffCount[..tableLen];
    var syms, n := SortUsed(huffCount, tableLen);
    ghost var sorted, lowest, split := syms[..n], 0, 0;
    SymsFit(counts, sorted);
    numCodes, depths, lowest, split := LimitedLengths(syms, n, limit);
    ghost var given := HandOutSizes(codeSizes, syms, n, numCodes, limit, tableLen, sorted);
    ghost var sizes := codeSizes[..tableLen];
    SizesServe(counts, sizes, sorted, given, limit);
    if n >= 2 && Below(sizes, limit) {
      NoneThatLong(sizes, limit);
    }
    if n >= 2 && NoneBeyond(depths, limit) {
      GivenOptimal(counts, sizes, sorted, given, numCodes[..], depths, limit);
    }
    if limit == 15 {
      if n >= 2 {
        GivenNear(counts, sizes, sorted, given, numCodes[..], depths, lowest, split);
      } else {
        FewNear(counts, sizes, limit);
      }
    }
  }

  // No lengths for the used symbols, taken by frequency, that meet Kraft's inequality cost less.
  ghost predicate Optimal(counts: seq<nat>, sizes: seq<nat>) {
    exists s: seq<SymFreq> :: StablySorted(UsedSyms(counts), s) && Within(s, |sizes|)
      && LowerBound(Keys(s), Cost(Keys(s), SizesOf(s, sizes)))
  }

  ghost predicate Below(sizes: seq<nat>, limit: nat) {
    forall i :: 0 <= i < |sizes| ==> sizes[i] < limit
  }

  // The depths of an optimal tree: unless one is beyond the limit the table is optimal, and when none of
  // the table's sizes is the limit none is beyond it.
  ghost predicate OptimalWithin(counts: seq<nat>, sizes: seq<nat>, depths: seq<nat>, limit: nat) {
    |UsedSyms(counts)| >= 2 ==>
      && (exists s: seq<SymFreq> :: StablySorted(UsedSyms(counts), s) && OptimalLengths(Keys(s), depths))
      && (NoneBeyond(depths, limit) ==> Optimal(counts, sizes))
      && (Below(sizes, limit) ==> NoneBeyond(depths, limit))
  }

  // Lengths that a prefix code for the used symbols can have.
  ghost predicate Usable(counts: seq<nat>, l: seq<nat>, m: nat) {
    && |l| == |counts| && Within(UsedSyms(counts), |l|)
    && (forall i :: 0 <= i < |l| && counts[i] > 0 ==> l[i] >= 1)
    && Realizable(SizesOf(UsedSyms(counts), l), m)
  }

  // However the lengths had to be limited, no prefix code is shorter by more than a bit for each symbol
  // coded, or by more than a fifth of one when there are at most 32 symbols.
  ghost predicate NearOptimal(counts: seq<nat>, sizes: seq<nat>) {
    |sizes| == |counts| && forall l: seq<nat>, m: nat :: Usable(counts, l, m) ==> NotFar(counts, sizes, l)
  }

  ghost predicate NotFar(counts: seq<nat>, sizes: seq<nat>, l: seq<nat>) {
    && |counts| == |sizes| == |l|
    && Cost(counts, sizes) <= Cost(counts, l) + Sum(counts)
    && (|counts| <= 32 ==> 5 * Cost(counts, sizes) <= 5 * Cost(counts, l) + Sum(counts))
  }

  // The cost over all symbols is that over the used ones.
  lemma {:induction false} UsedCost(counts: seq<nat>, l: seq<nat>)
    requires |l| == |counts|
    ensures Within(UsedSyms(counts), |l|) && Cost(Keys(UsedSyms(counts)), SizesOf(UsedSyms(counts), l)) == Cost(counts, l)
  {
    UsedSymsFacts(counts);
    if counts != [] {
      var k := |counts| - 1;
      UsedSymsFacts(counts[..k]);
      UsedCost(counts[..k], l[..k]);
      CostSnoc(counts, l);
      var r := UsedSyms(counts[..k]);
      assert SizesOf(r, l[..k]) == SizesOf(r, l);
      if counts[k] != 0 {
        OneMoreCost(r, SymFreq(counts[k], k), l);
      } else {
        assert r + [] == r;
      }
    }
  }

  lemma OneMoreCost(r: seq<SymFreq>, x: SymFreq, l: seq<nat>)
    requires Within(r, |l|) && x.sym < |l|
    ensures Within(r + [x], |l|) && Cost(Keys(r + [x]), SizesOf(r + [x], l)) == Cost(Keys(r), SizesOf(r, l)) + x.key * l[x.sym]
  {
    hide Cost;
    var s := r + [x];
    CostSnoc(Keys(s), SizesOf(s, l));
    assert Keys(s)[..|r|] == Keys(r) && SizesOf(s, l)[..|r|] == SizesOf(r, l);
  }

  // The same over the sorted ones.
  lemma SortedCost(counts: seq<nat>, syms: seq<SymFreq>, l: seq<nat>)
    requires SortedSyms(counts, syms) && |l| == |counts|
    ensures Within(syms, |l|) && Cost(Keys(syms), SizesOf(syms, l)) == Cost(counts, l) && Sum(Keys(syms)) == Sum(counts)
  {
    hide Cost, Sum, UsedSyms, SortedByKey, Frequencies;
    UsedCost(counts, l);
    PermutedCost(syms, UsedSyms(counts), l);
    UsedSymsFacts(counts);
    KeysSumPermuted(syms, UsedSyms(counts));
  }

  lemma SortedUsable(counts: seq<nat>, syms: seq<SymFreq>, l: seq<nat>, m: nat)
    requires SortedSyms(counts, syms) && Usable(counts, l, m)
    ensures Within(syms, |l|) && Realizable(SizesOf(syms, l), m)
  {
    hide Realizable, UsedSyms, SortedByKey, Frequencies;
    PermutedRealizable(UsedSyms(counts), syms, l, m);
  }

  lemma GivenLists(sizes: seq<nat>, syms: seq<SymFreq>, given: seq<nat>, num: seq<nat>, e: seq<nat>, lowest: nat, split: nat)
    requires HandedOut(sizes, syms, 0, given) && OptimalLengths(Keys(syms), e) && Limited(Keys(syms), e, num, 15, lowest, split)
    requires |num| == MAX_SUPPORTED_HUFF_CODESIZE + 1
    requires (forall p :: 0 <= p < |given| ==> given[p] <= 15) && forall l :: 1 <= l <= 15 ==> num[l] == Occurrences(given, l)
    ensures Within(syms, |sizes|) && SizesOf(syms, sizes) == given && Lists(e, given, num, lowest, split)
    ensures lowest < 15 ==> Free(Counts(e, MAX_SUPPORTED_HUFF_CODESIZE), lowest) >= 1
  {
    hide Occurrences, Kraft, LowerBound, LightBelow, Covered;
    assert Lowest(Counts(e, MAX_SUPPORTED_HUFF_CODESIZE), num, 15, lowest, split, |e|);
  }

  // The sizes handed out are near the best.
  lemma GivenNear(counts: seq<nat>, sizes: seq<nat>, syms: seq<SymFreq>, given: seq<nat>, num: seq<nat>, e: seq<nat>, lowest: nat, split: nat)
    requires |sizes| == |counts| <= MAX_HUFF_SYMBOLS && SortedSyms(counts, syms) && HandedOut(sizes, syms, 0, given)
    requires OptimalLengths(Keys(syms), e) && Limited(Keys(syms), e, num, 15, lowest, split)
    requires |num| == MAX_SUPPORTED_HUFF_CODESIZE + 1
    requires (forall p :: 0 <= p < |given| ==> given[p] <= 15) && forall l :: 1 <= l <= 15 ==> num[l] == Occurrences(given, l)
    ensures NearOptimal(counts, sizes)
  {
    hide HandedOut, Limited, Lists, Cost, Sum, Kraft, Occurrences, Usable, Realizable, SortedSyms, Free;
    var w := Keys(syms);
    GivenLists(sizes, syms, given, num, e, lowest, split);
    assert LightBelow(w, e) by { LightOf(w, e, num, lowest, split); }
    SymsFit(counts, syms);
    LimitingCost(w, e, given, num, lowest, split);
    SortedCost(counts, syms, sizes);
    SumNonNegative(counts);
    forall l: seq<nat>, m: nat | Usable(counts, l, m) ensures NotFar(counts, sizes, l) {
      SortedUsable(counts, syms, l, m);
      UsableLength(counts, l, m);
      SortedCost(counts, syms, l);
      assert Cost(w, e) <= Cost(w, SizesOf(syms, l));
    }
  }

  lemma UsableLength(counts: seq<nat>, l: seq<nat>, m: nat)
    requires Usable(counts, l, m)
    ensures |l| == |counts|
  {}

  lemma LightOf(w: seq<nat>, e: seq<nat>, num: seq<nat>, lowest: nat, split: nat)
    requires Limited(w, e, num, 15, lowest, split)
    ensures LightBelow(w, e)
  {}

  lemma {:induction false} CostAtMost(w: seq<nat>, l: seq<nat>, k: seq<nat>)
    requires |w| == |l| == |k| && forall i :: 0 <= i < |w| && w[i] > 0 ==> l[i] <= k[i]
    ensures Cost(w, l) <= Cost(w, k)
  {
    if w != [] {
      var n := |w| - 1;
      CostAtMost(w[..n], l[..n], k[..n]);
      CostSnoc(w, l);
      CostSnoc(w, k);
      if w[n] > 0 {
        MulMono(w[n], l[n], k[n]);
      }
    }
  }

  // A single symbol has a code of one bit.
  lemma FewNear(counts: seq<nat>, sizes: seq<nat>, limit: nat)
    requires SizesFor(counts, sizes, limit) && |UsedSyms(counts)| <= 1
    ensures NearOptimal(counts, sizes)
  {
    hide Sum, Cost, Fits, Realizable;
    SumNonNegative(counts);
    forall l: seq<nat>, m: nat | Usable(counts, l, m) ensures NotFar(counts, sizes, l) {
      forall i | 0 <= i < |counts| && counts[i] > 0 ensures sizes[i] <= l[i] {
        EverySymUsed(counts, i);
      }
      CostAtMost(counts, sizes, l);
    }
  }

  lemma NoneThatLong(sizes: seq<nat>, limit: nat)
    requires Below(sizes, limit)
    ensures Occurrences(sizes, limit) == 0
  {
    NoneOf(sizes, limit);
  }

  lemma GivenOptimal(counts: seq<nat>, sizes: seq<nat>, syms: seq<SymFreq>, given: seq<nat>, num: seq<nat>, e: seq<nat>, limit: nat)
    requires StablySorted(UsedSyms(counts), syms) && HandedOut(sizes, syms, 0, given)
    requires limit < |num| && LengthsKept(num, e, limit) && OptimalLengths(Keys(syms), e)
    requires (forall p :: 0 <= p < |given| ==> given[p] <= limit) && forall l :: 1 <= l <= limit ==> num[l] == Occurrences(given, l)
    ensures Optimal(counts, sizes)
  {
    forall l | 1 <= l ensures Occurrences(given, l) == Occurrences(e, l) {
      if l > limit {
        NoneOf(given, l);
      }
    }
    SameDescending(given, e);
    assert SizesOf(syms, sizes) == given;
  }

  lemma LastNotBelow(s: seq<nat>, t: seq<nat>)
    requires |s| == |t| > 0 && (forall l :: 1 <= l ==> Occurrences(s, l) == Occurrences(t, l)) && s[|s| - 1] >= 1
    requires forall i :: 0 <= i < |t| ==> t[i] >= t[|t| - 1]
    ensures s[|s| - 1] >= t[|t| - 1]
  {
    var x := s[|s| - 1];
    assert Occurrences(s, x) >= 1;
    if x < t[|t| - 1] {
      NoneOf(t, x);
    }
  }

  // Two descending lists with the same numbers in them are the same.
  lemma {:induction false} SameDescending(s: seq<nat>, t: seq<nat>)
    requires |s| == |t| && (forall l :: 1 <= l ==> Occurrences(s, l) == Occurrences(t, l))
    requires forall i, j :: 0 <= i <= j < |s| ==> s[i] >= s[j] >= 1
    requires forall i, j :: 0 <= i <= j < |t| ==> t[i] >= t[j] >= 1
    ensures s == t
  {
    if s != [] {
      var k := |s| - 1;
      LastNotBelow(s, t);
      LastNotBelow(t, s);
      forall l | 1 <= l ensures Occurrences(s[..k], l) == Occurrences(t[..k], l) {
        assert Occurrences(s, l) == Occurrences(t, l);
      }
      SameDescending(s[..k], t[..k]);
      assert s == s[..k] + [s[k]] && t == t[..k] + [t[k]];
    }
  }

  // There are as many codes of each size as limiting the depths comes to.
  ghost predicate LimitedFrom(depths: seq<nat>, sizes: seq<nat>, limit: nat) {
    exists num :: LimitsTo(depths, num, sizes, limit)
  }

  ghost predicate LimitsTo(depths: seq<nat>, num: seq<nat>, sizes: seq<nat>, limit: nat) {
    && limit < |num| && Shortened(Counts(depths, MAX_SUPPORTED_HUFF_CODESIZE), num, limit)
    && forall l :: 1 <= l <= limit ==> num[l] == Occurrences(sizes, l)
  }

  // How many codes each preset size has.
  method CountSizes(codeSizes: array<nat>, tableLen: nat) returns (numCodes: array<nat>)
    requires tableLen <= codeSizes.Length
    requires forall i :: 0 <= i < tableLen ==> codeSizes[i] <= MAX_SUPPORTED_HUFF_CODESIZE
    ensures fresh(numCodes) && numCodes[..] == Counts(codeSizes[..tableLen], MAX_SUPPORTED_HUFF_CODESIZE)
  {
    numCodes := new nat[MAX_SUPPORTED_HUFF_CODESIZE + 1](_ => 0);
    for i := 0 to tableLen
      invariant numCodes[..] == Counts(codeSizes[..i], MAX_SUPPORTED_HUFF_CODESIZE)
    {
      assert codeSizes[..i + 1][..i] == codeSizes[..i];
      numCodes[codeSizes[i]] := numCodes[codeSizes[i]] + 1;
    }
  }

  // The routine itself: sizes from frequencies unless they are preset, then canonical codes.
  method OptimizeHuffmanTable(huffCount: array<nat>, codeSizes: array<nat>, codes: array<nat>,
                              tableLen: nat, limit: nat, staticTable: bool)
    returns (ghost depths: seq<nat>)
    requires huffCount != codeSizes && codes != huffCount && codes != codeSizes
    requires huffCount.Length == codeSizes.Length == codes.Length == MAX_HUFF_SYMBOLS
    requires tableLen <= MAX_HUFF_SYMBOLS && 1 <= limit <= 15 && tableLen <= Pow2(limit)
    requires staticTable ==> Fits(codeSizes[..tableLen], limit)
    requires !staticTable ==> Sum(huffCount[..tableLen]) < 0x1_0000
    modifies codeSizes, codes
    ensures staticTable ==> codeSizes[..] == old(codeSizes[..])
    ensures !staticTable ==> SizesFor(huffCount[..tableLen], codeSizes[..tableLen], limit)
    ensures !staticTable ==> OptimalWithin(huffCount[..tableLen], codeSizes[..tableLen], depths, limit)
    ensures !staticTable && limit == 15 ==> NearOptimal(huffCount[..tableLen], codeSizes[..tableLen])
    ensures !staticTable && |UsedSyms(huffCount[..tableLen])| >= 2 ==> LimitedFrom(depths, codeSizes[..tableLen], limit)
    ensures !staticTable ==> forall i :: tableLen <= i < codeSizes.Length ==> codeSizes[i] == 0
    ensures CodesFor(codeSizes[..tableLen], codes[..], limit)
  {
    hide OptimalWithin, NearOptimal, Shortened;
    depths := [];
    ghost var counts := huffCount[..tableLen];
    var numCodes;
    if staticTable {
      forall i | 0 <= i < tableLen ensures codeSizes[i] <= limit {
        assert codeSizes[..tableLen][i] <= limit;
      }
      numCodes := CountSizes(codeSizes, tableLen);
      forall l | 1 <= l <= limit ensures numCodes[l] == Occurrences(codeSizes[..tableLen], l) {
        assert numCodes[..][l] == Occurrences(codeSizes[..tableLen], l);
      }
    } else {
      numCodes, depths := SizesFromFrequencies(huffCount, codeSizes, tableLen, limit);
      ghost var sizes := codeSizes[..tableLen];
      assert |UsedSyms(counts)| >= 2 ==> LimitsTo(depths, numCodes[..], sizes, limit);
      forall i | 0 <= i < codes.Length {
        codes[i] := 0;
      }
      assert codeSizes[..tableLen] == sizes && huffCount[..tableLen] == counts;
    }
    var nextCode := FirstCodes(numCodes, limit, codeSizes[..tableLen]);
    ghost var sizes := codeSizes[..tableLen];
    AssignCodes(codeSizes, codes, tableLen, limit, nextCode);
    assert codeSizes[..tableLen] == sizes && huffCount[..tableLen] == counts;
  }
}
