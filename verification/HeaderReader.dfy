/** The code sizes of a dynamic block: the header's counts, the code-length code, the list of all sizes, and
    the tables made from them. */
module HeaderReader {
  import opened Sums
  import opened DecodeTable
  import opened Canonical
  import opened InflateTable
  import opened BlockCodec
  import opened CodeLengths
  import opened CodeHeader
  import opened BitInput
  import opened TableDecode
  import opened Outcomes

  // The longest list of code sizes that a fill can reach, whatever the input.
  const LEN_CODES_SIZE := 288 + 32 + 137

  // The next code-length symbol, its repeat field, and what is read after them.
  lemma SizesStep(words: seq<Path>, bits: seq<bool>, have: seq<nat>, total: nat) returns (i: nat)
    requires ReadSizes(words, bits, have, total).Got? && |have| < total
    ensures Used(words, i) && IsPrefix(words[i], bits)
    ensures ReadBits(bits[|words[i]|..], Width(i)).Got?
    ensures var e := ReadBits(bits[|words[i]|..], Width(i));
      && Run(have, Item(i, e.value)).Some?
      && ReadSizes(words, e.rest, Run(have, Item(i, e.value)).value, total) == ReadSizes(words, bits, have, total)
  {
    i := ReadSymbol(words, bits).value;
  }

  // What one symbol and its field do.
  lemma SizesUnfold(words: seq<Path>, bits: seq<bool>, have: seq<nat>, total: nat, sym: nat, extra: nat, mid: seq<bool>, rest: seq<bool>)
    requires |have| < total && ReadSymbol(words, bits) == Got(sym, mid) && ReadBits(mid, Width(sym)) == Got(extra, rest)
    ensures Run(have, Item(sym, extra)).Some? ==>
      ReadSizes(words, bits, have, total) == ReadSizes(words, rest, Run(have, Item(sym, extra)).value, total)
  {
    hide ReadSymbol, ReadBits, Width;
  }

  // A word that heads the bits is the symbol read.
  lemma HeadIsRead(words: seq<Path>, bits: seq<bool>, sym: nat, rest: seq<bool>)
    requires Headed(words, bits)
    requires forall i :: Used(words, i) && IsPrefix(words[i], bits) ==> (sym == i && rest == bits[|words[i]|..])
    ensures ReadSymbol(words, bits) == Got(sym, rest)
  {}

  lemma EndOfSizes(words: seq<Path>, bits: seq<bool>, have: seq<nat>, total: nat)
    requires |have| >= total
    ensures ReadSizes(words, bits, have, total) == if |have| == total then Got(have, bits) else Bad
  {}

  lemma FieldBelow(bits: seq<bool>, n: nat)
    ensures ReadBits(bits, n).Got? ==> ReadBits(bits, n).value < Pow2(n)
  {}

  lemma NoField(bits: seq<bool>, sym: nat)
    requires sym < 16
    ensures ReadBits(bits, Width(sym)) == Got(0, bits)
  {
    assert bits[..0] == [] && bits[0..] == bits;
  }

  method SetRun(a: array<nat>, start: nat, n: nat, v: nat)
    requires start + n <= a.Length
    modifies a
    ensures forall i :: 0 <= i < a.Length ==> a[i] == if start <= i < start + n then v else old(a[i])
  {
    forall i | start <= i < start + n {
      a[i] := v;
    }
  }

  // Fills the list of code sizes. A run may pass the end of what is wanted, never the end of the list.
  method FillLenCodes(r: Reader, lookUp: array<int>, tree: array<int>, total: nat, ghost words: seq<Path>, ghost at: map<Path, int>)
    returns (status: Status, lenCodes: array<nat>)
    requires r.Valid() && lookUp.Length == FAST_SIZE && tree.Length == TREE_SIZE
    requires Decodes(words, at, lookUp[..], tree[..]) && |words| == LENGTH_SYMBOLS && total <= 320
    modifies r`pos, r`bitBuf, r`numBits
    ensures r.Valid() && |r.Rest()| <= |old(r.Rest())| && fresh(lenCodes) && lenCodes.Length == LEN_CODES_SIZE
    ensures Midway(status) && (status == Fine ==> forall i :: 0 <= i < total ==> lenCodes[i] <= 15)
    ensures ReadSizes(words, old(r.Rest()), [], total).Got? ==>
      (status == Fine && ReadSizes(words, old(r.Rest()), [], total) == Got(lenCodes[..total], r.Rest()))
    ensures status == Fine && NoGap(words) ==> ReadSizes(words, old(r.Rest()), [], total).Got?
  {
    hide Decodes, ReadSizes, ReadSymbol, ReadBits, Width, Pow2, Used, IsPrefix, NoGap;
    lenCodes := new nat[LEN_CODES_SIZE](_ => 0);
    ghost var goal, l, t := ReadSizes(words, r.Rest(), [], total), lookUp[..], tree[..];
    var counter := 0;
    assert lenCodes[..0] == [];
    while counter < total
      invariant r.Valid() && |r.Rest()| <= |old(r.Rest())| && counter <= LEN_CODES_SIZE && lookUp[..] == l && tree[..] == t
      invariant forall i :: 0 <= i < counter ==> lenCodes[i] <= 15
      invariant goal.Got? || NoGap(words) ==> ReadSizes(words, r.Rest(), lenCodes[..counter], total) == goal
      decreases total - counter
    {
      var s, v;
      status, s, v := NextRun(r, lookUp, tree, lenCodes[..counter], total, words, at);
      if status != Fine {
        return;
      }
      ghost var have := lenCodes[..counter];
      SetRun(lenCodes, counter, s, v);
      counter := counter + s;
      assert lenCodes[..counter] == have + Copies(v, s);
    }
    EndOfSizes(words, r.Rest(), lenCodes[..counter], total);
    status := if counter == total then Fine else Failed;
  }

  // One code-length symbol: how many sizes it stands for, and which.
  method NextRun(r: Reader, lookUp: array<int>, tree: array<int>, have: seq<nat>, total: nat,
                 ghost words: seq<Path>, ghost at: map<Path, int>)
    returns (status: Status, n: nat, v: nat)
    requires r.Valid() && lookUp.Length == FAST_SIZE && tree.Length == TREE_SIZE
    requires Decodes(words, at, lookUp[..], tree[..]) && |words| == LENGTH_SYMBOLS && |have| < total
    requires forall i :: 0 <= i < |have| ==> have[i] <= 15
    modifies r`pos, r`bitBuf, r`numBits
    ensures r.Valid() && |r.Rest()| <= |old(r.Rest())| && Midway(status)
    ensures status == Fine ==> 1 <= n <= 138 && v <= 15
    ensures ReadSizes(words, old(r.Rest()), have, total).Got? ==>
      (status == Fine && ReadSizes(words, r.Rest(), have + Copies(v, n), total) == ReadSizes(words, old(r.Rest()), have, total))
    ensures status == Fine && NoGap(words) ==>
      ReadSizes(words, r.Rest(), have + Copies(v, n), total) == ReadSizes(words, old(r.Rest()), have, total)
  {
    hide Decodes, ReadSizes, ReadSymbol, ReadBits, Pow2, IsPrefix, NoGap, Headed;
    ghost var bits, i := r.Rest(), 0;
    if ReadSizes(words, bits, have, total).Got? {
      i := SizesStep(words, bits, have, total);
    }
    n, v := 1, 0;
    var ok, sym := HuffDecode(r, lookUp, tree, words, at);
    if !ok {
      return NeedsMoreInput, n, v;
    }
    ghost var mid := r.Rest();
    if NoGap(words) {
      HeadIsRead(words, bits, sym, mid);
    }
    if sym < 16 {
      NoField(r.Rest(), sym);
      if NoGap(words) {
        SizesUnfold(words, bits, have, total, sym, 0, mid, mid);
      }
      v := sym;
      assert have + Copies(v, 1) == have + [sym];
      return Fine, n, v;
    }
    if sym == 16 && |have| == 0 {
      return Failed, n, v;
    }
    FieldBelow(r.Rest(), Width(sym));
    SmallWidths();
    ok, n := r.GetBits(if sym == 16 then 2 else if sym == 17 then 3 else 7);
    if !ok {
      return NeedsMoreInput, 1, v;
    }
    if NoGap(words) {
      SizesUnfold(words, bits, have, total, sym, n, mid, r.Rest());
    }
    n := n + if sym == 18 then 11 else 3;
    v := if sym == 16 then have[|have| - 1] else 0;
    status := Fine;
  }

  // ---------- the header of a dynamic block ----------

  // The sizes of the code-length code, each put where the fixed order says.
  method ReadLenSizes(r: Reader, n: nat) returns (status: Status, lens: array<nat>)
    requires r.Valid() && n <= LENGTH_SYMBOLS
    modifies r`pos, r`bitBuf, r`numBits
    ensures r.Valid() && |r.Rest()| <= |old(r.Rest())| && fresh(lens) && lens.Length == LENGTH_SYMBOLS && Midway(status)
    ensures forall i :: 0 <= i < LENGTH_SYMBOLS ==> lens[i] <= 7
    ensures ReadLens(old(r.Rest()), 0, n, Copies(0, LENGTH_SYMBOLS)).Got? ==>
      (status == Fine && ReadLens(old(r.Rest()), 0, n, Copies(0, LENGTH_SYMBOLS)) == Got(lens[..], r.Rest()))
    ensures status == Fine ==> ReadLens(old(r.Rest()), 0, n, Copies(0, LENGTH_SYMBOLS)).Got?
  {
    hide ReadBits, Pow2;
    lens := new nat[LENGTH_SYMBOLS](_ => 0);
    assert lens[..] == Copies(0, LENGTH_SYMBOLS);
    ghost var goal := ReadLens(r.Rest(), 0, n, lens[..]);
    for k := 0 to n
      invariant r.Valid() && |r.Rest()| <= |old(r.Rest())|
      invariant forall i :: 0 <= i < LENGTH_SYMBOLS ==> lens[i] <= 7
      invariant ReadLens(r.Rest(), k, n, lens[..]) == goal
    {
      SwizzleIsPermutation();
      FieldBelow(r.Rest(), 3);
      ThreeBits();
      ghost var before := lens[..];
      var ok, size := r.GetBits(3);
      if !ok {
        return NeedsMoreInput, lens;
      }
      lens[SWIZZLE[k]] := size;
      assert lens[..] == before[SWIZZLE[k] := size];
    }
    status := Fine;
  }

  lemma ThreeBits()
    ensures Pow2(3) == 8 && Pow2(4) == 16 && Pow2(5) == 32
  {
    Pow2Table();
  }

  // A table for the first sizes of a list, unless they are not those of a code.
  method MakeTable(codeSize: array<nat>, tableSize: nat) returns (ok: bool, lookUp: array<int>, tree: array<int>, ghost at: map<Path, int>)
    requires tableSize <= codeSize.Length && tableSize <= MAX_SYMBOLS
    requires forall i :: 0 <= i < tableSize ==> codeSize[i] <= MAX_BITS
    ensures fresh(lookUp) && fresh(tree) && lookUp.Length == FAST_SIZE && tree.Length == TREE_SIZE && lookUp != tree
    ensures ok <==> Accepts(codeSize[..tableSize])
    ensures ok ==> Decodes(Words(codeSize[..tableSize]), at, lookUp[..], tree[..])
  {
    hide Accepts, Table, PrefixCode, NodesFit, Words, Fits;
    ghost var sizes := codeSize[..tableSize];
    lookUp := new int[FAST_SIZE];
    tree := new int[TREE_SIZE];
    ok, at := BuildTable(codeSize, tableSize, lookUp, tree);
    assert codeSize[..tableSize] == sizes;
    if ok {
      TableDecodes(sizes, at, lookUp[..], tree[..]);
    }
  }

  lemma TableDecodes(sizes: seq<nat>, at: map<Path, int>, lookUp: seq<int>, tree: seq<int>)
    requires Accepts(sizes) && |sizes| <= MAX_SYMBOLS && forall i :: 0 <= i < |sizes| ==> sizes[i] <= MAX_BITS
    requires Table(Words(sizes), |sizes|, at, lookUp, tree)
    ensures Decodes(Words(sizes), at, lookUp, tree)
  {
    hide Accepts, Table, PrefixCode, NodesFit, Words;
    AcceptedIsBuildable(sizes);
    WordsAreCode(sizes);
    BuildableFits(sizes);
  }

  method ReadHeaderCounts(r: Reader) returns (ok: bool, numLit: nat, numDist: nat, numLens: nat)
    requires r.Valid()
    modifies r`pos, r`bitBuf, r`numBits
    ensures r.Valid() && |r.Rest()| <= |old(r.Rest())|
    ensures ok ==> 257 <= numLit <= 288 && 1 <= numDist <= 32 && 4 <= numLens <= LENGTH_SYMBOLS
    ensures ReadCounts(old(r.Rest())).Got? ==>
      (ok && ReadCounts(old(r.Rest())) == Got((numLit, numDist, numLens), r.Rest()))
    ensures ok ==> ReadCounts(old(r.Rest())).Got?
  {
    hide ReadBits, Pow2;
    ThreeBits();
    FieldBelow(r.Rest(), 5);
    numDist, numLens := 1, 4;
    ok, numLit := r.GetBits(5);
    numLit := numLit + 257;
    if !ok {
      return;
    }
    FieldBelow(r.Rest(), 5);
    ok, numDist := r.GetBits(5);
    numDist := numDist + 1;
    if !ok {
      return;
    }
    FieldBelow(r.Rest(), 4);
    ok, numLens := r.GetBits(4);
    numLens := numLens + 4;
  }

  // A complete code leaves no gaps.
  lemma CompleteNoGap(sizes: seq<nat>)
    ensures Complete(sizes, MAX_BITS) ==> NoGap(Words(sizes))
  {
    if Complete(sizes, MAX_BITS) {
      forall bits: Path | |bits| >= MAX_BITS ensures Headed(Words(sizes), bits) {
        WordAtHead(sizes, bits);
      }
    }
  }

  lemma WordAtHead(sizes: seq<nat>, bits: Path)
    requires Complete(sizes, MAX_BITS) && |bits| >= MAX_BITS
    ensures Headed(Words(sizes), bits)
  {
    var i := SomeMatch(sizes, bits, MAX_BITS);
    assert Words(sizes)[i] == CodeWord(sizes, MAX_BITS, i);
    assert Used(Words(sizes), i);
  }

  // The code-length code is complete.
  ghost predicate ListWhole(bits: seq<bool>, numLens: nat)
    requires numLens <= LENGTH_SYMBOLS
  {
    match ReadLens(bits, 0, numLens, Copies(0, LENGTH_SYMBOLS))
    case Bad => true
    case Got(lens, _) => Complete(lens, MAX_BITS)
  }

  ghost predicate HeaderWhole(bits: seq<bool>) {
    match ReadCounts(bits)
    case Bad => true
    case Got(n, rest) => ListWhole(rest, n.2)
  }

  // The list of all code sizes.
  method ReadList(r: Reader, total: nat, numLens: nat) returns (status: Status, lenCodes: array<nat>)
    requires r.Valid() && total <= 320 && numLens <= LENGTH_SYMBOLS
    modifies r`pos, r`bitBuf, r`numBits
    ensures r.Valid() && |r.Rest()| <= |old(r.Rest())| && Midway(status) && fresh(lenCodes) && lenCodes.Length >= LENGTH_SYMBOLS
    ensures status == Fine ==> lenCodes.Length == LEN_CODES_SIZE && forall i :: 0 <= i < total ==> lenCodes[i] <= 15
    ensures ReadListed(old(r.Rest()), total, numLens).Got? ==>
      (status == Fine && ReadListed(old(r.Rest()), total, numLens) == Got(lenCodes[..total], r.Rest()))
    ensures status == Fine && ListWhole(old(r.Rest()), numLens) ==> ReadListed(old(r.Rest()), total, numLens).Got?
  {
    hide ReadBits, Pow2, ReadLens, ReadSizes, Accepts, Words, Decodes, NoGap, Complete;
    status, lenCodes := ReadLenSizes(r, numLens);
    if status != Fine {
      return;
    }
    var ok, lookUp, tree;
    ghost var at;
    ok, lookUp, tree, at := MakeTable(lenCodes, LENGTH_SYMBOLS);
    assert lenCodes[..LENGTH_SYMBOLS] == lenCodes[..];
    if !ok {
      return Failed, lenCodes;
    }
    CompleteNoGap(lenCodes[..]);
    status, lenCodes := FillLenCodes(r, lookUp, tree, total, Words(lenCodes[..]), at);
  }

  // Part of a list, zeros after it.
  method Part(a: array<nat>, start: nat, n: nat) returns (b: array<nat>)
    requires start + n <= a.Length && n <= 288
    ensures fresh(b) && b.Length == 288 && b[..n] == a[start..start + n]
  {
    b := new nat[288](_ => 0);
    for i := 0 to n
      invariant b[..i] == a[start..start + i]
    {
      b[i] := a[start + i];
    }
  }

  // The code sizes of a dynamic block.
  method ReadDynamic(r: Reader) returns (status: Status, lit: array<nat>, numLit: nat, dist: array<nat>, numDist: nat)
    requires r.Valid()
    modifies r`pos, r`bitBuf, r`numBits
    ensures r.Valid() && |r.Rest()| <= |old(r.Rest())| && Midway(status)
    ensures status == Fine ==> numLit <= lit.Length == 288 && numDist <= dist.Length == 288 && numDist <= 32
    ensures status == Fine ==> forall i :: 0 <= i < numLit ==> lit[i] <= MAX_BITS
    ensures status == Fine ==> forall i :: 0 <= i < numDist ==> dist[i] <= MAX_BITS
    ensures ReadHeader(old(r.Rest())).Got? ==>
      (status == Fine && ReadHeader(old(r.Rest())) == Got((Padded(lit[..numLit], 288), Padded(dist[..numDist], 32)), r.Rest()))
    ensures status == Fine && HeaderWhole(old(r.Rest())) && Accepts(Padded(lit[..numLit], 288)) && Accepts(Padded(dist[..numDist], 32))
      ==> ReadHeader(old(r.Rest())).Got?
  {
    hide ReadCounts, ReadListed, Accepts, Padded, ListWhole;
    var ok, numLens, lenCodes;
    ok, numLit, numDist, numLens := ReadHeaderCounts(r);
    if !ok {
      lit, dist := new nat[0], new nat[0];
      return NeedsMoreInput, lit, numLit, dist, numDist;
    }
    status, lenCodes := ReadList(r, numLit + numDist, numLens);
    if status != Fine {
      lit, dist := new nat[0], new nat[0];
      return;
    }
    lit := Part(lenCodes, 0, numLit);
    dist := Part(lenCodes, numLit, numDist);
    ghost var sizes := lenCodes[..numLit + numDist];
    assert lit[..numLit] == sizes[..numLit] && dist[..numDist] == sizes[numLit..];
    forall i | 0 <= i < numLit ensures lit[i] <= MAX_BITS {
      assert lit[..numLit][i] == lenCodes[i];
    }
    forall i | 0 <= i < numDist ensures dist[i] <= MAX_BITS {
      assert dist[..numDist][i] == lenCodes[numLit + i];
    }
  }
}
