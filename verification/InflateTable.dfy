/** The decompressor's table builder, for canonical codes given by their sizes. */
module InflateTable {
  import opened Sums
  import opened Arith
  import opened Bits
  import opened Canonical
  import opened DecodeTable

  // The code words of a list of sizes; unused symbols have none.
  ghost function Words(sizes: seq<nat>): (w: seq<Path>)
    ensures |w| == |sizes|
  {
    seq(|sizes|, i requires 0 <= i < |sizes| => if 0 < sizes[i] <= MAX_BITS then CodeWord(sizes, MAX_BITS, i) else [])
  }

  lemma WordsAreCode(sizes: seq<nat>)
    requires Fits(sizes, MAX_BITS) && |sizes| <= MAX_SYMBOLS
    ensures PrefixCode(Words(sizes))
  {
    var w := Words(sizes);
    forall i, j | Used(w, i) && Used(w, j) && IsPrefix(w[i], w[j]) ensures i == j {
      if i != j {
        PrefixFree(sizes, MAX_BITS, i, j);
      }
    }
  }

  // ---------- the tree never overflows ----------

  // Room left at size l, summed over the sizes below m.
  ghost function RoomSum(c: seq<nat>, lo: nat, m: nat): int
    requires lo <= m <= |c|
  {
    if m == lo then 0 else RoomSum(c, lo, m - 1) + Pow2(m - 1) - Kraft(c, m - 1)
  }

  lemma {:induction false} RoomSumIs(c: seq<nat>, m: nat)
    requires m < |c|
    ensures RoomSum(c, 0, m) == Total(c, m) + Pow2(m) - Kraft(c, m) - 1
  {
    if m > 0 {
      RoomSumIs(c, m - 1);
    }
  }

  lemma {:induction false} RoomSumPart(c: seq<nat>, lo: nat, m: nat, top: nat)
    requires lo <= m <= top < |c| && Kraft(c, top) <= Pow2(top)
    ensures 0 <= RoomSum(c, lo, m) <= RoomSum(c, 0, m)
    decreases lo, m
  {
    if lo < m {
      RoomSumPart(c, lo, m - 1, top);
      KraftWithin(c, m - 1, top);
    } else if lo > 0 {
      RoomSumPart(c, 0, m, top);
    }
  }

  ghost predicate Spells(s: Path, l: nat, a: nat, b: nat) {
    exists c: nat :: a <= c < b && s == MsbBits(c, l)
  }

  // Strings of length l that spell numbers in [a, b).
  lemma {:induction false} BoundByRange(strings: set<Path>, l: nat, a: nat, b: nat)
    requires a <= b
    requires forall s :: s in strings ==> Spells(s, l, a, b)
    ensures |strings| <= b - a
    decreases b
  {
    if a == b {
      assert strings == {};
    } else {
      var b' := b - 1;
      var last := MsbBits(b', l);
      var rest := strings - {last};
      forall s | s in rest ensures Spells(s, l, a, b') {
        assert Spells(s, l, a, b);
      }
      BoundByRange(rest, l, a, b');
      SizeOfUnion(strings, rest, last);
    }
  }

  lemma SizeOfUnion(strings: set<Path>, rest: set<Path>, last: Path)
    requires rest == strings - {last}
    ensures |strings| <= |rest| + 1
  {
    if last in strings {
      assert strings == rest + {last};
    } else {
      assert strings == rest;
    }
  }

  // A tree node at depth l is one of the numbers that shorter codes have left free.
  lemma InnerNumber(sizes: seq<nat>, s: Path) returns (c: nat)
    requires Fits(sizes, MAX_BITS) && Inner(Words(sizes), s) && |s| < MAX_BITS
    ensures Kraft(Counts(sizes, MAX_BITS), |s|) <= c < Pow2(|s|) && s == MsbBits(c, |s|)
  {
    hide Fits, Kraft, Counts, Code, Pow2, MsbBits;
    var i :| Used(Words(sizes), i) && |s| < |Words(sizes)[i]| && IsPrefix(s, Words(sizes)[i]);
    CodeRange(sizes, MAX_BITS, i);
    LongerCodeBeyond(sizes, MAX_BITS, i, |s|);
    CutInRange(Code(sizes, MAX_BITS, i), sizes[i], |s|);
    MsbPrefix(Code(sizes, MAX_BITS, i), sizes[i], |s|);
    c := Code(sizes, MAX_BITS, i) / Pow2(sizes[i] - |s|);
  }

  lemma LevelBound(sizes: seq<nat>, strings: set<Path>, l: nat)
    requires Fits(sizes, MAX_BITS) && l < MAX_BITS
    requires forall s :: s in strings ==> |s| == l && Inner(Words(sizes), s)
    ensures |strings| <= Pow2(l) - Kraft(Counts(sizes, MAX_BITS), l)
  {
    var a := Kraft(Counts(sizes, MAX_BITS), l);
    KraftWithin(Counts(sizes, MAX_BITS), l, MAX_BITS);
    var b := Pow2(l);
    forall s | s in strings ensures Spells(s, l, a, b) {
      var c := InnerNumber(sizes, s);
    }
    BoundByRange(strings, l, a, b);
  }

  lemma SplitLevel(strings: set<Path>, l: nat) returns (level: set<Path>, rest: set<Path>)
    requires forall s :: s in strings ==> |s| <= l
    ensures forall s :: s in level ==> s in strings && |s| == l
    ensures forall s :: s in rest ==> s in strings && |s| < l
    ensures |strings| == |level| + |rest|
  {
    level := set s | s in strings && |s| == l;
    rest := strings - level;
    assert strings == rest + level;
  }

  lemma {:induction false} NodesBelow(sizes: seq<nat>, strings: set<Path>, m: nat)
    requires Fits(sizes, MAX_BITS) && FAST_BITS <= m <= MAX_BITS
    requires forall s :: s in strings ==> |s| < m && Inner(Words(sizes), s)
    ensures |strings| <= RoomSum(Counts(sizes, MAX_BITS), FAST_BITS, m)
    decreases m
  {
    if m == FAST_BITS {
      assert strings == {};
    } else {
      var level, rest := SplitLevel(strings, m - 1);
      LevelBound(sizes, level, m - 1);
      NodesBelow(sizes, rest, m - 1);
    }
  }

  // With one code only, each depth has at most one node.
  lemma {:induction false} FewNodes(sizes: seq<nat>, strings: set<Path>, m: nat)
    requires forall i, j :: Used(Words(sizes), i) && Used(Words(sizes), j) ==> i == j
    requires FAST_BITS <= m <= MAX_BITS
    requires forall s :: s in strings ==> |s| < m && Inner(Words(sizes), s)
    ensures |strings| <= m - FAST_BITS
    decreases m
  {
    if m == FAST_BITS {
      assert strings == {};
    } else {
      var level, rest := SplitLevel(strings, m - 1);
      FewNodes(sizes, rest, m - 1);
      if level != {} {
        var s :| s in level;
        forall t | t in level ensures t == s {
          var i :| Used(Words(sizes), i) && |s| < |Words(sizes)[i]| && IsPrefix(s, Words(sizes)[i]);
          var j :| Used(Words(sizes), j) && |t| < |Words(sizes)[j]| && IsPrefix(t, Words(sizes)[j]);
        }
        assert level == {s};
      }
    }
  }

  // Sizes the builder accepts: a complete code, or at most one code.
  ghost predicate Buildable(sizes: seq<nat>) {
    && |sizes| <= MAX_SYMBOLS
    && Fits(sizes, MAX_BITS)
    && (Complete(sizes, MAX_BITS) || forall i, j :: Used(Words(sizes), i) && Used(Words(sizes), j) ==> i == j)
  }

  // However many nodes are made on the way, they fit the tree.
  lemma TreeBound(sizes: seq<nat>, strings: set<Path>)
    requires Buildable(sizes)
    requires forall s :: s in strings ==> Inner(Words(sizes), s)
    ensures |strings| < MAX_SYMBOLS
  {
    var c := Counts(sizes, MAX_BITS);
    if Complete(sizes, MAX_BITS) {
      NodesBelow(sizes, strings, MAX_BITS);
      RoomSumPart(c, FAST_BITS, MAX_BITS, MAX_BITS);
      RoomSumIs(c, MAX_BITS);
      TotalAtMost(sizes, MAX_BITS);
    } else {
      FewNodes(sizes, strings, MAX_BITS);
    }
  }

  lemma {:induction false} TotalAtMost(sizes: seq<nat>, m: nat)
    ensures Total(Counts(sizes, m), m) <= |sizes|
  {
    if sizes == [] {
      TotalZero(Counts(sizes, m), m);
    } else {
      var k := |sizes| - 1;
      TotalAtMost(sizes[..k], m);
      TotalStep(Counts(sizes[..k], m), Counts(sizes, m), sizes[k], m);
    }
  }

  lemma {:induction false} TotalZero(c: seq<nat>, m: nat)
    requires m < |c| && forall i :: 0 <= i < |c| ==> c[i] == 0
    ensures Total(c, m) == 0
  {
    if m > 0 {
      TotalZero(c, m - 1);
    }
  }

  lemma {:induction false} TotalStep(c: seq<nat>, d: seq<nat>, v: nat, m: nat)
    requires m < |c| == |d|
    requires forall i :: 0 <= i < |c| ==> d[i] == c[i] + if i == v then 1 else 0
    ensures Total(d, m) == Total(c, m) + if 1 <= v <= m then 1 else 0
  {
    if m > 0 {
      TotalStep(c, d, v, m - 1);
    }
  }

  lemma BuildableFits(sizes: seq<nat>)
    requires Buildable(sizes)
    ensures NodesFit(Words(sizes))
  {
    forall strings: set<Path> | forall s :: s in strings ==> Inner(Words(sizes), s) ensures |strings| < MAX_SYMBOLS {
      TreeBound(sizes, strings);
    }
  }

  // ---------- every bit string decodes under a complete code ----------

  // The number that the first l bits spell, most significant first.
  function Number(bits: Path): (v: nat)
    ensures v < Pow2(|bits|)
  {
    if bits == [] then 0
    else 2 * Number(bits[..|bits| - 1]) + if bits[|bits| - 1] then 1 else 0
  }

  lemma {:induction false} BitsOfNumber(bits: Path)
    ensures MsbBits(Number(bits), |bits|) == bits
  {
    if bits != [] {
      BitsOfNumber(bits[..|bits| - 1]);
      assert Number(bits) / 2 == Number(bits[..|bits| - 1]);
    }
  }

  // Symbol of rank r among those of size l.
  lemma {:induction false} SymbolOfRank(sizes: seq<nat>, l: nat, r: nat) returns (i: nat)
    requires r < Occurrences(sizes, l)
    ensures i < |sizes| && sizes[i] == l && Occurrences(sizes[..i], l) == r
  {
    var k := |sizes| - 1;
    if r < Occurrences(sizes[..k], l) {
      i := SymbolOfRank(sizes[..k], l, r);
      assert sizes[..k][..i] == sizes[..i];
    } else {
      i := k;
    }
  }

  // Where the first l bits fall short of the room used at size l, some code word heads the bits.
  lemma {:induction false} SomeMatch(sizes: seq<nat>, bits: Path, l: nat) returns (i: nat)
    requires Fits(sizes, MAX_BITS) && l <= MAX_BITS <= |bits|
    requires Number(bits[..l]) < Kraft(Counts(sizes, MAX_BITS), l)
    ensures i < |sizes| && 0 < sizes[i] <= MAX_BITS && IsPrefix(CodeWord(sizes, MAX_BITS, i), bits)
    decreases l
  {
    var c := Counts(sizes, MAX_BITS);
    assert bits[..l][..l - 1] == bits[..l - 1];
    if Number(bits[..l - 1]) < Kraft(c, l - 1) {
      i := SomeMatch(sizes, bits, l - 1);
    } else {
      i := SymbolOfRank(sizes, l, Number(bits[..l]) - First(c, l));
      BitsOfNumber(bits[..l]);
    }
  }

  // A complete code has exactly one code word at the head of any fifteen bits, and the table finds it.
  lemma CompleteDecodes(sizes: seq<nat>, at: map<Path, int>, lookUp: seq<int>, tree: seq<int>, bits: Path) returns (i: int)
    requires Complete(sizes, MAX_BITS) && |sizes| <= MAX_SYMBOLS && |bits| >= MAX_BITS
    requires Table(Words(sizes), |sizes|, at, lookUp, tree)
    ensures Used(Words(sizes), i) && IsPrefix(Words(sizes)[i], bits)
    ensures forall j :: Used(Words(sizes), j) && IsPrefix(Words(sizes)[j], bits) ==> j == i
    ensures Decode(lookUp, tree, bits) == (i, sizes[i])
  {
    i := SomeMatch(sizes, bits, MAX_BITS);
    WordsAreCode(sizes);
    BuildableFits(sizes);
    forall j | Used(Words(sizes), j) && IsPrefix(Words(sizes)[j], bits) ensures j == i {
      OneMatch(Words(sizes), j, i, bits);
    }
    DecodeWord(Words(sizes), at, lookUp, tree, i, bits);
  }

  // ---------- the builder ----------

  // Codes counted by size.
  method CountCodeSizes(codeSize: array<nat>, tableSize: nat) returns (totalSyms: array<nat>)
    requires tableSize <= codeSize.Length
    requires forall i :: 0 <= i < tableSize ==> codeSize[i] <= MAX_BITS
    ensures fresh(totalSyms) && totalSyms[..] == Counts(codeSize[..tableSize], MAX_BITS)
  {
    totalSyms := new nat[MAX_BITS + 1](_ => 0);
    for i := 0 to tableSize
      invariant totalSyms[..] == Counts(codeSize[..i], MAX_BITS)
    {
      assert codeSize[..i + 1][..i] == codeSize[..i];
      totalSyms[codeSize[i]] := totalSyms[codeSize[i]] + 1;
    }
  }

  // The next code of each size once the first i symbols have theirs.
  ghost predicate NextCodes(next: seq<nat>, sizes: seq<nat>, i: nat)
    requires i <= |sizes|
  {
    && |next| == MAX_BITS + 2
    && forall l :: 1 <= l <= MAX_BITS ==>
      next[l] == First(Counts(sizes, MAX_BITS), l) + Occurrences(sizes[..i], l)
  }

  // First codes, the number of codes, and twice the Kraft sum.
  method Tally(totalSyms: array<nat>, ghost sizes: seq<nat>) returns (nextCode: array<nat>, usedSyms: nat, total: nat)
    requires totalSyms[..] == Counts(sizes, MAX_BITS)
    ensures fresh(nextCode) && NextCodes(nextCode[..], sizes, 0)
    ensures usedSyms == Total(Counts(sizes, MAX_BITS), MAX_BITS)
    ensures total == 2 * Kraft(Counts(sizes, MAX_BITS), MAX_BITS)
  {
    ghost var c := Counts(sizes, MAX_BITS);
    nextCode := new nat[MAX_BITS + 2](_ => 0);
    usedSyms, total := 0, 0;
    for i := 1 to MAX_BITS + 1
      invariant usedSyms == Total(c, i - 1)
      invariant total == 2 * Kraft(c, i - 1)
      invariant forall l :: 1 <= l <= i ==> nextCode[l] == First(c, l)
    {
      assert totalSyms[..][i] == c[i];
      usedSyms := usedSyms + totalSyms[i];
      total := (total + totalSyms[i]) * 2;
      nextCode[i + 1] := total;
    }
  }

  // What the builder accepts.
  ghost predicate Accepts(sizes: seq<nat>) {
    Complete(sizes, MAX_BITS) || Total(Counts(sizes, MAX_BITS), MAX_BITS) <= 1
  }

  lemma {:induction false} CountedOnce(sizes: seq<nat>, i: nat, l: nat)
    requires i < |sizes| && sizes[i] == l
    ensures Occurrences(sizes, l) >= 1
    ensures forall j :: 0 <= j < |sizes| && j != i && sizes[j] == l ==> Occurrences(sizes, l) >= 2
  {
    OccurrencesSplit(sizes, i, l);
    OccurrencesSplit(sizes[i..], 1, l);
    assert sizes[i..][..1] == [l];
    assert [l][..0] == [];
    forall j | 0 <= j < |sizes| && j != i && sizes[j] == l ensures Occurrences(sizes, l) >= 2 {
      if j < i {
        AtLeastOne(sizes[..i], j, l);
      } else {
        assert sizes[i..][1..][j - i - 1] == l;
        AtLeastOne(sizes[i..][1..], j - i - 1, l);
      }
    }
  }

  lemma {:induction false} AtLeastOne(sizes: seq<nat>, i: nat, l: nat)
    requires i < |sizes| && sizes[i] == l
    ensures Occurrences(sizes, l) >= 1
  {
    if i < |sizes| - 1 {
      AtLeastOne(sizes[..|sizes| - 1], i, l);
    }
  }

  lemma {:induction false} TotalCovers(c: seq<nat>, l: nat, k: nat, m: nat)
    requires 1 <= l <= k <= m < |c|
    ensures Total(c, m) >= c[l] + if k != l then c[k] else 0
    ensures Kraft(c, m) >= c[m]
  {
    if m > k {
      TotalCovers(c, l, k, m - 1);
    } else if k > l {
      TotalCovers(c, l, l, m - 1);
    }
  }

  // With a total of at most one, no two symbols have codes.
  lemma OneUsed(sizes: seq<nat>, i: int, j: int)
    requires Total(Counts(sizes, MAX_BITS), MAX_BITS) <= 1
    requires Used(Words(sizes), i) && Used(Words(sizes), j)
    ensures i == j
  {
    var l, k := sizes[i], sizes[j];
    CountedOnce(sizes, i, l);
    CountedOnce(sizes, j, k);
    if l <= k {
      TotalCovers(Counts(sizes, MAX_BITS), l, k, MAX_BITS);
    } else {
      TotalCovers(Counts(sizes, MAX_BITS), k, l, MAX_BITS);
    }
  }

  lemma {:induction false} FewFit(c: seq<nat>, m: nat)
    requires m < |c| && Total(c, m) <= 1
    ensures Kraft(c, m) <= if Total(c, m) == 0 then 0 else Pow2(m)
  {
    if m > 0 {
      FewFit(c, m - 1);
    }
  }

  lemma AcceptedIsBuildable(sizes: seq<nat>)
    requires Accepts(sizes) && |sizes| <= MAX_SYMBOLS
    requires forall i :: 0 <= i < |sizes| ==> sizes[i] <= MAX_BITS
    ensures Buildable(sizes)
  {
    if !Complete(sizes, MAX_BITS) {
      FewFit(Counts(sizes, MAX_BITS), MAX_BITS);
      forall i, j | Used(Words(sizes), i) && Used(Words(sizes), j) ensures i == j {
        OneUsed(sizes, i, j);
      }
    }
  }

  // An empty table.
  lemma EmptyTable(words: seq<Path>, lookUp: seq<int>, tree: seq<int>)
    requires |lookUp| == FAST_SIZE && |tree| == TREE_SIZE
    requires forall i :: 0 <= i < |lookUp| ==> lookUp[i] == 0
    requires forall i :: 0 <= i < |tree| ==> tree[i] == 0
    ensures Table(words, 0, map[], lookUp, tree)
  {}

  // A symbol without a code changes nothing.
  lemma SkipUnused(words: seq<Path>, k: nat, at: map<Path, int>, lookUp: seq<int>, tree: seq<int>)
    requires Table(words, k, at, lookUp, tree) && !Used(words, k)
    ensures Table(words, k + 1, at, lookUp, tree)
  {
    hide LsbBits, Nodes, Closed, Blank;
    forall r | 0 <= r < FAST_SIZE ensures LookOk(words, k + 1, at, LsbBits(r, FAST_BITS), lookUp[r]) {
      assert LookOk(words, k, at, LsbBits(r, FAST_BITS), lookUp[r]);
    }
    forall s, b | s in at && 0 <= Slot(at[s], b) < TREE_SIZE ensures SlotOk(words, k + 1, at, s + [b], tree[Slot(at[s], b)]) {
      assert SlotOk(words, k, at, s + [b], tree[Slot(at[s], b)]);
    }
  }

  // Enters one symbol.
  method EnterSymbol(codeSize: array<nat>, lookUp: array<int>, tree: array<int>, nextCode: array<nat>,
                     sym: nat, treeNext: int, ghost sizes: seq<nat>, ghost at: map<Path, int>)
    returns (treeNext': int, ghost at': map<Path, int>)
    requires lookUp != tree && sym < |sizes| <= codeSize.Length && codeSize[sym] == sizes[sym]
    requires lookUp.Length == FAST_SIZE && tree.Length == TREE_SIZE
    requires Fits(sizes, MAX_BITS) && NextCodes(nextCode[..], sizes, sym)
    requires Building(Words(sizes), sym, at, lookUp[..], tree[..], treeNext)
    modifies lookUp, tree, nextCode
    ensures NextCodes(nextCode[..], sizes, sym + 1)
    ensures Building(Words(sizes), sym + 1, at', lookUp[..], tree[..], treeNext')
  {
    hide LookUps, Slots, Nodes, PathsMade, Closed, Blank, NodesFit, PrefixCode;
    assert sizes[..sym + 1][..sym] == sizes[..sym];
    treeNext', at' := treeNext, at;
    var size := codeSize[sym];
    if size == 0 {
      SkipUnused(Words(sizes), sym, at, lookUp[..], tree[..]);
      return;
    }
    CodeRange(sizes, MAX_BITS, sym);
    var code := nextCode[size];
    nextCode[size] := nextCode[size] + 1;
    var rev := ReverseBits(code, size);
    if size <= FAST_BITS {
      EnterShort(lookUp, sym, rev, size, Words(sizes), at, tree[..], treeNext);
    } else {
      treeNext', at' := InsertLong(lookUp, tree, sym, rev, size, treeNext, Words(sizes), at);
    }
  }

  // A short code leaves the tree as it is.
  method EnterShort(lookUp: array<int>, sym: nat, rev: nat, size: nat,
                    ghost words: seq<Path>, ghost at: map<Path, int>, ghost tree: seq<int>, ghost treeNext: int)
    requires lookUp.Length == FAST_SIZE && 0 < size <= FAST_BITS
    requires Building(words, sym, at, lookUp[..], tree, treeNext)
    requires Used(words, sym) && |words[sym]| == size && rev < Pow2(size) && LsbBits(rev, size) == words[sym]
    modifies lookUp
    ensures Building(words, sym + 1, at, lookUp[..], tree, treeNext)
  {
    hide LookUps, Nodes, Closed, Blank, NodesFit, PrefixCode;
    InsertShort(lookUp, sym, rev, size, words, at);
    ShortKeepsTree(words, sym, at, tree);
  }

  lemma ShortKeepsTree(words: seq<Path>, k: nat, at: map<Path, int>, tree: seq<int>)
    requires Slots(words, k, at, tree) && PathsMade(words, k, at) && Used(words, k) && |words[k]| <= FAST_BITS
    ensures Slots(words, k + 1, at, tree) && PathsMade(words, k + 1, at)
  {
    forall s, b | s in at && 0 <= Slot(at[s], b) < TREE_SIZE ensures SlotOk(words, k + 1, at, s + [b], tree[Slot(at[s], b)]) {
      assert SlotOk(words, k, at, s + [b], tree[Slot(at[s], b)]);
    }
  }

  // Builds the table of one code, or reports that the sizes do not make one.
  method BuildTable(codeSize: array<nat>, tableSize: nat, lookUp: array<int>, tree: array<int>)
    returns (ok: bool, ghost at: map<Path, int>)
    requires lookUp != tree && tableSize <= codeSize.Length && tableSize <= MAX_SYMBOLS
    requires lookUp.Length == FAST_SIZE && tree.Length == TREE_SIZE
    requires forall i :: 0 <= i < tableSize ==> codeSize[i] <= MAX_BITS
    modifies lookUp, tree
    ensures ok <==> Accepts(codeSize[..tableSize])
    ensures ok ==> Table(Words(codeSize[..tableSize]), tableSize, at, lookUp[..], tree[..])
  {
    hide LookUps, Slots, Nodes, PathsMade, Closed, Blank, NodesFit, PrefixCode;
    ghost var sizes := codeSize[..tableSize];
    at := map[];
    forall i | 0 <= i < FAST_SIZE {
      lookUp[i] := 0;
    }
    forall i | 0 <= i < TREE_SIZE {
      tree[i] := 0;
    }
    assert codeSize[..tableSize] == sizes;
    var totalSyms := CountCodeSizes(codeSize, tableSize);
    var nextCode, usedSyms, total := Tally(totalSyms, sizes);
    Pow2Table();
    if total != 65536 && usedSyms > 1 {
      return false, at;
    }
    AcceptedIsBuildable(sizes);
    WordsAreCode(sizes);
    BuildableFits(sizes);
    EmptyTable(Words(sizes), lookUp[..], tree[..]);
    var treeNext := -1;
    for sym := 0 to tableSize
      invariant codeSize[..tableSize] == sizes
      invariant NextCodes(nextCode[..], sizes, sym)
      invariant Building(Words(sizes), sym, at, lookUp[..], tree[..], treeNext)
    {
      treeNext, at := EnterSymbol(codeSize, lookUp, tree, nextCode, sym, treeNext, sizes, at);
    }
    ok := true;
  }
}
