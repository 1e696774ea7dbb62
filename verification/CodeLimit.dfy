/** Limiting code lengths: counts of codes per length that fill the code space exactly are changed
    until no length exceeds the limit, keeping the number of codes and the exact fill. */
module CodeLimit {
  import opened Sums
  import opened Canonical

  const MAX_SUPPORTED_HUFF_CODESIZE := 32

  // Free room at size m of a code that is filled at some larger size.
  lemma {:induction false} RoomForLonger(c: seq<nat>, m: nat, top: nat)
    requires m <= top < |c| && Kraft(c, top) == Pow2(top)
    ensures Kraft(c, m) <= Pow2(m)
    ensures Pow2(m) - Kraft(c, m) <= Total(c, top) - Total(c, m)
    ensures Pow2(m) == Kraft(c, m) ==> Total(c, top) == Total(c, m)
    decreases top - m
  {
    if m < top {
      RoomForLonger(c, m + 1, top);
    }
  }

  // With all codes at size m, the Kraft sum is the number of codes.
  lemma {:induction false} OnlyLongest(c: seq<nat>, m: nat)
    requires 1 <= m < |c|
    requires forall i :: 1 <= i < m ==> c[i] == 0
    ensures Kraft(c, m) == Total(c, m) == c[m]
  {
    if m > 1 {
      OnlyLongest(c, m - 1);
    }
  }

  lemma {:induction false} TotalsAgree(c: seq<nat>, d: seq<nat>, m: nat)
    requires m < |c| && m < |d|
    requires forall i :: 1 <= i <= m ==> c[i] == d[i]
    ensures Total(c, m) == Total(d, m) && Kraft(c, m) == Kraft(d, m)
  {
    if m > 0 {
      TotalsAgree(c, d, m - 1);
    }
  }

  // Moving one code from size i one level down, as a parent of two codes.
  lemma SplitOne(c: seq<nat>, i: nat, m: nat)
    requires 1 <= i < m < |c| && c[i] > 0
    ensures var d := c[i := c[i] - 1][i + 1 := c[i + 1] + 2];
      Kraft(d, m) == Kraft(c, m) && Total(d, m) == Total(c, m) + 1
  {
    var d := c[i := c[i] - 1];
    KraftUpdate(c, i, c[i] - 1, m);
    KraftUpdate(d, i + 1, c[i + 1] + 2, m);
    TotalUpdate(c, i, c[i] - 1, m);
    TotalUpdate(d, i + 1, c[i + 1] + 2, m);
    assert Pow2(m - i) == 2 * Pow2(m - (i + 1));
  }

  // The counts after the codes longer than m have been cut to length m.
  ghost predicate Folded(c: seq<nat>, num: seq<nat>, m: nat)
    requires 1 <= m < |c|
  {
    && |num| == |c|
    && (forall i :: 1 <= i < |c| && i != m ==> num[i] == c[i])
    && num[m] == Total(c, |c| - 1) - Total(c, m - 1)
  }

  lemma FoldedTotals(c: seq<nat>, num: seq<nat>, m: nat)
    requires 1 <= m < |c| && Folded(c, num, m) && Kraft(c, |c| - 1) == Pow2(|c| - 1)
    ensures Total(num, m) == Total(c, |c| - 1)
    ensures Kraft(num, m) >= Pow2(m)
    ensures Kraft(num, m) > Pow2(m) ==> num[m] > Kraft(num, m) - Pow2(m)
  {
    TotalsAgree(c, num, m - 1);
    RoomForLonger(c, m - 1, |c| - 1);
    RoomForLonger(c, m, |c| - 1);
  }

  // One code of size m is given up, and one of size i, the greatest below m in use, split in two.
  ghost predicate Split(c: seq<nat>, num: seq<nat>, i: nat, m: nat) {
    && 1 <= i < m < |c| && c[m] > 0 && c[i] > 0
    && (forall k :: i < k < m ==> c[k] == 0)
    && var d := c[m := c[m] - 1][i := c[i] - 1]; num == d[i + 1 := d[i + 1] + 2]
  }

  // k such steps, one after the other.
  ghost predicate Splits(c: seq<nat>, num: seq<nat>, m: nat, k: nat)
    decreases k
  {
    if k == 0 then num == c else exists mid, i :: Splits(c, mid, m, k - 1) && Split(mid, num, i, m)
  }

  // The codes longer than m cut to m, and split steps until they fill the code space.
  ghost predicate Shortened(c: seq<nat>, num: seq<nat>, m: nat) {
    1 <= m < |c| && exists folded, k :: ShortenedBy(c, folded, num, m, k)
  }

  ghost predicate ShortenedBy(c: seq<nat>, folded: seq<nat>, num: seq<nat>, m: nat, k: nat)
    requires 1 <= m < |c|
  {
    Folded(c, folded, m) && folded[0] == c[0] && Splits(folded, num, m, k) && Kraft(folded, m) == Pow2(m) + k
  }

  // Gives up the slot of one longest code and makes room for it higher up.
  method ShortenOne(num: array<nat>, m: nat, ghost total: nat) returns (ghost at: nat)
    requires 1 <= m < num.Length && num[m] >= 1
    requires Kraft(num[..], m) == total && total > Pow2(m) >= Total(num[..], m)
    modifies num
    ensures Kraft(num[..], m) == total - 1
    ensures Total(num[..], m) == old(Total(num[..], m))
    ensures num[m] >= old(num[m]) - 1
    ensures Split(old(num[..]), num[..], at, m)
  {
    ghost var c := num[..];
    num[m] := num[m] - 1;
    KraftUpdate(c, m, c[m] - 1, m);
    TotalUpdate(c, m, c[m] - 1, m);
    assert num[..] == c[m := c[m] - 1];
    var i := m - 1;
    while i > 0
      invariant 0 <= i < m
      invariant num[..] == c[m := c[m] - 1]
      invariant forall k :: i < k < m ==> num[k] == 0
      decreases i
    {
      if num[i] != 0 {
        ghost var d := num[..];
        SplitOne(d, i, m);
        assert forall k :: i < k < m ==> d[k] == c[k];
        num[i] := num[i] - 1;
        num[i + 1] := num[i + 1] + 2;
        assert num[..] == d[i := d[i] - 1][i + 1 := d[i + 1] + 2];
        return i;
      }
      i := i - 1;
    }
    forall k | 1 <= k < m ensures c[k] == 0 {
      assert num[k] == 0;
    }
    OnlyLongest(c, m);
    assert false;
  }

  // ---------- how far up the splitting reaches ----------

  // What the codes up to size i leave free at that size.
  function Free(c: seq<nat>, i: nat): int
    requires i < |c|
  {
    Pow2(i) - Kraft(c, i)
  }

  // The least size i that has been split, s times; what was free there and at most s - 1 of the slots
  // split are too small for the n codes. No size has been split while i is m.
  ghost predicate Lowest(c: seq<nat>, num: seq<nat>, m: nat, i: nat, s: nat, n: nat) {
    && i <= m < |c| == |num|
    && (forall l :: 1 <= l < i ==> num[l] == c[l])
    && (i < m ==>
      && 1 <= i && 1 <= s <= c[i] && num[i] == c[i] - s
      && (Free(c, i) + (s - 1)) * Pow2(m - i) < n)
  }

  lemma {:induction false} ZerosDouble(c: seq<nat>, i: nat, k: nat)
    requires i <= k < |c| && forall l :: i < l <= k ==> c[l] == 0
    ensures Kraft(c, k) == Kraft(c, i) * Pow2(k - i)
  {
    if i < k {
      ZerosDouble(c, i, k - 1);
      assert Pow2(k - i) == 2 * Pow2(k - 1 - i);
      TwiceProduct(Kraft(c, i), Pow2(k - 1 - i));
    } else {
      assert Pow2(0) == 1;
    }
  }

  lemma TwiceProduct(a: int, b: int)
    ensures a * (2 * b) == 2 * (a * b)
  {}

  lemma LessProduct(a: int, b: int, p: int)
    ensures (a - b) * p == a * p - b * p
  {}

  // Too many codes at size m with none between i and m: they do not fit under what is free at i.
  lemma Crowded(num: seq<nat>, i: nat, m: nat)
    requires 1 <= i < m < |num| && (forall k :: i < k < m ==> num[k] == 0) && Kraft(num, m) > Pow2(m)
    ensures Free(num, i) * Pow2(m - i) < Total(num, m)
  {
    ZerosDouble(num, i, m - 1);
    assert Pow2(m - i) == 2 * Pow2(m - 1 - i);
    TwiceProduct(Kraft(num, i), Pow2(m - 1 - i));
    Pow2Add(i, m - i);
    LessProduct(Pow2(i), Kraft(num, i), Pow2(m - i));
    assert Total(num, m) >= num[m];
  }

  lemma FreeAfter(c: seq<nat>, num: seq<nat>, i: nat, s: nat)
    requires 1 <= i < |c| == |num| && s <= c[i] && num[i] == c[i] - s && forall l :: 1 <= l < i ==> num[l] == c[l]
    ensures Free(num, i) == Free(c, i) + s
  {
    TotalsAgree(c, num, i - 1);
  }

  lemma LowestStep(c: seq<nat>, num: seq<nat>, num': seq<nat>, m: nat, i: nat, s: nat, n: nat, at: nat)
    requires Lowest(c, num, m, i, s, n) && Split(num, num', at, m)
    requires Kraft(num, m) > Pow2(m) && Total(num, m) == n
    ensures Lowest(c, num', m, if at < i then at else i, if at < i then 1 else if at == i then s + 1 else s, n)
  {
    hide Kraft, Total, Pow2, Free;
    Crowded(num, at, m);
    if at <= i {
      FreeAfter(c, num, at, if at < i then 0 else s);
    }
  }

  method EnforceMaxCodeSize(numCodes: array<nat>, codeListLen: nat, maxCodeSize: nat)
    returns (ghost lowest: nat, ghost split: nat)
    requires numCodes.Length == MAX_SUPPORTED_HUFF_CODESIZE + 1
    requires 1 <= maxCodeSize < MAX_SUPPORTED_HUFF_CODESIZE
    requires codeListLen == Total(numCodes[..], MAX_SUPPORTED_HUFF_CODESIZE) <= Pow2(maxCodeSize)
    requires codeListLen >= 2 ==> Kraft(numCodes[..], MAX_SUPPORTED_HUFF_CODESIZE) == Pow2(MAX_SUPPORTED_HUFF_CODESIZE)
    modifies numCodes
    ensures codeListLen <= 1 ==> numCodes[..] == old(numCodes[..])
    ensures codeListLen >= 2 ==> Total(numCodes[..], maxCodeSize) == codeListLen
    ensures codeListLen >= 2 ==> Kraft(numCodes[..], maxCodeSize) == Pow2(maxCodeSize)
    ensures codeListLen >= 2 && (forall i :: maxCodeSize < i < numCodes.Length ==> old(numCodes[i]) == 0)
        ==> numCodes[..] == old(numCodes[..])
    ensures codeListLen >= 2 && numCodes[maxCodeSize] == 0 ==> forall i :: maxCodeSize < i < numCodes.Length ==> old(numCodes[i]) == 0
    ensures codeListLen >= 2 ==> Lowest(old(numCodes[..]), numCodes[..], maxCodeSize, lowest, split, codeListLen)
    ensures codeListLen >= 2 && lowest < maxCodeSize ==> Free(old(numCodes[..]), lowest) >= 1
    ensures codeListLen >= 2 && lowest == maxCodeSize ==> forall i :: maxCodeSize < i < numCodes.Length ==> old(numCodes[i]) == 0
    ensures codeListLen >= 2 ==> Shortened(old(numCodes[..]), numCodes[..], maxCodeSize)
  {
    hide Folded, Kraft, Total, Pow2, Free, Split;
    lowest, split := maxCodeSize, 0;
    if codeListLen <= 1 {
      return;
    }
    ghost var c := numCodes[..];
    FoldLonger(numCodes, maxCodeSize);
    ghost var folded := numCodes[..];
    FoldedTotals(c, folded, maxCodeSize);
    StartsLowest(c, folded, maxCodeSize, codeListLen);
    var total := KraftTotal(numCodes, maxCodeSize);
    if forall k :: maxCodeSize < k < |c| ==> c[k] == 0 {
      NothingLonger(c, maxCodeSize);
    }
    ghost var steps: nat := 0;
    while total != Pow2(maxCodeSize)
      invariant total >= Pow2(maxCodeSize)
      invariant Kraft(numCodes[..], maxCodeSize) == total
      invariant Total(numCodes[..], maxCodeSize) == codeListLen
      invariant Kraft(folded, maxCodeSize) > Pow2(maxCodeSize) ==> numCodes[maxCodeSize] > total - Pow2(maxCodeSize)
      invariant Kraft(folded, maxCodeSize) == Pow2(maxCodeSize) ==> numCodes[..] == folded && total == Pow2(maxCodeSize)
      invariant Lowest(c, numCodes[..], maxCodeSize, lowest, split, codeListLen)
      invariant lowest == maxCodeSize ==> total == Kraft(folded, maxCodeSize)
      invariant lowest <= maxCodeSize && total + steps == Kraft(folded, maxCodeSize) && Splits(folded, numCodes[..], maxCodeSize, steps)
      decreases total
    {
      ghost var before := numCodes[..];
      ghost var at := ShortenOne(numCodes, maxCodeSize, total);
      LowestStep(c, before, numCodes[..], maxCodeSize, lowest, split, codeListLen, at);
      assert at < maxCodeSize by { SplitBelow(before, numCodes[..], at, maxCodeSize); }
      lowest, split := if at < lowest then at else lowest, if at < lowest then 1 else if at == lowest then split + 1 else split;
      total := total - 1;
      assert Split(before, numCodes[..], at, maxCodeSize);
      steps := steps + 1;
    }
    assert ShortenedBy(c, folded, numCodes[..], maxCodeSize, steps);
    if numCodes[maxCodeSize] == 0 {
      NoneFolded(c, folded, maxCodeSize);
    }
    LowestMeans(c, folded, maxCodeSize, lowest);
  }

  lemma SplitBelow(c: seq<nat>, num: seq<nat>, i: nat, m: nat)
    requires Split(c, num, i, m)
    ensures 1 <= i < m
  {}

  lemma StartsLowest(c: seq<nat>, folded: seq<nat>, m: nat, n: nat)
    requires 1 <= m < |c| && Folded(c, folded, m)
    ensures Lowest(c, folded, m, m, 0, n)
  {}

  // Something was longer than the limit just when a size was split, and then there was room free there.
  lemma LowestMeans(c: seq<nat>, folded: seq<nat>, m: nat, lowest: nat)
    requires 1 <= m < |c| && Folded(c, folded, m) && Kraft(c, |c| - 1) == Pow2(|c| - 1) && 1 <= lowest <= m
    ensures Kraft(folded, m) == Pow2(m) ==> forall i :: m < i < |c| ==> c[i] == 0
    ensures Kraft(folded, m) > Pow2(m) ==> Free(c, lowest) >= 1
  {
    var longer := Total(c, |c| - 1) - Total(c, m);
    TotalsAgree(c, folded, m - 1);
    assert Kraft(folded, m) == Kraft(c, m) + longer;
    if m < |c| - 1 {
      HalfRoom(c, m, |c| - 1);
    }
    TotalGrows(c, m, |c| - 1);
    if longer == 0 {
      forall i | m < i < |c| ensures c[i] == 0 {
        TotalGrows(c, m, i - 1);
        TotalGrows(c, i, |c| - 1);
      }
    }
    RoomForLonger(c, m, |c| - 1);
    RoomForLonger(c, lowest, |c| - 1);
    TotalGrows(c, lowest, m);
  }

  // The codes longer than m are at least twice as many as there is room for at size m.
  lemma HalfRoom(c: seq<nat>, m: nat, top: nat)
    requires m < top < |c| && Kraft(c, top) == Pow2(top)
    ensures 2 * (Pow2(m) - Kraft(c, m)) <= Total(c, top) - Total(c, m)
  {
    RoomForLonger(c, m + 1, top);
  }

  // Nothing was as long as the limit or longer.
  lemma NoneFolded(c: seq<nat>, num: seq<nat>, m: nat)
    requires 1 <= m < |c| && Folded(c, num, m) && num[m] == 0
    ensures forall i :: m < i < |c| ==> c[i] == 0
  {
    forall i | m < i < |c| ensures c[i] == 0 {
      TotalGrows(c, m - 1, i - 1);
      TotalGrows(c, i, |c| - 1);
    }
  }

  lemma {:induction false} TotalGrows(c: seq<nat>, i: nat, m: nat)
    requires i <= m < |c|
    ensures Total(c, i) <= Total(c, m)
  {
    if i < m {
      TotalGrows(c, i, m - 1);
    }
  }

  // Codes longer than m are counted as codes of length m.
  method FoldLonger(numCodes: array<nat>, m: nat)
    requires 1 <= m < numCodes.Length
    modifies numCodes
    ensures Folded(old(numCodes[..]), numCodes[..], m)
    ensures numCodes[0] == old(numCodes[0])
    ensures (forall k :: m < k < numCodes.Length ==> old(numCodes[k]) == 0) ==> numCodes[..] == old(numCodes[..])
  {
    ghost var c := numCodes[..];
    var i := m + 1;
    while i < numCodes.Length
      invariant m < i <= numCodes.Length
      invariant numCodes[m] == Total(c, i - 1) - Total(c, m - 1)
      invariant forall k :: 0 <= k < |c| && k != m ==> numCodes[k] == c[k]
      invariant (forall k :: m < k < |c| ==> c[k] == 0) ==> numCodes[m] == c[m]
    {
      numCodes[m] := numCodes[m] + numCodes[i];
      i := i + 1;
    }
  }

  lemma {:induction false} NothingLonger(c: seq<nat>, m: nat)
    requires 1 <= m < |c| && Kraft(c, |c| - 1) == Pow2(|c| - 1)
    requires forall k :: m < k < |c| ==> c[k] == 0
    ensures Kraft(c, m) == Pow2(m)
    decreases |c|
  {
    RoomForLonger(c, m, |c| - 1);
    FlatTail(c, m, |c| - 1);
  }

  lemma {:induction false} FlatTail(c: seq<nat>, m: nat, top: nat)
    requires m <= top < |c|
    requires forall k :: m < k <= top ==> c[k] == 0
    ensures Total(c, top) == Total(c, m)
  {
    if m < top {
      FlatTail(c, m, top - 1);
    }
  }

  // The Kraft sum, accumulated from the longest size down.
  method KraftTotal(numCodes: array<nat>, m: nat) returns (total: nat)
    requires 1 <= m < numCodes.Length
    ensures total == Kraft(numCodes[..], m)
  {
    total := 0;
    ghost var c := numCodes[..];
    var i := m;
    assert Kraft(c, m) * Pow2(0) == Kraft(c, m);
    while i > 0
      invariant 0 <= i <= m
      invariant total + Kraft(c, i) * Pow2(m - i) == Kraft(c, m)
    {
      assert Kraft(c, i) * Pow2(m - i) == Kraft(c, i - 1) * Pow2(m - i + 1) + c[i] * Pow2(m - i) by {
        Distribute(Kraft(c, i - 1), c[i], Pow2(m - i));
      }
      total := total + numCodes[i] * Pow2(m - i);
      i := i - 1;
    }
  }

  lemma Distribute(k: nat, c: nat, p: nat)
    ensures (2 * k + c) * p == k * (2 * p) + c * p
  {}
}
