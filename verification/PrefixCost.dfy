/** The weighted-length problem that Huffman's algorithm solves, stated on code lengths alone:
    lengths are usable by a prefix code exactly when they meet the Kraft inequality.
    The main lemma is the lower bound behind one merge of the two smallest weights. */
module PrefixCost {
  import opened Sums

  function KraftTerms(l: seq<nat>, m: nat): (r: seq<int>)
    requires forall i :: 0 <= i < |l| ==> l[i] <= m
    ensures |r| == |l|
  {
    seq(|l|, i requires 0 <= i < |l| => Pow2(m - l[i]))
  }

  // The Kraft sum in units of 2^-m.
  function KraftSum(l: seq<nat>, m: nat): int
    requires forall i :: 0 <= i < |l| ==> l[i] <= m
  {
    Sum(KraftTerms(l, m))
  }

  function CostTerms(w: seq<nat>, l: seq<nat>): (r: seq<int>)
    requires |w| == |l|
    ensures |r| == |l|
  {
    seq(|l|, i requires 0 <= i < |l| => w[i] * l[i])
  }

  // Total weighted length.
  function Cost(w: seq<nat>, l: seq<nat>): int
    requires |w| == |l|
  {
    Sum(CostTerms(w, l))
  }

  // A prefix code with these lengths exists (Kraft's inequality, lengths at most m).
  ghost predicate Realizable(l: seq<nat>, m: nat) {
    && (forall i :: 0 <= i < |l| ==> l[i] <= m)
    && KraftSum(l, m) <= Pow2(m)
  }

  ghost predicate LowerBound(w: seq<nat>, c: int) {
    forall l: seq<nat>, m: nat :: |l| == |w| && Realizable(l, m) ==> c <= Cost(w, l)
  }

  // The largest length, and a place where it occurs.
  function MaxIndex(l: seq<nat>): (k: nat)
    requires l != []
    ensures k < |l|
    ensures forall i :: 0 <= i < |l| ==> l[i] <= l[k]
  {
    if |l| == 1 then 0
    else
      var k := MaxIndex(l[..|l| - 1]);
      if l[|l| - 1] > l[k] then |l| - 1 else k
  }

  // The bound m can be lowered to the largest length in use.
  lemma {:induction false} Tighten(l: seq<nat>, m: nat, top: nat)
    requires Realizable(l, m)
    requires top <= m
    requires forall i :: 0 <= i < |l| ==> l[i] <= top
    ensures Realizable(l, top)
    decreases m
  {
    if top < m {
      SumOfDouble(KraftTerms(l, m), KraftTerms(l, m - 1));
      Tighten(l, m - 1, top);
    }
  }

  // Exchanging two lengths keeps the Kraft sum.
  lemma SwapKraft(l: seq<nat>, m: nat, i: nat, j: nat)
    requires Realizable(l, m) && i < |l| && j < |l| && i != j
    ensures Realizable(l[i := l[j]][j := l[i]], m)
  {
    var t := KraftTerms(l, m);
    var l' := l[i := l[j]][j := l[i]];
    SumUpdate(t, i, t[j]);
    SumUpdate(t[i := t[j]], j, t[i]);
    assert KraftTerms(l', m) == t[i := t[j]][j := t[i]];
  }

  lemma SumUpdateTwo(s: seq<int>, i: nat, j: nat, x: int, y: int)
    requires i < |s| && j < |s| && i != j
    ensures Sum(s[i := x][j := y]) == Sum(s) - s[i] - s[j] + x + y
  {
    SumUpdate(s, i, x);
    SumUpdate(s[i := x], j, y);
  }

  lemma Rearrangement(a: int, b: int, x: int, y: int)
    requires a <= b && x <= y
    ensures a * y + b * x <= a * x + b * y
  {
    assert (b - a) * (y - x) >= 0;
  }

  // Giving the longer length to the lighter weight does not cost more.
  lemma SwapCost(w: seq<nat>, l: seq<nat>, i: nat, j: nat)
    requires |w| == |l| && i < |l| && j < |l| && i != j
    requires w[i] <= w[j] && l[i] <= l[j]
    ensures Cost(w, l[i := l[j]][j := l[i]]) <= Cost(w, l)
  {
    var t := CostTerms(w, l);
    var l' := l[i := l[j]][j := l[i]];
    var x, y := w[i] * l[j], w[j] * l[i];
    SumUpdateTwo(t, i, j, x, y);
    Rearrangement(w[i], w[j], l[i], l[j]);
    assert CostTerms(w, l') == t[i := x][j := y];
  }

  // A single term 1 among even terms leaves room for one more, up to an even total.
  lemma RoomForOne(t: seq<int>, x: nat, total: int)
    requires x < |t| && t[x] == 1
    requires forall i :: 0 <= i < |t| && i != x ==> t[i] % 2 == 0
    requires Sum(t) <= total && total % 2 == 0
    ensures Sum(t[x := 2]) <= total
  {
    SumWithout(t, x);
    SumOfEven(Without(t, x));
    SumUpdate(t, x, 2);
  }

  lemma CostUpdate(w: seq<nat>, l: seq<nat>, x: nat, v: nat)
    requires |w| == |l| && x < |l|
    ensures Cost(w, l[x := v]) == Cost(w, l) - w[x] * l[x] + w[x] * v
  {
    var t := CostTerms(w, l);
    SumUpdate(t, x, w[x] * v);
    assert CostTerms(w, l[x := v]) == t[x := w[x] * v];
  }

  // A length that is longer than all the others can be shortened by one.
  lemma ShortenUnique(w: seq<nat>, l: seq<nat>, m: nat, x: nat)
    requires |w| == |l| >= 2 && x < |l| && Realizable(l, m)
    requires forall i :: 0 <= i < |l| && i != x ==> l[i] < l[x]
    ensures l[x] >= 1 && Realizable(l[x := l[x] - 1], l[x])
    ensures Cost(w, l[x := l[x] - 1]) <= Cost(w, l)
    ensures Sum(l[x := l[x] - 1]) < Sum(l)
  {
    hide Sum;
    var other := if x == 0 then 1 else 0;
    assert l[other] < l[x];
    var top := l[x];
    Tighten(l, m, top);
    var t := KraftTerms(l, top);
    RoomForOne(t, x, Pow2(top));
    assert KraftTerms(l[x := top - 1], top) == t[x := 2];
    CostUpdate(w, l, x, top - 1);
    assert w[x] * (top - 1) == w[x] * top - w[x];
    SumUpdate(l, x, top - 1);
  }

  ghost predicate TwoSmallest(w: seq<nat>, i: nat, j: nat) {
    && i < j < |w|
    && forall k :: 0 <= k < |w| && k != i && k != j ==> w[i] <= w[k] && w[j] <= w[k]
  }

  // Some cheapest assignment gives both of the two smallest weights the largest length.
  lemma {:induction false} Deepen(w: seq<nat>, l: seq<nat>, m: nat, i: nat, j: nat) returns (l': seq<nat>)
    requires |w| == |l| && TwoSmallest(w, i, j) && Realizable(l, m)
    ensures |l'| == |l| && Realizable(l', m)
    ensures Cost(w, l') <= Cost(w, l)
    ensures l'[i] == l'[j] && forall k :: 0 <= k < |l| ==> l'[k] <= l'[i]
    decreases Sum(l)
  {
    hide Sum, KraftSum, Cost;
    SumNonNegative(l);
    l' := l;
    var top := MaxIndex(l);
    if top != i && top != j {
      SwapKraft(l, m, i, top);
      SwapCost(w, l, i, top);
      l' := l[i := l[top]][top := l[i]];
      SumUpdate(l, i, l[top]);
      SumUpdate(l[i := l[top]], top, l[i]);
    }
    var x, y := if top == j then j else i, if top == j then i else j;
    assert forall k :: 0 <= k < |l| ==> l'[k] <= l'[x];
    if k :| 0 <= k < |l| && k != x && k != y && l'[k] == l'[x] {
      if l'[y] < l'[x] {
        SwapKraft(l', m, y, k);
        SwapCost(w, l', y, k);
        l' := l'[y := l'[k]][k := l'[y]];
      }
    } else if l'[y] < l'[x] {
      ShortenUnique(w, l', m, x);
      var shorter := l'[x := l'[x] - 1];
      Loosen(shorter, l'[x], m);
      l' := Deepen(w, shorter, m, i, j);
    }
  }

  // Raising the bound m keeps Kraft's inequality.
  lemma {:induction false} Loosen(l: seq<nat>, top: nat, m: nat)
    requires Realizable(l, top) && top <= m
    ensures Realizable(l, m)
    decreases m
  {
    if top < m {
      Loosen(l, top, m - 1);
      SumOfDouble(KraftTerms(l, m), KraftTerms(l, m - 1));
    }
  }

  // With two or more symbols no length is zero.
  lemma NoZeroLength(l: seq<nat>, m: nat, i: nat)
    requires Realizable(l, m) && |l| >= 2 && i < |l|
    ensures l[i] >= 1
  {
    if l[i] == 0 {
      var t := KraftTerms(l, m);
      SumWithout(t, i);
      SumAtLeastLength(Without(t, i));
    }
  }

  // The weights after merging positions i and j.
  function MergeAt(w: seq<nat>, i: nat, j: nat): (r: seq<nat>)
    requires i < j < |w|
  {
    Without(Without(w, j), i) + [w[i] + w[j]]
  }

  // The summands after replacing those at i and j by x.
  lemma SumMerge(s: seq<int>, i: nat, j: nat, x: int)
    requires i < j < |s|
    ensures Sum(Without(Without(s, j), i) + [x]) == Sum(s) - s[i] - s[j] + x
  {
    SumWithout(s, j);
    SumWithout(Without(s, j), i);
    SumAppend(Without(Without(s, j), i), x);
  }

  // The lengths after replacing two siblings by their parent.
  function ParentLengths(l: seq<nat>, i: nat, j: nat): (r: seq<nat>)
    requires i < j < |l| && l[i] >= 1
    ensures |r| == |l| - 1
  {
    Without(Without(l, j), i) + [l[i] - 1]
  }

  lemma MergeKraft(l: seq<nat>, m: nat, i: nat, j: nat)
    requires i < j < |l| && l[i] == l[j] >= 1 && Realizable(l, m)
    ensures Realizable(ParentLengths(l, i, j), m)
  {
    hide Sum;
    var t := KraftTerms(l, m);
    var x := Pow2(m - l[i] + 1);
    SumMerge(t, i, j, x);
    assert KraftTerms(ParentLengths(l, i, j), m) == Without(Without(t, j), i) + [x];
  }

  lemma MergeCost(w: seq<nat>, l: seq<nat>, i: nat, j: nat)
    requires |w| == |l| && i < j < |w| && l[i] == l[j] >= 1
    ensures Cost(MergeAt(w, i, j), ParentLengths(l, i, j)) == Cost(w, l) - w[i] - w[j]
  {
    hide Sum;
    var c := CostTerms(w, l);
    var x := (w[i] + w[j]) * (l[i] - 1);
    SumMerge(c, i, j, x);
    assert CostTerms(MergeAt(w, i, j), ParentLengths(l, i, j)) == Without(Without(c, j), i) + [x];
    assert x == w[i] * l[i] + w[j] * l[j] - w[i] - w[j];
  }

  // One merge: a lower bound for the merged weights, plus the merged weight, bounds the originals.
  lemma MergeLowerBound(w: seq<nat>, i: nat, j: nat, c: int)
    requires TwoSmallest(w, i, j)
    requires LowerBound(MergeAt(w, i, j), c)
    ensures LowerBound(w, c + w[i] + w[j])
  {
    forall l: seq<nat>, m: nat | |l| == |w| && Realizable(l, m) ensures c + w[i] + w[j] <= Cost(w, l) {
      var d := Deepen(w, l, m, i, j);
      NoZeroLength(d, m, i);
      MergeKraft(d, m, i, j);
      MergeCost(w, d, i, j);
      assert c <= Cost(MergeAt(w, i, j), ParentLengths(d, i, j));
    }
  }
}
