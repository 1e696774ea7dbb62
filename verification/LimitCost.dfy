/** What limiting the code lengths to 15 bits costs: at most one bit for each symbol coded, and a fifth of
    one where there are at most 32 symbols. Splitting reaches up only to a size at which few slots are
    left, and whatever lies at that depth in the tree weighs little. */
module LimitCost {
  import opened Arith
  import opened Sums
  import opened PrefixCost
  import opened MergeTrace
  import opened CodeLimit
  import opened DeepWeights
  import opened C = Canonical

  ghost predicate Descending(x: seq<nat>) {
    forall i, j :: 0 <= i <= j < |x| ==> x[i] >= x[j] >= 1
  }

  // ---------- places and counts ----------

  // How many numbers are at most l.
  function Upto(x: seq<nat>, l: nat): (n: nat)
    ensures n <= |x|
  {
    if x == [] then 0 else Upto(x[..|x| - 1], l) + if x[|x| - 1] <= l then 1 else 0
  }

  lemma {:induction false} UptoNext(x: seq<nat>, l: nat)
    requires l >= 1
    ensures Upto(x, l) == Upto(x, l - 1) + Occurrences(x, l)
  {
    if x != [] {
      UptoNext(x[..|x| - 1], l);
    }
  }

  lemma {:induction false} UptoZero(x: seq<nat>)
    requires forall i :: 0 <= i < |x| ==> x[i] >= 1
    ensures Upto(x, 0) == 0
  {
    if x != [] {
      UptoZero(x[..|x| - 1]);
    }
  }

  lemma {:induction false} TotalIsUpto(x: seq<nat>, c: seq<nat>, l: nat)
    requires l < |c| && (forall i :: 0 <= i < |x| ==> x[i] >= 1) && forall k :: 1 <= k <= l ==> c[k] == Occurrences(x, k)
    ensures Total(c, l) == Upto(x, l)
  {
    if l == 0 {
      UptoZero(x);
    } else {
      TotalIsUpto(x, c, l - 1);
      UptoNext(x, l);
    }
  }

  lemma {:induction false} NoneUpto(x: seq<nat>, l: nat)
    requires forall i :: 0 <= i < |x| ==> x[i] > l
    ensures Upto(x, l) == 0
  {
    if x != [] {
      NoneUpto(x[..|x| - 1], l);
    }
  }

  // Where a number stands in a descending list tells whether it is greater than l.
  lemma {:induction false} AboveIff(x: seq<nat>, l: nat, p: nat)
    requires Descending(x) && p < |x|
    ensures x[p] > l <==> p < |x| - Upto(x, l)
  {
    var k := |x| - 1;
    if x[k] > l {
      NoneUpto(x, l);
    } else if p < k {
      AboveIff(x[..k], l, p);
    }
  }

  // What stands for the two lists of lengths: those of the tree, and those within the limit.
  ghost predicate Lists(e: seq<nat>, g: seq<nat>, num: seq<nat>, i: nat, s: nat) {
    && |e| == |g| && |num| == 33 && i <= 15 && Descending(e) && Descending(g)
    && (forall p :: 0 <= p < |g| ==> g[p] <= 15)
    && (forall l :: 1 <= l <= 15 ==> Occurrences(g, l) == num[l])
    && Lowest(Counts(e, 32), num, 15, i, s, |e|)
  }

  lemma BothUpto(e: seq<nat>, g: seq<nat>, num: seq<nat>, i: nat, s: nat, l: nat)
    requires Lists(e, g, num, i, s) && l <= 15
    ensures Total(Counts(e, 32), l) == Upto(e, l) && Total(num, l) == Upto(g, l)
  {
    TotalIsUpto(e, Counts(e, 32), l);
    TotalIsUpto(g, num, l);
  }

  // Up to the size that was split the two lists agree.
  lemma SameUpto(e: seq<nat>, g: seq<nat>, num: seq<nat>, i: nat, s: nat, l: nat)
    requires Lists(e, g, num, i, s) && l <= i && l < 15
    ensures Upto(g, l) == Upto(e, l) - if l == i then s else 0
  {
    BothUpto(e, g, num, i, s, l);
    var c := Counts(e, 32);
    if l < i {
      TotalsAgree(c, num, l);
    } else if l >= 1 {
      TotalsAgree(c, num, l - 1);
    }
  }

  // Only the symbols below the size that was split, and those taken from it, can have become longer.
  lemma LongerBy(e: seq<nat>, g: seq<nat>, num: seq<nat>, i: nat, s: nat, p: nat)
    requires Lists(e, g, num, i, s) && p < |e|
    ensures g[p] <= e[p] + if i < 15 && p < |e| - Upto(e, i) + s then 15 - i else 0
  {
    hide Lists, Occurrences, Upto, Lowest;
    ListFacts(e, g, num, i, s, p);
    if i < 15 && p < |e| - Upto(e, i) + s {
      UptoAt(e, g, num, i, s);
      AboveIff(e, i - 1, p);
    } else if e[p] < 15 {
      AboveIff(e, i, p);
      SameUpto(e, g, num, i, s, e[p]);
      AboveIff(g, e[p], p);
      AboveIff(e, e[p], p);
    }
  }

  lemma ListFacts(e: seq<nat>, g: seq<nat>, num: seq<nat>, i: nat, s: nat, p: nat)
    requires Lists(e, g, num, i, s) && p < |e|
    ensures |e| == |g| && Descending(e) && Descending(g) && g[p] <= 15 && i <= 15
  {}

  lemma UptoAt(e: seq<nat>, g: seq<nat>, num: seq<nat>, i: nat, s: nat)
    requires Lists(e, g, num, i, s) && i < 15
    ensures i >= 1 && Upto(e, i - 1) + s <= Upto(e, i)
  {
    var c := Counts(e, 32);
    assert Lowest(c, num, 15, i, s, |e|);
    UptoNext(e, i);
    assert c[i] == Occurrences(e, i);
  }

  // ---------- the cost ----------

  lemma {:induction false} CostLonger(w: seq<nat>, g: seq<nat>, e: seq<nat>, k: nat, d: nat)
    requires |w| == |g| == |e| && k <= |w|
    requires forall p :: 0 <= p < |w| ==> g[p] <= e[p] + if p < k then d else 0
    ensures Cost(w, g) <= Cost(w, e) + d * Sum(w[..k])
    decreases |w|
  {
    if w != [] {
      var n := |w| - 1;
      CostSnoc(w, g);
      CostSnoc(w, e);
      if k == |w| {
        CostLonger(w[..n], g[..n], e[..n], n, d);
        assert w[..k] == w && w[..n][..n] == w[..n];
        LongerTerm(w[n], g[n], e[n], d, Sum(w[..n]));
      } else {
        CostLonger(w[..n], g[..n], e[..n], k, d);
        assert w[..n][..k] == w[..k];
        MulMono(w[n], g[n], e[n]);
      }
    }
  }

  lemma CostSnoc(w: seq<nat>, l: seq<nat>)
    requires |w| == |l| > 0
    ensures var n := |w| - 1; Cost(w, l) == Cost(w[..n], l[..n]) + w[n] * l[n]
  {
    var n := |w| - 1;
    assert CostTerms(w, l)[..n] == CostTerms(w[..n], l[..n]);
  }

  lemma LongerTerm(w: nat, g: nat, e: nat, d: nat, rest: int)
    requires g <= e + d
    ensures w * g + d * rest <= w * e + d * (rest + w)
  {
    MulMono(w, g, e + d);
    assert w * (e + d) == w * e + d * w;
    assert d * (rest + w) == d * rest + d * w;
  }

  // Each of some weights is light, so all together are.
  lemma {:induction false} LightTogether(w: seq<nat>, f: nat, total: nat)
    requires forall p :: 0 <= p < |w| ==> f * w[p] <= total
    ensures f * Sum(w) <= |w| * total
    decreases |w|
  {
    if w != [] {
      var n := |w| - 1;
      LightTogether(w[..n], f, total);
      assert f * (Sum(w[..n]) + w[n]) == f * Sum(w[..n]) + f * w[n];
      assert (n + 1) * total == n * total + total;
    }
  }

  // What may have become longer weighs little.
  lemma LightFront(w: seq<nat>, e: seq<nat>, i: nat, s: nat)
    requires LightBelow(w, e) && Descending(e) && 1 <= i <= 15 && Upto(e, i - 1) + s <= Upto(e, i)
    ensures |e| - Upto(e, i) + s <= |w| && Sum(w) >= 0
    ensures Fib(i + 1) * Sum(w[..|e| - Upto(e, i) + s]) <= (Inner(e, i) + s) * Sum(w)
  {
    hide Upto, Sum, Fib, Inner;
    SumNonNegative(w);
    var a, total := |e| - Upto(e, i), Sum(w);
    forall p | 0 <= p < |e| ensures (e[p] > i <==> p < a) && (p < a + s ==> e[p] >= i) {
      AboveIff(e, i, p);
      AboveIff(e, i - 1, p);
    }
    assert SplitsAt(e, i, a);
    var front, more := w[..a], w[a..a + s];
    forall p | 0 <= p < |more| ensures Fib(i + 1) * more[p] <= total {
      assert LightLeaf(w, e, a + p);
    }
    LightTogether(more, Fib(i + 1), total);
    SumConcat(front, more);
    assert w[..a + s] == front + more;
    Distributes(Fib(i + 1), Sum(front), Sum(more), Inner(e, i), s, total);
  }

  lemma Distributes(f: nat, x: int, y: int, q: int, s: nat, total: nat)
    requires f * x <= q * total && f * y <= s * total
    ensures f * (x + y) <= (q + s) * total
  {
    assert f * (x + y) == f * x + f * y;
    assert (q + s) * total == q * total + s * total;
  }

  // ---------- the bound ----------

  lemma FibTable()
    ensures Fib(8) == 21 && Fib(9) == 34 && Fib(10) == 55 && Fib(11) == 89 && Fib(12) == 144
    ensures Fib(13) == 233 && Fib(14) == 377 && Fib(15) == 610
  {
    assert Fib(2) == 1 && Fib(3) == 2 && Fib(4) == 3 && Fib(5) == 5 && Fib(6) == 8 && Fib(7) == 13;
  }

  lemma HighSlots(x: nat, i: nat)
    requires 2 <= x && i <= 6
    ensures (x - 1) * Pow2(15 - i) >= 512
  {
    Pow2Table();
    Pow2Mono(9, 15 - i);
    MulMono(Pow2(15 - i), 1, x - 1);
  }

  // The slots left below the size that was split are too few to matter.
  lemma Affordable(x: nat, i: nat, n: nat)
    requires 2 <= x && 1 <= i < 15 && (x - 1) * Pow2(15 - i) < n <= 288
    ensures (15 - i) * x <= Fib(i + 1) && (n <= 32 ==> 5 * ((15 - i) * x) <= Fib(i + 1))
  {
    FibTable();
    assert Pow2(1) == 2 && Pow2(2) == 4 && Pow2(3) == 8 && Pow2(4) == 16 && Pow2(5) == 32;
    assert Pow2(6) == 64 && Pow2(7) == 128 && Pow2(8) == 256;
    hide Fib;
    if i <= 6 {
      HighSlots(x, i);
    }
  }

  lemma FibPositive(n: nat)
    requires n >= 1
    ensures Fib(n) >= 1
  {
    FibMono(1, n);
  }

  lemma Below(f: nat, a: int, b: int)
    requires f >= 1 && f * a <= f * b
    ensures a <= b
  {
    if a > b {
      MulMono(f, b + 1, a);
    }
  }

  lemma Grouped(f: nat, k: nat, d: nat, sum: int)
    ensures f * (k * (d * sum)) == (k * d) * (f * sum)
  {}

  lemma Regrouped(k: nat, d: nat, x: nat, total: nat)
    ensures (k * d) * (x * total) == (k * (d * x)) * total
  {}

  // diff is at most d times a sum whose f-th part is x times the total.
  lemma Cancel(f: nat, k: nat, x: nat, d: nat, diff: int, sum: int, total: nat)
    requires f >= 1 && f * sum <= x * total && diff <= d * sum && k * (d * x) <= f
    ensures k * diff <= total
  {
    MulMono(k, diff, d * sum);
    MulMono(f, k * diff, k * (d * sum));
    Grouped(f, k, d, sum);
    MulMono(k * d, f * sum, x * total);
    Regrouped(k, d, x, total);
    MulMono(total, k * (d * x), f);
    Below(f, k * diff, total);
  }

  // The numbers that Affordable asks for.
  lemma SlotsLeft(e: seq<nat>, g: seq<nat>, num: seq<nat>, i: nat, s: nat)
    requires Lists(e, g, num, i, s) && i < 15 && Free(Counts(e, 32), i) >= 1
    ensures 1 <= i && s >= 1 && Inner(e, i) >= 1 && (Inner(e, i) + s - 1) * Pow2(15 - i) < |e|
  {
    hide Kraft, Pow2;
    assert Lowest(Counts(e, 32), num, 15, i, s, |e|);
    assert Free(Counts(e, 32), i) == Inner(e, i);
    assert Inner(e, i) + s - 1 == Inner(e, i) + (s - 1);
  }

  // How much longer the whole can have become.
  lemma CostWithin(w: seq<nat>, e: seq<nat>, g: seq<nat>, num: seq<nat>, i: nat, s: nat)
    requires |w| == |e| && Lists(e, g, num, i, s)
    ensures |w| == |g| && (i == 15 ==> Cost(w, g) <= Cost(w, e))
    ensures i < 15 ==> |e| - Upto(e, i) + s <= |w| && Cost(w, g) <= Cost(w, e) + (15 - i) * Sum(w[..|e| - Upto(e, i) + s])
  {
    hide Lists, Cost, Sum, Upto;
    assert |e| == |g| && i <= 15 by { ListSizes(e, g, num, i, s); }
    forall p | 0 <= p < |w| ensures g[p] <= e[p] + if i < 15 && p < |e| - Upto(e, i) + s then 15 - i else 0 {
      LongerBy(e, g, num, i, s, p);
    }
    if i == 15 {
      CostLonger(w, g, e, 0, 0);
    } else {
      UptoAt(e, g, num, i, s);
      CostLonger(w, g, e, |e| - Upto(e, i) + s, 15 - i);
    }
  }

  lemma ListSizes(e: seq<nat>, g: seq<nat>, num: seq<nat>, i: nat, s: nat)
    requires Lists(e, g, num, i, s)
    ensures |e| == |g| && i <= 15 && Descending(e)
  {}

  lemma LightSizes(w: seq<nat>, e: seq<nat>)
    requires LightBelow(w, e)
    ensures |e| == |w|
  {}

  // The lengths within the limit cost little more than the tree's.
  lemma LimitingCost(w: seq<nat>, e: seq<nat>, g: seq<nat>, num: seq<nat>, i: nat, s: nat)
    requires LightBelow(w, e) && Lists(e, g, num, i, s) && |e| <= 288
    requires i < 15 ==> Free(Counts(e, 32), i) >= 1
    ensures |w| == |g| && Cost(w, g) <= Cost(w, e) + Sum(w)
    ensures |w| <= 32 ==> 5 * Cost(w, g) <= 5 * Cost(w, e) + Sum(w)
  {
    hide *;
    LightSizes(w, e);
    ListSizes(e, g, num, i, s);
    SumNonNegative(w);
    CostWithin(w, e, g, num, i, s);
    if i < 15 {
      FibPositive(i + 1);
      UptoAt(e, g, num, i, s);
      SlotsLeft(e, g, num, i, s);
      LightFront(w, e, i, s);
      var k, x := |e| - Upto(e, i) + s, Inner(e, i) + s;
      Affordable(x, i, |e|);
      var diff := Cost(w, g) - Cost(w, e);
      Cancel(Fib(i + 1), 1, x, 15 - i, diff, Sum(w[..k]), Sum(w));
      if |w| <= 32 {
        Cancel(Fib(i + 1), 5, x, 15 - i, diff, Sum(w[..k]), Sum(w));
      }
    }
  }
}
