/** What lengths cost for symbols with frequencies, and whether a code can have them, whatever the order
    in which the symbols are taken. */
module SymbolCost {
  import opened Sums
  import opened PrefixCost
  import opened MinimumRedundancy

  // A number for each symbol.
  function Values(s: seq<SymFreq>, f: SymFreq -> int): (r: seq<int>)
    ensures |r| == |s|
  {
    seq(|s|, p requires 0 <= p < |s| => f(s[p]))
  }

  lemma WithoutMultiset(b: seq<SymFreq>, j: nat)
    requires j < |b|
    ensures multiset(Without(b, j)) == multiset(b) - multiset{b[j]}
  {
    assert b == b[..j] + [b[j]] + b[j + 1..];
  }

  lemma ValuesWithout(b: seq<SymFreq>, j: nat, f: SymFreq -> int)
    requires j < |b|
    ensures Sum(Values(b, f)) == Sum(Values(Without(b, j), f)) + f(b[j])
  {
    hide Sum;
    SumWithout(Values(b, f), j);
    assert Values(Without(b, j), f) == Without(Values(b, f), j);
  }

  lemma WithoutLast(a: seq<SymFreq>)
    requires a != []
    ensures Without(a, |a| - 1) == a[..|a| - 1]
  {}

  // The sum does not depend on the order.
  lemma {:induction false} PermutedSum(a: seq<SymFreq>, b: seq<SymFreq>, f: SymFreq -> int)
    requires multiset(a) == multiset(b)
    ensures Sum(Values(a, f)) == Sum(Values(b, f))
    decreases |a|
  {
    if a == [] {
      assert |multiset(b)| == 0;
    } else {
      hide *;
      var k := |a| - 1;
      assert a == a[..k] + [a[k]];
      assert a[k] in multiset(b);
      var j :| 0 <= j < |b| && b[j] == a[k];
      WithoutMultiset(b, j);
      PermutedSum(a[..k], Without(b, j), f);
      ValuesWithout(b, j, f);
      ValuesWithout(a, k, f);
      WithoutLast(a);
    }
  }

  lemma KeysSumPermuted(a: seq<SymFreq>, b: seq<SymFreq>)
    requires multiset(a) == multiset(b)
    ensures Sum(Keys(a)) == Sum(Keys(b))
  {
    hide Sum;
    var f := (x: SymFreq) => x.key as int;
    PermutedSum(a, b, f);
    assert Keys(a) == Values(a, f) && Keys(b) == Values(b, f);
  }

  // The sizes of symbols.
  function SizesOf(syms: seq<SymFreq>, sizes: seq<nat>): (r: seq<nat>)
    requires forall p :: 0 <= p < |syms| ==> syms[p].sym < |sizes|
    ensures |r| == |syms|
  {
    seq(|syms|, p requires 0 <= p < |syms| => sizes[syms[p].sym])
  }

  ghost predicate Within(syms: seq<SymFreq>, n: nat) {
    forall p :: 0 <= p < |syms| ==> syms[p].sym < n
  }

  lemma PermutedCost(a: seq<SymFreq>, b: seq<SymFreq>, l: seq<nat>)
    requires multiset(a) == multiset(b) && Within(a, |l|) && Within(b, |l|)
    ensures Cost(Keys(a), SizesOf(a, l)) == Cost(Keys(b), SizesOf(b, l))
  {
    hide Sum;
    var f := (x: SymFreq) => if x.sym < |l| then x.key * l[x.sym] else 0;
    PermutedSum(a, b, f);
    assert CostTerms(Keys(a), SizesOf(a, l)) == Values(a, f);
    assert CostTerms(Keys(b), SizesOf(b, l)) == Values(b, f);
  }

  lemma PermutedRealizable(a: seq<SymFreq>, b: seq<SymFreq>, l: seq<nat>, m: nat)
    requires multiset(a) == multiset(b) && Within(a, |l|) && Within(b, |l|) && Realizable(SizesOf(a, l), m)
    ensures Realizable(SizesOf(b, l), m)
  {
    hide Sum;
    var f := (x: SymFreq) => if x.sym < |l| && l[x.sym] <= m then Pow2(m - l[x.sym]) as int else 0;
    var s, t := SizesOf(a, l), SizesOf(b, l);
    forall p | 0 <= p < |t| ensures t[p] <= m {
      assert b[p] in multiset(a);
      assert b[p] in a;
      var q :| 0 <= q < |a| && a[q] == b[p];
      assert s[q] == t[p];
    }
    PermutedSum(a, b, f);
    assert KraftTerms(s, m) == Values(a, f);
    assert KraftTerms(t, m) == Values(b, f);
  }
}
