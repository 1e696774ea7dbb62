/** How little the deep parts of a Huffman tree weigh: a leaf or an inner node at depth h weighs at most
    the whole divided by a Fibonacci number, so the leaves below a depth weigh together at most that
    much for each inner node at the depth. Cutting them short cannot cost much. */
module DeepWeights {
  import opened Sums
  import opened MergeTrace
  import Canonical

  // The first a of the descending lengths are those greater than h.
  ghost predicate SplitsAt(e: seq<nat>, h: nat, a: nat) {
    && a <= |e|
    && (forall p :: 0 <= p < a ==> e[p] > h)
    && forall p :: a <= p < |e| ==> e[p] <= h
  }

  // How many inner nodes of the tree are at depth h, by the codes no longer than h.
  ghost function Inner(e: seq<nat>, h: nat): int
    requires h <= 32
  {
    Pow2(h) - Canonical.Kraft(Canonical.Counts(e, 32), h)
  }

  ghost predicate LightLeaf(w: seq<nat>, e: seq<nat>, p: nat)
    requires p < |e| == |w|
  {
    Fib(e[p] + 1) * w[p] <= Sum(w)
  }

  // What lies deep weighs little.
  ghost predicate LightBelow(w: seq<nat>, e: seq<nat>) {
    && |e| == |w|
    && (forall p :: 0 <= p < |e| ==> LightLeaf(w, e, p))
    && forall h: nat, a: nat :: h <= 32 && SplitsAt(e, h, a) ==> Fib(h + 1) * Sum(w[..a]) <= Inner(e, h) * Sum(w)
  }

  // ---------- one leaf, one node ----------

  lemma FibFactors(f: nat, g: nat, x: nat, y: nat, total: nat)
    requires total >= f * x + g * y && x >= y
    ensures (f + g) * y <= total
  {
    assert f * x >= f * y;
    assert f * y + g * y == (f + g) * y;
  }

  // What a merge takes is no heavier than what it makes.
  lemma TakenLighter(w: seq<nat>, t: Trace, p: nat)
    requires Complete(w, t) && p < |t.weight|
    ensures TakesTwo(w, t, p) && t.weight[p] == Taken(w, t, p)[0] + Taken(w, t, p)[1]
    ensures forall a :: t.leaves[p] <= a < t.leaves[p + 1] ==> w[a] <= t.weight[p]
    ensures forall b :: t.nodes[p] <= b < t.nodes[p + 1] ==> t.weight[b] <= t.weight[p]
  {
    assert TakesTwo(w, t, p) && Greedy(w, t, p);
    var x := Taken(w, t, p);
    forall a | t.leaves[p] <= a < t.leaves[p + 1] ensures w[a] <= t.weight[p] {
      assert w[a] == x[a - t.leaves[p]];
    }
    forall b | t.nodes[p] <= b < t.nodes[p + 1] ensures t.weight[b] <= t.weight[p] {
      assert t.weight[b] == x[t.leaves[p + 1] - t.leaves[p] + b - t.nodes[p]];
    }
  }

  lemma NodeLight(w: seq<nat>, t: Trace, d: seq<nat>, b: nat)
    requires Complete(w, t) && NodeDepths(w, t, d) && Ascending(w) && Ascending(t.weight) && b < |d|
    ensures Fib(d[b] + 1) * t.weight[b] <= Sum(w)
  {
    NodeWeightBounded(w, t, |d| - 1);
    if b == |d| - 1 {
      assert Fib(1) == 1;
    } else {
      CompleteConsumes(w, t);
      var p := ConsumerOfNode(w, t, b, |d|);
      WeightByDepth(w, t, d, b, p);
      TakenLighter(w, t, p);
      FibFactors(Fib(d[b]), Fib(d[b] - 1), t.weight[p], t.weight[b], t.weight[|d| - 1]);
    }
  }

  // A leaf is no heavier than the item its parent is later merged with.
  lemma LaterThanLeaf(w: seq<nat>, t: Trace, p: nat, g: nat, a: nat, x: nat)
    requires Complete(w, t) && p < g < |t.weight| && Ascending(w) && Ascending(t.weight)
    requires t.leaves[p] <= a < t.leaves[p + 1] && x < 2
    ensures TakesTwo(w, t, p) && TakesTwo(w, t, g) && a < |w| && w[a] <= Taken(w, t, g)[x]
  {
    assert TakesTwo(w, t, p) && TakesTwo(w, t, g) && Greedy(w, t, p);
    var y := Taken(w, t, p);
    assert w[a] == y[a - t.leaves[p]];
    Monotone(w, t, p + 1, g);
    TakenLighter(w, t, p);
    var k := t.leaves[g + 1] - t.leaves[g];
    if x < k {
      assert Taken(w, t, g)[x] == w[t.leaves[g] + x];
    } else {
      assert Taken(w, t, g)[x] == t.weight[t.nodes[g] + x - k];
    }
  }

  lemma ParentOutweighsLeaf(w: seq<nat>, t: Trace, a: nat, p: nat, g: nat)
    requires Complete(w, t) && Ascending(w) && Ascending(t.weight) && p < g < |t.weight|
    requires t.leaves[p] <= a < t.leaves[p + 1] && t.nodes[g] <= p < t.nodes[g + 1]
    ensures TakesTwo(w, t, p) && a < |w| && t.weight[g] >= t.weight[p] + w[a]
  {
    assert TakesTwo(w, t, g) && Greedy(w, t, g);
    var x := Taken(w, t, g);
    var at := t.leaves[g + 1] - t.leaves[g] + p - t.nodes[g];
    assert x[at] == t.weight[p];
    LaterThanLeaf(w, t, p, g, a, 1 - at);
  }

  lemma LeafLight(w: seq<nat>, t: Trace, d: seq<nat>, e: seq<nat>, a: nat)
    requires Complete(w, t) && NodeDepths(w, t, d) && LeafDepths(w, t, d, e) && Ascending(w) && Ascending(t.weight) && a < |w|
    ensures LightLeaf(w, e, a)
  {
    CompleteConsumes(w, t);
    var root := |d| - 1;
    NodeWeightBounded(w, t, root);
    var p := ConsumerOfLeaf(w, t, a, |d|);
    assert LeavesBelow(w, t, d, e, p);
    TakenLighter(w, t, p);
    if p == root {
      assert Fib(2) == 1;
    } else {
      var g := ConsumerOfNode(w, t, p, |d|);
      WeightByDepth(w, t, d, p, g);
      ParentOutweighsLeaf(w, t, a, p, g);
      assert d[p] >= 1;
      FibStep(d[p], t.weight[g], t.weight[p], w[a], t.weight[root]);
      FibFactors(Fib(e[a]), Fib(e[a] - 1), t.weight[p], w[a], t.weight[root]);
    }
  }

  // ---------- all at one depth ----------

  function AtDepth(d: seq<nat>, h: nat): (r: seq<int>)
    ensures |r| == |d|
  {
    seq(|d|, j requires 0 <= j < |d| => if d[j] == h then 1 else 0)
  }

  function Twice(s: seq<int>): (r: seq<int>)
    ensures |r| == |s|
  {
    seq(|s|, j requires 0 <= j < |s| => 2 * s[j])
  }

  // The children of the nodes at depth h are all that is at depth h + 1.
  lemma NodesNextDepth(w: seq<nat>, t: Trace, d: seq<nat>, e: seq<nat>, h: nat)
    requires Complete(w, t) && NodeDepths(w, t, d) && LeafDepths(w, t, d, e)
    ensures Sum(AtDepth(e, h + 1)) + Sum(AtDepth(d, h + 1)) == 2 * Sum(AtDepth(d, h))
  {
    var n := |d|;
    var leaf, node, f := AtDepth(e, h + 1), AtDepth(d, h + 1), Twice(AtDepth(d, h));
    CompleteConsumes(w, t);
    forall j | 0 <= j < n ensures ChildrenAdd(w, t, leaf, node, f, j) {
      ChildrenAtDepth(w, t, d, e, h, j);
    }
    SumOverChildren(w, t, leaf, node, f, n);
    assert leaf[..|w|] == leaf && f[..n] == f;
    assert Sum(node) == Sum(node[..n - 1]) + node[n - 1];
    SumTwice(AtDepth(d, h));
  }

  lemma {:induction false} SumTwice(s: seq<int>)
    ensures Sum(Twice(s)) == 2 * Sum(s)
  {
    if s != [] {
      SumTwice(s[..|s| - 1]);
      assert Twice(s)[..|s| - 1] == Twice(s[..|s| - 1]);
    }
  }

  lemma ChildrenAtDepth(w: seq<nat>, t: Trace, d: seq<nat>, e: seq<nat>, h: nat, j: nat)
    requires Complete(w, t) && NodeDepths(w, t, d) && LeafDepths(w, t, d, e) && j < |d|
    ensures ChildrenAdd(w, t, AtDepth(e, h + 1), AtDepth(d, h + 1), Twice(AtDepth(d, h)), j)
  {
    hide Sum, Greedy;
    assert NodesBelow(w, t, d, j) && LeavesBelow(w, t, d, e, j);
    var leaf, node := AtDepth(e, h + 1), AtDepth(d, h + 1);
    SumOfFew(leaf[t.leaves[j]..t.leaves[j + 1]]);
    SumOfFew(node[t.nodes[j]..t.nodes[j + 1]]);
    var v := if d[j] == h then 1 else 0;
    assert forall a :: t.leaves[j] <= a < t.leaves[j + 1] ==> leaf[a] == v;
    assert forall b :: t.nodes[j] <= b < t.nodes[j + 1] ==> node[b] == v;
  }

  lemma {:induction false} CountAtDepth(e: seq<nat>, l: nat)
    ensures Sum(AtDepth(e, l)) == Canonical.Occurrences(e, l)
  {
    if e != [] {
      CountAtDepth(e[..|e| - 1], l);
      assert AtDepth(e, l)[..|e| - 1] == AtDepth(e[..|e| - 1], l);
    }
  }

  // Only the root is at depth zero.
  lemma OneRoot(w: seq<nat>, t: Trace, d: seq<nat>)
    requires Complete(w, t) && NodeDepths(w, t, d)
    ensures Sum(AtDepth(d, 0)) == 1
  {
    var s, k := AtDepth(d, 0), |d| - 1;
    CompleteConsumes(w, t);
    forall b | 0 <= b < k ensures s[..k][b] == 0 {
      var p := ConsumerOfNode(w, t, b, |d|);
      assert NodesBelow(w, t, d, p);
    }
    SumOfZeros(s[..k]);
  }

  lemma {:induction false} InnerNodes(w: seq<nat>, t: Trace, d: seq<nat>, e: seq<nat>, h: nat)
    requires Complete(w, t) && NodeDepths(w, t, d) && LeafDepths(w, t, d, e) && h <= 32
    ensures Sum(AtDepth(d, h)) == Inner(e, h)
  {
    hide Sum, AtDepth;
    if h == 0 {
      OneRoot(w, t, d);
    } else {
      InnerNodes(w, t, d, e, h - 1);
      NodesNextDepth(w, t, d, e, h - 1);
      CountAtDepth(e, h);
      assert Canonical.Counts(e, 32)[h] == Canonical.Occurrences(e, h);
    }
  }

  // ---------- the weight below a depth ----------

  // Weights whose depth is greater than h.
  function Beyond(w: seq<nat>, d: seq<nat>, h: nat): (r: seq<int>)
    requires |w| == |d|
    ensures |r| == |d|
  {
    seq(|d|, j requires 0 <= j < |d| => if d[j] > h then w[j] else 0)
  }

  // Weights whose depth is h.
  function Upon(w: seq<nat>, d: seq<nat>, h: nat): (r: seq<int>)
    requires |w| == |d|
    ensures |r| == |d|
  {
    seq(|d|, j requires 0 <= j < |d| => if d[j] == h then w[j] else 0)
  }

  // Weights whose depth is h or greater.
  function From(w: seq<nat>, d: seq<nat>, h: nat): (r: seq<int>)
    requires |w| == |d|
    ensures |r| == |d|
  {
    seq(|d|, j requires 0 <= j < |d| => if d[j] >= h then w[j] else 0)
  }

  lemma ChildrenBeyond(w: seq<nat>, t: Trace, d: seq<nat>, e: seq<nat>, h: nat, j: nat)
    requires Complete(w, t) && NodeDepths(w, t, d) && LeafDepths(w, t, d, e) && j < |d|
    ensures |e| == |w| && |d| == |t.weight|
    ensures ChildrenAdd(w, t, Beyond(w, e, h), Beyond(t.weight, d, h), From(t.weight, d, h), j)
  {
    hide Sum, AtMostRest;
    assert NodesBelow(w, t, d, j) && LeavesBelow(w, t, d, e, j);
    TakenLighter(w, t, j);
    var leaf, node := Beyond(w, e, h), Beyond(t.weight, d, h);
    var x, v := Taken(w, t, j), if d[j] >= h then 1 else 0;
    var ls, ns := leaf[t.leaves[j]..t.leaves[j + 1]], node[t.nodes[j]..t.nodes[j + 1]];
    forall a | 0 <= a < |ls| ensures ls[a] == x[a] * v {
      assert x[a] == w[t.leaves[j] + a];
    }
    forall b | 0 <= b < |ns| ensures ns[b] == x[|ls| + b] * v {
      assert x[|ls| + b] == t.weight[t.nodes[j] + b];
    }
    TwoTerms(ls, ns, x, v);
  }

  // The leaves below depth h weigh what the inner nodes at depth h weigh.
  lemma WeightBelow(w: seq<nat>, t: Trace, d: seq<nat>, e: seq<nat>, h: nat)
    requires Complete(w, t) && NodeDepths(w, t, d) && LeafDepths(w, t, d, e)
    ensures |e| == |w| && |d| == |t.weight| && Sum(Beyond(w, e, h)) == Sum(Upon(t.weight, d, h))
  {
    var n := |d|;
    var leaf, node, f := Beyond(w, e, h), Beyond(t.weight, d, h), From(t.weight, d, h);
    CompleteConsumes(w, t);
    forall j | 0 <= j < n ensures ChildrenAdd(w, t, leaf, node, f, j) {
      ChildrenBeyond(w, t, d, e, h, j);
    }
    SumOverChildren(w, t, leaf, node, f, n);
    assert leaf[..|w|] == leaf && f[..n] == f;
    assert Sum(node) == Sum(node[..n - 1]) + node[n - 1];
    SumPointwise(node, Upon(t.weight, d, h), f);
  }

  lemma {:induction false} SumScaled(s: seq<int>, c: seq<int>, k: nat, total: nat)
    requires |s| == |c| && forall j :: 0 <= j < |s| ==> k * s[j] <= c[j] * total
    ensures k * Sum(s) <= Sum(c) * total
  {
    if s != [] {
      var n := |s| - 1;
      SumScaled(s[..n], c[..n], k, total);
      assert k * (Sum(s[..n]) + s[n]) == k * Sum(s[..n]) + k * s[n];
      assert (Sum(c[..n]) + c[n]) * total == Sum(c[..n]) * total + c[n] * total;
    }
  }

  lemma NodesUpon(w: seq<nat>, t: Trace, d: seq<nat>, h: nat)
    requires Complete(w, t) && NodeDepths(w, t, d) && Ascending(w) && Ascending(t.weight)
    ensures |d| == |t.weight| && Sum(w) >= 0 && Fib(h + 1) * Sum(Upon(t.weight, d, h)) <= Sum(AtDepth(d, h)) * Sum(w)
  {
    hide Sum, Fib, Greedy, Shape;
    SumNonNegative(w);
    var s, c := Upon(t.weight, d, h), AtDepth(d, h);
    forall j | 0 <= j < |s| ensures Fib(h + 1) * s[j] <= c[j] * Sum(w) {
      NodeLight(w, t, d, j);
    }
    SumScaled(s, c, Fib(h + 1), Sum(w));
  }

  lemma BeyondIsFront(w: seq<nat>, e: seq<nat>, h: nat, a: nat)
    requires |w| == |e| && SplitsAt(e, h, a)
    ensures Sum(Beyond(w, e, h)) == Sum(w[..a])
  {
    var s := Beyond(w, e, h);
    assert s == s[..a] + s[a..];
    SumConcat(s[..a], s[a..]);
    SumOfZeros(s[a..]);
    assert s[..a] == w[..a];
  }

  // The leaf depths of a complete history: what lies deep weighs little.
  lemma TreeLightBelow(w: seq<nat>, t: Trace, d: seq<nat>, e: seq<nat>)
    requires Complete(w, t) && NodeDepths(w, t, d) && LeafDepths(w, t, d, e) && Ascending(w) && Ascending(t.weight)
    ensures LightBelow(w, e)
  {
    hide Sum, Fib, Greedy, Inner, LightLeaf, AtDepth, Beyond, Upon, NodeDepths, Complete;
    forall p | 0 <= p < |e| ensures LightLeaf(w, e, p) {
      LeafLight(w, t, d, e, p);
    }
    forall h: nat, a: nat | h <= 32 && SplitsAt(e, h, a) ensures Fib(h + 1) * Sum(w[..a]) <= Inner(e, h) * Sum(w) {
      BeyondIsFront(w, e, h, a);
      WeightBelow(w, t, d, e, h);
      InnerNodes(w, t, d, e, h);
      NodesUpon(w, t, d, h);
    }
  }
}
