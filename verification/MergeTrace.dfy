/** The history of a two-queue Huffman merge: which leaves and which earlier nodes each new node
    consumed. The in-place construction is proved against this history, and the optimality,
    Kraft equality and depth bound of its result are proved about it. */
module MergeTrace {
  import opened Sums
  import opened PrefixCost

  // After k merges: leaves[k] leaves and nodes[k] nodes are consumed; weight[j] is node j's weight.
  datatype Trace = Trace(leaves: seq<nat>, nodes: seq<nat>, weight: seq<nat>)

  ghost predicate Ascending(s: seq<nat>) {
    forall i, j :: 0 <= i <= j < |s| ==> s[i] <= s[j]
  }

  // Merge j takes two items off the fronts of the two queues.
  ghost predicate TakesTwo(w: seq<nat>, t: Trace, j: nat)
    requires j < |t.weight| && |t.leaves| == |t.nodes| == |t.weight| + 1
  {
    && t.leaves[j] <= t.leaves[j + 1] <= |w|
    && t.nodes[j] <= t.nodes[j + 1] <= j
    && t.leaves[j + 1] - t.leaves[j] + t.nodes[j + 1] - t.nodes[j] == 2
  }

  ghost predicate Shape(w: seq<nat>, t: Trace) {
    && |t.leaves| == |t.nodes| == |t.weight| + 1
    && t.leaves[0] == t.nodes[0] == 0
    && forall j :: 0 <= j < |t.weight| ==> TakesTwo(w, t, j)
  }

  // The two items consumed by merge j.
  function Taken(w: seq<nat>, t: Trace, j: nat): (r: seq<nat>)
    requires j < |t.weight| && |t.leaves| == |t.nodes| == |t.weight| + 1
    requires TakesTwo(w, t, j)
    ensures |r| == 2
  {
    w[t.leaves[j]..t.leaves[j + 1]] + t.weight[t.nodes[j]..t.nodes[j + 1]]
  }

  ghost predicate AtMostRest(w: seq<nat>, t: Trace, j: nat, x: nat)
    requires Shape(w, t) && j < |t.weight|
  {
    && (forall a :: t.leaves[j + 1] <= a < |w| ==> x <= w[a])
    && (forall b :: t.nodes[j + 1] <= b < j ==> x <= t.weight[b])
  }

  // Merge j adds two items, neither larger than any item it leaves behind.
  ghost predicate Greedy(w: seq<nat>, t: Trace, j: nat)
    requires Shape(w, t) && j < |t.weight|
  {
    var x := Taken(w, t, j);
    && t.weight[j] == x[0] + x[1]
    && AtMostRest(w, t, j, x[0])
    && AtMostRest(w, t, j, x[1])
  }

  ghost predicate Valid(w: seq<nat>, t: Trace) {
    && Shape(w, t)
    && forall j :: 0 <= j < |t.weight| ==> Greedy(w, t, j)
  }

  // A history that has merged everything into one node.
  ghost predicate Complete(w: seq<nat>, t: Trace) {
    && Valid(w, t)
    && |w| >= 2
    && |t.weight| == |w| - 1
  }

  lemma {:induction false} Consumed(w: seq<nat>, t: Trace, k: nat)
    requires Shape(w, t) && k <= |t.weight|
    ensures t.leaves[k] + t.nodes[k] == 2 * k
    ensures t.leaves[k] <= |w|
    ensures t.nodes[k] <= if k == 0 then 0 else k - 1
  {
    if k > 0 {
      Consumed(w, t, k - 1);
      assert TakesTwo(w, t, k - 1);
    }
  }

  lemma {:induction false} Monotone(w: seq<nat>, t: Trace, i: nat, j: nat)
    requires Shape(w, t) && i <= j <= |t.weight|
    ensures t.leaves[i] <= t.leaves[j] && t.nodes[i] <= t.nodes[j]
  {
    if i < j {
      Monotone(w, t, i, j - 1);
      assert TakesTwo(w, t, j - 1);
    }
  }

  // A complete history has consumed every leaf and every node but the last.
  lemma CompleteConsumes(w: seq<nat>, t: Trace)
    requires Shape(w, t) && |w| >= 2 && |t.weight| == |w| - 1
    ensures t.leaves[|w| - 1] == |w| && t.nodes[|w| - 1] == |w| - 2
  {
    Consumed(w, t, |w| - 1);
  }

  // ---------- the weights not yet merged ----------

  function Pending(w: seq<nat>, t: Trace, k: nat): (r: seq<nat>)
    requires k < |t.leaves| == |t.nodes| == |t.weight| + 1
    requires t.leaves[k] <= |w| && t.nodes[k] <= k
  {
    w[t.leaves[k]..] + t.weight[t.nodes[k]..k]
  }

  function FirstTaken(w: seq<nat>, t: Trace, k: nat): int
    requires k < |t.weight| && |t.leaves| == |t.weight| + 1
  {
    if t.leaves[k + 1] == t.leaves[k] then |w| - t.leaves[k] else 0
  }

  function SecondTaken(w: seq<nat>, t: Trace, k: nat): int
    requires k < |t.weight| && |t.leaves| == |t.weight| + 1
  {
    if t.leaves[k + 1] == t.leaves[k] + 2 then 1
    else if t.leaves[k + 1] == t.leaves[k] + 1 then |w| - t.leaves[k]
    else |w| - t.leaves[k] + 1
  }

  // Where the two taken weights stand among the pending ones.
  lemma TakenPositions(w: seq<nat>, t: Trace, k: nat)
    requires Valid(w, t) && k < |t.weight|
    ensures TakesTwo(w, t, k) && t.nodes[k] <= k && t.leaves[k] <= |w|
    ensures var i, j, p := FirstTaken(w, t, k), SecondTaken(w, t, k), Pending(w, t, k);
      && i < j < |p|
      && p[i] == Taken(w, t, k)[0] && p[j] == Taken(w, t, k)[1]
  {
    Consumed(w, t, k);
    assert TakesTwo(w, t, k);
  }

  lemma TakenSmallest(w: seq<nat>, t: Trace, k: nat)
    requires Valid(w, t) && k < |t.weight|
    ensures t.nodes[k] <= k && t.leaves[k] <= |w|
    ensures TwoSmallest(Pending(w, t, k), FirstTaken(w, t, k), SecondTaken(w, t, k))
  {
    TakenPositions(w, t, k);
    assert Greedy(w, t, k);
    var i, j, p := FirstTaken(w, t, k), SecondTaken(w, t, k), Pending(w, t, k);
    forall q | 0 <= q < |p| && q != i && q != j ensures p[i] <= p[q] && p[j] <= p[q] {
      if q < |w| - t.leaves[k] {
        assert p[q] == w[t.leaves[k] + q];
      } else {
        assert p[q] == t.weight[t.nodes[k] + q - (|w| - t.leaves[k])];
      }
    }
  }

  // Taking two items off the fronts of a + b, x of them from a.
  lemma DropFronts(a: seq<nat>, b: seq<nat>, x: nat)
    requires x <= 2 && x <= |a| && 2 - x <= |b|
    ensures var i, j := if x == 0 then |a| else 0, if x == 2 then 1 else if x == 1 then |a| else |a| + 1;
      i < j < |a + b| && Without(Without(a + b, j), i) == a[x..] + b[2 - x..]
  {
    var i, j := if x == 0 then |a| else 0, if x == 2 then 1 else if x == 1 then |a| else |a| + 1;
    var r := Without(Without(a + b, j), i);
    var q := a[x..] + b[2 - x..];
    assert |r| == |q|;
    forall k | 0 <= k < |q| ensures r[k] == q[k] {}
  }

  // A merge step removes the two taken weights and appends their sum.
  lemma PendingStep(w: seq<nat>, t: Trace, k: nat)
    requires Valid(w, t) && k < |t.weight|
    ensures |t.leaves| == |t.nodes| == |t.weight| + 1
    ensures t.nodes[k] <= k && t.nodes[k + 1] <= k + 1 && t.leaves[k] <= |w| && t.leaves[k + 1] <= |w|
    ensures var i, j, p := FirstTaken(w, t, k), SecondTaken(w, t, k), Pending(w, t, k);
      && 0 <= i < j < |p|
      && p[i] + p[j] == t.weight[k]
      && Pending(w, t, k + 1) == MergeAt(p, i, j)
  {
    hide *;
    TakenPositions(w, t, k);
    StepParts(w, t, k);
    var a, b, x := w[t.leaves[k]..], t.weight[t.nodes[k]..k], t.leaves[k + 1] - t.leaves[k];
    DropFronts(a, b, x);
    MergeAtIs(a + b, FirstTaken(w, t, k), SecondTaken(w, t, k));
    Slices(w, t.leaves[k], x, t.weight, t.nodes[k], 2 - x, k);
    PendingIs(w, t, k + 1);
  }

  // What the k-th merge takes from the leaves and from the nodes, and where that stands.
  lemma StepParts(w: seq<nat>, t: Trace, k: nat)
    requires Valid(w, t) && k < |t.weight|
    ensures t.leaves[k] <= t.leaves[k + 1] <= |w|
    ensures var l, n, x := t.leaves[k], t.nodes[k], t.leaves[k + 1] - t.leaves[k];
      && x <= 2 && t.nodes[k + 1] == n + 2 - x <= k && |t.leaves| == |t.nodes| == |t.weight| + 1
      && l <= |w| && n <= k && Pending(w, t, k) == w[l..] + t.weight[n..k]
      && FirstTaken(w, t, k) == (if x == 0 then |w| - l else 0)
      && SecondTaken(w, t, k) == (if x == 2 then 1 else if x == 1 then |w| - l else |w| - l + 1)
      && |Taken(w, t, k)| == 2 && t.weight[k] == Taken(w, t, k)[0] + Taken(w, t, k)[1]
  {
    Consumed(w, t, k);
    Consumed(w, t, k + 1);
    assert Greedy(w, t, k) && TakesTwo(w, t, k);
  }

  lemma PendingIs(w: seq<nat>, t: Trace, k: nat)
    requires k < |t.leaves| == |t.nodes| == |t.weight| + 1 && t.leaves[k] <= |w| && t.nodes[k] <= k
    ensures Pending(w, t, k) == w[t.leaves[k]..] + t.weight[t.nodes[k]..k]
  {}

  lemma MergeAtIs(p: seq<nat>, i: nat, j: nat)
    requires i < j < |p|
    ensures MergeAt(p, i, j) == Without(Without(p, j), i) + [p[i] + p[j]]
  {}

  lemma Slices(w: seq<nat>, l: nat, x: nat, s: seq<nat>, n: nat, y: nat, k: nat)
    requires l + x <= |w| && n + y <= k < |s|
    ensures w[l..][x..] + s[n..k][y..] + [s[k]] == w[l + x..] + s[n + y..k + 1]
  {
    assert w[l..][x..] == w[l + x..];
    assert s[n..k][y..] + [s[k]] == s[n + y..k + 1];
  }

  lemma {:induction false} PendingSum(w: seq<nat>, t: Trace, k: nat)
    requires Valid(w, t) && k <= |t.weight|
    ensures t.nodes[k] <= k && t.leaves[k] <= |w|
    ensures Sum(Pending(w, t, k)) == Sum(w)
  {
    hide *;
    if k == 0 {
      AllPending(w, t);
    } else {
      PendingSum(w, t, k - 1);
      PendingStep(w, t, k - 1);
      MergeKeepsSum(Pending(w, t, k - 1), FirstTaken(w, t, k - 1), SecondTaken(w, t, k - 1));
    }
  }

  lemma AllPending(w: seq<nat>, t: Trace)
    requires Valid(w, t)
    ensures t.nodes[0] <= 0 && t.leaves[0] <= |w| && Pending(w, t, 0) == w
  {}

  lemma MergeKeepsSum(p: seq<nat>, i: nat, j: nat)
    requires i < j < |p|
    ensures Sum(MergeAt(p, i, j)) == Sum(p)
  {
    hide *;
    MergeAtIs(p, i, j);
    SameWithout(p, j);
    SameWithout(Without(p, j), i);
    SumMerge(p, i, j, p[i] + p[j]);
  }

  lemma SameWithout(p: seq<nat>, i: nat)
    requires i < |p|
    ensures Without<nat>(p, i) == Without<int>(p, i)
  {}

  // No node is heavier than all the leaves together.
  lemma NodeWeightBounded(w: seq<nat>, t: Trace, k: nat)
    requires Valid(w, t) && k < |t.weight|
    ensures t.weight[k] <= Sum(w)
  {
    PendingSum(w, t, k + 1);
    Consumed(w, t, k + 1);
    var p := Pending(w, t, k + 1);
    SumNonNegative(p);
    assert p[|p| - 1] == t.weight[k];
  }

  // No assignment of lengths is cheaper than the sum of the node weights.
  lemma {:induction false} TraceLowerBound(w: seq<nat>, t: Trace, k: nat)
    requires Complete(w, t) && k <= |t.weight|
    ensures t.nodes[k] <= k && t.leaves[k] <= |w|
    ensures LowerBound(Pending(w, t, k), Sum(t.weight[k..]))
    decreases |t.weight| - k
  {
    hide *;
    CompleteIsValid(w, t);
    Consumed(w, t, k);
    if k == |t.weight| {
      NoBound(Pending(w, t, k));
      NoneLeft(t.weight);
    } else {
      TraceLowerBound(w, t, k + 1);
      PendingStep(w, t, k);
      TakenSmallest(w, t, k);
      MergeLowerBound(Pending(w, t, k), FirstTaken(w, t, k), SecondTaken(w, t, k), Sum(t.weight[k + 1..]));
      SumFrom(t.weight, k);
    }
  }

  lemma CompleteIsValid(w: seq<nat>, t: Trace)
    requires Complete(w, t)
    ensures Valid(w, t) && |t.leaves| == |t.nodes| == |t.weight| + 1
  {}

  lemma NoBound(p: seq<nat>)
    ensures LowerBound(p, 0)
  {
    hide Realizable;
    forall l: seq<nat>, m: nat | |l| == |p| && Realizable(l, m) ensures 0 <= Cost(p, l) {
      SumNonNegative(CostTerms(p, l));
    }
  }

  lemma NoneLeft(s: seq<nat>)
    ensures Sum(s[|s|..]) == 0
  {}

  lemma SumFrom(s: seq<nat>, k: nat)
    requires k < |s|
    ensures Sum(s[k..]) == s[k] + Sum(s[k + 1..])
  {
    SumConcat([s[k]], s[k + 1..]);
    assert s[k..] == [s[k]] + s[k + 1..];
  }

  // ---------- depths ----------

  // node and leaf depths of the tree that a complete history describes
  ghost predicate NodeDepths(w: seq<nat>, t: Trace, d: seq<nat>)
    requires Shape(w, t)
  {
    && |d| == |t.weight| >= 1
    && d[|d| - 1] == 0
    && forall k :: 0 <= k < |d| ==> NodesBelow(w, t, d, k)
  }

  ghost predicate NodesBelow(w: seq<nat>, t: Trace, d: seq<nat>, k: nat)
    requires Shape(w, t) && k < |d| == |t.weight|
  {
    && TakesTwo(w, t, k)
    && forall b :: t.nodes[k] <= b < t.nodes[k + 1] ==> d[b] == d[k] + 1
  }

  ghost predicate LeafDepths(w: seq<nat>, t: Trace, d: seq<nat>, e: seq<nat>)
    requires Shape(w, t)
  {
    && |d| == |t.weight| && |e| == |w|
    && forall k :: 0 <= k < |d| ==> LeavesBelow(w, t, d, e, k)
  }

  ghost predicate LeavesBelow(w: seq<nat>, t: Trace, d: seq<nat>, e: seq<nat>, k: nat)
    requires Shape(w, t) && k < |d| == |t.weight| && |e| == |w|
  {
    && TakesTwo(w, t, k)
    && forall a :: t.leaves[k] <= a < t.leaves[k + 1] ==> e[a] == d[k] + 1
  }

  // The merge that consumed node b, or leaf a.
  lemma {:induction false} ConsumerOfNode(w: seq<nat>, t: Trace, b: nat, hi: nat) returns (k: nat)
    requires Shape(w, t) && hi <= |t.weight| && b < t.nodes[hi]
    ensures k < hi && t.nodes[k] <= b < t.nodes[k + 1] && b < k
    decreases hi
  {
    if t.nodes[hi - 1] <= b {
      k := hi - 1;
      assert TakesTwo(w, t, k);
    } else {
      k := ConsumerOfNode(w, t, b, hi - 1);
    }
  }

  lemma {:induction false} ConsumerOfLeaf(w: seq<nat>, t: Trace, a: nat, hi: nat) returns (k: nat)
    requires Shape(w, t) && hi <= |t.weight| && a < t.leaves[hi]
    ensures k < hi && t.leaves[k] <= a < t.leaves[k + 1]
    decreases hi
  {
    if t.leaves[hi - 1] <= a {
      k := hi - 1;
    } else {
      k := ConsumerOfLeaf(w, t, a, hi - 1);
    }
  }

  // Later nodes are no deeper.
  lemma {:induction false} NodeDepthsDescend(w: seq<nat>, t: Trace, d: seq<nat>, i: nat, j: nat)
    requires Complete(w, t) && NodeDepths(w, t, d) && i <= j < |d|
    ensures d[i] >= d[j]
    decreases |d| - i
  {
    if i < j && j != |d| - 1 {
      CompleteConsumes(w, t);
      var p := ConsumerOfNode(w, t, i, |d|);
      var q := ConsumerOfNode(w, t, j, |d|);
      if q < p {
        Monotone(w, t, q + 1, p);
        assert false;
      }
      assert NodesBelow(w, t, d, p) && NodesBelow(w, t, d, q);
      NodeDepthsDescend(w, t, d, p, q);
    }
  }

  // Heavier leaves are no deeper.
  lemma LeafDepthsDescend(w: seq<nat>, t: Trace, d: seq<nat>, e: seq<nat>, i: nat, j: nat)
    requires Complete(w, t) && NodeDepths(w, t, d) && LeafDepths(w, t, d, e) && i <= j < |w|
    ensures e[i] >= e[j]
  {
    CompleteConsumes(w, t);
    var p := ConsumerOfLeaf(w, t, i, |d|);
    var q := ConsumerOfLeaf(w, t, j, |d|);
    if q < p {
      Monotone(w, t, q + 1, p);
      assert false;
    }
    assert LeavesBelow(w, t, d, e, p) && LeavesBelow(w, t, d, e, q);
    NodeDepthsDescend(w, t, d, p, q);
  }

  // ---------- summing over children ----------

  // Node j's value is the sum of its two children's values.
  ghost predicate ChildrenAdd(w: seq<nat>, t: Trace, leaf: seq<int>, node: seq<int>, f: seq<int>, j: nat)
    requires Shape(w, t) && |leaf| == |w| && |node| == |f| == |t.weight| && j < |f|
  {
    && TakesTwo(w, t, j)
    && f[j] == Sum(leaf[t.leaves[j]..t.leaves[j + 1]]) + Sum(node[t.nodes[j]..t.nodes[j + 1]])
  }

  // If f[k] is the sum of the values of node k's two children, then summing f over the first k
  // nodes sums every consumed leaf and node once.
  lemma {:induction false} SumOverChildren(w: seq<nat>, t: Trace, leaf: seq<int>, node: seq<int>, f: seq<int>, k: nat)
    requires Shape(w, t) && k <= |t.weight|
    requires |leaf| == |w| && |node| == |f| == |t.weight|
    requires forall j :: 0 <= j < |f| ==> ChildrenAdd(w, t, leaf, node, f, j)
    ensures t.leaves[k] <= |w| && t.nodes[k] <= |node|
    ensures Sum(leaf[..t.leaves[k]]) + Sum(node[..t.nodes[k]]) == Sum(f[..k])
  {
    if k > 0 {
      var j := k - 1;
      SumOverChildren(w, t, leaf, node, f, j);
      assert ChildrenAdd(w, t, leaf, node, f, j);
      SumConcat(leaf[..t.leaves[j]], leaf[t.leaves[j]..t.leaves[k]]);
      SumConcat(node[..t.nodes[j]], node[t.nodes[j]..t.nodes[k]]);
      assert leaf[..t.leaves[k]] == leaf[..t.leaves[j]] + leaf[t.leaves[j]..t.leaves[k]];
      assert node[..t.nodes[k]] == node[..t.nodes[j]] + node[t.nodes[j]..t.nodes[k]];
      assert f[..k][..j] == f[..j];
    }
  }

  // A sum over at most two neighbouring elements.
  lemma SumOfFew(s: seq<int>)
    requires |s| <= 2
    ensures Sum(s) == (if |s| >= 1 then s[0] else 0) + (if |s| == 2 then s[1] else 0)
  {
    if |s| == 2 {
      assert s[..1][..0] == [];
    }
  }

  // The tree's Kraft sum is exactly one.
  lemma TreeKraft(w: seq<nat>, t: Trace, d: seq<nat>, e: seq<nat>, m: nat)
    requires Complete(w, t) && NodeDepths(w, t, d) && LeafDepths(w, t, d, e)
    requires forall a :: 0 <= a < |e| ==> e[a] <= m
    ensures KraftSum(e, m) == Pow2(m)
  {
    var n := |d|;
    CompleteConsumes(w, t);
    forall j | 0 <= j < n ensures d[j] < m {
      DeeperLeaf(w, t, d, e, j);
    }
    var leaf, node := KraftTerms(e, m), KraftTerms(d, m);
    forall j | 0 <= j < n ensures ChildrenAdd(w, t, leaf, node, node, j) {
      ChildrenKraft(w, t, d, e, m, j);
    }
    SumOverChildren(w, t, leaf, node, node, n);
    assert leaf[..|w|] == leaf && node[..n] == node;
  }

  lemma ChildrenKraft(w: seq<nat>, t: Trace, d: seq<nat>, e: seq<nat>, m: nat, j: nat)
    requires Complete(w, t) && NodeDepths(w, t, d) && LeafDepths(w, t, d, e) && j < |d|
    requires forall a :: 0 <= a < |e| ==> e[a] <= m
    requires forall b :: 0 <= b < |d| ==> d[b] < m
    ensures ChildrenAdd(w, t, KraftTerms(e, m), KraftTerms(d, m), KraftTerms(d, m), j)
  {
    assert NodesBelow(w, t, d, j) && LeavesBelow(w, t, d, e, j);
    var leaf, node := KraftTerms(e, m), KraftTerms(d, m);
    SumOfFew(leaf[t.leaves[j]..t.leaves[j + 1]]);
    SumOfFew(node[t.nodes[j]..t.nodes[j + 1]]);
    assert forall a :: t.leaves[j] <= a < t.leaves[j + 1] ==> leaf[a] == Pow2(m - d[j] - 1);
    assert forall b :: t.nodes[j] <= b < t.nodes[j + 1] ==> node[b] == Pow2(m - d[j] - 1);
  }

  // Every node has a leaf below it.
  lemma {:induction false} DeeperLeaf(w: seq<nat>, t: Trace, d: seq<nat>, e: seq<nat>, j: nat)
    requires Complete(w, t) && NodeDepths(w, t, d) && LeafDepths(w, t, d, e) && j < |d|
    ensures exists a :: 0 <= a < |e| && d[j] < e[a]
    decreases j
  {
    assert NodesBelow(w, t, d, j) && LeavesBelow(w, t, d, e, j);
    if t.leaves[j] < t.leaves[j + 1] {
      assert e[t.leaves[j]] == d[j] + 1;
    } else {
      DeeperLeaf(w, t, d, e, t.nodes[j]);
    }
  }

  // The tree's total weighted leaf depth is the sum of the node weights.
  lemma TreeCost(w: seq<nat>, t: Trace, d: seq<nat>, e: seq<nat>)
    requires Complete(w, t) && NodeDepths(w, t, d) && LeafDepths(w, t, d, e)
    ensures Cost(w, e) == Sum(t.weight)
  {
    var n := |d|;
    CompleteConsumes(w, t);
    var leaf, node := CostTerms(w, e), CostTerms(t.weight, d);
    var f: seq<int> := seq(n, j requires 0 <= j < n => node[j] + t.weight[j]);
    forall j | 0 <= j < n ensures ChildrenAdd(w, t, leaf, node, f, j) {
      ChildrenCost(w, t, d, e, j);
    }
    SumOverChildren(w, t, leaf, node, f, n);
    assert leaf[..|w|] == leaf && f[..n] == f;
    assert Sum(node) == Sum(node[..n - 1]);
    SumPointwise(node, t.weight, f);
  }

  lemma {:induction false} SumPointwise(s: seq<int>, t: seq<int>, u: seq<int>)
    requires |s| == |t| == |u|
    requires forall i :: 0 <= i < |s| ==> u[i] == s[i] + t[i]
    ensures Sum(u) == Sum(s) + Sum(t)
  {
    if s != [] {
      SumPointwise(s[..|s| - 1], t[..|s| - 1], u[..|s| - 1]);
    }
  }

  lemma ChildrenCost(w: seq<nat>, t: Trace, d: seq<nat>, e: seq<nat>, j: nat)
    requires Complete(w, t) && NodeDepths(w, t, d) && LeafDepths(w, t, d, e) && j < |d|
    ensures TakesTwo(w, t, j)
    ensures var leaf, node := CostTerms(w, e), CostTerms(t.weight, d);
      node[j] + t.weight[j]
      == Sum(leaf[t.leaves[j]..t.leaves[j + 1]]) + Sum(node[t.nodes[j]..t.nodes[j + 1]])
  {
    hide Sum, AtMostRest, Ascending;
    assert NodesBelow(w, t, d, j) && LeavesBelow(w, t, d, e, j);
    assert Greedy(w, t, j);
    var leaf, node := CostTerms(w, e), CostTerms(t.weight, d);
    var x := Taken(w, t, j);
    var h := d[j] + 1;
    var ls, ns := leaf[t.leaves[j]..t.leaves[j + 1]], node[t.nodes[j]..t.nodes[j + 1]];
    forall a | 0 <= a < |ls| ensures ls[a] == x[a] * h {
      assert ls[a] == w[t.leaves[j] + a] * h;
    }
    forall b | 0 <= b < |ns| ensures ns[b] == x[|ls| + b] * h {
      assert ns[b] == t.weight[t.nodes[j] + b] * h;
    }
    TwoTerms(ls, ns, x, h);
    Distribute(x[0], x[1], h);
  }

  lemma TwoTerms(ls: seq<int>, ns: seq<int>, x: seq<nat>, h: nat)
    requires |ls| + |ns| == |x| == 2
    requires forall a :: 0 <= a < |ls| ==> ls[a] == x[a] * h
    requires forall b :: 0 <= b < |ns| ==> ns[b] == x[|ls| + b] * h
    ensures Sum(ls) + Sum(ns) == x[0] * h + x[1] * h
  {
    hide Sum;
    SumOfFew(ls);
    SumOfFew(ns);
  }

  lemma Distribute(a: int, b: int, h: int)
    ensures a * h + b * h == (a + b) * (h - 1) + (a + b)
  {}

  // The tree is optimal: no lengths that meet Kraft's inequality cost less.
  lemma TreeOptimal(w: seq<nat>, t: Trace, d: seq<nat>, e: seq<nat>)
    requires Complete(w, t) && NodeDepths(w, t, d) && LeafDepths(w, t, d, e)
    ensures LowerBound(w, Cost(w, e))
  {
    TreeCost(w, t, d, e);
    TraceLowerBound(w, t, 0);
    assert Pending(w, t, 0) == w;
    assert t.weight[0..] == t.weight;
  }

  // ---------- depth bound ----------

  function Fib(n: nat): (f: nat)
  {
    if n < 2 then n else Fib(n - 1) + Fib(n - 2)
  }

  // Items are consumed in ascending order of weight: what a later merge takes is no lighter.
  lemma {:induction false} LaterTakenHeavier(w: seq<nat>, t: Trace, i: nat, j: nat, b: nat, x: nat)
    requires Complete(w, t) && i < j < |t.weight|
    requires Ascending(w) && Ascending(t.weight)
    requires t.nodes[i] <= b < t.nodes[i + 1]
    requires x < 2
    ensures TakesTwo(w, t, i) && TakesTwo(w, t, j)
    ensures t.weight[b] <= Taken(w, t, j)[x]
  {
    assert TakesTwo(w, t, i) && TakesTwo(w, t, j);
    assert Greedy(w, t, i);
    var y := Taken(w, t, i);
    assert t.weight[b] == y[t.leaves[i + 1] - t.leaves[i] + b - t.nodes[i]];
    Monotone(w, t, i + 1, j);
    var k := t.leaves[j + 1] - t.leaves[j];
    if x < k {
      assert Taken(w, t, j)[x] == w[t.leaves[j] + x];
    } else {
      assert Taken(w, t, j)[x] == t.weight[t.nodes[j] + x - k];
    }
  }

  // A node outweighs its child and grandchild together.
  lemma GrandparentOutweighs(w: seq<nat>, t: Trace, b: nat, p: nat, g: nat)
    requires Complete(w, t) && Ascending(w) && Ascending(t.weight)
    requires b < p < g < |t.weight|
    requires t.nodes[p] <= b < t.nodes[p + 1] && t.nodes[g] <= p < t.nodes[g + 1]
    ensures t.weight[g] >= t.weight[p] + t.weight[b]
  {
    assert TakesTwo(w, t, g) && Greedy(w, t, g);
    var x := Taken(w, t, g);
    var at := t.leaves[g + 1] - t.leaves[g] + p - t.nodes[g];
    assert x[at] == t.weight[p];
    LaterTakenHeavier(w, t, p, g, b, 1 - at);
  }

  // The total weight grows like the Fibonacci numbers with depth.
  lemma {:induction false} WeightByDepth(w: seq<nat>, t: Trace, d: seq<nat>, b: nat, p: nat)
    requires Complete(w, t) && NodeDepths(w, t, d) && Ascending(w) && Ascending(t.weight)
    requires b < p < |d| && t.nodes[p] <= b < t.nodes[p + 1]
    ensures d[b] == d[p] + 1
    ensures t.weight[|d| - 1] >= Fib(d[b]) * t.weight[p] + Fib(d[b] - 1) * t.weight[b]
    decreases |d| - p
  {
    assert NodesBelow(w, t, d, p);
    if p < |d| - 1 {
      CompleteConsumes(w, t);
      var g := ConsumerOfNode(w, t, p, |d|);
      WeightByDepth(w, t, d, p, g);
      GrandparentOutweighs(w, t, b, p, g);
      assert d[p] >= 1;
      FibStep(d[p], t.weight[g], t.weight[p], t.weight[b], t.weight[|d| - 1]);
    }
  }

  lemma FibArith(x: nat, y: nat, g: nat, p: nat, b: nat)
    requires g >= p + b
    ensures x * g + y * p >= (x + y) * p + x * b
  {
    assert x * (g - p - b) >= 0;
  }

  lemma FibStep(h: nat, g: nat, p: nat, b: nat, total: nat)
    requires h >= 1 && g >= p + b
    requires total >= Fib(h) * g + Fib(h - 1) * p
    ensures total >= Fib(h + 1) * p + Fib(h) * b
  {
    FibArith(Fib(h), Fib(h - 1), g, p, b);
  }

  lemma {:induction false} FibMono(a: nat, b: nat)
    requires a <= b
    ensures Fib(a) <= Fib(b)
  {
    if a < b {
      FibMono(a, b - 1);
    }
  }

  // Fib(22) and Fib(23), reached by unfolding two steps at a time.
  lemma FibValues()
    ensures Fib(21) == 10946 && Fib(22) == 17711
  {
    assert Fib(2) == 1 && Fib(3) == 2 && Fib(4) == 3 && Fib(5) == 5 && Fib(6) == 8;
    assert Fib(7) == 13 && Fib(8) == 21 && Fib(9) == 34 && Fib(10) == 55 && Fib(11) == 89;
    assert Fib(12) == 144 && Fib(13) == 233 && Fib(14) == 377 && Fib(15) == 610 && Fib(16) == 987;
    assert Fib(17) == 1597 && Fib(18) == 2584 && Fib(19) == 4181 && Fib(20) == 6765;
  }

  lemma FibProducts(h: nat, p: nat, b: nat)
    requires h >= 22 && p >= 3 && b >= 2
    ensures Fib(h) * p + Fib(h - 1) * b >= 65536
  {
    FibValues();
    FibMono(22, h);
    FibMono(21, h - 1);
    assert Fib(h) * p >= Fib(h) * 3;
    assert Fib(h - 1) * b >= Fib(h - 1) * 2;
  }

  // A node that has a consumer weighs at least 2, and its consumer at least 3.
  lemma ConsumerAtLeastThree(w: seq<nat>, t: Trace, b: nat, p: nat)
    requires Complete(w, t) && b < p < |t.weight| && t.nodes[p] <= b < t.nodes[p + 1]
    requires forall i :: 0 <= i < |w| ==> w[i] >= 1
    ensures t.weight[b] >= 2 && t.weight[p] >= 3
  {
    NodeAtLeastTwo(w, t, b);
    assert TakesTwo(w, t, p) && Greedy(w, t, p);
    var x := Taken(w, t, p);
    var at := t.leaves[p + 1] - t.leaves[p] + b - t.nodes[p];
    assert x[at] == t.weight[b];
    TakenPositive(w, t, p, 1 - at);
  }

  lemma NodeDepthBounded(w: seq<nat>, t: Trace, d: seq<nat>, b: nat)
    requires Complete(w, t) && NodeDepths(w, t, d) && b < |d|
    requires Ascending(w) && Ascending(t.weight)
    requires forall i :: 0 <= i < |w| ==> w[i] >= 1
    requires Sum(w) < 65536
    ensures d[b] <= 21
  {
    if b < |d| - 1 && d[b] >= 22 {
      CompleteConsumes(w, t);
      var p := ConsumerOfNode(w, t, b, |d|);
      WeightByDepth(w, t, d, b, p);
      NodeWeightBounded(w, t, |d| - 1);
      ConsumerAtLeastThree(w, t, b, p);
      FibProducts(d[b], t.weight[p], t.weight[b]);
    }
  }

  // With positive weights totalling less than 65536, no leaf is deeper than 22.
  lemma LeafDepthBounded(w: seq<nat>, t: Trace, d: seq<nat>, e: seq<nat>, a: nat)
    requires Complete(w, t) && NodeDepths(w, t, d) && LeafDepths(w, t, d, e)
    requires Ascending(w) && Ascending(t.weight) && a < |w|
    requires forall i :: 0 <= i < |w| ==> w[i] >= 1
    requires Sum(w) < 65536
    ensures 1 <= e[a] <= 22
  {
    CompleteConsumes(w, t);
    var b := ConsumerOfLeaf(w, t, a, |d|);
    assert LeavesBelow(w, t, d, e, b);
    NodeDepthBounded(w, t, d, b);
  }

  lemma {:induction false} NodeAtLeastTwo(w: seq<nat>, t: Trace, k: nat)
    requires Complete(w, t) && k < |t.weight|
    requires forall i :: 0 <= i < |w| ==> w[i] >= 1
    ensures t.weight[k] >= 2
    decreases k, 1
  {
    assert TakesTwo(w, t, k) && Greedy(w, t, k);
    TakenPositive(w, t, k, 0);
    TakenPositive(w, t, k, 1);
  }

  lemma {:induction false} TakenPositive(w: seq<nat>, t: Trace, k: nat, x: nat)
    requires Complete(w, t) && k < |t.weight| && x < 2
    requires forall i :: 0 <= i < |w| ==> w[i] >= 1
    ensures TakesTwo(w, t, k) && Taken(w, t, k)[x] >= 1
    decreases k, 0
  {
    assert TakesTwo(w, t, k);
    var n := t.leaves[k + 1] - t.leaves[k];
    if x < n {
      assert Taken(w, t, k)[x] == w[t.leaves[k] + x];
    } else {
      NodeAtLeastTwo(w, t, t.nodes[k] + x - n);
      assert Taken(w, t, k)[x] == t.weight[t.nodes[k] + x - n];
    }
  }
}
