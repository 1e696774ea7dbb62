/** The in-place Huffman length construction (Moffat and Katajainen) over an array of
    16-bit keys. Phase one merges weights and leaves parent indices behind, phase two turns
    parents into depths of internal nodes, phase three turns those into depths of leaves. */
module MinimumRedundancy {
  import opened Sums
  import opened PrefixCost
  import opened MergeTrace
  import opened DeepWeights

  // A symbol and its key: first its frequency, finally its code length. Both fields are 16 bits wide.
  datatype SymFreq = SymFreq(key: nat, sym: nat)

  function Keys(s: seq<SymFreq>): (r: seq<nat>)
    ensures |r| == |s|
  {
    seq(|s|, i requires 0 <= i < |s| => s[i].key)
  }

  function U16(x: nat): nat { x % 0x1_0000 }

  // What the caller guarantees: positive ascending frequencies whose total fits 16 bits.
  ghost predicate Frequencies(w: seq<nat>) {
    && Ascending(w)
    && (forall i :: 0 <= i < |w| ==> w[i] >= 1)
    && Sum(w) < 0x1_0000
  }

  // An optimal set of code lengths for w: Kraft sum one, none cheaper, longest first, at most 22.
  ghost predicate OptimalLengths(w: seq<nat>, e: seq<nat>) {
    && |e| == |w|
    && (forall i :: 0 <= i < |e| ==> 1 <= e[i] <= 22)
    && KraftSum(e, 32) == Pow2(32)
    && LowerBound(w, Cost(w, e))
    && forall i, j :: 0 <= i <= j < |e| ==> e[i] >= e[j]
  }

  // ---------- phase one ----------

  ghost function Extend(t: Trace, leaf: nat, root: nat, v: nat): Trace {
    Trace(t.leaves + [leaf], t.nodes + [root], t.weight + [v])
  }

  lemma ExtendShape(w: seq<nat>, t: Trace, leaf: nat, root: nat, v: nat)
    requires Valid(w, t)
    requires t.leaves[|t.weight|] <= leaf <= |w| && t.nodes[|t.weight|] <= root <= |t.weight|
    requires leaf - t.leaves[|t.weight|] + root - t.nodes[|t.weight|] == 2
    ensures Shape(w, Extend(t, leaf, root, v))
  {
    var t' := Extend(t, leaf, root, v);
    forall j | 0 <= j < |t'.weight| ensures TakesTwo(w, t', j) {
      if j < |t.weight| {
        assert TakesTwo(w, t, j);
      }
    }
  }

  lemma ExtendKeepsGreedy(w: seq<nat>, t: Trace, leaf: nat, root: nat, v: nat, j: nat)
    requires Valid(w, t) && Shape(w, Extend(t, leaf, root, v))
    requires j < |t.weight|
    ensures Greedy(w, Extend(t, leaf, root, v), j)
  {
    var t' := Extend(t, leaf, root, v);
    assert TakesTwo(w, t, j) && TakesTwo(w, t', j) && Greedy(w, t, j);
    assert Taken(w, t', j) == Taken(w, t, j);
  }

  // Appending a merge of two items no larger than the fronts they leave keeps the history valid.
  lemma ExtendTrace(w: seq<nat>, t: Trace, leaf: nat, root: nat, x: nat, y: nat)
    requires Valid(w, t) && Ascending(w) && Ascending(t.weight)
    requires Shape(w, Extend(t, leaf, root, x + y))
    requires var t' := Extend(t, leaf, root, x + y);
      TakesTwo(w, t', |t.weight|) && (Taken(w, t', |t.weight|) == [x, y] || Taken(w, t', |t.weight|) == [y, x])
    requires leaf < |w| ==> x <= w[leaf] && y <= w[leaf]
    requires root < |t.weight| ==> x <= t.weight[root] && y <= t.weight[root]
    ensures Valid(w, Extend(t, leaf, root, x + y))
  {
    var t' := Extend(t, leaf, root, x + y);
    var k := |t.weight|;
    forall j | 0 <= j < |t'.weight| ensures Greedy(w, t', j) {
      if j < k {
        ExtendKeepsGreedy(w, t, leaf, root, x + y, j);
      }
    }
  }

  // What merge j leaves behind, merge j + 1 takes, unless it takes node j itself.
  lemma RestTaken(w: seq<nat>, t: Trace, j: nat, x: nat, i: nat)
    requires Shape(w, t) && j + 1 < |t.weight| && AtMostRest(w, t, j, x) && i < 2
    requires TakesTwo(w, t, j) && TakesTwo(w, t, j + 1)
    requires t.nodes[j + 2] <= j || t.leaves[j + 2] == t.leaves[j + 1] + 2
    ensures x <= Taken(w, t, j + 1)[i]
  {
    var n := t.leaves[j + 2] - t.leaves[j + 1];
    var y := Taken(w, t, j + 1);
    if i < n {
      assert y[i] == w[t.leaves[j + 1] + i];
    } else {
      assert y[i] == t.weight[t.nodes[j + 1] + i - n];
    }
  }

  // Node weights grow from merge to merge.
  lemma WeightsAscend(w: seq<nat>, t: Trace, k: nat)
    requires Valid(w, t) && 0 < k < |t.weight|
    ensures t.weight[k - 1] <= t.weight[k]
  {
    assert TakesTwo(w, t, k - 1) && TakesTwo(w, t, k);
    assert Greedy(w, t, k - 1) && Greedy(w, t, k);
    var x, y := Taken(w, t, k - 1), Taken(w, t, k);
    var n := t.leaves[k + 1] - t.leaves[k];
    if t.nodes[k + 1] == k && n < 2 {
      assert y[1] == t.weight[k - 1];
    } else {
      RestTaken(w, t, k - 1, x[0], 0);
      RestTaken(w, t, k - 1, x[1], 1);
    }
  }

  lemma {:induction false} AscendingWeights(w: seq<nat>, t: Trace)
    requires Valid(w, t)
    ensures Ascending(t.weight)
  {
    forall i, j | 0 <= i <= j < |t.weight| ensures t.weight[i] <= t.weight[j] {
      AscendFrom(w, t, i, j);
    }
  }

  lemma {:induction false} AscendFrom(w: seq<nat>, t: Trace, i: nat, j: nat)
    requires Valid(w, t) && i <= j < |t.weight|
    ensures t.weight[i] <= t.weight[j]
  {
    if i < j {
      AscendFrom(w, t, i, j - 1);
      WeightsAscend(w, t, j);
    }
  }

  // The consumed nodes hold the index of their parent.
  ghost predicate Parents(a: seq<SymFreq>, t: Trace, k: nat)
    requires k < |t.weight| && |t.nodes| == |t.weight| + 1
  {
    forall b :: t.nodes[k] <= b < t.nodes[k + 1] && b < |a| ==> a[b].key == k
  }

  // What the array holds once `next` merges are done.
  ghost predicate MergeState(a: seq<SymFreq>, w: seq<nat>, t: Trace, leaf: nat, root: nat)
  {
    && Valid(w, t) && Ascending(t.weight)
    && |w| <= |a|
    && 1 <= |t.weight| < |w|
    && t.leaves[|t.weight|] == leaf && t.nodes[|t.weight|] == root
    && root < |t.weight| < leaf <= |w|
    && (forall i :: leaf <= i < |w| ==> a[i].key == w[i])
    && (forall b :: root <= b < |t.weight| ==> a[b].key == t.weight[b])
    && forall k :: 0 <= k < |t.weight| ==> Parents(a, t, k)
  }

  // Only keys among the first n entries differ.
  ghost predicate SameSyms(a: seq<SymFreq>, b: seq<SymFreq>, n: nat) {
    && |a| == |b|
    && (forall i :: 0 <= i < |a| ==> a[i].sym == b[i].sym)
    && forall i :: n <= i < |a| ==> a[i] == b[i]
  }

  // The state after the array's first two weights have been added.
  lemma FirstMerge(a: seq<SymFreq>, w: seq<nat>) returns (t: Trace)
    requires 2 <= |w| <= |a| && Ascending(w)
    requires a[0].key == w[0] + w[1]
    requires forall i :: 2 <= i < |w| ==> a[i].key == w[i]
    ensures MergeState(a, w, t, 2, 0)
    ensures |t.weight| == 1 && t.weight[0] == w[0] + w[1]
  {
    t := Trace([0, 2], [0, 0], [w[0] + w[1]]);
    assert TakesTwo(w, t, 0);
    assert Taken(w, t, 0) == [w[0], w[1]];
    assert Greedy(w, t, 0);
  }

  // The front item that a comparison of the two queues selects.
  ghost predicate Picks(w: seq<nat>, t: Trace, leaf: nat, root: nat, leaf': nat, root': nat, x: nat)
    requires leaf <= |w| && root <= |t.weight|
  {
    || (leaf' == leaf && root' == root + 1 && root < |t.weight| && x == t.weight[root]
        && (leaf < |w| ==> x <= w[leaf]))
    || (leaf' == leaf + 1 && root' == root && leaf < |w| && x == w[leaf]
        && (root < |t.weight| ==> x <= t.weight[root]))
  }

  lemma TakenByPicks(w: seq<nat>, t: Trace, l0: nat, r0: nat, l1: nat, r1: nat, l2: nat, r2: nat, x: nat, y: nat)
    requires Shape(w, t) && Shape(w, Extend(t, l2, r2, x + y))
    requires t.leaves[|t.weight|] == l0 <= |w| && t.nodes[|t.weight|] == r0 <= |t.weight|
    requires Picks(w, t, l0, r0, l1, r1, x) && l1 <= |w| && r1 <= |t.weight|
    requires Picks(w, t, l1, r1, l2, r2, y)
    ensures var t' := Extend(t, l2, r2, x + y);
      TakesTwo(w, t', |t.weight|) && (Taken(w, t', |t.weight|) == [x, y] || Taken(w, t', |t.weight|) == [y, x])
  {
    hide Greedy, Ascending;
    var t' := Extend(t, l2, r2, x + y);
    assert TakesTwo(w, t', |t.weight|);
    assert Taken(w, t', |t.weight|) == w[l0..l2] + t'.weight[r0..r2];
    if l2 == l0 + 2 {
      assert w[l0..l2] == [w[l0], w[l0 + 1]];
    } else if l2 == l0 + 1 {
      assert w[l0..l2] == [w[l0]] && t'.weight[r0..r2] == [t.weight[r0]];
    } else {
      assert t'.weight[r0..r2] == [t.weight[r0], t.weight[r0 + 1]];
    }
  }

  // Two picks in a row make one merge.
  lemma TwoPicks(w: seq<nat>, t: Trace, l0: nat, r0: nat, l1: nat, r1: nat, l2: nat, r2: nat, x: nat, y: nat)
    requires Valid(w, t) && Ascending(w) && Ascending(t.weight)
    requires t.leaves[|t.weight|] == l0 <= |w| && t.nodes[|t.weight|] == r0 <= |t.weight|
    requires Picks(w, t, l0, r0, l1, r1, x) && l1 <= |w| && r1 <= |t.weight|
    requires Picks(w, t, l1, r1, l2, r2, y)
    ensures Valid(w, Extend(t, l2, r2, x + y))
  {
    ExtendShape(w, t, l2, r2, x + y);
    var t' := Extend(t, l2, r2, x + y);
    assert TakesTwo(w, t', |t.weight|);
    TakenByPicks(w, t, l0, r0, l1, r1, l2, r2, x, y);
    ExtendTrace(w, t, l2, r2, x, y);
  }

  // The array state after one more merge; the entries that changed are named one by one.
  lemma MergeStateStep(a: seq<SymFreq>, a': seq<SymFreq>, w: seq<nat>, t: Trace,
                       l0: nat, r0: nat, l2: nat, r2: nat, v: nat)
    requires MergeState(a, w, t, l0, r0) && |a'| == |a| && |t.weight| + 1 < |w|
    requires var t' := Extend(t, l2, r2, v); Valid(w, t') && Ascending(t'.weight)
    requires l0 <= l2 <= |w| && r0 <= r2 <= |t.weight|
    requires a'[|t.weight|].key == v
    requires forall i :: 0 <= i < |a| && i != |t.weight| && !(r0 <= i < r2) ==> a'[i].key == a[i].key
    requires forall b :: r0 <= b < r2 ==> a'[b].key == |t.weight|
    ensures MergeState(a', w, Extend(t, l2, r2, v), l2, r2)
  {
    var t' := Extend(t, l2, r2, v);
    var k := |t.weight|;
    Consumed(w, t', k + 1);
    forall j | 0 <= j < |t'.weight| ensures Parents(a', t', j) {
      if j < k {
        assert Parents(a, t, j);
        Monotone(w, t, j + 1, k);
      }
    }
  }

  // Moves the lighter front, a node or a leaf, into the new node; the node taken records its parent.
  method PickFirst(a: array<SymFreq>, n: nat, leaf: nat, root: nat, next: nat, ghost w: seq<nat>, ghost t: Trace)
    returns (leaf': nat, root': nat, ghost x: nat)
    requires |w| == n <= a.Length && next == |t.weight| < n - 1 && n < 0x1_0000
    requires MergeState(a[..], w, t, leaf, root)
    modifies a
    ensures Picks(w, t, leaf, root, leaf', root', x) && leaf' + root' == leaf + root + 1
    ensures a[next] == old(a[next]).(key := x)
    ensures forall i :: 0 <= i < a.Length && i != next && !(root <= i < root') ==> a[i] == old(a[i])
    ensures forall b :: root <= b < root' ==> a[b] == old(a[b]).(key := next)
  {
    if leaf >= n || a[root].key < a[leaf].key {
      x := a[root].key;
      a[next] := a[next].(key := a[root].key);
      a[root] := a[root].(key := U16(next));
      leaf', root' := leaf, root + 1;
    } else {
      x := a[leaf].key;
      a[next] := a[next].(key := a[leaf].key);
      leaf', root' := leaf + 1, root;
    }
  }

  // Adds the lighter of the remaining fronts to the new node.
  method PickSecond(a: array<SymFreq>, n: nat, leaf: nat, root: nat, next: nat, ghost w: seq<nat>, ghost t: Trace,
                    ghost x: nat)
    returns (leaf': nat, root': nat, ghost y: nat)
    requires |w| == n <= a.Length && next == |t.weight| < n - 1 && n < 0x1_0000
    requires root <= next < leaf <= n && leaf + root == 2 * next + 1
    requires a[next].key == x
    requires forall i :: leaf <= i < n ==> a[i].key == w[i]
    requires forall b :: root <= b < next ==> a[b].key == t.weight[b]
    modifies a
    ensures Picks(w, t, leaf, root, leaf', root', y)
    ensures a[next] == old(a[next]).(key := U16(x + y))
    ensures forall i :: 0 <= i < a.Length && i != next && !(root <= i < root') ==> a[i] == old(a[i])
    ensures forall b :: root <= b < root' ==> a[b] == old(a[b]).(key := next)
  {
    if leaf >= n || (root < next && a[root].key < a[leaf].key) {
      y := a[root].key;
      a[next] := a[next].(key := U16(a[next].key + a[root].key));
      a[root] := a[root].(key := U16(next));
      leaf', root' := leaf, root + 1;
    } else {
      y := a[leaf].key;
      a[next] := a[next].(key := U16(a[next].key + a[leaf].key));
      leaf', root' := leaf + 1, root;
    }
  }

  // One merge: two picks and the bookkeeping of the history.
  method MergeTwo(a: array<SymFreq>, n: nat, leaf: nat, root: nat, next: nat, ghost w: seq<nat>, ghost t: Trace)
    returns (leaf': nat, root': nat, ghost t': Trace)
    requires |w| == n <= a.Length && next == |t.weight| < n - 1 && n < 0x1_0000
    requires Frequencies(w) && MergeState(a[..], w, t, leaf, root)
    modifies a
    ensures |t'.weight| == next + 1
    ensures MergeState(a[..], w, t', leaf', root')
    ensures SameSyms(a[..], old(a[..]), n)
  {
    hide Sum, Greedy, Parents, Ascending;
    ghost var a0 := a[..];
    Consumed(w, t, next);
    ghost var x, y: nat;
    leaf', root', x := PickFirst(a, n, leaf, root, next, w, t);
    ghost var l1, r1 := leaf', root';
    leaf', root', y := PickSecond(a, n, leaf', root', next, w, t, x);
    TwoPicks(w, t, leaf, root, l1, r1, leaf', root', x, y);
    t' := Extend(t, leaf', root', x + y);
    NodeWeightBounded(w, t', next);
    AscendingWeights(w, t');
    MergeStateStep(a0, a[..], w, t, leaf, root, leaf', root', x + y);
  }

  method MergeWeights(a: array<SymFreq>, n: nat) returns (ghost t: Trace)
    requires 2 <= n <= a.Length
    requires Frequencies(Keys(a[..n]))
    modifies a
    ensures SameSyms(a[..], old(a[..]), n)
    ensures Complete(Keys(old(a[..n])), t) && Ascending(t.weight)
    ensures forall k :: 0 <= k < n - 1 ==> Parents(a[..], t, k)
  {
    ghost var w := Keys(a[..n]);
    SumAtLeastLength(w);
    SumBoundsPair(w);
    a[0] := a[0].(key := U16(a[0].key + a[1].key));
    var root, leaf, next := 0, 2, 1;
    t := FirstMerge(a[..], w);
    while next < n - 1
      invariant 1 <= next <= n - 1
      invariant |t.weight| == next
      invariant MergeState(a[..], w, t, leaf, root)
      invariant SameSyms(a[..], old(a[..]), n)
    {
      leaf, root, t := MergeTwo(a, n, leaf, root, next, w, t);
      next := next + 1;
    }
  }

  lemma SumBoundsPair(w: seq<nat>)
    requires |w| >= 2
    ensures w[0] + w[1] <= Sum(w)
  {
    SumWithout(w, 0);
    SumNonNegative(Without(w, 0));
    assert Without(w, 0)[0] == w[1];
  }

  // ---------- phase two ----------

  // Depth of one node from its parent's, which is already known.
  method DepthOf(a: array<SymFreq>, next: nat, ghost w: seq<nat>, ghost t: Trace, ghost d: seq<nat>,
                 ghost p: nat, ghost from: nat)
    returns (ghost d': seq<nat>)
    requires Complete(w, t) && |d| == |t.weight| == |w| - 1 && |w| <= a.Length && |w| < 0x1_0000
    requires next < |d| - 1
    requires p < |d| && t.nodes[p] <= next < t.nodes[p + 1] && a[next].key == p
    requires forall j :: next < j < |d| ==> a[j].key == d[j] <= |d| - 1 - j
    requires from == next + 1 && forall k :: 0 <= k < |d| ==> NodesBelowFrom(w, t, d, k, from)
    modifies a
    ensures |d'| == |d| && forall j :: next < j < |d| ==> d'[j] == d[j]
    ensures a[next] == old(a[next]).(key := d'[next]) && d'[next] <= |d| - 1 - next
    ensures forall i :: 0 <= i < a.Length && i != next ==> a[i] == old(a[i])
    ensures forall k :: 0 <= k < |d| ==> NodesBelowFrom(w, t, d', k, next)
  {
    assert TakesTwo(w, t, p);
    a[next] := a[next].(key := U16(a[a[next].key].key + 1));
    d' := d[next := d[p] + 1];
    forall k | 0 <= k < |d| ensures NodesBelowFrom(w, t, d', k, next) {
      assert NodesBelowFrom(w, t, d, k, from);
      OrderOfConsumers(w, t, k, p);
      OrderOfConsumers(w, t, p, k);
    }
  }

  method NodeDepthsFromParents(a: array<SymFreq>, n: nat, ghost w: seq<nat>, ghost t: Trace) returns (ghost d: seq<nat>)
    requires 2 <= n <= a.Length && |w| == n < 0x1_0000
    requires Complete(w, t)
    requires forall k :: 0 <= k < n - 1 ==> Parents(a[..], t, k)
    modifies a
    ensures SameSyms(a[..], old(a[..]), n)
    ensures NodeDepths(w, t, d)
    ensures forall j :: 0 <= j < n - 1 ==> a[j].key == d[j]
  {
    CompleteConsumes(w, t);
    a[n - 2] := a[n - 2].(key := 0);
    d := seq(n - 1, _ => 0);
    var next := n - 3;
    ghost var from: nat := n - 2;
    forall k | 0 <= k < n - 1 ensures NodesBelowFrom(w, t, d, k, from) {
      assert TakesTwo(w, t, k);
      Monotone(w, t, k + 1, n - 1);
    }
    while next >= 0
      invariant -1 <= next <= n - 3 && from == next + 1
      invariant |d| == n - 1 && d[n - 2] == 0
      invariant forall j :: next < j < n - 1 ==> a[j].key == d[j] <= n - 2 - j
      invariant forall j :: 0 <= j <= next ==> a[j] == old(a[j])
      invariant forall k :: 0 <= k < n - 1 ==> NodesBelowFrom(w, t, d, k, from)
      invariant SameSyms(a[..], old(a[..]), n)
    {
      ghost var p := ConsumerOfNode(w, t, next, n - 1);
      assert Parents(old(a[..]), t, p);
      d := DepthOf(a, next, w, t, d, p, from);
      from := next;
      next := next - 1;
    }
    forall k | 0 <= k < |d| ensures NodesBelow(w, t, d, k) {
      assert NodesBelowFrom(w, t, d, k, 0);
    }
  }

  ghost predicate NodesBelowFrom(w: seq<nat>, t: Trace, d: seq<nat>, k: nat, from: nat)
    requires Shape(w, t) && k < |d| == |t.weight|
  {
    && TakesTwo(w, t, k)
    && forall b :: t.nodes[k] <= b < t.nodes[k + 1] && from <= b ==> d[b] == d[k] + 1
  }

  lemma OrderOfConsumers(w: seq<nat>, t: Trace, k: nat, root: int)
    requires Shape(w, t) && k < |t.weight| && -1 <= root < |t.weight|
    ensures k <= root ==> t.nodes[k + 1] <= t.nodes[root + 1] && t.leaves[k + 1] <= t.leaves[root + 1]
    ensures k > root ==> t.nodes[root + 1] <= t.nodes[k] && t.leaves[root + 1] <= t.leaves[k]
  {
    if k <= root {
      Monotone(w, t, k + 1, root + 1);
    } else {
      Monotone(w, t, root + 1, k);
    }
  }

  // ---------- phase three ----------

  ghost predicate LeavesSoFar(w: seq<nat>, t: Trace, d: seq<nat>, e: seq<nat>, j: nat)
    requires Shape(w, t) && j < |d| == |t.weight|
  {
    && TakesTwo(w, t, j)
    && forall a :: t.leaves[j] <= a < t.leaves[j + 1] && a < |e| ==> e[a] == d[j] + 1
  }

  lemma {:induction false} MakeLeafDepths(w: seq<nat>, t: Trace, d: seq<nat>, k: nat) returns (e: seq<nat>)
    requires Shape(w, t) && |d| == |t.weight| && k <= |d|
    ensures |e| == t.leaves[k]
    ensures forall j :: 0 <= j < k ==> LeavesSoFar(w, t, d, e, j)
  {
    if k == 0 {
      e := [];
    } else {
      var s := MakeLeafDepths(w, t, d, k - 1);
      assert TakesTwo(w, t, k - 1);
      e := s + seq(t.leaves[k] - t.leaves[k - 1], _ => d[k - 1] + 1);
      forall j | 0 <= j < k ensures LeavesSoFar(w, t, d, e, j) {
        if j < k - 1 {
          Monotone(w, t, j + 1, k - 1);
          assert LeavesSoFar(w, t, d, s, j);
        }
      }
    }
  }

  // Leaves below depth h are those consumed by nodes at depth h or below, and likewise for nodes.
  ghost predicate DeeperThan(w: seq<nat>, t: Trace, d: seq<nat>, e: seq<nat>, h: nat, root: int, next: int)
  {
    && (forall j :: 0 <= j < |d| ==> (d[j] >= h <==> j <= root))
    && (forall i :: 0 <= i < |e| ==> (e[i] >= h <==> i <= next))
  }

  lemma SamePrefix(d: seq<nat>, h: nat, x: nat, y: nat)
    requires x <= |d| && y <= |d|
    requires forall j :: 0 <= j < |d| ==> (d[j] >= h <==> j < x)
    requires forall j :: 0 <= j < |d| ==> (d[j] >= h <==> j < y)
    ensures x == y
  {
    assert x < |d| ==> !(d[x] >= h);
    assert y < |d| ==> !(d[y] >= h);
  }

  // One level further down: the fronts move to what the nodes up to root have consumed.
  lemma NextLevel(w: seq<nat>, t: Trace, d: seq<nat>, e: seq<nat>, h: nat, root: int, root': int, next: int)
    requires Complete(w, t) && NodeDepths(w, t, d) && LeafDepths(w, t, d, e)
    requires -1 <= root' <= root < |d|
    requires DeeperThan(w, t, d, e, h, root, next)
    requires forall j :: 0 <= j < |d| ==> (d[j] >= h + 1 <==> j <= root')
    ensures t.nodes[root + 1] == root' + 1
    ensures DeeperThan(w, t, d, e, h + 1, root', 2 * root - root')
  {
    CompleteConsumes(w, t);
    Consumed(w, t, root + 1);
    forall j | 0 <= j < |d| ensures d[j] >= h + 1 <==> j < t.nodes[root + 1] {
      if j == |d| - 1 {
        Monotone(w, t, root + 1, |d|);
      } else {
        var k := ConsumerOfNode(w, t, j, |d|);
        assert NodesBelow(w, t, d, k);
        OrderOfConsumers(w, t, k, root);
      }
    }
    assert t.nodes[root + 1] == root' + 1 by {
      Monotone(w, t, root + 1, |d|);
      SamePrefix(d, h + 1, t.nodes[root + 1], root' + 1);
    }
    forall i | 0 <= i < |e| ensures e[i] >= h + 1 <==> i <= 2 * root - root' {
      var k := ConsumerOfLeaf(w, t, i, |d|);
      assert LeavesBelow(w, t, d, e, k);
      OrderOfConsumers(w, t, k, root);
    }
  }

  // How many internal nodes lie at this depth.
  method CountInner(a: array<SymFreq>, root0: int, dpth: nat, ghost d: seq<nat>) returns (used: nat, root: int)
    requires -1 <= root0 < |d| <= a.Length
    requires forall j :: 0 <= j <= root0 ==> a[j].key == d[j]
    ensures -1 <= root == root0 - used
    ensures forall j :: root < j <= root0 ==> d[j] == dpth
    ensures root >= 0 ==> d[root] != dpth
  {
    used, root := 0, root0;
    while root >= 0 && a[root].key == dpth
      invariant -1 <= root == root0 - used
      invariant forall j :: root < j <= root0 ==> d[j] == dpth
    {
      used := used + 1;
      root := root - 1;
    }
  }

  // The nodes of this depth that are not internal are the next leaves.
  method WriteLeaves(a: array<SymFreq>, n: nat, next0: int, avbl0: nat, used: nat, dpth: nat, ghost e: seq<nat>)
    returns (next: int)
    requires used <= avbl0 && 0 <= next0 + 1 - (avbl0 - used) && next0 < n <= a.Length && |e| == n
    requires forall i :: next0 - (avbl0 - used) < i <= next0 ==> e[i] == dpth
    requires avbl0 > used ==> dpth < 0x1_0000
    requires forall i :: next0 < i < n ==> a[i].key == e[i]
    modifies a
    ensures next == next0 - (avbl0 - used)
    ensures forall i :: next < i < n ==> a[i].key == e[i]
    ensures forall i :: 0 <= i <= next ==> a[i] == old(a[i])
    ensures SameSyms(a[..], old(a[..]), n)
  {
    var avbl := avbl0;
    next := next0;
    while avbl > used
      invariant used <= avbl <= avbl0 && next == next0 - (avbl0 - avbl)
      invariant forall i :: next < i < n ==> a[i].key == e[i]
      invariant forall i :: 0 <= i <= next ==> a[i] == old(a[i])
      invariant SameSyms(a[..], old(a[..]), n)
    {
      a[next] := a[next].(key := U16(dpth));
      next := next - 1;
      avbl := avbl - 1;
    }
  }

  method LeafDepthsFromNodes(a: array<SymFreq>, n: nat, ghost w: seq<nat>, ghost t: Trace,
                             ghost d: seq<nat>, ghost e: seq<nat>)
    requires 2 <= n <= a.Length && |w| == n < 0x1_0000
    requires Complete(w, t) && NodeDepths(w, t, d) && LeafDepths(w, t, d, e)
    requires forall i :: 0 <= i < n ==> 1 <= e[i] < 0x1_0000
    requires forall j :: 0 <= j < n - 1 ==> a[j].key == d[j]
    modifies a
    ensures SameSyms(a[..], old(a[..]), n)
    ensures Keys(a[..n]) == e
  {
    var avbl, used, dpth := 1, 0, 0;
    var root, next := n - 2, n - 1;
    assert DeeperThan(w, t, d, e, 0, root, next);
    while avbl > 0
      invariant avbl >= 0 && used == 0 && -1 <= root <= n - 2 && next == root + avbl < n
      invariant DeeperThan(w, t, d, e, dpth, root, next)
      invariant forall j :: 0 <= j <= root ==> a[j].key == d[j]
      invariant forall i :: next < i < n ==> a[i].key == e[i]
      invariant avbl == 0 ==> root == -1
      invariant SameSyms(a[..], old(a[..]), n)
      decreases root + next + 2
    {
      ghost var r0 := root;
      used, root := CountInner(a, root, dpth, d);
      LevelEnds(w, t, d, e, dpth, r0, root, next);
      NextLevel(w, t, d, e, dpth, r0, root, next);
      Consumed(w, t, r0 + 1);
      assert r0 + used >= 0 ==> (r0 + used <= 2 * r0 - root <==> e[r0 + used] >= dpth + 1);
      forall i | r0 + used < i <= next ensures e[i] == dpth {
        assert e[i] >= dpth && !(e[i] >= dpth + 1);
      }
      assert avbl > used ==> e[next] == dpth;
      next := WriteLeaves(a, n, next, avbl, used, dpth, e);
      avbl := 2 * used;
      dpth := dpth + 1;
      used := 0;
    }
    assert Keys(a[..n]) == e;
  }

  lemma LevelEnds(w: seq<nat>, t: Trace, d: seq<nat>, e: seq<nat>, h: nat, r0: int, root: int, next: int)
    requires Complete(w, t) && NodeDepths(w, t, d)
    requires -1 <= root <= r0 < |d|
    requires DeeperThan(w, t, d, e, h, r0, next)
    requires forall j :: root < j <= r0 ==> d[j] == h
    requires root >= 0 ==> d[root] != h
    ensures forall j :: 0 <= j < |d| ==> (d[j] >= h + 1 <==> j <= root)
  {
    forall j | 0 <= j <= root ensures d[j] >= h + 1 {
      NodeDepthsDescend(w, t, d, j, root);
    }
  }

  // ---------- the whole routine ----------

  // The leaf depths of a complete history are optimal code lengths.
  lemma OptimalTree(w: seq<nat>, t: Trace, d: seq<nat>) returns (e: seq<nat>)
    requires Frequencies(w) && Ascending(t.weight)
    requires Complete(w, t) && NodeDepths(w, t, d)
    ensures LeafDepths(w, t, d, e) && OptimalLengths(w, e) && LightBelow(w, e)
  {
    CompleteConsumes(w, t);
    e := MakeLeafDepths(w, t, d, |d|);
    forall k | 0 <= k < |d| ensures LeavesBelow(w, t, d, e, k) {
      assert LeavesSoFar(w, t, d, e, k);
    }
    forall i | 0 <= i < |e| ensures 1 <= e[i] <= 22 {
      LeafDepthBounded(w, t, d, e, i);
    }
    TreeKraft(w, t, d, e, 32);
    TreeOptimal(w, t, d, e);
    TreeLightBelow(w, t, d, e);
    forall i, j | 0 <= i <= j < |e| ensures e[i] >= e[j] {
      LeafDepthsDescend(w, t, d, e, i, j);
    }
  }

  method CalculateMinimumRedundancy(a: array<SymFreq>, n: nat)
    requires n <= a.Length
    requires Frequencies(Keys(a[..n]))
    modifies a
    ensures SameSyms(a[..], old(a[..]), n)
    ensures n == 1 ==> a[0].key == 1
    ensures n >= 2 ==> OptimalLengths(Keys(old(a[..n])), Keys(a[..n])) && LightBelow(Keys(old(a[..n])), Keys(a[..n]))
  {
    hide LightBelow;
    if n == 0 {
      return;
    } else if n == 1 {
      a[0] := a[0].(key := 1);
      return;
    }
    ghost var w := Keys(a[..n]);
    SumAtLeastLength(w);
    ghost var t := MergeWeights(a, n);
    ghost var d := NodeDepthsFromParents(a, n, w, t);
    ghost var e := OptimalTree(w, t, d);
    LeafDepthsFromNodes(a, n, w, t, d, e);
  }
}
