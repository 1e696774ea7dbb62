/** The decompressor's lookup table and overflow tree for a prefix code given by its words.
    Entry r of the lookup answers for the ten bits that spell r; a negative entry points to a tree
    node, whose two slots continue its path by one bit. */
module DecodeTable {
  import opened Sums
  import opened Bits
  import opened Arith

  const MAX_BITS := 15
  const FAST_BITS := 10
  const FAST_SIZE := 1024
  const MAX_SYMBOLS := 288
  const TREE_SIZE := 576

  type Path = seq<bool>

  ghost predicate IsPrefix(s: Path, t: Path) {
    |s| <= |t| && t[..|s|] == s
  }

  // Symbol i has a code word; symbols without one have the empty word.
  ghost predicate Used(words: seq<Path>, i: int) {
    0 <= i < |words| && words[i] != []
  }

  ghost predicate PrefixCode(words: seq<Path>) {
    && |words| <= MAX_SYMBOLS
    && (forall i :: 0 <= i < |words| ==> |words[i]| <= MAX_BITS)
    && forall i, j :: Used(words, i) && Used(words, j) && IsPrefix(words[i], words[j]) ==> i == j
  }

  // A proper prefix of a code word, long enough to be a tree node.
  ghost predicate Inner(words: seq<Path>, s: Path) {
    && FAST_BITS <= |s|
    && exists i :: Used(words, i) && |s| < |words[i]| && IsPrefix(s, words[i])
  }

  // There are never too many tree nodes.
  ghost predicate NodesFit(words: seq<Path>) {
    forall strings: set<Path> :: (forall s :: s in strings ==> Inner(words, s)) ==> |strings| < MAX_SYMBOLS
  }

  lemma PrefixChain(u: Path, v: Path, s: Path)
    requires IsPrefix(u, s) && IsPrefix(v, s) && |u| <= |v|
    ensures IsPrefix(u, v)
  {
    assert v[..|u|] == s[..|v|][..|u|] == s[..|u|];
  }

  // At most one code word heads the bits.
  lemma OneMatch(words: seq<Path>, i: int, j: int, s: Path)
    requires PrefixCode(words) && Used(words, i) && Used(words, j)
    requires IsPrefix(words[i], s) && IsPrefix(words[j], s)
    ensures i == j
  {
    if |words[i]| <= |words[j]| {
      PrefixChain(words[i], words[j], s);
    } else {
      PrefixChain(words[j], words[i], s);
    }
  }

  // ---------- decoding with a table ----------

  // The tree slot that continues a node's path with bit b.
  function Slot(node: int, b: bool): int {
    -node - 1 + if b then 1 else 0
  }

  // Follows tree pointers along the bits; the symbol reached and the bits that are left.
  function Follow(tree: seq<int>, at: int, bits: Path): (r: (int, Path))
    requires |tree| == TREE_SIZE
    decreases |bits|
  {
    if at >= 0 || bits == [] || Slot(at, bits[0]) >= TREE_SIZE then (at, bits)
    else Follow(tree, tree[Slot(at, bits[0])], bits[1..])
  }

  // The symbol the table finds at the head of the bits, and the length of its code.
  function Decode(lookUp: seq<int>, tree: seq<int>, bits: Path): (r: (int, int))
    requires |lookUp| == FAST_SIZE && |tree| == TREE_SIZE && |bits| >= MAX_BITS
  {
    Pow2Table();
    var entry := lookUp[Value(bits[..FAST_BITS])];
    if entry >= 0 then (entry % 512, entry / 512)
    else
      var (sym, rest) := Follow(tree, entry, bits[FAST_BITS..]);
      (sym, |bits| - |rest|)
  }

  // ---------- what a table under construction holds ----------

  // The code of symbol i is short and heads the ten bits x.
  ghost predicate ShortMatch(words: seq<Path>, i: int, x: Path) {
    Used(words, i) && |words[i]| <= FAST_BITS && IsPrefix(words[i], x)
  }

  ghost predicate LongMatch(words: seq<Path>, i: int, s: Path) {
    Used(words, i) && |words[i]| > FAST_BITS && words[i] == s
  }

  // A lookup entry once the symbols below k are entered and the nodes in `at` exist.
  ghost predicate LookOk(words: seq<Path>, k: nat, at: map<Path, int>, x: Path, entry: int) {
    && (x in at ==> entry == at[x])
    && (forall i :: 0 <= i < k && ShortMatch(words, i, x) ==> entry == |words[i]| * 512 + i)
    && (x !in at && (forall i :: 0 <= i < k ==> !ShortMatch(words, i, x)) ==> entry == 0)
  }

  ghost predicate SlotOk(words: seq<Path>, k: nat, at: map<Path, int>, s: Path, entry: int) {
    && (s in at ==> entry == at[s])
    && (forall i :: 0 <= i < k && LongMatch(words, i, s) ==> entry == i)
    && (s !in at && (forall i :: 0 <= i < k ==> !LongMatch(words, i, s)) ==> entry == 0)
  }

  // Nodes are numbered -1, -3, -5, ... as they are made.
  ghost predicate Nodes(words: seq<Path>, at: map<Path, int>) {
    && (forall s :: s in at ==> Inner(words, s))
    && (forall s :: s in at ==> -2 * |at| < at[s] < 0 && at[s] % 2 == 1)
    && (forall s, t :: s in at && t in at && at[s] == at[t] ==> s == t)
  }

  ghost predicate LookUps(words: seq<Path>, k: nat, at: map<Path, int>, lookUp: seq<int>) {
    && |lookUp| == FAST_SIZE
    && forall r :: 0 <= r < FAST_SIZE ==> LookOk(words, k, at, LsbBits(r, FAST_BITS), lookUp[r])
  }

  // Both slots of every node.
  ghost predicate Slots(words: seq<Path>, k: nat, at: map<Path, int>, tree: seq<int>) {
    && |tree| == TREE_SIZE
    && forall s, b :: s in at && 0 <= Slot(at[s], b) < TREE_SIZE ==> SlotOk(words, k, at, s + [b], tree[Slot(at[s], b)])
  }

  // Every node on the way to a long code below k exists.
  ghost predicate PathsMade(words: seq<Path>, k: nat, at: map<Path, int>) {
    forall i, l :: 0 <= i < k && Used(words, i) && FAST_BITS <= l < |words[i]| ==> words[i][..l] in at
  }

  // A node's parent is a node.
  ghost predicate Closed(at: map<Path, int>) {
    forall s :: s in at && |s| > FAST_BITS ==> s[..|s| - 1] in at
  }

  // The part of the tree not given to a node is clear.
  ghost predicate Blank(at: map<Path, int>, tree: seq<int>) {
    forall i :: 2 * |at| <= i < |tree| ==> tree[i] == 0
  }

  ghost predicate Table(words: seq<Path>, k: nat, at: map<Path, int>, lookUp: seq<int>, tree: seq<int>) {
    && |lookUp| == FAST_SIZE && |tree| == TREE_SIZE
    && Nodes(words, at)
    && LookUps(words, k, at, lookUp)
    && Slots(words, k, at, tree)
    && PathsMade(words, k, at)
    && Closed(at)
    && Blank(at, tree)
  }

  lemma NodesInTree(words: seq<Path>, at: map<Path, int>)
    requires NodesFit(words) && Nodes(words, at)
    ensures |at| < MAX_SYMBOLS
    ensures forall s, b :: s in at ==> 0 <= Slot(at[s], b) < TREE_SIZE - 1
  {
    assert |at.Keys| < MAX_SYMBOLS;
    assert |at| == |at.Keys|;
  }

  // ---------- a finished table decodes ----------

  // The entry that ten bits select.
  lemma EntryFor(words: seq<Path>, at: map<Path, int>, lookUp: seq<int>, bits: Path)
    requires LookUps(words, |words|, at, lookUp) && |bits| >= MAX_BITS
    ensures Value(bits[..FAST_BITS]) < FAST_SIZE
    ensures LookOk(words, |words|, at, bits[..FAST_BITS], lookUp[Value(bits[..FAST_BITS])])
  {
    var x := bits[..FAST_BITS];
    BitsOfValue(x);
    Pow2Table();
    assert LookOk(words, |words|, at, LsbBits(Value(x), FAST_BITS), lookUp[Value(x)]);
  }

  lemma DecodeShort(words: seq<Path>, at: map<Path, int>, lookUp: seq<int>, tree: seq<int>, i: int, bits: Path)
    requires PrefixCode(words) && LookUps(words, |words|, at, lookUp) && |tree| == TREE_SIZE
    requires |words| <= MAX_SYMBOLS
    requires |bits| >= MAX_BITS && Used(words, i) && |words[i]| <= FAST_BITS && IsPrefix(words[i], bits)
    ensures Decode(lookUp, tree, bits) == (i, |words[i]|)
  {
    hide PrefixCode, LookUps, Follow;
    EntryFor(words, at, lookUp, bits);
    assert bits[..FAST_BITS][..|words[i]|] == bits[..|words[i]|];
    assert ShortMatch(words, i, bits[..FAST_BITS]);
    EntryParts(i, |words[i]|);
  }

  lemma EntryParts(i: nat, size: nat)
    requires i < 512
    ensures (size * 512 + i) % 512 == i && (size * 512 + i) / 512 == size
  {}

  lemma SlotAfter(words: seq<Path>, k: nat, at: map<Path, int>, tree: seq<int>, s: Path, b: bool)
    requires NodesFit(words) && Nodes(words, at) && Slots(words, k, at, tree) && s in at
    ensures 0 <= Slot(at[s], b) < TREE_SIZE == |tree| && SlotOk(words, k, at, s + [b], tree[Slot(at[s], b)])
  {
    hide NodesFit, Nodes, SlotOk;
    NodesInTree(words, at);
  }

  // The slot that continues a node's path towards the code of symbol i.
  lemma SlotTowards(words: seq<Path>, at: map<Path, int>, tree: seq<int>, i: int, l: nat)
    requires NodesFit(words) && Nodes(words, at)
    requires Slots(words, |words|, at, tree) && PathsMade(words, |words|, at)
    requires Used(words, i) && FAST_BITS <= l < |words[i]|
    ensures words[i][..l] in at && 0 <= Slot(at[words[i][..l]], words[i][l]) < TREE_SIZE
    ensures var next := tree[Slot(at[words[i][..l]], words[i][l])];
      if l + 1 == |words[i]| then next == i else words[i][..l + 1] in at && next == at[words[i][..l + 1]]
  {
    hide NodesFit, Inner, IsPrefix, Nodes, Slots;
    var w := words[i];
    var s, b := w[..l], w[l];
    assert s in at;
    SlotAfter(words, |words|, at, tree, s, b);
    assert s + [b] == w[..l + 1];
    if l + 1 == |w| {
      assert LongMatch(words, i, s + [b]);
    }
  }

  lemma {:induction false} FollowLong(words: seq<Path>, at: map<Path, int>, tree: seq<int>, i: int, bits: Path, l: nat)
    requires NodesFit(words) && Nodes(words, at)
    requires Slots(words, |words|, at, tree) && PathsMade(words, |words|, at)
    requires Used(words, i) && FAST_BITS <= l < |words[i]| && IsPrefix(words[i], bits)
    ensures words[i][..l] in at
    ensures Follow(tree, at[words[i][..l]], bits[l..]) == (i, bits[|words[i]|..])
    decreases |words[i]| - l
  {
    var w := words[i];
    SlotTowards(words, at, tree, i, l);
    assert w[l] == bits[..|w|][l];
    assert bits[l..][1..] == bits[l + 1..];
    if l + 1 < |w| {
      FollowLong(words, at, tree, i, bits, l + 1);
    }
  }

  lemma DecodeLong(words: seq<Path>, at: map<Path, int>, lookUp: seq<int>, tree: seq<int>, i: int, bits: Path)
    requires NodesFit(words) && Nodes(words, at) && LookUps(words, |words|, at, lookUp)
    requires Slots(words, |words|, at, tree) && PathsMade(words, |words|, at)
    requires |bits| >= MAX_BITS && Used(words, i) && |words[i]| > FAST_BITS && IsPrefix(words[i], bits)
    ensures Decode(lookUp, tree, bits) == (i, |words[i]|)
  {
    hide LookUps, Slots, Nodes, PathsMade, NodesFit;
    EntryFor(words, at, lookUp, bits);
    FollowLong(words, at, tree, i, bits, FAST_BITS);
    assert words[i][..FAST_BITS] == bits[..|words[i]|][..FAST_BITS] == bits[..FAST_BITS];
  }

  // A finished table finds the symbol whose code heads the bits, and its exact length.
  lemma DecodeWord(words: seq<Path>, at: map<Path, int>, lookUp: seq<int>, tree: seq<int>, i: int, bits: Path)
    requires PrefixCode(words) && NodesFit(words) && Table(words, |words|, at, lookUp, tree)
    requires |bits| >= MAX_BITS && Used(words, i) && IsPrefix(words[i], bits)
    ensures Decode(lookUp, tree, bits) == (i, |words[i]|)
  {
    if |words[i]| <= FAST_BITS {
      DecodeShort(words, at, lookUp, tree, i, bits);
    } else {
      DecodeLong(words, at, lookUp, tree, i, bits);
    }
  }

  // ---------- entering a short code ----------

  // No node's path runs through a short code, or ends on any code.
  lemma InnerIsNoCode(words: seq<Path>, i: int, s: Path)
    requires PrefixCode(words) && Used(words, i) && Inner(words, s)
    ensures !IsPrefix(words[i], s)
  {
    var j :| Used(words, j) && |s| < |words[j]| && IsPrefix(s, words[j]);
    if |words[i]| <= |s| {
      assert words[j][..|words[i]|] == words[j][..|s|][..|words[i]|];
    }
  }

  // The numbers below 1024 that end in the reversed code are those whose bits start with it.
  lemma SameResidue(r: nat, rev: nat, size: nat)
    requires size <= FAST_BITS && rev < Pow2(size)
    ensures LsbBits(r, FAST_BITS)[..size] == LsbBits(rev, size) <==> r % Pow2(size) == rev
  {
    LsbPrefix(r, size, FAST_BITS);
    LsbModulo(r, size);
    ValueOfBits(rev, size);
    ValueOfBits(r % Pow2(size), size);
  }

  lemma ShortEntry(words: seq<Path>, k: nat, at: map<Path, int>, x: Path, entry: int, entry': int)
    requires PrefixCode(words) && Nodes(words, at) && Used(words, k) && |words[k]| <= FAST_BITS && |x| == FAST_BITS
    requires LookOk(words, k, at, x, entry)
    requires entry' == if IsPrefix(words[k], x) then |words[k]| * 512 + k else entry
    ensures LookOk(words, k + 1, at, x, entry')
  {
    if IsPrefix(words[k], x) {
      assert ShortMatch(words, k, x);
      if x in at {
        InnerIsNoCode(words, k, x);
      }
      forall i | 0 <= i < k + 1 && ShortMatch(words, i, x) ensures i == k {
        OneMatch(words, i, k, x);
      }
    } else {
      assert !ShortMatch(words, k, x);
    }
  }

  method InsertShort(lookUp: array<int>, sym: nat, rev: nat, size: nat, ghost words: seq<Path>, ghost at: map<Path, int>)
    requires lookUp.Length == FAST_SIZE && 0 < size <= FAST_BITS
    requires PrefixCode(words) && Nodes(words, at) && LookUps(words, sym, at, lookUp[..])
    requires Used(words, sym) && |words[sym]| == size && rev < Pow2(size) && LsbBits(rev, size) == words[sym]
    modifies lookUp
    ensures LookUps(words, sym + 1, at, lookUp[..])
  {
    ghost var old' := lookUp[..];
    FillEvery(lookUp, rev, Pow2(size), size * 512 + sym);
    ghost var new' := lookUp[..];
    forall r | 0 <= r < FAST_SIZE ensures LookOk(words, sym + 1, at, LsbBits(r, FAST_BITS), new'[r]) {
      SameResidue(r, rev, size);
      ShortEntry(words, sym, at, LsbBits(r, FAST_BITS), old'[r], new'[r]);
    }
  }

  // Writes the entry at every step-th place from start on.
  method FillEvery(lookUp: array<int>, start: nat, step: nat, entry: int)
    requires lookUp.Length == FAST_SIZE && start < step
    modifies lookUp
    ensures forall r :: 0 <= r < FAST_SIZE ==> lookUp[r] == if r % step == start then entry else old(lookUp[r])
  {
    var at := start;
    ghost var turns := 0;
    while at < FAST_SIZE
      invariant at == start + step * turns
      invariant forall r :: 0 <= r < FAST_SIZE ==>
        lookUp[r] == if r % step == start && r < at then entry else old(lookUp[r])
      decreases FAST_SIZE - at
    {
      ghost var before := at;
      NextOfResidue(start, step, turns);
      lookUp[at] := entry;
      at := at + step;
      turns := turns + 1;
    }
  }

  // Between two neighbours of a residue class there is no third.
  lemma NextOfResidue(start: nat, step: nat, turns: nat)
    requires start < step
    ensures (start + step * turns) % step == start
    ensures step * (turns + 1) == step * turns + step
    ensures forall r :: start + step * turns < r < start + step * turns + step ==> r % step != start
  {
    DivUnique(start + step * turns, step, turns, start);
    forall r | start + step * turns < r < start + step * turns + step ensures r % step != start {
      var d := r - step * turns;
      if d < step {
        DivUnique(r, step, turns, d);
      } else {
        DivUnique(r, step, turns + 1, d - step);
      }
    }
  }

  // ---------- entering a long code ----------

  lemma OneMoreKey(at: map<Path, int>, s: Path, v: int)
    requires s !in at
    ensures |at[s := v]| == |at| + 1
  {
    assert at[s := v].Keys == at.Keys + {s};
    assert |at[s := v].Keys| == |at[s := v]|;
  }

  // Adding a node below an existing one, or at the root.
  lemma NewNode(words: seq<Path>, at: map<Path, int>, s: Path)
    requires Nodes(words, at) && s !in at && Inner(words, s)
    ensures |at[s := -1 - 2 * |at|]| == |at| + 1
    ensures Nodes(words, at[s := -1 - 2 * |at|])
  {
    var n := -1 - 2 * |at|;
    var at' := at[s := n];
    OneMoreKey(at, s, n);
    assert n % 2 == 1;
    forall t | t in at' ensures -2 * |at'| < at'[t] < 0 && at'[t] % 2 == 1 {
      assert t != s ==> at'[t] == at[t];
    }
  }

  lemma ClosedWithNode(at: map<Path, int>, s: Path, v: int)
    requires Closed(at) && (|s| > FAST_BITS ==> s[..|s| - 1] in at)
    ensures Closed(at[s := v])
  {}

  // Making the node for the first ten bits of code k.
  lemma RootNode(words: seq<Path>, k: nat, at: map<Path, int>, lookUp: seq<int>, tree: seq<int>, at': map<Path, int>)
    requires PrefixCode(words) && Used(words, k) && |words[k]| > FAST_BITS
    requires LookUps(words, k, at, lookUp)
    requires var x := words[k][..FAST_BITS]; x !in at && at' == at[x := -1 - 2 * |at|]
    ensures var r := Value(words[k][..FAST_BITS]);
      r < FAST_SIZE && LookUps(words, k, at', lookUp[r := -1 - 2 * |at|])
  {
    var x := words[k][..FAST_BITS];
    Pow2Table();
    var n := Value(x);
    BitsOfValue(x);
    var lookUp' := lookUp[n := -1 - 2 * |at|];
    forall r | 0 <= r < FAST_SIZE ensures LookOk(words, k, at', LsbBits(r, FAST_BITS), lookUp'[r]) {
      assert LookOk(words, k, at, LsbBits(r, FAST_BITS), lookUp[r]);
      if r == n {
        forall i | 0 <= i < k ensures !ShortMatch(words, i, x) {
          NoShortBefore(words, i, k);
        }
      } else {
        Pow2Table();
        ValueOfBits(r, FAST_BITS);
      }
    }
  }

  // A short code does not head a longer one.
  lemma NoShortBefore(words: seq<Path>, i: int, k: int)
    requires PrefixCode(words) && Used(words, k) && |words[k]| > FAST_BITS
    ensures !ShortMatch(words, i, words[k][..FAST_BITS])
  {
    if Used(words, i) && |words[i]| <= FAST_BITS {
      assert words[k][..FAST_BITS][..|words[i]|] == words[k][..|words[i]|];
    }
  }

  // What writing a new node's pointer may change: the slot leading to it, and nothing else in use.
  ghost predicate PointsToNew(at: map<Path, int>, s: Path, t: Path, b: bool, tree: seq<int>, tree': seq<int>)
    requires t in at && |tree| == |tree'| == TREE_SIZE
  {
    var slot := Slot(at[t], b);
    0 <= slot < TREE_SIZE ==> tree'[slot] == if t + [b] == s then -1 - 2 * |at| else tree[slot]
  }

  lemma SlotWithNode(words: seq<Path>, k: nat, at: map<Path, int>, s: Path, t: Path, b: bool, entry: int, entry': int)
    requires PrefixCode(words) && s !in at && Inner(words, s)
    requires SlotOk(words, k, at, t + [b], entry)
    requires entry' == if t + [b] == s then -1 - 2 * |at| else entry
    ensures SlotOk(words, k, at[s := -1 - 2 * |at|], t + [b], entry')
  {
    if t + [b] == s {
      forall i | 0 <= i < k ensures !LongMatch(words, i, s) {
        if Used(words, i) {
          InnerIsNoCode(words, i, s);
        }
      }
    }
  }

  // The slots stay right when a node is added and its own slot, if it has one, points to it.
  lemma SlotsWithNode(words: seq<Path>, k: nat, at: map<Path, int>, tree: seq<int>, s: Path, tree': seq<int>)
    requires PrefixCode(words) && Closed(at) && PathsMade(words, k, at)
    requires s !in at && Inner(words, s)
    requires Slots(words, k, at, tree) && |tree'| == TREE_SIZE
    requires forall t, b :: t in at ==> PointsToNew(at, s, t, b, tree, tree')
    requires forall i :: 2 * |at| <= i < TREE_SIZE ==> tree'[i] == 0
    ensures Slots(words, k, at[s := -1 - 2 * |at|], tree')
  {
    var at' := at[s := -1 - 2 * |at|];
    forall t, b | t in at' && 0 <= Slot(at'[t], b) < TREE_SIZE
      ensures SlotOk(words, k, at', t + [b], tree'[Slot(at'[t], b)])
    {
      if t == s {
        FreshSlot(words, k, at, s, b);
        assert t + [b] != s;
      } else {
        assert PointsToNew(at, s, t, b, tree, tree');
        SlotWithNode(words, k, at, s, t, b, tree[Slot(at[t], b)], tree'[Slot(at[t], b)]);
      }
    }
  }

  // Nothing continues a path that has no node yet.
  lemma FreshSlot(words: seq<Path>, k: nat, at: map<Path, int>, s: Path, b: bool)
    requires Closed(at) && PathsMade(words, k, at) && s !in at && |s| >= FAST_BITS
    ensures s + [b] !in at
    ensures forall i :: 0 <= i < k ==> !LongMatch(words, i, s + [b])
  {
    var u := s + [b];
    assert u[..|u| - 1] == s;
    forall i | 0 <= i < k ensures !LongMatch(words, i, u) {
      if Used(words, i) && |words[i]| > |s| {
        assert words[i][..|s|] in at;
      }
    }
  }

  // A code's prefixes of ten bits and more, short of the whole, are inner paths.
  lemma PrefixIsInner(words: seq<Path>, k: nat, l: nat)
    requires Used(words, k) && FAST_BITS <= l < |words[k]|
    ensures Inner(words, words[k][..l])
  {}

  // The invariant while symbol k is being entered, and the number of the next node.
  ghost predicate Building(words: seq<Path>, k: nat, at: map<Path, int>, lookUp: seq<int>, tree: seq<int>, treeNext: int) {
    && PrefixCode(words) && NodesFit(words)
    && Table(words, k, at, lookUp, tree)
    && treeNext == -1 - 2 * |at|
  }

  method EnterRoot(lookUp: array<int>, rev: nat, treeNext: int,
                   ghost words: seq<Path>, ghost k: nat, ghost at: map<Path, int>, ghost tree: seq<int>)
    returns (cur: int, treeNext': int, ghost at': map<Path, int>)
    requires lookUp.Length == FAST_SIZE
    requires Building(words, k, at, lookUp[..], tree, treeNext)
    requires Used(words, k) && |words[k]| > FAST_BITS && rev % FAST_SIZE == Value(words[k][..FAST_BITS])
    modifies lookUp
    ensures Building(words, k, at', lookUp[..], tree, treeNext')
    ensures words[k][..FAST_BITS] in at' && cur == at'[words[k][..FAST_BITS]]
  {
    hide LookUps, Slots, Nodes, PathsMade, Closed, Blank, NodesFit, PrefixCode, Inner, Linked;
    ghost var x := words[k][..FAST_BITS];
    ghost var before := lookUp[..];
    RootEntry(words, k, at, before);
    PrefixIsInner(words, k, FAST_BITS);
    cur := lookUp[rev % FAST_SIZE];
    treeNext' := treeNext;
    at' := at;
    if cur == 0 {
      NodesInTree(words, at);
      lookUp[rev % FAST_SIZE] := treeNext;
      cur := treeNext;
      treeNext' := treeNext - 2;
      at' := at[x := treeNext];
      assert lookUp[..] == before[Value(x) := treeNext];
      RootNode(words, k, at, before, tree, at');
      LinkedRoot(words, at, x, tree);
      AddedNode(words, k, at, tree, x, tree);
      PathsStay(words, k, at, x, treeNext);
    }
  }

  // The root entry of a long code: its node, or nothing.
  lemma RootEntry(words: seq<Path>, k: nat, at: map<Path, int>, lookUp: seq<int>)
    requires PrefixCode(words) && Nodes(words, at) && LookUps(words, k, at, lookUp)
    requires Used(words, k) && |words[k]| > FAST_BITS
    ensures var x := words[k][..FAST_BITS];
      && Value(x) < FAST_SIZE
      && (x in at ==> lookUp[Value(x)] == at[x] < 0)
      && (x !in at ==> lookUp[Value(x)] == 0)
  {
    var x := words[k][..FAST_BITS];
    Pow2Table();
    BitsOfValue(x);
    var n := Value(x);
    assert LookOk(words, k, at, LsbBits(n, FAST_BITS), lookUp[n]);
    forall i | 0 <= i < k ensures !ShortMatch(words, i, x) {
      NoShortBefore(words, i, k);
    }
  }

  lemma PathsStay(words: seq<Path>, k: nat, at: map<Path, int>, s: Path, v: int)
    requires PathsMade(words, k, at)
    ensures PathsMade(words, k, at[s := v])
  {}

  // The tree after the new node's pointer is written into its parent's slot.
  ghost predicate Linked(at: map<Path, int>, s: Path, tree: seq<int>, tree': seq<int>) {
    && |tree| == |tree'| == TREE_SIZE
    && (forall t, b :: t in at ==> PointsToNew(at, s, t, b, tree, tree'))
    && forall i :: 2 * |at| <= i < TREE_SIZE ==> tree'[i] == tree[i]
  }

  lemma LinkedRoot(words: seq<Path>, at: map<Path, int>, s: Path, tree: seq<int>)
    requires Nodes(words, at) && |s| == FAST_BITS && |tree| == TREE_SIZE
    ensures Linked(at, s, tree, tree)
  {
    forall t, b | t in at ensures PointsToNew(at, s, t, b, tree, tree) {
      assert Inner(words, t);
      assert |t + [b]| > |s|;
    }
  }

  lemma LinkedBelow(words: seq<Path>, at: map<Path, int>, u: Path, c: bool, tree: seq<int>)
    requires NodesFit(words) && Nodes(words, at) && u in at && |tree| == TREE_SIZE
    ensures 0 <= Slot(at[u], c) < TREE_SIZE
    ensures Linked(at, u + [c], tree, tree[Slot(at[u], c) := -1 - 2 * |at|])
  {
    NodesInTree(words, at);
    var tree' := tree[Slot(at[u], c) := -1 - 2 * |at|];
    forall t, b | t in at ensures PointsToNew(at, u + [c], t, b, tree, tree') {
      SlotsDiffer(words, at, t, b, u, c);
      SnocInjective(t, b, u, c);
    }
  }

  lemma SnocInjective(t: Path, b: bool, u: Path, c: bool)
    ensures t + [b] == u + [c] <==> t == u && b == c
  {
    assert (t + [b])[..|t|] == t && (u + [c])[..|u|] == u;
    assert (t + [b])[|t|] == b && (u + [c])[|u|] == c;
  }

  // All but the lookups, after a node is added.
  lemma AddedNode(words: seq<Path>, k: nat, at: map<Path, int>, tree: seq<int>, s: Path, tree': seq<int>)
    requires PrefixCode(words) && Nodes(words, at) && Closed(at) && PathsMade(words, k, at)
    requires s !in at && Inner(words, s) && (|s| > FAST_BITS ==> s[..|s| - 1] in at)
    requires Slots(words, k, at, tree) && Blank(at, tree) && Linked(at, s, tree, tree')
    ensures var at' := at[s := -1 - 2 * |at|];
      |at'| == |at| + 1 && Nodes(words, at') && Closed(at') && Slots(words, k, at', tree') && Blank(at', tree')
  {
    NewNode(words, at, s);
    ClosedWithNode(at, s, -1 - 2 * |at|);
    SlotsWithNode(words, k, at, tree, s, tree');
  }

  // Different continuations have different slots.
  lemma SlotsDiffer(words: seq<Path>, at: map<Path, int>, t: Path, b: bool, u: Path, c: bool)
    requires Nodes(words, at) && t in at && u in at
    ensures Slot(at[t], b) == Slot(at[u], c) ==> t == u && b == c
  {}

  // The slot on the way to a long code: the next node, or nothing.
  lemma SlotEntry(words: seq<Path>, k: nat, at: map<Path, int>, tree: seq<int>, l: nat)
    requires PrefixCode(words) && NodesFit(words) && Nodes(words, at) && Slots(words, k, at, tree)
    requires Used(words, k) && FAST_BITS <= l < |words[k]| - 1 && words[k][..l] in at
    ensures var slot, s := Slot(at[words[k][..l]], words[k][l]), words[k][..l + 1];
      0 <= slot < TREE_SIZE && (s in at ==> tree[slot] == at[s] < 0) && (s !in at ==> tree[slot] == 0)
  {
    hide NodesFit, PrefixCode, Inner, LongMatch, Slots;
    var u, b, s := words[k][..l], words[k][l], words[k][..l + 1];
    assert u + [b] == s;
    SlotAfter(words, k, at, tree, u, b);
    PrefixIsInner(words, k, l + 1);
    NoCodeThere(words, k, s);
  }

  lemma NoCodeThere(words: seq<Path>, k: nat, s: Path)
    requires PrefixCode(words) && Inner(words, s)
    ensures forall i :: 0 <= i < k ==> !LongMatch(words, i, s)
  {
    forall i | 0 <= i < k ensures !LongMatch(words, i, s) {
      if Used(words, i) {
        InnerIsNoCode(words, i, s);
      }
    }
  }

  // Lookups do not change when a node deeper than ten bits is added.
  lemma LookUpsStay(words: seq<Path>, k: nat, at: map<Path, int>, lookUp: seq<int>, s: Path, v: int)
    requires LookUps(words, k, at, lookUp) && |s| > FAST_BITS
    ensures LookUps(words, k, at[s := v], lookUp)
  {
    forall r | 0 <= r < FAST_SIZE ensures LookOk(words, k, at[s := v], LsbBits(r, FAST_BITS), lookUp[r]) {
      assert LookOk(words, k, at, LsbBits(r, FAST_BITS), lookUp[r]);
    }
  }

  // One step down the tree towards code k, making the next node if it is missing.
  method Descend(tree: array<int>, cur: int, bit: bool, treeNext: int,
                 ghost words: seq<Path>, ghost k: nat, ghost at: map<Path, int>, ghost lookUp: seq<int>, ghost l: nat)
    returns (cur': int, treeNext': int, ghost at': map<Path, int>)
    requires tree.Length == TREE_SIZE
    requires Building(words, k, at, lookUp, tree[..], treeNext)
    requires Used(words, k) && FAST_BITS <= l && l + 1 < |words[k]|
    requires words[k][..l] in at && cur == at[words[k][..l]] && bit == words[k][l]
    modifies tree
    ensures Building(words, k, at', lookUp, tree[..], treeNext')
    ensures words[k][..l + 1] in at' && cur' == at'[words[k][..l + 1]]
  {
    hide LookUps, Slots, Nodes, PathsMade, Closed, Blank, NodesFit, PrefixCode, Inner, Linked;
    ghost var u, s, before := words[k][..l], words[k][..l + 1], tree[..];
    assert u + [bit] == s && s[..|s| - 1] == u;
    SlotEntry(words, k, at, before, l);
    PrefixIsInner(words, k, l + 1);
    cur' := cur - if bit then 1 else 0;
    treeNext' := treeNext;
    at' := at;
    if tree[-cur' - 1] == 0 {
      LinkedBelow(words, at, u, bit, before);
      tree[-cur' - 1] := treeNext;
      assert tree[..] == before[Slot(at[u], bit) := treeNext];
      cur' := treeNext;
      treeNext' := treeNext - 2;
      at' := at[s := treeNext];
      AddedNode(words, k, at, before, s, tree[..]);
      LookUpsStay(words, k, at, lookUp, s, treeNext);
      PathsStay(words, k, at, s, treeNext);
    } else {
      cur' := tree[-cur' - 1];
    }
  }

  // ---------- the leaf of a long code ----------

  lemma LeafLookUps(words: seq<Path>, k: nat, at: map<Path, int>, lookUp: seq<int>)
    requires LookUps(words, k, at, lookUp) && Used(words, k) && |words[k]| > FAST_BITS
    ensures LookUps(words, k + 1, at, lookUp)
  {
    forall r | 0 <= r < FAST_SIZE ensures LookOk(words, k + 1, at, LsbBits(r, FAST_BITS), lookUp[r]) {
      assert LookOk(words, k, at, LsbBits(r, FAST_BITS), lookUp[r]);
    }
  }

  lemma {:induction false} LeafPaths(words: seq<Path>, k: nat, at: map<Path, int>, l: nat)
    requires Closed(at) && Used(words, k) && FAST_BITS <= l < |words[k]| && words[k][..|words[k]| - 1] in at
    ensures words[k][..l] in at
    decreases |words[k]| - l
  {
    if l < |words[k]| - 1 {
      LeafPaths(words, k, at, l + 1);
      assert words[k][..l + 1][..l] == words[k][..l];
    }
  }

  lemma LeafSlots(words: seq<Path>, k: nat, at: map<Path, int>, tree: seq<int>, u: Path, c: bool)
    requires PrefixCode(words) && NodesFit(words) && Nodes(words, at) && Slots(words, k, at, tree)
    requires Used(words, k) && |words[k]| > FAST_BITS && u in at && words[k] == u + [c]
    ensures 0 <= Slot(at[u], c) < TREE_SIZE
    ensures Slots(words, k + 1, at, tree[Slot(at[u], c) := k])
  {
    NodesInTree(words, at);
    var tree' := tree[Slot(at[u], c) := k];
    forall t, b | t in at && 0 <= Slot(at[t], b) < TREE_SIZE
      ensures SlotOk(words, k + 1, at, t + [b], tree'[Slot(at[t], b)])
    {
      SlotsDiffer(words, at, t, b, u, c);
      SnocInjective(t, b, u, c);
      assert SlotOk(words, k, at, t + [b], tree[Slot(at[t], b)]);
      LeafSlot(words, k, at, t + [b], tree[Slot(at[t], b)], tree'[Slot(at[t], b)]);
    }
  }

  lemma LeafSlot(words: seq<Path>, k: nat, at: map<Path, int>, s: Path, entry: int, entry': int)
    requires PrefixCode(words) && Nodes(words, at) && Used(words, k) && |words[k]| > FAST_BITS
    requires SlotOk(words, k, at, s, entry) && entry' == if s == words[k] then k else entry
    ensures SlotOk(words, k + 1, at, s, entry')
  {
    if s == words[k] {
      assert LongMatch(words, k, s);
      if s in at {
        InnerIsNoCode(words, k, s);
      }
      forall i | 0 <= i < k + 1 && LongMatch(words, i, s) ensures i == k {
        assert IsPrefix(words[i], words[k]);
      }
    } else {
      assert !LongMatch(words, k, s);
    }
  }

  lemma BlankBeyond(words: seq<Path>, at: map<Path, int>, tree: seq<int>, u: Path, c: bool, v: int)
    requires Nodes(words, at) && Blank(at, tree) && u in at && 0 <= Slot(at[u], c) < |tree|
    ensures Blank(at, tree[Slot(at[u], c) := v])
  {}

  method SetLeaf(tree: array<int>, cur: int, bit: bool, sym: nat,
                 ghost words: seq<Path>, ghost at: map<Path, int>, ghost lookUp: seq<int>)
    requires tree.Length == TREE_SIZE
    requires PrefixCode(words) && NodesFit(words) && Table(words, sym, at, lookUp, tree[..])
    requires Used(words, sym) && |words[sym]| > FAST_BITS
    requires words[sym][..|words[sym]| - 1] in at && cur == at[words[sym][..|words[sym]| - 1]]
    requires bit == words[sym][|words[sym]| - 1]
    modifies tree
    ensures Table(words, sym + 1, at, lookUp, tree[..])
  {
    hide LookUps, Slots, Nodes, Closed, Blank, NodesFit, PrefixCode;
    ghost var w, before := words[sym], tree[..];
    ghost var u := w[..|w| - 1];
    assert w == u + [bit];
    LeafSlots(words, sym, at, before, u, bit);
    BlankBeyond(words, at, before, u, bit, sym);
    LeafLookUps(words, sym, at, lookUp);
    var slot := -(cur - if bit then 1 else 0) - 1;
    tree[slot] := sym;
    assert tree[..] == before[Slot(at[u], bit) := sym];
    forall i, l | 0 <= i < sym + 1 && Used(words, i) && FAST_BITS <= l < |words[i]| ensures words[i][..l] in at {
      if i == sym {
        LeafPaths(words, sym, at, l);
      }
    }
  }

  method InsertLong(lookUp: array<int>, tree: array<int>, sym: nat, rev: nat, size: nat, treeNext: int,
                    ghost words: seq<Path>, ghost at: map<Path, int>)
    returns (treeNext': int, ghost at': map<Path, int>)
    requires lookUp.Length == FAST_SIZE && tree.Length == TREE_SIZE && lookUp != tree
    requires Building(words, sym, at, lookUp[..], tree[..], treeNext)
    requires Used(words, sym) && FAST_BITS < size == |words[sym]|
    requires rev < Pow2(size) && LsbBits(rev, size) == words[sym]
    modifies lookUp, tree
    ensures Building(words, sym + 1, at', lookUp[..], tree[..], treeNext')
  {
    hide Building;
    ghost var w := words[sym];
    RootNumber(rev, size);
    var cur: int;
    cur, treeNext', at' := EnterRoot(lookUp, rev, treeNext, words, sym, at, tree[..]);
    var rest: nat := rev / 512;
    var j: nat := size;
    while j > FAST_BITS + 1
      invariant FAST_BITS < j <= size
      invariant Building(words, sym, at', lookUp[..], tree[..], treeNext')
      invariant w[..FAST_BITS + size - j] in at' && cur == at'[w[..FAST_BITS + size - j]]
      invariant LsbBits(rest / 2, j - FAST_BITS) == w[FAST_BITS + size - j..]
    {
      ghost var l := FAST_BITS + size - j;
      rest := rest / 2;
      NextBit(rest, j - FAST_BITS, w, l);
      cur, treeNext', at' := Descend(tree, cur, rest % 2 == 1, treeNext', words, sym, at', lookUp[..], l);
      j := j - 1;
    }
    rest := rest / 2;
    NextBit(rest, 1, w, size - 1);
    treeNext' := LeafDone(tree, cur, rest % 2 == 1, sym, treeNext', words, at', lookUp[..]);
  }

  // The leaf, entered into a table that is being built.
  method LeafDone(tree: array<int>, cur: int, bit: bool, sym: nat, treeNext: int,
                  ghost words: seq<Path>, ghost at: map<Path, int>, ghost lookUp: seq<int>)
    returns (treeNext': int)
    requires tree.Length == TREE_SIZE && Building(words, sym, at, lookUp, tree[..], treeNext)
    requires Used(words, sym) && |words[sym]| > FAST_BITS
    requires words[sym][..|words[sym]| - 1] in at && cur == at[words[sym][..|words[sym]| - 1]]
    requires bit == words[sym][|words[sym]| - 1]
    modifies tree
    ensures Building(words, sym + 1, at, lookUp, tree[..], treeNext') && treeNext' == treeNext
  {
    hide Table, NodesFit, PrefixCode;
    SetLeaf(tree, cur, bit, sym, words, at, lookUp);
    treeNext' := treeNext;
  }

  // The low ten bits of the reversed code select the root entry; the rest follow bit by bit.
  lemma RootNumber(rev: nat, size: nat)
    requires FAST_BITS < size && rev < Pow2(size)
    ensures rev % FAST_SIZE == Value(LsbBits(rev, size)[..FAST_BITS])
    ensures LsbBits(rev / 512 / 2, size - FAST_BITS) == LsbBits(rev, size)[FAST_BITS..]
  {
    Pow2Table();
    assert rev / 512 / 2 == rev / 1024;
    SplitNumber(rev, rev % 1024, rev / 1024, FAST_BITS, size);
  }

  lemma SplitNumber(rev: nat, low: nat, high: nat, n: nat, size: nat)
    requires n < size && low == rev % Pow2(n) && high == rev / Pow2(n)
    ensures low == Value(LsbBits(rev, size)[..n])
    ensures LsbBits(high, size - n) == LsbBits(rev, size)[n..]
  {
    hide Pow2, LsbBits;
    LsbPrefix(rev, n, size);
    LsbSuffix(rev, n, size);
    LsbModulo(rev, n);
    ValueOfBits(low, n);
  }

  lemma NextBit(rest: nat, n: nat, w: Path, l: nat)
    requires n > 0 && l < |w| && LsbBits(rest, n) == w[l..]
    ensures (rest % 2 == 1) == w[l]
    ensures LsbBits(rest / 2, n - 1) == w[l + 1..]
  {
    assert w[l..][0] == w[l] && w[l..][1..] == w[l + 1..];
    assert LsbBits(rest, n)[1..] == LsbBits(rest / 2, n - 1);
  }
}
