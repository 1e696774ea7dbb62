/** The index by name of an archive's entries: their numbers heap-sorted by name without regard to case,
    and searched by bisection. The search finds an entry exactly when a scan of them all would. */
module NameIndex {
  import opened Lz77

  // The length of a name is kept in 16 bits.
  type Name = seq<byte>

  const MAX_NAME := 0xFFFF
  const TWO_32 := 0x1_0000_0000

  function Lower(b: byte): byte {
    if 65 <= b <= 90 then b + 32 else b
  }

  // The same up to case.
  ghost predicate Same(a: Name, b: Name) {
    |a| == |b| && forall i :: 0 <= i < |a| ==> Lower(a[i]) == Lower(b[i])
  }

  // Negative, zero or positive as a comes before b, is the same, or comes after it.
  function Order(a: Name, b: Name): int {
    if a == [] || b == [] then |a| - |b|
    else if Lower(a[0]) != Lower(b[0]) then Lower(a[0]) as int - Lower(b[0]) as int
    else Order(a[1..], b[1..])
  }

  lemma {:induction false} OrderZero(a: Name, b: Name)
    ensures Order(a, b) == 0 <==> Same(a, b)
  {
    if a != [] && b != [] && Lower(a[0]) == Lower(b[0]) {
      OrderZero(a[1..], b[1..]);
      if Same(a[1..], b[1..]) {
        forall i | 0 <= i < |a| ensures Lower(a[i]) == Lower(b[i]) {
          if i > 0 {
            assert a[i] == a[1..][i - 1] && b[i] == b[1..][i - 1];
          }
        }
      }
    }
  }

  lemma {:induction false} OrderFlips(a: Name, b: Name)
    ensures Order(b, a) == -Order(a, b)
  {
    if a != [] && b != [] {
      OrderFlips(a[1..], b[1..]);
    }
  }

  lemma {:induction false} OrderChains(a: Name, b: Name, c: Name)
    requires Order(a, b) <= 0 && Order(b, c) <= 0
    ensures Order(a, c) <= 0 && (Order(a, b) < 0 || Order(b, c) < 0 ==> Order(a, c) < 0)
  {
    if a != [] && b != [] && c != [] && Lower(a[0]) == Lower(b[0]) == Lower(c[0]) {
      OrderChains(a[1..], b[1..], c[1..]);
    }
  }

  // Names that begin alike are in the order of what follows.
  lemma {:induction false} OrderAfter(a: Name, b: Name, k: nat)
    requires k <= |a| && k <= |b| && forall i :: 0 <= i < k ==> Lower(a[i]) == Lower(b[i])
    ensures Order(a, b) == Order(a[k..], b[k..])
  {
    if k == 0 {
      assert a[0..] == a && b[0..] == b;
    } else {
      OrderAfter(a[1..], b[1..], k - 1);
      assert a[1..][k - 1..] == a[k..] && b[1..][k - 1..] == b[k..];
    }
  }

  // Where two names first differ, or the end of the shorter.
  method FirstDifference(l: Name, r: Name) returns (k: nat)
    ensures k <= |l| && k <= |r| && Order(l, r) == Order(l[k..], r[k..])
    ensures k < |l| && k < |r| ==> Lower(l[k]) != Lower(r[k])
  {
    k := 0;
    while k < |l| && k < |r| && Lower(l[k]) == Lower(r[k])
      invariant k <= |l| && k <= |r| && forall i :: 0 <= i < k ==> Lower(l[i]) == Lower(r[i])
    {
      k := k + 1;
    }
    OrderAfter(l, r, k);
  }

  method FilenameLess(l: Name, r: Name) returns (less: bool)
    ensures less <==> Order(l, r) < 0
  {
    var k := FirstDifference(l, r);
    less := if k == |l| || k == |r| then |l| < |r| else Lower(l[k]) < Lower(r[k]);
  }

  // A 32-bit difference taken as signed.
  function Signed32(v: int): int {
    var u := v % TWO_32;
    if u < TWO_32 / 2 then u else u - TWO_32
  }

  // The comparison of an entry's name with a name sought, whose length need not fit in 16 bits. The
  // difference of the lengths may wrap round; it is zero only when there is none.
  method FilenameCompare(l: Name, r: Name) returns (comp: int)
    requires |l| <= MAX_NAME && |r| < TWO_32
    ensures comp == 0 <==> Same(l, r)
    ensures |r| <= MAX_NAME ==> (comp < 0 <==> Order(l, r) < 0)
  {
    var k := FirstDifference(l, r);
    OrderZero(l, r);
    comp := if k == |l| || k == |r| then Signed32(|l| - |r|) else Lower(l[k]) as int - Lower(r[k]) as int;
  }

  // ---------- the heap ----------

  // Entry i comes no later than entry j.
  predicate AtMost(names: seq<Name>, i: nat, j: nat) {
    i < |names| && j < |names| && Order(names[i], names[j]) <= 0
  }

  lemma AtMostChains(names: seq<Name>, i: nat, j: nat, k: nat)
    requires AtMost(names, i, j) && AtMost(names, j, k)
    ensures AtMost(names, i, k)
  {
    OrderChains(names[i], names[j], names[k]);
  }

  ghost predicate Indices(names: seq<Name>, s: seq<nat>) {
    forall k :: 0 <= k < |s| ==> s[k] < |names|
  }

  function Parent(k: nat): nat
    requires k > 0
  {
    (k - 1) / 2
  }

  // No entry of the first n comes after its parent, as far as the parent is not before lo.
  ghost predicate Heap(names: seq<Name>, s: seq<nat>, lo: nat, n: nat)
    requires n <= |s|
  {
    forall k {:trigger s[k]} :: 0 < k < n && Parent(k) >= lo ==> AtMost(names, s[k], s[Parent(k)])
  }

  // The same but for the children of the hole, which are in order with its parent instead.
  ghost predicate HeapBut(names: seq<Name>, s: seq<nat>, lo: nat, n: nat, hole: nat)
    requires n <= |s| && hole < n
  {
    && (forall k {:trigger s[k]} :: 0 < k < n && Parent(k) >= lo && Parent(k) != hole ==> AtMost(names, s[k], s[Parent(k)]))
    && (forall k {:trigger s[k]} :: 0 < k < n && Parent(k) == hole > 0 && Parent(hole) >= lo ==> AtMost(names, s[k], s[Parent(hole)]))
  }

  lemma HoleAtStart(names: seq<Name>, s: seq<nat>, lo: nat, n: nat)
    requires lo < n <= |s| && Heap(names, s, lo + 1, n)
    ensures HeapBut(names, s, lo, n, lo)
  {
    hide AtMost;
  }

  function Swapped(s: seq<nat>, i: nat, j: nat): seq<nat>
    requires i < |s| && j < |s|
  {
    s[i := s[j]][j := s[i]]
  }

  // The greater child takes the place of the hole, which moves down.
  lemma HoleMoves(names: seq<Name>, s: seq<nat>, lo: nat, n: nat, hole: nat, child: nat)
    requires lo <= hole < child < n <= |s| && Parent(child) == hole && HeapBut(names, s, lo, n, hole)
    requires AtMost(names, s[hole], s[child])
    requires forall k {:trigger s[k]} :: 0 < k < n && Parent(k) == hole ==> AtMost(names, s[k], s[child])
    ensures HeapBut(names, Swapped(s, hole, child), lo, n, child)
  {
    hide AtMost;
  }

  lemma HoleFilled(names: seq<Name>, s: seq<nat>, lo: nat, n: nat, hole: nat)
    requires hole < n <= |s| && HeapBut(names, s, lo, n, hole)
    requires forall k {:trigger s[k]} :: 0 < k < n && Parent(k) == hole ==> AtMost(names, s[k], s[hole])
    ensures Heap(names, s, lo, n)
  {
    hide AtMost;
  }

  lemma {:induction false} RootIsLast(names: seq<Name>, s: seq<nat>, n: nat, k: nat)
    requires k < n <= |s| && Indices(names, s) && Heap(names, s, 0, n)
    ensures AtMost(names, s[k], s[0])
    decreases k
  {
    if k == 0 {
      OrderZero(names[s[0]], names[s[0]]);
    } else {
      RootIsLast(names, s, n, Parent(k));
      AtMostChains(names, s[k], s[Parent(k)], s[0]);
    }
  }

  method EntryLess(names: seq<Name>, i: nat, j: nat) returns (less: bool)
    requires i < |names| && j < |names|
    ensures less ==> AtMost(names, i, j)
    ensures !less ==> AtMost(names, j, i)
  {
    OrderFlips(names[i], names[j]);
    less := FilenameLess(names[i], names[j]);
  }

  // The greater of two children, or the only one.
  method GreaterChild(names: seq<Name>, a: array<nat>, root: nat, size: nat) returns (child: nat)
    requires 2 * root + 1 < size <= a.Length && Indices(names, a[..])
    ensures root < child < size && Parent(child) == root
    ensures forall k {:trigger a[k]} :: 0 < k < size && Parent(k) == root ==> AtMost(names, a[k], a[child])
  {
    child := 2 * root + 1;
    Reflexive(names, a[child]);
    if child + 1 < size {
      Reflexive(names, a[child + 1]);
      var less := EntryLess(names, a[child], a[child + 1]);
      child := child + if less then 1 else 0;
    }
  }

  lemma Reflexive(names: seq<Name>, i: nat)
    requires i < |names|
    ensures AtMost(names, i, i)
  {
    OrderZero(names[i], names[i]);
  }

  // Lets the entry at start sink to its place among the first size.
  method SiftDown(names: seq<Name>, a: array<nat>, start: nat, size: nat)
    requires start < size <= a.Length && Indices(names, a[..]) && Heap(names, a[..], start + 1, size)
    modifies a
    ensures Indices(names, a[..]) && Heap(names, a[..], start, size)
    ensures multiset(a[..]) == multiset(old(a[..])) && a[size..] == old(a[size..])
    ensures forall k :: 0 <= k < size ==> a[k] in old(a[..size])
  {
    hide AtMost, HeapBut, Heap, Indices, Rearranged;
    HoleAtStart(names, a[..], start, size);
    Kept(a[..], a[..], size);
    ghost var s0 := a[..];
    var root := start;
    while true
      invariant start <= root < size && Indices(names, a[..]) && HeapBut(names, a[..], start, size, root)
      invariant Rearranged(a[..], s0, size)
      decreases size - root
    {
      if 2 * root + 1 >= size {
        break;
      }
      var child := GreaterChild(names, a, root, size);
      InRange(names, a[..], root);
      InRange(names, a[..], child);
      var less := EntryLess(names, a[root], a[child]);
      if !less {
        ChildrenBelow(names, a[..], size, root, child);
        break;
      }
      ghost var s := a[..];
      HoleMoves(names, s, start, size, root, child);
      SwapKeeps(names, s, s0, size, root, child);
      a[root], a[child] := a[child], a[root];
      assert a[..] == Swapped(s, root, child);
      root := child;
    }
    HoleFilled(names, a[..], start, size, root);
    RearrangedSays(a[..], s0, size);
  }

  lemma InRange(names: seq<Name>, s: seq<nat>, k: nat)
    requires k < |s| && Indices(names, s)
    ensures s[k] < |names|
  {}

  lemma RearrangedSays(s: seq<nat>, before: seq<nat>, n: nat)
    requires Rearranged(s, before, n)
    ensures n <= |s| == |before| && multiset(s) == multiset(before) && s[n..] == before[n..]
    ensures forall k :: 0 <= k < n ==> s[k] in before[..n]
  {}

  lemma ChildrenBelow(names: seq<Name>, s: seq<nat>, n: nat, root: nat, child: nat)
    requires root < child < n <= |s| && AtMost(names, s[child], s[root])
    requires forall k {:trigger s[k]} :: 0 < k < n && Parent(k) == root ==> AtMost(names, s[k], s[child])
    ensures forall k {:trigger s[k]} :: 0 < k < n && Parent(k) == root ==> AtMost(names, s[k], s[root])
  {
    forall k {:trigger s[k]} | 0 < k < n && Parent(k) == root ensures AtMost(names, s[k], s[root]) {
      AtMostChains(names, s[k], s[child], s[root]);
    }
  }

  // The first n are the same as before in some order, the others untouched.
  ghost predicate Rearranged(s: seq<nat>, before: seq<nat>, n: nat) {
    && |s| == |before| && n <= |s| && multiset(s) == multiset(before) && s[n..] == before[n..]
    && forall k :: 0 <= k < n ==> s[k] in before[..n]
  }

  lemma Kept(s: seq<nat>, before: seq<nat>, n: nat)
    requires s == before && n <= |s|
    ensures Rearranged(s, before, n)
  {
    forall k | 0 <= k < n ensures s[k] in before[..n] {
      assert before[..n][k] == s[k];
    }
  }

  lemma SwapKeeps(names: seq<Name>, s: seq<nat>, before: seq<nat>, n: nat, i: nat, j: nat)
    requires i < n && j < n && Rearranged(s, before, n)
    requires i < |s| && j < |s| && Indices(names, s)
    ensures Rearranged(Swapped(s, i, j), before, n) && Indices(names, Swapped(s, i, j))
  {
    assert Swapped(s, i, j)[n..] == s[n..];
  }

  // ---------- sorting ----------

  ghost predicate Sorted(names: seq<Name>, s: seq<nat>, from: nat) {
    forall i, j :: from <= i <= j < |s| ==> AtMost(names, s[i], s[j])
  }

  // The first n come no later than the others.
  ghost predicate Before(names: seq<Name>, s: seq<nat>, n: nat) {
    forall i, j :: 0 <= i < n <= j < |s| ==> AtMost(names, s[i], s[j])
  }

  method MakeHeap(names: seq<Name>, a: array<nat>)
    requires Indices(names, a[..])
    modifies a
    ensures multiset(a[..]) == multiset(old(a[..])) && Indices(names, a[..]) && Heap(names, a[..], 0, a.Length)
  {
    hide AtMost, Heap, Indices;
    var size := a.Length;
    var start: int := if size >= 2 then (size - 2) / 2 else -1;
    NoParents(names, a[..], start + 1);
    while start >= 0
      invariant -1 <= start && (start >= 0 ==> start < size) && Indices(names, a[..]) && Heap(names, a[..], start + 1, size)
      invariant multiset(a[..]) == multiset(old(a[..]))
    {
      SiftDown(names, a, start, size);
      start := start - 1;
    }
  }

  // Moves the root of the heap behind it, and makes a heap of the rest.
  method MoveRoot(names: seq<Name>, a: array<nat>, end: nat)
    requires 0 < end < a.Length && Indices(names, a[..])
    requires Heap(names, a[..], 0, end + 1) && Sorted(names, a[..], end + 1) && Before(names, a[..], end + 1)
    modifies a
    ensures multiset(a[..]) == multiset(old(a[..])) && Indices(names, a[..])
    ensures Heap(names, a[..], 0, end) && Sorted(names, a[..], end) && Before(names, a[..], end)
  {
    hide AtMost, Heap, Sorted, Before, Indices;
    ghost var s := a[..];
    RootToEnd(names, s, end);
    Kept(s, s, a.Length);
    SwapKeeps(names, s, s, a.Length, end, 0);
    a[end], a[0] := a[0], a[end];
    assert a[..] == Swapped(s, end, 0);
    ghost var t := a[..];
    SiftDown(names, a, 0, end);
    StaysSorted(names, a[..], t, end);
  }

  // Afterwards the array holds the same entries in the order of their names.
  method SortByFilename(names: seq<Name>, a: array<nat>)
    requires Indices(names, a[..])
    modifies a
    ensures multiset(a[..]) == multiset(old(a[..])) && Indices(names, a[..]) && Sorted(names, a[..], 0)
  {
    hide AtMost, Heap, Sorted, Before, Indices;
    MakeHeap(names, a);
    var end: int := a.Length - 1;
    NothingSorted(names, a[..]);
    while end > 0
      invariant end < a.Length && (a.Length > 0 ==> end >= 0) && Indices(names, a[..]) && multiset(a[..]) == multiset(old(a[..]))
      invariant a.Length > 0 ==> Heap(names, a[..], 0, end + 1) && Sorted(names, a[..], end + 1) && Before(names, a[..], end + 1)
    {
      MoveRoot(names, a, end);
      end := end - 1;
    }
    AllSorted(names, a[..]);
  }

  lemma NoParents(names: seq<Name>, s: seq<nat>, lo: nat)
    requires 2 * lo + 1 >= |s|
    ensures Heap(names, s, lo, |s|)
  {}

  lemma NothingSorted(names: seq<Name>, s: seq<nat>)
    ensures Sorted(names, s, |s|) && Before(names, s, |s|)
  {}

  lemma AllSorted(names: seq<Name>, s: seq<nat>)
    requires Indices(names, s) && (|s| == 0 || (Sorted(names, s, 1) && Before(names, s, 1)))
    ensures Sorted(names, s, 0)
  {
    hide AtMost;
    if |s| > 0 {
      Reflexive(names, s[0]);
    }
  }

  // The root of the heap goes where it belongs, and the heap but for its root stays one.
  lemma RootToEnd(names: seq<Name>, s: seq<nat>, end: nat)
    requires 0 < end < |s| && Indices(names, s)
    requires Heap(names, s, 0, end + 1) && Sorted(names, s, end + 1) && Before(names, s, end + 1)
    ensures var t := Swapped(s, end, 0);
      Heap(names, t, 1, end) && Sorted(names, t, end) && Before(names, t, end)
  {
    hide AtMost;
    forall k: nat | k <= end ensures AtMost(names, s[k], s[0]) {
      RootIsLast(names, s, end + 1, k);
    }
    Reflexive(names, s[0]);
  }

  lemma StaysSorted(names: seq<Name>, s: seq<nat>, t: seq<nat>, end: nat)
    requires 0 < end < |s| == |t| && s[end..] == t[end..] && (forall k :: 0 <= k < end ==> s[k] in t[..end])
    requires Sorted(names, t, end) && Before(names, t, end)
    ensures Sorted(names, s, end) && Before(names, s, end)
  {
    hide AtMost;
    forall j | end <= j < |s| ensures s[j] == t[j] {
      assert s[end..][j - end] == t[end..][j - end];
    }
  }

  // ---------- searching ----------

  ghost predicate ShortNames(names: seq<Name>) {
    forall i :: 0 <= i < |names| ==> |names[i]| <= MAX_NAME
  }

  // The array lists every entry.
  ghost predicate ListsAll(names: seq<Name>, s: seq<nat>) {
    Indices(names, s) && forall i :: 0 <= i < |names| ==> i in s
  }

  ghost predicate Among(names: seq<Name>, name: Name) {
    exists i :: 0 <= i < |names| && Same(names[i], name)
  }

  // The length of the name sought is kept in 32 bits.
  function Truncated(name: Name): (r: Name)
    ensures |r| < TWO_32 && r <= name
  {
    name[..|name| % TWO_32]
  }

  method Bisect(names: seq<Name>, a: array<nat>, name: Name) returns (found: int)
    requires ShortNames(names) && ListsAll(names, a[..]) && Sorted(names, a[..], 0)
    ensures found >= 0 ==> found < |names| && Same(names[found], Truncated(name))
    ensures found < 0 ==> found == -1 && !Among(names, Truncated(name))
  {
    hide Same, Order, Sorted;
    var sought := Truncated(name);
    var l: int, h: int := 0, a.Length - 1;
    while l <= h
      invariant 0 <= l <= h + 1 <= a.Length
      invariant |sought| <= MAX_NAME ==> forall k :: 0 <= k < l ==> Order(names[a[k]], sought) < 0
      invariant |sought| <= MAX_NAME ==> forall k :: h < k < a.Length ==> Order(names[a[k]], sought) > 0
      decreases h - l
    {
      var m := (l + h) / 2;
      var entry := a[m];
      var comp := FilenameCompare(names[entry], sought);
      OrderZero(names[entry], sought);
      if comp == 0 {
        return entry;
      }
      if comp < 0 {
        if |sought| <= MAX_NAME {
          AllBefore(names, a[..], m, sought);
        }
        l := m + 1;
      } else {
        if |sought| <= MAX_NAME {
          AllAfter(names, a[..], m, sought);
        }
        h := m - 1;
      }
    }
    found := -1;
    NotListed(names, a[..], sought);
  }

  lemma NotListed(names: seq<Name>, s: seq<nat>, name: Name)
    requires ShortNames(names) && ListsAll(names, s)
    requires |name| <= MAX_NAME ==> forall k :: 0 <= k < |s| ==> Order(names[s[k]], name) != 0
    ensures !Among(names, name)
  {
    hide Order;
    forall i | 0 <= i < |names| ensures !Same(names[i], name) {
      if |name| <= MAX_NAME {
        assert i in s;
        var k :| 0 <= k < |s| && s[k] == i;
        OrderZero(names[s[k]], name);
      }
    }
  }

  lemma LengthsSame(a: Name, b: Name)
    requires Same(a, b)
    ensures |a| == |b|
  {}

  // What comes no later than an entry before the name is before it too.
  lemma AllBefore(names: seq<Name>, s: seq<nat>, m: nat, name: Name)
    requires m < |s| && Indices(names, s) && Sorted(names, s, 0) && Order(names[s[m]], name) < 0
    ensures forall k :: 0 <= k <= m ==> Order(names[s[k]], name) < 0
  {
    hide Order;
    forall k | 0 <= k <= m ensures Order(names[s[k]], name) < 0 {
      assert AtMost(names, s[k], s[m]);
      OrderChains(names[s[k]], names[s[m]], name);
    }
  }

  lemma AllAfter(names: seq<Name>, s: seq<nat>, m: nat, name: Name)
    requires m < |s| && Indices(names, s) && Sorted(names, s, 0) && Order(names[s[m]], name) > 0
    ensures forall k :: m <= k < |s| ==> Order(names[s[k]], name) > 0
  {
    hide Order;
    OrderFlips(names[s[m]], name);
    forall k | m <= k < |s| ensures Order(names[s[k]], name) > 0 {
      assert AtMost(names, s[m], s[k]);
      OrderChains(name, names[s[m]], names[s[k]]);
      OrderFlips(names[s[k]], name);
    }
  }

  method StringEqual(a: Name, b: Name) returns (same: bool)
    requires |a| == |b|
    ensures same <==> Same(a, b)
  {
    var i := 0;
    while i < |a|
      invariant 0 <= i <= |a| && forall j :: 0 <= j < i ==> Lower(a[j]) == Lower(b[j])
    {
      if Lower(a[i]) != Lower(b[i]) {
        return false;
      }
      i := i + 1;
    }
    same := true;
  }

  // The scan of all entries in turn.
  method Scan(names: seq<Name>, name: Name) returns (found: int)
    ensures found >= 0 ==> |name| <= MAX_NAME && found < |names| && Same(names[found], name)
    ensures found >= 0 ==> forall i :: 0 <= i < found ==> !Same(names[i], name)
    ensures found < 0 ==> found == -1 && (|name| > MAX_NAME || !Among(names, name))
  {
    if |name| > MAX_NAME {
      return -1;
    }
    var i := 0;
    while i < |names|
      invariant 0 <= i <= |names| && forall j :: 0 <= j < i ==> !Same(names[j], name)
    {
      if |names[i]| == |name| {
        var same := StringEqual(name, names[i]);
        if same {
          return i;
        }
      }
      i := i + 1;
    }
    found := -1;
  }

  // ---------- the index and the scan ----------

  ghost predicate ScanFinds(names: seq<Name>, name: Name) {
    |name| <= MAX_NAME && Among(names, name)
  }

  ghost predicate BisectFinds(names: seq<Name>, name: Name) {
    Among(names, Truncated(name))
  }

  ghost predicate Agree(name: Name) {
    forall names: seq<Name> | ShortNames(names) :: ScanFinds(names, name) <==> BisectFinds(names, name)
  }

  // The two agree on a name, whatever the archive, exactly when its length fits in 16 bits or still
  // does not after it was cut down to 32.
  lemma AgreeIff(name: Name)
    ensures Agree(name) <==> |name| <= MAX_NAME || |name| % TWO_32 > MAX_NAME
  {
    if |name| <= MAX_NAME {
      assert Truncated(name) == name;
    } else if |name| % TWO_32 > MAX_NAME {
      forall names: seq<Name> | ShortNames(names) ensures !Among(names, Truncated(name)) {}
    } else {
      var names := [Truncated(name)];
      assert Same(names[0], Truncated(name));
      assert ShortNames(names) && BisectFinds(names, name) && !ScanFinds(names, name);
    }
  }

  // Sorting the numbers of all entries lists them all.
  lemma SortedListsAll(names: seq<Name>, s: seq<nat>, before: seq<nat>)
    requires Indices(names, s) && multiset(s) == multiset(before)
    requires |before| == |names| && forall i :: 0 <= i < |before| ==> before[i] == i
    ensures ListsAll(names, s)
  {
    forall i | 0 <= i < |names| ensures i in s {
      assert before[i] in multiset(before);
      assert i in multiset(s);
    }
  }

  // The index is built and searched: it answers as the scan does but for which of several entries of
  // the same name it gives.
  method Locate(names: seq<Name>, name: Name) returns (found: int, scanned: int)
    requires ShortNames(names) && |name| < TWO_32
    ensures found >= 0 <==> scanned >= 0
    ensures found >= 0 ==> scanned < |names| && found < |names| && Same(names[found], name) && Same(names[scanned], name) && scanned <= found
    ensures found >= 0 <==> ScanFinds(names, name)
  {
    hide Same;
    var a := new nat[|names|](i => i);
    ghost var before := a[..];
    SortByFilename(names, a);
    SortedListsAll(names, a[..], before);
    found := Bisect(names, a, name);
    scanned := Scan(names, name);
    assert Truncated(name) == name;
    if found >= 0 {
      LengthsSame(names[found], name);
    }
  }
}
