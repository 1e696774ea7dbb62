/** Run-length packing of code sizes: symbols 0-15 are sizes, 16 repeats the last size 3-6 times,
    17 and 18 stand for 3-10 and 11-138 zeros (section 3.2.7 of RFC 1951). */
module CodeLengths {
  import opened Wrappers
  import opened Sums
  import opened Arith
  import opened Bits
  import opened Lz77
  import opened DecodeTable
  import opened BitOutput
  import opened BlockCodec
  import opened LzCodes

  const MAX_SIZES := 320
  const LENGTH_SYMBOLS := 19
  const NO_SIZE := 0xFF

  // A symbol of the packed form and the value of its repeat field.
  datatype Item = Item(sym: nat, extra: nat)

  function Width(sym: nat): (w: nat)
    ensures w <= 7
  {
    if sym < 16 then 0 else if sym == 16 then 2 else if sym == 17 then 3 else 7
  }

  // The smallest run of a repeat symbol.
  function Least(sym: nat): nat {
    if sym == 18 then 11 else 3
  }

  predicate ItemOk(it: Item) {
    it.sym < LENGTH_SYMBOLS && it.extra < Pow2(Width(it.sym))
  }

  ghost predicate ItemsOk(items: seq<Item>) {
    forall i :: 0 <= i < |items| ==> ItemOk(items[i])
  }

  function Copies(v: nat, n: nat): (r: seq<nat>)
    ensures |r| == n
  {
    seq(n, _ => v)
  }

  // The sizes after one more item.
  function Run(have: seq<nat>, it: Item): (r: Option<seq<nat>>)
    ensures r.Some? ==> |r.value| > |have|
  {
    if it.sym < 16 then Some(have + [it.sym])
    else if it.sym == 16 then if have == [] then None else Some(have + Copies(have[|have| - 1], it.extra + 3))
    else Some(have + Copies(0, it.extra + Least(it.sym)))
  }

  // The sizes that items stand for.
  function Unrolled(items: seq<Item>): Option<seq<nat>> {
    if items == [] then Some([])
    else
      match Unrolled(items[..|items| - 1])
      case None => None
      case Some(have) => Run(have, items[|items| - 1])
  }

  // The bytes of an item in the packed array: its symbol, then its repeat field.
  function ItemBytes(it: Item): (r: seq<nat>) {
    if it.sym < 16 then [it.sym] else [it.sym, it.extra]
  }

  function ItemsBytes(items: seq<Item>): seq<nat> {
    if items == [] then [] else ItemsBytes(items[..|items| - 1]) + ItemBytes(items[|items| - 1])
  }

  function SymCount(items: seq<Item>, s: nat): (n: nat)
    ensures n <= |items|
  {
    if items == [] then 0
    else SymCount(items[..|items| - 1], s) + if items[|items| - 1].sym == s then 1 else 0
  }

  // Packed items so far: the array holds their bytes, the counts their symbols, and they stand for
  // the sizes in have.
  ghost predicate Packed(packed: seq<nat>, n: nat, counts: seq<nat>, items: seq<Item>, have: seq<nat>) {
    && n <= |packed| && packed[..n] == ItemsBytes(items) && ItemsOk(items)
    && n <= |have| && |items| <= n
    && Unrolled(items) == Some(have)
    && |counts| >= LENGTH_SYMBOLS
    && forall s :: 0 <= s < LENGTH_SYMBOLS ==> counts[s] == SymCount(items, s)
  }

  lemma PackOne(packed: seq<nat>, packed': seq<nat>, n: nat, counts: seq<nat>, counts': seq<nat>, items: seq<Item>,
                have: seq<nat>, it: Item)
    requires Packed(packed, n, counts, items, have) && ItemOk(it) && Run(have, it).Some?
    requires |packed'| == |packed| && n + |ItemBytes(it)| <= |packed|
    requires packed'[..n] == packed[..n] && packed'[n..n + |ItemBytes(it)|] == ItemBytes(it)
    requires |counts'| == |counts|
    requires forall s :: 0 <= s < LENGTH_SYMBOLS ==> counts'[s] == counts[s] + if s == it.sym then 1 else 0
    ensures Packed(packed', n + |ItemBytes(it)|, counts', items + [it], Run(have, it).value)
  {
    hide Pow2;
    var items' := items + [it];
    assert items'[..|items|] == items;
    assert packed'[..n + |ItemBytes(it)|] == packed'[..n] + packed'[n..n + |ItemBytes(it)|];
  }

  // ---------- what a list is packed into ----------

  // How many sizes at the end of a list are the same.
  function Trailing(s: seq<nat>): (k: nat)
    requires s != []
    ensures 1 <= k <= |s|
  {
    var n := |s| - 1;
    if n == 0 || s[n - 1] != s[n] then 1 else 1 + Trailing(s[..n])
  }

  // Fewer than three sizes are sent as they are, more as one repeat.
  function Plainly(v: nat, n: nat): seq<Item> {
    if n == 0 then [] else if n == 1 then [Item(v, 0)] else [Item(v, 0), Item(v, 0)]
  }

  function ZeroItems(z: nat): seq<Item> {
    if z < 3 then Plainly(0, z) else if z <= 10 then [Item(17, z - 3)] else [Item(18, z - 11)]
  }

  function RepeatItems(v: nat, n: nat): seq<Item> {
    if n < 3 then Plainly(v, n) else [Item(16, n - 3)]
  }

  // How many of a run of k are left when it is cut into pieces of m.
  function Left(k: nat, m: nat): (r: nat)
    requires m > 0
    ensures r < m && r <= k
  {
    k % m
  }

  // A run of zeros is cut into repeats of 138, any other size after its first into repeats of six.
  function Zeros(k: nat): seq<Item> {
    if k == 0 then []
    else if Left(k, 138) == 0 then Zeros(k - 138) + ZeroItems(138)
    else Zeros(k - Left(k, 138)) + ZeroItems(Left(k, 138))
  }

  function Repeats(v: nat, k: nat): seq<Item> {
    if k == 0 then []
    else if Left(k, 6) == 0 then Repeats(v, k - 6) + RepeatItems(v, 6)
    else Repeats(v, k - Left(k, 6)) + RepeatItems(v, Left(k, 6))
  }

  function RunItems(v: nat, k: nat): seq<Item>
    requires k >= 1
  {
    if v == 0 then Zeros(k) else [Item(v, 0)] + Repeats(v, k - 1)
  }

  // What comes before the last run.
  function Front(s: seq<nat>): (r: seq<nat>)
    requires s != []
    ensures |r| < |s|
  {
    s[..|s| - Trailing(s)]
  }

  // Run by run.
  function PackedOf(s: seq<nat>): seq<Item> {
    if s == [] then [] else PackedOf(Front(s)) + RunItems(s[|s| - 1], Trailing(s))
  }

  // The items so far are those of the list but for the end of its last run, which is held back.
  ghost predicate Spelt(items: seq<Item>, zeros: nat, rep: nat, done: seq<nat>) {
    if done == [] then items == [] && zeros == 0 && rep == 0
    else
      var v, k, before := done[|done| - 1], Trailing(done), PackedOf(Front(done));
      if v == 0 then zeros == Left(k, 138) && rep == 0 && items == before + Zeros(k - zeros)
      else zeros == 0 && rep == Left(k - 1, 6) && items == before + ([Item(v, 0)] + Repeats(v, k - 1 - rep))
  }

  lemma ZerosHeld(k: nat)
    ensures Zeros(k) == Zeros(k - Left(k, 138)) + ZeroItems(Left(k, 138))
  {}

  lemma RepeatsHeld(v: nat, k: nat)
    ensures Repeats(v, k) == Repeats(v, k - Left(k, 6)) + RepeatItems(v, Left(k, 6))
  {}

  // Putting out what is held back completes the list.
  lemma SpeltOut(items: seq<Item>, zeros: nat, rep: nat, done: seq<nat>)
    requires Spelt(items, zeros, rep, done)
    ensures done == [] ==> PackedOf(done) == items == []
    ensures done != [] && done[|done| - 1] == 0 ==> rep == 0 && PackedOf(done) == items + ZeroItems(zeros)
    ensures done != [] && done[|done| - 1] != 0 ==> zeros == 0 && PackedOf(done) == items + RepeatItems(done[|done| - 1], rep)
  {
    hide Zeros, Repeats, ZeroItems, RepeatItems, Trailing, Plainly, PackedOf, Front, Left, RunItems;
    PackedIs(done);
    if done != [] {
      var v, k, before := done[|done| - 1], Trailing(done), PackedOf(Front(done));
      if v == 0 {
        ZerosOut(before, k);
      } else {
        RepeatsOut(before, v, k);
      }
    }
  }

  lemma ZerosOut(before: seq<Item>, k: nat)
    requires k >= 1
    ensures before + Zeros(k - Left(k, 138)) + ZeroItems(Left(k, 138)) == before + RunItems(0, k)
  {
    hide Zeros, ZeroItems, Left;
    ZerosHeld(k);
    ItemsAssoc(before, Zeros(k - Left(k, 138)), ZeroItems(Left(k, 138)));
  }

  lemma RepeatsOut(before: seq<Item>, v: nat, k: nat)
    requires k >= 1 && v != 0
    ensures var n := Left(k - 1, 6); before + ([Item(v, 0)] + Repeats(v, k - 1 - n)) + RepeatItems(v, n) == before + RunItems(v, k)
  {
    hide Repeats, RepeatItems, Left;
    var n := Left(k - 1, 6);
    RepeatsHeld(v, k - 1);
    ItemsAssoc([Item(v, 0)], Repeats(v, k - 1 - n), RepeatItems(v, n));
    ItemsAssoc(before, [Item(v, 0)] + Repeats(v, k - 1 - n), RepeatItems(v, n));
  }

  lemma ItemsAssoc(a: seq<Item>, b: seq<Item>, c: seq<Item>)
    ensures a + b + c == a + (b + c)
  {}

  lemma PackedIs(s: seq<nat>)
    ensures PackedOf(s) == if s == [] then [] else PackedOf(Front(s)) + RunItems(s[|s| - 1], Trailing(s))
  {
    hide RunItems, Front, Trailing;
  }

  lemma TrailingIs(s: seq<nat>, x: nat)
    ensures Trailing(s + [x]) == if s == [] || s[|s| - 1] != x then 1 else 1 + Trailing(s)
  {
    var t := s + [x];
    assert t[..|s|] == s && t[|s|] == x;
    assert s != [] ==> t[|s| - 1] == s[|s| - 1];
  }

  lemma FrontOf(s: seq<nat>, x: nat, j: nat)
    requires j <= |s|
    ensures (s + [x])[..j] == s[..j]
  {}

  lemma TrailingNext(done: seq<nat>, x: nat)
    ensures done != [] && done[|done| - 1] == x ==> Trailing(done + [x]) == Trailing(done) + 1 && Front(done + [x]) == Front(done)
    ensures done == [] || done[|done| - 1] != x ==> Trailing(done + [x]) == 1 && Front(done + [x]) == done
  {
    hide Trailing;
    TrailingIs(done, x);
    FrontOf(done, x, |done|);
    if done != [] {
      FrontOf(done, x, |done| - Trailing(done));
    }
    assert done[..|done|] == done;
  }

  // A new run begins.
  lemma SpeltNew(items: seq<Item>, done: seq<nat>, x: nat)
    requires items == PackedOf(done) && (done == [] || done[|done| - 1] != x)
    ensures x == 0 ==> Spelt(items, 1, 0, done + [x])
    ensures x != 0 ==> Spelt(items + [Item(x, 0)], 0, 0, done + [x])
  {
    hide PackedOf, Trailing, Zeros, Repeats, Front, Left;
    TrailingNext(done, x);
    NothingYet(x);
    LastIs(done, x);
    NothingAfter(items, x);
  }

  lemma LastIs(s: seq<nat>, x: nat)
    ensures s + [x] != [] && (s + [x])[|s + [x]| - 1] == x
  {}

  lemma NothingAfter(items: seq<Item>, x: nat)
    ensures items + [] == items && [Item(x, 0)] + [] == [Item(x, 0)]
  {}

  lemma NothingYet(v: nat)
    ensures Zeros(0) == Repeats(v, 0) == [] && Left(0, 6) == 0 && Left(1, 138) == 1
  {}

  lemma NextIn(k: nat, m: nat)
    requires m > 1
    ensures Left(k + 1, m) == if Left(k, m) == m - 1 then 0 else Left(k, m) + 1
  {
    var q, r := k / m, k % m;
    if r == m - 1 {
      assert m * (q + 1) == m * q + m;
      DivUnique(k + 1, m, q + 1, 0);
    } else {
      DivUnique(k + 1, m, q, r + 1);
    }
  }

  // The run goes on; a full one is put out.
  lemma SpeltZero(items: seq<Item>, zeros: nat, done: seq<nat>)
    requires Spelt(items, zeros, 0, done) && done != [] && done[|done| - 1] == 0
    ensures zeros < 137 ==> Spelt(items, zeros + 1, 0, done + [0])
    ensures zeros == 137 ==> Spelt(items + ZeroItems(138), 0, 0, done + [0])
  {
    hide PackedOf, Trailing, ZeroItems, Plainly, Front, Left;
    TrailingNext(done, 0);
    NextIn(Trailing(done), 138);
  }

  lemma SpeltRepeat(items: seq<Item>, rep: nat, done: seq<nat>, x: nat)
    requires Spelt(items, 0, rep, done) && done != [] && done[|done| - 1] == x != 0
    ensures rep < 5 ==> Spelt(items, 0, rep + 1, done + [x])
    ensures rep == 5 ==> Spelt(items + RepeatItems(x, 6), 0, 0, done + [x])
  {
    hide PackedOf, Trailing, RepeatItems, Plainly, Front, Left;
    TrailingNext(done, x);
    NextIn(Trailing(done) - 1, 6);
  }

  // The compressor's array of packed sizes, with symbol counts.
  class Packer {
    const packed: array<nat>
    const counts: array<nat>
    var n: nat
    ghost var items: seq<Item>
    ghost var have: seq<nat>

    ghost predicate Valid()
      reads this, packed, counts
    {
      && packed != counts && packed.Length == MAX_SIZES && counts.Length == 288
      && Packed(packed[..], n, counts[..], items, have)
    }

    constructor ()
      ensures Valid() && fresh(packed) && fresh(counts) && n == 0 && items == [] && have == []
      ensures forall i :: LENGTH_SYMBOLS <= i < 288 ==> counts[i] == 0
    {
      packed := new nat[MAX_SIZES](_ => 0);
      counts := new nat[288](_ => 0);
      n, items, have := 0, [], [];
    }

    // Puts a size as it is.
    method PutSize(size: nat)
      requires Valid() && size < 16 && |have| < MAX_SIZES
      modifies `n, `items, `have, packed, counts
      ensures Valid() && have == old(have) + [size] && items == old(items) + [Item(size, 0)]
    {
      ghost var it, p0, c0 := Item(size, 0), packed[..], counts[..];
      CountBound(it);
      counts[size] := (counts[size] + 1) % 0x1_0000;
      packed[n] := size;
      PackOne(p0, packed[..], n, c0, counts[..], items, have, it);
      n := n + 1;
      items, have := items + [it], have + [size];
    }

    // Puts a repeat symbol with its field.
    method PutRun(sym: nat, extra: nat)
      requires Valid() && 16 <= sym <= 18 && extra < Pow2(Width(sym)) && (sym == 16 ==> have != [])
      requires |have| + extra + Least(sym) <= MAX_SIZES
      modifies `n, `items, `have, packed, counts
      ensures Valid() && have == old(have) + Copies(if sym == 16 then old(have)[|old(have)| - 1] else 0, extra + Least(sym))
      ensures items == old(items) + [Item(sym, extra)]
    {
      hide Pow2, Width, Run, Packed, Copies, SymCount, ItemsBytes;
      ghost var it, p0, c0 := Item(sym, extra), packed[..], counts[..];
      CountBound(it);
      RunIs(have, it);
      RunOk(it);
      counts[sym] := (counts[sym] + 1) % 0x1_0000;
      packed[n] := sym;
      packed[n + 1] := extra;
      assert packed[n..n + 2] == [sym, extra] && packed[..n] == p0[..n];
      PackOne(p0, packed[..], n, c0, counts[..], items, have, it);
      n := n + 2;
      items, have := items + [it], Run(have, it).value;
    }

    lemma RunIs(have: seq<nat>, it: Item)
      requires 16 <= it.sym <= 18 && (it.sym == 16 ==> have != [])
      ensures Run(have, it) == Some(have + Copies(if it.sym == 16 then have[|have| - 1] else 0, it.extra + Least(it.sym)))
    {}

    lemma RunOk(it: Item)
      requires 16 <= it.sym <= 18 && it.extra < Pow2(Width(it.sym))
      ensures ItemOk(it) && ItemBytes(it) == [it.sym, it.extra] && Least(it.sym) >= 2
    {}

    lemma CountBound(it: Item)
      requires Valid() && it.sym < LENGTH_SYMBOLS && |have| <= MAX_SIZES
      ensures counts[it.sym] <= 320 && n <= |have|
      ensures forall s :: 0 <= s < LENGTH_SYMBOLS ==> counts[s] == SymCount(items, s)
    {}

    // Puts out the held-back repeats of the last size.
    method PutRepeats(prev: nat, rep: nat)
      requires Valid() && rep <= 6 && |have| + rep <= MAX_SIZES
      requires rep > 0 ==> prev < 16 && have != [] && have[|have| - 1] == prev
      modifies `n, `items, `have, packed, counts
      ensures Valid() && have == old(have) + Copies(prev, rep) && items == old(items) + RepeatItems(prev, rep)
    {
      ghost var before := have;
      if rep == 0 {
        assert before + Copies(prev, 0) == before;
      } else if rep < 3 {
        PutSize(prev);
        if rep == 2 {
          PutSize(prev);
        }
        assert have == before + Copies(prev, rep);
      } else {
        SmallWidths();
        PutRun(16, rep - 3);
      }
    }

    // Puts out the held-back zeros.
    method PutZeros(zeros: nat)
      requires Valid() && zeros <= 138 && |have| + zeros <= MAX_SIZES
      modifies `n, `items, `have, packed, counts
      ensures Valid() && have == old(have) + Copies(0, zeros) && items == old(items) + ZeroItems(zeros)
    {
      ghost var before := have;
      SmallWidths();
      if zeros == 0 {
        assert before + Copies(0, 0) == before;
      } else if zeros < 3 {
        PutSize(0);
        if zeros == 2 {
          PutSize(0);
        }
        assert have == before + Copies(0, zeros);
      } else if zeros <= 10 {
        PutRun(17, zeros - 3);
      } else {
        PutRun(18, zeros - 11);
      }
    }

    // The sizes done are those packed and a run held back.
    ghost predicate Holding(zeros: nat, rep: nat, prev: nat, done: seq<nat>)
      reads this
    {
      && zeros < 138 && rep < 6 && (zeros == 0 || rep == 0)
      && done == have + Held(zeros, rep, prev)
      && (if done == [] then prev == NO_SIZE && rep == 0 else prev == done[|done| - 1])
      && (zeros > 0 ==> prev == 0)
      && (rep > 0 ==> have != [] && have[|have| - 1] == prev)
      && Spelt(items, zeros, rep, done)
    }

    // A zero size ends a run of repeats and extends a run of zeros.
    method TakeZero(zeros: nat, rep: nat, prev: nat, ghost done: seq<nat>) returns (zeros': nat)
      requires Valid() && Holding(zeros, rep, prev, done) && |done| < MAX_SIZES && (rep > 0 ==> prev < 16)
      modifies `n, `items, `have, packed, counts
      ensures Valid() && Holding(zeros', 0, 0, done + [0])
    {
      hide Valid, Spelt, PackedOf, ZeroItems, RepeatItems;
      SpeltOut(items, zeros, rep, done);
      NothingPut(prev);
      PutRepeats(prev, rep);
      if done == [] || done[|done| - 1] != 0 {
        SpeltNew(items, done, 0);
      } else {
        SpeltZero(items, zeros, done);
      }
      zeros' := zeros + 1;
      HeldGrows(zeros', 0, 0);
      if zeros' == 138 {
        PutZeros(zeros');
        zeros' := 0;
      }
    }

    // Any other size ends a run of zeros, and extends a run of repeats or ends it.
    method TakeSize(size: nat, zeros: nat, rep: nat, prev: nat, ghost done: seq<nat>) returns (rep': nat)
      requires Valid() && Holding(zeros, rep, prev, done) && |done| < MAX_SIZES && (rep > 0 ==> prev < 16)
      requires 0 < size < 16
      modifies `n, `items, `have, packed, counts
      ensures Valid() && Holding(0, rep', size, done + [size])
    {
      hide Valid, Spelt, PackedOf, ZeroItems, RepeatItems;
      SpeltOut(items, zeros, rep, done);
      NothingPut(prev);
      PutZeros(zeros);
      rep' := rep;
      if done != [] && done[|done| - 1] == size {
        SpeltRepeat(items, rep, done, size);
      }
      if size != prev {
        PutRepeats(prev, rep);
        rep' := 0;
        SpeltNew(items, done, size);
        PutSize(size);
      } else {
        LastOf(done, have, rep);
        rep' := rep + 1;
        HeldGrows(0, rep', prev);
        if rep' == 6 {
          PutRepeats(prev, rep');
          rep' := 0;
        }
      }
    }

    // Packs a list of code sizes; the packed form never outgrows it.
    method Pack(sizes: seq<nat>)
      requires Valid() && n == 0 && items == [] && have == [] && |sizes| <= MAX_SIZES
      requires forall i :: 0 <= i < |sizes| ==> sizes[i] < 16
      modifies this, packed, counts
      ensures Valid() && have == sizes && Unrolled(items) == Some(sizes) && n <= |sizes|
      ensures items == PackedOf(sizes)
    {
      hide Valid, Spelt, PackedOf, ZeroItems, RepeatItems;
      var zeros: nat, rep: nat, prev: nat := 0, 0, NO_SIZE;
      SpeltNothing();
      assert sizes[..0] == have + Held(0, 0, prev);
      for i := 0 to |sizes|
        invariant Valid() && Holding(zeros, rep, prev, sizes[..i])
      {
        assert sizes[..i + 1] == sizes[..i] + [sizes[i]];
        if sizes[i] == 0 {
          zeros := TakeZero(zeros, rep, prev, sizes[..i]);
          rep := 0;
        } else {
          rep := TakeSize(sizes[i], zeros, rep, prev, sizes[..i]);
          zeros := 0;
        }
        prev := sizes[i];
      }
      assert sizes[..|sizes|] == sizes;
      SpeltOut(items, zeros, rep, sizes);
      NothingPut(prev);
      if rep > 0 {
        PutRepeats(prev, rep);
      } else {
        PutZeros(zeros);
      }
      Ending();
    }

    lemma SpeltNothing()
      ensures Spelt([], 0, 0, [])
    {}

    lemma NothingPut(prev: nat)
      ensures RepeatItems(prev, 0) == ZeroItems(0) == [] && items + [] == items
    {}

    lemma Ending()
      requires Valid()
      ensures Unrolled(items) == Some(have) && n <= |have|
    {}
  }

  lemma SmallWidths()
    ensures Pow2(Width(16)) == 4 && Pow2(Width(17)) == 8 && Pow2(Width(18)) == 128
  {
    Pow2Table();
  }

  // What the packer holds back.
  function Held(zeros: nat, rep: nat, prev: nat): (r: seq<nat>)
    ensures |r| == if zeros > 0 then zeros else rep
  {
    if zeros > 0 then Copies(0, zeros) else Copies(prev, rep)
  }

  lemma HeldGrows(zeros: nat, rep: nat, prev: nat)
    ensures zeros > 0 ==> Copies(0, zeros) == Copies(0, zeros - 1) + [0]
    ensures rep > 0 ==> Copies(prev, rep) == Copies(prev, rep - 1) + [prev]
  {}

  lemma LastOf(sizes: seq<nat>, have: seq<nat>, rep: nat)
    ensures sizes == have + Copies(0, 0) ==> sizes == have
    ensures sizes != [] && rep == 0 && sizes == have + Held(0, rep, sizes[|sizes| - 1])
      ==> have != [] && have[|have| - 1] == sizes[|sizes| - 1]
  {}
}
