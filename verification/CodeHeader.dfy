/** The header of a dynamic block: how many codes there are, the sizes of the code-length code in a
    fixed order, and the packed code sizes under that code (section 3.2.7 of RFC 1951). */
module CodeHeader {
  import opened Wrappers
  import opened Sums
  import opened Bits
  import opened Lz77
  import opened DecodeTable
  import opened Canonical
  import opened InflateTable
  import opened BitOutput
  import opened BlockCodec
  import opened LzCodes
  import opened CodeLengths

  // The order in which the sizes of the code-length code are sent.
  const SWIZZLE: seq<nat> := [16, 17, 18, 0, 8, 7, 9, 6, 10, 5, 11, 4, 12, 3, 13, 2, 14, 1, 15]

  // ---------- writing ----------

  // The bits of one item: its symbol's word and its repeat field.
  function ItemBits(words: seq<Path>, it: Item): (r: seq<bool>)
    requires |words| == LENGTH_SYMBOLS && ItemOk(it)
  {
    words[it.sym] + LsbBits(it.extra, Width(it.sym))
  }

  function ItemsBits(words: seq<Path>, items: seq<Item>): (r: seq<bool>)
    requires |words| == LENGTH_SYMBOLS && ItemsOk(items)
  {
    if items == [] then [] else ItemBits(words, items[0]) + ItemsBits(words, items[1..])
  }

  // The sizes at places k up to n of the fixed order, three bits each.
  function LensBits(sizes: seq<nat>, k: nat, n: nat): (r: seq<bool>)
    requires |sizes| == LENGTH_SYMBOLS && k <= n <= LENGTH_SYMBOLS
    decreases n - k
  {
    if k == n then [] else LsbBits(sizes[SWIZZLE[k]], 3) + LensBits(sizes, k + 1, n)
  }

  ghost function HeaderBits(numLit: nat, numDist: nat, numLens: nat, lens: seq<nat>, items: seq<Item>): (r: seq<bool>)
    requires numLit >= 257 && numDist >= 1 && 4 <= numLens <= |lens| == LENGTH_SYMBOLS && ItemsOk(items)
  {
    LsbBits(numLit - 257, 5) + (LsbBits(numDist - 1, 5) + (LsbBits(numLens - 4, 4)
      + (LensBits(lens, 0, numLens) + ItemsBits(Words(lens), items))))
  }

  // ---------- reading ----------

  // Code sizes under a code-length code, until there are enough; running past the end is an error.
  ghost function ReadSizes(words: seq<Path>, bits: seq<bool>, have: seq<nat>, total: nat): Read<seq<nat>>
    decreases |bits|
  {
    if |have| >= total then if |have| == total then Got(have, bits) else Bad
    else
      match ReadSymbol(words, bits)
      case Bad => Bad
      case Got(sym, rest) =>
        match ReadBits(rest, Width(sym))
        case Bad => Bad
        case Got(extra, rest) =>
          match Run(have, Item(sym, extra))
          case None => Bad
          case Some(more) => ReadSizes(words, rest, more, total)
  }

  // The sizes of the code-length code from place k of the fixed order on.
  function ReadLens(bits: seq<bool>, k: nat, n: nat, sizes: seq<nat>): (r: Read<seq<nat>>)
    requires |sizes| == LENGTH_SYMBOLS && n <= LENGTH_SYMBOLS
    ensures r.Got? ==> |r.value| == LENGTH_SYMBOLS
    decreases n - k
  {
    if k >= n then Got(sizes, bits)
    else
      match ReadBits(bits, 3)
      case Bad => Bad
      case Got(size, rest) => ReadLens(rest, k + 1, n, sizes[SWIZZLE[k] := size])
  }

  function Padded(sizes: seq<nat>, n: nat): (r: seq<nat>)
    ensures |r| == if |sizes| <= n then n else |sizes|
  {
    if |sizes| <= n then sizes + Copies(0, n - |sizes|) else sizes
  }

  // How many codes of each kind there are.
  function ReadCounts(bits: seq<bool>): (r: Read<(nat, nat, nat)>)
    ensures r.Got? ==> r.value.0 >= 257 && r.value.1 >= 1 && 4 <= r.value.2 <= LENGTH_SYMBOLS && |r.rest| <= |bits|
  {
    match ReadBits(bits, 5)
    case Bad => Bad
    case Got(hlit, rest) =>
      match ReadBits(rest, 5)
      case Bad => Bad
      case Got(hdist, rest) =>
        match ReadBits(rest, 4)
        case Bad => Bad
        case Got(hclen, rest) =>
          if hclen + 4 > LENGTH_SYMBOLS then Bad else Got((hlit + 257, hdist + 1, hclen + 4), rest)
  }

  // The sizes of both codes, one list, under the code-length code sent before them.
  ghost function ReadListed(bits: seq<bool>, total: nat, numLens: nat): Read<seq<nat>>
    requires numLens <= LENGTH_SYMBOLS
  {
    match ReadLens(bits, 0, numLens, Copies(0, LENGTH_SYMBOLS))
    case Bad => Bad
    case Got(lens, rest) => if Accepts(lens) then ReadSizes(Words(lens), rest, [], total) else Bad
  }

  // The code sizes of a dynamic block, as the decoder takes them: each of the three codes must be
  // complete or have at most one symbol.
  ghost function ReadHeader(bits: seq<bool>): Read<(seq<nat>, seq<nat>)> {
    match ReadCounts(bits)
    case Bad => Bad
    case Got(n, rest) =>
      match ReadListed(rest, n.0 + n.1, n.2)
      case Bad => Bad
      case Got(sizes, rest) => if |sizes| < n.0 then Bad else
        var lit, dist := Padded(sizes[..n.0], 288), Padded(sizes[n.0..], 32);
        if Accepts(lit) && Accepts(dist) then Got((lit, dist), rest) else Bad
  }

  // ---------- the round trip ----------

  lemma ReadsItem(words: seq<Path>, it: Item, rest: seq<bool>, have: seq<nat>, total: nat)
    requires PrefixCode(words) && |words| == LENGTH_SYMBOLS && ItemOk(it) && words[it.sym] != []
    requires |have| < total && Run(have, it).Some?
    ensures ReadSizes(words, ItemBits(words, it) + rest, have, total) == ReadSizes(words, rest, Run(have, it).value, total)
  {
    hide PrefixCode, ReadSymbol, ReadBits, Pow2, LsbBits;
    var x := LsbBits(it.extra, Width(it.sym));
    assert ItemBits(words, it) + rest == words[it.sym] + (x + rest);
    ReadsSymbol(words, it.sym, x + rest);
    ReadsBits(it.extra, Width(it.sym), rest);
  }

  lemma {:induction false} UnrolledPrefix(items: seq<Item>, k: nat, sizes: seq<nat>)
    requires k < |items| && Unrolled(items) == Some(sizes)
    ensures Unrolled(items[..k]).Some? && |Unrolled(items[..k]).value| < |sizes|
    ensures Unrolled(items[..k + 1]) == Run(Unrolled(items[..k]).value, items[k]) && Unrolled(items[..k + 1]).Some?
    decreases |items|
  {
    assert items[..k + 1][..k] == items[..k];
    if k + 1 == |items| {
      assert items[..k + 1] == items;
    } else {
      var m := |items| - 1;
      UnrolledPrefix(items[..m], k, Unrolled(items[..m]).value);
      assert items[..m][..k] == items[..k] && items[..m][..k + 1] == items[..k + 1];
    }
  }

  // Reading from the k-th item on gives all the sizes.
  lemma {:induction false} ReadsItems(words: seq<Path>, items: seq<Item>, k: nat, sizes: seq<nat>, rest: seq<bool>)
    requires PrefixCode(words) && |words| == LENGTH_SYMBOLS && ItemsOk(items) && k <= |items|
    requires forall i :: 0 <= i < |items| ==> words[items[i].sym] != []
    requires Unrolled(items) == Some(sizes) && Unrolled(items[..k]).Some?
    ensures ReadSizes(words, ItemsBits(words, items[k..]) + rest, Unrolled(items[..k]).value, |sizes|) == Got(sizes, rest)
    decreases |items| - k
  {
    hide PrefixCode, ReadSymbol, ReadBits, ItemBits, ItemOk;
    if k == |items| {
      assert items[..k] == items;
      assert ItemsBits(words, items[k..]) + rest == rest;
    } else {
      UnrolledPrefix(items, k, sizes);
      var it, tail := items[k], ItemsBits(words, items[k + 1..]);
      assert items[k..][1..] == items[k + 1..];
      assert ItemsBits(words, items[k..]) + rest == ItemBits(words, it) + (tail + rest);
      ReadsItem(words, it, tail + rest, Unrolled(items[..k]).value, |sizes|);
      ReadsItems(words, items, k + 1, sizes, rest);
    }
  }

  // Each code-length symbol has one place in the fixed order.
  const PLACE_OF: seq<nat> := [3, 17, 15, 13, 11, 9, 7, 5, 4, 6, 8, 10, 12, 14, 16, 18, 0, 1, 2]

  lemma SwizzleIsPermutation()
    ensures |SWIZZLE| == |PLACE_OF| == LENGTH_SYMBOLS
    ensures forall s :: 0 <= s < LENGTH_SYMBOLS ==> 0 <= PLACE_OF[s] < LENGTH_SYMBOLS && SWIZZLE[PLACE_OF[s]] == s
    ensures forall k :: 0 <= k < LENGTH_SYMBOLS ==> 0 <= SWIZZLE[k] < LENGTH_SYMBOLS && PLACE_OF[SWIZZLE[k]] == k
  {}

  // Sizes read so far are right; the others are still zero.
  ghost predicate LensDone(lens: seq<nat>, sizes: seq<nat>, k: nat)
    requires |lens| == |sizes| == LENGTH_SYMBOLS == |PLACE_OF|
  {
    forall s :: 0 <= s < LENGTH_SYMBOLS ==> sizes[s] == if PLACE_OF[s] < k then lens[s] else 0
  }

  lemma {:induction false} ReadsLens(lens: seq<nat>, k: nat, n: nat, sizes: seq<nat>, rest: seq<bool>)
    requires |lens| == |sizes| == LENGTH_SYMBOLS && k <= n <= LENGTH_SYMBOLS && LensDone(lens, sizes, k)
    requires forall s :: 0 <= s < LENGTH_SYMBOLS ==> lens[s] < 8 && (PLACE_OF[s] >= n ==> lens[s] == 0)
    ensures ReadLens(LensBits(lens, k, n) + rest, k, n, sizes) == Got(lens, rest)
    decreases n - k
  {
    hide ReadBits, LsbBits, LensDone;
    SwizzleIsPermutation();
    if k == n {
      assert LensBits(lens, k, n) + rest == rest;
      AllLens(lens, sizes, n);
    } else {
      var s := SWIZZLE[k];
      var tail := LensBits(lens, k + 1, n);
      assert LensBits(lens, k, n) + rest == LsbBits(lens[s], 3) + (tail + rest);
      Pow2Table();
      ReadsBits(lens[s], 3, tail + rest);
      OneLen(lens, sizes, k);
      ReadsLens(lens, k + 1, n, sizes[s := lens[s]], rest);
    }
  }

  lemma AllLens(lens: seq<nat>, sizes: seq<nat>, n: nat)
    requires |lens| == |sizes| == LENGTH_SYMBOLS == |PLACE_OF| && LensDone(lens, sizes, n)
    requires forall s :: 0 <= s < LENGTH_SYMBOLS ==> (PLACE_OF[s] >= n ==> lens[s] == 0)
    ensures sizes == lens
  {}

  lemma OneLen(lens: seq<nat>, sizes: seq<nat>, k: nat)
    requires |lens| == |sizes| == LENGTH_SYMBOLS && k < LENGTH_SYMBOLS && LensDone(lens, sizes, k)
    ensures LensDone(lens, sizes[SWIZZLE[k] := lens[SWIZZLE[k]]], k + 1)
  {
    SwizzleIsPermutation();
  }

  // The sizes of the code-length code that are not sent are zero.
  ghost predicate LensSent(lens: seq<nat>, n: nat) {
    4 <= n <= LENGTH_SYMBOLS <= |lens| && forall s :: 0 <= s < LENGTH_SYMBOLS && PLACE_OF[s] >= n ==> lens[s] == 0
  }

  // What the encoder chose for the header of a block.
  ghost predicate HeaderOk(numLit: nat, numDist: nat, lens: seq<nat>, items: seq<Item>, lit: seq<nat>, dist: seq<nat>) {
    && 257 <= numLit <= 286 && 1 <= numDist <= 30
    && |lens| == LENGTH_SYMBOLS && |lit| == 288 && |dist| == 32
    && Accepts(lens) && Fits(lens, MAX_BITS) && Accepts(lit) && Accepts(dist)
    && (forall s :: 0 <= s < LENGTH_SYMBOLS ==> lens[s] < 8)
    && ItemsOk(items) && (forall i :: 0 <= i < |items| ==> lens[items[i].sym] > 0)
    && Unrolled(items) == Some(lit[..numLit] + dist[..numDist])
    && (forall i :: numLit <= i < 288 ==> lit[i] == 0)
    && (forall i :: numDist <= i < 32 ==> dist[i] == 0)
  }

  // The header round trip: the decoder gets back the sizes of both codes.
  lemma HeaderRoundTrip(numLit: nat, numDist: nat, numLens: nat, lens: seq<nat>, items: seq<Item>,
                        lit: seq<nat>, dist: seq<nat>, rest: seq<bool>)
    requires HeaderOk(numLit, numDist, lens, items, lit, dist) && LensSent(lens, numLens)
    ensures ReadHeader(HeaderBits(numLit, numDist, numLens, lens, items) + rest) == Got((lit, dist), rest)
  {
    hide Accepts, Fits, ReadBits, LsbBits, Pow2, LensBits, ItemsBits, Unrolled, Words, ReadLens, ReadSizes, ItemsOk;
    var words := Words(lens);
    var d := ItemsBits(words, items) + rest;
    var c := LensBits(lens, 0, numLens) + d;
    var b := LsbBits(numLens - 4, 4) + c;
    var a := LsbBits(numDist - 1, 5) + b;
    Regroup(LsbBits(numLit - 257, 5), LsbBits(numDist - 1, 5), LsbBits(numLens - 4, 4), LensBits(lens, 0, numLens),
            ItemsBits(words, items), rest);
    Pow2Table();
    ReadsBits(numLit - 257, 5, a);
    ReadsBits(numDist - 1, 5, b);
    ReadsBits(numLens - 4, 4, c);
    NoLensYet(lens);
    ReadsLens(lens, 0, numLens, Copies(0, LENGTH_SYMBOLS), d);
    AllItemsRead(lens, items, lit[..numLit] + dist[..numDist], rest);
    PaddingRestores(lit, numLit, dist, numDist);
  }

  lemma Regroup(p: seq<bool>, q: seq<bool>, r: seq<bool>, s: seq<bool>, t: seq<bool>, rest: seq<bool>)
    ensures p + (q + (r + (s + t))) + rest == p + (q + (r + (s + (t + rest))))
  {}

  lemma NoLensYet(lens: seq<nat>)
    requires |lens| == LENGTH_SYMBOLS
    ensures LensDone(lens, Copies(0, LENGTH_SYMBOLS), 0)
  {}

  lemma AllItemsRead(lens: seq<nat>, items: seq<Item>, sizes: seq<nat>, rest: seq<bool>)
    requires |lens| == LENGTH_SYMBOLS && Fits(lens, MAX_BITS) && ItemsOk(items) && Unrolled(items) == Some(sizes)
    requires forall i :: 0 <= i < |items| ==> lens[items[i].sym] > 0
    ensures ReadSizes(Words(lens), ItemsBits(Words(lens), items) + rest, [], |sizes|) == Got(sizes, rest)
  {
    hide ReadSizes, ItemsBits;
    WordsAreCode(lens);
    assert items[0..] == items && items[..0] == [];
    forall i | 0 <= i < |items| ensures Words(lens)[items[i].sym] != [] {
      assert lens[items[i].sym] <= MAX_BITS;
    }
    ReadsItems(Words(lens), items, 0, sizes, rest);
  }

  lemma PaddingRestores(lit: seq<nat>, numLit: nat, dist: seq<nat>, numDist: nat)
    requires numLit <= |lit| == 288 && numDist <= |dist| == 32
    requires forall i :: numLit <= i < 288 ==> lit[i] == 0
    requires forall i :: numDist <= i < 32 ==> dist[i] == 0
    ensures var sizes := lit[..numLit] + dist[..numDist];
      Padded(sizes[..numLit], 288) == lit && Padded(sizes[numLit..], 32) == dist
  {}
}
