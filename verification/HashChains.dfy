/** The hash chains of the dictionary: each position whose three bytes have been seen is linked to the
    position before it with the same hash, and the hash table heads each chain with the last one. */
module HashChains {
  import opened Lz77

  const HASH_SIZE := 32768

  // Where stream position q lives in the circular array.
  function Place(q: int): (r: nat)
    ensures r < LZ_DICT_SIZE
  {
    q % LZ_DICT_SIZE
  }

  // Positions less than a window apart have different places.
  lemma PlacesDiffer(p: int, q: int)
    requires p < q < p + LZ_DICT_SIZE
    ensures Place(p) != Place(q)
  {}

  function Bits(c: byte): bv32 {
    c as bv32
  }

  // One step of the hash: mixing in the next byte.
  function HashStep(hash: bv32, c: byte): (h: bv32)
    ensures h < 0x8000
  {
    ((hash << 5) ^ Bits(c)) & 0x7FFF
  }

  function HashTwo(a: byte, b: byte): bv32 {
    (Bits(a) << 5) ^ Bits(b)
  }

  // The hash of three bytes at once.
  function HashThree(a: byte, b: byte, c: byte): (h: bv32)
    ensures h < 0x8000
  {
    ((Bits(a) << 10) ^ (Bits(b) << 5) ^ Bits(c)) & 0x7FFF
  }

  function HashIndex(h: bv32): (i: nat)
    requires h < 0x8000
    ensures i < HASH_SIZE
  {
    h as int
  }

  lemma MixedIn(x: bv32, y: bv32, z: bv32, w: bv32)
    ensures (((((x << 10) ^ (y << 5) ^ z) & 0x7FFF) << 5) ^ w) & 0x7FFF == ((y << 10) ^ (z << 5) ^ w) & 0x7FFF
    ensures ((((x << 5) ^ y) << 5) ^ z) & 0x7FFF == ((x << 10) ^ (y << 5) ^ z) & 0x7FFF
  {}

  // The hash that is carried along is that of the last three bytes.
  lemma HashCarried(a: byte, b: byte, c: byte, d: byte)
    ensures HashStep(HashTwo(a, b), c) == HashThree(a, b, c)
    ensures HashStep(HashThree(a, b, c), d) == HashThree(b, c, d)
  {
    hide Bits;
    MixedIn(Bits(a), Bits(b), Bits(c), Bits(d));
  }

  // The chain that the three bytes at q belong to.
  function HashAt(data: seq<byte>, q: nat): (i: nat)
    requires q + 3 <= |data|
    ensures i < HASH_SIZE
  {
    HashIndex(HashThree(data[q], data[q + 1], data[q + 2]))
  }

  // The last position before q, and not before base, in chain h; -1 if there is none.
  function LastIn(data: seq<byte>, base: nat, h: nat, q: nat): (r: int)
    requires q <= base || q + 2 <= |data|
    ensures r == -1 || base <= r < q
    ensures r >= 0 ==> HashAt(data, r) == h
    ensures forall k :: (if r < 0 then base else r + 1) <= k < q ==> HashAt(data, k) != h
  {
    if q <= base then -1
    else if HashAt(data, q - 1) == h then q - 1
    else LastIn(data, base, h, q - 1)
  }

  lemma {:induction false} LastInPrefix(data: seq<byte>, more: seq<byte>, base: nat, h: nat, q: nat)
    requires q <= base || q + 2 <= |data|
    ensures LastIn(data + more, base, h, q) == LastIn(data, base, h, q)
    decreases q
  {
    hide HashThree, HashIndex;
    if q > base {
      assert HashAt(data + more, q - 1) == HashAt(data, q - 1);
      LastInPrefix(data, more, base, h, q - 1);
    }
  }

  // A position as the tables hold it: none is zero, and so is every multiple of 2^16.
  function Link(q: int): uint16 {
    if q < 0 then 0 else q % 0x1_0000
  }

  // Where the positions end that have been put in chains: those from base on with three bytes.
  function ChainEnd(data: seq<byte>, base: nat): (e: nat)
    ensures e >= base && (e == base || e + 2 == |data|)
  {
    if |data| < base + 2 then base else |data| - 2
  }

  ghost predicate LinkedAt(next: seq<uint16>, data: seq<byte>, base: nat, q: nat)
    requires |next| == LZ_DICT_SIZE && q + 3 <= |data|
  {
    next[Place(q)] == Link(LastIn(data, base, HashAt(data, q), q))
  }

  // The tables hold the chains of the last 32768 positions.
  ghost predicate Chained(next: seq<uint16>, hash: seq<uint16>, data: seq<byte>, base: nat) {
    && |next| == LZ_DICT_SIZE && |hash| == HASH_SIZE && base <= |data|
    && (forall h :: 0 <= h < HASH_SIZE ==> hash[h] == Link(LastIn(data, base, h, ChainEnd(data, base))))
    && forall q :: base <= q < ChainEnd(data, base) && q >= ChainEnd(data, base) - LZ_DICT_SIZE ==> LinkedAt(next, data, base, q)
  }

  lemma NothingChained(next: seq<uint16>, hash: seq<uint16>, data: seq<byte>)
    requires |next| == LZ_DICT_SIZE && |hash| == HASH_SIZE && forall h :: 0 <= h < HASH_SIZE ==> hash[h] == 0
    ensures Chained(next, hash, data, |data|)
  {}

  // The first two bytes after base put nothing in a chain.
  lemma TooFewToChain(next: seq<uint16>, hash: seq<uint16>, data: seq<byte>, base: nat, c: byte)
    requires Chained(next, hash, data, base) && |data| + 1 < base + 3
    ensures Chained(next, hash, data + [c], base)
  {
    assert ChainEnd(data, base) == ChainEnd(data + [c], base) == base;
    forall h | 0 <= h < HASH_SIZE ensures LastIn(data + [c], base, h, base) == LastIn(data, base, h, base) {
      LastInPrefix(data, [c], base, h, base);
    }
  }

  // The next byte puts the position two before it at the head of its chain.
  lemma ChainsOn(next: seq<uint16>, hash: seq<uint16>, data: seq<byte>, base: nat, c: byte, q: nat, h: nat,
                 next': seq<uint16>, hash': seq<uint16>)
    requires Chained(next, hash, data, base) && base <= q && q + 2 == |data|
    requires h == HashAt(data + [c], q)
    requires next' == next[Place(q) := hash[h]] && hash' == hash[h := q % 0x1_0000]
    ensures Chained(next', hash', data + [c], base)
  {
    hide HashAt, LastIn;
    var data' := data + [c];
    assert ChainEnd(data, base) == q && ChainEnd(data', base) == q + 1;
    forall k | 0 <= k < HASH_SIZE ensures hash'[k] == Link(LastIn(data', base, k, q + 1)) {
      LastInPrefix(data, [c], base, k, q);
      LastInNext(data', base, k, q);
    }
    forall k | base <= k < q + 1 && k >= q + 1 - LZ_DICT_SIZE ensures LinkedAt(next', data', base, k) {
      if k == q {
        LastInPrefix(data, [c], base, h, q);
      } else {
        assert LinkedAt(next, data, base, k);
        PlacesDiffer(k, q);
        SameHash(data, [c], k);
        LastInPrefix(data, [c], base, HashAt(data, k), k);
      }
    }
  }

  lemma SameHash(data: seq<byte>, more: seq<byte>, q: nat)
    requires q + 3 <= |data|
    ensures HashAt(data + more, q) == HashAt(data, q)
  {}

  lemma LastInNext(data: seq<byte>, base: nat, h: nat, q: nat)
    requires base <= q && q + 3 <= |data|
    ensures LastIn(data, base, h, q + 1) == if HashAt(data, q) == h then q else LastIn(data, base, h, q)
  {}

  // ---------- following a chain ----------

  // How many positions from q on, and before p, are in p's chain.
  function Between(data: seq<byte>, h: nat, q: nat, p: nat): (n: nat)
    requires q <= p && (q == p || p + 2 <= |data|)
    ensures n <= p - q
  {
    if q == p then 0 else Between(data, h, q, p - 1) + if HashAt(data, p - 1) == h then 1 else 0
  }
}
