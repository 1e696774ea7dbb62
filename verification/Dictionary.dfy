/** The compressor's sliding window: a circular byte array whose first bytes are mirrored past its
    end, so that a match can be compared without wrapping, its hash chains, and the search for the longest
    match along them. */
module Dictionary {
  import opened Arith
  import opened Lz77
  import opened HashChains
  import opened MatchSearch

  const MIRROR := 257

  // The array holds data[lo..], with the mirror kept.
  ghost predicate Holds(dict: seq<byte>, data: seq<byte>, lo: int) {
    && |dict| == LZ_DICT_SIZE + MIRROR
    && 0 <= lo <= |data|
    && forall q :: lo <= q < |data| ==> HoldsAt(dict, data, q)
  }

  ghost predicate HoldsAt(dict: seq<byte>, data: seq<byte>, q: int)
    requires |dict| == LZ_DICT_SIZE + MIRROR && 0 <= q < |data|
  {
    && dict[Place(q)] == data[q]
    && (Place(q) < MIRROR ==> dict[LZ_DICT_SIZE + Place(q)] == data[q])
  }

  // Positions are kept modulo 2^32, a multiple of the window.
  lemma PlaceOfSum(kept: nat, p: int, n: nat)
    requires kept == p % 0x1_0000_0000
    ensures (kept + n) % LZ_DICT_SIZE == Place(p + n)
  {
    KeptMod(kept, p, LZ_DICT_SIZE, 0x2_0000, n);
  }

  lemma KeptModulo(kept: nat, q: nat)
    requires kept == q % 0x1_0000_0000
    ensures kept % LZ_DICT_SIZE == Place(q) && kept % 0x1_0000 == q % 0x1_0000
  {
    KeptMod(kept, q, LZ_DICT_SIZE, 0x2_0000, 0);
    KeptMod(kept, q, 0x1_0000, 0x1_0000, 0);
  }

  lemma InsertAt(kept: nat, p: int, n: nat)
    requires kept == p % 0x1_0000_0000 && p + n >= 2
    ensures (kept + n - 2) % 0x1_0000_0000 == (p + n - 2) % 0x1_0000_0000
    ensures var ins := (kept + n - 2) % 0x1_0000_0000;
      ins % LZ_DICT_SIZE == Place(p + n - 2) && (ins + 1) % LZ_DICT_SIZE == Place(p + n - 1)
  {
    KeptMod(kept, p, 0x1_0000_0000, 1, n - 2);
    PlaceOfSum((kept + n - 2) % 0x1_0000_0000, p + n - 2, 0);
    PlaceOfSum((kept + n - 2) % 0x1_0000_0000, p + n - 2, 1);
  }

  lemma NextKept(kept: nat, q: nat)
    requires kept == q % 0x1_0000_0000
    ensures (kept + 1) % 0x1_0000_0000 == (q + 1) % 0x1_0000_0000
  {}

  // The hash that the next byte will complete.
  ghost predicate Carries(h: bv32, data: seq<byte>) {
    |data| >= 2 && forall c: byte :: CarriesTo(h, data, c)
  }

  ghost predicate CarriesTo(h: bv32, data: seq<byte>, c: byte)
    requires |data| >= 2
  {
    HashStep(h, c) == HashThree(data[|data| - 2], data[|data| - 1], c)
  }

  lemma CarriesFirst(data: seq<byte>)
    requires |data| >= 2
    ensures Carries(HashTwo(data[|data| - 2], data[|data| - 1]), data)
  {
    hide HashStep, HashTwo, HashThree;
    var h := HashTwo(data[|data| - 2], data[|data| - 1]);
    forall c: byte ensures CarriesTo(h, data, c) {
      HashCarried(data[|data| - 2], data[|data| - 1], c, 0);
    }
  }

  lemma CarriesOn(h: bv32, data: seq<byte>, c: byte)
    requires Carries(h, data)
    ensures Carries(HashStep(h, c), data + [c])
    ensures HashIndex(HashStep(h, c)) == HashAt(data + [c], |data| - 2)
  {
    hide HashStep, HashThree, HashIndex;
    var data' := data + [c];
    assert CarriesTo(h, data, c);
    forall d: byte ensures CarriesTo(HashStep(h, c), data', d) {
      HashCarried(data[|data| - 2], data[|data| - 1], c, d);
    }
  }

  lemma PlaceOfNext(p: int)
    ensures (Place(p) + 1) % LZ_DICT_SIZE == Place(p + 1)
  {}

  // Reading i bytes past a place, without wrapping, gives the byte i positions on.
  lemma ReadAhead(dict: seq<byte>, data: seq<byte>, lo: int, q: int, i: nat)
    requires Holds(dict, data, lo) && lo <= q + i < |data| && i <= MIRROR
    ensures Place(q) + i < |dict| && dict[Place(q) + i] == data[q + i]
  {
    assert HoldsAt(dict, data, q + i);
    if Place(q) + i < LZ_DICT_SIZE {
      assert Place(q + i) == Place(q) + i;
    } else {
      assert Place(q + i) == Place(q) + i - LZ_DICT_SIZE;
    }
  }

  // The array after byte c is stored at the next position, and mirrored.
  function Stored(dict: seq<byte>, at: nat, c: byte): seq<byte>
    requires |dict| == LZ_DICT_SIZE + MIRROR && at < LZ_DICT_SIZE
  {
    if at < MIRROR then dict[at := c][LZ_DICT_SIZE + at := c] else dict[at := c]
  }

  lemma StoreKeeps(dict: seq<byte>, data: seq<byte>, lo: int, c: byte)
    requires Holds(dict, data, lo)
    ensures Holds(Stored(dict, Place(|data|), c), data + [c],
                  if lo <= |data| + 1 - LZ_DICT_SIZE then |data| + 1 - LZ_DICT_SIZE else lo)
  {
    var lo' := if lo <= |data| + 1 - LZ_DICT_SIZE then |data| + 1 - LZ_DICT_SIZE else lo;
    var dict', data' := Stored(dict, Place(|data|), c), data + [c];
    forall q | lo' <= q < |data'| ensures HoldsAt(dict', data', q) {
      if q < |data| {
        assert HoldsAt(dict, data, q);
        PlacesDiffer(q, |data|);
      }
    }
  }

  // Little-endian 16-bit load.
  function Word(s: seq<byte>, i: nat): int
    requires i + 1 < |s|
  {
    s[i] as int + 256 * s[i + 1] as int
  }

  lemma WordsEqual(s: seq<byte>, i: nat, j: nat)
    requires i + 1 < |s| && j + 1 < |s|
    ensures Word(s, i) == Word(s, j) <==> s[i] == s[j] && s[i + 1] == s[j + 1]
  {}

  ghost predicate SameBytes(s: seq<byte>, i: nat, j: nat, n: nat)
    requires i + n <= |s| && j + n <= |s|
  {
    forall k :: i <= k < i + n ==> s[k] == s[k - i + j]
  }

  // A match at distance d: length bytes from the lookahead on repeat those d before.
  ghost predicate Repeats(data: seq<byte>, p: int, len: nat, dist: nat) {
    && 1 <= dist <= p && p + len <= |data|
    && forall i :: p <= i < p + len ==> data[i] == data[i - dist]
  }

  // How far two places agree, a word at a time: p words beyond the first agree, and if left is
  // zero all 258 bytes do.
  method CompareWords(dict: array<byte>, pos: nat, probe: nat) returns (p: nat, left: nat)
    requires dict.Length == LZ_DICT_SIZE + MIRROR && pos < LZ_DICT_SIZE && probe < LZ_DICT_SIZE
    requires Word(dict[..], pos) == Word(dict[..], probe)
    ensures p <= 128 && left <= 32
    ensures left == 0 ==> SameBytes(dict[..], pos, probe, MAX_MATCH_LEN)
    ensures left > 0 ==> 1 <= p && SameBytes(dict[..], pos, probe, 2 * p)
    ensures left > 0 ==> Word(dict[..], pos + 2 * p) != Word(dict[..], probe + 2 * p)
  {
    p, left := 0, 32;
    ghost var s := dict[..];
    WordsEqual(s, pos, probe);
    while left > 0
      invariant 0 <= left <= 32 && p == 4 * (32 - left)
      invariant SameBytes(s, pos, probe, 2 * p + 2)
    {
      var turn := 0;
      while turn < 4
        invariant 0 <= turn <= 4 && p == 4 * (32 - left) + turn
        invariant SameBytes(s, pos, probe, 2 * p + 2)
      {
        p := p + 1;
        WordsEqual(s, pos + 2 * p, probe + 2 * p);
        if dict[pos + 2 * p] != dict[probe + 2 * p] || dict[pos + 2 * p + 1] != dict[probe + 2 * p + 1] {
          return;
        }
        turn := turn + 1;
      }
      left := left - 1;
    }
  }

  // One look along a hash chain ends the search, hits a candidate, or moves on.
  datatype ProbeResult = End | Hit(place: nat, dist: nat) | Miss(place: nat, dist: nat)

  // The place of a stored position is the place that many bytes back.
  lemma DistancePlace(lookaheadPos: nat, probe: uint16)
    ensures probe % LZ_DICT_SIZE == PlaceAt(lookaheadPos, Distance(lookaheadPos, probe))
  {}

  lemma PlaceBefore(kept: nat)
    ensures (kept % LZ_DICT_SIZE - 1) % LZ_DICT_SIZE == PlaceAt(kept, 1)
  {}

  class Window {
    const dict: array<byte>
    const next: array<uint16>
    const hash: array<uint16>
    const maxProbes: (nat, nat)
    var lookaheadPos: nat
    var lookaheadSize: nat
    var dictSize: nat
    // Every byte taken in so far, and how many of them the last full flush forgot.
    ghost var data: seq<byte>
    ghost var base: nat

    // The stream position of the first byte not yet parsed.
    ghost function Pos(): int
      reads this
    {
      |data| - lookaheadSize
    }

    ghost predicate Valid()
      reads this, dict, next, hash
    {
      && dict.Length == LZ_DICT_SIZE + MIRROR
      && next.Length == LZ_DICT_SIZE && hash.Length == HASH_SIZE && next != hash
      && maxProbes.0 >= 1 && maxProbes.1 >= 1
      && lookaheadSize <= MAX_MATCH_LEN
      && base <= |data| && lookaheadSize + dictSize == Min(|data| - base, LZ_DICT_SIZE)
      && lookaheadPos == Pos() % 0x1_0000_0000
      && Holds(dict[..], data, Pos() - dictSize)
      && Chained(next[..], hash[..], data, base)
    }

    constructor (probes: (nat, nat))
      requires probes.0 >= 1 && probes.1 >= 1
      ensures Valid() && fresh(dict) && fresh(next) && fresh(hash)
      ensures data == [] && lookaheadSize == 0 && dictSize == 0
    {
      dict := new byte[LZ_DICT_SIZE + MIRROR];
      next := new uint16[LZ_DICT_SIZE];
      hash := new uint16[HASH_SIZE](_ => 0);
      maxProbes := probes;
      lookaheadPos, lookaheadSize, dictSize := 0, 0, 0;
      data, base := [], 0;
      new;
      NothingChained(next[..], hash[..], data);
    }

    // Stores one byte at the next position.
    method Store(c: byte, at: nat)
      requires dict.Length == LZ_DICT_SIZE + MIRROR && at == Place(|data|)
      modifies dict, `data
      ensures data == old(data) + [c]
      ensures dict[..] == Stored(old(dict[..]), at, c)
    {
      dict[at] := c;
      if at < MIRROR {
        dict[LZ_DICT_SIZE + at] := c;
      }
      data := data + [c];
    }

    // Puts a position at the head of its hash chain.
    method Chain(h: bv32, insPos: nat)
      requires h < 0x8000
      requires next.Length == LZ_DICT_SIZE && hash.Length == HASH_SIZE && next != hash
      modifies next, hash
      ensures next[..] == old(next[..])[insPos % LZ_DICT_SIZE := old(hash[HashIndex(h)])]
      ensures hash[..] == old(hash[..])[HashIndex(h) := insPos % 0x1_0000]
    {
      next[insPos % LZ_DICT_SIZE] := hash[HashIndex(h)];
      hash[HashIndex(h)] := insPos % 0x1_0000;
    }

    // Chains the position whose third byte has just been taken.
    method ChainLast(h: bv32, insPos: nat, ghost before: seq<byte>)
      requires h < 0x8000 && |before| >= base + 2 && |data| == |before| + 1 && data[..|before|] == before
      requires next != hash && Chained(next[..], hash[..], before, base)
      requires insPos == (|before| - 2) % 0x1_0000_0000 && HashIndex(h) == HashAt(data, |before| - 2)
      modifies next, hash
      ensures Chained(next[..], hash[..], data, base)
    {
      hide Chained, HashAt, HashIndex;
      ghost var q: nat, n, s := |before| - 2, next[..], hash[..];
      KeptModulo(insPos, q);
      assert data == before + [data[|before|]];
      ChainSizes(n, s, before, base);
      Chain(h, insPos);
      ChainsOn(n, s, before, base, data[|before|], q, HashIndex(h), next[..], hash[..]);
    }

    // Stores one byte and keeps the window.
    method Take(c: byte, at: nat, ghost lo: int)
      requires dict.Length == LZ_DICT_SIZE + MIRROR && at == Place(|data|)
      requires Holding(lo)
      modifies dict, `data
      ensures data == old(data) + [c]
      ensures Holding(lo)
    {
      StoreKeeps(dict[..], data, if lo <= |data| - LZ_DICT_SIZE then |data| - LZ_DICT_SIZE else lo, c);
      Store(c, at);
    }

    // How many bytes the next refill takes.
    function Room(left: nat): nat
      reads this
      requires lookaheadSize <= MAX_MATCH_LEN
    {
      Min(left, MAX_MATCH_LEN - lookaheadSize)
    }

    lemma ChainSizes(n: seq<uint16>, s: seq<uint16>, d: seq<byte>, b: nat)
      requires Chained(n, s, d, b)
      ensures |n| == LZ_DICT_SIZE && |s| == HASH_SIZE
    {}

    // Takes bytes from the source until the lookahead is full or the source is empty.
    method Refill(src: seq<byte>, srcPos: nat) returns (srcPos': nat)
      requires Valid() && srcPos <= |src|
      modifies this, dict, next, hash
      ensures Valid()
      ensures srcPos' == srcPos + old(Room(|src| - srcPos))
      ensures data == old(data) + src[srcPos..srcPos']
      ensures Pos() == old(Pos()) && lookaheadPos == old(lookaheadPos) && base == old(base)
      ensures lookaheadSize == old(lookaheadSize) + (srcPos' - srcPos)
      ensures dictSize == Min(LZ_DICT_SIZE - lookaheadSize, old(dictSize))
    {
      if lookaheadSize + dictSize >= MIN_MATCH_LEN - 1 {
        srcPos' := RefillChained(src, srcPos);
      } else {
        srcPos' := RefillFirst(src, srcPos);
      }
      dictSize := Min(LZ_DICT_SIZE - lookaheadSize, dictSize);
    }

    // The array holds what the window needs, however far the refill has come.
    ghost predicate Holding(lo: int)
      reads this, dict
    {
      Holds(dict[..], data, if lo <= |data| - LZ_DICT_SIZE then |data| - LZ_DICT_SIZE else lo)
    }

    // The byte at a position that the window holds.
    lemma HeldAt(lo: int, q: nat)
      requires Holding(lo) && q < |data| && (lo <= q && |data| - LZ_DICT_SIZE <= q)
      ensures dict.Length == LZ_DICT_SIZE + MIRROR && dict[Place(q)] == data[q]
    {
      ReadAhead(dict[..], data, if lo <= |data| - LZ_DICT_SIZE then |data| - LZ_DICT_SIZE else lo, q, 0);
    }

    // Takes one byte and chains the position it completes.
    method TakeChained(c: byte, at: nat, insPos: nat, h: bv32, ghost lo: int) returns (h': bv32)
      requires Holding(lo) && Chained(next[..], hash[..], data, base) && Carries(h, data) && next != hash
      requires at == Place(|data|) && |data| >= base + 2 && insPos == (|data| - 2) % 0x1_0000_0000
      requires dict.Length == LZ_DICT_SIZE + MIRROR
      modifies dict, `data, next, hash
      ensures data == old(data) + [c]
      ensures Holding(lo) && Chained(next[..], hash[..], data, base) && Carries(h', data)
    {
      hide Holds, HashStep, Chained, Carries, Place, HashAt, HashIndex;
      ghost var before := data;
      CarriesOn(h, before, c);
      Take(c, at, lo);
      h' := HashStep(h, c);
      ChainLast(h', insPos, before);
    }

    method RefillChained(src: seq<byte>, srcPos: nat) returns (srcPos': nat)
      requires Valid() && srcPos <= |src| && lookaheadSize + dictSize >= MIN_MATCH_LEN - 1
      modifies `data, `lookaheadSize, dict, next, hash
      ensures srcPos' == srcPos + old(Room(|src| - srcPos))
      ensures data == old(data) + src[srcPos..srcPos']
      ensures lookaheadSize == old(lookaheadSize) + (srcPos' - srcPos)
      ensures Holding(old(Pos() - dictSize)) && Chained(next[..], hash[..], data, base)
    {
      hide Holds, HoldsAt, HashStep, HashTwo, HashThree, HashIndex, Chained, Carries, Place;
      ghost var lo, la, data0 := Pos() - dictSize, lookaheadSize, data;
      var dstPos := (lookaheadPos + lookaheadSize) % LZ_DICT_SIZE;
      PlaceOfSum(lookaheadPos, Pos(), lookaheadSize);
      var insPos: nat := (lookaheadPos + lookaheadSize - 2) % 0x1_0000_0000;
      InsertAt(lookaheadPos, Pos(), lookaheadSize);
      HeldAt(lo, |data| - 2);
      HeldAt(lo, |data| - 1);
      var h := HashTwo(dict[insPos % LZ_DICT_SIZE], dict[(insPos + 1) % LZ_DICT_SIZE]);
      CarriesFirst(data);
      var n: nat := Room(|src| - srcPos);
      srcPos' := srcPos;
      lookaheadSize := lookaheadSize + n;
      while srcPos' != srcPos + n
        invariant srcPos <= srcPos' <= srcPos + n && lookaheadSize == la + n
        invariant dstPos == Place(|data|) && |data| >= base + 2 && insPos == (|data| - 2) % 0x1_0000_0000
        invariant data == data0 + src[srcPos..srcPos']
        invariant Holding(lo) && Carries(h, data) && Chained(next[..], hash[..], data, base)
        decreases srcPos + n - srcPos'
      {
        NextKept(insPos, |data| - 2);
        PlaceOfNext(|data|);
        h := TakeChained(src[srcPos'], dstPos, insPos, h, lo);
        dstPos := (dstPos + 1) % LZ_DICT_SIZE;
        insPos := (insPos + 1) % 0x1_0000_0000;
        srcPos' := srcPos' + 1;
      }
    }

    // Takes one byte near the dictionary's beginning, and chains a position once it has three bytes.
    method TakeFirst(c: byte, ghost lo: int)
      requires Holding(lo) && Chained(next[..], hash[..], data, base) && next != hash && dict.Length == LZ_DICT_SIZE + MIRROR
      requires lookaheadPos == Pos() % 0x1_0000_0000 && 0 <= Pos() && lo == base
      requires lookaheadSize + dictSize == |data| - base <= 2 * MAX_MATCH_LEN
      modifies dict, `data, `lookaheadSize, next, hash
      ensures data == old(data) + [c] && lookaheadSize == old(lookaheadSize) + 1
      ensures Holding(lo) && Chained(next[..], hash[..], data, base)
    {
      hide Holds, HoldsAt, HashThree, HashIndex, Chained, Place;
      var dstPos := (lookaheadPos + lookaheadSize) % LZ_DICT_SIZE;
      ghost var before := data;
      PlaceOfSum(lookaheadPos, Pos(), lookaheadSize);
      Take(c, dstPos, lo);
      lookaheadSize := lookaheadSize + 1;
      if lookaheadSize + dictSize >= MIN_MATCH_LEN {
        var insPos := (lookaheadPos + (lookaheadSize - 1) - 2) % 0x1_0000_0000;
        InsertAt(lookaheadPos, Pos(), lookaheadSize - 1);
        HeldAt(lo, |before| - 2);
        HeldAt(lo, |before| - 1);
        var h := HashThree(dict[insPos % LZ_DICT_SIZE], dict[(insPos + 1) % LZ_DICT_SIZE], c);
        ChainLast(h, insPos, before);
      } else {
        TooFewToChain(next[..], hash[..], before, base, c);
      }
    }

    method RefillFirst(src: seq<byte>, srcPos: nat) returns (srcPos': nat)
      requires Valid() && srcPos <= |src| && lookaheadSize + dictSize < MIN_MATCH_LEN - 1
      modifies `data, `lookaheadSize, dict, next, hash
      ensures srcPos' == srcPos + old(Room(|src| - srcPos))
      ensures data == old(data) + src[srcPos..srcPos']
      ensures lookaheadSize == old(lookaheadSize) + (srcPos' - srcPos)
      ensures Holding(old(Pos() - dictSize)) && Chained(next[..], hash[..], data, base)
    {
      hide Holds, HoldsAt, Chained;
      ghost var lo, la, data0 := Pos() - dictSize, lookaheadSize, data;
      srcPos' := srcPos;
      while srcPos' < |src| && lookaheadSize < MAX_MATCH_LEN
        invariant srcPos <= srcPos' <= |src|
        invariant lookaheadSize == la + (srcPos' - srcPos) <= MAX_MATCH_LEN && 0 <= Pos() == |data0| - la
        invariant data == data0 + src[srcPos..srcPos']
        invariant Holding(lo) && lookaheadSize + dictSize == |data| - base && lo == base && dictSize < 2
        invariant Chained(next[..], hash[..], data, base)
      {
        TakeFirst(src[srcPos'], lo);
        srcPos' := srcPos' + 1;
      }
    }

    // Moves n bytes of the lookahead into the dictionary.
    method Advance(n: nat)
      requires Valid() && n <= lookaheadSize
      modifies `lookaheadPos, `lookaheadSize, `dictSize
      ensures Valid() && Pos() == old(Pos()) + n && lookaheadSize == old(lookaheadSize) - n
      ensures dictSize == old(dictSize) + n
    {
      ghost var lo := Pos() - dictSize;
      lookaheadPos := (lookaheadPos + n) % 0x1_0000_0000;
      lookaheadSize := lookaheadSize - n;
      dictSize := Min(dictSize + n, LZ_DICT_SIZE);
      assert lo <= Pos() - dictSize;
    }

    // A full flush forgets the dictionary and the chains.
    method Forget()
      requires Valid() && lookaheadSize == 0
      modifies `dictSize, `base, next, hash
      ensures Valid() && dictSize == 0 && base == |data|
    {
      forall i | 0 <= i < hash.Length {
        hash[i] := 0;
      }
      forall i | 0 <= i < next.Length {
        next[i] := 0;
      }
      dictSize := 0;
      base := |data|;
      NothingChained(next[..], hash[..], data);
    }

    // The byte at the current position.
    method Current() returns (c: byte)
      requires Valid() && lookaheadSize > 0
      ensures c == data[Pos()]
    {
      PlaceOfSum(lookaheadPos, Pos(), 0);
      ReadAhead(dict[..], data, Pos() - dictSize, Pos(), 0);
      c := dict[lookaheadPos % LZ_DICT_SIZE];
    }

    // A run of the byte before the current position, or none.
    method FindRun() returns (matchDist: nat, matchLen: nat)
      requires Valid() && dictSize > 0
      ensures matchDist == 0 ==> matchLen == 0
      ensures matchDist > 0 ==> matchDist == 1 && MIN_MATCH_LEN <= matchLen <= lookaheadSize
      ensures matchDist > 0 ==> Repeats(data, Pos(), matchLen, matchDist)
      ensures var run := Agreement(data, Pos(), 1, lookaheadSize);
        if run < MIN_MATCH_LEN then matchDist == 0 else matchDist == 1 && matchLen == run
    {
      hide Holds;
      ghost var p, s := Pos(), dict[..];
      var pos := lookaheadPos % LZ_DICT_SIZE;
      PlaceOfSum(lookaheadPos, p, 0);
      PlaceBack(lookaheadPos, p, 1);
      PlaceBefore(lookaheadPos);
      ReadAhead(s, data, p - dictSize, p - 1, 0);
      var c := dict[(pos - 1) % LZ_DICT_SIZE];
      matchLen := 0;
      while matchLen < lookaheadSize
        invariant matchLen <= lookaheadSize
        invariant forall i :: p <= i < p + matchLen ==> data[i] == c
      {
        ReadAhead(s, data, p - dictSize, p, matchLen);
        if dict[pos + matchLen] != c {
          break;
        }
        matchLen := matchLen + 1;
      }
      forall i | p <= i < p + matchLen ensures data[i] == data[i - 1] {
        assert i > p ==> data[i - 1] == c;
      }
      assert data[p - 1] == c && (matchLen > 0 ==> data[p + matchLen - 1] == c);
      AgreementIs(data, p, 1, lookaheadSize, matchLen);
      matchLen := if matchLen < MIN_MATCH_LEN then 0 else matchLen;
      matchDist := if matchLen < MIN_MATCH_LEN then 0 else 1;
    }

    // The search for a match longer than the one given, at the current position.
    ghost function Asked(matchDist: nat, matchLen: nat): (q: Quest)
      reads this, dict, next, hash
      requires Valid()
      ensures q.Possible()
    {
      Quest(next[..], lookaheadPos, dictSize, data, Pos(), lookaheadSize, matchDist, matchLen)
    }

    // How many turns a search may take: fewer for a match that is long already.
    function Probes(matchLen: nat): nat {
      if matchLen >= 32 then maxProbes.1 else maxProbes.0
    }

    // The two bytes at the end of the match agree just when the place looks longer, or is the current one.
    lemma EndsAgree(pos: nat, place: nat, dist: nat, matchLen: nat)
      requires Valid() && dist <= dictSize && 1 <= matchLen < lookaheadSize
      requires pos == PlaceAt(lookaheadPos, 0) && place == PlaceAt(lookaheadPos, dist)
      ensures var at := matchLen - 1;
        Word(dict[..], place + at) == Word(dict[..], pos + at) <==> dist == 0 || LooksLonger(data, Pos(), dist, matchLen)
    {
      hide Word, Holds, Chained;
      WordsEqual(dict[..], place + (matchLen - 1), pos + (matchLen - 1));
      if dist > 0 {
        SamePlaces(pos, place, dist, matchLen - 1);
        SamePlaces(pos, place, dist, matchLen);
      }
    }

    // Reading on from the place and from the current one.
    lemma SamePlaces(pos: nat, place: nat, dist: nat, i: nat)
      requires Valid() && dist <= dictSize && i < lookaheadSize
      requires pos == PlaceAt(lookaheadPos, 0) && place == PlaceAt(lookaheadPos, dist)
      ensures Pos() - dist + i >= 0 && dict[pos + i] == data[Pos() + i] && dict[place + i] == data[Pos() + i - dist]
    {
      hide Holds, Chained;
      var p := Pos();
      PlaceBack(lookaheadPos, p, 0);
      PlaceBack(lookaheadPos, p, dist);
      ReadAhead(dict[..], data, p - dictSize, p, i);
      ReadAhead(dict[..], data, p - dictSize, p - dist, i);
    }

    // One look along the hash chain.
    method Probe(probePos: nat, matchLen: nat, c01: int, ghost back: nat) returns (r: ProbeResult)
      requires Valid() && 1 <= matchLen < lookaheadSize
      requires c01 == Word(dict[..], PlaceAt(lookaheadPos, 0) + matchLen - 1)
      requires probePos == PlaceAt(lookaheadPos, back)
      ensures r.End? ==> forall d :: !Offers(next[..], lookaheadPos, dictSize, back, d)
      ensures !r.End? ==> r.dist <= dictSize && r.place == PlaceAt(lookaheadPos, r.dist)
      ensures !r.End? && r.dist == 0 ==> r.Hit? && forall d :: !Offers(next[..], lookaheadPos, dictSize, back, d)
      ensures !r.End? && r.dist > 0 ==> Offers(next[..], lookaheadPos, dictSize, back, r.dist)
      ensures !r.End? && r.dist > 0 ==> (r.Hit? <==> LooksLonger(data, Pos(), r.dist, matchLen))
    {
      hide Holds, Chained, Word, LooksLonger, Distance;
      var nextProbe := next[probePos];
      if nextProbe == 0 {
        return End;
      }
      var dist := Distance(lookaheadPos, nextProbe);
      if dist > dictSize {
        return End;
      }
      var place := nextProbe % LZ_DICT_SIZE;
      DistancePlace(lookaheadPos, nextProbe);
      EndsAgree(PlaceAt(lookaheadPos, 0), place, dist, matchLen);
      if Word(dict[..], place + (matchLen - 1)) == c01 {
        return Hit(place, dist);
      }
      return Miss(place, dist);
    }

    // What looks no longer is no longer.
    lemma Passes(q: Quest, dists: seq<nat>, dist: nat, len: nat, d: nat)
      requires q.Possible() && q.BestOf(dists, dist, len) && 1 <= len < q.cap
      requires Offers(q.next, q.lookaheadPos, q.maxDist, LastOf(dists), d)
      requires !LooksLonger(q.data, q.pos, d, len) || q.data[q.pos] != q.data[q.pos - d] || q.data[q.pos + 1] != q.data[q.pos + 1 - d]
      ensures q.BestOf(dists + [d], dist, len)
    {
      hide Followed, Near, Found, Agreements;
      q.LooksAt(dists, dist, len, d);
      NotLonger(q.data, q.pos, d, q.cap, len);
    }

    // Looks along the chain, three probes a turn, until the two bytes at the match's end agree.
    method Search(probePos: nat, probes0: nat, matchLen: nat, c01: int,
                  ghost q: Quest, ghost dists0: seq<nat>, ghost matchDist: nat, ghost probes: nat)
      returns (found: bool, place: nat, dist: nat, probesLeft: nat, ghost dists: seq<nat>)
      requires Valid() && 1 <= matchLen < lookaheadSize && 1 <= probes0 <= probes
      requires q == Asked(q.dist0, q.len0) && q.BestOf(dists0, matchDist, matchLen)
      requires q.TurnsTaken(dists0) == (probes - probes0, 0)
      requires c01 == Word(dict[..], PlaceAt(lookaheadPos, 0) + matchLen - 1)
      requires probePos == PlaceAt(lookaheadPos, LastOf(dists0))
      ensures q.BestOf(dists, matchDist, matchLen) && q.TurnsTaken(dists).0 + probesLeft + 1 == probes
      ensures !found ==> q.Over(dists, matchLen, probes)
      ensures found ==> 1 <= probesLeft < probes0
      ensures found ==> dist <= dictSize && place == PlaceAt(lookaheadPos, dist)
      ensures found && dist == 0 ==> Ends(next[..], lookaheadPos, dictSize, dists)
      ensures found && dist > 0 ==> Offers(next[..], lookaheadPos, dictSize, LastOf(dists), dist)
      ensures found && dist > 0 ==> LooksLonger(data, Pos(), dist, matchLen)
    {
      hide Holds, Chained, Word, LooksLonger, Followed, Near, Found, Agreements, Flags, Turns;
      place, dist, probesLeft, dists := probePos, 0, probes0, dists0;
      while true
        invariant 1 <= probesLeft <= probes0 && place == PlaceAt(lookaheadPos, LastOf(dists))
        invariant q.BestOf(dists, matchDist, matchLen) && q.TurnsTaken(dists) == (probes - probesLeft, 0)
        decreases probesLeft
      {
        probesLeft := probesLeft - 1;
        if probesLeft == 0 {
          return false, place, dist, probesLeft, dists;
        }
        var turn := 0;
        while turn < 3
          invariant turn <= 3 && place == PlaceAt(lookaheadPos, LastOf(dists))
          invariant q.BestOf(dists, matchDist, matchLen)
          invariant q.TurnsTaken(dists) == if turn < 3 then (probes - probesLeft - 1, turn) else (probes - probesLeft, 0)
        {
          var r := Probe(place, matchLen, c01, LastOf(dists));
          match r {
            case End => return false, place, dist, probesLeft, dists;
            case Hit(p, d) => return true, p, d, probesLeft, dists;
            case Miss(p, d) =>
              q.LooksAt(dists, matchDist, matchLen, d);
              Passes(q, dists, matchDist, matchLen, d);
              place, dist, dists := p, d, dists + [d];
          }
          turn := turn + 1;
        }
      }
    }

    // Compares the bytes at a place that looks longer with those at the current one, and takes the match if it is longer.
    method Compare(pos: nat, place: nat, dist: nat, matchDist: nat, matchLen: nat, s01: int, ghost q: Quest, ghost dists: seq<nat>)
      returns (matchDist': nat, matchLen': nat)
      requires Valid() && 1 <= matchLen < lookaheadSize && 1 <= dist <= dictSize
      requires q == Asked(q.dist0, q.len0) && q.BestOf(dists, matchDist, matchLen)
      requires Offers(next[..], lookaheadPos, dictSize, LastOf(dists), dist) && LooksLonger(data, Pos(), dist, matchLen)
      requires pos == PlaceAt(lookaheadPos, 0) && place == PlaceAt(lookaheadPos, dist) && s01 == Word(dict[..], pos)
      ensures matchLen <= matchLen' <= lookaheadSize && q.BestOf(dists + [dist], matchDist', matchLen')
      ensures q.TurnsTaken(dists + [dist]) == (q.TurnsTaken(dists).0 + 1, 0) && LastOf(dists + [dist]) == dist
    {
      hide Holds, Chained, Word, LooksLonger, Followed, Near, Found, Agreements, Flags, Turns, PlaceAt;
      matchDist', matchLen' := matchDist, matchLen;
      q.LooksAt(dists, matchDist, matchLen, dist);
      FirstBytes(pos, place, dist);
      if Word(dict[..], place) == s01 {
        var len := MatchLength(pos, place);
        HowLong(pos, place, dist, len);
        if len > matchLen {
          matchDist' := dist;
          matchLen' := Min(lookaheadSize, len);
        }
      } else {
        Passes(q, dists, matchDist, matchLen, dist);
      }
    }

    // Looks for a longer match than matchLen at the current position, in the dictionary and as far as the
    // lookahead goes. The answer is the best of the positions that the chain leads to, within the turns allowed.
    method FindMatch(maxDist: nat, maxMatchLen: nat, matchDist0: nat, matchLen0: nat)
      returns (matchDist: nat, matchLen: nat, ghost dists: seq<nat>)
      requires Valid() && maxDist == dictSize && maxMatchLen == lookaheadSize
      requires 1 <= matchLen0 <= MIRROR - 1
      ensures Asked(matchDist0, matchLen0).BestOf(dists, matchDist, matchLen)
      ensures Asked(matchDist0, matchLen0).Over(dists, matchLen, Probes(matchLen0))
      ensures Asked(matchDist0, matchLen0).TurnsTaken(dists).0 < Probes(matchLen0)
      ensures matchLen >= matchLen0
      ensures matchLen == matchLen0 ==> matchDist == matchDist0
      ensures matchLen > matchLen0 ==> matchLen <= maxMatchLen && matchDist <= maxDist
      ensures matchLen > matchLen0 ==> Repeats(data, Pos(), matchLen, matchDist)
    {
      hide Holds, Chained, Word, LooksLonger, Followed, Near, Found, Agreements, Flags, Turns;
      ghost var q, probes: nat := Asked(matchDist0, matchLen0), Probes(matchLen0);
      q.Starts();
      matchDist, matchLen, dists := matchDist0, matchLen0, [];
      var pos := PlaceAt(lookaheadPos, 0);
      var place: nat := pos;
      var probesLeft: nat := if matchLen >= 32 then maxProbes.1 else maxProbes.0;
      var c01, s01 := Word(dict[..], pos + matchLen - 1), Word(dict[..], pos);
      if maxMatchLen <= matchLen {
        return;
      }
      while true
        invariant 1 <= probesLeft <= probes && place == PlaceAt(lookaheadPos, LastOf(dists))
        invariant 1 <= matchLen < maxMatchLen && c01 == Word(dict[..], pos + matchLen - 1)
        invariant q.BestOf(dists, matchDist, matchLen) && q.TurnsTaken(dists) == (probes - probesLeft, 0)
        decreases probesLeft
      {
        var found, dist: nat;
        found, place, dist, probesLeft, dists := Search(place, probesLeft, matchLen, c01, q, dists, matchDist, probes);
        if !found || dist == 0 {
          break;
        }
        matchDist, matchLen := Compare(pos, place, dist, matchDist, matchLen, s01, q, dists);
        dists := dists + [dist];
        if matchLen == maxMatchLen {
          break;
        }
        c01 := Word(dict[..], pos + matchLen - 1);
      }
      AnswerRepeats(q, dists, matchDist, matchLen);
    }

    // A longer match than the one given is a repeat.
    lemma AnswerRepeats(q: Quest, dists: seq<nat>, dist: nat, len: nat)
      requires q.Possible() && q.BestOf(dists, dist, len)
      ensures len >= q.len0 && (len == q.len0 ==> dist == q.dist0)
      ensures len > q.len0 ==> len <= q.cap && dist <= q.maxDist && Repeats(q.data, q.pos, len, dist)
    {
      hide Followed, Near, Agreements;
      if len != q.len0 {
        q.BestRepeats(dists, dist, len);
      }
    }

    // The first two bytes are compared before the rest.
    lemma FirstBytes(pos: nat, place: nat, dist: nat)
      requires Valid() && 1 <= dist <= dictSize && 2 <= lookaheadSize
      requires pos == PlaceAt(lookaheadPos, 0) && place == PlaceAt(lookaheadPos, dist)
      ensures var p := Pos();
        Word(dict[..], place) == Word(dict[..], pos) <==> data[p] == data[p - dist] && data[p + 1] == data[p + 1 - dist]
    {
      hide Word, Holds, Chained;
      WordsEqual(dict[..], place, pos);
      SamePlaces(pos, place, dist, 0);
      SamePlaces(pos, place, dist, 1);
    }

    // The bytes that agree in the array, as far as the lookahead goes, are those that agree in the stream.
    lemma HowLong(pos: nat, place: nat, dist: nat, len: nat)
      requires Valid() && 1 <= dist <= dictSize && len <= MAX_MATCH_LEN
      requires pos == PlaceAt(lookaheadPos, 0) && place == PlaceAt(lookaheadPos, dist)
      requires SameBytes(dict[..], pos, place, len)
      requires len < MAX_MATCH_LEN ==> dict[pos + len] != dict[place + len]
      ensures Agreement(data, Pos(), dist, lookaheadSize) == Min(lookaheadSize, len)
    {
      hide Holds, Chained;
      var p, k := Pos(), Min(lookaheadSize, len);
      forall i | p <= i < p + k ensures data[i] == data[i - dist] {
        SamePlaces(pos, place, dist, i - p);
        assert dict[..][pos + (i - p)] == dict[..][pos + (i - p) - pos + place];
      }
      if k < lookaheadSize {
        SamePlaces(pos, place, dist, k);
      }
      AgreementIs(data, p, dist, lookaheadSize, k);
    }

    // The number of bytes that agree: all 258, or the words that agree and perhaps one byte more.
    method MatchLength(pos: nat, place: nat) returns (len: nat)
      requires Valid() && pos < LZ_DICT_SIZE && place < LZ_DICT_SIZE
      requires Word(dict[..], pos) == Word(dict[..], place)
      ensures len <= MAX_MATCH_LEN && SameBytes(dict[..], pos, place, len)
      ensures len < MAX_MATCH_LEN ==> dict[pos + len] != dict[place + len]
    {
      hide Holds, Chained, Word;
      var p, left := CompareWords(dict, pos, place);
      if left == 0 {
        len := MAX_MATCH_LEN;
      } else {
        WordsEqual(dict[..], pos + 2 * p, place + 2 * p);
        len := 2 * p + if dict[pos + 2 * p] == dict[place + 2 * p] then 1 else 0;
      }
    }

    // No position in the dictionary with the same three bytes, within reach of the turns allowed, repeats longer.
    lemma NoneLonger(matchDist0: nat, matchLen0: nat, matchDist: nat, matchLen: nat, dists: seq<nat>, q: nat)
      requires Valid() && lookaheadSize >= 3
      requires Asked(matchDist0, matchLen0).BestOf(dists, matchDist, matchLen)
      requires Asked(matchDist0, matchLen0).Over(dists, matchLen, Probes(matchLen0))
      requires Pos() - dictSize <= q < Pos() && Linked(data, Pos(), q) && Rank(data, Pos(), q) + 1 < Probes(matchLen0)
      ensures Agreement(data, Pos(), Pos() - q, lookaheadSize) <= matchLen
    {
      hide Holds, Chained, Linked, Rank, Agreement, Found, Followed, Ends;
      Asked(matchDist0, matchLen0).BestOfNearest(hash[..], base, dists, matchDist, matchLen, Probes(matchLen0), q);
    }
  }
}
