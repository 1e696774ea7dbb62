/** What a search along a hash chain should find: of the positions it looks at, the one that agrees longest
    with the current one, the nearest of them if there are several. How many it looks at is counted in
    turns of three, cut short by every one that looks longer than the best before it. */
module MatchSearch {
  import opened Arith
  import opened Lz77
  import opened HashChains

  // How many bytes from p on repeat those d before, up to cap.
  function Agreement(data: seq<byte>, p: int, d: nat, cap: nat): (k: nat)
    requires 1 <= d <= p && p + cap <= |data|
    ensures k <= cap && (k < cap ==> data[p + k] != data[p + k - d])
    ensures forall i :: p <= i < p + k ==> data[i] == data[i - d]
  {
    if cap == 0 then 0
    else
      var k := Agreement(data, p, d, cap - 1);
      if k == cap - 1 && data[p + k] == data[p + k - d] then cap else k
  }

  // Whether the bytes at the end of a match of length b, and the one after it, repeat those d before.
  ghost predicate LooksLonger(data: seq<byte>, p: int, d: nat, b: nat) {
    && 1 <= b && 1 <= d <= p && p + b < |data|
    && data[p + b - 1] == data[p + b - 1 - d] && data[p + b] == data[p + b - d]
  }

  // What does not look longer is not longer, nor is what differs in its first two bytes.
  lemma NotLonger(data: seq<byte>, p: int, d: nat, cap: nat, b: nat)
    requires 1 <= d <= p && p + cap <= |data| && 1 <= b < cap
    requires !LooksLonger(data, p, d, b) || data[p] != data[p - d] || data[p + 1] != data[p + 1 - d]
    ensures Agreement(data, p, d, cap) <= b
  {}

  lemma {:induction false} AgreementIs(data: seq<byte>, p: int, d: nat, cap: nat, k: nat)
    requires 1 <= d <= p && p + cap <= |data| && k <= cap
    requires forall i :: p <= i < p + k ==> data[i] == data[i - d]
    requires k < cap ==> data[p + k] != data[p + k - d]
    ensures Agreement(data, p, d, cap) == k
    decreases cap
  {
    if cap > 0 {
      AgreementIs(data, p, d, cap - 1, if k == cap then k - 1 else k);
    }
  }

  // ---------- the positions looked at, by their distances ----------

  ghost predicate Near(p: int, dists: seq<nat>) {
    forall i :: 0 <= i < |dists| ==> 1 <= dists[i] <= p
  }

  // How long each of them agrees.
  function Agreements(data: seq<byte>, p: int, cap: nat, dists: seq<nat>): (lens: seq<nat>)
    requires Near(p, dists) && p + cap <= |data|
    ensures |lens| == |dists|
  {
    seq(|dists|, i requires 0 <= i < |dists| => Agreement(data, p, dists[i], cap))
  }

  // The longest, or len0.
  function Best(len0: nat, lens: seq<nat>): (r: nat)
    ensures r >= len0 && (r > len0 ==> r in lens)
    ensures forall i :: 0 <= i < |lens| ==> lens[i] <= r
  {
    if lens == [] then len0 else Max(Best(len0, lens[..|lens| - 1]), lens[|lens| - 1])
  }

  // Which of them look longer than the best before.
  ghost function Flags(data: seq<byte>, p: int, len0: nat, dists: seq<nat>, lens: seq<nat>): (f: seq<bool>)
    requires |lens| == |dists|
    ensures |f| == |dists|
  {
    if dists == [] then []
    else
      var k := |dists| - 1;
      Flags(data, p, len0, dists[..k], lens[..k]) + [LooksLonger(data, p, dists[k], Best(len0, lens[..k]))]
  }

  // Three a turn, and one that looks longer ends its turn: the turns done, and how many in the next.
  function Turns(flags: seq<bool>): (r: (nat, nat))
    ensures r.1 <= 2 && r.0 <= |flags| <= 3 * r.0 + r.1
  {
    if flags == [] then (0, 0)
    else
      var k := |flags| - 1;
      var t := Turns(flags[..k]);
      if flags[k] || t.1 == 2 then (t.0 + 1, 0) else (t.0, t.1 + 1)
  }

  // What a search from a match of length len0 answers: the longest, and the nearest of those.
  ghost predicate Found(dist0: nat, len0: nat, dists: seq<nat>, lens: seq<nat>, dist: nat, len: nat) {
    && |dists| == |lens| && len == Best(len0, lens)
    && (if len == len0 then dist == dist0 else Attains(dists, lens, dist, len))
  }

  ghost predicate Attains(dists: seq<nat>, lens: seq<nat>, dist: nat, len: nat)
    requires |dists| == |lens|
  {
    exists i :: AttainsAt(dists, lens, dist, len, i)
  }

  ghost predicate AttainsAt(dists: seq<nat>, lens: seq<nat>, dist: nat, len: nat, i: int)
    requires |dists| == |lens|
  {
    0 <= i < |dists| && dists[i] == dist && lens[i] == len && forall j :: 0 <= j < i ==> lens[j] < len
  }

  // One more.
  lemma FoundOneMore(dist0: nat, len0: nat, dists: seq<nat>, lens: seq<nat>, dist: nat, len: nat, d: nat, l: nat)
    requires Found(dist0, len0, dists, lens, dist, len)
    ensures Found(dist0, len0, dists + [d], lens + [l], if l > len then d else dist, if l > len then l else len)
  {
    var ds, ls := dists + [d], lens + [l];
    assert ls[..|lens|] == lens;
    if l > len {
      assert AttainsAt(ds, ls, d, l, |dists|);
    } else if len != len0 {
      var i :| AttainsAt(dists, lens, dist, len, i);
      assert AttainsAt(ds, ls, dist, len, i);
    }
  }

  lemma TurnsSnoc(f: seq<bool>, flag: bool)
    ensures var t := Turns(f); Turns(f + [flag]) == if flag || t.1 == 2 then (t.0 + 1, 0) else (t.0, t.1 + 1)
  {
    assert (f + [flag])[..|f|] == f;
  }

  lemma FlagsSnoc(data: seq<byte>, p: int, len0: nat, dists: seq<nat>, lens: seq<nat>, d: nat, l: nat)
    requires |lens| == |dists|
    ensures Flags(data, p, len0, dists + [d], lens + [l])
      == Flags(data, p, len0, dists, lens) + [LooksLonger(data, p, d, Best(len0, lens))]
  {
    hide LooksLonger, Best;
    assert (dists + [d])[..|dists|] == dists && (lens + [l])[..|lens|] == lens;
  }

  lemma OneMoreFlag(data: seq<byte>, p: int, len0: nat, dists: seq<nat>, lens: seq<nat>, d: nat, l: nat)
    requires |lens| == |dists|
    ensures var t, flag := Turns(Flags(data, p, len0, dists, lens)), LooksLonger(data, p, d, Best(len0, lens));
      Turns(Flags(data, p, len0, dists + [d], lens + [l])) == if flag || t.1 == 2 then (t.0 + 1, 0) else (t.0, t.1 + 1)
  {
    hide *;
    FlagsSnoc(data, p, len0, dists, lens, d, l);
    TurnsSnoc(Flags(data, p, len0, dists, lens), LooksLonger(data, p, d, Best(len0, lens)));
  }

  lemma AgreementsSnoc(data: seq<byte>, p: int, cap: nat, dists: seq<nat>, d: nat)
    requires Near(p, dists) && 1 <= d <= p && p + cap <= |data|
    ensures Near(p, dists + [d])
    ensures Agreements(data, p, cap, dists + [d]) == Agreements(data, p, cap, dists) + [Agreement(data, p, d, cap)]
  {
    hide Agreement;
  }

  // ---------- along the chain ----------

  // The 16-bit distance of a stored position.
  function Distance(lookaheadPos: nat, probe: uint16): (d: nat)
    ensures d < 0x1_0000
  {
    (lookaheadPos - probe) % 0x1_0000
  }

  // The place of the position `back` before the current one.
  function PlaceAt(lookaheadPos: nat, back: int): (r: nat)
    ensures r < LZ_DICT_SIZE
  {
    (lookaheadPos - back) % LZ_DICT_SIZE
  }

  // What is linked to it.
  function LinkBack(next: seq<uint16>, lookaheadPos: nat, back: nat): uint16
    requires |next| == LZ_DICT_SIZE
  {
    next[PlaceAt(lookaheadPos, back)]
  }

  ghost predicate Offers(next: seq<uint16>, lookaheadPos: nat, maxDist: nat, back: nat, d: nat)
    requires |next| == LZ_DICT_SIZE
  {
    var q := LinkBack(next, lookaheadPos, back);
    q != 0 && d == Distance(lookaheadPos, q) && 1 <= d <= maxDist
  }

  function LastOf(dists: seq<nat>): nat {
    if dists == [] then 0 else dists[|dists| - 1]
  }

  // Each distance is the one linked to by the one before, from the current position on.
  ghost predicate Followed(next: seq<uint16>, lookaheadPos: nat, maxDist: nat, dists: seq<nat>) {
    |next| == LZ_DICT_SIZE && forall i :: 0 <= i < |dists| ==> FollowedAt(next, lookaheadPos, maxDist, dists, i)
  }

  ghost predicate FollowedAt(next: seq<uint16>, lookaheadPos: nat, maxDist: nat, dists: seq<nat>, i: nat)
    requires |next| == LZ_DICT_SIZE && i < |dists|
  {
    Offers(next, lookaheadPos, maxDist, LastOf(dists[..i]), dists[i])
  }

  // The chain goes no further.
  ghost predicate Ends(next: seq<uint16>, lookaheadPos: nat, maxDist: nat, dists: seq<nat>) {
    |next| == LZ_DICT_SIZE && forall d :: !Offers(next, lookaheadPos, maxDist, LastOf(dists), d)
  }

  lemma FollowedOn(next: seq<uint16>, lookaheadPos: nat, maxDist: nat, dists: seq<nat>, d: nat)
    requires Followed(next, lookaheadPos, maxDist, dists) && Offers(next, lookaheadPos, maxDist, LastOf(dists), d)
    ensures Followed(next, lookaheadPos, maxDist, dists + [d])
  {
    var ds := dists + [d];
    forall i | 0 <= i < |ds| ensures FollowedAt(next, lookaheadPos, maxDist, ds, i) {
      if i < |dists| {
        assert ds[..i] == dists[..i] && FollowedAt(next, lookaheadPos, maxDist, dists, i);
      } else {
        assert ds[..i] == dists;
      }
    }
  }

  // ---------- which positions those are ----------

  // A position in the dictionary whose three bytes hash as those at p do, none of them, down to it, being
  // one that the tables cannot tell from none.
  ghost predicate Linked(data: seq<byte>, p: nat, q: nat)
    requires q < p && p + 3 <= |data|
  {
    && HashAt(data, q) == HashAt(data, p)
    && forall k :: q <= k < p && HashAt(data, k) == HashAt(data, p) ==> k % 0x1_0000 != 0
  }

  // How many positions nearer to p are in its chain.
  ghost function Rank(data: seq<byte>, p: nat, q: nat): nat
    requires q < p && p + 3 <= |data|
  {
    Between(data, HashAt(data, p), q + 1, p)
  }

  // What is linked to a position in the dictionary is the one before it in its chain.
  lemma LinkIs(next: seq<uint16>, hash: seq<uint16>, data: seq<byte>, base: nat, lookaheadPos: nat, maxDist: nat, p: nat, back: nat, y: nat)
    requires Chained(next, hash, data, base) && p + 3 <= |data| && lookaheadPos == p % 0x1_0000_0000
    requires base + back <= p && back <= maxDist <= p && |data| <= p - maxDist + LZ_DICT_SIZE
    requires y == LastIn(data, base, HashAt(data, p - back), p - back) && y % 0x1_0000 != 0 && p - y <= maxDist
    ensures forall d :: Offers(next, lookaheadPos, maxDist, back, d) <==> d == p - y
  {
    hide HashAt, LastIn, Place, Distance;
    PlaceBack(lookaheadPos, p, back);
    DistanceIs(lookaheadPos, p, y);
    assert LinkedAt(next, data, base, p - back);
  }

  lemma PlaceBack(kept: nat, p: int, dist: int)
    requires kept == p % 0x1_0000_0000
    ensures PlaceAt(kept, dist) == Place(p - dist)
  {
    KeptMod(kept, p, LZ_DICT_SIZE, 0x2_0000, -dist);
  }

  lemma DistanceIs(kept: nat, p: nat, y: nat)
    requires kept == p % 0x1_0000_0000 && 0 <= p - y < 0x1_0000
    ensures Distance(kept, y % 0x1_0000) == p - y
  {}

  lemma {:induction false} NoneBetween(data: seq<byte>, h: nat, q: nat, y: nat, p: nat)
    requires q <= y < p && p + 2 <= |data| && HashAt(data, y) == h && forall k :: y < k < p ==> HashAt(data, k) != h
    ensures Between(data, h, q, p) == Between(data, h, q, y) + 1
    decreases p
  {
    if p > y + 1 {
      NoneBetween(data, h, q, y, p - 1);
    }
  }

  // Following the chain from x reaches q after as many steps as there are positions between.
  lemma {:induction false} Reaches(next: seq<uint16>, hash: seq<uint16>, data: seq<byte>, base: nat, lookaheadPos: nat, maxDist: nat,
                                   p: nat, dists: seq<nat>, q: nat, i: nat)
    requires Chained(next, hash, data, base) && p + 3 <= |data| && lookaheadPos == p % 0x1_0000_0000
    requires base + maxDist <= p && |data| <= p - maxDist + LZ_DICT_SIZE
    requires Followed(next, lookaheadPos, maxDist, dists) && i <= |dists|
    requires p - maxDist <= q < p && Linked(data, p, q)
    requires var x := p - LastOf(dists[..i]);
      q < x <= p && HashAt(data, x) == HashAt(data, p) && Between(data, HashAt(data, p), q + 1, x) + i == Rank(data, p, q)
    ensures Rank(data, p, q) < |dists| ==> dists[Rank(data, p, q)] == p - q
    ensures Ends(next, lookaheadPos, maxDist, dists) ==> Rank(data, p, q) < |dists|
    decreases p - q - LastOf(dists[..i])
  {
    hide HashAt, Offers, Chained;
    var h, back := HashAt(data, p), LastOf(dists[..i]);
    var x := p - back;
    var y := LastIn(data, base, h, x);
    assert y >= q;
    LinkIs(next, hash, data, base, lookaheadPos, maxDist, p, back, y);
    if i < |dists| {
      assert FollowedAt(next, lookaheadPos, maxDist, dists, i);
      assert dists[..i + 1] == dists[..i] + [dists[i]];
      if y > q {
        NoneBetween(data, h, q + 1, y, x);
        Reaches(next, hash, data, base, lookaheadPos, maxDist, p, dists, q, i + 1);
      } else {
        NoneThere(data, h, q + 1, x);
      }
    } else {
      assert dists[..i] == dists;
      assert Offers(next, lookaheadPos, maxDist, back, p - y);
    }
  }

  lemma {:induction false} NoneThere(data: seq<byte>, h: nat, q: nat, p: nat)
    requires q <= p && p + 2 <= |data| && forall k :: q <= k < p ==> HashAt(data, k) != h
    ensures Between(data, h, q, p) == 0
    decreases p
  {
    if p > q {
      NoneThere(data, h, q, p - 1);
    }
  }

  // The distances along the chain are those of the positions with the same hash, nearest first, and the
  // chain does not end before the last of them.
  lemma ChainIsNearest(next: seq<uint16>, hash: seq<uint16>, data: seq<byte>, base: nat, lookaheadPos: nat, maxDist: nat,
                       p: nat, dists: seq<nat>, q: nat)
    requires Chained(next, hash, data, base) && p + 3 <= |data| && lookaheadPos == p % 0x1_0000_0000
    requires base + maxDist <= p && |data| <= p - maxDist + LZ_DICT_SIZE
    requires Followed(next, lookaheadPos, maxDist, dists) && p - maxDist <= q < p && Linked(data, p, q)
    ensures Rank(data, p, q) < |dists| ==> dists[Rank(data, p, q)] == p - q
    ensures Ends(next, lookaheadPos, maxDist, dists) ==> Rank(data, p, q) < |dists|
  {
    hide Chained, Followed, Ends, Linked;
    assert dists[..0] == [];
    Reaches(next, hash, data, base, lookaheadPos, maxDist, p, dists, q, 0);
  }

  // ---------- the whole search ----------

  // A search for a match longer than the one held: the chain it follows, the position it is for, how far it
  // may reach back and how long a match may be.
  datatype Quest = Quest(next: seq<uint16>, lookaheadPos: nat, maxDist: nat, data: seq<byte>, pos: nat, cap: nat,
                         dist0: nat, len0: nat) {
    ghost predicate Possible() {
      |next| == LZ_DICT_SIZE && maxDist <= pos && pos + cap <= |data|
    }

    // Having looked at these positions, and no others, the match is the best.
    ghost predicate BestOf(dists: seq<nat>, dist: nat, len: nat)
      requires Possible()
    {
      && Followed(next, lookaheadPos, maxDist, dists) && Near(pos, dists)
      && Found(dist0, len0, dists, Agreements(data, pos, cap, dists), dist, len)
    }

    ghost function TurnsTaken(dists: seq<nat>): (nat, nat)
      requires Possible() && Near(pos, dists)
    {
      Turns(Flags(data, pos, len0, dists, Agreements(data, pos, cap, dists)))
    }

    // Nothing looked at yet.
    lemma Starts()
      requires Possible()
      ensures BestOf([], dist0, len0) && TurnsTaken([]) == (0, 0)
    {}

    // One more position of the chain.
    lemma LooksAt(dists: seq<nat>, dist: nat, len: nat, d: nat)
      requires Possible() && BestOf(dists, dist, len) && Offers(next, lookaheadPos, maxDist, LastOf(dists), d)
      ensures 1 <= d <= pos
      ensures var l := Agreement(data, pos, d, cap);
        BestOf(dists + [d], if l > len then d else dist, if l > len then l else len)
      ensures var t := TurnsTaken(dists);
        TurnsTaken(dists + [d]) == if LooksLonger(data, pos, d, len) || t.1 == 2 then (t.0 + 1, 0) else (t.0, t.1 + 1)
    {
      hide Agreement, Agreements, Flags, Turns, LooksLonger, Best;
      var lens, l := Agreements(data, pos, cap, dists), Agreement(data, pos, d, cap);
      FollowedOn(next, lookaheadPos, maxDist, dists, d);
      AgreementsSnoc(data, pos, cap, dists, d);
      FoundOneMore(dist0, len0, dists, lens, dist, len, d, l);
      OneMoreFlag(data, pos, len0, dists, lens, d, l);
    }

    // The best is at least as long as each.
    lemma NoneBetter(dists: seq<nat>, dist: nat, len: nat, i: nat)
      requires Possible() && BestOf(dists, dist, len) && i < |dists|
      ensures 1 <= dists[i] <= pos && Agreement(data, pos, dists[i], cap) <= len
    {
      hide Agreement, Followed;
      assert Agreements(data, pos, cap, dists)[i] <= len;
    }

    // A longer match than the one held repeats the bytes that far back.
    lemma BestRepeats(dists: seq<nat>, dist: nat, len: nat)
      requires Possible() && BestOf(dists, dist, len) && len != len0
      ensures len0 < len <= cap && 1 <= dist <= maxDist && Agreement(data, pos, dist, cap) == len
    {
      hide Agreement, Best;
      var i :| AttainsAt(dists, Agreements(data, pos, cap, dists), dist, len, i);
      assert FollowedAt(next, lookaheadPos, maxDist, dists, i);
    }

    // The search is over: nothing longer is possible, the chain ends, or the turns are used up.
    ghost predicate Over(dists: seq<nat>, len: nat, probes: nat)
      requires Possible() && Near(pos, dists)
    {
      len >= cap || Ends(next, lookaheadPos, maxDist, dists) || TurnsTaken(dists).0 + 1 == probes
    }

    // No position of the same hash within reach of the turns agrees longer.
    lemma BestOfNearest(hash: seq<uint16>, base: nat, dists: seq<nat>, dist: nat, len: nat, probes: nat, q: nat)
      requires Possible() && BestOf(dists, dist, len) && Over(dists, len, probes)
      requires Chained(next, hash, data, base) && pos + 3 <= |data| && lookaheadPos == pos % 0x1_0000_0000
      requires base + maxDist <= pos && |data| <= pos - maxDist + LZ_DICT_SIZE
      requires pos - maxDist <= q < pos && Linked(data, pos, q) && Rank(data, pos, q) + 1 < probes
      ensures Agreement(data, pos, pos - q, cap) <= len
    {
      hide Agreement, Found, Followed, Ends, Chained, Linked, Rank;
      if len < cap {
        ChainIsNearest(next, hash, data, base, lookaheadPos, maxDist, pos, dists, q);
        NoneBetter(dists, dist, len, Rank(data, pos, q));
      }
    }
  }
}
