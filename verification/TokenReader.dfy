/** Walking a packed token buffer: the encoder's pointer and flag register always stand before a
    known token, and read exactly the tokens that were recorded. */
module TokenReader {
  import opened Sums
  import opened Arith
  import opened Lz77
  import opened Symbols
  import opened TokenBuffer

  // The group that token k belongs to.
  function GroupStart(k: nat): (f: nat)
    ensures f <= k < f + 8 && f % 8 == 0
  {
    k / 8 * 8
  }

  function GroupEnd(ts: seq<Token>, k: nat): nat {
    if GroupStart(k) + 8 < |ts| then GroupStart(k) + 8 else |ts|
  }

  function GroupOf(ts: seq<Token>, k: nat): (g: seq<Token>)
    requires k < |ts|
    ensures 1 <= |g| <= 8 && k - GroupStart(k) < |g|
    ensures g[k - GroupStart(k)] == ts[k]
  {
    ts[GroupStart(k)..GroupEnd(ts, k)]
  }

  // The reader stands inside the group, its flag byte loaded: token k's flag is the low bit, and a
  // bit above the flags marks the end of the group.
  ghost predicate Inside(lz: seq<byte>, ts: seq<Token>, k: nat, p: nat, flags: nat)
    requires AllEncodable(ts)
  {
    && lz == Pack(ts) && k < |ts|
    && var i, g := k - GroupStart(k), GroupOf(ts, k);
      && flags == (Flags(g) + 256) / Pow2(i)
      && p == |Pack(ts[..GroupStart(k)])| + 1 + |Bodies(g[..i])|
  }

  // The reader stands before token k: inside its group, at the head of the next one, or at the end.
  ghost predicate Before(lz: seq<byte>, ts: seq<Token>, k: nat, p: nat, flags: nat)
    requires AllEncodable(ts)
  {
    && lz == Pack(ts) && k <= |ts|
    && (if k % 8 == 0 then flags == 1 && p == |Pack(ts[..k])|
        else flags != 1 && (if k < |ts| then Inside(lz, ts, k, p, flags) else p == |lz|))
  }

  // Packed groups are a prefix of the packed whole.
  lemma {:induction false} PackPrefix(ts: seq<Token>, h: nat)
    requires AllEncodable(ts) && h <= |ts| && (h % 8 == 0 || h == |ts|)
    ensures |Pack(ts[..h])| <= |Pack(ts)| && Pack(ts)[..|Pack(ts[..h])|] == Pack(ts[..h])
    decreases |ts|
  {
    hide *;
    if h == |ts| {
      assert ts[..h] == ts;
    } else {
      var full := GroupStart(|ts| - 1);
      EncodableParts(ts, full);
      EncodableParts(ts, h);
      PackEnd(ts, full);
      HeadsApart(h, full, |ts|);
      PackPrefix(ts[..full], h);
      assert ts[..full][..h] == ts[..h];
      PrefixOfConcat(Pack(ts[..full]), Group(ts[full..]), Pack(ts[..h]));
    }
  }

  lemma EncodableParts(ts: seq<Token>, i: nat)
    requires AllEncodable(ts) && i <= |ts|
    ensures AllEncodable(ts[..i]) && AllEncodable(ts[i..])
  {}

  lemma HeadsApart(h: nat, full: nat, n: nat)
    requires h % 8 == 0 && full % 8 == 0 && h < n <= full + 8
    ensures h <= full
  {}

  lemma PrefixOfConcat(s: seq<byte>, t: seq<byte>, p: seq<byte>)
    requires |p| <= |s| && s[..|p|] == p
    ensures (s + t)[..|p|] == p
  {}

  lemma {:induction false} BodiesPrefix(ts: seq<Token>, i: nat)
    requires AllEncodable(ts) && i <= |ts|
    ensures |Bodies(ts[..i])| <= |Bodies(ts)| && Bodies(ts)[..|Bodies(ts[..i])|] == Bodies(ts[..i])
    decreases |ts|
  {
    if i == |ts| {
      assert ts[..i] == ts;
    } else {
      hide Body;
      BodiesPrefix(ts[..|ts| - 1], i);
      assert ts[..|ts| - 1][..i] == ts[..i];
    }
  }

  // Where a group's bytes lie in the packed whole.
  lemma GroupBytes(ts: seq<Token>, k: nat)
    requires AllEncodable(ts) && k < |ts|
    ensures var at, g := |Pack(ts[..GroupStart(k)])|, GroupOf(ts, k);
      && at + |Group(g)| <= |Pack(ts)|
      && Pack(ts)[at..at + |Group(g)|] == Group(g)
      && (GroupEnd(ts, k) == |ts| ==> |Pack(ts)| == at + |Group(g)|)
      && (GroupEnd(ts, k) < |ts| ==> |Pack(ts[..GroupEnd(ts, k)])| == at + |Group(g)|)
  {
    hide Pack, Group;
    var h := GroupEnd(ts, k);
    PackPrefix(ts, h);
    PackEnd(ts[..h], GroupStart(k));
    assert ts[..h][..GroupStart(k)] == ts[..GroupStart(k)];
    assert ts[..h][GroupStart(k)..] == GroupOf(ts, k);
    assert h == |ts| ==> ts[..h] == ts;
    var at, end := |Pack(ts[..GroupStart(k)])|, |Pack(ts[..h])|;
    assert Pack(ts)[..end][at..end] == Pack(ts)[at..end];
  }

  // Loading a flag byte at the head of a group.
  lemma LoadFlags(lz: seq<byte>, ts: seq<Token>, k: nat, p: nat, flags: nat)
    requires AllEncodable(ts) && Before(lz, ts, k, p, flags) && k % 8 == 0 && k < |ts|
    ensures p < |lz| && Inside(lz, ts, k, p + 1, lz[p] as int + 256)
  {
    hide Pack, Bodies;
    GroupBytes(ts, k);
    var g := GroupOf(ts, k);
    assert GroupStart(k) == k;
    assert lz[p] == Group(g)[0] == Flags(g);
    NoBodies(g[..0]);
    SmallPowers();
  }

  lemma NoBodies(ts: seq<Token>)
    requires ts == []
    ensures AllEncodable(ts) && Bodies(ts) == []
  {}

  // The flag bit of token i among the flags.
  lemma {:induction false} FlagBit(g: seq<Token>, i: nat)
    requires i < |g| <= 8
    ensures Flags(g) / Pow2(i) % 2 == if g[i].Match? then 1 else 0
    decreases |g|
  {
    hide Pow2;
    var k := |g| - 1;
    if i == k {
      TopBit(Flags(g[..k]), g[k].Match?, k);
    } else {
      FlagBit(g[..k], i);
      assert g[..k][i] == g[i];
      AddAbove(Flags(g[..k]), if g[k].Match? then 1 else 0, i, k);
    }
  }

  lemma TopBit(low: nat, set': bool, k: nat)
    requires low < Pow2(k) && k <= 7
    ensures (low + if set' then Pow2(k) else 0) / Pow2(k) % 2 == if set' then 1 else 0
  {
    SmallPowers();
    assert k == 0 || k == 1 || k == 2 || k == 3 || k == 4 || k == 5 || k == 6 || k == 7;
  }

  // Adding a multiple of 2^k leaves the bits below k.
  lemma AddAbove(low: nat, n: nat, i: nat, k: nat)
    requires i < k <= 8 && n <= 1
    ensures (low + if n == 1 then Pow2(k) else 0) / Pow2(i) % 2 == low / Pow2(i) % 2
  {
    hide *;
    var q := Pow2(k - i - 1);
    EvenMultiple(i, k);
    if n == 1 {
      DivPlusMultiple(low, Pow2(i), 2 * q);
      EvenTerm(low / Pow2(i), q);
    }
  }

  lemma EvenTerm(a: nat, q: nat)
    ensures (a + 2 * q) % 2 == a % 2
  {}

  lemma EvenMultiple(i: nat, k: nat)
    requires i < k
    ensures Pow2(k) == Pow2(i) * (2 * Pow2(k - i - 1))
  {
    Pow2Add(i, k - i);
  }

  // What the reader finds inside a group: the token's flag and its bytes.
  lemma ReadToken(lz: seq<byte>, ts: seq<Token>, k: nat, p: nat, flags: nat)
    requires AllEncodable(ts) && Inside(lz, ts, k, p, flags)
    ensures flags % 2 == (if ts[k].Match? then 1 else 0)
    ensures p + |Body(ts[k])| <= |lz| && lz[p..p + |Body(ts[k])|] == Body(ts[k])
  {
    hide Pack, Body, Pow2, Flags, Bodies;
    hide GroupOf, GroupEnd;
    var i, g := k - GroupStart(k), GroupOf(ts, k);
    GroupEncodable(ts, k);
    GroupBytes(ts, k);
    FlagBit(g, i);
    MarkerAbove(Flags(g), i);
    BodiesStep(g, i);
    BodiesPrefix(g, i + 1);
    BodyInGroup(lz, |Pack(ts[..GroupStart(k)])|, Group(g), Bodies(g), Bodies(g[..i]), Body(ts[k]));
  }

  lemma BodyInGroup(lz: seq<byte>, at: nat, group: seq<byte>, bodies: seq<byte>, before: seq<byte>, body: seq<byte>)
    requires |group| == 1 + |bodies| && group[1..] == bodies && |before + body| <= |bodies|
    requires at + |group| <= |lz| && lz[at..at + |group|] == group
    requires bodies[..|before + body|] == before + body
    ensures lz[at + 1 + |before|..at + 1 + |before| + |body|] == body
  {
    var lo, hi := |before|, |before| + |body|;
    forall i | 0 <= i < |body| ensures lz[at + 1 + lo..at + 1 + hi][i] == body[i] {
      assert lz[at..at + |group|][1 + lo + i] == group[1 + lo + i];
      assert bodies[..hi][lo + i] == (before + body)[lo + i];
    }
  }

  lemma BodiesStep(g: seq<Token>, i: nat)
    requires AllEncodable(g) && i < |g|
    ensures Bodies(g[..i + 1]) == Bodies(g[..i]) + Body(g[i])
  {
    assert g[..i + 1][..i] == g[..i];
  }

  // The end marker does not disturb the flag bits.
  lemma MarkerAbove(f: nat, i: nat)
    requires i <= 7
    ensures (f + 256) / Pow2(i) == f / Pow2(i) + Pow2(8 - i)
    ensures (f + 256) / Pow2(i) % 2 == f / Pow2(i) % 2
  {
    Pow2Add(i, 8 - i);
    SmallPowers();
    DivPlusMultiple(f, Pow2(i), Pow2(8 - i));
  }

  // Shifting the flags and stepping over a token's bytes reaches the next token.
  lemma Step(lz: seq<byte>, ts: seq<Token>, k: nat, p: nat, flags: nat)
    requires AllEncodable(ts) && Inside(lz, ts, k, p, flags)
    ensures Before(lz, ts, k + 1, p + |Body(ts[k])|, flags / 2)
  {
    hide Pack, Body, Inside;
    TokenThere(lz, ts, k, p, flags);
    if k + 1 < |ts| && (k + 1) % 8 != 0 {
      StepInside(lz, ts, k, p, flags);
    } else {
      StepToEnd(lz, ts, k, p, flags);
    }
  }

  lemma TokenThere(lz: seq<byte>, ts: seq<Token>, k: nat, p: nat, flags: nat)
    requires AllEncodable(ts) && Inside(lz, ts, k, p, flags)
    ensures k < |ts|
  {}

  lemma LastPlace(k: nat)
    ensures 0 <= k - GroupStart(k) <= 7 && ((k + 1) % 8 == 0 <==> k - GroupStart(k) == 7)
  {}

  lemma StepInside(lz: seq<byte>, ts: seq<Token>, k: nat, p: nat, flags: nat)
    requires AllEncodable(ts) && Inside(lz, ts, k, p, flags) && k + 1 < |ts| && (k + 1) % 8 != 0
    ensures lz == Pack(ts) && flags / 2 != 1 && Inside(lz, ts, k + 1, p + |Body(ts[k])|, flags / 2)
  {
    hide Pack, Body, Pow2, Flags, Bodies, GroupOf, GroupEnd;
    GroupEncodable(ts, k);
    ShiftFlags(Flags(GroupOf(ts, k)), k - GroupStart(k));
    BodiesStep(GroupOf(ts, k), k - GroupStart(k));
    SameGroup(ts, k);
  }

  lemma StepToEnd(lz: seq<byte>, ts: seq<Token>, k: nat, p: nat, flags: nat)
    requires AllEncodable(ts) && Inside(lz, ts, k, p, flags) && (k + 1 == |ts| || (k + 1) % 8 == 0)
    ensures lz == Pack(ts) && k < |ts| && p + |Body(ts[k])| == |Pack(ts[..k + 1])| && (k + 1 == |ts| ==> ts[..k + 1] == ts)
    ensures flags / 2 == 1 <==> (k + 1) % 8 == 0
  {
    hide Pack, Body, Pow2, Flags, Bodies, GroupOf, GroupEnd, GroupStart;
    LastPlace(k);
    GroupEncodable(ts, k);
    StepOut(ts, k);
    ShiftFlags(Flags(GroupOf(ts, k)), k - GroupStart(k));
    BodiesStep(GroupOf(ts, k), k - GroupStart(k));
  }

  lemma GroupEncodable(ts: seq<Token>, k: nat)
    requires AllEncodable(ts) && k < |ts|
    ensures AllEncodable(GroupOf(ts, k))
  {}

  lemma SameGroup(ts: seq<Token>, k: nat)
    requires k + 1 < |ts| && (k + 1) % 8 != 0
    ensures GroupStart(k + 1) == GroupStart(k) && GroupOf(ts, k + 1) == GroupOf(ts, k)
  {}

  // The last token of a group ends where the group does.
  lemma StepOut(ts: seq<Token>, k: nat)
    requires AllEncodable(ts) && k < |ts| && ((k + 1) % 8 == 0 || k + 1 == |ts|)
    ensures var g := GroupOf(ts, k);
      && g[..k - GroupStart(k) + 1] == g && Flags(g) < 256
      && |Pack(ts[..k + 1])| == |Pack(ts[..GroupStart(k)])| + 1 + |Bodies(g)|
      && (k + 1 == |ts| ==> ts[..k + 1] == ts)
  {
    hide Pack, Body, Pow2, Flags, Bodies;
    GroupBytes(ts, k);
    WholeGroup(GroupOf(ts, k));
    assert GroupEnd(ts, k) == k + 1;
    assert k + 1 == |ts| ==> ts[..k + 1] == ts;
  }

  lemma ShiftFlags(f: nat, i: nat)
    requires i <= 7
    ensures (f + 256) / Pow2(i) / 2 == (f + 256) / Pow2(i + 1)
    ensures i < 7 ==> (f + 256) / Pow2(i + 1) != 1
    ensures i == 7 && f < 256 ==> (f + 256) / Pow2(i + 1) == 1
  {
    SmallPowers();
    assert i == 0 || i == 1 || i == 2 || i == 3 || i == 4 || i == 5 || i == 6 || i == 7;
  }

  lemma WholeGroup(g: seq<Token>)
    requires |g| <= 8
    ensures Flags(g) < 256
  {
    Pow2Mono(|g|, 8);
    SmallPowers();
  }

  // At the end of the buffer, and only there, all tokens are read.
  lemma AtEnd(lz: seq<byte>, ts: seq<Token>, k: nat, p: nat, flags: nat)
    requires AllEncodable(ts) && Before(lz, ts, k, p, flags)
    ensures p <= |lz| && (p < |lz| <==> k < |ts|)
    ensures flags != 1 && k < |ts| ==> Inside(lz, ts, k, p, flags)
  {
    if k < |ts| {
      if k % 8 == 0 {
        LoadFlags(lz, ts, k, p, flags);
      } else {
        ReadToken(lz, ts, k, p, flags);
      }
    } else {
      assert ts[..k] == ts;
    }
  }

  // A clear second flag bit, short of the end, means that another literal follows in the group.
  lemma SecondLiteral(lz: seq<byte>, ts: seq<Token>, k: nat, p: nat, flags: nat)
    requires AllEncodable(ts) && Inside(lz, ts, k, p, flags)
    requires flags / 2 % 2 == 0 && p + |Body(ts[k])| < |lz|
    ensures k + 1 < |ts| && Inside(lz, ts, k + 1, p + |Body(ts[k])|, flags / 2) && ts[k + 1].Literal?
  {
    hide Inside, Pack, Bodies;
    Step(lz, ts, k, p, flags);
    AtEnd(lz, ts, k + 1, p + |Body(ts[k])|, flags / 2);
    ReadToken(lz, ts, k + 1, p + |Body(ts[k])|, flags / 2);
  }
}
