/** The compressor's packed token buffer: every eight tokens share a flag byte, whose bit i says
    whether token i is a match; a literal takes one byte, a match three. Flag bits are shifted in
    from the top, so a flag byte is only right once it has been shifted all the way down. */
module TokenBuffer {
  import opened Sums
  import opened Arith
  import opened Lz77
  import opened Symbols

  const LZ_CODE_BUF_SIZE := 65536

  // The bytes of one token.
  function Body(t: Token): (r: seq<byte>)
    requires Encodable(t)
    ensures |r| == if t.Match? then 3 else 1
  {
    match t
    case Literal(b) => [b]
    case Match(len, dist) => [len - MIN_MATCH_LEN, (dist - 1) % 256, (dist - 1) / 256]
  }

  ghost predicate AllEncodable(ts: seq<Token>) {
    forall i :: 0 <= i < |ts| ==> Encodable(ts[i])
  }

  function Bodies(ts: seq<Token>): (r: seq<byte>)
    requires AllEncodable(ts)
    ensures |ts| <= |r| <= 3 * |ts|
  {
    if ts == [] then [] else Bodies(ts[..|ts| - 1]) + Body(ts[|ts| - 1])
  }

  // Bit i is set when token i is a match.
  function Flags(ts: seq<Token>): (f: nat)
    ensures f < Pow2(|ts|)
  {
    if ts == [] then 0
    else
      var k := |ts| - 1;
      Flags(ts[..k]) + if ts[k].Match? then Pow2(k) else 0
  }

  // A group of up to eight tokens behind its flag byte.
  function Group(ts: seq<Token>): (r: seq<byte>)
    requires AllEncodable(ts) && |ts| <= 8
    ensures 1 + |ts| <= |r| <= 1 + 3 * |ts|
  {
    Pow2Mono(|ts|, 8);
    Pow2Table();
    [Flags(ts)] + Bodies(ts)
  }

  // The whole buffer: full groups, then what is left, if anything.
  function Pack(ts: seq<Token>): (r: seq<byte>)
    requires AllEncodable(ts)
    ensures 9 * |ts| <= 8 * |r|
    decreases |ts|
  {
    if ts == [] then []
    else
      var full := (|ts| - 1) / 8 * 8;
      Pack(ts[..full]) + Group(ts[full..])
  }

  // The full groups of a token sequence, and the tokens after them.
  function FullCount(ts: seq<Token>): (n: nat)
    ensures n <= |ts| < n + 8 && n % 8 == 0
  {
    |ts| / 8 * 8
  }

  // ---------- symbol counts ----------

  function LitLenSym(t: Token): nat
    requires Encodable(t)
  {
    if t.Match? then LenSym(t.len - MIN_MATCH_LEN) else t.value
  }

  // How many tokens use literal/length symbol s.
  function LitLenCount(ts: seq<Token>, s: nat): (n: nat)
    requires AllEncodable(ts)
    ensures n <= |ts|
  {
    if ts == [] then 0
    else
      var k := |ts| - 1;
      LitLenCount(ts[..k], s) + if LitLenSym(ts[k]) == s then 1 else 0
  }

  // How many tokens use distance symbol s.
  function DistCount(ts: seq<Token>, s: nat): (n: nat)
    requires AllEncodable(ts)
    ensures n <= |ts|
  {
    if ts == [] then 0
    else
      var k := |ts| - 1;
      DistCount(ts[..k], s) + if ts[k].Match? && DistSym(ts[k].dist - 1) == s then 1 else 0
  }

  ghost predicate Counted(ts: seq<Token>, litLen: seq<nat>, dist: seq<nat>)
    requires AllEncodable(ts)
  {
    && |litLen| == |dist| == 288
    && (forall s :: 0 <= s < 288 ==> litLen[s] == LitLenCount(ts, s))
    && (forall s :: 0 <= s < 288 ==> dist[s] == DistCount(ts, s))
  }

  // ---------- the buffer being filled ----------

  // The buffer holds some packed bytes, then a group still open: its flag byte, part shifted in, and
  // its tokens' bytes.
  ghost predicate Parts(buf: seq<byte>, codePos: nat, flagsPos: nat, left: nat, packed: seq<byte>, open: seq<Token>)
  {
    && AllEncodable(open)
    && left == 8 - |open| > 0
    && flagsPos < codePos <= |buf|
    && buf[..flagsPos] == packed
    && buf[flagsPos + 1..codePos] == Bodies(open)
    && ShiftedIn(buf[flagsPos], open)
  }

  ghost predicate Holds(buf: seq<byte>, codePos: nat, flagsPos: nat, left: nat, ts: seq<Token>)
  {
    && AllEncodable(ts)
    && Parts(buf, codePos, flagsPos, left, Pack(ts[..FullCount(ts)]), ts[FullCount(ts)..])
  }

  // The flags of the open group fill the top of the byte.
  ghost predicate ShiftedIn(flag: byte, open: seq<Token>)
    requires |open| < 8
  {
    flag / Pow2(8 - |open|) == Flags(open)
  }

  lemma ShiftOne(flag: byte, open: seq<Token>, t: Token)
    requires |open| < 7 && ShiftedIn(flag, open)
    ensures ShiftedIn(flag / 2 + (if t.Match? then 128 else 0), open + [t])
  {
    hide Pow2;
    var k := |open|;
    assert (open + [t])[..k] == open;
    HalvedPower(k);
    DivTwice(flag, Pow2(7 - k));
    DivPlusMultiple(flag / 2, Pow2(7 - k), Pow2(k));
  }

  lemma HalvedPower(k: nat)
    requires k < 7
    ensures Pow2(8 - k) == 2 * Pow2(7 - k) && Pow2(7 - k) * Pow2(k) == 128
  {
    Pow2Add(7 - k, k);
    SmallPowers();
  }

  // The eighth token completes the byte.
  lemma ShiftLast(flag: byte, open: seq<Token>, t: Token)
    requires |open| == 7 && ShiftedIn(flag, open)
    ensures flag / 2 + (if t.Match? then 128 else 0) == Flags(open + [t])
  {
    assert (open + [t])[..7] == open;
    SmallPowers();
  }

  // The buffer once a token's bytes and its flag bit are in.
  ghost predicate Wrote(buf: seq<byte>, buf': seq<byte>, codePos: nat, flagsPos: nat, t: Token)
    requires Encodable(t) && flagsPos < codePos && codePos + |Body(t)| <= |buf| == |buf'|
  {
    && buf'[..flagsPos] == buf[..flagsPos]
    && buf'[flagsPos] == buf[flagsPos] / 2 + (if t.Match? then 128 else 0)
    && buf'[flagsPos + 1..codePos] == buf[flagsPos + 1..codePos]
    && buf'[codePos..codePos + |Body(t)|] == Body(t)
  }

  lemma SplitAtGroup(ts: seq<Token>, t: Token)
    ensures var full := FullCount(ts);
      && (ts + [t])[..full] == ts[..full]
      && (ts + [t])[full..] == ts[full..] + [t]
  {}

  lemma BodiesSnoc(ts: seq<Token>, t: Token)
    requires AllEncodable(ts) && Encodable(t)
    ensures AllEncodable(ts + [t]) && Bodies(ts + [t]) == Bodies(ts) + Body(t)
  {
    assert (ts + [t])[..|ts|] == ts;
  }

  lemma OpenBytes(buf: seq<byte>, buf': seq<byte>, codePos: nat, flagsPos: nat, open: seq<Token>, t: Token)
    requires AllEncodable(open) && Encodable(t)
    requires flagsPos < codePos && codePos + |Body(t)| <= |buf| == |buf'| && Wrote(buf, buf', codePos, flagsPos, t)
    requires buf[flagsPos + 1..codePos] == Bodies(open)
    ensures AllEncodable(open + [t])
    ensures buf'[flagsPos + 1..codePos + |Body(t)|] == Bodies(open + [t])
  {
    hide Bodies, Body, AllEncodable;
    BodiesSnoc(open, t);
    var end := codePos + |Body(t)|;
    assert buf'[flagsPos + 1..end] == buf'[flagsPos + 1..codePos] + buf'[codePos..end];
  }

  // A token that leaves its group open.
  lemma PartsInside(buf: seq<byte>, buf': seq<byte>, codePos: nat, flagsPos: nat, left: nat, packed: seq<byte>,
                    open: seq<Token>, t: Token)
    requires Parts(buf, codePos, flagsPos, left, packed, open) && Encodable(t) && left > 1
    requires codePos + |Body(t)| <= |buf| == |buf'| && Wrote(buf, buf', codePos, flagsPos, t)
    ensures Parts(buf', codePos + |Body(t)|, flagsPos, left - 1, packed, open + [t])
  {
    hide ShiftedIn, Bodies, Body;
    OpenBytes(buf, buf', codePos, flagsPos, open, t);
    ShiftOne(buf[flagsPos], open, t);
  }

  // A token that completes its group; the next flag byte is claimed.
  lemma PartsLast(buf: seq<byte>, buf': seq<byte>, codePos: nat, flagsPos: nat, packed: seq<byte>,
                  open: seq<Token>, t: Token)
    requires Parts(buf, codePos, flagsPos, 1, packed, open) && Encodable(t)
    requires codePos + |Body(t)| < |buf| == |buf'| && Wrote(buf, buf', codePos, flagsPos, t)
    ensures AllEncodable(open + [t])
    ensures Parts(buf', codePos + |Body(t)| + 1, codePos + |Body(t)|, 8, packed + Group(open + [t]), [])
  {
    hide Body, Flags;
    OpenBytes(buf, buf', codePos, flagsPos, open, t);
    ShiftLast(buf[flagsPos], open, t);
    NothingShifted(buf'[codePos + |Body(t)|]);
    var end := codePos + |Body(t)|;
    assert buf'[..end] == buf'[..flagsPos] + [buf'[flagsPos]] + buf'[flagsPos + 1..end];
  }

  lemma NothingShifted(flag: byte)
    ensures ShiftedIn(flag, [])
  {
    SmallPowers();
  }

  lemma RecordInside(buf: seq<byte>, buf': seq<byte>, codePos: nat, flagsPos: nat, left: nat, ts: seq<Token>, t: Token)
    requires Holds(buf, codePos, flagsPos, left, ts) && Encodable(t) && left > 1
    requires flagsPos < codePos && codePos + |Body(t)| <= |buf| == |buf'| && Wrote(buf, buf', codePos, flagsPos, t)
    ensures Holds(buf', codePos + |Body(t)|, flagsPos, left - 1, ts + [t])
  {
    hide Pack, ShiftedIn, Bodies, Body, Wrote;
    SplitAtGroup(ts, t);
    PartsInside(buf, buf', codePos, flagsPos, left, Pack(ts[..FullCount(ts)]), ts[FullCount(ts)..], t);
    assert FullCount(ts + [t]) == FullCount(ts);
  }

  lemma RecordLast(buf: seq<byte>, buf': seq<byte>, codePos: nat, flagsPos: nat, ts: seq<Token>, t: Token)
    requires Holds(buf, codePos, flagsPos, 1, ts) && Encodable(t)
    requires flagsPos < codePos && codePos + |Body(t)| < |buf| == |buf'| && Wrote(buf, buf', codePos, flagsPos, t)
    ensures Holds(buf', codePos + |Body(t)| + 1, codePos + |Body(t)|, 8, ts + [t])
  {
    hide ShiftedIn, Bodies, Body, Wrote, Group;
    SplitAtGroup(ts, t);
    PackGroup(ts, t);
    PartsLast(buf, buf', codePos, flagsPos, Pack(ts[..FullCount(ts)]), ts[FullCount(ts)..], t);
  }

  lemma LastOfGroup(n: nat)
    requires n % 8 == 7
    ensures n >= 7 && (n - 7) % 8 == 0 && (n + 1) % 8 == 0
  {}

  lemma FullCountIs(ts: seq<Token>, n: nat)
    requires n % 8 == 0 && n <= |ts| < n + 8
    ensures FullCount(ts) == n
  {}

  // Completing a group appends it to the packed bytes.
  lemma PackGroup(ts: seq<Token>, t: Token)
    requires AllEncodable(ts) && Encodable(t) && |ts| % 8 == 7
    ensures AllEncodable(ts + [t]) && AllEncodable(ts[FullCount(ts)..] + [t])
    ensures FullCount(ts + [t]) == |ts| + 1
    ensures (ts + [t])[..|ts| + 1] == ts + [t] && (ts + [t])[|ts| + 1..] == []
    ensures Pack(ts + [t]) == Pack(ts[..FullCount(ts)]) + Group(ts[FullCount(ts)..] + [t])
  {
    hide Pack, Group, AllEncodable, FullCount;
    LastOfGroup(|ts|);
    FullCountIs(ts, |ts| - 7);
    FullCountIs(ts + [t], |ts| + 1);
    SplitAtGroup(ts, t);
    EncodableSnoc(ts, t);
    EncodableSnoc(ts[FullCount(ts)..], t);
    PackEnd(ts + [t], FullCount(ts));
  }

  lemma EncodableSnoc(ts: seq<Token>, t: Token)
    requires Encodable(t)
    ensures AllEncodable(ts) ==> AllEncodable(ts + [t])
    ensures AllEncodable(ts) ==> AllEncodable(ts[FullCount(ts)..])
  {}

  // The packed form ends with its last group.
  lemma PackEnd(ts: seq<Token>, full: nat)
    requires AllEncodable(ts) && full < |ts| <= full + 8 && full % 8 == 0
    ensures Pack(ts) == Pack(ts[..full]) + Group(ts[full..])
  {
    hide Group;
    assert (|ts| - 1) / 8 * 8 == full;
  }

  // Shifting the open flag byte down, or giving it back, leaves the packed tokens.
  lemma FinishPacks(buf: seq<byte>, buf': seq<byte>, codePos: nat, flagsPos: nat, left: nat, flag: byte, ts: seq<Token>)
    requires Holds(buf, codePos, flagsPos, left, ts) && flagsPos < codePos <= |buf|
    requires flag == buf[flagsPos] / Pow2(left) && buf' == buf[flagsPos := flag]
    ensures buf'[..if left == 8 then codePos - 1 else codePos] == Pack(ts)
  {
    hide Pack, FullCount, ShiftedIn, AllEncodable;
    var full, open := FullCount(ts), ts[FullCount(ts)..];
    assert AllEncodable(open) by { EncodableSnoc(ts, Literal(0)); }
    if left == 8 {
      assert open == [] && ts[..full] == ts;
      assert |buf[flagsPos + 1..codePos]| == 0;
      assert buf'[..flagsPos] == buf[..flagsPos];
    } else {
      PackEnd(ts, full);
      assert ShiftedIn(buf[flagsPos], open);
      ShiftedAll(buf[flagsPos], open);
      assert buf'[..codePos] == buf[..flagsPos] + [buf'[flagsPos]] + buf[flagsPos + 1..codePos];
    }
  }

  lemma ShiftedAll(flag: byte, open: seq<Token>)
    requires |open| < 8 && ShiftedIn(flag, open)
    ensures flag / Pow2(8 - |open|) == Flags(open)
  {}

  // ---------- counting the symbols ----------

  lemma CountedSnoc(ts: seq<Token>, t: Token, litLen: seq<nat>, dist: seq<nat>,
                    litLen': seq<nat>, dist': seq<nat>)
    requires AllEncodable(ts) && Encodable(t) && Counted(ts, litLen, dist) && |ts| < 0xFFFF
    requires |litLen'| == |dist'| == 288
    requires forall s :: 0 <= s < 288 ==> litLen'[s] == litLen[s] + if LitLenSym(t) == s then 1 else 0
    requires forall s :: 0 <= s < 288 ==> dist'[s] == dist[s] + if t.Match? && DistSym(t.dist - 1) == s then 1 else 0
    ensures Counted(ts + [t], litLen', dist')
  {
    assert (ts + [t])[..|ts|] == ts;
  }

  lemma HoldsBounds(buf: seq<byte>, codePos: nat, flagsPos: nat, left: nat, ts: seq<Token>)
    requires Holds(buf, codePos, flagsPos, left, ts)
    ensures flagsPos < codePos <= |buf| && 1 <= left <= 8
  {}

  class Buffer {
    const buf: array<byte>
    const litLen: array<nat>
    const dist: array<nat>
    var codePos: nat
    var flagsPos: nat
    var numFlagsLeft: nat
    var totalLzBytes: nat
    // The tokens recorded since the last flush.
    ghost var tokens: seq<Token>

    ghost predicate Valid()
      reads this, buf, litLen, dist
    {
      && Shaped()
      && Holds(buf[..], codePos, flagsPos, numFlagsLeft, tokens)
      && AllEncodable(tokens) && Counted(tokens, litLen[..], dist[..])
      && totalLzBytes == ByteCount(tokens)
    }

    ghost predicate Shaped() {
      buf.Length == LZ_CODE_BUF_SIZE && litLen.Length == dist.Length == 288 && litLen != dist
    }

    constructor ()
      ensures Valid() && tokens == [] && fresh(buf) && fresh(litLen) && fresh(dist)
      ensures codePos == 1
    {
      buf := new byte[LZ_CODE_BUF_SIZE];
      litLen := new nat[288](_ => 0);
      dist := new nat[288](_ => 0);
      codePos, flagsPos, numFlagsLeft, totalLzBytes := 1, 0, 8, 0;
      tokens := [];
      new;
      NothingHeld(buf[..]);
    }

    // Shifts in a flag bit and, after the eighth, claims the next flag byte.
    method PutFlag(isMatch: bool, ghost t: Token)
      requires isMatch == t.Match?
      requires buf.Length == LZ_CODE_BUF_SIZE && Encodable(t) && |Body(t)| <= codePos < LZ_CODE_BUF_SIZE
      requires Holds(buf[..], codePos - |Body(t)|, flagsPos, numFlagsLeft, tokens)
      requires buf[codePos - |Body(t)|..codePos] == Body(t)
      modifies buf, `codePos, `flagsPos, `numFlagsLeft, `tokens
      ensures tokens == old(tokens) + [t]
      ensures Holds(buf[..], codePos, flagsPos, numFlagsLeft, tokens)
      ensures codePos <= old(codePos) + 1
    {
      hide Holds, Body;
      ghost var before, start := buf[..], codePos - |Body(t)|;
      HoldsBounds(before, start, flagsPos, numFlagsLeft, tokens);
      buf[flagsPos] := buf[flagsPos] / 2 + if isMatch then 128 else 0;
      assert Wrote(before, buf[..], start, flagsPos, t);
      numFlagsLeft := numFlagsLeft - 1;
      if numFlagsLeft == 0 {
        RecordLast(before, buf[..], start, flagsPos, tokens, t);
        numFlagsLeft := 8;
        flagsPos := codePos;
        codePos := codePos + 1;
      } else {
        RecordInside(before, buf[..], start, flagsPos, numFlagsLeft + 1, tokens, t);
      }
      tokens := tokens + [t];
    }

    method RecordLiteral(lit: byte)
      requires Valid() && codePos + 2 <= LZ_CODE_BUF_SIZE
      modifies this, buf, litLen
      ensures Valid() && tokens == old(tokens) + [Literal(lit)]
      ensures codePos <= old(codePos) + 2
    {
      hide Holds;
      ghost var t, before, ts, counts := Literal(lit), buf[..], tokens, litLen[..];
      HoldsBounds(before, codePos, flagsPos, numFlagsLeft, ts);
      TokenBound(before, codePos, flagsPos, numFlagsLeft, ts);
      totalLzBytes := totalLzBytes + 1;
      buf[codePos] := lit;
      HoldsFramed(before, buf[..], codePos, flagsPos, numFlagsLeft, ts);
      codePos := codePos + 1;
      PutFlag(false, t);
      litLen[lit] := (litLen[lit] + 1) % 0x1_0000;
      CountedBound(ts, counts, dist[..]);
      CountedSnoc(ts, t, counts, dist[..], litLen[..], dist[..]);
      ByteCountSnoc(ts, t);
    }

    method RecordMatch(matchLen: nat, matchDist: nat)
      requires Valid() && codePos + 4 <= LZ_CODE_BUF_SIZE
      requires Encodable(Match(matchLen, matchDist))
      modifies this, buf, litLen, dist
      ensures Valid() && tokens == old(tokens) + [Match(matchLen, matchDist)]
      ensures codePos <= old(codePos) + 4
    {
      hide Holds;
      ghost var t, before, ts, counts, dists := Match(matchLen, matchDist), buf[..], tokens, litLen[..], dist[..];
      HoldsBounds(before, codePos, flagsPos, numFlagsLeft, ts);
      TokenBound(before, codePos, flagsPos, numFlagsLeft, ts);
      totalLzBytes := totalLzBytes + matchLen;
      buf[codePos] := matchLen - MIN_MATCH_LEN;
      var d := matchDist - 1;
      buf[codePos + 1] := d % 256;
      buf[codePos + 2] := d / 256;
      HoldsFramed(before, buf[..], codePos, flagsPos, numFlagsLeft, ts);
      codePos := codePos + 3;
      assert buf[codePos - 3..codePos] == Body(t);
      PutFlag(true, t);
      CountMatch(matchLen, d);
      CountedBound(ts, counts, dists);
      CountedSnoc(ts, t, counts, dists, litLen[..], dist[..]);
      ByteCountSnoc(ts, t);
    }

    // Counts the two symbols of a match, each in 16 bits.
    method CountMatch(matchLen: nat, d: nat)
      requires litLen.Length == dist.Length == 288 && litLen != dist
      requires MIN_MATCH_LEN <= matchLen <= MAX_MATCH_LEN && d < LZ_DICT_SIZE
      modifies litLen, dist
      ensures forall s :: 0 <= s < 288 ==>
        litLen[s] == if LenSym(matchLen - MIN_MATCH_LEN) == s then (old(litLen[s]) + 1) % 0x1_0000 else old(litLen[s])
      ensures forall s :: 0 <= s < 288 ==>
        dist[s] == if DistSym(d) == s then (old(dist[s]) + 1) % 0x1_0000 else old(dist[s])
    {
      LengthInverts(matchLen - MIN_MATCH_LEN);
      DistanceInverts(d);
      hide LenSym, DistSym, SmallDistSym, LargeDistSym, DistExtra, LenExtra, Pow2;
      DistSymMasked(d);
      var s0 := SmallDistSym(d % 512);
      var s1 := LargeDistSym(d / 256 % 128);
      var s := if d < 512 then s0 else s1;
      dist[s] := (dist[s] + 1) % 0x1_0000;
      var l := LenSym(matchLen - MIN_MATCH_LEN);
      litLen[l] := (litLen[l] + 1) % 0x1_0000;
    }

    // Completes the last flag byte, or gives it back if it has no tokens.
    method Finish()
      requires Valid()
      modifies buf, `codePos
      ensures 0 <= codePos <= LZ_CODE_BUF_SIZE && buf[..codePos] == Pack(tokens)
    {
      hide Holds;
      ghost var before := buf[..];
      HoldsBounds(before, codePos, flagsPos, numFlagsLeft, tokens);
      FlagFits(buf[flagsPos], numFlagsLeft);
      var flag: byte := buf[flagsPos] / Pow2(numFlagsLeft);
      buf[flagsPos] := flag;
      FinishPacks(before, buf[..], codePos, flagsPos, numFlagsLeft, flag, tokens);
      if numFlagsLeft == 8 {
        codePos := codePos - 1;
      }
    }

    // Starts the next block.
    method Reset()
      requires Shaped()
      modifies this, litLen, dist
      ensures Valid() && tokens == [] && codePos == 1
    {
      forall i | 0 <= i < 288 {
        litLen[i] := 0;
      }
      forall i | 0 <= i < 288 {
        dist[i] := 0;
      }
      codePos, flagsPos, numFlagsLeft, totalLzBytes := 1, 0, 8, 0;
      tokens := [];
      NothingHeld(buf[..]);
    }
  }

  lemma DistSymMasked(d: nat)
    requires d < LZ_DICT_SIZE
    ensures DistSym(d) == if d < 512 then SmallDistSym(d % 512) else LargeDistSym(d / 256 % 128)
  {}

  lemma FlagFits(flag: byte, left: nat)
    ensures 0 <= flag / Pow2(left) < 256
  {
    hide Pow2;
    var p := Pow2(left);
    MulMono(256, 1, p);
    DivBelow(256, flag, p);
  }

  lemma HoldsFramed(buf: seq<byte>, buf': seq<byte>, codePos: nat, flagsPos: nat, left: nat, ts: seq<Token>)
    requires Holds(buf, codePos, flagsPos, left, ts) && |buf| == |buf'| && codePos <= |buf|
    requires buf'[..codePos] == buf[..codePos]
    ensures Holds(buf', codePos, flagsPos, left, ts)
  {
    hide Pack, Bodies, ShiftedIn;
    assert flagsPos < codePos;
    assert buf'[..flagsPos] == buf'[..codePos][..flagsPos] == buf[..flagsPos];
    assert buf'[flagsPos + 1..codePos] == buf'[..codePos][flagsPos + 1..] == buf[flagsPos + 1..codePos];
    assert buf'[flagsPos] == buf'[..codePos][flagsPos];
  }

  lemma CountedBound(ts: seq<Token>, litLen: seq<nat>, dist: seq<nat>)
    requires AllEncodable(ts) && Counted(ts, litLen, dist) && |ts| <= 60000
    ensures forall s :: 0 <= s < 288 ==> litLen[s] <= 60000 && dist[s] <= 60000
  {}

  lemma ByteCountSnoc(ts: seq<Token>, t: Token)
    ensures ByteCount(ts + [t]) == ByteCount(ts) + if t.Match? then t.len else 1
  {
    assert (ts + [t])[..|ts|] == ts;
  }

  // The buffer is large enough to keep token counts in 16 bits.
  lemma TokenBound(buf: seq<byte>, codePos: nat, flagsPos: nat, left: nat, ts: seq<Token>)
    requires Holds(buf, codePos, flagsPos, left, ts) && codePos <= LZ_CODE_BUF_SIZE
    ensures |ts| <= 60000 && |ts| < codePos
  {
    var full := FullCount(ts);
    assert |ts[full..]| <= |buf[flagsPos + 1..codePos]|;
    assert 9 * full <= 8 * flagsPos;
  }

  // Where the next byte goes: after the full groups, a flag byte and the open group's bytes.
  function CodePos(ts: seq<Token>): nat
    requires AllEncodable(ts)
  {
    var full := FullCount(ts);
    |Pack(ts[..full])| + 1 + |Bodies(ts[full..])|
  }

  lemma CodePosIs(buf: seq<byte>, codePos: nat, flagsPos: nat, left: nat, ts: seq<Token>)
    requires Holds(buf, codePos, flagsPos, left, ts)
    ensures AllEncodable(ts) && codePos == CodePos(ts)
  {
    hide Pack, Bodies;
    var full := FullCount(ts);
    assert |buf[..flagsPos]| == flagsPos && |buf[flagsPos + 1..codePos]| == codePos - flagsPos - 1;
  }

  // How many bytes the tokens stand for.
  function ByteCount(ts: seq<Token>): (n: nat) {
    if ts == [] then 0
    else ByteCount(ts[..|ts| - 1]) + if ts[|ts| - 1].Match? then ts[|ts| - 1].len else 1
  }

  lemma NothingHeld(buf: seq<byte>)
    requires |buf| >= 1
    ensures Holds(buf, 1, 0, 8, [])
  {
    NothingShifted(buf[0]);
    assert buf[..0] == [] && buf[1..1] == [];
  }
}
