/** The symbols of a coded block: literals two a turn or one at a time, and matches with their fields and
    their copies. */
module CodedBlock {
  import opened Wrappers
  import opened Arith
  import opened Sums
  import opened Bits
  import opened Lz77
  import opened Symbols
  import opened DecodeTable
  import opened Canonical
  import opened InflateTable
  import opened BlockCodec
  import opened CodeLengths
  import opened CodeHeader
  import opened StaticBlock
  import opened Inflate
  import opened BitInput
  import opened TableDecode
  import opened OutputBuffer
  import opened MatchCopy
  import opened Outcomes
  import opened HeaderReader

  // Words for the first symbols; the others have none.
  ghost predicate Heads(words: seq<Path>, all: seq<Path>) {
    && |words| <= |all|
    && (forall i :: 0 <= i < |words| ==> all[i] == words[i])
    && forall i :: |words| <= i < |all| ==> all[i] == []
  }

  lemma PaddedOccurrences(sizes: seq<nat>, n: nat, l: nat)
    requires |sizes| <= n && l > 0
    ensures Occurrences(Padded(sizes, n), l) == Occurrences(sizes, l)
  {
    hide Occurrences, Copies;
    ConcatOccurrences(sizes, Copies(0, n - |sizes|), l);
    CopiesOf(0, n - |sizes|, l);
  }

  lemma {:induction false} SameSums(c: seq<nat>, d: seq<nat>, m: nat)
    requires m < |c| == |d| && forall l :: 1 <= l <= m ==> c[l] == d[l]
    ensures Kraft(c, m) == Kraft(d, m) && Total(c, m) == Total(d, m)
  {
    if m > 0 {
      SameSums(c, d, m - 1);
    }
  }

  // Sizes without a code change no word.
  lemma PaddedWords(sizes: seq<nat>, n: nat)
    requires |sizes| <= n && forall i :: 0 <= i < |sizes| ==> sizes[i] <= MAX_BITS
    ensures Heads(Words(sizes), Words(Padded(sizes, n))) && (Accepts(Padded(sizes, n)) <==> Accepts(sizes))
  {
    hide Occurrences, Kraft, Total, MsbBits;
    var p := Padded(sizes, n);
    var c, d := Counts(sizes, MAX_BITS), Counts(p, MAX_BITS);
    forall l | 1 <= l <= MAX_BITS ensures c[l] == d[l] {
      PaddedOccurrences(sizes, n, l);
    }
    SameSums(c, d, MAX_BITS);
    forall i | 0 <= i < |sizes| && sizes[i] > 0 ensures CodeWord(sizes, MAX_BITS, i) == CodeWord(p, MAX_BITS, i) {
      SameSums(c, d, sizes[i] - 1);
      assert p[..i] == sizes[..i];
    }
  }

  lemma ExpandFront(out: seq<byte>, t: Token, ts: seq<Token>)
    ensures Expand(out, [t] + ts) == match Apply(out, t) case None => None case Some(r) => Expand(r, ts)
  {
    ExpandConcat(out, [t], ts);
    assert [t][..0] == [];
  }

  // What the next symbol of a valid block says.
  lemma CodedSymbol(c: Codes, bits: seq<bool>, out: seq<byte>)
    requires |c.litLen| == 288 && |c.dist| == 32 && ReadCoded(c, bits, out).Got?
    ensures ReadSymbol(c.litLen, bits).Got?
    ensures var s := ReadSymbol(c.litLen, bits);
      && (s.value < 256 ==> ReadCoded(c, s.rest, out + [s.value as byte]) == ReadCoded(c, bits, out))
      && (s.value == 256 ==> ReadCoded(c, bits, out) == Got(out, s.rest))
      && (s.value > 256 ==> ReadMatch(c, s.value, s.rest).Got? && CodedMatch(c, ReadMatch(c, s.value, s.rest), out, ReadCoded(c, bits, out)))
  {
    hide ReadSymbol, ReadMatch, Apply, Expand;
    var s := ReadSymbol(c.litLen, bits);
    if s.value == 256 {
      NothingExpands(out);
    } else if s.value < 256 {
      var ts := ReadTokens(c, s.rest).value;
      ExpandFront(out, Literal(s.value), ts);
      LiteralApplies(out, s.value);
    } else {
      var m := ReadMatch(c, s.value, s.rest);
      ExpandFront(out, m.value, ReadTokens(c, m.rest).value);
    }
  }

  lemma LiteralApplies(out: seq<byte>, b: byte)
    ensures Apply(out, Literal(b)) == Some(out + [b])
  {}

  lemma NothingExpands(out: seq<byte>)
    ensures Expand(out, []) == Some(out)
  {}

  // A match applies, and reading goes on after it.
  ghost predicate CodedMatch(c: Codes, m: Read<Token>, out: seq<byte>, goal: Read<seq<byte>>)
    requires |c.litLen| == 288 && |c.dist| == 32 && m.Got?
  {
    Apply(out, m.value).Some? && ReadCoded(c, m.rest, Apply(out, m.value).value) == goal
  }

  lemma CodedGrows(c: Codes, bits: seq<bool>, out: seq<byte>)
    requires |c.litLen| == 288 && |c.dist| == 32
    ensures ReadCoded(c, bits, out).Got? ==> out <= ReadCoded(c, bits, out).value
  {
    if ReadCoded(c, bits, out).Got? {
      ExpandGrows(out, ReadTokens(c, bits).value);
    }
  }

  lemma {:induction false} ExpandGrows(out: seq<byte>, ts: seq<Token>)
    ensures Expand(out, ts).Some? ==> out <= Expand(out, ts).value
  {
    if ts != [] {
      ExpandGrows(out, ts[..|ts| - 1]);
    }
  }

  // The first words leave no gaps if all together leave none.
  lemma GapsAlike(words: seq<Path>, all: seq<Path>, bits: seq<bool>)
    requires Heads(words, all)
    ensures NoGap(all) ==> NoGap(words)
    ensures Headed(words, bits) ==> ReadSymbol(all, bits).Got?
  {
    hide IsPrefix;
    if NoGap(all) {
      forall p: Path | |p| >= MAX_BITS ensures Headed(words, p) {
        assert Headed(all, p);
        var i :| Used(all, i) && IsPrefix(all[i], p);
        assert Used(words, i) && words[i] == all[i];
      }
    }
    if Headed(words, bits) {
      var i :| Used(words, i) && IsPrefix(words[i], bits);
      assert Used(all, i) && all[i] == words[i];
    }
  }

  // The symbol that heads the bits, through a table for the first words.
  method DecodeSymbol(r: Reader, lookUp: array<int>, tree: array<int>, ghost words: seq<Path>, ghost at: map<Path, int>, ghost all: seq<Path>)
    returns (ok: bool, sym: nat)
    requires r.Valid() && lookUp.Length == FAST_SIZE && tree.Length == TREE_SIZE
    requires Decodes(words, at, lookUp[..], tree[..]) && Heads(words, all)
    modifies r`pos, r`bitBuf, r`numBits
    ensures r.Valid() && |r.Rest()| <= |old(r.Rest())| && (ok ==> sym < |words| || sym == 0)
    ensures ReadSymbol(all, old(r.Rest())).Got? ==> (ok && ReadSymbol(all, old(r.Rest())) == Got(sym, r.Rest()))
    ensures ok && NoGap(all) ==> ReadSymbol(all, old(r.Rest())).Got?
  {
    hide Decodes, IsPrefix, NoGap;
    GapsAlike(words, all, r.Rest());
    ghost var bits, i := r.Rest(), 0;
    if ReadSymbol(all, bits).Got? {
      i := HeadSymbol(all, bits);
    }
    ok, sym := HuffDecode(r, lookUp, tree, words, at);
  }

  // The same from the bits in the accumulator.
  method DecodeHeldSymbol(r: Reader, lookUp: array<int>, tree: array<int>, ghost words: seq<Path>, ghost at: map<Path, int>, ghost all: seq<Path>)
    returns (sym: nat)
    requires r.Valid() && lookUp.Length == FAST_SIZE && tree.Length == TREE_SIZE && r.numBits >= 15
    requires Decodes(words, at, lookUp[..], tree[..]) && Heads(words, all)
    modifies r`bitBuf, r`numBits
    ensures r.Valid() && |r.Rest()| <= |old(r.Rest())| && r.numBits + 15 >= old(r.numBits)
    ensures sym < |words| || sym == 0
    ensures ReadSymbol(all, old(r.Rest())).Got? ==> ReadSymbol(all, old(r.Rest())) == Got(sym, r.Rest())
    ensures NoGap(all) ==> ReadSymbol(all, old(r.Rest())).Got?
  {
    hide Decodes, IsPrefix, NoGap;
    GapsAlike(words, all, r.Rest());
    ghost var bits, i := r.Rest(), 0;
    if ReadSymbol(all, bits).Got? {
      i := HeadSymbol(all, bits);
    }
    sym := DecodeHeld(r, lookUp, tree, words, at);
  }

  lemma HeadSymbol(words: seq<Path>, bits: seq<bool>) returns (i: nat)
    requires ReadSymbol(words, bits).Got?
    ensures Used(words, i) && IsPrefix(words[i], bits) && ReadSymbol(words, bits) == Got(i, bits[|words[i]|..])
  {
    i := ReadSymbol(words, bits).value;
  }

  // A base value and the extra bits that follow.
  method ReadField(r: Reader, base: nat, numExtra: nat) returns (ok: bool, v: nat)
    requires r.Valid()
    modifies r`pos, r`bitBuf, r`numBits
    ensures r.Valid() && |r.Rest()| <= |old(r.Rest())| && (ok <==> ReadBits(old(r.Rest()), numExtra).Got?)
    ensures ok ==> v >= base && ReadBits(old(r.Rest()), numExtra) == Got(v - base, r.Rest())
  {
    hide ReadBits;
    v := base;
    ok := true;
    if numExtra == 0 {
      NoField(r.Rest(), 0);
    } else {
      var extra;
      ok, extra := r.GetBits(numExtra);
      v := v + extra;
    }
  }

  // Length and distance as the tables give them, whatever the symbols.
  ghost function ReadFields(c: Codes, sym: nat, bits: seq<bool>): (r: Read<(nat, nat)>)
    requires 257 <= sym < 288 && |c.dist| == 32
    ensures r.Got? ==> |r.rest| < |bits|
  {
    match ReadBits(bits, LengthField(sym).1)
    case Bad => Bad
    case Got(extra, rest) =>
      match ReadSymbol(c.dist, rest)
      case Bad => Bad
      case Got(d, rest) =>
        match ReadBits(rest, DistField(d).1)
        case Bad => Bad
        case Got(extraDist, rest) => Got((LengthField(sym).0 + extra, DistField(d).0 + extraDist), rest)
  }

  // A match of the format is one whose symbols stand for something.
  lemma MatchIsFields(c: Codes, sym: nat, bits: seq<bool>)
    requires 257 <= sym < 288 && |c.dist| == 32 && ReadMatch(c, sym, bits).Got?
    ensures var m, f := ReadMatch(c, sym, bits), ReadFields(c, sym, bits);
      f.Got? && m == Got(Match(f.value.0, f.value.1), f.rest) && MIN_MATCH_LEN <= f.value.0 && 1 <= f.value.1 <= LZ_DICT_SIZE
  {
    hide LengthField, DistField, Value, Pow2;
    var extra := ReadBits(bits, LengthField(sym).1);
    var d := ReadSymbol(c.dist, extra.rest);
    var extraDist := ReadBits(d.rest, DistField(d.value).1);
    DistanceBelow(d.value, extraDist.value);
  }

  // The fields of a match after its length symbol.
  method ReadMatchFields(r: Reader, sym: nat, lookUp: array<int>, tree: array<int>, ghost words: seq<Path>, ghost at: map<Path, int>, ghost c: Codes)
    returns (status: Status, length: nat, dist: nat)
    requires r.Valid() && lookUp.Length == FAST_SIZE && tree.Length == TREE_SIZE && 257 <= sym < 288
    requires Decodes(words, at, lookUp[..], tree[..]) && |c.dist| == 32 && Heads(words, c.dist)
    modifies r`pos, r`bitBuf, r`numBits
    ensures r.Valid() && |r.Rest()| <= |old(r.Rest())| && (status == Fine || status == NeedsMoreInput)
    ensures status == Fine ==> if sym <= 285 then length >= MIN_MATCH_LEN else length == 0
    ensures ReadFields(c, sym, old(r.Rest())).Got? ==>
      (status == Fine && ReadFields(c, sym, old(r.Rest())) == Got((length, dist), r.Rest()))
    ensures status == Fine && NoGap(c.dist) ==> ReadFields(c, sym, old(r.Rest())).Got?
  {
    hide Decodes, ReadSymbol, ReadBits, Heads, LengthField, DistField, NoGap;
    dist := 0;
    NoField(r.Rest(), 0);
    var ok;
    ok, length := ReadField(r, LengthField(sym).0, LengthField(sym).1);
    if !ok {
      return NeedsMoreInput, length, dist;
    }
    var d;
    FewWords32(words, c.dist);
    ok, d := DecodeSymbol(r, lookUp, tree, words, at, c.dist);
    if !ok {
      return NeedsMoreInput, length, dist;
    }
    ok, dist := ReadField(r, DistField(d).0, DistField(d).1);
    status := if ok then Fine else NeedsMoreInput;
  }

  lemma FewWords32(words: seq<Path>, all: seq<Path>)
    requires Heads(words, all)
    ensures |words| <= |all|
  {}

  // Whether the symbols lead to a match without length that stands less than three bytes before the end
  // of a fixed output. Until then every match has room, and a match without length stands for three bytes.
  ghost predicate RunsOver(c: Codes, bits: seq<bool>, out: seq<byte>, room: nat)
    requires |c.litLen| == 288 && |c.dist| == 32
    decreases |bits|
  {
    match ReadSymbol(c.litLen, bits)
    case Bad => false
    case Got(sym, rest) =>
      if sym < 256 then |out| < room && RunsOver(c, rest, out + [sym as byte], room)
      else if sym == 256 then false
      else
        match ReadFields(c, sym, rest)
        case Bad => false
        case Got(f, rest) =>
          && f.1 <= |out|
          && (if sym > 285 && |out| + 3 > room then true
              else f.1 >= 1 && |out| + Max(f.0, 3) <= room && RunsOver(c, rest, CopyBack(out, Max(f.0, 3), f.1), room))
  }

  // What the next symbol says then.
  lemma RunsOverSymbol(c: Codes, bits: seq<bool>, out: seq<byte>, room: nat)
    requires |c.litLen| == 288 && |c.dist| == 32 && RunsOver(c, bits, out, room)
    ensures ReadSymbol(c.litLen, bits).Got?
    ensures var s := ReadSymbol(c.litLen, bits);
      && s.value != 256
      && (s.value < 256 ==> |out| < room && RunsOver(c, s.rest, out + [s.value as byte], room))
      && (s.value > 256 ==> ReadFields(c, s.value, s.rest).Got? && OverMatch(c, s.value, ReadFields(c, s.value, s.rest), out, room))
  {
    hide ReadSymbol, ReadFields, CopyBack;
  }

  // Either the match itself runs over or it fits and one after it does.
  ghost predicate OverMatch(c: Codes, sym: nat, f: Read<(nat, nat)>, out: seq<byte>, room: nat)
    requires |c.litLen| == 288 && |c.dist| == 32 && f.Got?
  {
    var (length, dist) := f.value;
    && dist <= |out|
    && (sym <= 285 || |out| + 3 <= room ==>
      (dist >= 1 && |out| + Max(length, 3) <= room && RunsOver(c, f.rest, CopyBack(out, Max(length, 3), dist), room)))
  }

  // A match decoded: copied, or the reason why not.
  method InflateMatch(o: Output, length: nat, dist: nat) returns (status: Status)
    requires o.Valid() && (length == 0 || length >= MIN_MATCH_LEN)
    modifies o`pos, o`sent, o`left, o.buf
    ensures o.Valid() && o.Capacity() == old(o.Capacity()) && |o.All()| >= |old(o.All())|
    ensures status == Fine || status == HasMoreOutput || status == Failed || status == Overrun
    ensures status == Fine ==> |o.All()| == |old(o.All())| + Max(length, 3)
    ensures status == Fine && old(o.Legal(dist)) ==> o.All() == CopyBack(old(o.All()), Max(length, 3), dist)
    ensures length > 0 && old(o.Legal(dist)) ==>
      (if |old(o.All())| + length <= o.Capacity() then status == Fine
       else status == HasMoreOutput && o.All() == CopyBack(old(o.All()), length, dist)[..o.Capacity()])
    ensures !o.wraps && dist > |old(o.All())| ==> status != Fine
    ensures !o.wraps && length == 0 && dist <= |old(o.All())| ==>
      status == if |old(o.All())| + 3 > o.Capacity() then Overrun else Fine
    ensures status == Overrun <==> (o.wraps || dist <= old(o.pos)) && length == 0 && old(Top(o, dist)) + 3 > o.buf.Length
  {
    hide CopyBack;
    o.Within();
    ghost var a := o.All();
    var end := CopyMatch(o, dist, length);
    if end == Full && old(o.Legal(dist)) {
      CopyBackTwice(a, o.Capacity() - |a|, |a| + length - o.Capacity(), dist);
    }
    status := match end case Copied => Fine case Full => HasMoreOutput case TooFar => Failed case PastEnd => Overrun;
  }

  // What is still to come of a block: the rest of what it means, and the match that runs over.
  ghost predicate OnCourse(c: Codes, bits: seq<bool>, out: seq<byte>, goal: Read<seq<byte>>, room: nat, valid: bool, over: bool)
    requires |c.litLen| == 288 && |c.dist| == 32
  {
    && |out| <= room
    && (valid ==> goal.Got? && ReadCoded(c, bits, out) == goal && out <= goal.value)
    && (over ==> RunsOver(c, bits, out, room))
  }

  // What the end of a block comes to: a match that runs over if there is one, what is meant otherwise.
  ghost predicate Ended(over: bool, valid: bool, goal: Read<seq<byte>>, room: nat, status: Status, out: seq<byte>, rest: seq<bool>) {
    && (over ==> status == Overrun)
    && (valid ==> Reached(goal, room, status, out, rest))
  }

  lemma AllMidway()
    ensures Midway(Fine) && Midway(NeedsMoreInput) && Midway(HasMoreOutput)
  {}

  lemma NothingMeant(goal: Read<seq<byte>>, room: nat, status: Status, out: seq<byte>, rest: seq<bool>)
    ensures Ended(false, false, goal, room, status, out, rest)
  {}

  // Where a block starts, and what is not meant makes no demand on how it ends.
  lemma CourseSet(c: Codes, bits: seq<bool>, out: seq<byte>, goal: Read<seq<byte>>, room: nat, wide: bool, over: bool)
    requires |c.litLen| == 288 && |c.dist| == 32 && |out| <= room && goal == ReadCoded(c, bits, out)
    requires over ==> RunsOver(c, bits, out, room)
    ensures OnCourse(c, bits, out, goal, room, goal.Got? && wide, over)
    ensures forall status, out', rest ::
      Ended(over, goal.Got? && wide, goal, room, status, out', rest) ==> Ended(over, wide, goal, room, status, out', rest)
  {
    hide ReadCoded, RunsOver;
    CodedGrows(c, bits, out);
  }

  lemma SymbolThere(c: Codes, bits: seq<bool>, out: seq<byte>, goal: Read<seq<byte>>, room: nat, valid: bool, over: bool)
    requires |c.litLen| == 288 && |c.dist| == 32 && OnCourse(c, bits, out, goal, room, valid, over)
    ensures valid || over ==> ReadSymbol(c.litLen, bits).Got?
  {
    hide ReadSymbol, ReadCoded, RunsOver, ReadFields, ReadMatch;
    if valid {
      CodedSymbol(c, bits, out);
    }
    if over {
      RunsOverSymbol(c, bits, out, room);
    }
  }

  // A literal, or the end of the block.
  lemma LiteralOnCourse(c: Codes, bits: seq<bool>, out: seq<byte>, goal: Read<seq<byte>>, room: nat, valid: bool, over: bool,
                        sym: nat, rest: seq<bool>)
    requires |c.litLen| == 288 && |c.dist| == 32 && OnCourse(c, bits, out, goal, room, valid, over)
    requires valid || over ==> ReadSymbol(c.litLen, bits) == Got(sym, rest)
    ensures sym < 256 && |out| < room ==> OnCourse(c, rest, out + [sym as byte], goal, room, valid, over)
    ensures sym < 256 && |out| == room ==> Ended(over, valid, goal, room, HasMoreOutput, out, rest)
    ensures sym == 256 ==> Ended(over, valid, goal, room, Fine, out, rest)
  {
    hide ReadSymbol, ReadCoded, RunsOver, ReadFields, ReadMatch;
    if valid {
      CodedSymbol(c, bits, out);
      if sym < 256 {
        CodedGrows(c, rest, out + [sym as byte]);
      }
    }
    if over {
      RunsOverSymbol(c, bits, out, room);
    }
  }

  lemma MatchOnCourse(c: Codes, bits: seq<bool>, out: seq<byte>, goal: Read<seq<byte>>, room: nat, valid: bool, over: bool)
    requires |c.litLen| == 288 && |c.dist| == 32 && OnCourse(c, bits, out, goal, room, valid, over)
    requires ReadSymbol(c.litLen, bits).Got? && 256 < ReadSymbol(c.litLen, bits).value
    ensures var s := ReadSymbol(c.litLen, bits);
      var f := ReadFields(c, s.value, s.rest);
      && (valid || over ==> f.Got?)
      && (valid ==> 3 <= f.value.0 && 1 <= f.value.1 <= |out| && f.value.1 <= LZ_DICT_SIZE)
      && (valid ==> ReadCoded(c, f.rest, CopyBack(out, f.value.0, f.value.1)) == goal)
      && (valid ==> CopyBack(out, f.value.0, f.value.1) <= goal.value)
      && (over ==> OverMatch(c, s.value, f, out, room))
  {
    hide ReadSymbol, ReadCoded, RunsOver, ReadFields, ReadMatch, CopyBack, OverMatch;
    var s := ReadSymbol(c.litLen, bits);
    if valid {
      CodedSymbol(c, bits, out);
      MatchIsFields(c, s.value, s.rest);
      var f := ReadFields(c, s.value, s.rest);
      CodedGrows(c, f.rest, CopyBack(out, f.value.0, f.value.1));
    }
    if over {
      RunsOverSymbol(c, bits, out, room);
    }
  }

  // A match: its fields, and its copy.
  method InflateMatchAt(r: Reader, sym: nat, lookUp: array<int>, tree: array<int>, o: Output,
                        ghost words: seq<Path>, ghost at: map<Path, int>, ghost c: Codes,
                        ghost bits: seq<bool>, ghost goal: Read<seq<byte>>, ghost valid: bool, ghost over: bool, ghost sure: bool)
    returns (status: Status)
    requires r.Valid() && o.Valid() && |c.litLen| == 288 && |c.dist| == 32
    requires lookUp.Length == FAST_SIZE && tree.Length == TREE_SIZE && 257 <= sym < 288
    requires Decodes(words, at, lookUp[..], tree[..]) && Heads(words, c.dist)
    requires OnCourse(c, bits, o.All(), goal, o.Capacity(), valid, over) && (valid ==> o.Wide()) && (over ==> !o.wraps)
    requires valid || over || sure ==> ReadSymbol(c.litLen, bits) == Got(sym, r.Rest())
    requires OnTrack(c, bits, o.All(), goal, sure) && (sure ==> NoGap(c.dist) && !o.wraps)
    modifies r`pos, r`bitBuf, r`numBits, o`pos, o`sent, o`left, o.buf
    ensures r.Valid() && |r.Rest()| <= |old(r.Rest())|
    ensures o.Valid() && o.Capacity() == old(o.Capacity()) && Midway(status)
    ensures status == Fine ==> OnCourse(c, r.Rest(), o.All(), goal, o.Capacity(), valid, over) && |o.All()| > |old(o.All())|
    ensures status == Fine ==> OnTrack(c, r.Rest(), o.All(), goal, sure)
    ensures status != Fine ==> Ended(over, valid, goal, o.Capacity(), status, o.All(), r.Rest())
    ensures status == Overrun ==> sym > 285
  {
    hide Decodes, ReadSymbol, ReadFields, ReadMatch, Heads, ReadCoded, RunsOver, CopyBack, Reader.Valid,
      Reader.Rest, Output.Valid, Output.All, Output.Capacity, NoGap, Unreserved, OnTrack;
    ghost var a, room, rest := o.All(), o.Capacity(), r.Rest();
    if valid || over {
      MatchOnCourse(c, bits, a, goal, room, valid, over);
    }
    var length, dist;
    status, length, dist := ReadMatchFields(r, sym, lookUp, tree, words, at, c);
    if status != Fine {
      return;
    }
    LegalWhen(o, dist);
    if sure {
      TrackMatch(c, bits, a, goal, sym, rest, length, dist, r.Rest());
    }
    status := InflateMatch(o, length, dist);
    o.Within();
    NotSure(c, r.Rest(), o.All(), goal);
  }

  lemma NotSure(c: Codes, bits: seq<bool>, out: seq<byte>, goal: Read<seq<byte>>)
    requires |c.litLen| == 288 && |c.dist| == 32
    ensures OnTrack(c, bits, out, goal, false)
  {}

  // Every match that the bits have fields for is one of the format: no symbol is read that stands for nothing.
  ghost predicate Unreserved(c: Codes, bits: seq<bool>)
    requires |c.litLen| == 288 && |c.dist| == 32
    decreases |bits|
  {
    match ReadSymbol(c.litLen, bits)
    case Bad => true
    case Got(sym, rest) =>
      if sym < 256 then Unreserved(c, rest)
      else if sym == 256 then true
      else
        match ReadMatch(c, sym, rest)
        case Bad => ReadFields(c, sym, rest).Bad?
        case Got(_, rest) => Unreserved(c, rest)
  }

  // What the block means from here on is what it meant from its start, whatever that is.
  ghost predicate OnTrack(c: Codes, bits: seq<bool>, out: seq<byte>, goal: Read<seq<byte>>, sure: bool)
    requires |c.litLen| == 288 && |c.dist| == 32
  {
    sure ==> ReadCoded(c, bits, out) == goal && Unreserved(c, bits)
  }

  // A symbol that is not a match, and what the block means after it.
  lemma TrackSymbol(c: Codes, bits: seq<bool>, out: seq<byte>, goal: Read<seq<byte>>, sure: bool, sym: nat, rest: seq<bool>)
    requires |c.litLen| == 288 && |c.dist| == 32 && OnTrack(c, bits, out, goal, sure)
    requires sure ==> ReadSymbol(c.litLen, bits) == Got(sym, rest)
    ensures sym < 256 ==> OnTrack(c, rest, out + [sym as byte], goal, sure)
    ensures sym == 256 && sure ==> goal == Got(out, rest)
  {
    hide ReadSymbol, ReadMatch, ReadFields, Apply, Expand;
    if sure {
      if sym == 256 {
        NothingExpands(out);
      } else if sym < 256 {
        LiteralApplies(out, sym);
        match ReadTokens(c, rest) {
          case Bad =>
          case Got(ts, _) => ExpandFront(out, Literal(sym), ts);
        }
      }
    }
  }

  // A match, and what the block means after it.
  lemma TrackMatch(c: Codes, bits: seq<bool>, out: seq<byte>, goal: Read<seq<byte>>, sym: nat, rest: seq<bool>,
                   length: nat, dist: nat, rest': seq<bool>)
    requires |c.litLen| == 288 && |c.dist| == 32 && OnTrack(c, bits, out, goal, true)
    requires ReadSymbol(c.litLen, bits) == Got(sym, rest) && 257 <= sym < 288 && ReadFields(c, sym, rest) == Got((length, dist), rest')
    ensures 3 <= length && 1 <= dist <= LZ_DICT_SIZE
    ensures dist <= |out| ==> OnTrack(c, rest', CopyBack(out, length, dist), goal, true)
  {
    hide ReadSymbol, ReadFields, CopyBack, Expand;
    var m := ReadMatch(c, sym, rest);
    assert m.Got?;
    MatchIsFields(c, sym, rest);
    match ReadTokens(c, rest') {
      case Bad =>
      case Got(ts, _) => ExpandFront(out, m.value, ts);
    }
  }

  lemma LegalWhen(o: Output, dist: nat)
    requires o.Valid()
    ensures 1 <= dist <= |o.All()| && (!o.wraps || (o.Wide() && dist <= LZ_DICT_SIZE)) ==> o.Legal(dist)
  {}

  // A literal decoded: where the block stands then, or that there is no room for it.
  method PutLiteral(o: Output, sym: nat, ghost c: Codes, ghost bits: seq<bool>, ghost rest: seq<bool>,
                    ghost goal: Read<seq<byte>>, ghost valid: bool, ghost over: bool, ghost sure: bool) returns (ok: bool)
    requires o.Valid() && |c.litLen| == 288 && |c.dist| == 32 && sym < 256
    requires OnCourse(c, bits, o.All(), goal, o.Capacity(), valid, over) && OnTrack(c, bits, o.All(), goal, sure)
    requires valid || over || sure ==> ReadSymbol(c.litLen, bits) == Got(sym, rest)
    modifies o`pos, o`sent, o`left, o.buf
    ensures o.Valid() && o.Capacity() == old(o.Capacity())
    ensures ok ==> OnCourse(c, rest, o.All(), goal, o.Capacity(), valid, over) && |o.All()| > |old(o.All())|
    ensures ok ==> OnTrack(c, rest, o.All(), goal, sure)
    ensures ok && old(o.pos) < o.buf.Length ==> o.pos == old(o.pos) + 1
    ensures !ok ==> old(o.pos) == o.buf.Length && o.All() == old(o.All())
    ensures !ok ==> Ended(over, valid, goal, o.Capacity(), HasMoreOutput, o.All(), rest)
  {
    hide ReadSymbol, ReadCoded, OnCourse, OnTrack, Ended, Output.All, Output.Capacity;
    TrackSymbol(c, bits, o.All(), goal, sure, sym, rest);
    LiteralOnCourse(c, bits, o.All(), goal, o.Capacity(), valid, over, sym, rest);
    o.Within();
    ok := o.MakeRoom();
    if ok {
      o.Put(sym);
    }
  }

  // After a literal there is a symbol again.
  lemma SymbolAfter(c: Codes, bits: seq<bool>, out: seq<byte>, goal: Read<seq<byte>>, room: nat, valid: bool, over: bool,
                    sym: nat, rest: seq<bool>)
    requires |c.litLen| == 288 && |c.dist| == 32 && OnCourse(c, bits, out, goal, room, valid, over) && |out| < room && sym < 256
    requires valid || over ==> ReadSymbol(c.litLen, bits) == Got(sym, rest)
    ensures valid || over ==> ReadSymbol(c.litLen, rest).Got?
  {
    hide ReadSymbol, OnCourse;
    LiteralOnCourse(c, bits, out, goal, room, valid, over, sym, rest);
    SymbolThere(c, rest, out + [sym as byte], goal, room, valid, over);
  }

  // Two symbols from one refilled accumulator, the first stored after the second is decoded.
  method TwoSymbols(r: Reader, lookUp: array<int>, tree: array<int>, o: Output,
                    ghost words: seq<Path>, ghost at: map<Path, int>, ghost c: Codes,
                    ghost goal: Read<seq<byte>>, ghost valid: bool, ghost over: bool, ghost sure: bool)
    returns (counter: nat, ghost bits: seq<bool>)
    requires r.Valid() && o.Valid() && |c.litLen| == 288 && |c.dist| == 32
    requires lookUp.Length == FAST_SIZE && tree.Length == TREE_SIZE
    requires Decodes(words, at, lookUp[..], tree[..]) && Heads(words, c.litLen)
    requires OnCourse(c, r.Rest(), o.All(), goal, o.Capacity(), valid, over)
    requires OnTrack(c, r.Rest(), o.All(), goal, sure) && (sure ==> NoGap(c.litLen))
    requires r.pos + 4 <= |r.input| && o.pos + 2 <= o.buf.Length
    modifies r`pos, r`bitBuf, r`numBits, o`pos, o`sent, o`left, o.buf
    ensures r.Valid() && |r.Rest()| <= |old(r.Rest())|
    ensures o.Valid() && o.Capacity() == old(o.Capacity()) && |o.All()| >= |old(o.All())|
    ensures counter < |words| || counter == 0
    ensures counter >= 256 ==> OnCourse(c, bits, o.All(), goal, o.Capacity(), valid, over)
    ensures OnTrack(c, if counter >= 256 then bits else r.Rest(), o.All(), goal, sure)
    ensures counter >= 256 && (valid || over || sure) ==> ReadSymbol(c.litLen, bits) == Got(counter, r.Rest())
    ensures counter < 256 ==> OnCourse(c, r.Rest(), o.All(), goal, o.Capacity(), valid, over) && |o.All()| > |old(o.All())|
  {
    hide *;
    ghost var room := o.Capacity();
    bits := r.Rest();
    SymbolThere(c, bits, o.All(), goal, room, valid, over);
    if r.numBits < 30 {
      r.Refill();
    }
    counter := DecodeHeldSymbol(r, lookUp, tree, words, at, c.litLen);
    if counter >= 256 {
      return;
    }
    ghost var first, between := bits, r.Rest();
    o.Within();
    SymbolAfter(c, bits, o.All(), goal, room, valid, over, counter, between);
    var sym2 := DecodeHeldSymbol(r, lookUp, tree, words, at, c.litLen);
    var ok := PutLiteral(o, counter, c, first, between, goal, valid, over, sure);
    counter, bits := sym2, between;
    if counter < 256 {
      ok := PutLiteral(o, counter, c, between, r.Rest(), goal, valid, over, sure);
    }
  }

  // Literals up to the next other symbol: two symbols a turn while four bytes of input and room for two of
  // output are left, and one otherwise.
  method InflateLiterals(r: Reader, lookUp: array<int>, tree: array<int>, o: Output,
                         ghost words: seq<Path>, ghost at: map<Path, int>, ghost c: Codes,
                         ghost goal: Read<seq<byte>>, ghost valid: bool, ghost over: bool, ghost sure: bool)
    returns (status: Status, counter: nat, ghost bits: seq<bool>)
    requires r.Valid() && o.Valid() && |c.litLen| == 288 && |c.dist| == 32
    requires lookUp.Length == FAST_SIZE && tree.Length == TREE_SIZE
    requires Decodes(words, at, lookUp[..], tree[..]) && Heads(words, c.litLen)
    requires OnCourse(c, r.Rest(), o.All(), goal, o.Capacity(), valid, over)
    requires OnTrack(c, r.Rest(), o.All(), goal, sure) && (sure ==> NoGap(c.litLen))
    modifies r`pos, r`bitBuf, r`numBits, o`pos, o`sent, o`left, o.buf
    ensures r.Valid() && |r.Rest()| <= |old(r.Rest())|
    ensures o.Valid() && o.Capacity() == old(o.Capacity()) && |o.All()| >= |old(o.All())|
    ensures status == Fine || status == NeedsMoreInput || status == HasMoreOutput
    ensures status == Fine ==> 256 <= counter < |words| && OnCourse(c, bits, o.All(), goal, o.Capacity(), valid, over)
    ensures status == Fine && (valid || over || sure) ==> ReadSymbol(c.litLen, bits) == Got(counter, r.Rest())
    ensures status == Fine ==> OnTrack(c, bits, o.All(), goal, sure)
    ensures status != Fine ==> Ended(over, valid, goal, o.Capacity(), status, o.All(), r.Rest())
  {
    hide *;
    ghost var room, rest0, size0 := o.Capacity(), r.Rest(), |o.All()|;
    o.Within();
    while true
      invariant r.Valid() && |r.Rest()| <= |rest0| && o.Valid() && o.Capacity() == room >= |o.All()| >= size0
      invariant OnCourse(c, r.Rest(), o.All(), goal, room, valid, over) && OnTrack(c, r.Rest(), o.All(), goal, sure)
      decreases room - |o.All()|
    {
      bits := r.Rest();
      if |r.input| - r.pos < 4 || o.buf.Length - o.pos < 2 {
        SymbolThere(c, bits, o.All(), goal, room, valid, over);
        var ok;
        ok, counter := DecodeSymbol(r, lookUp, tree, words, at, c.litLen);
        if !ok {
          NothingMeant(goal, room, NeedsMoreInput, o.All(), r.Rest());
          return NeedsMoreInput, counter, bits;
        }
        if counter >= 256 {
          return Fine, counter, bits;
        }
        ok := PutLiteral(o, counter, c, bits, r.Rest(), goal, valid, over, sure);
        if !ok {
          return HasMoreOutput, counter, bits;
        }
      } else {
        counter, bits := TwoSymbols(r, lookUp, tree, o, words, at, c, goal, valid, over, sure);
        if counter >= 256 {
          return Fine, counter, bits;
        }
      }
      o.Within();
    }
  }

  // Neither code has gaps, and no symbol is read that stands for nothing.
  ghost predicate Whole(c: Codes, bits: seq<bool>)
    requires |c.litLen| == 288 && |c.dist| == 32
  {
    NoGap(c.litLen) && NoGap(c.dist) && Unreserved(c, bits)
  }

  lemma TrackSet(c: Codes, bits: seq<bool>, out: seq<byte>, sure: bool)
    requires |c.litLen| == 288 && |c.dist| == 32 && (sure ==> Whole(c, bits))
    ensures OnTrack(c, bits, out, ReadCoded(c, bits, out), sure) && (sure ==> NoGap(c.litLen) && NoGap(c.dist))
  {
    hide NoGap, ReadCoded, Unreserved;
  }

  // The symbols of one block, up to its end.
  method InflateCoded(r: Reader, lookUp0: array<int>, tree0: array<int>, lookUp1: array<int>, tree1: array<int>,
                      o: Output, ghost words0: seq<Path>, ghost at0: map<Path, int>,
                      ghost words1: seq<Path>, ghost at1: map<Path, int>, ghost c: Codes)
    returns (status: Status)
    requires r.Valid() && o.Valid() && |c.litLen| == 288 && |c.dist| == 32
    requires lookUp0.Length == lookUp1.Length == FAST_SIZE && tree0.Length == tree1.Length == TREE_SIZE
    requires Decodes(words0, at0, lookUp0[..], tree0[..]) && Heads(words0, c.litLen)
    requires Decodes(words1, at1, lookUp1[..], tree1[..]) && Heads(words1, c.dist)
    modifies r`pos, r`bitBuf, r`numBits, o`pos, o`sent, o`left, o.buf
    ensures r.Valid() && |r.Rest()| <= |old(r.Rest())|
    ensures o.Valid() && o.Capacity() == old(o.Capacity()) && Midway(status)
    ensures Ended(!o.wraps && RunsOver(c, old(r.Rest()), old(o.All()), o.Capacity()), o.Wide(),
                  ReadCoded(c, old(r.Rest()), old(o.All())), o.Capacity(), status, o.All(), r.Rest())
    ensures status == Fine && !o.wraps && Whole(c, old(r.Rest())) ==> ReadCoded(c, old(r.Rest()), old(o.All())) == Got(o.All(), r.Rest())
    ensures status == Overrun ==> |words0| > 286
  {
    hide *;
    ghost var goal, bits0, room := ReadCoded(c, r.Rest(), o.All()), r.Rest(), o.Capacity();
    ghost var valid, over := goal.Got? && o.Wide(), !o.wraps && RunsOver(c, r.Rest(), o.All(), room);
    ghost var sure := !o.wraps && Whole(c, r.Rest());
    TrackSet(c, r.Rest(), o.All(), sure);
    o.Within();
    AllMidway();
    CourseSet(c, r.Rest(), o.All(), goal, room, o.Wide(), over);
    FewWords32(words0, c.litLen);
    while true
      invariant r.Valid() && |r.Rest()| <= |bits0| && o.Valid() && o.Capacity() == room >= |o.All()|
      invariant OnCourse(c, r.Rest(), o.All(), goal, room, valid, over) && OnTrack(c, r.Rest(), o.All(), goal, sure)
      decreases room - |o.All()|
    {
      var counter;
      ghost var bits;
      status, counter, bits := InflateLiterals(r, lookUp0, tree0, o, words0, at0, c, goal, valid, over, sure);
      if status != Fine {
        return;
      }
      if counter == 256 {
        LiteralOnCourse(c, bits, o.All(), goal, room, valid, over, counter, r.Rest());
        TrackSymbol(c, bits, o.All(), goal, sure, counter, r.Rest());
        return Fine;
      }
      status := InflateMatchAt(r, counter, lookUp1, tree1, o, words1, at1, c, bits, goal, valid, over, sure);
      if status != Fine {
        return;
      }
      o.Within();
    }
  }
}
