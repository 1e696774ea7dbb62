/** The lazy parser: turns the lookahead into literals and matches, holding back one match at a time
    to see whether the next position has a longer one. */
module Parser {
  import opened Wrappers
  import opened Arith
  import opened Lz77
  import opened TokenBuffer
  import opened HashChains
  import opened MatchSearch
  import opened Dictionary

  const LAZY_LIMIT := 128

  // The compressor's parsing flags.
  datatype Flags = Flags(greedy: bool, rle: bool, filter: bool, raw: bool)

  // A match, or none if the length is zero, with the literal that stands for it if it is given up.
  datatype Held = Held(len: nat, dist: nat, lit: byte)

  // What one turn records: a match held back is recorded unless the one found now is longer; one found now is
  // recorded if it is long enough or nothing may be held back.
  function Recorded(held: Held, eager: bool, dist: nat, len: nat, current: byte): seq<Token> {
    if held.len > 0 then
      if len <= held.len then [Match(held.len, held.dist)]
      else [Literal(held.lit)] + if len >= LAZY_LIMIT then [Match(len, dist)] else []
    else if dist == 0 then [Literal(current)]
    else if eager || len >= LAZY_LIMIT then [Match(len, dist)]
    else []
  }

  // Whether the match found now is held back.
  predicate HoldsBack(held: Held, eager: bool, dist: nat, len: nat) {
    len < LAZY_LIMIT && if held.len > 0 then len > held.len else dist > 0 && !eager
  }

  // The tokens stand for the first p bytes, but for the one byte that a held-back match covers; that
  // match is real, and all its bytes are there.
  ghost predicate Parsed(data: seq<byte>, p: int, tokens: seq<Token>, savedLen: nat, savedDist: nat, savedLit: byte) {
    && 0 <= p <= |data| && AllEncodable(tokens)
    && if savedLen == 0 then Expand([], tokens) == Some(data[..p])
       else
         && MIN_MATCH_LEN <= savedLen < LAZY_LIMIT && savedDist <= LZ_DICT_SIZE
         && 1 <= p && savedLit == data[p - 1] && Repeats(data, p - 1, savedLen, savedDist)
         && Expand([], tokens) == Some(data[..p - 1])
  }

  // What the flags have the dictionary asked for: nothing, a run, or a match longer than the one held back.
  ghost predicate Answers(flags: Flags, q: Quest, probes: nat, found: (nat, nat), dists: seq<nat>)
    requires q.Possible()
  {
    if flags.raw || (flags.rle && q.maxDist == 0) then found == (0, q.len0)
    else if flags.rle then
      var run := Agreement(q.data, q.pos, 1, q.cap);
      found == if run < MIN_MATCH_LEN then (0, 0) else (1, run)
    else q.BestOf(dists, found.0, found.1) && q.Over(dists, found.1, probes)
  }

  // A short match from far away is not worth taking, one that reaches back as far as the place is not taken,
  // and with the filter none of five bytes or less.
  ghost predicate Refused(flags: Flags, lookaheadPos: nat, found: (nat, nat)) {
    (found.1 == MIN_MATCH_LEN && found.0 >= 8 * 1024) || PlaceAt(lookaheadPos, 0) == found.0 || (flags.filter && found.1 <= 5)
  }

  // What is left of the answer.
  ghost function Accepted(flags: Flags, lookaheadPos: nat, found: (nat, nat)): (nat, nat) {
    if Refused(flags, lookaheadPos, found) then (0, 0) else found
  }

  // What was asked at one position, what the answer was, and what was left of it.
  datatype Choice = Choice(q: Quest, probes: nat, found: (nat, nat), dists: seq<nat>, dist: nat, len: nat) {
    ghost predicate Right(flags: Flags) {
      && q.Possible() && Answers(flags, q, probes, found, dists)
      && (dist, len) == Accepted(flags, q.lookaheadPos, found)
    }
  }

  lemma LiteralParsed(data: seq<byte>, p: int, tokens: seq<Token>, lit: byte)
    requires 0 <= p < |data| && AllEncodable(tokens) && Expand([], tokens) == Some(data[..p]) && lit == data[p]
    ensures AllEncodable(tokens + [Literal(lit)])
    ensures Expand([], tokens + [Literal(lit)]) == Some(data[..p + 1])
  {
    ExpandSnoc([], tokens, Literal(lit));
    assert data[..p] + [lit] == data[..p + 1];
  }

  lemma MatchParsed(data: seq<byte>, p: int, tokens: seq<Token>, len: nat, dist: nat)
    requires 0 <= p <= |data| && AllEncodable(tokens) && Expand([], tokens) == Some(data[..p])
    requires Encodable(Match(len, dist)) && Repeats(data, p, len, dist)
    ensures AllEncodable(tokens + [Match(len, dist)])
    ensures Expand([], tokens + [Match(len, dist)]) == Some(data[..p + len])
  {
    ExpandSnoc([], tokens, Match(len, dist));
    CopyMatches(data, p, len, dist);
  }

  lemma MoreData(data: seq<byte>, more: seq<byte>, p: int, tokens: seq<Token>, savedLen: nat, savedDist: nat, savedLit: byte)
    requires Parsed(data, p, tokens, savedLen, savedDist, savedLit)
    ensures Parsed(data + more, p, tokens, savedLen, savedDist, savedLit)
  {
    hide Expand;
    assert (data + more)[..p] == data[..p];
    assert p > 0 ==> (data + more)[..p - 1] == data[..p - 1];
  }

  // The bytes of a held-back match are there.
  lemma SavedFits(data: seq<byte>, p: int, len: nat, dist: nat)
    requires Repeats(data, p - 1, len, dist)
    ensures 1 <= dist && p + (len - 1) <= |data|
  {}

  lemma TokensAssoc(s: seq<Token>, t: seq<Token>, x: Token)
    ensures s + (t + [x]) == s + t + [x]
  {}

  class Parser {
    const window: Window
    const buffer: Buffer
    const flags: Flags
    var savedMatchDist: nat
    var savedMatchLen: nat
    var savedLit: byte
    // The tokens of the blocks already flushed.
    ghost var flushed: seq<Token>

    ghost function Frame(): set<object> {
      {this, window, window.dict, window.next, window.hash, buffer, buffer.buf, buffer.litLen, buffer.dist}
    }

    ghost predicate Apart() {
      window.dict != buffer.buf
    }

    // All tokens so far.
    ghost function Tokens(): seq<Token>
      reads this, buffer
    {
      flushed + buffer.tokens
    }

    ghost predicate Sound()
      reads this, window, buffer
    {
      Parsed(window.data, window.Pos(), Tokens(), savedMatchLen, savedMatchDist, savedLit)
    }

    ghost predicate Valid()
      reads Frame()
    {
      Apart() && window.Valid() && buffer.Valid() && Sound()
    }

    constructor (flags: Flags, probes: (nat, nat))
      requires probes.0 >= 1 && probes.1 >= 1
      ensures Valid() && fresh(Frame()) && window.data == [] && flushed == [] && buffer.tokens == []
      ensures this.flags == flags && buffer.codePos == 1
    {
      hide Chained, Dictionary.Holds, TokenBuffer.Holds, Counted;
      this.flags := flags;
      window := new Window(probes);
      buffer := new Buffer();
      savedMatchDist, savedMatchLen, savedLit := 0, 0, 0;
      flushed := [];
    }

    // The length a candidate must beat.
    function Base(): nat
      reads `savedMatchLen
    {
      if savedMatchLen > 0 then savedMatchLen else MIN_MATCH_LEN - 1
    }

    // The match held back.
    ghost function Saved(): Held
      reads this
    {
      Held(savedMatchLen, savedMatchDist, savedLit)
    }

    // A match that may be taken at the current position.
    ghost predicate Candidate(dist: nat, len: nat)
      reads this, window
    {
      if dist == 0 then len <= Base()
      else
        && MIN_MATCH_LEN <= len <= window.lookaheadSize <= MAX_MATCH_LEN && dist <= LZ_DICT_SIZE
        && Repeats(window.data, window.Pos(), len, dist)
    }

    method FindCandidate() returns (dist: nat, len: nat, ghost found: (nat, nat), ghost dists: seq<nat>)
      requires Valid() && window.lookaheadSize > 0
      ensures Candidate(dist, len)
      ensures Answers(flags, window.Asked(0, Base()), window.Probes(Base()), found, dists)
      ensures (dist, len) == Accepted(flags, window.lookaheadPos, found)
      ensures dist > 0 ==> (flags.rle || len > Base()) && (len > MIN_MATCH_LEN || dist < 8 * 1024)
      ensures dist > 0 ==> !flags.raw && (flags.rle ==> dist == 1) && (flags.filter ==> len > 5)
    {
      hide Repeats, buffer.Valid, Followed, Near, Found, Ends, Dictionary.Holds, Chained, PlaceAt, Agreement;
      dist, len, dists := 0, Base(), [];
      if flags.rle || flags.raw {
        if window.dictSize > 0 && !flags.raw {
          dist, len := window.FindRun();
        }
      } else {
        dist, len, dists := window.FindMatch(window.dictSize, window.lookaheadSize, dist, len);
        RepeatsDist(dist, len);
      }
      found := (dist, len);
      var curPos := PlaceAt(window.lookaheadPos, 0);
      if (len == MIN_MATCH_LEN && dist >= 8 * 1024) || curPos == dist || (flags.filter && len <= 5) {
        dist, len := 0, 0;
      }
    }

    lemma RepeatsDist(dist: nat, len: nat)
      ensures Repeats(window.data, window.Pos(), len, dist) ==> dist >= 1
    {}

    // Records a literal for the byte after what the tokens stand for.
    method TakeLiteral(lit: byte, ghost p: int)
      requires Apart() && window.Valid() && buffer.Valid() && buffer.codePos + 2 <= LZ_CODE_BUF_SIZE
      requires 0 <= p < |window.data| && AllEncodable(Tokens()) && Expand([], Tokens()) == Some(window.data[..p])
      requires lit == window.data[p]
      modifies buffer, buffer.buf, buffer.litLen
      ensures window.Valid() && buffer.Valid() && buffer.codePos <= old(buffer.codePos) + 2
      ensures buffer.tokens == old(buffer.tokens) + [Literal(lit)]
      ensures AllEncodable(Tokens()) && Expand([], Tokens()) == Some(window.data[..p + 1])
    {
      hide buffer.Valid, Expand;
      LiteralParsed(window.data, p, Tokens(), lit);
      TokensAssoc(flushed, buffer.tokens, Literal(lit));
      buffer.RecordLiteral(lit);
    }

    method TakeMatch(len: nat, dist: nat, ghost p: int)
      requires Apart() && window.Valid() && buffer.Valid() && buffer.codePos + 4 <= LZ_CODE_BUF_SIZE
      requires 0 <= p <= |window.data| && AllEncodable(Tokens()) && Expand([], Tokens()) == Some(window.data[..p])
      requires Encodable(Match(len, dist)) && Repeats(window.data, p, len, dist)
      modifies buffer, buffer.buf, buffer.litLen, buffer.dist
      ensures window.Valid() && buffer.Valid() && buffer.codePos <= old(buffer.codePos) + 4
      ensures buffer.tokens == old(buffer.tokens) + [Match(len, dist)]
      ensures AllEncodable(Tokens()) && Expand([], Tokens()) == Some(window.data[..p + len])
    {
      hide buffer.Valid, Expand;
      MatchParsed(window.data, p, Tokens(), len, dist);
      TokensAssoc(flushed, buffer.tokens, Match(len, dist));
      buffer.RecordMatch(len, dist);
    }

    // Holds back a match found at the current position.
    method Hold(dist: nat, len: nat)
      requires window.Valid() && window.lookaheadSize > 0
      modifies `savedLit, `savedMatchDist, `savedMatchLen
      ensures savedLit == window.data[window.Pos()] && savedMatchDist == dist && savedMatchLen == len
    {
      savedLit := window.Current();
      savedMatchDist, savedMatchLen := dist, len;
    }

    // The state that a move of n bytes will make sound.
    ghost predicate Ready(n: nat)
      reads this, window, buffer
    {
      && 1 <= n <= window.lookaheadSize
      && Parsed(window.data, window.Pos() + n, Tokens(), savedMatchLen, savedMatchDist, savedLit)
    }

    // A match is held back, and the current position has a longer one or not.
    method DecideSaved(dist: nat, len: nat) returns (lenToMove: nat)
      requires Valid() && Candidate(dist, len) && savedMatchLen > 0 && window.lookaheadSize > 0
      requires buffer.codePos + 6 <= LZ_CODE_BUF_SIZE
      modifies `savedLit, `savedMatchDist, `savedMatchLen, buffer, buffer.buf, buffer.litLen, buffer.dist
      ensures window.Valid() && buffer.Valid() && Ready(lenToMove)
      ensures buffer.codePos <= old(buffer.codePos) + 6
      ensures buffer.tokens == old(buffer.tokens) + Recorded(old(Saved()), flags.greedy || flags.rle, dist, len, window.data[window.Pos()])
      ensures if HoldsBack(old(Saved()), flags.greedy || flags.rle, dist, len)
        then Saved() == Held(len, dist, window.data[window.Pos()]) else savedMatchLen == 0
    {
      hide buffer.Valid, window.Valid, Expand, Repeats;
      ghost var p := window.Pos();
      SavedFits(window.data, p, savedMatchLen, savedMatchDist);
      lenToMove := 1;
      if len > savedMatchLen {
        RepeatsDist(dist, len);
        TakeLiteral(savedLit, p - 1);
        if len >= LAZY_LIMIT {
          TakeMatch(len, dist, p);
          savedMatchLen := 0;
          lenToMove := len;
        } else {
          Hold(dist, len);
        }
      } else {
        TakeMatch(savedMatchLen, savedMatchDist, p - 1);
        lenToMove := savedMatchLen - 1;
        savedMatchLen := 0;
      }
    }

    // Nothing is held back.
    method DecideFresh(dist: nat, len: nat) returns (lenToMove: nat)
      requires Valid() && Candidate(dist, len) && savedMatchLen == 0 && window.lookaheadSize > 0
      requires buffer.codePos + 6 <= LZ_CODE_BUF_SIZE
      modifies `savedLit, `savedMatchDist, `savedMatchLen, buffer, buffer.buf, buffer.litLen, buffer.dist
      ensures window.Valid() && buffer.Valid() && Ready(lenToMove)
      ensures buffer.codePos <= old(buffer.codePos) + 6
      ensures buffer.tokens == old(buffer.tokens) + Recorded(old(Saved()), flags.greedy || flags.rle, dist, len, window.data[window.Pos()])
      ensures if HoldsBack(old(Saved()), flags.greedy || flags.rle, dist, len)
        then Saved() == Held(len, dist, window.data[window.Pos()]) else savedMatchLen == 0
    {
      hide buffer.Valid, window.Valid, Expand, Repeats;
      ghost var p := window.Pos();
      lenToMove := 1;
      if dist == 0 {
        var c := window.Current();
        TakeLiteral(c, p);
      } else {
        RepeatsDist(dist, len);
        if flags.greedy || flags.rle || len >= LAZY_LIMIT {
          TakeMatch(len, dist, p);
          lenToMove := len;
        } else {
          Hold(dist, len);
        }
      }
    }

    method Decide(dist: nat, len: nat) returns (lenToMove: nat)
      requires Valid() && Candidate(dist, len) && window.lookaheadSize > 0 && buffer.codePos + 6 <= LZ_CODE_BUF_SIZE
      modifies `savedLit, `savedMatchDist, `savedMatchLen, buffer, buffer.buf, buffer.litLen, buffer.dist
      ensures window.Valid() && buffer.Valid() && Ready(lenToMove)
      ensures buffer.codePos <= old(buffer.codePos) + 6
      ensures buffer.tokens == old(buffer.tokens) + Recorded(old(Saved()), flags.greedy || flags.rle, dist, len, window.data[window.Pos()])
      ensures if HoldsBack(old(Saved()), flags.greedy || flags.rle, dist, len)
        then Saved() == Held(len, dist, window.data[window.Pos()]) else savedMatchLen == 0
    {
      hide buffer.Valid, window.Valid, Parsed, Recorded, HoldsBack, Candidate;
      if savedMatchLen > 0 {
        lenToMove := DecideSaved(dist, len);
      } else {
        lenToMove := DecideFresh(dist, len);
      }
    }

    // One turn of the parser: what is recorded or held back at the current position, and the move
    // past it.
    method Step() returns (ghost seen: Choice)
      requires Valid() && window.lookaheadSize > 0 && buffer.codePos + 6 <= LZ_CODE_BUF_SIZE
      modifies Frame()
      ensures Valid() && window.data == old(window.data) && window.base == old(window.base) && flushed == old(flushed)
      ensures buffer.codePos <= old(buffer.codePos) + 6
      ensures window.Pos() > old(window.Pos())
      ensures seen.Right(flags) && seen.q == old(window.Asked(0, Base())) && seen.probes == old(window.Probes(Base()))
      ensures window.next[..] == old(window.next[..])
      ensures var current := window.data[old(window.Pos())];
        && buffer.tokens == old(buffer.tokens) + Recorded(old(Saved()), flags.greedy || flags.rle, seen.dist, seen.len, current)
        && if HoldsBack(old(Saved()), flags.greedy || flags.rle, seen.dist, seen.len) then Saved() == Held(seen.len, seen.dist, current)
           else savedMatchLen == 0
    {
      hide buffer.Valid, window.Valid, Parsed, Recorded, HoldsBack, Answers, Accepted, Candidate;
      var dist: nat, len: nat;
      ghost var found, dists;
      dist, len, found, dists := FindCandidate();
      seen := Choice(window.Asked(0, Base()), window.Probes(Base()), found, dists, dist, len);
      var lenToMove := Decide(dist, len);
      window.Advance(lenToMove);
    }

    // The open block's tokens are flushed; the next block starts empty.
    method BlockDone()
      requires Apart() && window.Valid() && Sound() && buffer.Shaped()
      modifies `flushed, buffer, buffer.litLen, buffer.dist
      ensures Valid() && flushed == old(Tokens()) && buffer.tokens == [] && buffer.codePos == 1
    {
      hide window.Valid, buffer.Valid, Parsed;
      flushed := flushed + buffer.tokens;
      buffer.Reset();
      assert flushed + [] == flushed;
    }

    // Takes bytes into the lookahead.
    method Refill(src: seq<byte>, srcPos: nat) returns (srcPos': nat)
      requires Valid() && srcPos <= |src|
      modifies window, window.dict, window.next, window.hash
      ensures Valid() && srcPos' == srcPos + old(window.Room(|src| - srcPos))
      ensures window.data == old(window.data) + src[srcPos..srcPos'] && window.Pos() == old(window.Pos())
      ensures window.base == old(window.base) && window.dictSize == Min(LZ_DICT_SIZE - window.lookaheadSize, old(window.dictSize))
      ensures window.lookaheadPos == old(window.lookaheadPos)
      ensures window.lookaheadSize == old(window.lookaheadSize) + (srcPos' - srcPos)
    {
      hide window.Valid, buffer.Valid, Parsed;
      ghost var data := window.data;
      srcPos' := window.Refill(src, srcPos);
      MoreData(data, src[srcPos..srcPos'], window.Pos(), Tokens(), savedMatchLen, savedMatchDist, savedLit);
    }
  }
}
