/** The whole compressor: bytes go in through any number of calls, blocks come out as the token buffer
    fills, and what has been sent always stands for what the blocks so far have covered. */
module Deflate {
  import opened Wrappers
  import opened Sums
  import opened Arith
  import opened Bits
  import opened Lz77
  import opened TokenBuffer
  import opened Dictionary
  import opened MatchSearch
  import opened Parser
  import opened BitOutput
  import opened BlockCodec
  import opened LzCodes
  import opened Inflate
  import opened BlockOutput

  datatype Flush = NoFlush | SyncFlush | FullFlush | Finish

  lemma {:induction false} ExpandLength(out: seq<byte>, ts: seq<Token>)
    ensures Expand(out, ts).Some? ==> |Expand(out, ts).value| == |out| + ByteCount(ts)
    decreases |ts|
  {
    if ts != [] {
      ExpandLength(out, ts[..|ts| - 1]);
    }
  }

  lemma {:induction false} ByteCountBound(ts: seq<Token>)
    requires AllEncodable(ts)
    ensures ByteCount(ts) <= 258 * |ts|
  {
    if ts != [] {
      ByteCountBound(ts[..|ts| - 1]);
    }
  }

  // The tokens of the open block take the output from where the flushed blocks end to where the
  // parser stands.
  lemma OpenBlock(data: seq<byte>, p: int, flushed: seq<Token>, ts: seq<Token>, start: nat, savedLen: nat, savedDist: nat, savedLit: byte)
    requires Parsed(data, p, flushed + ts, savedLen, savedDist, savedLit)
    requires start <= |data| && Expand([], flushed) == Some(data[..start])
    ensures AllEncodable(ts) && start + ByteCount(ts) <= p
    ensures savedLen == 0 ==> start + ByteCount(ts) == p
    ensures data[..start + ByteCount(ts)] == data[..start] + data[start..start + ByteCount(ts)]
    ensures Expand(data[..start], ts) == Some(data[..start + ByteCount(ts)])
    ensures Expand([], flushed + ts) == Some(data[..start + ByteCount(ts)])
  {
    hide Expand, Repeats;
    ExpandConcat([], flushed, ts);
    ExpandLength(data[..start], ts);
    assert forall i :: 0 <= i < |ts| ==> ts[i] == (flushed + ts)[|flushed| + i];
    var e := start + ByteCount(ts);
    assert data[..e] == data[..start] + data[start..e];
  }

  lemma SavedNear(data: seq<byte>, p: int, flushed: seq<Token>, ts: seq<Token>, start: nat, savedLen: nat, savedDist: nat, savedLit: byte)
    requires Parsed(data, p, flushed + ts, savedLen, savedDist, savedLit) && start <= |data|
    requires Expand([], flushed) == Some(data[..start])
    ensures p <= start + ByteCount(ts) + 1
  {
    hide Repeats;
    ExpandConcat([], flushed, ts);
    ExpandLength(data[..start], ts);
  }

  // The marker of a flush that does not end the stream: an empty stored block.
  lemma MarkerBlock(at: nat, out: seq<byte>)
    ensures BlockFor(LsbBits(0, 3) + (LsbBits(0, Padding(at + 3)) + (LsbBits(0, 16) + LsbBits(0xFFFF, 16))), at, out, out, false)
  {
    hide LsbBits, BlockFor, BodyFor;
    StoredReads(at + 3, [], out);
    assert out + [] == out;
    BlockOfBody(false, 0, StoredBits(at + 3, []), at, out, out);
    ThreeZeros();
    var a, b, c := LsbBits(0, Padding(at + 3)), LsbBits(0, 16), LsbBits(0xFFFF, 16);
    assert StoredBits(at + 3, []) == a + (b + c);
    assert Mark(false) + (LsbBits(0, 2) + (a + (b + c))) == LsbBits(0, 1) + LsbBits(0, 2) + (a + (b + c));
  }

  // A block of these tokens is to be flushed: its buffer is nearly full, or it is long and not getting smaller.
  ghost predicate Due(ts: seq<Token>, raw: bool)
    requires AllEncodable(ts)
  {
    CodePos(ts) > LZ_CODE_BUF_SIZE - 8 || (ByteCount(ts) > 31 * 1024 && (CodePos(ts) * 115 / 128 >= ByteCount(ts) || raw))
  }

  // The right choice at position p, once n bytes have been taken into the lookahead.
  ghost predicate Looked(seen: Choice, flags: Flags, p: int, lookaheadPos: nat, n: int, lookaheadSize: nat, dictSize: nat,
                         next: seq<uint16>, data: seq<byte>, base: nat, probes: nat) {
    var cap := lookaheadSize + n;
    && seen.Right(flags) && seen.probes == probes && 0 <= cap <= LZ_DICT_SIZE
    && p >= 0 && seen.q == Quest(next, lookaheadPos, Min(LZ_DICT_SIZE - cap, dictSize), data, p, cap, 0, base)
  }

  lemma NothingSent(e: seq<bool>)
    ensures BytesBits([]) + e == e
  {}

  lemma NextPos(kept: nat, p: nat, n: nat)
    requires kept == p % 0x1_0000_0000
    ensures (kept + n) % 0x1_0000_0000 == (p + n) % 0x1_0000_0000
  {}

  lemma NoBitsLeft(e: seq<bool>, bytes: seq<bool>, rest: seq<bool>, all: seq<bool>)
    requires e == bytes + rest && |e| % 8 == 0 && |bytes| % 8 == 0 && |rest| < 8
    ensures rest == [] && all + rest == all
  {}

  // The stream and the bits still in the writer end at the same place in a byte.
  lemma BodyPhase(at: nat, n: nat, sent: nat)
    requires at == 8 * sent + n
    ensures at % 8 == n % 8 && (at + 3) % 8 == (n + 1 + 2) % 8
  {}

  lemma ThreeZeros()
    ensures LsbBits(0, 3) == LsbBits(0, 1) + LsbBits(0, 2) && BytesBits([]) == []
  {}

  // What a flush short of the end adds to the last block: nothing, or the marker.
  method PutMarker(w: Writer, flush: Flush, ghost s: seq<bool>, ghost out: seq<byte>) returns (ghost tail: seq<bool>)
    requires w.Valid() && flush != Finish && Carrying(s, out) && |s| % 8 == |w.emitted| % 8
    modifies w`pos, w`bitBuffer, w`bitsIn, w`emitted, w.buf
    ensures w.Valid() && w.emitted == old(w.emitted) + tail && Carrying(s + tail, out)
    ensures |tail| <= 42 && if flush == NoFlush then tail == [] else |w.emitted| % 8 == 0
  {
    hide w.Valid, LsbBits, BlockFor, Carrying, Pow2, Padding;
    ghost var e := w.emitted;
    tail := [];
    assert s + tail == s && e + tail == e;
    if flush != NoFlush {
      MarkerPowers();
      SamePhase(|e|, |s|, 3);
      SamePadding(|e| + 3, |s| + 3);
      w.PutBits(0, 3);
      w.Align();
      w.PutBits(0, 16);
      w.PutBits(0xFFFF, 16);
      tail := LsbBits(0, 3) + (LsbBits(0, Padding(|s| + 3)) + (LsbBits(0, 16) + LsbBits(0xFFFF, 16)));
      MarkerAligned(|e|);
      FourTail(e, LsbBits(0, 3), LsbBits(0, Padding(|s| + 3)), LsbBits(0, 16), LsbBits(0xFFFF, 16));
      MarkerBlock(|s|, out);
      StreamGrows(s, tail, out, out);
    }
  }

  lemma MarkerAligned(n: nat)
    ensures (n + 3 + Padding(n + 3) + 16 + 16) % 8 == 0
  {}

  lemma MarkerPowers()
    ensures Pow2(3) == 8 && Pow2(16) == 0x1_0000
  {
    Pow2Table();
  }

  lemma FourTail(e: seq<bool>, p: seq<bool>, q: seq<bool>, r: seq<bool>, s: seq<bool>)
    ensures e + p + q + r + s == e + (p + (q + (r + s)))
  {}

  class Compressor {
    const parser: Parser
    const w: Writer
    const forceStatic: bool
    var blockDictPos: nat
    var finished: bool
    // The bytes sent so far, and how many bytes of input their blocks cover.
    var sent: seq<byte>
    ghost var start: nat

    ghost function Frame(): set<object> {
      parser.Frame() + {this, w, w.buf}
    }

    ghost predicate Apart() {
      parser.buffer.buf != w.buf && parser.window.dict != w.buf
    }

    // Every bit of the stream so far.
    ghost function Stream(): seq<bool>
      reads this, w
    {
      BytesBits(sent) + w.emitted
    }

    // Where the flushed blocks end.
    ghost predicate Covered()
      reads `start, `blockDictPos, parser, parser.window
    {
      && start <= |parser.window.data| && blockDictPos == start % 0x1_0000_0000
      && Expand([], parser.flushed) == Some(parser.window.data[..start])
    }

    ghost predicate Valid()
      reads Frame()
    {
      && Apart() && parser.Valid() && w.Valid() && w.end + 16 == OUT_BUF_SIZE
      && w.pos == 0 && |w.emitted| < 8
      && parser.buffer.codePos <= LZ_CODE_BUF_SIZE - 8
      && Covered()
      && (if finished then Finished(BytesBits(sent), parser.window.data)
          else Carrying(Stream(), parser.window.data[..start]))
    }

    constructor (flags: Flags, probes: (nat, nat), forceStatic: bool)
      requires probes.0 >= 1 && probes.1 >= 1
      ensures Valid() && fresh(Frame()) && !finished && parser.window.data == []
      ensures this.forceStatic == forceStatic
    {
      hide Carrying, Finished, BytesBits, Parsed, Carried, TokenBuffer.Holds, Dictionary.Holds, TokenBuffer.Counted;
      this.forceStatic := forceStatic;
      parser := new Parser(flags, probes);
      w := new Writer(OUT_BUF_SIZE);
      blockDictPos, finished, start, sent := 0, false, 0, [];
      new;
      EmptyStream();
      NothingSent(w.emitted);
    }

    // Everything but the room left in the token buffer.
    ghost predicate Running()
      reads Frame()
    {
      && Apart() && parser.Valid() && w.Valid() && w.end + 16 == OUT_BUF_SIZE
      && w.pos == 0 && |w.emitted| < 8 && Covered()
      && !finished && Carrying(Stream(), parser.window.data[..start])
    }

    // How many bytes the open block stands for.
    ghost function Total(): nat
      reads this, parser, parser.buffer
    {
      ByteCount(parser.buffer.tokens)
    }

    lemma BlockReady(all: bool)
      requires Running() && (all ==> parser.window.lookaheadSize == 0 && parser.savedMatchLen == 0)
      ensures var data, ts := parser.window.data, parser.buffer.tokens;
        && AllEncodable(ts) && |ts| <= 60000 && parser.buffer.totalLzBytes == Total() && parser.buffer.Shaped()
        && start + Total() <= parser.window.Pos() < start + 0x1_0000_0000 && parser.window.Pos() <= |data|
        && Expand(data[..start], ts) == Some(data[..start + Total()])
        && data[..start + Total()] == data[..start] + data[start..start + Total()]
        && Expand([], parser.Tokens()) == Some(data[..start + Total()])
        && (all ==> start + Total() == |data| && data[..start + Total()] == data)
    {
      hide w.Valid, Carrying, Expand;
      var b, data := parser.buffer, parser.window.data;
      TokenBound(b.buf[..], b.codePos, b.flagsPos, b.numFlagsLeft, b.tokens);
      ByteCountBound(b.tokens);
      OpenBlock(data, parser.window.Pos(), parser.flushed, b.tokens, start, parser.savedMatchLen, parser.savedMatchDist, parser.savedLit);
      SavedNear(data, parser.window.Pos(), parser.flushed, b.tokens, start, parser.savedMatchLen, parser.savedMatchDist, parser.savedLit);
    }

    // Writes the open block, and what a flush adds to it; bits are all that was written.
    method WriteBlock(flush: Flush) returns (ghost bits: seq<bool>)
      requires Running() && (flush != NoFlush ==> parser.window.lookaheadSize == 0 && parser.savedMatchLen == 0)
      modifies parser.buffer.buf, parser.buffer`codePos, parser.buffer.litLen, w`pos, w`bitBuffer, w`bitsIn, w`emitted, w`kept, w.buf
      ensures w.Valid() && w.emitted == old(w.emitted) + bits && w.pos < w.end
      ensures start + Total() <= |parser.window.data|
      ensures flush != NoFlush ==> start + Total() == |parser.window.data| && |w.emitted| % 8 == 0
      ensures flush != Finish ==> Carrying(old(Stream()) + bits, parser.window.data[..start + Total()])
      ensures flush == Finish ==> Finished(old(Stream()) + bits, parser.window.data)
    {
      hide w.Valid, LsbBits, BlockFor, Carrying, Finished, Expand, BytesBits, Parsed, parser.window.Valid, parser.buffer.Valid,
           Chosen, CodedForm, StoredBits, InWindow;
      BlockReady(flush != NoFlush);
      ghost var e0, s0, out, out' := w.emitted, Stream(), parser.window.data[..start], parser.window.data[..start + Total()];
      BodyPhase(|s0|, |e0|, |sent|);
      ghost var block, kind, body, coding, coded := PutBlock(w, parser.window, parser.buffer, blockDictPos, parser.flags.raw, forceStatic,
        flush == Finish, start, |s0|, out, out');
      ghost var tail: seq<bool>;
      if flush == Finish {
        tail := LsbBits(0, Padding(|w.emitted|));
        w.Align();
        StreamEnds(s0, block, tail, out, out');
      } else {
        StreamGrows(s0, block, out, out');
        BodyPhase(|s0 + block|, |e0 + block|, |sent|);
        tail := PutMarker(w, flush, s0 + block, out');
      }
      bits := block + tail;
      Assoc(e0, block, tail);
      Assoc(s0, block, tail);
      w.FitsShortOfEnd();
    }

    // Sends the whole bytes written; the stream is the same.
    method Send()
      requires w.Valid() && w.pos < w.end
      modifies w`pos, w`emitted, w`kept, `sent
      ensures w.Valid() && w.pos == 0 && |w.emitted| < 8 && Stream() == old(Stream())
      ensures |old(w.emitted)| % 8 == 0 ==> Stream() == BytesBits(sent)
    {
      hide w.Valid, BytesBits;
      ghost var e := w.emitted;
      var bytes := w.Rewind();
      BytesBitsConcat(sent, bytes);
      Assoc(BytesBits(sent), BytesBits(bytes), w.emitted);
      sent := sent + bytes;
      if |e| % 8 == 0 {
        NoBitsLeft(e, BytesBits(bytes), w.emitted, BytesBits(sent));
      }
    }

    // Moves on past the open block.
    method NextBlock(total: nat)
      requires parser.Apart() && parser.window.Valid() && parser.Sound() && parser.buffer.Shaped()
      requires blockDictPos == start % 0x1_0000_0000 && total == Total() && start + total <= |parser.window.data|
      requires Expand([], parser.Tokens()) == Some(parser.window.data[..start + total])
      modifies parser`flushed, parser.buffer, parser.buffer.litLen, parser.buffer.dist, `blockDictPos, `start
      ensures parser.Valid() && parser.buffer.codePos == 1 && Covered() && start == old(start) + total
      ensures parser.flushed == old(parser.Tokens()) && parser.buffer.tokens == []
    {
      hide Expand, Parsed, parser.window.Valid, parser.buffer.Valid;
      parser.BlockDone();
      NextPos(blockDictPos, start, total);
      blockDictPos := (blockDictPos + total) % 0x1_0000_0000;
      start := start + total;
    }

    // Sends what was written and notes whether the stream is complete.
    method CloseBlock(flush: Flush)
      requires Apart() && parser.Valid() && w.Valid() && w.pos < w.end && w.end + 16 == OUT_BUF_SIZE && Covered()
      requires parser.buffer.codePos == 1
      requires flush != Finish ==> Carrying(Stream(), parser.window.data[..start])
      requires flush == Finish ==> Finished(Stream(), parser.window.data)
      requires flush != NoFlush ==> |w.emitted| % 8 == 0
      modifies w`pos, w`emitted, w`kept, `sent, `finished
      ensures Valid() && finished == (flush == Finish) && (flush != NoFlush ==> Stream() == BytesBits(sent))
    {
      hide w.Valid, Carrying, Finished, BytesBits, Expand, Parsed, parser.window.Valid, parser.buffer.Valid;
      Send();
      finished := flush == Finish;
    }

    // Ends the open block, sends the whole bytes so far, and starts the next block. What is written ends
    // short of the output buffer's end, whatever the block.
    method FlushBlock(flush: Flush)
      requires Running() && (flush != NoFlush ==> parser.window.lookaheadSize == 0 && parser.savedMatchLen == 0)
      modifies Frame() - {parser.window, parser.window.dict, parser.window.next, parser.window.hash}
      ensures Valid() && finished == (flush == Finish)
      ensures parser.savedMatchLen == old(parser.savedMatchLen) && parser.buffer.codePos == 1
      ensures start == old(start) + old(Total()) && parser.flushed == old(parser.Tokens()) && parser.buffer.tokens == []
      ensures flush != NoFlush ==> Stream() == BytesBits(sent) && start == |parser.window.data|
    {
      hide w.Valid, LsbBits, Carrying, Finished, Expand, BytesBits, Parsed, parser.window.Valid, parser.buffer.Valid;
      BlockReady(flush != NoFlush);
      ghost var e0 := w.emitted;
      var total := parser.buffer.totalLzBytes;
      ghost var bits := WriteBlock(flush);
      Assoc(BytesBits(sent), e0, bits);
      NextBlock(total);
      CloseBlock(flush);
    }

    // Time to flush: the token buffer is nearly full, or a long block is not getting smaller.
    predicate FlushDue()
      reads parser.buffer
    {
      var pos, total := parser.buffer.codePos, parser.buffer.totalLzBytes;
      pos > LZ_CODE_BUF_SIZE - 8 || (total > 31 * 1024 && (pos * 115 / 128 >= total || parser.flags.raw))
    }

    lemma DueIs()
      requires parser.buffer.Valid()
      ensures FlushDue() <==> Due(parser.buffer.tokens, parser.flags.raw)
    {
      hide TokenBuffer.Holds, CodePos, Counted;
      var b := parser.buffer;
      CodePosIs(b.buf[..], b.codePos, b.flagsPos, b.numFlagsLeft, b.tokens);
    }

    // Parses one step, and flushes the block if it is time.
    method StepOn() returns (ghost tokens: seq<Token>, ghost seen: Choice)
      requires Valid() && !finished && parser.window.lookaheadSize > 0
      modifies Frame()
      ensures Valid() && !finished
      ensures parser.window.data == old(parser.window.data) && parser.window.base == old(parser.window.base)
      ensures parser.window.Pos() > old(parser.window.Pos()) && parser.window.next[..] == old(parser.window.next[..])
      ensures seen.Right(parser.flags) && seen.q == old(parser.window.Asked(0, parser.Base()))
      ensures seen.probes == old(parser.window.Probes(parser.Base()))
      ensures AllEncodable(tokens) && parser.Tokens() == old(parser.flushed) + tokens
      ensures 0 <= old(parser.window.Pos()) < |parser.window.data|
      ensures tokens == old(parser.buffer.tokens) + Recorded(old(parser.Saved()), parser.flags.greedy || parser.flags.rle,
                                                             seen.dist, seen.len, parser.window.data[old(parser.window.Pos())])
      ensures if Due(tokens, parser.flags.raw) then parser.buffer.tokens == [] && start == old(start) + ByteCount(tokens)
        else parser.buffer.tokens == tokens && sent == old(sent) && start == old(start)
    {
      hide w.Valid, Carrying, Finished, Expand, BytesBits, Parsed, parser.window.Valid, Recorded, HoldsBack, TokenBuffer.Holds, Counted,
           Answers, Accepted, Due, Choice.Right;
      PosWithin();
      seen := parser.Step();
      tokens := parser.buffer.tokens;
      DueIs();
      if FlushDue() {
        FlushBlock(NoFlush);
        assert parser.flushed + [] == parser.flushed;
      }
    }

    // One turn: fills the lookahead, and unless it waits for more input parses one step and flushes
    // the block if it is time.
    method Turn(src: seq<byte>, srcPos: nat, flush: Flush) returns (srcPos': nat, waits: bool, ghost tokens: seq<Token>, ghost seen: Choice)
      requires Valid() && !finished && srcPos <= |src| && (srcPos < |src| || parser.window.lookaheadSize > 0)
      modifies Frame()
      ensures Valid() && !finished && srcPos <= srcPos' <= |src|
      ensures parser.window.data == old(parser.window.data) + src[srcPos..srcPos'] && parser.window.base == old(parser.window.base)
      ensures waits ==> flush == NoFlush && srcPos' == |src|
      ensures !waits ==> parser.window.Pos() > old(parser.window.Pos())
      ensures AllEncodable(tokens) && parser.Tokens() == old(parser.flushed) + tokens
      ensures if waits then tokens == old(parser.buffer.tokens) else
        && old(parser.window.Pos()) < |parser.window.data|
        && tokens == old(parser.buffer.tokens) + Recorded(old(parser.Saved()), parser.flags.greedy || parser.flags.rle,
                                                          seen.dist, seen.len, parser.window.data[old(parser.window.Pos())])
      ensures !waits ==> Looked(seen, parser.flags, old(parser.window.Pos()), old(parser.window.lookaheadPos), srcPos' - srcPos,
                                old(parser.window.lookaheadSize), old(parser.window.dictSize), parser.window.next[..],
                                parser.window.data, old(parser.Base()), old(parser.window.Probes(parser.Base())))
      ensures if waits || !Due(tokens, parser.flags.raw)
        then parser.buffer.tokens == tokens && sent == old(sent) && start == old(start)
        else parser.buffer.tokens == [] && start == old(start) + ByteCount(tokens)
    {
      hide w.Valid, Carrying, Finished, Expand, BytesBits, Parsed, parser.window.Valid, Recorded, HoldsBack, TokenBuffer.Holds, Counted,
           Answers, Accepted, Due, Choice.Right;
      ghost var data := parser.window.data;
      RoomLeft(|src| - srcPos);
      srcPos' := parser.Refill(src, srcPos);
      CoveredMore(data, src[srcPos..srcPos']);
      waits := false;
      tokens, seen := parser.buffer.tokens, Choice(parser.window.Asked(0, 0), 0, (0, 0), [], 0, 0);
      if flush == NoFlush && parser.window.lookaheadSize < MAX_MATCH_LEN {
        waits := true;
        return;
      }
      tokens, seen := StepOn();
    }

    lemma RoomLeft(left: nat)
      requires parser.window.Valid()
      ensures parser.window.lookaheadSize <= MAX_MATCH_LEN
      ensures parser.window.Room(left) <= left
      ensures parser.window.Room(left) < left ==> parser.window.lookaheadSize + parser.window.Room(left) == MAX_MATCH_LEN
      ensures left > 0 || parser.window.lookaheadSize > 0 ==> parser.window.lookaheadSize + parser.window.Room(left) > 0
    {}

    lemma CoveredMore(data: seq<byte>, more: seq<byte>)
      requires start <= |data| && parser.window.data == data + more
      ensures parser.window.data[..start] == data[..start]
    {}

    // Parses one call's bytes, and when flushing what is left of the lookahead.
    method TakeAll(src: seq<byte>, flush: Flush)
      requires Valid() && !finished
      modifies Frame()
      ensures Valid() && !finished && parser.window.data == old(parser.window.data) + src
      ensures parser.window.base == old(parser.window.base)
      ensures flush != NoFlush ==> parser.window.lookaheadSize == 0
    {
      hide w.Valid, Carrying, Finished, Expand, BytesBits, Parsed, parser.window.Valid, parser.buffer.Valid, Looked,
           Recorded, Due;
      ghost var data := parser.window.data;
      var srcPos, waits := 0, false;
      assert data + src[..0] == data;
      while srcPos < |src| || (flush != NoFlush && parser.window.lookaheadSize > 0)
        invariant Valid() && !finished && srcPos <= |src|
        invariant parser.window.data == data + src[..srcPos] && parser.window.base == old(parser.window.base)
        decreases |data| + |src| - parser.window.Pos()
      {
        var srcPos0 := srcPos;
        PosWithin();
        ghost var tokens, seen;
        srcPos, waits, tokens, seen := Turn(src, srcPos, flush);
        assert data + src[..srcPos0] + src[srcPos0..srcPos] == data + src[..srcPos];
        if waits {
          break;
        }
        PosWithin();
      }
      assert src[..|src|] == src;
    }

    // Compresses one call's bytes. Every byte is taken, and what has been sent after the last call
    // inflates to all the bytes of all the calls. After a flush too all of them have been sent, to the byte; a full
    // flush forgets them as a dictionary.
    method Compress(src: seq<byte>, flush: Flush)
      requires Valid() && !finished
      modifies Frame()
      ensures Valid() && parser.window.data == old(parser.window.data) + src
      ensures finished == (flush == Finish)
      ensures flush == Finish ==> Finished(BytesBits(sent), old(parser.window.data) + src)
      ensures flush == SyncFlush || flush == FullFlush ==> Carrying(BytesBits(sent), old(parser.window.data) + src)
      ensures flush == FullFlush ==> parser.window.base == |parser.window.data| && parser.window.dictSize == 0
      ensures flush != FullFlush ==> parser.window.base == old(parser.window.base)
    {
      hide w.Valid, Carrying, Finished, Expand, BytesBits, Parsed, parser.window.Valid, parser.buffer.Valid;
      TakeAll(src, flush);
      if flush != NoFlush {
        NothingHeld();
        FlushBlock(flush);
        assert parser.window.data[..start] == parser.window.data;
        if flush == FullFlush {
          parser.window.Forget();
        }
      }
    }

    lemma PosWithin()
      requires parser.Valid()
      ensures 0 <= parser.window.Pos() <= |parser.window.data|
    {}

    // With the lookahead used up no match is held back.
    lemma NothingHeld()
      requires parser.Valid() && parser.window.lookaheadSize == 0
      ensures parser.savedMatchLen == 0
    {}
  }
}
