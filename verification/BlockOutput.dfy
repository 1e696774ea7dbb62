/** Writing one block: coded with its own codes or the fixed ones, or stored when coding does not help,
    or coded with the fixed codes when nothing else fits. Whichever is chosen reads back as the same
    bytes. */
module BlockOutput {
  import opened Wrappers
  import opened Sums
  import opened Bits
  import opened Lz77
  import opened TokenBuffer
  import opened Dictionary
  import opened BitOutput
  import opened InflateTable
  import opened BlockCodec
  import opened LzCodes
  import opened DynamicBlock
  import opened StaticBlock
  import opened BlockSize
  import opened Inflate

  const OUT_BUF_SIZE := 65536 * 13 / 10

  // A block's tokens, where the output stands, and what the output becomes.
  ghost predicate Job(lz: seq<byte>, ts: seq<Token>, out: seq<byte>, out': seq<byte>) {
    && AllEncodable(ts) && lz == Pack(ts) && |lz| <= LZ_CODE_BUF_SIZE && |ts| <= 60000
    && Expand(out, ts) == Some(out')
  }

  // A block under codes of its own, near-optimal for its counts, behind the header that says which.
  ghost predicate OwnCoded(ts: seq<Token>, body: seq<bool>, lit: seq<nat>, dist: seq<nat>, header: seq<bool>)
    requires AllEncodable(ts)
  {
    && |lit| == 288 && |dist| == 32 && HeaderFor(header, lit, dist) && WellPacked(header, lit, dist)
    && HuffmanTable.NearOptimal(LitCounts(ts)[BlockCodec.Symbols.END_OF_BLOCK := 1], lit)
    && HuffmanTable.NearOptimal(DistCounts(ts), dist)
    && body == header + BlockBits(Codes(Words(lit), Words(dist)), ts)
  }

  // The coded form of a block: under the fixed codes, or its own.
  ghost predicate CodedForm(ts: seq<Token>, kind: nat, body: seq<bool>)
    requires AllEncodable(ts)
  {
    if kind == 1 then |StaticCodes().litLen| == 288 && |StaticCodes().dist| == 32 && body == BlockBits(StaticCodes(), ts)
    else kind == 2 && exists lit, dist, header :: OwnCoded(ts, body, lit, dist, header)
  }

  // How many bytes are completed by l bits after n.
  function Bytes(n: nat, l: nat): int {
    (n + l) / 8 - n / 8
  }

  // A raw block is stored if the window still has it; a coded form that fits is taken unless storing, which
  // the window must allow, is no longer.
  ghost predicate Chosen(kind: nat, body: seq<bool>, coding: nat, coded: seq<bool>, n: nat, end: nat, inWindow: bool, forceRaw: bool, total: nat) {
    if forceRaw && inWindow then kind == 0
    else if n + 2 + |coded| >= 8 * end then true
    else if inWindow && total > 0 && Bytes(n, 2 + |coded|) + 1 >= total then kind == 0
    else kind == coding && body == coded
  }

  // So a block that the window still has takes at most five bytes more than it stands for.
  lemma NeverGrows(kind: nat, body: seq<bool>, coding: nat, coded: seq<bool>, n: nat, end: nat, forceRaw: bool, total: nat)
    requires Chosen(kind, body, coding, coded, n, end, true, forceRaw, total) && total > 0
    requires (forceRaw || n + 2 + |coded| < 8 * end) && (kind == 0 ==> |body| <= 7 + 32 + 8 * total)
    ensures |body| <= 8 * (total + 5)
  {}

  // Coded with its own codes.
  method PutDynamic(w: Writer, lz: array<byte>, end: nat, litCount: array<nat>, distCount: array<nat>,
                    ghost ts: seq<Token>, ghost at: nat, ghost out: seq<byte>, ghost out': seq<byte>)
    returns (ok: bool, ghost body: seq<bool>)
    requires w.Valid() && lz != w.buf && end <= lz.Length && Job(lz[..end], ts, out, out')
    requires w.end + 16 == OUT_BUF_SIZE && |w.emitted| <= 16
    requires litCount.Length == distCount.Length == 288 && litCount != distCount && Counted(ts, litCount[..], distCount[..])
    modifies w`pos, w`bitBuffer, w`bitsIn, w`emitted, w.buf, litCount
    ensures w.Valid() && BodyFor(2, body, at, out, out') && CodedForm(ts, 2, body)
    ensures ok ==> w.emitted == old(w.emitted) + (LsbBits(2, 2) + body) && |w.emitted| < 8 * w.end - 100
    ensures ok <==> |old(w.emitted)| + 2 + |body| < 8 * w.end
  {
    hide w.Valid, LsbBits, Pow2, Words, Counted, BlockBits, HeaderFor, BodyFor, CodesOk, Coded, Spelled, Expand,
      Canonical.Fits, HuffmanTable.NearOptimal, LitCounts, DistCounts, WellPacked;
    ghost var z, e := lz[..end], w.emitted;
    var lit, dist;
    ghost var header;
    lit, dist, header := StartDynamicBlock(w, litCount, distCount, ts);
    ghost var c := Codes(Words(lit.sizes), Words(dist.sizes[..32]));
    EndHasCode(c);
    w.FitsShortOfEnd();
    assert lz[..end] == z;
    ok := CompressFast(w, lz, end, lit, dist, c, ts);
    body := header + BlockBits(c, ts);
    DynamicBlockFits(ts, lit.sizes, dist.sizes[..32]);
    DynamicReads(ts, lit.sizes, dist.sizes[..32], header, at, out, out');
    assert OwnCoded(ts, body, lit.sizes, dist.sizes[..32], header);
    ThreeParts(e, LsbBits(2, 2), header, BlockBits(c, ts));
    w.FitsShortOfEnd();
  }

  lemma EndHasCode(c: Codes)
    requires CodesOk(c)
    ensures |c.litLen| == 288 && |c.dist| == 32 && c.litLen[BlockCodec.Symbols.END_OF_BLOCK] != []
  {}

  lemma ThreeParts(e: seq<bool>, p: seq<bool>, q: seq<bool>, r: seq<bool>)
    ensures e + (p + q) + r == e + (p + (q + r))
  {}

  // Coded with the fixed codes; from near the start of the output buffer it always fits.
  method PutStatic(w: Writer, lz: array<byte>, end: nat, ghost ts: seq<Token>, ghost at: nat,
                   ghost out: seq<byte>, ghost out': seq<byte>) returns (ok: bool, ghost body: seq<bool>)
    requires w.Valid() && lz != w.buf && end <= lz.Length && Job(lz[..end], ts, out, out')
    requires w.end + 16 == OUT_BUF_SIZE && |w.emitted| <= 16
    modifies w`pos, w`bitBuffer, w`bitsIn, w`emitted, w.buf
    ensures ok && w.Valid() && BodyFor(1, body, at, out, out') && CodedForm(ts, 1, body)
    ensures w.emitted == old(w.emitted) + (LsbBits(1, 2) + body) && |w.emitted| < 8 * w.end - 100
  {
    hide w.Valid, LsbBits, Pow2, BlockBits, BodyFor, CodesOk, Coded, Spelled, StaticCodes, Expand;
    ghost var z, e := lz[..end], w.emitted;
    StaticShape();
    StaticAccepted();
    var lit, dist := StartStaticBlock(w);
    EndHasCode(StaticCodes());
    w.FitsShortOfEnd();
    assert lz[..end] == z;
    StaticBlockFits(ts);
    ok := CompressFast(w, lz, end, lit, dist, StaticCodes(), ts);
    body := BlockBits(StaticCodes(), ts);
    StaticReads(ts, at, out, out');
    Assoc(e, LsbBits(1, 2), body);
  }

  // The block's bytes as they stand in the dictionary.
  method PutStored(w: Writer, window: Window, dictPos: nat, total: nat, ghost start: nat, ghost at: nat, ghost out: seq<byte>)
    returns (ghost body: seq<bool>)
    requires w.Valid() && window.Valid() && window.dict != w.buf && w.end + 16 == OUT_BUF_SIZE && |w.emitted| <= 16
    requires dictPos == start % 0x1_0000_0000 && start + total <= |window.data| && total <= LZ_DICT_SIZE
    requires window.Pos() - window.dictSize <= start && at % 8 == (|w.emitted| + 2) % 8
    modifies w`pos, w`bitBuffer, w`bitsIn, w`emitted, w.buf
    ensures w.Valid() && BodyFor(0, body, at, out, out + window.data[start..start + total])
    ensures body == StoredBits(at, window.data[start..start + total])
    ensures w.emitted == old(w.emitted) + (LsbBits(0, 2) + body) && |w.emitted| < 8 * w.end - 100
  {
    hide w.Valid, LsbBits, Pow2, BodyFor, BytesBits, StoredBits, window.Valid;
    ghost var e, bytes := w.emitted, window.data[start..start + total];
    Powers16();
    w.PutBits(0, 2);
    w.Align();
    SamePadding(|e| + 2, at);
    w.PutBits(total % 0x1_0000, 16);
    w.PutBits(0xFFFF - total % 0x1_0000, 16);
    ghost var e' := w.emitted;
    var i := 0;
    NoneStored(window.data, start, e');
    while i < total
      invariant i <= total && w.Valid() && w.emitted == e' + BytesBits(window.data[start..start + i])
    {
      InDict(window, dictPos, start, i);
      var b := window.dict[(dictPos + i) % LZ_DICT_SIZE];
      OneMore(window.data, start, i, e');
      w.PutBits(b, 8);
      i := i + 1;
    }
    body := StoredBits(at, bytes);
    StoredParts(e, at, bytes, w.emitted);
    StoredReads(at, bytes, out);
  }

  lemma Powers16()
    ensures Pow2(2) == 4 && Pow2(16) == 0x1_0000 && Pow2(8) == 256
  {
    Pow2Table();
  }

  lemma SamePadding(a: nat, b: nat)
    requires a % 8 == b % 8
    ensures Padding(a) == Padding(b)
  {}

  lemma NoneStored(data: seq<byte>, start: nat, e: seq<bool>)
    requires start <= |data|
    ensures e + BytesBits(data[start..start + 0]) == e
  {}

  lemma OneMore(data: seq<byte>, start: nat, i: nat, e: seq<bool>)
    requires start + i < |data|
    ensures e + BytesBits(data[start..start + i + 1]) == e + BytesBits(data[start..start + i]) + LsbBits(data[start + i], 8)
  {
    hide LsbBits;
    BytesBitsSnoc(data[start..start + i], data[start + i]);
    assert data[start..start + i + 1] == data[start..start + i] + [data[start + i]];
    Assoc(e, BytesBits(data[start..start + i]), LsbBits(data[start + i], 8));
  }

  lemma InDict(window: Window, dictPos: nat, start: nat, i: nat)
    requires window.Valid() && dictPos == start % 0x1_0000_0000 && window.Pos() - window.dictSize <= start
    requires start + i < |window.data|
    ensures (dictPos + i) % LZ_DICT_SIZE < window.dict.Length
    ensures window.dict[(dictPos + i) % LZ_DICT_SIZE] == window.data[start + i]
  {
    PlaceOfSum(dictPos, start, i);
    assert HoldsAt(window.dict[..], window.data, start + i);
  }

  lemma StoredParts(e: seq<bool>, at: nat, bytes: seq<byte>, r: seq<bool>)
    requires |bytes| <= LZ_DICT_SIZE && |e| <= 16
    requires r == e + LsbBits(0, 2) + LsbBits(0, Padding(at)) + LsbBits(|bytes|, 16) + LsbBits(0xFFFF - |bytes|, 16) + BytesBits(bytes)
    ensures r == e + (LsbBits(0, 2) + StoredBits(at, bytes)) && |r| < 8 * 40000
  {
    hide LsbBits, BytesBits;
  }

  // Whether the dictionary still holds the whole block.
  function InWindow(lookaheadPos: nat, dictPos: nat, dictSize: nat): bool {
    (lookaheadPos - dictPos) % 0x1_0000_0000 <= dictSize
  }

  // Coded, stored, or coded with the fixed codes; the writer ends short of its end. That a block's own
  // codes do not fit, the case of the last branch, never happens (DynamicBlockFits).
  method PutBody(w: Writer, window: Window, lz: array<byte>, end: nat, litCount: array<nat>, distCount: array<nat>,
                 dictPos: nat, total: nat, forceRaw: bool, forceStatic: bool,
                 ghost ts: seq<Token>, ghost start: nat, ghost at: nat, ghost out: seq<byte>, ghost out': seq<byte>)
    returns (ghost kind: nat, ghost body: seq<bool>, ghost coding: nat, ghost coded: seq<bool>)
    requires w.Valid() && window.Valid() && window.dict != w.buf && lz != w.buf && w.end + 16 == OUT_BUF_SIZE
    requires end <= lz.Length && Job(lz[..end], ts, out, out') && |w.emitted| <= 8
    requires litCount.Length == distCount.Length == 288 && litCount != distCount && Counted(ts, litCount[..], distCount[..])
    requires dictPos == start % 0x1_0000_0000 && start + total <= window.Pos() < start + 0x1_0000_0000
    requires out' == out + window.data[start..start + total] && at % 8 == (|w.emitted| + 2) % 8
    modifies w`pos, w`bitBuffer, w`bitsIn, w`emitted, w`kept, w.buf, litCount
    ensures w.Valid() && kind <= 2 && BodyFor(kind, body, at, out, out')
    ensures var inWindow := InWindow(window.lookaheadPos, dictPos, window.dictSize);
      && Chosen(kind, body, coding, coded, |old(w.emitted)|, w.end, inWindow, forceRaw, total)
      && ((forceRaw && inWindow) || (coding == (if forceStatic || total < 48 then 1 else 2) && CodedForm(ts, coding, coded)))
    ensures kind == 0 ==> total <= LZ_DICT_SIZE && body == StoredBits(at, window.data[start..start + total])
    ensures w.emitted == old(w.emitted) + (LsbBits(kind, 2) + body) && |w.emitted| < 8 * w.end - 100
  {
    hide w.Valid, LsbBits, Pow2, BodyFor, Counted, Expand, window.Valid, Job, CodedForm, StoredBits;
    ghost var z, e := lz[..end], w.emitted;
    w.FitsShortOfEnd();
    var inWindow := InWindow(window.lookaheadPos, dictPos, window.dictSize);
    StillThere(window, dictPos, start, total);
    var raw := forceRaw && inWindow;
    coding, coded := if forceStatic || total < 48 then 1 else 2, [];
    w.WholeBytes();
    w.Mark();
    var savedPos, savedBuffer, savedBits := w.pos, w.bitBuffer, w.bitsIn;
    var ok := false;
    if !raw {
      if forceStatic || total < 48 {
        ok, body := PutStatic(w, lz, end, ts, at, out, out');
        kind := 1;
      } else {
        ok, body := PutDynamic(w, lz, end, litCount, distCount, ts, at, out, out');
        kind := 2;
      }
      coded := body;
      w.FitsShortOfEnd();
      w.WholeBytes();
    }
    assert lz[..end] == z;
    if (raw || (total > 0 && w.pos - savedPos + 1 >= total)) && inWindow {
      w.Return(savedPos, savedBuffer, savedBits, e);
      body := PutStored(w, window, dictPos, total, start, at, out);
      kind := 0;
    } else if !ok {
      w.Return(savedPos, savedBuffer, savedBits, e);
      ok, body := PutStatic(w, lz, end, ts, at, out, out');
      kind := 1;
    }
    w.FitsShortOfEnd();
  }

  lemma StillThere(window: Window, dictPos: nat, start: nat, total: nat)
    requires window.Valid() && dictPos == start % 0x1_0000_0000
    requires start + total <= window.Pos() < start + 0x1_0000_0000
    ensures InWindow(window.lookaheadPos, dictPos, window.dictSize)
      ==> window.Pos() - window.dictSize <= start && total <= LZ_DICT_SIZE
  {
    DifferenceKept(window.Pos(), start);
  }

  lemma DifferenceKept(p: nat, q: nat)
    requires q <= p < q + 0x1_0000_0000
    ensures (p % 0x1_0000_0000 - q % 0x1_0000_0000) % 0x1_0000_0000 == p - q
  {}

  // One whole block: the final bit, then the body.
  method PutBlock(w: Writer, window: Window, buffer: Buffer, dictPos: nat, forceRaw: bool, forceStatic: bool, final: bool,
                  ghost start: nat, ghost at: nat, ghost out: seq<byte>, ghost out': seq<byte>)
    returns (ghost block: seq<bool>, ghost kind: nat, ghost body: seq<bool>, ghost coding: nat, ghost coded: seq<bool>)
    requires w.Valid() && window.Valid() && buffer.Valid() && window.dict != w.buf && buffer.buf != w.buf
    requires buffer.buf != window.dict && w.end + 16 == OUT_BUF_SIZE && |w.emitted| < 8 && |buffer.tokens| <= 60000
    requires dictPos == start % 0x1_0000_0000 && start + buffer.totalLzBytes <= window.Pos() < start + 0x1_0000_0000
    requires out' == out + window.data[start..start + buffer.totalLzBytes] && at % 8 == |w.emitted| % 8
    requires Expand(out, buffer.tokens) == Some(out')
    modifies buffer.buf, buffer`codePos, buffer.litLen, w`pos, w`bitBuffer, w`bitsIn, w`emitted, w`kept, w.buf
    ensures w.Valid() && w.emitted == old(w.emitted) + block && |w.emitted| < 8 * w.end - 100
    ensures BlockFor(block, at, out, out', final) && block == Mark(final) + (LsbBits(kind, 2) + body)
    ensures var inWindow, total := InWindow(window.lookaheadPos, dictPos, window.dictSize), old(buffer.totalLzBytes);
      && Chosen(kind, body, coding, coded, |old(w.emitted)| + 1, w.end, inWindow, forceRaw, total)
      && ((forceRaw && inWindow) || (coding == (if forceStatic || total < 48 then 1 else 2) && CodedForm(buffer.tokens, coding, coded)))
      && (kind == 0 ==> total <= LZ_DICT_SIZE && body == StoredBits(at + 3, window.data[start..start + total]))
  {
    hide w.Valid, LsbBits, Pow2, BodyFor, BlockFor, Counted, Expand, window.Valid, Pack, TokenBuffer.Holds, Chosen, CodedForm, StoredBits;
    ghost var e0 := w.emitted;
    buffer.Finish();
    MarkFits(final);
    w.PutBits(if final then 1 else 0, 1);
    SamePhase(at, |e0|, 3);
    kind, body, coding, coded := PutBody(w, window, buffer.buf, buffer.codePos, buffer.litLen, buffer.dist, dictPos,
      buffer.totalLzBytes, forceRaw, forceStatic, buffer.tokens, start, at + 3, out, out');
    BlockOfBody(final, kind, body, at, out, out');
    block := Mark(final) + (LsbBits(kind, 2) + body);
    Assoc(e0, Mark(final), LsbBits(kind, 2) + body);
  }

  lemma MarkFits(final: bool)
    ensures (if final then 1 else 0) < Pow2(1)
    ensures Mark(final) == LsbBits(if final then 1 else 0, 1)
  {}
}
