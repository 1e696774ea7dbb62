/** The decompressor's match copy: whole words while the source stays clear of the destination, three
    bytes a turn otherwise, one byte at a time where the source or the destination meets the end of the
    buffer. In a circular buffer the source can lie ahead of the destination, on the lap before. Each
    form is the byte-by-byte rule, overlap and all. */
module MatchCopy {
  import opened Arith
  import opened Lz77
  import opened OutputBuffer

  datatype Copy = Copied | Full | TooFar | PastEnd

  // ---------- what a copy adds ----------

  lemma {:induction false} CopyBackTwice(out: seq<byte>, m: nat, n: nat, dist: nat)
    requires 1 <= dist <= |out|
    ensures CopyBack(CopyBack(out, m, dist), n, dist) == CopyBack(out, m + n, dist)
    decreases m
  {
    if m > 0 {
      CopyBackTwice(out + [out[|out| - dist]], m - 1, n, dist);
    }
  }

  // n bytes more, which repeat those dist places back if that is where they were taken from.
  ghost predicate Grown(before: seq<byte>, after: seq<byte>, n: nat, dist: nat, legal: bool) {
    && |after| == |before| + n && after[..|before|] == before
    && (legal ==> 1 <= dist <= |before| && after == CopyBack(before, n, dist))
  }

  lemma GrownTwice(a: seq<byte>, b: seq<byte>, c: seq<byte>, m: nat, n: nat, dist: nat, legal: bool)
    requires Grown(a, b, m, dist, legal) && Grown(b, c, n, dist, legal)
    ensures Grown(a, c, m + n, dist, legal)
  {
    if legal {
      CopyBackTwice(a, m, n, dist);
    }
    assert c[..|a|] == c[..|b|][..|a|];
  }

  lemma GrownNone(a: seq<byte>, dist: nat, legal: bool)
    requires legal ==> 1 <= dist <= |a|
    ensures Grown(a, a, 0, dist, legal)
  {}

  lemma GrownOne(a: seq<byte>, b: byte, dist: nat, legal: bool)
    requires legal ==> 1 <= dist <= |a| && b == a[|a| - dist]
    ensures Grown(a, a + [b], 1, dist, legal)
  {
    assert legal ==> CopyBack(a + [b], 0, dist) == a + [b];
  }

  // Four bytes, all read before any is stored, are those of a copy from four places back or more.
  lemma GrownFour(a: seq<byte>, w: seq<byte>, dist: nat, legal: bool)
    requires |w| == 4
    requires legal ==> 4 <= dist <= |a| && forall k :: 0 <= k < 4 ==> w[k] == a[|a| - (dist - k)]
    ensures Grown(a, a + w, 4, dist, legal)
  {
    if legal {
      var r := a + w;
      forall i | |a| <= i < |a| + 4 ensures r[i] == r[i - dist] {
        assert r[i] == w[i - |a|];
      }
      CopyMatches(r, |a|, 4, dist);
      assert r[..|a|] == a && r[..|a| + 4] == r;
    }
  }

  // ---------- the loops ----------

  // One byte from a place in the buffer.
  method CopyByte(o: Output, src: nat, ghost dist: nat, ghost legal: bool)
    requires o.Valid() && Max(o.pos, src) < o.buf.Length && (legal ==> o.Legal(dist) && o.Before(src, dist))
    modifies o`pos, o.buf
    ensures o.Valid() && o.pos == old(o.pos) + 1 && Grown(old(o.All()), o.All(), 1, dist, legal)
  {
    hide CopyBack, Grown;
    if legal {
      o.ByteBefore(src, dist);
    }
    GrownOne(o.All(), o.buf[src], dist, legal);
    o.Put(o.buf[src]);
  }

  // The first n of three bytes, each stored before the next is read.
  method CopyBytes(o: Output, src: nat, n: nat, ghost dist: nat, ghost legal: bool)
    requires o.Valid() && n <= 3 && Max(o.pos, src) + n <= o.buf.Length && (legal ==> o.Legal(dist) && o.Before(src, dist))
    modifies o`pos, o.buf
    ensures o.Valid() && o.pos == old(o.pos) + n && Grown(old(o.All()), o.All(), n, dist, legal)
  {
    hide CopyBack, Grown, Output.Valid, Output.All;
    ghost var a := o.All();
    GrownNone(a, dist, legal);
    if n > 0 {
      CopyByte(o, src, dist, legal);
    }
    ghost var b := o.All();
    if n > 1 {
      GrownSize(a, b, 1, dist, legal);
      CopyByte(o, src + 1, dist, legal);
      GrownTwice(a, b, o.All(), 1, 1, dist, legal);
    }
    ghost var c := o.All();
    if n > 2 {
      GrownSize(a, c, 2, dist, legal);
      CopyByte(o, src + 2, dist, legal);
      GrownTwice(a, c, o.All(), 2, 1, dist, legal);
    }
  }

  lemma GrownSize(a: seq<byte>, b: seq<byte>, n: nat, dist: nat, legal: bool)
    requires Grown(a, b, n, dist, legal)
    ensures |b| == |a| + n
  {}

  // A word of four bytes.
  method CopyWord(o: Output, src: nat, ghost dist: nat, ghost legal: bool)
    requires o.Valid() && Max(o.pos, src) + 4 <= o.buf.Length
    requires legal ==> dist >= 4 && o.Legal(dist) && o.Before(src, dist)
    modifies o`pos, o.buf
    ensures o.Valid() && o.pos == old(o.pos) + 4 && Grown(old(o.All()), o.All(), 4, dist, legal)
  {
    hide CopyBack, Grown;
    ghost var a := o.All();
    var w := [o.buf[src], o.buf[src + 1], o.buf[src + 2], o.buf[src + 3]];
    if legal {
      forall k | 0 <= k < 4 ensures w[k] == a[|a| - (dist - k)] {
        o.ByteBefore(src + k, dist - k);
      }
    }
    GrownFour(a, w, dist, legal);
    o.PutRun(w, 0, 4);
    assert w[0..4] == w;
  }

  // All whole groups of eight, each as two words.
  method CopyEights(o: Output, src0: nat, counter: nat, dist: nat, ghost legal: bool) returns (src: nat)
    requires o.Valid() && 9 <= counter <= dist && Max(o.pos, src0) + counter <= o.buf.Length
    requires legal ==> o.Legal(dist) && o.Before(src0, dist)
    modifies o`pos, o.buf
    ensures o.Valid() && o.pos - old(o.pos) == src - src0 == counter / 8 * 8
    ensures Grown(old(o.All()), o.All(), counter / 8 * 8, dist, legal)
  {
    hide CopyBack, Grown, Output.Valid, Output.All;
    ghost var a := o.All();
    src := src0;
    var srcEnd := src0 + counter / 8 * 8;
    ghost var left := counter / 8;
    GrownNone(a, dist, legal);
    while true
      invariant o.Valid() && 1 <= left <= counter / 8 && src + 8 * left == srcEnd && o.pos - old(o.pos) == src - src0
      invariant Grown(a, o.All(), src - src0, dist, legal)
      decreases left
    {
      ghost var b := o.All();
      GrownSize(a, b, src - src0, dist, legal);
      CopyWord(o, src, dist, legal);
      ghost var c := o.All();
      GrownSize(b, c, 4, dist, legal);
      CopyWord(o, src + 4, dist, legal);
      GrownTwice(b, c, o.All(), 4, 4, dist, legal);
      GrownTwice(a, b, o.All(), src - src0, 8, dist, legal);
      src, left := src + 8, left - 1;
      if src >= srcEnd {
        break;
      }
    }
  }

  // Three bytes a turn, at least one turn, then what is left.
  method CopyTriples(o: Output, src0: nat, counter0: nat, ghost dist: nat, ghost legal: bool)
    requires o.Valid() && Max(o.pos, src0) + Max(counter0, 3) <= o.buf.Length
    requires legal ==> o.Legal(dist) && o.Before(src0, dist)
    modifies o`pos, o.buf
    ensures o.Valid() && o.pos == old(o.pos) + Max(counter0, 3)
    ensures Grown(old(o.All()), o.All(), Max(counter0, 3), dist, legal)
  {
    hide CopyBack, Grown, Output.Valid, Output.All;
    ghost var a := o.All();
    GrownNone(a, dist, legal);
    var src: nat, counter: int := src0, counter0;
    while true
      invariant o.Valid() && o.pos - old(o.pos) == src - src0 == counter0 - counter && (counter >= 3 || counter == counter0)
      invariant Grown(a, o.All(), src - src0, dist, legal)
      decreases counter
    {
      ghost var b := o.All();
      GrownSize(a, b, src - src0, dist, legal);
      CopyBytes(o, src, 3, dist, legal);
      GrownTwice(a, b, o.All(), src - src0, 3, dist, legal);
      src, counter := src + 3, counter - 3;
      if counter <= 2 {
        break;
      }
    }
    if counter > 0 {
      ghost var b := o.All();
      GrownSize(a, b, src - src0, dist, legal);
      CopyBytes(o, src, counter, dist, legal);
      GrownTwice(a, b, o.All(), src - src0, counter, dist, legal);
    }
  }

  // Copies a match when neither its source nor its destination meets the end of the buffer.
  method CopyFitting(o: Output, src0: nat, dist: nat, length: nat, ghost legal: bool)
    requires o.Valid() && Max(o.pos, src0) + Max(length, 3) <= o.buf.Length
    requires legal ==> o.Legal(dist) && o.Before(src0, dist)
    modifies o`pos, o.buf
    ensures o.Valid() && o.pos == old(o.pos) + Max(length, 3)
    ensures Grown(old(o.All()), o.All(), Max(length, 3), dist, legal)
  {
    hide CopyBack, Grown, Output.Valid, Output.All;
    ghost var a := o.All();
    var src, counter := src0, length;
    GrownNone(a, dist, legal);
    if counter >= 9 && counter <= dist {
      src := CopyEights(o, src, counter, dist, legal);
      counter := counter % 8;
      if counter < 3 {
        ghost var b := o.All();
        GrownSize(a, b, src - src0, dist, legal);
        CopyBytes(o, src, counter, dist, legal);
        GrownTwice(a, b, o.All(), src - src0, counter, dist, legal);
        return;
      }
    }
    ghost var b := o.All();
    GrownSize(a, b, src - src0, dist, legal);
    CopyTriples(o, src, counter, dist, legal);
    GrownTwice(a, b, o.All(), src - src0, Max(counter, 3), dist, legal);
  }

  // A counted place in the output that the mask takes to where the next byte goes.
  ghost predicate InStep(o: Output, from: nat, pos: nat, dist: nat)
    requires o.wraps ==> o.buf.Length > 0
  {
    if o.wraps then (from - dist) % o.buf.Length == (pos - dist) % o.buf.Length else from == pos
  }

  // It stays so when the buffer is begun again and when both step on.
  lemma StaysInStep(o: Output, from: nat, pos: nat, pos': nat, dist: nat)
    requires (o.wraps ==> o.buf.Length > 0) && InStep(o, from, pos, dist)
    requires pos' == pos || (o.wraps && pos' == 0 && pos == o.buf.Length)
    ensures InStep(o, from, pos', dist) && InStep(o, from + 1, pos' + 1, dist)
  {
    if o.wraps {
      ModuloKept(from - dist, pos - dist, o.buf.Length);
      ModuloKept(from - dist, pos' - dist, o.buf.Length);
    }
  }

  // One byte of a match, the buffer handed over first if it is full.
  method CopyNext(o: Output, from: nat, dist: nat, ghost legal: bool) returns (ok: bool)
    requires o.Valid() && (o.wraps || dist <= from) && InStep(o, from, o.pos, dist) && (legal ==> o.Legal(dist))
    modifies o`pos, o`sent, o`left, o.buf
    ensures o.Valid() && o.Capacity() == old(o.Capacity())
    ensures ok <==> |old(o.All())| < o.Capacity()
    ensures !ok ==> o.All() == old(o.All())
    ensures ok ==> InStep(o, from + 1, o.pos, dist) && Grown(old(o.All()), o.All(), 1, dist, legal)
  {
    hide CopyBack, Grown, InStep, Output.All, Output.Capacity;
    ok := o.MakeRoom();
    if !ok {
      return;
    }
    StaysInStep(o, from, old(o.pos), o.pos, dist);
    SourceInStep(o, from, dist, legal);
    CopyByte(o, o.Source(from, dist), dist, legal);
  }

  lemma SourceInStep(o: Output, from: nat, dist: nat, legal: bool)
    requires o.Valid() && (o.wraps || dist <= from) && InStep(o, from, o.pos, dist) && o.pos < o.buf.Length
    ensures o.Source(from, dist) < o.buf.Length
    ensures legal && o.Legal(dist) ==> o.Before(o.Source(from, dist), dist)
  {
    if legal && o.Legal(dist) {
      o.SourceIsBefore(from, dist);
    }
  }

  // Copies a match byte by byte, the source found anew for each, until it ends or there is no more room.
  method CopyBounded(o: Output, dist: nat, length: nat) returns (full: bool)
    requires o.Valid() && (o.wraps || dist <= o.pos)
    modifies o`pos, o`sent, o`left, o.buf
    ensures o.Valid() && o.Capacity() == old(o.Capacity())
    ensures full <==> |old(o.All())| + length > o.Capacity()
    ensures Grown(old(o.All()), o.All(), if full then o.Capacity() - |old(o.All())| else length, dist, old(o.Legal(dist)))
  {
    hide CopyBack, Grown, InStep, Output.All, Output.Capacity, Output.Valid;
    ghost var a, legal := o.All(), o.Legal(dist);
    GrownNone(a, dist, legal);
    o.Within();
    var from, counter := o.pos, length;
    assert InStep(o, from, o.pos, dist) by { StartsInStep(o, dist); }
    while counter > 0
      invariant o.Valid() && o.Capacity() == old(o.Capacity()) && 0 <= counter <= length && (o.wraps || dist <= from)
      invariant InStep(o, from, o.pos, dist) && |o.All()| <= o.Capacity()
      invariant Grown(a, o.All(), length - counter, dist, legal)
    {
      ghost var b := o.All();
      GrownSize(a, b, length - counter, dist, legal);
      var ok := CopyNext(o, from, dist, legal);
      if !ok {
        return true;
      }
      o.Within();
      GrownTwice(a, b, o.All(), length - counter, 1, dist, legal);
      from := from + 1;
      counter := counter - 1;
    }
    GrownSize(a, o.All(), length, dist, legal);
    full := false;
  }

  lemma StartsInStep(o: Output, dist: nat)
    requires o.wraps ==> o.buf.Length > 0
    ensures InStep(o, o.pos, o.pos, dist)
  {}

  // The higher of the destination and the source of a copy.
  ghost function Top(o: Output, dist: nat): nat
    requires if o.wraps then o.buf.Length > 0 else dist <= o.pos
    reads o
  {
    Max(o.pos, o.Source(o.pos, dist))
  }

  // Copies a match: all of it, or as much as there is room for. A match whose length is zero is copied
  // as three bytes, and nothing in its way makes sure that three bytes are there.
  method CopyMatch(o: Output, dist: nat, length: nat) returns (end: Copy)
    requires o.Valid() && (length == 0 || length >= MIN_MATCH_LEN)
    modifies o`pos, o`sent, o`left, o.buf
    ensures o.Valid() && o.Capacity() == old(o.Capacity())
    ensures end == TooFar <==> !o.wraps && dist > old(o.pos)
    ensures end == PastEnd <==> end != TooFar && length == 0 && old(Top(o, dist)) + 3 > o.buf.Length
    ensures end == Full <==> end != TooFar && length > 0 && |old(o.All())| + length > o.Capacity()
    ensures end == TooFar || end == PastEnd ==> o.All() == old(o.All())
    ensures end == Full ==> Grown(old(o.All()), o.All(), o.Capacity() - |old(o.All())|, dist, old(o.Legal(dist)))
    ensures end == Copied ==> Grown(old(o.All()), o.All(), Max(length, 3), dist, old(o.Legal(dist)))
  {
    hide CopyBack, Grown;
    if dist > o.pos && !o.wraps {
      return TooFar;
    }
    ghost var legal := o.Legal(dist);
    var src := o.Source(o.pos, dist);
    if Max(o.pos, src) + length > o.buf.Length {
      var full := CopyBounded(o, dist, length);
      return if full then Full else Copied;
    }
    o.Within();
    if Max(o.pos, src) + Max(length, 3) > o.buf.Length {
      return PastEnd;
    }
    if legal {
      o.SourceIsBefore(o.pos, dist);
    }
    CopyFitting(o, src, dist, length, legal);
    end := Copied;
  }
}
