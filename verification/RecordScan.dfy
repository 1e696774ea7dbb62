/** Looking for a record near the end of an archive, backwards through overlapping windows. */
module RecordScan {
  import opened Arith
  import opened Lz77
  import opened LittleEndian

  const WINDOW := 4096
  const STEP := 4093
  const TWO_64 := 0x1_0000_0000_0000_0000
  const TWO_63 := 0x8000_0000_0000_0000

  // The signature stands here, with room for the whole record.
  predicate Here(archive: seq<byte>, sig: nat, recordSize: nat, p: int) {
    0 <= p && p + 4 <= |archive| && |archive| - p >= recordSize && Read32(archive, p) == sig
  }

  // What a read of n bytes at an offset gives: nothing at or past the end, else what there is.
  function ReadAt(archive: seq<byte>, ofs: nat, n: nat): (r: seq<byte>)
    ensures |r| <= n
  {
    if ofs >= |archive| then [] else archive[ofs..ofs + if |archive| - ofs < n then |archive| - ofs else n]
  }

  // A 64-bit pattern taken as signed.
  function Signed64(v: nat): int {
    if v < TWO_63 then v else v - TWO_64
  }

  // The lowest offset a window starts at: the scan stops at the beginning, after about 64 KB, or when a
  // whole step would lead before the beginning.
  function Lowest(cur: nat, size: nat, recordSize: nat): nat
    decreases cur
  {
    if cur == 0 || size - cur >= 0xFFFF + recordSize || cur < STEP then cur
    else Lowest(cur - STEP, size, recordSize)
  }

  function FirstWindow(size: nat): nat {
    if size < WINDOW then 0 else size - WINDOW
  }

  function Reach(size: nat, recordSize: nat): nat {
    Lowest(FirstWindow(size), size, recordSize)
  }

  lemma Within(s: seq<byte>, p: nat, n: nat, i: nat)
    requires p + n <= |s| && i + 4 <= n
    ensures s[p..p + n][i..i + 4] == s[p + i..p + i + 4]
  {
    var a, b := s[p..p + n][i..i + 4], s[p + i..p + i + 4];
    forall k | 0 <= k < 4 ensures a[k] == b[k] {
      assert a[k] == s[p..p + n][i + k] == s[p + (i + k)];
    }
  }

  // How the signed and unsigned offsets of a scan relate.
  lemma Wraps(cur: int, size: nat)
    requires size < TWO_63 && -STEP <= cur <= size
    ensures (size - cur) % TWO_64 == size - cur
    ensures cur >= 0 ==> cur % TWO_64 == cur && Signed64((cur - STEP) % TWO_64) == cur - STEP
    ensures cur < 0 ==> cur % TWO_64 >= size
  {
    if cur < 0 {
      assert cur % TWO_64 == cur + TWO_64;
    } else if cur < STEP {
      assert (cur - STEP) % TWO_64 == cur - STEP + TWO_64;
    }
  }

  // The last place in a window, if there is one.
  method ScanWindow(archive: seq<byte>, sig: nat, recordSize: nat, cur: nat, buf: seq<byte>) returns (i: int)
    requires cur + |buf| <= |archive| && buf == archive[cur..cur + |buf|]
    ensures i >= 0 ==> Here(archive, sig, recordSize, cur + i)
    ensures forall q :: cur + i < q && q + 4 <= cur + |buf| && cur <= q ==> !Here(archive, sig, recordSize, q)
    ensures i >= -1 || |buf| < 4
  {
    i := |buf| - 4;
    while i >= 0
      invariant -4 <= i && i + 4 <= |buf| && (i >= -1 || |buf| < 4)
      invariant forall q :: cur + i < q && q + 4 <= cur + |buf| && cur <= q ==> !Here(archive, sig, recordSize, q)
    {
      Within(archive, cur, |buf|, i);
      SameBytes(buf, i, archive, cur + i);
      if Read32(buf, i) == sig {
        if |archive| - (cur + i) >= recordSize {
          break;
        }
      }
      i := i - 1;
    }
  }

  // Finds the last such record no lower than the scan reaches. Offsets are signed but the step back is
  // computed unsigned, so that one before the beginning becomes a read that fails.
  method LocateHeaderSig(archive: seq<byte>, sig: nat, recordSize: nat) returns (found: bool, ofs: nat)
    requires |archive| < TWO_63
    ensures found ==> Here(archive, sig, recordSize, ofs) && ofs >= Reach(|archive|, recordSize)
    ensures found ==> forall q :: q > ofs ==> !Here(archive, sig, recordSize, q)
    ensures !found ==> forall q :: q >= Reach(|archive|, recordSize) ==> !Here(archive, sig, recordSize, q)
  {
    hide Here, NoneFrom, Lowest, Signed64;
    found, ofs := false, 0;
    TooShort(archive, sig, recordSize);
    if |archive| < recordSize {
      return;
    }
    var cur: int := FirstWindow(|archive|);
    ghost var above := |archive| - 3;
    NotPastEnd(archive, sig, recordSize);
    while true
      invariant -STEP <= cur <= |archive| && (cur < 0 ==> |archive| > WINDOW)
      invariant |archive| - cur >= WINDOW || cur == 0
      invariant (above == |archive| - 3 && cur == FirstWindow(|archive|)) || (above == cur + STEP && |archive| - cur >= WINDOW)
      invariant cur >= 0 ==> Lowest(cur, |archive|, recordSize) == Reach(|archive|, recordSize)
      invariant cur < 0 ==> above == cur + STEP == Reach(|archive|, recordSize)
      invariant NoneFrom(archive, sig, recordSize, above)
      decreases cur + STEP
    {
      Wraps(cur, |archive|);
      var left := (|archive| - cur) % TWO_64;
      var n := if left < WINDOW then left else WINDOW;
      var buf := ReadAt(archive, cur % TWO_64, n);
      if |buf| != n {
        NoneSays(archive, sig, recordSize, above);
        return;
      }
      var i := ScanWindow(archive, sig, recordSize, cur, buf);
      Lower(cur, |archive|, recordSize);
      if i >= 0 {
        LastHere(archive, sig, recordSize, cur + i, above, cur + n);
        found, ofs := true, cur + i;
        return;
      }
      NoneLower(archive, sig, recordSize, cur, above, cur + n);
      above := cur;
      if cur == 0 || |archive| - cur >= 0xFFFF + recordSize {
        NoneSays(archive, sig, recordSize, above);
        return;
      }
      cur := Signed64((cur - STEP) % TWO_64);
    }
  }

  ghost predicate NoneFrom(archive: seq<byte>, sig: nat, recordSize: nat, p: int) {
    forall q :: q >= p ==> !Here(archive, sig, recordSize, q)
  }

  lemma TooShort(archive: seq<byte>, sig: nat, recordSize: nat)
    ensures |archive| < recordSize ==> forall q :: q >= 0 ==> !Here(archive, sig, recordSize, q)
  {}

  lemma NotPastEnd(archive: seq<byte>, sig: nat, recordSize: nat)
    ensures NoneFrom(archive, sig, recordSize, |archive| - 3)
  {}

  lemma NoneSays(archive: seq<byte>, sig: nat, recordSize: nat, p: int)
    requires NoneFrom(archive, sig, recordSize, p)
    ensures forall q :: q >= p ==> !Here(archive, sig, recordSize, q)
  {}

  lemma LastHere(archive: seq<byte>, sig: nat, recordSize: nat, p: int, above: int, end: int)
    requires NoneFrom(archive, sig, recordSize, above) && above <= end - 3
    requires forall q :: p < q && q + 4 <= end ==> !Here(archive, sig, recordSize, q)
    ensures forall q :: q > p ==> !Here(archive, sig, recordSize, q)
  {
    hide Here;
  }

  lemma NoneLower(archive: seq<byte>, sig: nat, recordSize: nat, cur: int, above: int, end: int)
    requires NoneFrom(archive, sig, recordSize, above) && above <= end - 3
    requires forall q :: cur <= q && q + 4 <= end ==> !Here(archive, sig, recordSize, q)
    ensures NoneFrom(archive, sig, recordSize, cur)
  {
    hide Here;
  }

  lemma Lower(cur: int, size: nat, recordSize: nat)
    requires 0 <= cur
    ensures Lowest(cur, size, recordSize) <= cur
    ensures cur == 0 || size - cur >= 0xFFFF + recordSize || cur < STEP ==> Lowest(cur, size, recordSize) == cur
    ensures cur >= STEP && cur != 0 && size - cur < 0xFFFF + recordSize ==>
      Lowest(cur, size, recordSize) == Lowest(cur - STEP, size, recordSize)
    decreases cur
  {
    if cur != 0 && size - cur < 0xFFFF + recordSize && cur >= STEP {
      Lower(cur - STEP, size, recordSize);
    }
  }

  // ---------- what the scan reaches ----------

  const END_SIG := 0x0605_4B50
  const END_SIZE := 22

  lemma {:induction false} LowestFrom(size: nat, k: nat)
    requires size > WINDOW && k <= Min(16, (size - WINDOW) / STEP)
    ensures Lowest(size - WINDOW - STEP * k, size, END_SIZE) == size - WINDOW - STEP * Min(16, (size - WINDOW) / STEP)
    decreases 16 - k
  {
    if k < Min(16, (size - WINDOW) / STEP) {
      LowestFrom(size, k + 1);
    }
  }

  // Sixteen whole steps, or as many as fit.
  lemma ReachIs(size: nat)
    ensures Reach(size, END_SIZE) == if size <= WINDOW then 0 else size - WINDOW - STEP * Min(16, (size - WINDOW) / STEP)
  {
    if size > WINDOW {
      LowestFrom(size, 0);
    }
  }

  // A record whose comment's length fits in 16 bits may begin here.
  predicate MayBegin(size: nat, p: nat) {
    p + END_SIZE <= size <= p + END_SIZE + 0xFFFF
  }

  ghost predicate ReachesAll(size: nat) {
    forall p: nat :: MayBegin(size, p) ==> p >= Reach(size, END_SIZE)
  }

  // Which sizes of archive have every record reached. The others are those where the last step back
  // would have led before the beginning.
  lemma ReachesAllIff(size: nat)
    ensures ReachesAll(size) <==>
      size <= WINDOW || (size <= END_SIZE + 0xFFFF && (size - WINDOW) % STEP == 0) || size >= WINDOW + 16 * STEP
  {
    ReachIs(size);
    if WINDOW < size < WINDOW + 16 * STEP {
      var p := FirstPlace(size);
      assert MayBegin(size, p);
      var d := size - WINDOW;
      assert d == STEP * (d / STEP) + d % STEP && d / STEP <= 15;
      if size <= END_SIZE + 0xFFFF && d % STEP == 0 {
        assert Reach(size, END_SIZE) == 0;
      } else {
        assert p < Reach(size, END_SIZE);
      }
    }
  }

  function FirstPlace(size: nat): nat {
    if size < END_SIZE + 0xFFFF then 0 else size - END_SIZE - 0xFFFF
  }

  // An archive with nothing but an end record's signature.
  function Lone(size: nat, p: nat): (r: seq<byte>)
    requires p + END_SIZE <= size
    ensures |r| == size
  {
    seq(p, _ => 0 as byte) + [0x50, 0x4B, 0x05, 0x06] + seq(size - p - 4, _ => 0 as byte)
  }

  lemma LoneHere(size: nat, p: nat, q: int)
    requires p + END_SIZE <= size
    ensures Here(Lone(size, p), END_SIG, END_SIZE, q) <==> q == p
  {
    var s := Lone(size, p);
    if 0 <= q && q + END_SIZE <= size {
      assert s[q] == (if q == p then 0x50 else if q == p + 1 then 0x4B else if q == p + 2 then 0x05 else if q == p + 3 then 0x06 else 0);
      assert q == p ==> s[q + 1] == 0x4B && s[q + 2] == 0x05 && s[q + 3] == 0x06;
    }
  }

  // On each other size there is an archive whose end record is missed.
  lemma Missed(size: nat) returns (archive: seq<byte>, p: nat)
    requires !ReachesAll(size)
    ensures |archive| == size && MayBegin(size, p) && Here(archive, END_SIG, END_SIZE, p)
    ensures forall q :: q >= Reach(size, END_SIZE) ==> !Here(archive, END_SIG, END_SIZE, q)
  {
    hide Lowest, Reach, Here, Lone;
    p :| MayBegin(size, p) && p < Reach(size, END_SIZE);
    archive := Lone(size, p);
    forall q: int ensures Here(archive, END_SIG, END_SIZE, q) <==> q == p {
      LoneHere(size, p, q);
    }
  }

  // An archive that ends with a record without comment has it found.
  lemma ReachesEnd(size: nat)
    requires size >= END_SIZE
    ensures Reach(size, END_SIZE) <= size - END_SIZE
  {
    ReachIs(size);
  }
}
