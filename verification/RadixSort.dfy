/** The two-pass radix sort of symbol frequencies. A result is correct when it is sorted by key and
    keeps, for every key, the sequence of records with that key: a stable sorted permutation. */
module RadixSort {
  import opened Sums
  import opened MinimumRedundancy

  const BUCKETS := 256

  // The low byte of the key on pass 0, the high byte on pass 1.
  function Digit(x: SymFreq, pass: nat): (d: nat)
    ensures d < BUCKETS
  {
    if pass == 0 then x.key % 256 else x.key / 256 % 256
  }

  // The records whose digit is b, in order.
  function ByDigit(s: seq<SymFreq>, pass: nat, b: nat): seq<SymFreq> {
    if s == [] then []
    else
      var rest, last := s[..|s| - 1], s[|s| - 1];
      ByDigit(rest, pass, b) + One(last, pass, b)
  }

  // A record on its own, selected or not.
  function One(x: SymFreq, pass: nat, b: nat): (r: seq<SymFreq>) {
    if Digit(x, pass) == b then [x] else []
  }

  // The records whose key is k, in order.
  function ByKey(s: seq<SymFreq>, k: nat): seq<SymFreq> {
    if s == [] then []
    else
      var rest, last := s[..|s| - 1], s[|s| - 1];
      ByKey(rest, k) + (if last.key == k then [last] else [])
  }

  ghost predicate SortedByKey(s: seq<SymFreq>) {
    forall i, j :: 0 <= i <= j < |s| ==> s[i].key <= s[j].key
  }

  ghost predicate SortedByDigit(s: seq<SymFreq>, pass: nat) {
    forall i, j :: 0 <= i <= j < |s| ==> Digit(s[i], pass) <= Digit(s[j], pass)
  }

  ghost predicate StablySorted(s: seq<SymFreq>, r: seq<SymFreq>) {
    && SortedByKey(r)
    && forall k: nat :: ByKey(r, k) == ByKey(s, k)
  }

  // One pass: sorted by the digit, order kept within each digit.
  ghost predicate PassDone(s: seq<SymFreq>, r: seq<SymFreq>, pass: nat) {
    && SortedByDigit(r, pass)
    && forall b: nat :: ByDigit(r, pass, b) == ByDigit(s, pass, b)
  }

  // ---------- facts about selections ----------

  lemma ByDigitSnoc(s: seq<SymFreq>, x: SymFreq, pass: nat, b: nat)
    ensures ByDigit(s + [x], pass, b) == ByDigit(s, pass, b) + One(x, pass, b)
  {
    assert (s + [x])[..|s|] == s;
  }

  lemma {:induction false} ByDigitConcat(s: seq<SymFreq>, t: seq<SymFreq>, pass: nat, b: nat)
    ensures ByDigit(s + t, pass, b) == ByDigit(s, pass, b) + ByDigit(t, pass, b)
    decreases |t|
  {
    if t == [] {
      assert s + t == s;
    } else {
      hide *;
      var t', last := t[..|t| - 1], t[|t| - 1];
      ByDigitConcat(s, t', pass, b);
      ByDigitLast(t, pass, b);
      ByDigitLast(s + t, pass, b);
      assert (s + t)[..|s + t| - 1] == s + t';
      Assoc(ByDigit(s, pass, b), ByDigit(t', pass, b), One(last, pass, b));
    }
  }

  lemma ByDigitLast(s: seq<SymFreq>, pass: nat, b: nat)
    requires s != []
    ensures ByDigit(s, pass, b) == ByDigit(s[..|s| - 1], pass, b) + One(s[|s| - 1], pass, b)
  {}

  lemma Assoc<T>(a: seq<T>, b: seq<T>, c: seq<T>)
    ensures (a + b) + c == a + (b + c)
  {}

  lemma {:induction false} ByDigitAll(s: seq<SymFreq>, pass: nat, b: nat)
    ensures forall i :: 0 <= i < |ByDigit(s, pass, b)| ==> Digit(ByDigit(s, pass, b)[i], pass) == b
    ensures |ByDigit(s, pass, b)| <= |s|
  {
    if s != [] {
      ByDigitAll(s[..|s| - 1], pass, b);
    }
  }

  // Selecting from records that all have digit c.
  lemma {:induction false} ByDigitUniform(s: seq<SymFreq>, pass: nat, b: nat, c: nat)
    requires forall i :: 0 <= i < |s| ==> Digit(s[i], pass) == c
    ensures ByDigit(s, pass, b) == if b == c then s else []
  {
    if s != [] {
      ByDigitUniform(s[..|s| - 1], pass, b, c);
    }
  }

  lemma OneCommute(x: SymFreq, p: nat, b: nat, q: nat, c: nat)
    ensures ByDigit(One(x, p, b), q, c) == ByDigit(One(x, q, c), p, b)
  {}

  lemma {:induction false} ByDigitCommute(s: seq<SymFreq>, p: nat, b: nat, q: nat, c: nat)
    ensures ByDigit(ByDigit(s, p, b), q, c) == ByDigit(ByDigit(s, q, c), p, b)
  {
    if s == [] {
      assert ByDigit(s, p, b) == [] == ByDigit(s, q, c);
    } else {
      hide ByDigit, One;
      var rest, last := s[..|s| - 1], s[|s| - 1];
      assert s == rest + [last];
      ByDigitCommute(rest, p, b, q, c);
      ByDigitSnoc(rest, last, p, b);
      ByDigitSnoc(rest, last, q, c);
      OneCommute(last, p, b, q, c);
      ByDigitConcat(ByDigit(rest, p, b), One(last, p, b), q, c);
      ByDigitConcat(ByDigit(rest, q, c), One(last, q, c), p, b);
    }
  }

  lemma {:induction false} ByKeyIsTwoDigits(s: seq<SymFreq>, k: nat)
    requires forall i :: 0 <= i < |s| ==> s[i].key < 0x1_0000
    requires k < 0x1_0000
    ensures ByKey(s, k) == ByDigit(ByDigit(s, 0, k % 256), 1, k / 256)
  {
    if s != [] {
      hide *;
      var rest, last := s[..|s| - 1], s[|s| - 1];
      var low, high := k % 256, k / 256;
      ByKeyIsTwoDigits(rest, k);
      ByDigitLast(s, 0, low);
      ByKeyLast(s, k);
      ByDigitConcat(ByDigit(rest, 0, low), One(last, 0, low), 1, high);
      OneKey(last, k);
    } else {
      NoneSelected(k);
    }
  }

  lemma ByKeyLast(s: seq<SymFreq>, k: nat)
    requires s != []
    ensures ByKey(s, k) == ByKey(s[..|s| - 1], k) + if s[|s| - 1].key == k then [s[|s| - 1]] else []
  {}

  lemma NoneSelected(k: nat)
    ensures ByKey([], k) == ByDigit(ByDigit([], 0, k % 256), 1, k / 256)
  {}

  lemma OneKey(x: SymFreq, k: nat)
    requires x.key < 0x1_0000 && k < 0x1_0000
    ensures ByDigit(One(x, 0, k % 256), 1, k / 256) == if x.key == k then [x] else []
  {}

  lemma {:induction false} ByKeyNone(s: seq<SymFreq>, k: nat)
    requires forall i :: 0 <= i < |s| ==> s[i].key != k
    ensures ByKey(s, k) == []
  {
    if s != [] {
      ByKeyNone(s[..|s| - 1], k);
    }
  }

  // Two records with the same digit keep their order in the selection.
  lemma {:induction false} PairSelected(s: seq<SymFreq>, pass: nat, b: nat, i: nat, j: nat) returns (p: nat, q: nat)
    requires i <= j < |s| && Digit(s[i], pass) == b && Digit(s[j], pass) == b
    ensures p <= q < |ByDigit(s, pass, b)|
    ensures ByDigit(s, pass, b)[p] == s[i] && ByDigit(s, pass, b)[q] == s[j]
  {
    var rest := s[..|s| - 1];
    if j < |rest| {
      p, q := PairSelected(rest, pass, b, i, j);
    } else {
      q := |ByDigit(rest, pass, b)|;
      if i < |rest| {
        var r;
        p, r := PairSelected(rest, pass, b, i, i);
      } else {
        p := q;
      }
    }
  }

  // Every selected record comes from a place in s, in order.
  lemma {:induction false} Origin(s: seq<SymFreq>, pass: nat, b: nat, p: nat, q: nat) returns (i: nat, j: nat)
    requires p <= q < |ByDigit(s, pass, b)|
    ensures i <= j < |s| && s[i] == ByDigit(s, pass, b)[p] && s[j] == ByDigit(s, pass, b)[q]
  {
    var rest := s[..|s| - 1];
    if q < |ByDigit(rest, pass, b)| {
      i, j := Origin(rest, pass, b, p, q);
    } else {
      j := |rest|;
      if p == q {
        i := j;
      } else {
        var r;
        i, r := Origin(rest, pass, b, p, p);
      }
    }
  }

  // ---------- two passes make a stable sort ----------

  lemma TwoPassesSort(s: seq<SymFreq>, t: seq<SymFreq>, u: seq<SymFreq>)
    requires forall i :: 0 <= i < |u| ==> u[i].key < 0x1_0000
    requires PassDone(s, t, 0) && PassDone(t, u, 1)
    ensures SortedByKey(u)
  {
    forall i, j | 0 <= i <= j < |u| ensures u[i].key <= u[j].key {
      var b := Digit(u[i], 1);
      if b == Digit(u[j], 1) {
        var p, q := PairSelected(u, 1, b, i, j);
        assert ByDigit(u, 1, b) == ByDigit(t, 1, b);
        var i', j' := Origin(t, 1, b, p, q);
        assert Digit(t[i'], 0) <= Digit(t[j'], 0);
      }
    }
  }

  lemma TwoPassesStable(s: seq<SymFreq>, t: seq<SymFreq>, u: seq<SymFreq>)
    requires forall i :: 0 <= i < |s| ==> s[i].key < 0x1_0000
    requires forall i :: 0 <= i < |u| ==> u[i].key < 0x1_0000
    requires PassDone(s, t, 0) && PassDone(t, u, 1)
    ensures StablySorted(s, u)
  {
    TwoPassesSort(s, t, u);
    forall k: nat ensures ByKey(u, k) == ByKey(s, k) {
      if k < 0x1_0000 {
        var lo, hi := k % 256, k / 256;
        ByKeyIsTwoDigits(u, k);
        ByKeyIsTwoDigits(s, k);
        ByDigitCommute(u, 0, lo, 1, hi);
        ByDigitCommute(t, 0, lo, 1, hi);
        assert ByDigit(u, 1, hi) == ByDigit(t, 1, hi);
        assert ByDigit(t, 0, lo) == ByDigit(s, 0, lo);
      } else {
        ByKeyNone(u, k);
        ByKeyNone(s, k);
      }
    }
  }

  // ---------- consequences of stability ----------

  lemma {:induction false} CountByKey(s: seq<SymFreq>, x: SymFreq)
    ensures multiset(s)[x] == multiset(ByKey(s, x.key))[x]
  {
    if s != [] {
      CountByKey(s[..|s| - 1], x);
      assert s == s[..|s| - 1] + [s[|s| - 1]];
    }
  }

  // A stably sorted result is a permutation of its input.
  lemma StableIsPermutation(s: seq<SymFreq>, r: seq<SymFreq>)
    requires StablySorted(s, r)
    ensures multiset(r) == multiset(s)
  {
    forall x: SymFreq ensures multiset(r)[x] == multiset(s)[x] {
      CountByKey(r, x);
      CountByKey(s, x);
    }
  }

  // ---------- one pass ----------

  // How many of the records have a digit below b; where bucket b starts.
  function Start(s: seq<SymFreq>, pass: nat, b: nat): nat {
    if b == 0 then 0 else Start(s, pass, b - 1) + |ByDigit(s, pass, b - 1)|
  }

  lemma {:induction false} StartMono(s: seq<SymFreq>, pass: nat, b: nat, c: nat)
    requires b <= c
    ensures Start(s, pass, b) <= Start(s, pass, c)
  {
    if b < c {
      StartMono(s, pass, b, c - 1);
    }
  }

  lemma {:induction false} StartAfterAppend(s: seq<SymFreq>, x: SymFreq, pass: nat, b: nat)
    ensures Start(s + [x], pass, b) == Start(s, pass, b) + (if Digit(x, pass) < b then 1 else 0)
  {
    if b > 0 {
      StartAfterAppend(s, x, pass, b - 1);
      assert (s + [x])[..|s|] == s;
    }
  }

  lemma {:induction false} StartAll(s: seq<SymFreq>, pass: nat)
    ensures Start(s, pass, BUCKETS) == |s|
  {
    if s == [] {
      StartEmpty(pass, BUCKETS);
    } else {
      var rest, last := s[..|s| - 1], s[|s| - 1];
      StartAll(rest, pass);
      StartAfterAppend(rest, last, pass, BUCKETS);
      assert s == rest + [last];
    }
  }

  lemma {:induction false} StartEmpty(pass: nat, b: nat)
    ensures Start([], pass, b) == 0
  {
    if b > 0 {
      StartEmpty(pass, b - 1);
    }
  }

  // A longer prefix selects at least as many records.
  lemma PrefixSelects(s: seq<SymFreq>, pass: nat, b: nat, i: nat)
    requires i <= |s|
    ensures ByDigit(s[..i], pass, b) <= ByDigit(s, pass, b)
  {
    ByDigitConcat(s[..i], s[i..], pass, b);
    assert s == s[..i] + s[i..];
  }

  lemma NextSelected(s: seq<SymFreq>, pass: nat, i: nat, b: nat)
    requires i < |s|
    ensures ByDigit(s[..i + 1], pass, b)
         == ByDigit(s[..i], pass, b) + One(s[i], pass, b)
  {
    assert s[..i + 1][..i] == s[..i];
  }

  // Bucket b of the output holds what has been selected so far.
  ghost predicate BucketFilled(r: seq<SymFreq>, cur: seq<SymFreq>, pass: nat, i: nat, b: nat)
    requires i <= |cur|
  {
    var chosen := ByDigit(cur[..i], pass, b);
    && Start(cur, pass, b) + |chosen| <= |r|
    && r[Start(cur, pass, b)..Start(cur, pass, b) + |chosen|] == chosen
  }

  ghost predicate AllFilled(r: seq<SymFreq>, cur: seq<SymFreq>, pass: nat, i: nat)
    requires i <= |cur|
  {
    forall b :: 0 <= b < BUCKETS ==> BucketFilled(r, cur, pass, i, b)
  }

  // r is sorted by digit, all digits below c, and selects like cur on those digits.
  ghost predicate Agrees(r: seq<SymFreq>, cur: seq<SymFreq>, pass: nat, c: nat) {
    && SortedByDigit(r, pass)
    && (forall i :: 0 <= i < |r| ==> Digit(r[i], pass) < c)
    && forall b: nat :: ByDigit(r, pass, b) == if b < c then ByDigit(cur, pass, b) else []
  }

  // Appending the next bucket.
  lemma AgreesStep(r: seq<SymFreq>, cur: seq<SymFreq>, pass: nat, c: nat)
    requires Agrees(r, cur, pass, c)
    ensures Agrees(r + ByDigit(cur, pass, c), cur, pass, c + 1)
  {
    var bucket := ByDigit(cur, pass, c);
    ByDigitAll(cur, pass, c);
    forall b: nat ensures ByDigit(r + bucket, pass, b) == if b < c + 1 then ByDigit(cur, pass, b) else [] {
      ByDigitConcat(r, bucket, pass, b);
      ByDigitUniform(bucket, pass, b, c);
    }
  }

  lemma WholeBucket(r: seq<SymFreq>, cur: seq<SymFreq>, pass: nat, d: nat)
    requires d < BUCKETS && BucketFilled(r, cur, pass, |cur|, d)
    ensures Start(cur, pass, d) <= Start(cur, pass, d + 1) <= |r|
    ensures r[..Start(cur, pass, d + 1)] == r[..Start(cur, pass, d)] + ByDigit(cur, pass, d)
  {
    assert cur[..|cur|] == cur;
  }

  // The buckets laid side by side are sorted and keep the order within each digit.
  lemma {:induction false} BucketsSideBySide(r: seq<SymFreq>, cur: seq<SymFreq>, pass: nat, c: nat)
    requires |r| == |cur| && c <= BUCKETS
    requires AllFilled(r, cur, pass, |cur|)
    ensures Start(cur, pass, c) <= |r|
    ensures Agrees(r[..Start(cur, pass, c)], cur, pass, c)
  {
    if c > 0 {
      var d := c - 1;
      BucketsSideBySide(r, cur, pass, d);
      WholeBucket(r, cur, pass, d);
      AgreesStep(r[..Start(cur, pass, d)], cur, pass, d);
    }
  }

  lemma BucketsMakePass(r: seq<SymFreq>, cur: seq<SymFreq>, pass: nat)
    requires |r| == |cur|
    requires AllFilled(r, cur, pass, |cur|)
    ensures PassDone(cur, r, pass)
  {
    BucketsSideBySide(r, cur, pass, BUCKETS);
    StartAll(cur, pass);
    assert r[..|r|] == r;
    forall b: nat ensures ByDigit(r, pass, b) == ByDigit(cur, pass, b) {
      if b >= BUCKETS {
        ByDigitNone(cur, pass, b);
      }
    }
  }

  lemma {:induction false} ByDigitNone(s: seq<SymFreq>, pass: nat, b: nat)
    requires b >= BUCKETS
    ensures ByDigit(s, pass, b) == []
  {
    if s != [] {
      ByDigitNone(s[..|s| - 1], pass, b);
    }
  }

  // The place of record i: the end of what its bucket already holds.
  function PlaceOf(cur: seq<SymFreq>, pass: nat, i: nat): nat
    requires i < |cur|
  {
    Start(cur, pass, Digit(cur[i], pass)) + |ByDigit(cur[..i], pass, Digit(cur[i], pass))|
  }

  lemma PlacedSame(r: seq<SymFreq>, cur: seq<SymFreq>, pass: nat, i: nat)
    requires |r| == |cur| && i < |cur| && PlaceOf(cur, pass, i) < |r|
    requires BucketFilled(r, cur, pass, i, Digit(cur[i], pass))
    ensures BucketFilled(r[PlaceOf(cur, pass, i) := cur[i]], cur, pass, i + 1, Digit(cur[i], pass))
  {
    var d := Digit(cur[i], pass);
    NextSelected(cur, pass, i, d);
    var at, lo, r' := PlaceOf(cur, pass, i), Start(cur, pass, d), r[PlaceOf(cur, pass, i) := cur[i]];
    assert r'[lo..at + 1] == r[lo..at] + [cur[i]];
  }

  lemma PlacedOther(r: seq<SymFreq>, cur: seq<SymFreq>, pass: nat, i: nat, b: nat)
    requires |r| == |cur| && i < |cur| && b < BUCKETS && b != Digit(cur[i], pass)
    requires PlaceOf(cur, pass, i) < |r|
    requires BucketFilled(r, cur, pass, i, b)
    ensures BucketFilled(r[PlaceOf(cur, pass, i) := cur[i]], cur, pass, i + 1, b)
  {
    NextSelected(cur, pass, i, b);
    PlaceOutside(cur, pass, i, b);
    var lo := Start(cur, pass, b);
    var hi := lo + |ByDigit(cur[..i], pass, b)|;
    assert r[PlaceOf(cur, pass, i) := cur[i]][lo..hi] == r[lo..hi];
  }

  lemma BucketEnd(cur: seq<SymFreq>, pass: nat, i: nat, b: nat)
    requires i <= |cur|
    ensures Start(cur, pass, b) + |ByDigit(cur[..i], pass, b)| <= Start(cur, pass, b + 1)
  {
    PrefixSelects(cur, pass, b, i);
  }

  lemma PlaceBeforeEnd(cur: seq<SymFreq>, pass: nat, i: nat)
    requires i < |cur|
    ensures PlaceOf(cur, pass, i) < Start(cur, pass, Digit(cur[i], pass) + 1)
  {
    var d := Digit(cur[i], pass);
    NextSelected(cur, pass, i, d);
    BucketEnd(cur, pass, i + 1, d);
  }

  // The place of record i is outside every other bucket.
  lemma PlaceOutside(cur: seq<SymFreq>, pass: nat, i: nat, b: nat)
    requires i < |cur| && b < BUCKETS && b != Digit(cur[i], pass)
    ensures var at, lo := PlaceOf(cur, pass, i), Start(cur, pass, b);
      at < lo || lo + |ByDigit(cur[..i], pass, b)| <= at
  {
    hide ByDigit, Start;
    var d := Digit(cur[i], pass);
    BucketEnd(cur, pass, i, b);
    PlaceBeforeEnd(cur, pass, i);
    if b < d {
      StartMono(cur, pass, b + 1, d);
    } else {
      StartMono(cur, pass, d + 1, b);
    }
  }

  // Placing the next record keeps every bucket's contents.
  lemma Placed(r: seq<SymFreq>, cur: seq<SymFreq>, pass: nat, i: nat)
    requires |r| == |cur| && i < |cur| && PlaceOf(cur, pass, i) < |r|
    requires AllFilled(r, cur, pass, i)
    ensures AllFilled(r[PlaceOf(cur, pass, i) := cur[i]], cur, pass, i + 1)
  {
    var r', k := r[PlaceOf(cur, pass, i) := cur[i]], i + 1;
    forall b | 0 <= b < BUCKETS ensures BucketFilled(r', cur, pass, k, b) {
      if b == Digit(cur[i], pass) {
        PlacedSame(r, cur, pass, i);
      } else {
        PlacedOther(r, cur, pass, i, b);
      }
    }
  }

  lemma NonePlaced(r: seq<SymFreq>, cur: seq<SymFreq>, pass: nat)
    requires |r| == |cur|
    ensures AllFilled(r, cur, pass, 0)
  {
    StartAll(cur, pass);
    forall b | 0 <= b < BUCKETS ensures BucketFilled(r, cur, pass, 0, b) {
      StartMono(cur, pass, b, BUCKETS);
    }
  }

  method Pass(cur: array<SymFreq>, next: array<SymFreq>, n: nat, hist: array<nat>, pass: nat)
    requires cur != next && n <= cur.Length && n <= next.Length
    requires hist.Length == 2 * BUCKETS && pass < 2
    requires forall b :: 0 <= b < BUCKETS ==> hist[pass * BUCKETS + b] == |ByDigit(cur[..n], pass, b)|
    modifies next
    ensures PassDone(cur[..n], next[..n], pass)
  {
    ghost var s := cur[..n];
    var offsets := Offsets(hist, pass * BUCKETS, pass, s);
    NonePlaced(next[..n], s, pass);
    for i := 0 to n
      invariant cur[..n] == s
      invariant OffsetsAt(offsets[..], s, pass, i)
      invariant AllFilled(next[..n], s, pass, i)
    {
      PlaceNext(cur, next, n, offsets, pass, i, s);
    }
    assert s[..n] == s;
    BucketsMakePass(next[..n], s, pass);
  }

  // Where the next record of each bucket goes once i records are placed.
  ghost predicate OffsetsAt(offsets: seq<nat>, s: seq<SymFreq>, pass: nat, i: nat)
    requires i <= |s|
  {
    && |offsets| == BUCKETS
    && forall b :: 0 <= b < BUCKETS ==> offsets[b] == Start(s, pass, b) + |ByDigit(s[..i], pass, b)|
  }

  lemma StartNext(s: seq<SymFreq>, pass: nat, b: nat)
    ensures Start(s, pass, 0) == 0
    ensures Start(s, pass, b + 1) == Start(s, pass, b) + |ByDigit(s, pass, b)|
  {}

  lemma NoneYet(s: seq<SymFreq>, pass: nat, b: nat)
    ensures ByDigit(s[..0], pass, b) == []
  {}

  // Prefix sums of the bucket sizes.
  method Offsets(hist: array<nat>, base: nat, ghost pass: nat, ghost s: seq<SymFreq>) returns (offsets: array<nat>)
    requires base + BUCKETS <= hist.Length
    requires forall b :: 0 <= b < BUCKETS ==> hist[base + b] == |ByDigit(s, pass, b)|
    ensures fresh(offsets)
    ensures OffsetsAt(offsets[..], s, pass, 0)
  {
    hide ByDigit, Start, Digit;
    offsets := new nat[BUCKETS];
    var curOfs := 0;
    StartNext(s, pass, 0);
    for i := 0 to BUCKETS
      invariant curOfs == Start(s, pass, i)
      invariant forall b :: 0 <= b < i ==> offsets[b] == Start(s, pass, b)
    {
      StartNext(s, pass, i);
      offsets[i] := curOfs;
      curOfs := curOfs + hist[base + i];
    }
    forall b | 0 <= b < BUCKETS ensures |ByDigit(s[..0], pass, b)| == 0 {
      NoneYet(s, pass, b);
    }
  }

  // Moves one record to the next free place of its bucket.
  method PlaceNext(cur: array<SymFreq>, next: array<SymFreq>, n: nat, offsets: array<nat>, pass: nat, i: nat,
                   ghost s: seq<SymFreq>)
    requires cur != next && i < n <= cur.Length && n <= next.Length && cur[..n] == s
    requires OffsetsAt(offsets[..], s, pass, i)
    requires AllFilled(next[..n], s, pass, i)
    modifies next, offsets
    ensures OffsetsAt(offsets[..], s, pass, i + 1)
    ensures AllFilled(next[..n], s, pass, i + 1)
  {
    ghost var before := next[..n];
    var d := Digit(cur[i], pass);
    PlaceInRange(s, pass, i);
    next[offsets[d]] := cur[i];
    assert next[..n] == before[offsets[d] := s[i]];
    offsets[d] := offsets[d] + 1;
    Placed(before, s, pass, i);
    forall b | 0 <= b < |offsets[..]|
      ensures offsets[..][b] == Start(s, pass, b) + |ByDigit(s[..i + 1], pass, b)|
    {
      NextSelected(s, pass, i, b);
    }
  }

  // The next free place of a bucket that still has records to come lies inside the array.
  lemma PlaceInRange(s: seq<SymFreq>, pass: nat, i: nat)
    requires i < |s|
    ensures PlaceOf(s, pass, i) < |s|
  {
    var d := Digit(s[i], pass);
    NextSelected(s, pass, i, d);
    PrefixSelects(s, pass, d, i + 1);
    StartMono(s, pass, d + 1, BUCKETS);
    StartAll(s, pass);
  }

  // If every high byte is zero, the records are already in order of their high bytes.
  lemma {:induction false} AllInBucketZero(s: seq<SymFreq>, i: nat)
    requires i < |s| && |ByDigit(s, 1, 0)| == |s|
    ensures Digit(s[i], 1) == 0
  {
    var rest := s[..|s| - 1];
    ByDigitAll(rest, 1, 0);
    if i < |rest| {
      AllInBucketZero(rest, i);
    }
  }

  lemma SkippedPass(s: seq<SymFreq>)
    requires |ByDigit(s, 1, 0)| == |s|
    ensures PassDone(s, s, 1)
  {
    forall i, j | 0 <= i <= j < |s| ensures Digit(s[i], 1) <= Digit(s[j], 1) {
      AllInBucketZero(s, i);
    }
  }

  // Records keep 16-bit keys when a pass moves them.
  lemma PassKeepsKeys(s: seq<SymFreq>, r: seq<SymFreq>, pass: nat)
    requires PassDone(s, r, pass)
    requires forall i :: 0 <= i < |s| ==> s[i].key < 0x1_0000
    ensures forall i :: 0 <= i < |r| ==> r[i].key < 0x1_0000
  {
    forall i | 0 <= i < |r| ensures r[i].key < 0x1_0000 {
      var b := Digit(r[i], pass);
      var p, q := PairSelected(r, pass, b, i, i);
      assert ByDigit(r, pass, b) == ByDigit(s, pass, b);
      var j, j' := Origin(s, pass, b, p, p);
    }
  }

  // Each bucket's size, counted in one sweep over both bytes.
  method Histogram(s: array<SymFreq>, n: nat) returns (hist: array<nat>)
    requires n <= s.Length
    ensures fresh(hist) && hist.Length == 2 * BUCKETS
    ensures Counted(hist[..], s[..n])
  {
    hist := new nat[2 * BUCKETS](_ => 0);
    for i := 0 to n
      invariant Counted(hist[..], s[..i])
    {
      var lo, hi := Digit(s[i], 0), BUCKETS + Digit(s[i], 1);
      hist[lo] := hist[lo] + 1;
      hist[hi] := hist[hi] + 1;
      assert s[..i + 1][..i] == s[..i];
    }
  }

  ghost predicate Counted(hist: seq<nat>, s: seq<SymFreq>) {
    && |hist| == 2 * BUCKETS
    && (forall b :: 0 <= b < BUCKETS ==> hist[b] == |ByDigit(s, 0, b)|)
    && forall b :: BUCKETS <= b < 2 * BUCKETS ==> hist[b] == |ByDigit(s, 1, b - BUCKETS)|
  }

  method RadixSortSyms(syms0: array<SymFreq>, syms1: array<SymFreq>, n: nat) returns (sorted: array<SymFreq>)
    requires syms0 != syms1 && n <= syms0.Length && n <= syms1.Length
    requires forall i :: 0 <= i < n ==> syms0[i].key < 0x1_0000
    modifies syms0, syms1
    ensures sorted == syms0 || sorted == syms1
    ensures StablySorted(old(syms0[..n]), sorted[..n])
  {
    ghost var s := syms0[..n];
    var hist := Histogram(syms0, n);
    var totalPasses := 2;
    while totalPasses > 1 && n == hist[(totalPasses - 1) * BUCKETS]
      invariant 1 <= totalPasses <= 2
      invariant totalPasses < 2 ==> |ByDigit(s, 1, 0)| == n
    {
      totalPasses := totalPasses - 1;
    }
    assert forall b :: 0 <= b < BUCKETS ==> hist[0 * BUCKETS + b] == |ByDigit(s, 0, b)|;
    Pass(syms0, syms1, n, hist, 0);
    ghost var t := syms1[..n];
    PassKeepsKeys(s, t, 0);
    sorted := syms1;
    if totalPasses == 2 {
      HighCounts(s, t);
      forall b | 0 <= b < BUCKETS ensures hist[1 * BUCKETS + b] == |ByDigit(t, 1, b)| {
        assert hist[..][BUCKETS + b] == |ByDigit(s, 1, b)|;
      }
      Pass(syms1, syms0, n, hist, 1);
      PassKeepsKeys(t, syms0[..n], 1);
      sorted := syms0;
    } else {
      HighCounts(s, t);
      SkippedPass(t);
    }
    TwoPassesStable(s, t, sorted[..n]);
  }

  // The first pass does not change how many records have each high byte.
  lemma HighCounts(s: seq<SymFreq>, t: seq<SymFreq>)
    requires PassDone(s, t, 0)
    ensures forall b: nat :: |ByDigit(t, 1, b)| == |ByDigit(s, 1, b)|
  {
    forall b: nat ensures |ByDigit(t, 1, b)| == |ByDigit(s, 1, b)| {
      HighCount(s, t, b, BUCKETS);
      assert Restrict(s, b, BUCKETS) == |ByDigit(s, 1, b)| by { RestrictAll(s, b); }
      assert Restrict(t, b, BUCKETS) == |ByDigit(t, 1, b)| by { RestrictAll(t, b); }
    }
  }

  // How many records have high byte b and a low byte below c.
  function Restrict(s: seq<SymFreq>, b: nat, c: nat): nat {
    if c == 0 then 0 else Restrict(s, b, c - 1) + |ByDigit(ByDigit(s, 0, c - 1), 1, b)|
  }

  lemma {:induction false} HighCount(s: seq<SymFreq>, t: seq<SymFreq>, b: nat, c: nat)
    requires PassDone(s, t, 0)
    ensures Restrict(t, b, c) == Restrict(s, b, c)
  {
    hide ByDigit, SortedByDigit;
    if c > 0 {
      HighCount(s, t, b, c - 1);
      assert ByDigit(t, 0, c - 1) == ByDigit(s, 0, c - 1);
    }
  }

  lemma {:induction false} RestrictStep(s: seq<SymFreq>, x: SymFreq, b: nat, c: nat)
    ensures Restrict(s + [x], b, c)
         == Restrict(s, b, c) + (if Digit(x, 1) == b && Digit(x, 0) < c then 1 else 0)
    decreases c
  {
    hide *;
    if c > 0 {
      RestrictStep(s, x, b, c - 1);
      RestrictUnfold(s, b, c);
      RestrictUnfold(s + [x], b, c);
      RestrictTerm(s, x, b, c - 1);
    } else {
      RestrictNone(s, b);
      RestrictNone(s + [x], b);
    }
  }

  lemma RestrictTerm(s: seq<SymFreq>, x: SymFreq, b: nat, c: nat)
    ensures |ByDigit(ByDigit(s + [x], 0, c), 1, b)|
         == |ByDigit(ByDigit(s, 0, c), 1, b)| + if Digit(x, 1) == b && Digit(x, 0) == c then 1 else 0
  {
    hide *;
    ByDigitSnoc(s, x, 0, c);
    ByDigitConcat(ByDigit(s, 0, c), One(x, 0, c), 1, b);
    OneBoth(x, b, c);
  }

  lemma RestrictUnfold(s: seq<SymFreq>, b: nat, c: nat)
    requires c > 0
    ensures Restrict(s, b, c) == Restrict(s, b, c - 1) + |ByDigit(ByDigit(s, 0, c - 1), 1, b)|
  {}

  lemma RestrictNone(s: seq<SymFreq>, b: nat)
    ensures Restrict(s, b, 0) == 0
  {}

  lemma OneBoth(x: SymFreq, b: nat, c: nat)
    ensures |ByDigit(One(x, 0, c), 1, b)| == if Digit(x, 1) == b && Digit(x, 0) == c then 1 else 0
  {}

  lemma {:induction false} RestrictAll(s: seq<SymFreq>, b: nat)
    ensures Restrict(s, b, BUCKETS) == |ByDigit(s, 1, b)|
  {
    if s == [] {
      RestrictEmpty(b, BUCKETS);
    } else {
      var rest, last := s[..|s| - 1], s[|s| - 1];
      RestrictAll(rest, b);
      RestrictStep(rest, last, b, BUCKETS);
      assert s == rest + [last];
    }
  }

  lemma {:induction false} RestrictEmpty(b: nat, c: nat)
    ensures Restrict([], b, c) == 0
  {
    if c > 0 {
      RestrictEmpty(b, c - 1);
    }
  }
}
