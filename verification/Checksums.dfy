/** The two checksums: Adler-32 with its reductions put off for thousands of bytes at a time (section
    8.2 of RFC 1950), and CRC-32 four bits at a time through a sixteen-entry table. */
module Checksums {
  import opened Arith
  import opened Lz77

  // ---------- Adler-32 ----------

  const ADLER_MOD := 65521
  const ADLER_RUN := 5552

  datatype Sums = Sums(s1: nat, s2: nat)

  // The definition: both sums reduced after every byte.
  function Adler(a: Sums, s: seq<byte>): (r: Sums)
    ensures a.s1 < ADLER_MOD && a.s2 < ADLER_MOD ==> r.s1 < ADLER_MOD && r.s2 < ADLER_MOD
  {
    if s == [] then a
    else
      var b := Adler(a, s[..|s| - 1]);
      var s1 := (b.s1 + s[|s| - 1]) % ADLER_MOD;
      Sums(s1, (b.s2 + s1) % ADLER_MOD)
  }

  // The same sums, never reduced.
  function Unreduced(a: Sums, s: seq<byte>): Sums {
    if s == [] then a
    else
      var b := Unreduced(a, s[..|s| - 1]);
      Sums(b.s1 + s[|s| - 1], b.s2 + b.s1 + s[|s| - 1])
  }

  // Reducing late is reducing early.
  lemma StepReduced(u1: nat, u2: nat, b: nat)
    ensures (u1 % ADLER_MOD + b) % ADLER_MOD == (u1 + b) % ADLER_MOD
    ensures (u2 % ADLER_MOD + (u1 + b) % ADLER_MOD) % ADLER_MOD == (u2 + u1 + b) % ADLER_MOD
  {}

  lemma {:induction false} ReducedAtEnd(a: Sums, s: seq<byte>)
    requires a.s1 < ADLER_MOD && a.s2 < ADLER_MOD
    ensures Adler(a, s) == Reduced(Unreduced(a, s))
  {
    if s != [] {
      var k := |s| - 1;
      ReducedAtEnd(a, s[..k]);
      var u := Unreduced(a, s[..k]);
      StepReduced(u.s1, u.s2, s[k]);
    }
  }

  function Reduced(u: Sums): Sums {
    Sums(u.s1 % ADLER_MOD, u.s2 % ADLER_MOD)
  }

  // A run of at most 5552 bytes cannot carry either sum past 32 bits.
  lemma {:induction false} RunFits(a: Sums, s: seq<byte>)
    requires a.s1 < ADLER_MOD && a.s2 < ADLER_MOD
    ensures Unreduced(a, s).s1 <= ADLER_MOD - 1 + 255 * |s|
    ensures 2 * Unreduced(a, s).s2 <= 2 * (ADLER_MOD - 1) * (|s| + 1) + 255 * (|s| * (|s| + 1))
  {
    if s != [] {
      var k := |s| - 1;
      RunFits(a, s[..k]);
      assert (k + 1) * (k + 2) == k * (k + 1) + 2 * (k + 1);
    }
  }

  lemma RunWithin32Bits(a: Sums, s: seq<byte>)
    requires a.s1 < ADLER_MOD && a.s2 < ADLER_MOD && |s| <= ADLER_RUN
    ensures Unreduced(a, s).s1 < 0x1_0000_0000 && Unreduced(a, s).s2 < 0x1_0000_0000
  {
    RunFits(a, s);
    var n := |s|;
    MulMono(n + 1, n, ADLER_RUN);
    assert n * (n + 1) <= ADLER_RUN * (ADLER_RUN + 1);
  }

  lemma {:induction false} AdlerConcat(a: Sums, s: seq<byte>, t: seq<byte>)
    ensures Adler(a, s + t) == Adler(Adler(a, s), t)
    decreases |t|
  {
    if t == [] {
      assert s + t == s;
    } else {
      var k := |t| - 1;
      AdlerConcat(a, s, t[..k]);
      assert (s + t)[..|s + t| - 1] == s + t[..k];
    }
  }

  lemma UnreducedStep(a: Sums, s: seq<byte>, i: nat)
    requires i < |s|
    ensures Unreduced(a, s[..i + 1]) == var b := Unreduced(a, s[..i]); Sums(b.s1 + s[i], b.s2 + (b.s1 + s[i]))
  {
    assert s[..i + 1][..i] == s[..i];
  }

  // One run: eight bytes a turn, then the rest, one reduction at the end. Every sum is a 32-bit word.
  method AdlerRun(a: Sums, s: seq<byte>) returns (r: Sums)
    requires a.s1 < ADLER_MOD && a.s2 < ADLER_MOD && |s| <= ADLER_RUN
    ensures r == Adler(a, s)
  {
    hide Adler, Unreduced;
    var s1: nat, s2: nat, i: nat := a.s1, a.s2, 0;
    NothingAdded(a);
    while i + 7 < |s|
      invariant i <= |s| && Sums(s1, s2) == Unreduced(a, s[..i])
    {
      for j := 0 to 8
        invariant i + j <= |s| && Sums(s1, s2) == Unreduced(a, s[..i + j])
      {
        UnreducedStep(a, s, i + j);
        RunWithin32Bits(a, s[..i + j + 1]);
        s1 := (s1 + s[i + j]) % 0x1_0000_0000;
        s2 := (s2 + s1) % 0x1_0000_0000;
      }
      i := i + 8;
    }
    while i < |s|
      invariant i <= |s| && Sums(s1, s2) == Unreduced(a, s[..i])
    {
      UnreducedStep(a, s, i);
      RunWithin32Bits(a, s[..i + 1]);
      s1 := (s1 + s[i]) % 0x1_0000_0000;
      s2 := (s2 + s1) % 0x1_0000_0000;
      i := i + 1;
    }
    assert s[..i] == s;
    ReducedAtEnd(a, s);
    r := Sums(s1 % ADLER_MOD, s2 % ADLER_MOD);
  }

  lemma NothingAdded(a: Sums)
    ensures forall s: seq<byte> :: Unreduced(a, s[..0]) == a
  {}

  // The whole: a short run first, so that all others are of full length.
  method Adler32(adler: Sums, s: seq<byte>) returns (r: Sums)
    requires adler.s1 < ADLER_MOD && adler.s2 < ADLER_MOD
    ensures r == Adler(adler, s)
  {
    hide Adler;
    r := adler;
    var at: nat, blockLen: nat := 0, |s| % ADLER_RUN;
    NoBytes(adler, s);
    while at < |s|
      invariant at <= |s| && r == Adler(adler, s[..at]) && r.s1 < ADLER_MOD && r.s2 < ADLER_MOD
      invariant blockLen <= ADLER_RUN && (|s| - at) % ADLER_RUN == blockLen % ADLER_RUN
      decreases |s| - at, ADLER_RUN - blockLen
    {
      RunsLeft(|s| - at, blockLen);
      AdlerConcat(adler, s[..at], s[at..at + blockLen]);
      assert s[..at] + s[at..at + blockLen] == s[..at + blockLen];
      r := AdlerRun(r, s[at..at + blockLen]);
      at := at + blockLen;
      blockLen := ADLER_RUN;
    }
    assert s[..at] == s;
  }

  lemma NoBytes(a: Sums, s: seq<byte>)
    ensures Adler(a, s[..0]) == a
  {}

  lemma RunsLeft(left: nat, blockLen: nat)
    requires left > 0 && blockLen <= ADLER_RUN && left % ADLER_RUN == blockLen % ADLER_RUN
    ensures blockLen <= left && (left - blockLen) % ADLER_RUN == 0
  {}

  // The bytes before k added up.
  function Plain(s: seq<byte>, k: nat): nat
    requires k <= |s|
  {
    if k == 0 then 0 else Plain(s, k - 1) + s[k - 1]
  }

  // The same, the first counted n times, the next n - 1 times, and so on.
  function Weighted(s: seq<byte>, n: nat, k: nat): nat
    requires k <= |s| && k <= n
  {
    if k == 0 then 0 else Weighted(s, n, k - 1) + (n - (k - 1)) * (s[k - 1] as nat)
  }

  lemma {:induction false} OneHeavier(s: seq<byte>, n: nat, k: nat)
    requires k <= |s| && k <= n
    ensures Weighted(s, n + 1, k) == Weighted(s, n, k) + Plain(s, k)
  {
    if k > 0 {
      OneHeavier(s, n, k - 1);
      var b: nat, w := s[k - 1], n - (k - 1);
      assert (w + 1) * b == w * b + b;
    }
  }

  lemma {:induction false} PrefixSums(s: seq<byte>, j: nat, n: nat, k: nat)
    requires k <= j <= |s| && k <= n
    ensures Weighted(s[..j], n, k) == Weighted(s, n, k) && Plain(s[..j], k) == Plain(s, k)
    decreases k
  {
    if k > 0 {
      PrefixSums(s, j, n, k - 1);
    }
  }

  // What the checksum is: the bytes added up, and each added up as often as there are bytes from it on.
  lemma {:induction false} UnreducedIs(a: Sums, s: seq<byte>)
    ensures Unreduced(a, s) == Sums(a.s1 + Plain(s, |s|), a.s2 + |s| * a.s1 + Weighted(s, |s|, |s|))
  {
    if s != [] {
      var k := |s| - 1;
      UnreducedIs(a, s[..k]);
      PrefixSums(s, k, k, k);
      OneHeavier(s, k, k);
      assert (k + 1) * a.s1 == k * a.s1 + a.s1;
    }
  }

  lemma AdlerIs(a: Sums, s: seq<byte>)
    requires a.s1 < ADLER_MOD && a.s2 < ADLER_MOD
    ensures Adler(a, s) == Sums((a.s1 + Plain(s, |s|)) % ADLER_MOD, (a.s2 + |s| * a.s1 + Weighted(s, |s|, |s|)) % ADLER_MOD)
  {
    hide Plain, Weighted, Adler, Unreduced;
    ReducedAtEnd(a, s);
    UnreducedIs(a, s);
  }

  // ---------- CRC-32 ----------

  const POLYNOMIAL: bv32 := 0xEDB88320

  // One step of the reflected division: shift, and subtract the polynomial if a bit falls out.
  function BitStep(crc: bv32): bv32 {
    if crc & 1 == 1 then (crc >> 1) ^ POLYNOMIAL else crc >> 1
  }

  function FourSteps(crc: bv32): bv32 {
    BitStep(BitStep(BitStep(BitStep(crc))))
  }

  // The definition: each byte is added to the low bits, then eight steps are made.
  function CrcByte(crc: bv32, b: bv8): bv32 {
    FourSteps(FourSteps(crc ^ (b as bv32)))
  }

  function CrcBits(crc: bv32, s: seq<bv8>): bv32 {
    if s == [] then crc else CrcByte(CrcBits(crc, s[..|s| - 1]), s[|s| - 1])
  }

  function Crc(crc: bv32, s: seq<bv8>): bv32 {
    CrcBits(crc ^ 0xFFFF_FFFF, s) ^ 0xFFFF_FFFF
  }

  // The sixteen entries of the table.
  function Entry(i: bv32): bv32 {
    match i
    case 0 => 0
    case 1 => 0x1db71064
    case 2 => 0x3b6e20c8
    case 3 => 0x26d930ac
    case 4 => 0x76dc4190
    case 5 => 0x6b6b51f4
    case 6 => 0x4db26158
    case 7 => 0x5005713c
    case 8 => 0xedb88320
    case 9 => 0xf00f9344
    case 10 => 0xd6d6a3e8
    case 11 => 0xcb61b38c
    case 12 => 0x9b64c2b0
    case 13 => 0x86d3d2d4
    case 14 => 0xa00ae278
    case _ => 0xbdbdf21c
  }

  // A table step is four bit steps.
  lemma TableStep(crc: bv32)
    ensures FourSteps(crc) == (crc >> 4) ^ Entry(crc & 0xF)
  {}

  // Four bits through the table.
  function Nibble(crc: bv32, n: bv8): bv32 {
    (crc >> 4) ^ Entry((crc & 0xF) ^ (n as bv32))
  }

  // One byte: its low four bits, then its high four.
  function TableByte(crc: bv32, b: bv8): bv32 {
    Nibble(Nibble(crc, b & 0xF), b >> 4)
  }

  lemma AddByte(crc: bv32, b: bv8)
    ensures (crc ^ (b as bv32)) & 0xF == (crc & 0xF) ^ ((b & 0xF) as bv32)
    ensures (crc ^ (b as bv32)) >> 4 == (crc >> 4) ^ ((b >> 4) as bv32)
  {}

  lemma AddNibble(c: bv32, b: bv8)
    ensures (c ^ ((b >> 4) as bv32)) & 0xF == (c & 0xF) ^ ((b >> 4) as bv32)
    ensures (c ^ ((b >> 4) as bv32)) >> 4 == c >> 4
  {}

  lemma XorSwap(x: bv32, y: bv32, z: bv32)
    ensures (x ^ y) ^ z == (x ^ z) ^ y
  {}

  // The low four bits of the sum index the table; the rest of the byte waits for the next step.
  lemma FirstHalf(crc: bv32, b: bv8)
    ensures FourSteps(crc ^ (b as bv32)) == Nibble(crc, b & 0xF) ^ ((b >> 4) as bv32)
  {
    hide Entry, FourSteps;
    TableStep(crc ^ (b as bv32));
    AddByte(crc, b);
    XorSwap(crc >> 4, (b >> 4) as bv32, Entry((crc & 0xF) ^ ((b & 0xF) as bv32)));
  }

  lemma SecondHalf(c: bv32, b: bv8)
    ensures FourSteps(c ^ ((b >> 4) as bv32)) == Nibble(c, b >> 4)
  {
    hide Entry, FourSteps;
    TableStep(c ^ ((b >> 4) as bv32));
    AddNibble(c, b);
  }

  lemma TableByteIsCrc(crc: bv32, b: bv8)
    ensures TableByte(crc, b) == CrcByte(crc, b)
  {
    hide Nibble, FourSteps;
    FirstHalf(crc, b);
    SecondHalf(Nibble(crc, b & 0xF), b);
  }

  // The table-driven checksum, from an earlier one.
  method Crc32(crc: bv32, s: seq<bv8>) returns (r: bv32)
    ensures r == Crc(crc, s)
  {
    hide CrcByte, TableByte;
    var crcu := crc ^ 0xFFFF_FFFF;
    for i := 0 to |s|
      invariant crcu == CrcBits(crc ^ 0xFFFF_FFFF, s[..i])
    {
      TableByteIsCrc(crcu, s[i]);
      assert s[..i + 1][..i] == s[..i];
      crcu := TableByte(crcu, s[i]);
    }
    assert s[..|s|] == s;
    r := crcu ^ 0xFFFF_FFFF;
  }

  // Going on from the checksum of what came before gives the checksum of the whole.
  lemma {:induction false} CrcConcat(crc: bv32, s: seq<bv8>, t: seq<bv8>)
    ensures CrcBits(crc, s + t) == CrcBits(CrcBits(crc, s), t)
    ensures Crc(crc, s + t) == Crc(Crc(crc, s), t)
    decreases |t|
  {
    hide CrcByte;
    if t == [] {
      assert s + t == s;
    } else {
      var k := |t| - 1;
      CrcConcat(crc, s, t[..k]);
      CrcConcat(crc ^ 0xFFFF_FFFF, s, t[..k]);
      assert (s + t)[..|s + t| - 1] == s + t[..k];
    }
  }
}
