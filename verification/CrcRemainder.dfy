/** What the CRC-32 of a message is, told without the algorithm, by polynomials over the integers modulo two
    (section 8.1.1.6.2 of ITU-T recommendation V.42, which section 2.3.1 of RFC 1952 goes by): the message's
    bits, the first 32 of the whole complemented, followed by the complement of the checksum, are a multiple
    of the generator, and no other checksum makes them one. */
module CrcRemainder {
  import opened Checksums

  // ---------- polynomials, highest power first ----------

  // x^32 + x^26 + x^23 + x^22 + x^16 + x^12 + x^11 + x^10 + x^8 + x^7 + x^5 + x^4 + x^2 + x + 1
  const EXPONENTS: set<int> := {32, 26, 23, 22, 16, 12, 11, 10, 8, 7, 5, 4, 2, 1, 0}

  const DEGREE := 32

  function Sum(p: seq<bool>, q: seq<bool>): (r: seq<bool>)
    requires |p| == |q|
    ensures |r| == |p| && forall i :: 0 <= i < |r| ==> r[i] == (p[i] != q[i])
  {
    seq(|p|, i requires 0 <= i < |p| => p[i] != q[i])
  }

  // The generator n places from the front, if it is to be added at all.
  function Shifted(n: nat, b: bool): (r: seq<bool>)
    ensures |r| == n + DEGREE + 1 && forall i :: 0 <= i < |r| ==> r[i] == (b && n <= i && n + DEGREE - i in EXPONENTS)
  {
    seq(n + DEGREE + 1, i => b && n <= i && n + DEGREE - i in EXPONENTS)
  }

  // The generator times q.
  function Times(q: seq<bool>): (r: seq<bool>)
    ensures |r| == |q| + DEGREE
  {
    if q == [] then seq(DEGREE, i => false)
    else
      var n := |q| - 1;
      Sum(Times(q[..n]) + [false], Shifted(n, q[n]))
  }

  ghost predicate Multiple(p: seq<bool>) {
    exists q :: |q| + DEGREE == |p| && Times(q) == p
  }

  lemma TimesSnoc(q: seq<bool>, b: bool)
    ensures Times(q + [b]) == Sum(Times(q) + [false], Shifted(|q|, b))
  {
    assert (q + [b])[..|q|] == q;
  }

  // A multiple's leading coefficients tell which multiple it is.
  lemma {:induction false} LeadingTell(q: seq<bool>, r: seq<bool>)
    requires |q| == |r| && forall i :: 0 <= i < |q| ==> Times(q)[i] == Times(r)[i]
    ensures q == r
  {
    if q != [] {
      var n := |q| - 1;
      assert q == q[..n] + [q[n]] && r == r[..n] + [r[n]];
      TimesSnoc(q[..n], q[n]);
      TimesSnoc(r[..n], r[n]);
      forall i | 0 <= i < n ensures Times(q[..n])[i] == Times(r[..n])[i] {
        assert Times(q)[i] == Times(r)[i];
      }
      LeadingTell(q[..n], r[..n]);
      assert Times(q)[n] == Times(r)[n];
      assert DEGREE in EXPONENTS;
    }
  }

  // ---------- the codeword ----------

  function ByteBits(b: bv8): (r: seq<bool>)
    ensures |r| == 8
  {
    [b & 1 != 0, b & 2 != 0, b & 4 != 0, b & 8 != 0, b & 16 != 0, b & 32 != 0, b & 64 != 0, b & 128 != 0]
  }

  // Each byte's lowest bit goes first.
  function MessageBits(s: seq<bv8>): (r: seq<bool>)
    ensures |r| == 8 * |s|
  {
    if s == [] then [] else MessageBits(s[..|s| - 1]) + ByteBits(s[|s| - 1])
  }

  function Low(w: bv32): bool {
    w & 1 == 1
  }

  function Half(w: bv32): bv32 {
    w >> 1
  }

  function Xor(u: bv32, v: bv32): bv32 {
    u ^ v
  }

  // Bit i, counted from the lowest.
  function Bit(w: bv32, i: nat): bool {
    if i == 0 then Low(w) else Bit(Half(w), i - 1)
  }

  function WordBits(w: bv32): (r: seq<bool>)
    ensures |r| == 32 && forall i :: 0 <= i < 32 ==> r[i] == Bit(w, i)
  {
    seq(32, i requires 0 <= i < 32 => Bit(w, i))
  }

  // The first 32 bits complemented.
  function Complemented(p: seq<bool>): (r: seq<bool>)
    ensures |r| == |p| && forall i :: 0 <= i < |r| ==> r[i] == ((i < 32) != p[i])
  {
    seq(|p|, i requires 0 <= i < |p| => (i < 32) != p[i])
  }

  function Complement(w: bv32): bv32 {
    !w
  }

  // The message followed by the complement of its checksum.
  function Codeword(s: seq<bv8>, checksum: bv32): seq<bool> {
    Complemented(MessageBits(s) + WordBits(Complement(checksum)))
  }

  // ---------- words bit by bit ----------

  lemma LowBits(u: bv32, v: bv32)
    ensures Low(Xor(u, v)) == (Low(u) != Low(v)) && Half(Xor(u, v)) == Xor(Half(u), Half(v))
    ensures Low(u) == Low(v) && Half(u) == Half(v) ==> u == v
  {}

  lemma {:induction false} BitOfXor(u: bv32, v: bv32, i: nat)
    ensures Bit(Xor(u, v), i) == (Bit(u, i) != Bit(v, i))
    decreases i
  {
    hide Low, Half, Xor;
    LowBits(u, v);
    if i > 0 {
      BitOfXor(Half(u), Half(v), i - 1);
    }
  }

  function Drop(w: bv32, n: nat): bv32 {
    if n == 0 then w else Drop(Half(w), n - 1)
  }

  lemma {:induction false} DropThen(w: bv32, m: nat, n: nat)
    ensures Drop(w, m + n) == Drop(Drop(w, m), n)
    ensures Bit(w, m + n) == Bit(Drop(w, m), n)
    decreases m
  {
    if m > 0 {
      DropThen(Half(w), m - 1, n);
    }
  }

  function Byte(w: bv32): bv32 {
    w >> 8
  }

  // A word, its half, and so on, nine in all.
  function Halves(w: bv32): (ws: seq<bv32>)
    ensures |ws| == 9
  {
    [w, w >> 1, w >> 2, w >> 3, w >> 4, w >> 5, w >> 6, w >> 7, w >> 8]
  }

  lemma EachHalf(w: bv32)
    ensures var ws := Halves(w);
      && Half(ws[0]) == ws[1] && Half(ws[1]) == ws[2] && Half(ws[2]) == ws[3] && Half(ws[3]) == ws[4]
      && Half(ws[4]) == ws[5] && Half(ws[5]) == ws[6] && Half(ws[6]) == ws[7] && Half(ws[7]) == ws[8]
  {}

  lemma HalvesAre(w: bv32, i: nat)
    requires i < 8
    ensures Half(Halves(w)[i]) == Halves(w)[i + 1]
  {
    hide *;
    EachHalf(w);
    match i
    case 0 =>
    case 1 =>
    case 2 =>
    case 3 =>
    case 4 =>
    case 5 =>
    case 6 =>
    case _ =>
  }

  lemma LowsAre(w: bv32)
    ensures var ws := Halves(w);
      && Low(ws[0]) == (w & 1 != 0) && Low(ws[1]) == (w & 2 != 0) && Low(ws[2]) == (w & 4 != 0) && Low(ws[3]) == (w & 8 != 0)
      && Low(ws[4]) == (w & 16 != 0) && Low(ws[5]) == (w & 32 != 0) && Low(ws[6]) == (w & 64 != 0) && Low(ws[7]) == (w & 128 != 0)
      && ws[0] == w && ws[8] == Byte(w)
  {}

  lemma Next(w: bv32, n: nat)
    ensures Drop(w, n + 1) == Drop(Half(w), n) && Drop(w, 0) == w
    ensures Bit(w, n + 1) == Bit(Half(w), n) && Bit(w, 0) == Low(w)
  {}

  lemma {:induction false} Dropped(w: bv32, i: nat)
    requires i <= 8
    ensures Drop(w, i) == Halves(w)[i]
  {
    hide *;
    if i == 0 {
      Next(w, 0);
      LowsAre(w);
    } else {
      Dropped(w, i - 1);
      DropThen(w, i - 1, 1);
      Next(Halves(w)[i - 1], 0);
      Next(Halves(w)[i], 0);
      HalvesAre(w, i - 1);
    }
  }

  lemma EightBits(w: bv32, i: nat)
    requires i < 8
    ensures Bit(w, i) == Low(Halves(w)[i])
  {
    hide *;
    Dropped(w, i);
    DropThen(w, i, 0);
    Next(Halves(w)[i], 0);
  }

  lemma DropByte(w: bv32, n: nat)
    ensures Drop(w, 8 + n) == Drop(Byte(w), n) && Drop(w, 8) == Byte(w)
  {
    hide *;
    Dropped(w, 8);
    LowsAre(w);
    DropThen(w, 8, n);
  }

  lemma FourBytes(w: bv32)
    ensures Byte(Byte(Byte(Byte(w)))) == 0
  {}

  lemma NothingLeft(w: bv32)
    ensures Drop(w, 32) == 0
  {
    hide *;
    DropByte(w, 24);
    DropByte(Byte(w), 16);
    DropByte(Byte(Byte(w)), 8);
    DropByte(Byte(Byte(Byte(w))), 0);
    FourBytes(w);
  }

  lemma {:induction false} BitsTell(u: bv32, v: bv32, n: nat)
    requires Drop(u, n) == Drop(v, n) && forall i :: 0 <= i < n ==> Bit(u, i) == Bit(v, i)
    ensures u == v
    decreases n
  {
    if n > 0 {
      forall i | 0 <= i < n - 1 ensures Bit(Half(u), i) == Bit(Half(v), i) {
        assert Bit(u, i + 1) == Bit(v, i + 1);
      }
      BitsTell(Half(u), Half(v), n - 1);
      assert Bit(u, 0) == Bit(v, 0);
      LowBits(u, v);
    }
  }

  // Bit i is in byte i / 8.
  lemma BitInByte(w: bv32, i: nat)
    requires i < 32
    ensures var v := if i < 8 then w else if i < 16 then Byte(w) else if i < 24 then Byte(Byte(w)) else Byte(Byte(Byte(w)));
      Bit(w, i) == Low(Halves(v)[i % 8])
  {
    hide *;
    var k := 8 * (i / 8);
    DropThen(w, k, i % 8);
    Next(w, 0);
    if k >= 8 { DropByte(w, k - 8); }
    if k >= 16 { DropByte(Byte(w), k - 16); }
    if k >= 24 { DropByte(Byte(Byte(w)), 0); }
    EightBits(Drop(w, k), i % 8);
  }

  // The program's constant is the generator without its leading term.
  lemma PolynomialBits(i: nat)
    requires i < 32
    ensures Bit(POLYNOMIAL, i) == (31 - i in EXPONENTS)
  {
    hide *;
    PolynomialBytes();
    BitInByte(POLYNOMIAL, i);
    FirstByte(i % 8);
    SecondByte(i % 8);
    ThirdByte(i % 8);
    LastByte(i % 8);
  }

  lemma FirstByte(i: nat)
    requires i < 8
    ensures Low(Halves(POLYNOMIAL)[i]) == (31 - i in EXPONENTS)
  {
    hide Halves, Low;
    LowsAre(POLYNOMIAL);
  }

  lemma SecondByte(i: nat)
    requires i < 8
    ensures Low(Halves(0xED_B883)[i]) == (23 - i in EXPONENTS)
  {
    hide Halves, Low;
    LowsAre(0xED_B883);
  }

  lemma ThirdByte(i: nat)
    requires i < 8
    ensures Low(Halves(0xEDB8)[i]) == (15 - i in EXPONENTS)
  {
    hide Halves, Low;
    LowsAre(0xEDB8);
  }

  lemma LastByte(i: nat)
    requires i < 8
    ensures Low(Halves(0xED)[i]) == (7 - i in EXPONENTS)
  {
    hide Halves, Low;
    LowsAre(0xED);
  }

  lemma PolynomialBytes()
    ensures Byte(POLYNOMIAL) == 0xED_B883 && Byte(0xED_B883) == 0xEDB8 && Byte(0xEDB8) == 0xED
  {}

  // ---------- the register ----------

  function One(b: bool): bv32 {
    if b then 1 else 0
  }

  // The register after these bits, one at a time.
  function Register(w: bv32, m: seq<bool>): bv32 {
    if m == [] then w else BitStep(Xor(Register(w, m[..|m| - 1]), One(m[|m| - 1])))
  }

  // One step moves every bit down and adds the polynomial if the lowest and the message's differ.
  lemma StepBits(w: bv32, b: bool, i: nat)
    requires i < 32
    ensures Bit(BitStep(Xor(w, One(b))), i)
      == ((i < 31 && Bit(w, i + 1)) != ((Low(w) != b) && 31 - i in EXPONENTS))
  {
    hide Bit, Drop;
    StepParts(w, b);
    BitOfXor(Half(w), if Low(w) != b then POLYNOMIAL else 0, i);
    PolynomialBits(i);
    Next(w, i);
    NoBits(i);
    if i == 31 {
      DropThen(w, 32, 0);
      NothingLeft(w);
      NoBits(0);
    }
  }

  lemma {:induction false} NoBits(i: nat)
    ensures !Bit(0, i)
    decreases i
  {
    if i > 0 {
      NoBits(i - 1);
    }
  }

  lemma StepParts(w: bv32, b: bool)
    ensures BitStep(Xor(w, One(b))) == Xor(Half(w), if Low(w) != b then POLYNOMIAL else 0)
  {
    hide *;
    StepIs(Xor(w, One(b)));
    LowBits(w, One(b));
    OneIs(b);
    XorThree(Half(w), 0, 0);
  }

  // The bits of a byte are added to the register at once or one by one.
  lemma OneByOne(w: bv32, b: bv32)
    ensures BitStep(Xor(w, b)) == Xor(BitStep(Xor(w, One(Low(b)))), Half(b))
  {
    hide BitStep, Low, Half, Xor, One;
    StepIs(Xor(w, b));
    StepIs(Xor(w, One(Low(b))));
    LowBits(w, b);
    LowBits(w, One(Low(b)));
    OneIs(Low(b));
    var p := if Low(w) != Low(b) then POLYNOMIAL else 0;
    XorThree(Half(w), Half(b), p);
  }

  lemma StepIs(w: bv32)
    ensures BitStep(w) == Xor(Half(w), if Low(w) then POLYNOMIAL else 0)
  {
    hide Xor, Half;
    StepCases(w);
    XorThree(Half(w), 0, 0);
  }

  lemma StepCases(w: bv32)
    ensures BitStep(w) == if Low(w) then Xor(Half(w), POLYNOMIAL) else Half(w)
  {}

  lemma OneIs(b: bool)
    ensures Low(One(b)) == b && Half(One(b)) == 0
  {}

  lemma XorThree(u: bv32, v: bv32, p: bv32)
    ensures Xor(u, 0) == u && Xor(Xor(u, v), p) == Xor(Xor(u, p), v)
  {}

  // So many steps.
  function Steps(w: bv32, n: nat): bv32 {
    if n == 0 then w else BitStep(Steps(w, n - 1))
  }

  lemma {:induction false} StepsWith(w: bv32, m: seq<bool>, b: bv8, i: nat)
    requires i <= 8
    ensures Steps(Xor(Register(w, m), b as bv32), i) == Xor(Register(w, m + ByteBits(b)[..i]), Halves(b as bv32)[i])
  {
    hide BitStep, Xor, One, Low, Half, ByteBits, Register, Halves;
    var x, d := b as bv32, ByteBits(b);
    if i == 0 {
      assert m + d[..0] == m;
      LowsAre(x);
    } else {
      var k := i - 1;
      StepsWith(w, m, b, k);
      assert m + d[..i] == m + d[..k] + [d[k]];
      OneMore(w, m + d[..k], d[k]);
      HalvesAre(x, k);
      ByteLow(b, k);
      OneByOne(Register(w, m + d[..k]), Halves(x)[k]);
    }
  }

  lemma ByteLow(b: bv8, i: nat)
    requires i < 8
    ensures Low(Halves(b as bv32)[i]) == ByteBits(b)[i]
  {
    hide *;
    ByteLows(b);
  }

  lemma ByteLows(b: bv8)
    ensures var ws, d := Halves(b as bv32), ByteBits(b);
      && Low(ws[0]) == d[0] && Low(ws[1]) == d[1] && Low(ws[2]) == d[2] && Low(ws[3]) == d[3]
      && Low(ws[4]) == d[4] && Low(ws[5]) == d[5] && Low(ws[6]) == d[6] && Low(ws[7]) == d[7]
  {}

  lemma ByteRegister(w: bv32, m: seq<bool>, b: bv8)
    ensures Register(w, m + ByteBits(b)) == CrcByte(Register(w, m), b)
  {
    hide *;
    StepsWith(w, m, b, 8);
    assert ByteBits(b)[..8] == ByteBits(b);
    NoByteLeft(b);
    XorThree(Register(w, m + ByteBits(b)), 0, 0);
    ByteSteps(Register(w, m), b);
  }

  lemma NoByteLeft(b: bv8)
    ensures Halves(b as bv32)[8] == 0
  {}

  lemma OneMore(w: bv32, m: seq<bool>, b: bool)
    ensures Register(w, m + [b]) == BitStep(Xor(Register(w, m), One(b)))
  {
    hide BitStep, Xor, One;
    assert (m + [b])[..|m|] == m;
  }

  lemma ByteSteps(w: bv32, b: bv8)
    ensures CrcByte(w, b) == Steps(Xor(w, b as bv32), 8)
  {
    hide BitStep, Steps;
    var x := Xor(w, b as bv32);
    ZeroSteps(x);
    assert Steps(x, 4) == FourSteps(x) by {
      StepNext(x, 0);
      StepNext(x, 1);
      StepNext(x, 2);
      StepNext(x, 3);
    }
    StepNext(x, 4);
    StepNext(x, 5);
    StepNext(x, 6);
    StepNext(x, 7);
  }

  lemma ZeroSteps(x: bv32)
    ensures Steps(x, 0) == x
  {}

  lemma StepNext(x: bv32, n: nat)
    ensures Steps(x, n + 1) == BitStep(Steps(x, n))
  {}

  lemma {:induction false} MessageRegister(w: bv32, s: seq<bv8>)
    ensures Register(w, MessageBits(s)) == CrcBits(w, s)
  {
    hide CrcByte, ByteBits;
    if s != [] {
      MessageRegister(w, s[..|s| - 1]);
      ByteRegister(w, MessageBits(s[..|s| - 1]), s[|s| - 1]);
    }
  }

  // ---------- the remainder ----------

  // What the register says so far makes a multiple of the message so far.
  lemma MultipleStep(q: seq<bool>, m: seq<bool>, w: bv32, b: bool)
    requires |q| == |m| && Times(q) == Complemented(m + WordBits(w))
    ensures Times(q + [Low(w) != b]) == Complemented(m + [b] + WordBits(BitStep(Xor(w, One(b)))))
  {
    hide BitStep, Low, Times, Xor, One;
    var k, t, w' := |m|, Low(w) != b, BitStep(Xor(w, One(b)));
    TimesSnoc(q, t);
    var left, right := Times(q + [t]), Complemented(m + [b] + WordBits(w'));
    forall i | 0 <= i < k + 33 ensures left[i] == right[i] {
      if i < k + 32 {
        assert Times(q)[i] == ((i < 32) != (m + WordBits(w))[i]);
      }
      if i > k {
        StepBits(w, b, i - k - 1);
      } else if i == k {
        assert Bit(w, 0) == Low(w);
      }
    }
  }

  lemma {:induction false} RegisterMultiple(m: seq<bool>) returns (q: seq<bool>)
    ensures |q| == |m| && Times(q) == Complemented(m + WordBits(Register(0xFFFF_FFFF, m)))
  {
    hide BitStep, Xor, One;
    q := [];
    if m == [] {
      forall i | 0 <= i < 32 ensures Bit(0xFFFF_FFFF, i) {
        AllBits(i);
      }
    } else {
      var k := |m| - 1;
      var p := RegisterMultiple(m[..k]);
      var w := Register(0xFFFF_FFFF, m[..k]);
      MultipleStep(p, m[..k], w, m[k]);
      assert m[..k] + [m[k]] == m;
      q := p + [Low(w) != m[k]];
    }
  }

  lemma AllBits(i: nat)
    requires i < 32
    ensures Bit(0xFFFF_FFFF, i)
  {
    hide Bit, Halves, Low;
    BitInByte(0xFFFF_FFFF, i);
    AllBytes();
    LowsAre(0xFFFF_FFFF);
    LowsAre(0xFF_FFFF);
    LowsAre(0xFFFF);
    LowsAre(0xFF);
  }

  lemma AllBytes()
    ensures Byte(0xFFFF_FFFF) == 0xFF_FFFF && Byte(0xFF_FFFF) == 0xFFFF && Byte(0xFFFF) == 0xFF
  {}

  // The checksum is the one that makes the codeword a multiple of the generator.
  lemma ChecksumIsRemainder(s: seq<bv8>, checksum: bv32)
    ensures Multiple(Codeword(s, checksum)) <==> checksum == Crc(0, s)
  {
    hide Register, Times, CrcBits, Bit, Crc, Complement;
    var m, w := MessageBits(s), Register(0xFFFF_FFFF, MessageBits(s));
    var q := RegisterMultiple(m);
    MessageRegister(0xFFFF_FFFF, s);
    CrcIs(s);
    NotTells(checksum, Crc(0, s));
    if checksum == Crc(0, s) {
      assert Times(q) == Codeword(s, checksum);
    }
    if Multiple(Codeword(s, checksum)) {
      var r :| |r| + DEGREE == |Codeword(s, checksum)| && Times(r) == Codeword(s, checksum);
      OneRemainder(m, q, r, w, Complement(checksum));
    }
  }

  lemma CrcIs(s: seq<bv8>)
    ensures CrcBits(0xFFFF_FFFF, s) == Complement(Crc(0, s))
  {
    hide CrcBits;
  }

  lemma NotTells(u: bv32, v: bv32)
    ensures Complement(u) == Complement(v) ==> u == v
  {}

  lemma OneRemainder(m: seq<bool>, q: seq<bool>, r: seq<bool>, u: bv32, v: bv32)
    requires |q| == |r| == |m| && Times(q) == Complemented(m + WordBits(u)) && Times(r) == Complemented(m + WordBits(v))
    ensures u == v
  {
    hide Times, Bit, Drop;
    LeadingTell(q, r);
    forall i | 0 <= i < 32 ensures Bit(u, i) == Bit(v, i) {
      assert (m + WordBits(u))[|m| + i] == (m + WordBits(v))[|m| + i] by {
        assert Times(q)[|m| + i] == Times(r)[|m| + i];
      }
    }
    NothingLeft(u);
    NothingLeft(v);
    BitsTell(u, v, 32);
  }
}
