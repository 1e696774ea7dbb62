/** The symbol tables of section 3.2.5 of RFC 1951, in the two forms the library keeps: the
    compressor's tables from a length or distance to its symbol and extra bits, written here by
    the ranges on which each table is constant, and the decompressor's tables from a symbol to
    its base value and extra bits. The lemmas say that the two forms invert each other. */
module Symbols {
  import opened Sums

  const END_OF_BLOCK := 256

  // The symbol of match length l + 3.
  function LenSym(l: nat): (r: nat) {
    if l < 1 then 257
    else if l < 2 then 258
    else if l < 3 then 259
    else if l < 4 then 260
    else if l < 5 then 261
    else if l < 6 then 262
    else if l < 7 then 263
    else if l < 8 then 264
    else if l < 10 then 265
    else if l < 12 then 266
    else if l < 14 then 267
    else if l < 16 then 268
    else if l < 20 then 269
    else if l < 24 then 270
    else if l < 28 then 271
    else if l < 32 then 272
    else if l < 40 then 273
    else if l < 48 then 274
    else if l < 56 then 275
    else if l < 64 then 276
    else if l < 80 then 277
    else if l < 96 then 278
    else if l < 112 then 279
    else if l < 128 then 280
    else if l < 160 then 281
    else if l < 192 then 282
    else if l < 224 then 283
    else if l < 255 then 284
    else 285
  }

  // How many extra bits follow it.
  function LenExtra(l: nat): (r: nat) {
    if l < 8 then 0
    else if l < 16 then 1
    else if l < 32 then 2
    else if l < 64 then 3
    else if l < 128 then 4
    else if l < 255 then 5
    else 0
  }

  // The symbol of distance d + 1, below 512.
  function SmallDistSym(d: nat): (r: nat) {
    if d < 1 then 0
    else if d < 2 then 1
    else if d < 3 then 2
    else if d < 4 then 3
    else if d < 6 then 4
    else if d < 8 then 5
    else if d < 12 then 6
    else if d < 16 then 7
    else if d < 24 then 8
    else if d < 32 then 9
    else if d < 48 then 10
    else if d < 64 then 11
    else if d < 96 then 12
    else if d < 128 then 13
    else if d < 192 then 14
    else if d < 256 then 15
    else if d < 384 then 16
    else 17
  }

  // How many extra bits follow it.
  function SmallDistExtra(d: nat): (r: nat) {
    if d < 4 then 0
    else if d < 8 then 1
    else if d < 16 then 2
    else if d < 32 then 3
    else if d < 64 then 4
    else if d < 128 then 5
    else if d < 256 then 6
    else 7
  }

  // The symbol of distances from 512 on, by the high byte of d.
  function LargeDistSym(d: nat): (r: nat) {
    if d < 2 then 0
    else if d < 3 then 18
    else if d < 4 then 19
    else if d < 6 then 20
    else if d < 8 then 21
    else if d < 12 then 22
    else if d < 16 then 23
    else if d < 24 then 24
    else if d < 32 then 25
    else if d < 48 then 26
    else if d < 64 then 27
    else if d < 96 then 28
    else 29
  }

  // How many extra bits follow it.
  function LargeDistExtra(d: nat): (r: nat) {
    if d < 2 then 0
    else if d < 4 then 8
    else if d < 8 then 9
    else if d < 16 then 10
    else if d < 32 then 11
    else if d < 64 then 12
    else 13
  }

  function DistSym(d: nat): (r: nat) {
    if d < 512 then SmallDistSym(d) else LargeDistSym(d / 256)
  }

  function DistExtra(d: nat): (r: nat) {
    if d < 512 then SmallDistExtra(d) else LargeDistExtra(d / 256)
  }

  // The decompressor's tables.
  const LENGTH_BASE: seq<nat> := [
    3, 4, 5, 6, 7, 8, 9, 10, 11, 13, 15, 17, 19, 23, 27, 31, 35, 43, 51, 59, 67, 83, 99, 115, 131, 163,
    195, 227, 258, 0, 0
  ]

  // Extra bits of each length symbol.
  const LENGTH_EXTRA: seq<nat> := [
    0, 0, 0, 0, 0, 0, 0, 0, 1, 1, 1, 1, 2, 2, 2, 2, 3, 3, 3, 3, 4, 4, 4, 4, 5, 5, 5, 5, 0, 0, 0
  ]

  // The smallest distance of each distance symbol.
  const DIST_BASE: seq<nat> := [
    1, 2, 3, 4, 5, 7, 9, 13, 17, 25, 33, 49, 65, 97, 129, 193, 257, 385, 513, 769, 1025, 1537, 2049,
    3073, 4097, 6145, 8193, 12289, 16385, 24577, 0, 0
  ]

  // Extra bits of each distance symbol.
  const DIST_EXTRA: seq<nat> := [
    0, 0, 0, 0, 1, 1, 2, 2, 3, 3, 4, 4, 5, 5, 6, 6, 7, 7, 8, 8, 9, 9, 10, 10, 11, 11, 12, 12, 13, 13, 0,
    0
  ]

  // What the decompressor looks up for a length symbol and for a distance symbol; the last two of each
  // kind stand for nothing in the format, and the tables hold zeros for them.
  function LengthField(sym: nat): (r: (nat, nat))
    requires 257 <= sym <= 287
    ensures if sym <= 285 then r.0 >= 3 && r.1 <= 5 else r == (0, 0)
  {
    (LENGTH_BASE[sym - 257], LENGTH_EXTRA[sym - 257])
  }

  function DistField(sym: nat): (r: (nat, nat))
    requires sym <= 31
    ensures if sym <= 29 then r.0 >= 1 && r.1 <= 13 else r == (0, 0)
  {
    (DIST_BASE[sym], DIST_EXTRA[sym])
  }

  // No distance is greater than the dictionary is long.
  lemma DistanceBelow(sym: nat, extra: nat)
    requires sym <= 29 && extra < Pow2(DistField(sym).1)
    ensures 1 <= DistField(sym).0 + extra <= 32768
  {
    SmallPowers();
  }

  // A length comes back from its symbol and its extra bits.
  lemma LengthInverts(l: nat)
    requires l < 256
    ensures 257 <= LenSym(l) <= 285
    ensures LengthField(LenSym(l)).1 == LenExtra(l) <= 5
    ensures LengthField(LenSym(l)).0 + l % Pow2(LenExtra(l)) == l + 3
  {
    SmallPowers();
  }

  lemma SmallPowers()
    ensures Pow2(0) == 1 && Pow2(1) == 2 && Pow2(2) == 4 && Pow2(3) == 8 && Pow2(4) == 16 && Pow2(5) == 32
    ensures Pow2(6) == 64 && Pow2(7) == 128 && Pow2(8) == 256 && Pow2(9) == 512 && Pow2(10) == 1024
    ensures Pow2(11) == 2048 && Pow2(12) == 4096 && Pow2(13) == 8192
  {
    Pow2Table();
    assert Pow2(6) == 64 && Pow2(11) == 2048 && Pow2(12) == 4096;
  }

  // A distance comes back from its symbol and its extra bits.
  lemma DistanceInverts(d: nat)
    requires d < 32768
    ensures DistSym(d) <= 29
    ensures DistField(DistSym(d)).1 == DistExtra(d) <= 13
    ensures DistField(DistSym(d)).0 + d % Pow2(DistExtra(d)) == d + 1
  {
    SmallPowers();
    if d < 512 {
      SmallDistanceInverts(d);
    } else {
      LargeDistanceInverts(d, d / 256);
    }
  }

  lemma SmallDistanceInverts(d: nat)
    requires d < 512
    ensures SmallDistSym(d) <= 17 && DIST_EXTRA[SmallDistSym(d)] == SmallDistExtra(d) <= 7
    ensures DIST_BASE[SmallDistSym(d)] + d % Pow2(SmallDistExtra(d)) == d + 1
  {
    SmallPowers();
  }

  lemma LargeDistanceInverts(d: nat, h: nat)
    requires 512 <= d < 32768 && h == d / 256
    ensures 18 <= LargeDistSym(h) <= 29 && DIST_EXTRA[LargeDistSym(h)] == LargeDistExtra(h) <= 13
    ensures DIST_BASE[LargeDistSym(h)] + d % Pow2(LargeDistExtra(h)) == d + 1
  {
    SmallPowers();
  }
}
