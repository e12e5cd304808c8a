/**
 Cyclic redundancy checks. The fast forms are proved against registers that shift in one bit at a
 time. Facts about exclusive or are kept in small lemmas over named terms, which the solver needs.
 */
module Crc {

  type uint8 = bv8

  // ================================================================ 16 bits, polynomial 0x1021

  /** The register after one message bit. */
  function FeedBit16(crc: bv16, bit: bool): bv16 {
    if (crc & 0x8000 != 0) != bit then (crc << 1) ^ 0x1021 else crc << 1
  }

  function Bit8(b: uint8, i: nat): bool
    requires i < 8
  {
    (b >> i) & 1 != 0
  }

  /** The register after the eight bits of a byte, most significant bit first. */
  function FeedByte16(crc: bv16, b: uint8): bv16 {
    var c := FeedBit16(FeedBit16(FeedBit16(FeedBit16(crc, Bit8(b, 7)), Bit8(b, 6)), Bit8(b, 5)), Bit8(b, 4));
    FeedBit16(FeedBit16(FeedBit16(FeedBit16(c, Bit8(b, 3)), Bit8(b, 2)), Bit8(b, 1)), Bit8(b, 0))
  }

  function Feed16(crc: bv16, data: seq<uint8>): bv16
    decreases |data|
  {
    if data == [] then crc else Feed16(FeedByte16(crc, data[0]), data[1..])
  }

  /** Pieces of a message may be fed one after the other. */
  lemma {:induction false} Feed16Concat(crc: bv16, a: seq<uint8>, b: seq<uint8>)
    ensures Feed16(crc, a + b) == Feed16(Feed16(crc, a), b)
    decreases |a|
  {
    hide FeedByte16;
    if a == [] {
      assert a + b == b;
    } else {
      assert (a + b)[1..] == a[1..] + b;
      Feed16Concat(FeedByte16(crc, a[0]), a[1..], b);
    }
  }

  lemma Feed16Snoc(crc: bv16, data: seq<uint8>, i: nat)
    requires i < |data|
    ensures Feed16(crc, data[..i + 1]) == FeedByte16(Feed16(crc, data[..i]), data[i])
  {
    hide FeedByte16;
    assert data[..i + 1] == data[..i] + [data[i]] && [data[i]][1..] == [];
    Feed16Concat(crc, data[..i], [data[i]]);
  }

  // ---------------------------------------------------------------- the register without input

  function Shift16(c: bv16): bv16 {
    var t := c >> 15;
    (c << 1) ^ t ^ (t << 5) ^ (t << 12)
  }

  function Shift16x4(c: bv16): bv16 {
    Shift16(Shift16(Shift16(Shift16(c))))
  }

  function Shift16x8(c: bv16): bv16 {
    Shift16(Shift16(Shift16(Shift16(Shift16(Shift16(Shift16(Shift16(c))))))))
  }

  lemma ShiftSet(c: bv16)
    requires c & 0x8000 != 0
    ensures Shift16(c) == (c << 1) ^ 0x1021
  {
  }

  lemma ShiftClear(c: bv16)
    requires c & 0x8000 == 0
    ensures Shift16(c) == c << 1
  {
  }

  lemma Flip(c: bv16)
    ensures ((c ^ 0x8000) & 0x8000 != 0) == (c & 0x8000 == 0)
    ensures (c ^ 0x8000) << 1 == c << 1
  {
  }

  lemma Feed0(c: bv16)
    ensures FeedBit16(c, false) == Shift16(c)
  {
    if c & 0x8000 != 0 {
      ShiftSet(c);
    } else {
      ShiftClear(c);
    }
  }

  lemma Feed1(c: bv16, d: bv16)
    requires c == d ^ 0x8000
    ensures FeedBit16(c, true) == Shift16(d)
  {
    hide Shift16;
    Flip(d);
    if d & 0x8000 == 0 {
      ShiftClear(d);
    } else {
      ShiftSet(d);
    }
  }

  /** Below the top bit the register is linear. */
  lemma ShiftAdds(c: bv16, b: bv16, r: bv16, s: bv16)
    requires b <= 0x7fff && r == c ^ b && s == b << 1
    ensures Shift16(r) == Shift16(c) ^ s
  {
  }

  // ---------------------------------------------------------------- a message byte in the register's top

  lemma Top1(c: bv16, d: bv16, w: bv16, e: bv16, s: bv16)
    requires w <= 0x7fff && e == c ^ w && d == e ^ 0x8000 && s == w << 1
    ensures FeedBit16(d, true) == Shift16(c) ^ s
  {
    hide *;
    Feed1(d, e);
    ShiftAdds(c, w, e, s);
  }

  lemma Top0(c: bv16, d: bv16, w: bv16, s: bv16)
    requires w <= 0x7fff && d == c ^ w && s == w << 1
    ensures FeedBit16(d, false) == Shift16(c) ^ s
  {
    hide *;
    Feed0(d);
    ShiftAdds(c, w, d, s);
  }

  lemma TopOff(c: bv16, v: bv16, d: bv16, w: bv16, e: bv16, s: bv16)
    requires d == c ^ v && v & 0x8000 != 0 && w == v & 0x7fff && e == c ^ w && s == v << 1
    ensures d == e ^ 0x8000 && w <= 0x7fff && s == w << 1
  {
  }

  lemma TopClear(v: bv16)
    requires v & 0x8000 == 0
    ensures v <= 0x7fff
  {
  }

  lemma FeedTop1(c: bv16, v: bv16, d: bv16, w: bv16, e: bv16, s: bv16)
    requires d == c ^ v && v & 0x8000 != 0 && w == v & 0x7fff && e == c ^ w && s == v << 1
    ensures FeedBit16(d, true) == Shift16(c) ^ s
  {
    hide *;
    TopOff(c, v, d, w, e, s);
    Top1(c, d, w, e, s);
  }

  lemma FeedTop0(c: bv16, v: bv16, d: bv16, s: bv16)
    requires d == c ^ v && v & 0x8000 == 0 && s == v << 1
    ensures FeedBit16(d, false) == Shift16(c) ^ s
  {
    hide *;
    TopClear(v);
    Top0(c, d, v, s);
  }

  /** Feeding the top bit of the pending bits `v` to `c ^ v` shifts both. */
  lemma FeedTop(c: bv16, v: bv16, d: bv16, s: bv16, bit: bool)
    requires d == c ^ v && s == v << 1 && bit == (v & 0x8000 != 0)
    ensures FeedBit16(d, bit) == Shift16(c) ^ s
  {
    hide *;
    if bit {
      FeedTop1(c, v, d, v & 0x7fff, c ^ (v & 0x7fff), s);
    } else {
      FeedTop0(c, v, d, s);
    }
  }

  lemma OneBit(c: bv16, v: bv16, d: bv16, bit: bool) returns (c': bv16, v': bv16, d': bv16)
    requires d == c ^ v && bit == (v & 0x8000 != 0)
    ensures c' == Shift16(c) && v' == v << 1 && d' == FeedBit16(d, bit) && d' == c' ^ v'
  {
    hide *;
    c', v', d' := Shift16(c), v << 1, FeedBit16(d, bit);
    FeedTop(c, v, d, v << 1, bit);
  }

  lemma TwoBits(c: bv16, v: bv16, d: bv16, bit: bool, bit': bool) returns (c': bv16, v': bv16, d': bv16)
    requires d == c ^ v && bit == (v & 0x8000 != 0) && bit' == ((v << 1) & 0x8000 != 0)
    ensures c' == Shift16(Shift16(c)) && v' == v << 2 && d' == FeedBit16(FeedBit16(d, bit), bit') && d' == c' ^ v'
  {
    hide *;
    c', v', d' := OneBit(c, v, d, bit);
    c', v', d' := OneBit(c', v', d', bit');
  }

  predicate Top4(v: bv16, b3: bool, b2: bool, b1: bool, b0: bool) {
    && b3 == (v & 0x8000 != 0) && b2 == ((v << 1) & 0x8000 != 0)
    && b1 == ((v << 2) & 0x8000 != 0) && b0 == ((v << 3) & 0x8000 != 0)
  }

  function Feed4(d: bv16, b3: bool, b2: bool, b1: bool, b0: bool): bv16 {
    FeedBit16(FeedBit16(FeedBit16(FeedBit16(d, b3), b2), b1), b0)
  }

  lemma FourBits(c: bv16, v: bv16, d: bv16, b3: bool, b2: bool, b1: bool, b0: bool)
      returns (c': bv16, v': bv16, d': bv16)
    requires d == c ^ v && Top4(v, b3, b2, b1, b0)
    ensures c' == Shift16x4(c) && v' == v << 4 && d' == Feed4(d, b3, b2, b1, b0) && d' == c' ^ v'
  {
    hide FeedBit16, Shift16;
    c', v', d' := TwoBits(c, v, d, b3, b2);
    c', v', d' := TwoBits(c', v', d', b1, b0);
  }

  /** The eight top bits of `v` are the byte. */
  predicate OnTop(v: bv16, b: uint8) {
    && Bit8(b, 7) == (v & 0x8000 != 0) && Bit8(b, 6) == ((v << 1) & 0x8000 != 0)
    && Bit8(b, 5) == ((v << 2) & 0x8000 != 0) && Bit8(b, 4) == ((v << 3) & 0x8000 != 0)
    && Bit8(b, 3) == ((v << 4) & 0x8000 != 0) && Bit8(b, 2) == ((v << 5) & 0x8000 != 0)
    && Bit8(b, 1) == ((v << 6) & 0x8000 != 0) && Bit8(b, 0) == ((v << 7) & 0x8000 != 0)
  }

  lemma ByteOnTop(b: uint8, v: bv16)
    requires v == (b as bv16) << 8
    ensures OnTop(v, b) && v << 8 == 0
  {
  }

  lemma UpperNibble(v: bv16, b: uint8)
    requires OnTop(v, b)
    ensures Top4(v, Bit8(b, 7), Bit8(b, 6), Bit8(b, 5), Bit8(b, 4))
  {
    hide Bit8;
  }

  lemma LowerNibble(v: bv16, w: bv16, b: uint8)
    requires OnTop(v, b) && w == v << 4
    ensures Top4(w, Bit8(b, 3), Bit8(b, 2), Bit8(b, 1), Bit8(b, 0))
  {
    hide Bit8;
  }

  lemma ByteIsNibbles(c: bv16, d: bv16, b: uint8)
    ensures Shift16x8(c) == Shift16x4(Shift16x4(c))
    ensures FeedByte16(d, b) ==
            Feed4(Feed4(d, Bit8(b, 7), Bit8(b, 6), Bit8(b, 5), Bit8(b, 4)), Bit8(b, 3), Bit8(b, 2), Bit8(b, 1),
              Bit8(b, 0))
  {
    hide Bit8, FeedBit16, Shift16;
  }

  lemma Twice4(v: bv16, v4: bv16, v8: bv16)
    requires v4 == v << 4 && v8 == v4 << 4
    ensures v8 == v << 8
  {
  }

  lemma EightBits(c: bv16, v: bv16, d: bv16, b: uint8) returns (c': bv16, v': bv16, d': bv16)
    requires d == c ^ v && OnTop(v, b)
    ensures c' == Shift16x8(c) && v' == v << 8 && d' == FeedByte16(d, b) && d' == c' ^ v'
  {
    hide *;
    ByteIsNibbles(c, d, b);
    UpperNibble(v, b);
    var c4, v4, d4 := FourBits(c, v, d, Bit8(b, 7), Bit8(b, 6), Bit8(b, 5), Bit8(b, 4));
    LowerNibble(v, v4, b);
    c', v', d' := FourBits(c4, v4, d4, Bit8(b, 3), Bit8(b, 2), Bit8(b, 1), Bit8(b, 0));
    Twice4(v, v4, v');
  }

  lemma Undo(c: bv16, v: bv16, x: bv16)
    requires x == c ^ v
    ensures c == x ^ v
  {
  }

  lemma XorZero(r: bv16, c: bv16, z: bv16)
    requires r == c ^ z && z == 0
    ensures r == c
  {
  }

  /** A byte can be added to the register's top half before eight shifts. */
  lemma ByteIsShift(crc: bv16, b: uint8, v: bv16, x: bv16)
    requires v == (b as bv16) << 8 && x == crc ^ v
    ensures FeedByte16(crc, b) == Shift16x8(x)
  {
    hide *;
    ByteOnTop(b, v);
    Undo(crc, v, x);
    var c, w, d := EightBits(x, v, crc, b);
    XorZero(d, c, w);
  }

  // ---------------------------------------------------------------- eight shifts at once

  lemma ShiftSplit1(c: bv16, lo: bv16) returns (c': bv16, lo': bv16, r: bv16)
    requires lo <= 0x7fff
    ensures c' == Shift16(c) && lo' == lo << 1 && r == Shift16(c ^ lo) && r == c' ^ lo'
  {
    hide *;
    c', lo' := Shift16(c), lo << 1;
    r := c ^ lo;
    ShiftAdds(c, lo, r, lo');
    r := Shift16(r);
  }

  lemma ShiftSplit2(c: bv16, lo: bv16) returns (c': bv16, lo': bv16, r: bv16)
    requires lo <= 0x3fff
    ensures c' == Shift16(Shift16(c)) && lo' == lo << 2 && r == Shift16(Shift16(c ^ lo)) && r == c' ^ lo'
  {
    hide *;
    c', lo', r := ShiftSplit1(c, lo);
    c', lo', r := ShiftSplit1(c', lo');
  }

  lemma ShiftSplit4(c: bv16, lo: bv16) returns (c': bv16, lo': bv16, r: bv16)
    requires lo <= 0x0fff
    ensures c' == Shift16(Shift16(Shift16(Shift16(c)))) && lo' == lo << 4
    ensures r == Shift16(Shift16(Shift16(Shift16(c ^ lo)))) && r == c' ^ lo'
  {
    hide *;
    c', lo', r := ShiftSplit2(c, lo);
    c', lo', r := ShiftSplit2(c', lo');
  }

  /** The lower half of the register only moves up. */
  lemma ShiftSplit8(c: bv16, lo: bv16) returns (c': bv16, lo': bv16, r: bv16)
    requires lo <= 0x00ff
    ensures c' == Shift16x8(c) && lo' == lo << 8 && r == Shift16x8(c ^ lo) && r == c' ^ lo'
  {
    hide Shift16;
    c', lo', r := ShiftSplit4(c, lo);
    c', lo', r := ShiftSplit4(c', lo');
  }

  lemma UpperByte(t: bv16, hi: bv16, y: bv16)
    requires t <= 0xff && hi == t << 8 && y == t ^ (t >> 4)
    ensures Shift16x8(hi) == (y << 12) ^ (y << 5) ^ y
  {
  }

  // ---------------------------------------------------------------- the code's byte step

  function Fold16(x: bv16): bv16 { x ^ (x >> 4) }

  function Mix16(l: bv16, y: bv16): bv16 { l ^ (y << 12) ^ (y << 5) ^ y }

  function FastByte(c: bv16, b: uint8): bv16 {
    Mix16(c << 8, Fold16((c >> 8) ^ (b as bv16)))
  }

  lemma Halves(c: bv16, b: uint8, v: bv16, x: bv16, t: bv16, hi: bv16, lo: bv16)
    requires v == (b as bv16) << 8 && x == c ^ v && t == (c >> 8) ^ (b as bv16) && hi == t << 8 && lo == c & 0xff
    ensures x == hi ^ lo && t <= 0xff && lo <= 0xff && lo << 8 == c << 8
  {
  }

  lemma XorOrder(a: bv16, b: bv16, c: bv16, d: bv16)
    ensures ((b ^ c) ^ d) ^ a == a ^ b ^ c ^ d
  {
  }

  lemma FastIs(c: bv16, b: uint8, t: bv16, y: bv16, l: bv16)
    requires t == (c >> 8) ^ (b as bv16) && y == Fold16(t) && l == c << 8
    ensures FastByte(c, b) == Mix16(l, y)
  {
    hide Fold16, Mix16;
  }

  lemma MixIs(l: bv16, y: bv16, h: bv16, r: bv16)
    requires h == (y << 12) ^ (y << 5) ^ y && r == h ^ l
    ensures r == Mix16(l, y)
  {
    XorOrder(l, y << 12, y << 5, y);
  }

  lemma FoldIs(t: bv16, y: bv16)
    requires y == t ^ (t >> 4)
    ensures y == Fold16(t)
  {
  }

  lemma AtOnce(c: bv16, b: uint8, v: bv16, x: bv16, t: bv16, hi: bv16, lo: bv16, y: bv16)
    requires v == (b as bv16) << 8 && x == c ^ v && t == (c >> 8) ^ (b as bv16) && hi == t << 8 && lo == c & 0xff
    requires y == t ^ (t >> 4)
    ensures FeedByte16(c, b) == FastByte(c, b)
  {
    hide *;
    ByteIsShift(c, b, v, x);
    Halves(c, b, v, x, t, hi, lo);
    UpperByte(t, hi, y);
    var h, l, r := ShiftSplit8(hi, lo);
    FoldIs(t, y);
    FastIs(c, b, t, y, l);
    MixIs(l, y, h, r);
  }

  /** A byte at once is its eight bits, one after the other. */
  lemma ByteAtOnce16(c: bv16, b: uint8)
    ensures FeedByte16(c, b) == FastByte(c, b)
  {
    hide *;
    var v, t := (b as bv16) << 8, (c >> 8) ^ (b as bv16);
    AtOnce(c, b, v, c ^ v, t, t << 8, c & 0xff, t ^ (t >> 4));
  }

  /** The code's accumulator has 32 bits, of which the upper half is never cleared. */
  function Fold32(x: bv32): bv32 { x ^ (x >> 4) }

  function Mix32(l: bv32, y: bv32): bv32 { l ^ ((y << 12) & 0xffff) ^ ((y << 5) & 0xffff) ^ (y & 0xffff) }

  function WideByte(crc: bv32, b: uint8): bv32 {
    Mix32(crc << 8, Fold32(0xff & ((crc >> 8) ^ (b as bv32))))
  }

  function Low16(c: bv32): bv16 { (c & 0xffff) as bv16 }

  lemma LowTop(c: bv32, b: uint8)
    ensures Low16(0xff & ((c >> 8) ^ (b as bv32))) == (Low16(c) >> 8) ^ (b as bv16)
    ensures 0xff & ((c >> 8) ^ (b as bv32)) <= 0xff
  {
  }

  lemma LowFold(x: bv32)
    requires x <= 0xff
    ensures Low16(Fold32(x)) == Fold16(Low16(x))
  {
  }

  lemma LowMix(l: bv32, y: bv32)
    ensures Low16(Mix32(l, y)) == Mix16(Low16(l), Low16(y))
  {
  }

  lemma LowShift(c: bv32)
    ensures Low16(c << 8) == Low16(c) << 8
  {
  }

  /** What has been shifted into the upper half never comes back. */
  lemma UpperHalfIsIdle(c: bv32, b: uint8)
    ensures Low16(WideByte(c, b)) == FeedByte16(Low16(c), b)
  {
    var x := 0xff & ((c >> 8) ^ (b as bv32));
    LowTop(c, b);
    LowFold(x);
    LowMix(c << 8, Fold32(x));
    LowShift(c);
    ByteAtOnce16(Low16(c), b);
    hide Low16, Fold16, Fold32, Mix16, Mix32, FeedByte16;
  }

  lemma Narrow(c: bv16, w: bv32)
    requires w == c as bv32
    ensures Low16(w) == c
  {
  }

  /** The check of a message: bit-serial division from 0xffff. */
  method CRC_16(data: seq<uint8>) returns (r: bv16)
    ensures r == Feed16(0xffff, data)
  {
    hide FeedByte16, Feed16, WideByte, Low16;
    var crc: bv32 := 0xffff;
    ghost var start: bv16 := 0xffff;
    Narrow(start, crc);
    Feed16Nothing(start);
    var i := 0;
    while i < |data|
      invariant 0 <= i <= |data| && Low16(crc) == Feed16(start, data[..i])
    {
      UpperHalfIsIdle(crc, data[i]);
      Feed16Snoc(start, data, i);
      crc := WideByte(crc, data[i]);
      i := i + 1;
    }
    assert data[..i] == data;
    r := Low16(crc);
  }

  lemma Feed16Nothing(crc: bv16)
    ensures Feed16(crc, []) == crc
  {
  }

  /** The check continued from an earlier one. */
  method CRC_16_CONT(data: seq<uint8>, crc16: bv16) returns (r: bv16)
    ensures r == Feed16(crc16, data)
    ensures forall a: seq<uint8> | crc16 == Feed16(0xffff, a) :: r == Feed16(0xffff, a + data)
  {
    hide FeedByte16, Feed16, WideByte, Low16;
    var crc: bv32 := crc16 as bv32;
    Narrow(crc16, crc);
    Feed16Nothing(crc16);
    for i := 0 to |data|
      invariant Low16(crc) == Feed16(crc16, data[..i])
    {
      UpperHalfIsIdle(crc, data[i]);
      Feed16Snoc(crc16, data, i);
      crc := WideByte(crc, data[i]);
    }
    assert data[..|data|] == data;
    r := Low16(crc);
    forall a: seq<uint8> | crc16 == Feed16(0xffff, a)
      ensures r == Feed16(0xffff, a + data)
    {
      Feed16Concat(0xffff, a, data);
    }
  }

  // ================================================================ 32 bits, reflected polynomial 0xedb88320

  /** The reflected register after one shift. */
  function BitStep(c: bv32): bv32 {
    if c & 1 == 1 then (c >> 1) ^ 0xedb8_8320 else c >> 1
  }

  function Step8(c: bv32): bv32 {
    BitStep(BitStep(BitStep(BitStep(BitStep(BitStep(BitStep(BitStep(c))))))))
  }

  /** Operations on words under names, so that proofs can do without their bits. */
  function Xor(a: bv32, b: bv32): bv32 { a ^ b }

  function Wide(b: uint8): bv32 { b as bv32 }

  function Up8(d: bv32): bv32 { d << 8 }

  predicate TopClear8(d: bv32) { d & 0xff00_0000 == 0 }

  /** The reflected register after one message bit. */
  function FeedBit32(crc: bv32, bit: bool): bv32 {
    if (crc & 1 == 1) != bit then (crc >> 1) ^ 0xedb8_8320 else crc >> 1
  }

  /** The register after the eight bits of a byte, least significant bit first. */
  function FeedByte32(crc: bv32, b: uint8): bv32 {
    var c4 := FeedBit32(FeedBit32(FeedBit32(FeedBit32(crc, Bit8(b, 0)), Bit8(b, 1)), Bit8(b, 2)), Bit8(b, 3));
    FeedBit32(FeedBit32(FeedBit32(FeedBit32(c4, Bit8(b, 4)), Bit8(b, 5)), Bit8(b, 6)), Bit8(b, 7))
  }

  /** Feeding the bottom bit of the pending bits `v` to `c` and shifting `c ^ v` differ by what is still pending. */
  lemma FeedBottom(c: bv32, v: bv32, d: bv32, w: bv32, bit: bool)
    requires d == c ^ v && w == v >> 1 && bit == (v & 1 == 1)
    ensures BitStep(d) == FeedBit32(c, bit) ^ w
  {
  }

  lemma OneBit32(c: bv32, v: bv32, d: bv32, bit: bool) returns (c': bv32, v': bv32, d': bv32)
    requires d == Xor(c, v) && bit == (v & 1 == 1)
    ensures c' == FeedBit32(c, bit) && v' == v >> 1 && d' == BitStep(d) && d' == Xor(c', v')
  {
    hide *;
    c', v', d' := FeedBit32(c, bit), v >> 1, BitStep(d);
    XorIs(c, v, d);
    FeedBottom(c, v, d, v', bit);
    XorIs(c', v', d');
  }

  lemma BitsOf(b: uint8, v0: bv32, v1: bv32, v2: bv32, v3: bv32, v4: bv32, v5: bv32, v6: bv32, v7: bv32, v8: bv32)
    requires v0 == b as bv32 && v1 == v0 >> 1 && v2 == v1 >> 1 && v3 == v2 >> 1 && v4 == v3 >> 1
    requires v5 == v4 >> 1 && v6 == v5 >> 1 && v7 == v6 >> 1 && v8 == v7 >> 1
    ensures Bit8(b, 0) == (v0 & 1 == 1) && Bit8(b, 1) == (v1 & 1 == 1) && Bit8(b, 2) == (v2 & 1 == 1)
            && Bit8(b, 3) == (v3 & 1 == 1)
    ensures Bit8(b, 4) == (v4 & 1 == 1) && Bit8(b, 5) == (v5 & 1 == 1) && Bit8(b, 6) == (v6 & 1 == 1)
            && Bit8(b, 7) == (v7 & 1 == 1)
    ensures v8 == 0
  {
  }

  lemma WideIs(b: uint8)
    ensures Wide(b) == b as bv32
  {
  }

  lemma XorNothing(a: bv32, z: bv32)
    requires z == 0
    ensures Xor(a, z) == a
  {
  }

  lemma Step8Is(c: bv32)
    ensures Step8(c) == BitStep(BitStep(BitStep(BitStep(BitStep(BitStep(BitStep(BitStep(c))))))))
  {
  }

  lemma FeedByteBits(c: bv32, b: uint8)
    ensures FeedByte32(c, b) ==
            var c4 := FeedBit32(FeedBit32(FeedBit32(FeedBit32(c, Bit8(b, 0)), Bit8(b, 1)), Bit8(b, 2)), Bit8(b, 3));
            FeedBit32(FeedBit32(FeedBit32(FeedBit32(c4, Bit8(b, 4)), Bit8(b, 5)), Bit8(b, 6)), Bit8(b, 7))
  {
  }

  /** A byte can be added to the register's bottom before eight shifts. */
  lemma FeedByteIs(crc: bv32, b: uint8)
    ensures FeedByte32(crc, b) == Step8(Xor(crc, Wide(b)))
  {
    hide *;
    WideIs(b);
    var v0: bv32 := b as bv32;
    var v1: bv32 := v0 >> 1;
    var v2: bv32 := v1 >> 1;
    var v3: bv32 := v2 >> 1;
    var v4: bv32 := v3 >> 1;
    var v5: bv32 := v4 >> 1;
    var v6: bv32 := v5 >> 1;
    var v7: bv32 := v6 >> 1;
    BitsOf(b, v0, v1, v2, v3, v4, v5, v6, v7, v7 >> 1);
    Step8Is(Xor(crc, Wide(b)));
    FeedByteBits(crc, b);
    var c, v, d := OneBit32(crc, v0, Xor(crc, v0), Bit8(b, 0));
    c, v, d := OneBit32(c, v, d, Bit8(b, 1));
    c, v, d := OneBit32(c, v, d, Bit8(b, 2));
    c, v, d := OneBit32(c, v, d, Bit8(b, 3));
    c, v, d := OneBit32(c, v, d, Bit8(b, 4));
    c, v, d := OneBit32(c, v, d, Bit8(b, 5));
    c, v, d := OneBit32(c, v, d, Bit8(b, 6));
    c, v, d := OneBit32(c, v, d, Bit8(b, 7));
    XorNothing(c, v);
  }

  function Feed32(crc: bv32, data: seq<uint8>): bv32
    decreases |data|
  {
    if data == [] then crc else Feed32(FeedByte32(crc, data[0]), data[1..])
  }

  /** The CRC of section 8 of RFC 1952, bit by bit. */
  function Crc32Of(data: seq<uint8>): bv32 {
    Feed32(0xffff_ffff, data) ^ 0xffff_ffff
  }

  lemma {:induction false} Feed32Concat(crc: bv32, a: seq<uint8>, b: seq<uint8>)
    ensures Feed32(crc, a + b) == Feed32(Feed32(crc, a), b)
    decreases |a|
  {
    hide FeedByte32;
    if a == [] {
      assert a + b == b;
    } else {
      assert (a + b)[1..] == a[1..] + b;
      Feed32Concat(FeedByte32(crc, a[0]), a[1..], b);
    }
  }

  lemma Feed32Snoc(crc: bv32, data: seq<uint8>, i: nat)
    requires i < |data|
    ensures Feed32(crc, data[..i + 1]) == FeedByte32(Feed32(crc, data[..i]), data[i])
  {
    hide FeedByte32;
    assert data[..i + 1] == data[..i] + [data[i]] && [data[i]][1..] == [];
    Feed32Concat(crc, data[..i], [data[i]]);
  }

  lemma Feed32Nothing(crc: bv32)
    ensures Feed32(crc, []) == crc
  {
  }

  /** Above the bottom bit the register is linear. */
  lemma BitStepAdds(c: bv32, b: bv32, r: bv32, s: bv32)
    requires s <= 0x7fff_ffff && r == c ^ b && b == s << 1
    ensures BitStep(r) == BitStep(c) ^ s
  {
  }

  lemma XorIs(a: bv32, b: bv32, r: bv32)
    ensures r == a ^ b <==> r == Xor(a, b)
  {
  }

  lemma EvenIs(b: bv32, s: bv32)
    requires b & 1 == 0 && s == b >> 1
    ensures b == s << 1 && s <= 0x7fff_ffff
  {
  }

  lemma StepSplit1(c: bv32, b: bv32) returns (c': bv32, b': bv32, r: bv32)
    requires b & 1 == 0
    ensures c' == BitStep(c) && b' == b >> 1 && r == BitStep(Xor(c, b)) && r == Xor(c', b')
  {
    hide *;
    c', b', r := BitStep(c), b >> 1, Xor(c, b);
    EvenIs(b, b');
    XorIs(c, b, r);
    BitStepAdds(c, b, r, b');
    r := BitStep(r);
    XorIs(c', b', r);
  }

  lemma StepSplit2(c: bv32, b: bv32) returns (c': bv32, b': bv32, r: bv32)
    requires b & 3 == 0
    ensures c' == BitStep(BitStep(c)) && b' == b >> 2 && r == BitStep(BitStep(Xor(c, b))) && r == Xor(c', b')
  {
    hide *;
    c', b', r := StepSplit1(c, b);
    c', b', r := StepSplit1(c', b');
  }

  lemma StepSplit4(c: bv32, b: bv32) returns (c': bv32, b': bv32, r: bv32)
    requires b & 15 == 0
    ensures c' == BitStep(BitStep(BitStep(BitStep(c)))) && b' == b >> 4
    ensures r == BitStep(BitStep(BitStep(BitStep(Xor(c, b))))) && r == Xor(c', b')
  {
    hide *;
    c', b', r := StepSplit2(c, b);
    c', b', r := StepSplit2(c', b');
  }

  lemma StepSplit8(c: bv32, b: bv32) returns (c': bv32, b': bv32, r: bv32)
    requires b & 255 == 0
    ensures c' == Step8(c) && b' == b >> 8 && r == Step8(Xor(c, b)) && r == Xor(c', b')
  {
    hide BitStep, Xor;
    c', b', r := StepSplit4(c, b);
    c', b', r := StepSplit4(c', b');
  }

  lemma WideXor(c: bv32, b: uint8, x: bv32)
    requires x == c ^ (b as bv32)
    ensures x == Xor(c, Wide(b))
  {
  }

  lemma LowAndHigh(c: bv32, b: uint8, x: bv32, low: bv32, high: bv32)
    requires x == c ^ (b as bv32) && low == x & 0xff && high == (x >> 8) << 8
    ensures x == low ^ high && high & 255 == 0 && high >> 8 == c >> 8
  {
  }

  /** The code's byte step: only the low byte needs the shifts. */
  lemma ByteAtOnce32(c: bv32, b: uint8, x: bv32, low: bv32, high: bv32)
    requires x == c ^ (b as bv32) && low == x & 0xff && high == (x >> 8) << 8
    ensures FeedByte32(c, b) == Xor(Step8(low), c >> 8)
  {
    hide *;
    FeedByteIs(c, b);
    LowAndHigh(c, b, x, low, high);
    XorIs(low, high, x);
    WideXor(c, b, x);
    var l, h, r := StepSplit8(low, high);
  }

  function TableRow0(n: uint8): bv32 {
    if n == 0x00 then 0x0000_0000 else if n == 0x01 then 0x7707_3096 else
    if n == 0x02 then 0xee0e_612c else if n == 0x03 then 0x9909_51ba else
    if n == 0x04 then 0x076d_c419 else if n == 0x05 then 0x706a_f48f else
    if n == 0x06 then 0xe963_a535 else if n == 0x07 then 0x9e64_95a3 else
    if n == 0x08 then 0x0edb_8832 else if n == 0x09 then 0x79dc_b8a4 else
    if n == 0x0a then 0xe0d5_e91e else if n == 0x0b then 0x97d2_d988 else
    if n == 0x0c then 0x09b6_4c2b else if n == 0x0d then 0x7eb1_7cbd else
    if n == 0x0e then 0xe7b8_2d07 else 0x90bf_1d91
  }

  function TableRow1(n: uint8): bv32 {
    if n == 0x10 then 0x1db7_1064 else if n == 0x11 then 0x6ab0_20f2 else
    if n == 0x12 then 0xf3b9_7148 else if n == 0x13 then 0x84be_41de else
    if n == 0x14 then 0x1ada_d47d else if n == 0x15 then 0x6ddd_e4eb else
    if n == 0x16 then 0xf4d4_b551 else if n == 0x17 then 0x83d3_85c7 else
    if n == 0x18 then 0x136c_9856 else if n == 0x19 then 0x646b_a8c0 else
    if n == 0x1a then 0xfd62_f97a else if n == 0x1b then 0x8a65_c9ec else
    if n == 0x1c then 0x1401_5c4f else if n == 0x1d then 0x6306_6cd9 else
    if n == 0x1e then 0xfa0f_3d63 else 0x8d08_0df5
  }

  function TableRow2(n: uint8): bv32 {
    if n == 0x20 then 0x3b6e_20c8 else if n == 0x21 then 0x4c69_105e else
    if n == 0x22 then 0xd560_41e4 else if n == 0x23 then 0xa267_7172 else
    if n == 0x24 then 0x3c03_e4d1 else if n == 0x25 then 0x4b04_d447 else
    if n == 0x26 then 0xd20d_85fd else if n == 0x27 then 0xa50a_b56b else
    if n == 0x28 then 0x35b5_a8fa else if n == 0x29 then 0x42b2_986c else
    if n == 0x2a then 0xdbbb_c9d6 else if n == 0x2b then 0xacbc_f940 else
    if n == 0x2c then 0x32d8_6ce3 else if n == 0x2d then 0x45df_5c75 else
    if n == 0x2e then 0xdcd6_0dcf else 0xabd1_3d59
  }

  function TableRow3(n: uint8): bv32 {
    if n == 0x30 then 0x26d9_30ac else if n == 0x31 then 0x51de_003a else
    if n == 0x32 then 0xc8d7_5180 else if n == 0x33 then 0xbfd0_6116 else
    if n == 0x34 then 0x21b4_f4b5 else if n == 0x35 then 0x56b3_c423 else
    if n == 0x36 then 0xcfba_9599 else if n == 0x37 then 0xb8bd_a50f else
    if n == 0x38 then 0x2802_b89e else if n == 0x39 then 0x5f05_8808 else
    if n == 0x3a then 0xc60c_d9b2 else if n == 0x3b then 0xb10b_e924 else
    if n == 0x3c then 0x2f6f_7c87 else if n == 0x3d then 0x5868_4c11 else
    if n == 0x3e then 0xc161_1dab else 0xb666_2d3d
  }

  function TableRow4(n: uint8): bv32 {
    if n == 0x40 then 0x76dc_4190 else if n == 0x41 then 0x01db_7106 else
    if n == 0x42 then 0x98d2_20bc else if n == 0x43 then 0xefd5_102a else
    if n == 0x44 then 0x71b1_8589 else if n == 0x45 then 0x06b6_b51f else
    if n == 0x46 then 0x9fbf_e4a5 else if n == 0x47 then 0xe8b8_d433 else
    if n == 0x48 then 0x7807_c9a2 else if n == 0x49 then 0x0f00_f934 else
    if n == 0x4a then 0x9609_a88e else if n == 0x4b then 0xe10e_9818 else
    if n == 0x4c then 0x7f6a_0dbb else if n == 0x4d then 0x086d_3d2d else
    if n == 0x4e then 0x9164_6c97 else 0xe663_5c01
  }

  function TableRow5(n: uint8): bv32 {
    if n == 0x50 then 0x6b6b_51f4 else if n == 0x51 then 0x1c6c_6162 else
    if n == 0x52 then 0x8565_30d8 else if n == 0x53 then 0xf262_004e else
    if n == 0x54 then 0x6c06_95ed else if n == 0x55 then 0x1b01_a57b else
    if n == 0x56 then 0x8208_f4c1 else if n == 0x57 then 0xf50f_c457 else
    if n == 0x58 then 0x65b0_d9c6 else if n == 0x59 then 0x12b7_e950 else
    if n == 0x5a then 0x8bbe_b8ea else if n == 0x5b then 0xfcb9_887c else
    if n == 0x5c then 0x62dd_1ddf else if n == 0x5d then 0x15da_2d49 else
    if n == 0x5e then 0x8cd3_7cf3 else 0xfbd4_4c65
  }

  function TableRow6(n: uint8): bv32 {
    if n == 0x60 then 0x4db2_6158 else if n == 0x61 then 0x3ab5_51ce else
    if n == 0x62 then 0xa3bc_0074 else if n == 0x63 then 0xd4bb_30e2 else
    if n == 0x64 then 0x4adf_a541 else if n == 0x65 then 0x3dd8_95d7 else
    if n == 0x66 then 0xa4d1_c46d else if n == 0x67 then 0xd3d6_f4fb else
    if n == 0x68 then 0x4369_e96a else if n == 0x69 then 0x346e_d9fc else
    if n == 0x6a then 0xad67_8846 else if n == 0x6b then 0xda60_b8d0 else
    if n == 0x6c then 0x4404_2d73 else if n == 0x6d then 0x3303_1de5 else
    if n == 0x6e then 0xaa0a_4c5f else 0xdd0d_7cc9
  }

  function TableRow7(n: uint8): bv32 {
    if n == 0x70 then 0x5005_713c else if n == 0x71 then 0x2702_41aa else
    if n == 0x72 then 0xbe0b_1010 else if n == 0x73 then 0xc90c_2086 else
    if n == 0x74 then 0x5768_b525 else if n == 0x75 then 0x206f_85b3 else
    if n == 0x76 then 0xb966_d409 else if n == 0x77 then 0xce61_e49f else
    if n == 0x78 then 0x5ede_f90e else if n == 0x79 then 0x29d9_c998 else
    if n == 0x7a then 0xb0d0_9822 else if n == 0x7b then 0xc7d7_a8b4 else
    if n == 0x7c then 0x59b3_3d17 else if n == 0x7d then 0x2eb4_0d81 else
    if n == 0x7e then 0xb7bd_5c3b else 0xc0ba_6cad
  }

  function TableRow8(n: uint8): bv32 {
    if n == 0x80 then 0xedb8_8320 else if n == 0x81 then 0x9abf_b3b6 else
    if n == 0x82 then 0x03b6_e20c else if n == 0x83 then 0x74b1_d29a else
    if n == 0x84 then 0xead5_4739 else if n == 0x85 then 0x9dd2_77af else
    if n == 0x86 then 0x04db_2615 else if n == 0x87 then 0x73dc_1683 else
    if n == 0x88 then 0xe363_0b12 else if n == 0x89 then 0x9464_3b84 else
    if n == 0x8a then 0x0d6d_6a3e else if n == 0x8b then 0x7a6a_5aa8 else
    if n == 0x8c then 0xe40e_cf0b else if n == 0x8d then 0x9309_ff9d else
    if n == 0x8e then 0x0a00_ae27 else 0x7d07_9eb1
  }

  function TableRow9(n: uint8): bv32 {
    if n == 0x90 then 0xf00f_9344 else if n == 0x91 then 0x8708_a3d2 else
    if n == 0x92 then 0x1e01_f268 else if n == 0x93 then 0x6906_c2fe else
    if n == 0x94 then 0xf762_575d else if n == 0x95 then 0x8065_67cb else
    if n == 0x96 then 0x196c_3671 else if n == 0x97 then 0x6e6b_06e7 else
    if n == 0x98 then 0xfed4_1b76 else if n == 0x99 then 0x89d3_2be0 else
    if n == 0x9a then 0x10da_7a5a else if n == 0x9b then 0x67dd_4acc else
    if n == 0x9c then 0xf9b9_df6f else if n == 0x9d then 0x8ebe_eff9 else
    if n == 0x9e then 0x17b7_be43 else 0x60b0_8ed5
  }

  function TableRowA(n: uint8): bv32 {
    if n == 0xa0 then 0xd6d6_a3e8 else if n == 0xa1 then 0xa1d1_937e else
    if n == 0xa2 then 0x38d8_c2c4 else if n == 0xa3 then 0x4fdf_f252 else
    if n == 0xa4 then 0xd1bb_67f1 else if n == 0xa5 then 0xa6bc_5767 else
    if n == 0xa6 then 0x3fb5_06dd else if n == 0xa7 then 0x48b2_364b else
    if n == 0xa8 then 0xd80d_2bda else if n == 0xa9 then 0xaf0a_1b4c else
    if n == 0xaa then 0x3603_4af6 else if n == 0xab then 0x4104_7a60 else
    if n == 0xac then 0xdf60_efc3 else if n == 0xad then 0xa867_df55 else
    if n == 0xae then 0x316e_8eef else 0x4669_be79
  }

  function TableRowB(n: uint8): bv32 {
    if n == 0xb0 then 0xcb61_b38c else if n == 0xb1 then 0xbc66_831a else
    if n == 0xb2 then 0x256f_d2a0 else if n == 0xb3 then 0x5268_e236 else
    if n == 0xb4 then 0xcc0c_7795 else if n == 0xb5 then 0xbb0b_4703 else
    if n == 0xb6 then 0x2202_16b9 else if n == 0xb7 then 0x5505_262f else
    if n == 0xb8 then 0xc5ba_3bbe else if n == 0xb9 then 0xb2bd_0b28 else
    if n == 0xba then 0x2bb4_5a92 else if n == 0xbb then 0x5cb3_6a04 else
    if n == 0xbc then 0xc2d7_ffa7 else if n == 0xbd then 0xb5d0_cf31 else
    if n == 0xbe then 0x2cd9_9e8b else 0x5bde_ae1d
  }

  function TableRowC(n: uint8): bv32 {
    if n == 0xc0 then 0x9b64_c2b0 else if n == 0xc1 then 0xec63_f226 else
    if n == 0xc2 then 0x756a_a39c else if n == 0xc3 then 0x026d_930a else
    if n == 0xc4 then 0x9c09_06a9 else if n == 0xc5 then 0xeb0e_363f else
    if n == 0xc6 then 0x7207_6785 else if n == 0xc7 then 0x0500_5713 else
    if n == 0xc8 then 0x95bf_4a82 else if n == 0xc9 then 0xe2b8_7a14 else
    if n == 0xca then 0x7bb1_2bae else if n == 0xcb then 0x0cb6_1b38 else
    if n == 0xcc then 0x92d2_8e9b else if n == 0xcd then 0xe5d5_be0d else
    if n == 0xce then 0x7cdc_efb7 else 0x0bdb_df21
  }

  function TableRowD(n: uint8): bv32 {
    if n == 0xd0 then 0x86d3_d2d4 else if n == 0xd1 then 0xf1d4_e242 else
    if n == 0xd2 then 0x68dd_b3f8 else if n == 0xd3 then 0x1fda_836e else
    if n == 0xd4 then 0x81be_16cd else if n == 0xd5 then 0xf6b9_265b else
    if n == 0xd6 then 0x6fb0_77e1 else if n == 0xd7 then 0x18b7_4777 else
    if n == 0xd8 then 0x8808_5ae6 else if n == 0xd9 then 0xff0f_6a70 else
    if n == 0xda then 0x6606_3bca else if n == 0xdb then 0x1101_0b5c else
    if n == 0xdc then 0x8f65_9eff else if n == 0xdd then 0xf862_ae69 else
    if n == 0xde then 0x616b_ffd3 else 0x166c_cf45
  }

  function TableRowE(n: uint8): bv32 {
    if n == 0xe0 then 0xa00a_e278 else if n == 0xe1 then 0xd70d_d2ee else
    if n == 0xe2 then 0x4e04_8354 else if n == 0xe3 then 0x3903_b3c2 else
    if n == 0xe4 then 0xa767_2661 else if n == 0xe5 then 0xd060_16f7 else
    if n == 0xe6 then 0x4969_474d else if n == 0xe7 then 0x3e6e_77db else
    if n == 0xe8 then 0xaed1_6a4a else if n == 0xe9 then 0xd9d6_5adc else
    if n == 0xea then 0x40df_0b66 else if n == 0xeb then 0x37d8_3bf0 else
    if n == 0xec then 0xa9bc_ae53 else if n == 0xed then 0xdebb_9ec5 else
    if n == 0xee then 0x47b2_cf7f else 0x30b5_ffe9
  }

  function TableRowF(n: uint8): bv32 {
    if n == 0xf0 then 0xbdbd_f21c else if n == 0xf1 then 0xcaba_c28a else
    if n == 0xf2 then 0x53b3_9330 else if n == 0xf3 then 0x24b4_a3a6 else
    if n == 0xf4 then 0xbad0_3605 else if n == 0xf5 then 0xcdd7_0693 else
    if n == 0xf6 then 0x54de_5729 else if n == 0xf7 then 0x23d9_67bf else
    if n == 0xf8 then 0xb366_7a2e else if n == 0xf9 then 0xc461_4ab8 else
    if n == 0xfa then 0x5d68_1b02 else if n == 0xfb then 0x2a6f_2b94 else
    if n == 0xfc then 0xb40b_be37 else if n == 0xfd then 0xc30c_8ea1 else
    if n == 0xfe then 0x5a05_df1b else 0x2d02_ef8d
  }

  /** The lookup table, sixteen entries a row. */
  function Crc32Table(n: uint8): bv32 {
    if n <= 0x0f then TableRow0(n) else if n <= 0x1f then TableRow1(n) else
    if n <= 0x2f then TableRow2(n) else if n <= 0x3f then TableRow3(n) else
    if n <= 0x4f then TableRow4(n) else if n <= 0x5f then TableRow5(n) else
    if n <= 0x6f then TableRow6(n) else if n <= 0x7f then TableRow7(n) else
    if n <= 0x8f then TableRow8(n) else if n <= 0x9f then TableRow9(n) else
    if n <= 0xaf then TableRowA(n) else if n <= 0xbf then TableRowB(n) else
    if n <= 0xcf then TableRowC(n) else if n <= 0xdf then TableRowD(n) else
    if n <= 0xef then TableRowE(n) else TableRowF(n)
  }

  lemma Row0(n: uint8)
    requires 0x00 <= n <= 0x0f
    ensures TableRow0(n) == Step8(n as bv32)
  {
  }

  lemma Row1(n: uint8)
    requires 0x10 <= n <= 0x1f
    ensures TableRow1(n) == Step8(n as bv32)
  {
  }

  lemma Row2(n: uint8)
    requires 0x20 <= n <= 0x2f
    ensures TableRow2(n) == Step8(n as bv32)
  {
  }

  lemma Row3(n: uint8)
    requires 0x30 <= n <= 0x3f
    ensures TableRow3(n) == Step8(n as bv32)
  {
  }

  lemma Row4(n: uint8)
    requires 0x40 <= n <= 0x4f
    ensures TableRow4(n) == Step8(n as bv32)
  {
  }

  lemma Row5(n: uint8)
    requires 0x50 <= n <= 0x5f
    ensures TableRow5(n) == Step8(n as bv32)
  {
  }

  lemma Row6(n: uint8)
    requires 0x60 <= n <= 0x6f
    ensures TableRow6(n) == Step8(n as bv32)
  {
  }

  lemma Row7(n: uint8)
    requires 0x70 <= n <= 0x7f
    ensures TableRow7(n) == Step8(n as bv32)
  {
  }

  lemma Row8(n: uint8)
    requires 0x80 <= n <= 0x8f
    ensures TableRow8(n) == Step8(n as bv32)
  {
  }

  lemma Row9(n: uint8)
    requires 0x90 <= n <= 0x9f
    ensures TableRow9(n) == Step8(n as bv32)
  {
  }

  lemma RowA(n: uint8)
    requires 0xa0 <= n <= 0xaf
    ensures TableRowA(n) == Step8(n as bv32)
  {
  }

  lemma RowB(n: uint8)
    requires 0xb0 <= n <= 0xbf
    ensures TableRowB(n) == Step8(n as bv32)
  {
  }

  lemma RowC(n: uint8)
    requires 0xc0 <= n <= 0xcf
    ensures TableRowC(n) == Step8(n as bv32)
  {
  }

  lemma RowD(n: uint8)
    requires 0xd0 <= n <= 0xdf
    ensures TableRowD(n) == Step8(n as bv32)
  {
  }

  lemma RowE(n: uint8)
    requires 0xe0 <= n <= 0xef
    ensures TableRowE(n) == Step8(n as bv32)
  {
  }

  lemma RowF(n: uint8)
    requires 0xf0 <= n <= 0xff
    ensures TableRowF(n) == Step8(n as bv32)
  {
  }

  lemma TableIs(n: uint8)
    ensures Crc32Table(n) == Step8(n as bv32)
  {
    hide Step8;
    if n <= 0x0f {
      Row0(n);
    } else if n <= 0x1f {
      Row1(n);
    } else if n <= 0x2f {
      Row2(n);
    } else if n <= 0x3f {
      Row3(n);
    } else if n <= 0x4f {
      Row4(n);
    } else if n <= 0x5f {
      Row5(n);
    } else if n <= 0x6f {
      Row6(n);
    } else if n <= 0x7f {
      Row7(n);
    } else if n <= 0x8f {
      Row8(n);
    } else if n <= 0x9f {
      Row9(n);
    } else if n <= 0xaf {
      RowA(n);
    } else if n <= 0xbf {
      RowB(n);
    } else if n <= 0xcf {
      RowC(n);
    } else if n <= 0xdf {
      RowD(n);
    } else if n <= 0xef {
      RowE(n);
    } else {
      RowF(n);
    }
  }

  lemma FastStep(crc: bv32, b: uint8, x: bv32, low: bv32, n: uint8)
    requires x == crc ^ (b as bv32) && low == x & 0xff && n == low as bv8
    ensures Xor(Crc32Table(n), crc >> 8) == FeedByte32(crc, b)
  {
    hide *;
    ByteAtOnce32(crc, b, x, low, (x >> 8) << 8);
    LowByteIs(x, low, n);
    TableIs(n);
  }

  lemma LowByteIs(x: bv32, low: bv32, n: uint8)
    requires low == x & 0xff && n == low as bv8
    ensures n as bv32 == low
  {
  }

  /** The table-driven form; with its default arguments it is the CRC of RFC 1952. */
  method CRC_32_FAST(buf: seq<uint8>, crc: bv32, finish: bool) returns (r: bv32)
    ensures r == if finish then Feed32(crc, buf) ^ 0xffff_ffff else Feed32(crc, buf)
    ensures crc == 0xffff_ffff && finish ==> r == Crc32Of(buf)
  {
    hide Feed32, FeedByte32, Crc32Table;
    r := crc;
    Feed32Nothing(crc);
    var p := 0;
    while p < |buf|
      invariant 0 <= p <= |buf| && r == Feed32(crc, buf[..p])
    {
      Feed32Snoc(crc, buf, p);
      r := FastNext(r, buf[p]);
      p := p + 1;
    }
    assert buf[..p] == buf;
    if finish {
      r := r ^ 0xffff_ffff;
    }
  }

  method FastNext(crc: bv32, b: uint8) returns (r: bv32)
    ensures r == FeedByte32(crc, b)
  {
    hide *;
    var x := crc ^ (b as bv32);
    var low := x & 0xff;
    var n := low as bv8;
    r := Xor(Crc32Table(n), crc >> 8);
    FastStep(crc, b, x, low, n);
  }

  function Steps1(c: bv32, n: nat): bv32 {
    if n == 0 then c else BitStep(Steps1(c, n - 1))
  }

  lemma EightSteps(c: bv32)
    ensures Steps1(c, 8) == Step8(c)
  {
    hide BitStep;
    assert Steps1(c, 1) == BitStep(c);
    assert Steps1(c, 2) == BitStep(Steps1(c, 1));
    assert Steps1(c, 3) == BitStep(Steps1(c, 2));
    assert Steps1(c, 4) == BitStep(Steps1(c, 3));
    assert Steps1(c, 5) == BitStep(Steps1(c, 4));
    assert Steps1(c, 6) == BitStep(Steps1(c, 5));
    assert Steps1(c, 7) == BitStep(Steps1(c, 6));
  }

  /** The byte step that computes its table entry as it goes. */
  method SlowNext(crc: bv32, b: uint8) returns (r: bv32)
    ensures r == FeedByte32(crc, b)
  {
    hide FeedByte32, Step8, Xor;
    var x := crc ^ (b as bv32);
    var start := x & 0xff;
    var temp := start;
    for i := 0 to 8
      invariant temp == Steps1(start, i)
    {
      if temp & 1 == 1 {
        temp := (temp >> 1) ^ 0xedb8_8320;
      } else {
        temp := temp >> 1;
      }
    }
    r := Xor(crc >> 8, temp);
    SlowStep(crc, b, x, start, temp);
  }

  lemma SlowStep(crc: bv32, b: uint8, x: bv32, start: bv32, temp: bv32)
    requires x == crc ^ (b as bv32) && start == x & 0xff && temp == Steps1(start, 8)
    ensures Xor(crc >> 8, temp) == FeedByte32(crc, b)
  {
    hide *;
    EightSteps(start);
    ByteAtOnce32(crc, b, x, start, (x >> 8) << 8);
    XorCommutes(temp, crc >> 8);
  }

  method CRC_32(data: seq<uint8>) returns (crc: bv32)
    ensures crc == Crc32Of(data)
  {
    hide Feed32, FeedByte32;
    crc := CRC_32_CONT(data, 0xffff_ffff);
    crc := crc ^ 0xffff_ffff;
  }

  /** The check continued over another piece; a final complement gives the CRC of all pieces together. */
  method CRC_32_CONT(data: seq<uint8>, start: bv32) returns (crc: bv32)
    ensures crc == Feed32(start, data)
    ensures forall a: seq<uint8> | start == Feed32(0xffff_ffff, a) :: crc ^ 0xffff_ffff == Crc32Of(a + data)
  {
    hide Feed32, FeedByte32;
    crc := start;
    Feed32Nothing(start);
    for i := 0 to |data|
      invariant crc == Feed32(start, data[..i])
    {
      Feed32Snoc(start, data, i);
      crc := SlowNext(crc, data[i]);
    }
    assert data[..|data|] == data;
    forall a: seq<uint8> | start == Feed32(0xffff_ffff, a)
      ensures Feed32(0xffff_ffff, a + data) == crc
    {
      Feed32Concat(0xffff_ffff, a, data);
    }
  }

  // ---------------------------------------------------------------- bursts

  /** The register never merges two states. */
  lemma BitStepInjective(a: bv32, b: bv32)
    requires BitStep(a) == BitStep(b)
    ensures a == b
  {
  }

  lemma Step8Injective(a: bv32, b: bv32)
    requires Step8(a) == Step8(b)
    ensures a == b
  {
    hide BitStep;
    var a1, b1 := BitStep(a), BitStep(b);
    var a2, b2 := BitStep(a1), BitStep(b1);
    var a3, b3 := BitStep(a2), BitStep(b2);
    var a4, b4 := BitStep(a3), BitStep(b3);
    var a5, b5 := BitStep(a4), BitStep(b4);
    var a6, b6 := BitStep(a5), BitStep(b5);
    BitStepInjective(BitStep(a6), BitStep(b6));
    BitStepInjective(a6, b6);
    BitStepInjective(a5, b5);
    BitStepInjective(a4, b4);
    BitStepInjective(a3, b3);
    BitStepInjective(a2, b2);
    BitStepInjective(a1, b1);
    BitStepInjective(a, b);
  }

  lemma XorCommutes(a: bv32, b: bv32)
    ensures Xor(a, b) == Xor(b, a)
  {
  }

  lemma XorAssociates(a: bv32, b: bv32, c: bv32)
    ensures Xor(Xor(a, b), c) == Xor(a, Xor(b, c))
  {
  }

  lemma XorSame(a: bv32)
    ensures Xor(a, a) == 0
  {
  }

  lemma XorUndo(x: bv32, y: bv32)
    ensures Xor(y, Xor(x, y)) == x
  {
  }

  lemma XorTwice(a: bv32, x: bv32)
    ensures Xor(Xor(a, x), x) == a
  {
  }

  lemma XorCancel(a: bv32, b: bv32, x: bv32)
    requires Xor(a, x) == Xor(b, x)
    ensures a == b
  {
    hide *;
    XorTwice(a, x);
    XorTwice(b, x);
  }

  lemma XorIsZero(a: bv32, b: bv32)
    requires Xor(a, b) == 0
    ensures a == b
  {
  }

  lemma XorSwap(s: bv32, u: bv32, t: bv32)
    ensures Xor(Xor(s, u), t) == Xor(Xor(s, t), u)
  {
    hide *;
    XorAssociates(s, u, t);
    XorAssociates(s, t, u);
    XorCommutes(u, t);
  }

  lemma XorShared(a: bv32, b: bv32, p: bv32)
    ensures Xor(Xor(a, p), Xor(b, p)) == Xor(a, b)
  {
    hide *;
    XorAssociates(a, p, Xor(b, p));
    XorUndo(b, p);
  }

  lemma Rearrange(a: bv32, b: bv32, p: bv32, q: bv32, u: bv32)
    requires Xor(a, p) == Xor(Xor(b, q), u)
    ensures Xor(a, b) == Xor(Xor(p, q), u)
  {
    hide *;
    XorShared(a, b, p);
    XorSwap(Xor(b, q), u, Xor(b, p));
    XorCommutes(b, q);
    XorCommutes(b, p);
    XorShared(q, p, b);
    XorCommutes(q, p);
  }

  lemma LowByteClear(d: bv32)
    requires TopClear8(d)
    ensures Up8(d) & 255 == 0 && Up8(d) >> 8 == d
  {
  }

  /** What stands above the low byte passes through eight shifts. */
  lemma StepAdds8(y: bv32, d: bv32)
    requires TopClear8(d)
    ensures Step8(Xor(y, Up8(d))) == Xor(Step8(y), d)
  {
    hide Step8, Up8, TopClear8, Xor;
    LowByteClear(d);
    var l, h, r := StepSplit8(y, Up8(d));
  }

  /** States that differ by `d` after eight shifts differed by that, eight bits up, before them. */
  lemma StepBack(x: bv32, y: bv32, d: bv32)
    requires d == Xor(Step8(x), Step8(y)) && TopClear8(d)
    ensures x == Xor(y, Up8(d))
  {
    hide *;
    StepAdds8(y, d);
    XorUndo(Step8(x), Step8(y));
    Step8Injective(x, Xor(y, Up8(d)));
  }

  lemma FeedBack(a: bv32, b: bv32, p: uint8, q: uint8, d: bv32)
    requires d == Xor(FeedByte32(a, p), FeedByte32(b, q)) && TopClear8(d)
    ensures Xor(a, b) == Xor(Xor(Wide(p), Wide(q)), Up8(d))
  {
    hide Step8, Xor, Wide, Up8, TopClear8, FeedByte32;
    FeedByteIs(a, p);
    FeedByteIs(b, q);
    StepBack(Xor(a, Wide(p)), Xor(b, Wide(q)), d);
    Rearrange(a, b, Wide(p), Wide(q), Up8(d));
  }

  /** Which bits two states may differ in if `n` bytes can make them equal. */
  predicate Within(d: bv32, n: nat) {
    if n == 0 then d == 0
    else if n == 1 then d & 0xffff_ff00 == 0
    else if n == 2 then d & 0xffff_0000 == 0
    else n > 3 || d & 0xff00_0000 == 0
  }

  lemma TwoBytes1(p: uint8, q: uint8)
    ensures Xor(Xor(Wide(p), Wide(q)), Up8(0)) & 0xffff_ff00 == 0
  {
  }

  lemma TwoBytes2(p: uint8, q: uint8, d: bv32)
    requires d & 0xffff_ff00 == 0
    ensures Xor(Xor(Wide(p), Wide(q)), Up8(d)) & 0xffff_0000 == 0
  {
  }

  lemma TwoBytes3(p: uint8, q: uint8, d: bv32)
    requires d & 0xffff_0000 == 0
    ensures Xor(Xor(Wide(p), Wide(q)), Up8(d)) & 0xff00_0000 == 0
  {
  }

  lemma WithinOneMore(p: uint8, q: uint8, d: bv32, n: nat)
    requires n <= 2 && Within(d, n)
    ensures Within(Xor(Xor(Wide(p), Wide(q)), Up8(d)), n + 1)
  {
    hide Xor, Wide, Up8;
    if n == 0 {
      TwoBytes1(p, q);
    } else if n == 1 {
      TwoBytes2(p, q, d);
    } else {
      TwoBytes3(p, q, d);
    }
  }

  lemma ByteClear(d: bv32)
    ensures d & 0xffff_ff00 == 0 || d & 0xffff_0000 == 0 ==> TopClear8(d)
    ensures TopClear8(0)
  {
  }

  lemma WithinThree(d: bv32, n: nat)
    requires n <= 3 && Within(d, n)
    ensures TopClear8(d)
  {
    ByteClear(d);
  }

  lemma WithinNone(d: bv32)
    requires d == 0
    ensures Within(d, 0)
  {
  }

  /** n bytes make two states equal only if these differ in their n lowest bytes. */
  lemma {:induction false} FeedWithin(a: bv32, b: bv32, w: seq<uint8>, w': seq<uint8>)
    requires |w| == |w'| <= 3 && Feed32(a, w) == Feed32(b, w')
    ensures Within(Xor(a, b), |w|)
    decreases |w|
  {
    hide FeedByte32, Xor, Wide, Up8, Within, TopClear8;
    if w == [] {
      XorSame(a);
      WithinNone(Xor(a, b));
    } else {
      var a', b' := FeedByte32(a, w[0]), FeedByte32(b, w'[0]);
      var d := Xor(a', b');
      FeedWithin(a', b', w[1..], w'[1..]);
      WithinThree(d, |w| - 1);
      FeedBack(a, b, w[0], w'[0], d);
      WithinOneMore(w[0], w'[0], d, |w| - 1);
    }
  }

  lemma SameByte(p: uint8, q: uint8, d: bv32)
    requires Xor(Xor(Wide(p), Wide(q)), Up8(d)) == 0 && TopClear8(d)
    ensures p == q && d == 0
  {
  }

  lemma FeedFirst(c: bv32, w: seq<uint8>)
    requires w != []
    ensures Feed32(c, w) == Feed32(FeedByte32(c, w[0]), w[1..])
  {
    hide FeedByte32;
  }

  lemma FirstAndRest(w: seq<uint8>, w': seq<uint8>)
    requires w != [] && w' != [] && w[0] == w'[0] && w[1..] == w'[1..]
    ensures w == w'
  {
    assert w == [w[0]] + w[1..] && w' == [w'[0]] + w'[1..];
  }

  /** From one state, different words of up to four bytes lead to different states. */
  lemma {:induction false} WordInjective(c: bv32, w: seq<uint8>, w': seq<uint8>)
    requires |w| == |w'| <= 4
    ensures Feed32(c, w) == Feed32(c, w') ==> w == w'
    decreases |w|
  {
    hide *;
    if w != [] && Feed32(c, w) == Feed32(c, w') {
      FeedFirst(c, w);
      FeedFirst(c, w');
      var a, b := FeedByte32(c, w[0]), FeedByte32(c, w'[0]);
      var d := Xor(a, b);
      FeedWithin(a, b, w[1..], w'[1..]);
      WithinThree(d, |w| - 1);
      FeedBack(c, c, w[0], w'[0], d);
      XorSame(c);
      SameByte(w[0], w'[0], d);
      XorIsZero(a, b);
      WordInjective(a, w[1..], w'[1..]);
      FirstAndRest(w, w');
    }
  }

  lemma FeedByteInjective(a: bv32, b: bv32, p: uint8)
    requires FeedByte32(a, p) == FeedByte32(b, p)
    ensures a == b
  {
    hide Step8, Xor, Wide, FeedByte32;
    FeedByteIs(a, p);
    FeedByteIs(b, p);
    Step8Injective(Xor(a, Wide(p)), Xor(b, Wide(p)));
    XorCancel(a, b, Wide(p));
  }

  /** The same bytes lead different states to different states. */
  lemma {:induction false} FeedInjective(a: bv32, b: bv32, data: seq<uint8>)
    ensures Feed32(a, data) == Feed32(b, data) ==> a == b
    decreases |data|
  {
    if data != [] && Feed32(a, data) == Feed32(b, data) {
      hide FeedByte32;
      FeedInjective(FeedByte32(a, data[0]), FeedByte32(b, data[0]), data[1..]);
      FeedByteInjective(a, b, data[0]);
    }
  }

  lemma SplitAround(m: seq<uint8>, k: nat, n: nat)
    requires k + n <= |m|
    ensures m == m[..k] + (m[k..k + n] + m[k + n..])
  {
  }

  lemma ComplementInjective(a: bv32, b: bv32)
    requires a != b
    ensures a ^ 0xffff_ffff != b ^ 0xffff_ffff
  {
  }

  /** Messages of one length that differ, but only inside four consecutive bytes, have different CRCs. */
  lemma {:induction false} BurstDetected(m: seq<uint8>, m': seq<uint8>, k: nat)
    requires |m| == |m'| && k <= |m| && m != m'
    requires forall i | 0 <= i < |m| && (i < k || k + 4 <= i) :: m[i] == m'[i]
    ensures Crc32Of(m) != Crc32Of(m')
  {
    var n := if |m| - k < 4 then |m| - k else 4;
    var p, w, w', s := m[..k], m[k..k + n], m'[k..k + n], m[k + n..];
    SplitAround(m, k, n);
    SplitAround(m', k, n);
    assert m'[..k] == p && m'[k + n..] == s;
    hide Feed32;
    BurstAt(p, w, w', s);
  }

  lemma BurstAt(p: seq<uint8>, w: seq<uint8>, w': seq<uint8>, s: seq<uint8>)
    requires |w| == |w'| <= 4 && w != w'
    ensures Crc32Of(p + (w + s)) != Crc32Of(p + (w' + s))
  {
    hide Feed32;
    var start: bv32 := 0xffff_ffff;
    var c := Feed32(start, p);
    Feed32Concat(start, p, w + s);
    Feed32Concat(start, p, w' + s);
    Feed32Concat(c, w, s);
    Feed32Concat(c, w', s);
    WordInjective(c, w, w');
    FeedInjective(Feed32(c, w), Feed32(c, w'), s);
    ComplementInjective(Feed32(start, p + (w + s)), Feed32(start, p + (w' + s)));
  }
}
