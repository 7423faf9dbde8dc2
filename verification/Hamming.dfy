/** The Hamming code for 256-byte slabs of NAND data (at91bootstrap/driver/hamming.c,
    at91bootstrap/include/hamming.h). */
module Hamming {
  import opened Bytes

  const SLAB := 256

  const HAMMING_OK := 0
  const HAMMING_ERROR_SINGLEBIT := 1
  const HAMMING_ERROR_ECC := 2
  const HAMMING_ERROR_MULTIPLEBITS := 3

  type Slab = d: seq<Byte> | |d| == SLAB witness seq(SLAB, _ => seq(8, _ => false))

  /** Three bytes of code. With LP00_07 = 1 and LP08_15 = 0 the first holds the parity of the high
      half of the line numbers and the second that of the low half. */
  datatype Ecc = Ecc(lp08_15: Byte, lp00_07: Byte, column: Byte)

  // ----- counting bits of bytes -----

  function BitsBelow(b: Byte, n: nat): (c: nat)
    requires n <= 8
    ensures c <= n
  {
    if n == 0 then 0 else BitsBelow(b, n - 1) + if b[n - 1] then 1 else 0
  }

  /** `BitsSetTable256[b]`: the number of bits set in `b`. */
  function BitsInByte(b: Byte): nat {
    BitsBelow(b, 8)
  }

  function BitsInEcc(e: Ecc): nat {
    BitsInByte(e.lp08_15) + BitsInByte(e.lp00_07) + BitsInByte(e.column)
  }

  predicate HasOddBits(b: Byte) {
    BitsInByte(b) % 2 == 1
  }

  const TBL: seq<nat> := [
    0x55, 0x56, 0x59, 0x5a, 0x65, 0x66, 0x69, 0x6a,
    0x95, 0x96, 0x99, 0x9a, 0xa5, 0xa6, 0xa9, 0xaa]

  function Tbl(n: nat): Byte
    requires n < 16
  {
    assert TBL[n] < 0x100;
    Hex(TBL[n])
  }

  // ----- compute_ecc_256 -----

  function Half(k: nat, high: bool): (h: nat)
    requires k < SLAB
    ensures h < 16
  {
    if high then k / 16 else k % 16
  }

  /** Line parity of the first `n` bytes: the table entries for the positions of all bytes with an odd
      number of bits, by the low half of the position or by the high half. */
  function LineParity(data: Slab, n: nat, high: bool): Byte
    requires n <= SLAB
  {
    if n == 0 then Hex(0xff)
    else if HasOddBits(data[n - 1]) then Xor(LineParity(data, n - 1, high), Tbl(Half(n - 1, high)))
    else LineParity(data, n - 1, high)
  }

  function ColumnXor(data: Slab, n: nat): Byte
    requires n <= SLAB
  {
    if n == 0 then Hex(0xff) else Xor(ColumnXor(data, n - 1), data[n - 1])
  }

  const COLUMN_MASKS: seq<nat> := [0x55, 0xaa, 0x33, 0xcc, 0x0f, 0xf0]

  /** The parity of the columns in group `i`: even and odd columns, pairs, halves. */
  predicate OddColumns(c: Byte, i: nat)
    requires i < 6
  {
    assert COLUMN_MASKS[i] < 0x100;
    HasOddBits(And(c, Hex(COLUMN_MASKS[i])))
  }

  /** The six parities in bits 2 to 7. */
  function ColumnParity(c: Byte): (z: Byte)
    ensures forall i | 0 <= i < 8 :: z[i] == (i >= 2 && OddColumns(c, i - 2))
  {
    seq(8, i requires 0 <= i < 8 => i >= 2 && OddColumns(c, i - 2))
  }

  function EccOf(data: Slab): Ecc {
    Ecc(LineParity(data, SLAB, true), LineParity(data, SLAB, false), Complement(ColumnParity(ColumnXor(data, SLAB))))
  }

  // ----- correct_bit_256, verify_256 -----

  function Place(p: bool, weight: nat): nat {
    if p then weight else 0
  }

  /** The position of the flipped bit in its byte: bits 7, 5 and 3 of the column code. */
  function BitOf(column: Byte): (b: nat)
    ensures b < 8
  {
    Place(column[7], 0x04) + Place(column[5], 0x02) + Place(column[3], 0x01)
  }

  /** The position of the byte: every second bit of the two line codes. */
  function AddressOf(lp08_15: Byte, lp00_07: Byte): (k: nat)
    ensures k < SLAB
  {
    HighAddress(lp08_15) + LowAddress(lp00_07)
  }

  function HighAddress(lp08_15: Byte): nat {
    Place(lp08_15[7], 0x80) + Place(lp08_15[5], 0x40) + Place(lp08_15[3], 0x20) + Place(lp08_15[1], 0x10)
  }

  function LowAddress(lp00_07: Byte): nat {
    Place(lp00_07[7], 0x08) + Place(lp00_07[5], 0x04) + Place(lp00_07[3], 0x02) + Place(lp00_07[1], 0x01)
  }

  function XorEcc(e: Ecc, f: Ecc): Ecc {
    Ecc(Xor(e.lp08_15, f.lp08_15), Xor(e.lp00_07, f.lp00_07), Xor(e.column, f.column))
  }

  function Correct(data: Slab, e: Ecc): Slab {
    var k := AddressOf(e.lp08_15, e.lp00_07);
    data[k := Xor(data[k], Single(BitOf(e.column)))]
  }

  /** The verdict on a slab and its stored code, and the slab afterwards. */
  function Verify(data: Slab, stored: Ecc): (nat, Slab) {
    Judge(data, XorEcc(EccOf(data), stored))
  }

  /** The verdict by the difference between the two codes. */
  function Judge(data: Slab, e: Ecc): (nat, Slab) {
    var n := BitsInEcc(e);
    if n == 0 then (HAMMING_OK, data)
    else if n == 11 then (HAMMING_ERROR_SINGLEBIT, Correct(data, e))
    else if n == 1 then (HAMMING_ERROR_ECC, data)
    else (HAMMING_ERROR_MULTIPLEBITS, data)
  }

  // ----- counting bits -----

  lemma AddBits(p: nat, q: nat, r: nat, a: bool, b: bool)
    requires p % 2 == (q + r) % 2
    ensures (p + if a != b then 1 else 0) % 2 == (q + (if a then 1 else 0) + (r + if b then 1 else 0)) % 2
  {
  }

  lemma {:induction false} BitsXor(x: Byte, y: Byte, n: nat)
    requires n <= 8
    ensures BitsBelow(Xor(x, y), n) % 2 == (BitsBelow(x, n) + BitsBelow(y, n)) % 2
  {
    if n > 0 {
      BitsXor(x, y, n - 1);
      AddBits(BitsBelow(Xor(x, y), n - 1), BitsBelow(x, n - 1), BitsBelow(y, n - 1), x[n - 1], y[n - 1]);
    }
  }

  lemma {:induction false} BitsOfSingle(b: nat, n: nat)
    requires b < 8 && n <= 8
    ensures BitsBelow(Single(b), n) == if b < n then 1 else 0
  {
    if n > 0 {
      BitsOfSingle(b, n - 1);
    }
  }

  lemma {:induction false} BitsOfMasked(b: nat, m: Byte, n: nat)
    requires b < 8 && n <= 8
    ensures BitsBelow(And(Single(b), m), n) == if b < n && m[b] then 1 else 0
  {
    if n > 0 {
      BitsOfMasked(b, m, n - 1);
    }
  }

  lemma {:induction false} SomeBit(b: Byte, n: nat, i: nat)
    requires i < n <= 8 && b[i]
    ensures BitsBelow(b, n) > 0
  {
    if i < n - 1 {
      SomeBit(b, n - 1, i);
    }
  }

  lemma {:induction false} BitsFlip(x: Byte, b: nat, n: nat)
    requires b < 8 && n <= 8
    ensures BitsBelow(Xor(x, Single(b)), n) ==
      if b >= n then BitsBelow(x, n) else if x[b] then BitsBelow(x, n) - 1 else BitsBelow(x, n) + 1
  {
    if n > 0 {
      BitsFlip(x, b, n - 1);
      if b < n - 1 && x[b] {
        SomeBit(x, n - 1, b);
      }
    }
  }

  lemma OddXor(x: Byte, y: Byte)
    ensures HasOddBits(Xor(x, y)) <==> HasOddBits(x) != HasOddBits(y)
  {
    BitsXor(x, y, 8);
  }

  lemma OddMasked(x: Byte, y: Byte, mask: Byte)
    ensures HasOddBits(And(Xor(x, y), mask)) <==> HasOddBits(And(x, mask)) != HasOddBits(And(y, mask))
  {
    assert And(Xor(x, y), mask) == Xor(And(x, mask), And(y, mask));
    OddXor(And(x, mask), And(y, mask));
  }

  lemma OddColumnsXor(c: Byte, m: Byte, i: nat)
    requires i < 6
    ensures OddColumns(Xor(c, m), i) <==> OddColumns(c, i) != OddColumns(m, i)
  {
    OddMasked(c, m, Hex(COLUMN_MASKS[i]));
  }

  lemma ColumnParityXor(c: Byte, m: Byte)
    ensures Complement(ColumnParity(Xor(c, m))) == Xor(Complement(ColumnParity(c)), ColumnParity(m))
  {
    forall i | 0 <= i < 8
      ensures Complement(ColumnParity(Xor(c, m)))[i] == Xor(Complement(ColumnParity(c)), ColumnParity(m))[i]
    {
      if i >= 2 {
        OddColumnsXor(c, m, i - 2);
      }
    }
  }

  // ----- a flip shows in the code by itself -----

  function FlipData(data: Slab, k: nat, b: nat): Slab
    requires k < SLAB && b < 8
  {
    data[k := Xor(data[k], Single(b))]
  }

  /** The trace that bit `b` of byte `k` leaves in the code. */
  function Syndrome(k: nat, b: nat): Ecc
    requires k < SLAB && b < 8
  {
    Ecc(Tbl(k / 16), Tbl(k % 16), ColumnParity(Single(b)))
  }

  lemma FlipTurnsParity(x: Byte, b: nat)
    requires b < 8
    ensures HasOddBits(Xor(x, Single(b))) <==> !HasOddBits(x)
  {
    BitsOfSingle(b, 8);
    OddXor(x, Single(b));
  }

  lemma {:induction false} FlipInLineParity(data: Slab, k: nat, b: nat, n: nat, high: bool)
    requires k < SLAB && b < 8 && n <= SLAB
    ensures LineParity(FlipData(data, k, b), n, high) ==
      if k < n then Xor(LineParity(data, n, high), Tbl(Half(k, high))) else LineParity(data, n, high)
  {
    if n > 0 {
      FlipInLineParity(data, k, b, n - 1, high);
      FlipTurnsParity(data[k], b);
      XorSwap(LineParity(data, n - 1, high), Tbl(Half(k, high)), Tbl(Half(n - 1, high)));
      XorTwice(LineParity(data, n - 1, high), Tbl(Half(n - 1, high)));
    }
  }

  lemma {:induction false} FlipInColumns(data: Slab, k: nat, b: nat, n: nat)
    requires k < SLAB && b < 8 && n <= SLAB
    ensures ColumnXor(FlipData(data, k, b), n) ==
      if k < n then Xor(ColumnXor(data, n), Single(b)) else ColumnXor(data, n)
  {
    if n > 0 {
      FlipInColumns(data, k, b, n - 1);
      XorSwap(ColumnXor(data, n - 1), Single(b), data[n - 1]);
      XorAssociates(ColumnXor(data, n - 1), data[k], Single(b));
    }
  }

  lemma FlipInEcc(data: Slab, k: nat, b: nat)
    requires k < SLAB && b < 8
    ensures EccOf(FlipData(data, k, b)) == XorEcc(EccOf(data), Syndrome(k, b))
  {
    FlipInLineParity(data, k, b, SLAB, true);
    FlipInLineParity(data, k, b, SLAB, false);
    FlipInColumns(data, k, b, SLAB);
    ColumnParityXor(ColumnXor(data, SLAB), Single(b));
  }

  // ----- what a syndrome looks like -----

  /** Bit `i` of a number. */
  predicate Binary(n: nat, i: nat)
    requires i < 4
  {
    (n / Pow2(i)) % 2 == 1
  }

  /** `t` is made of the pairs 01 and 10, lowest first. */
  ghost predicate Spread(t: nat, p: bool, q: bool, r: bool, s: bool) {
    t == 0x55 + Place(p, 1) + Place(q, 4) + Place(r, 16) + Place(s, 64)
  }

  lemma TblNumber(n: nat)
    requires n < 16
    ensures Spread(TBL[n], Binary(n, 0), Binary(n, 1), Binary(n, 2), Binary(n, 3))
  {
  }

  lemma SpreadLow(t: nat, p: bool, q: bool, r: bool, s: bool)
    requires Spread(t, p, q, r, s)
    ensures t % 2 == Place(!p, 1) && (t / 2) % 2 == Place(p, 1)
    ensures (t / 4) % 2 == Place(!q, 1) && (t / 8) % 2 == Place(q, 1)
  {
    assert t / 4 == 21 + Place(q, 1) + Place(r, 4) + Place(s, 16);
  }

  lemma SpreadHigh(t: nat, p: bool, q: bool, r: bool, s: bool)
    requires Spread(t, p, q, r, s)
    ensures (t / 16) % 2 == Place(!r, 1) && (t / 32) % 2 == Place(r, 1)
    ensures (t / 64) % 2 == Place(!s, 1) && (t / 128) % 2 == Place(s, 1)
  {
    var u := t / 16;
    assert u == 5 + Place(r, 1) + Place(s, 4);
    assert t / 32 == u / 2 && t / 64 == u / 4 && t / 128 == u / 8;
  }

  /** Bits 2i and 2i + 1 of a table entry: the second is bit i of the number, the first its negation. */
  lemma TblBits(n: nat, i: nat)
    requires n < 16 && i < 4
    ensures Tbl(n)[2 * i + 1] == Binary(n, i)
    ensures Tbl(n)[2 * i] == !Binary(n, i)
  {
    TblNumber(n);
    SpreadLow(TBL[n], Binary(n, 0), Binary(n, 1), Binary(n, 2), Binary(n, 3));
    SpreadHigh(TBL[n], Binary(n, 0), Binary(n, 1), Binary(n, 2), Binary(n, 3));
    assert Pow2(2 * i) == (if i == 0 then 1 else if i == 1 then 4 else if i == 2 then 16 else 64);
    assert Pow2(2 * i + 1) == (if i == 0 then 2 else if i == 1 then 8 else if i == 2 then 32 else 128);
  }

  lemma OneOfTwo(b: Byte, n: nat)
    requires n + 2 <= 8 && b[n] == !b[n + 1]
    ensures BitsBelow(b, n + 2) == BitsBelow(b, n) + 1
  {
    assert BitsBelow(b, n + 1) == BitsBelow(b, n) + if b[n] then 1 else 0;
  }

  lemma TblHasFourBits(n: nat)
    requires n < 16
    ensures BitsInByte(Tbl(n)) == 4
  {
    var b := Tbl(n);
    TblBits(n, 0);
    OneOfTwo(b, 0);
    TblBits(n, 1);
    OneOfTwo(b, 2);
    TblBits(n, 2);
    OneOfTwo(b, 4);
    TblBits(n, 3);
    OneOfTwo(b, 6);
  }

  /** The groups a single column belongs to. */
  lemma SingleColumn(b: nat, i: nat)
    requires b < 8 && i < 6
    ensures OddColumns(Single(b), i) == Hex(COLUMN_MASKS[i])[b]
  {
    BitsOfMasked(b, Hex(COLUMN_MASKS[i]), 8);
  }

  lemma ColumnMaskBits(b: nat, i: nat)
    requires b < 8 && i < 3
    ensures Hex(COLUMN_MASKS[2 * i + 1])[b] == Binary(b, i)
    ensures Hex(COLUMN_MASKS[2 * i])[b] == !Hex(COLUMN_MASKS[2 * i + 1])[b]
  {
  }

  /** Bits 2i + 2 and 2i + 3 of the column code: again a bit of the number and its negation. */
  lemma ColumnCodeBits(b: nat, i: nat)
    requires b < 8 && i < 3
    ensures ColumnParity(Single(b))[2 * i + 3] == Binary(b, i)
    ensures ColumnParity(Single(b))[2 * i + 2] == !ColumnParity(Single(b))[2 * i + 3]
  {
    SingleColumn(b, 2 * i);
    SingleColumn(b, 2 * i + 1);
    ColumnMaskBits(b, i);
  }

  lemma ColumnCodeHasThreeBits(b: nat)
    requires b < 8
    ensures BitsInByte(ColumnParity(Single(b))) == 3
  {
    var c := ColumnParity(Single(b));
    assert BitsBelow(c, 1) == 0;
    assert BitsBelow(c, 2) == 0;
    ColumnCodeBits(b, 0);
    OneOfTwo(c, 2);
    ColumnCodeBits(b, 1);
    OneOfTwo(c, 4);
    ColumnCodeBits(b, 2);
    OneOfTwo(c, 6);
  }

  lemma SyndromeHasElevenBits(k: nat, b: nat)
    requires k < SLAB && b < 8
    ensures BitsInEcc(Syndrome(k, b)) == 11
  {
    TblHasFourBits(k / 16);
    TblHasFourBits(k % 16);
    ColumnCodeHasThreeBits(b);
  }

  // ----- what each bit of the code says -----

  /** The number of set bits in the first `n` bytes, of those at positions whose high (or low) half has
      `v` as its bit `i`. */
  function LineBits(data: Slab, n: nat, high: bool, i: nat, v: bool): nat
    requires n <= SLAB && i < 4
  {
    if n == 0 then 0
    else LineBits(data, n - 1, high, i, v) + if Binary(Half(n - 1, high), i) == v then BitsInByte(data[n - 1]) else 0
  }

  /** The number of set bits among the first `n` of a byte, of those whose number has `v` as its bit `i`. */
  function BitsAt(b: Byte, n: nat, i: nat, v: bool): nat
    requires n <= 8 && i < 3
  {
    if n == 0 then 0 else BitsAt(b, n - 1, i, v) + if b[n - 1] && Binary(n - 1, i) == v then 1 else 0
  }

  function ColumnBits(data: Slab, n: nat, i: nat, v: bool): nat
    requires n <= SLAB && i < 3
  {
    if n == 0 then 0 else ColumnBits(data, n - 1, i, v) + BitsAt(data[n - 1], 8, i, v)
  }

  lemma LineStep(x: Byte, w: Byte, t: Byte, j: nat, c: nat, counted: bool)
    requires j < 8 && (x[j] <==> c % 2 == 0) && t[j] == counted
    ensures (if HasOddBits(w) then Xor(x, t) else x)[j] <==> (c + if counted then BitsInByte(w) else 0) % 2 == 0
  {
  }

  lemma {:induction false} LineParityIs(data: Slab, n: nat, high: bool, i: nat, v: bool)
    requires n <= SLAB && i < 4
    ensures LineParity(data, n, high)[if v then 2 * i + 1 else 2 * i] <==> LineBits(data, n, high, i, v) % 2 == 0
  {
    var j := if v then 2 * i + 1 else 2 * i;
    if n == 0 {
      AllOnes(j);
    } else {
      var h := Half(n - 1, high);
      LineParityIs(data, n - 1, high, i, v);
      TblBits(h, i);
      LineStep(LineParity(data, n - 1, high), data[n - 1], Tbl(h), j, LineBits(data, n - 1, high, i, v),
        Binary(h, i) == v);
    }
  }

  lemma AllOnes(i: nat)
    requires i < 8
    ensures Hex(0xff)[i]
  {
  }

  function ColumnMask(i: nat, v: bool): nat
    requires i < 3
  {
    COLUMN_MASKS[if v then 2 * i + 1 else 2 * i]
  }

  lemma {:induction false} MaskedBits(b: Byte, n: nat, i: nat, v: bool)
    requires n <= 8 && i < 3
    ensures BitsBelow(And(b, Hex(ColumnMask(i, v))), n) == BitsAt(b, n, i, v)
  {
    if n > 0 {
      MaskedBits(b, n - 1, i, v);
      ColumnMaskBits(n - 1, i);
    }
  }

  lemma {:induction false} ColumnXorIs(data: Slab, n: nat, i: nat, v: bool)
    requires n <= SLAB && i < 3
    ensures HasOddBits(And(ColumnXor(data, n), Hex(ColumnMask(i, v)))) <==> ColumnBits(data, n, i, v) % 2 == 1
  {
    var mask := Hex(ColumnMask(i, v));
    if n == 0 {
      OnesAreEven(i, v);
    } else {
      ColumnXorIs(data, n - 1, i, v);
      MaskedBits(data[n - 1], 8, i, v);
      OddMasked(ColumnXor(data, n - 1), data[n - 1], mask);
    }
  }

  lemma OnesAreEven(i: nat, v: bool)
    requires i < 3
    ensures !HasOddBits(And(Hex(0xff), Hex(ColumnMask(i, v))))
  {
    MaskedBits(Hex(0xff), 8, i, v);
    OnesBelow(0, i, v);
    OnesBelow(4, i, v);
  }

  lemma OnesBelow(n: nat, i: nat, v: bool)
    requires n <= 4 && i < 3
    ensures BitsAt(Hex(0xff), n + 4, i, v) == BitsAt(Hex(0xff), n, i, v) +
      Place(Binary(n, i) == v, 1) + Place(Binary(n + 1, i) == v, 1) + Place(Binary(n + 2, i) == v, 1) +
      Place(Binary(n + 3, i) == v, 1)
  {
    OneBelow(n, i, v);
    OneBelow(n + 1, i, v);
    OneBelow(n + 2, i, v);
    OneBelow(n + 3, i, v);
  }

  lemma OneBelow(n: nat, i: nat, v: bool)
    requires n < 8 && i < 3
    ensures BitsAt(Hex(0xff), n + 1, i, v) == BitsAt(Hex(0xff), n, i, v) + Place(Binary(n, i) == v, 1)
  {
    AllOnes(n);
  }

  /** Each bit of the code but the two lowest of the column code, which are set, stands for half of the
      data: bytes, or columns, whose number has a given bit set, or clear. It says that an even number of
      bits are set there. */
  lemma CodeIsParities(data: Slab, i: nat)
    requires i < 4
    ensures var e := EccOf(data);
      (e.lp08_15[2 * i + 1] <==> LineBits(data, SLAB, true, i, true) % 2 == 0) &&
      (e.lp08_15[2 * i] <==> LineBits(data, SLAB, true, i, false) % 2 == 0) &&
      (e.lp00_07[2 * i + 1] <==> LineBits(data, SLAB, false, i, true) % 2 == 0) &&
      (e.lp00_07[2 * i] <==> LineBits(data, SLAB, false, i, false) % 2 == 0)
    ensures i < 3 ==>
      var column := EccOf(data).column;
      (column[2 * i + 3] <==> ColumnBits(data, SLAB, i, true) % 2 == 0) &&
      (column[2 * i + 2] <==> ColumnBits(data, SLAB, i, false) % 2 == 0)
    ensures EccOf(data).column[0] && EccOf(data).column[1]
  {
    LineParityIs(data, SLAB, true, i, true);
    LineParityIs(data, SLAB, true, i, false);
    LineParityIs(data, SLAB, false, i, true);
    LineParityIs(data, SLAB, false, i, false);
    if i < 3 {
      ColumnXorIs(data, SLAB, i, true);
      ColumnXorIs(data, SLAB, i, false);
    }
  }

  lemma NibbleFromBits(n: nat)
    requires n < 16
    ensures n == Place(Binary(n, 3), 8) + Place(Binary(n, 2), 4) + Place(Binary(n, 1), 2) + Place(Binary(n, 0), 1)
  {
  }

  lemma LineCodeDecodes(n: nat)
    requires n < 16
    ensures HighAddress(Tbl(n)) == 16 * n && LowAddress(Tbl(n)) == n
  {
    TblBits(n, 0);
    TblBits(n, 1);
    TblBits(n, 2);
    TblBits(n, 3);
    NibbleFromBits(n);
  }

  lemma ColumnCodeDecodes(b: nat)
    requires b < 8
    ensures BitOf(ColumnParity(Single(b))) == b
  {
    ColumnCodeBits(b, 0);
    ColumnCodeBits(b, 1);
    ColumnCodeBits(b, 2);
    NibbleFromBits(b);
  }

  /** Decoding the trace of a flip finds the place. */
  lemma SyndromeDecodes(k: nat, b: nat)
    requires k < SLAB && b < 8
    ensures AddressOf(Syndrome(k, b).lp08_15, Syndrome(k, b).lp00_07) == k
    ensures BitOf(Syndrome(k, b).column) == b
  {
    LineCodeDecodes(k / 16);
    LineCodeDecodes(k % 16);
    ColumnCodeDecodes(b);
  }

  // ----- what single and double flips lead to -----

  /** A bit of the stored codeword: of the data, or of one of the three code bytes. */
  datatype Spot = DataBit(k: nat, b: nat) | EccBit(i: nat, b: nat)

  predicate InRange(s: Spot) {
    s.b < 8 && if s.DataBit? then s.k < SLAB else s.i < 3
  }

  function NoBits(): Byte {
    Hex(0)
  }

  /** The trace of a flip in the difference of the two codes. */
  function Trace(s: Spot): Ecc
    requires InRange(s)
  {
    match s
    case DataBit(k, b) => Syndrome(k, b)
    case EccBit(i, b) =>
      Ecc(if i == 0 then Single(b) else NoBits(),
          if i == 1 then Single(b) else NoBits(),
          if i == 2 then Single(b) else NoBits())
  }

  function FlipInData(data: Slab, s: Spot): Slab
    requires InRange(s)
  {
    if s.DataBit? then FlipData(data, s.k, s.b) else data
  }

  function FlipInCode(e: Ecc, s: Spot): Ecc
    requires InRange(s)
  {
    if s.EccBit? then XorEcc(e, Trace(s)) else e
  }

  function Difference(data: Slab, stored: Ecc): Ecc {
    XorEcc(EccOf(data), stored)
  }

  lemma XorEccSwap(x: Ecc, y: Ecc, z: Ecc)
    ensures XorEcc(XorEcc(x, y), z) == XorEcc(XorEcc(x, z), y)
    ensures XorEcc(x, XorEcc(y, z)) == XorEcc(XorEcc(x, y), z)
  {
    XorSwap(x.lp08_15, y.lp08_15, z.lp08_15);
    XorSwap(x.lp00_07, y.lp00_07, z.lp00_07);
    XorSwap(x.column, y.column, z.column);
    XorAssociates(x.lp08_15, y.lp08_15, z.lp08_15);
    XorAssociates(x.lp00_07, y.lp00_07, z.lp00_07);
    XorAssociates(x.column, y.column, z.column);
  }

  /** Wherever it is, a flip adds its trace to the difference. */
  lemma FlipAddsTrace(data: Slab, stored: Ecc, s: Spot)
    requires InRange(s)
    ensures Difference(FlipInData(data, s), FlipInCode(stored, s)) == XorEcc(Difference(data, stored), Trace(s))
  {
    XorEccSwap(EccOf(data), Trace(s), stored);
    XorEccSwap(EccOf(data), stored, Trace(s));
    if s.DataBit? {
      FlipInEcc(data, s.k, s.b);
    }
  }

  function Zero(): Ecc {
    Ecc(NoBits(), NoBits(), NoBits())
  }

  lemma {:induction false} ZeroHasNoBits(n: nat)
    requires n <= 8
    ensures BitsBelow(NoBits(), n) == 0
  {
    if n > 0 {
      ZeroHasNoBits(n - 1);
    }
  }

  lemma XorWithSelf(x: Byte)
    ensures Xor(x, x) == NoBits() && Xor(NoBits(), x) == x
  {
  }

  /** With its own code, data shows no difference; with one flip, the trace of that flip. */
  lemma CleanDifference(data: Slab, s: Spot)
    requires InRange(s)
    ensures Difference(data, EccOf(data)) == Zero()
    ensures Difference(FlipInData(data, s), FlipInCode(EccOf(data), s)) == Trace(s)
  {
    XorWithSelf(EccOf(data).lp08_15);
    XorWithSelf(EccOf(data).lp00_07);
    XorWithSelf(EccOf(data).column);
    FlipAddsTrace(data, EccOf(data), s);
    XorWithSelf(Trace(s).lp08_15);
    XorWithSelf(Trace(s).lp00_07);
    XorWithSelf(Trace(s).column);
  }

  lemma TraceBits(s: Spot)
    requires InRange(s)
    ensures BitsInEcc(Trace(s)) == if s.DataBit? then 11 else 1
  {
    if s.DataBit? {
      SyndromeHasElevenBits(s.k, s.b);
    } else {
      ZeroHasNoBits(8);
      BitsOfSingle(s.b, 8);
    }
  }

  lemma SinglesDiffer(a: nat, b: nat)
    requires a < 8 && b < 8
    ensures Single(a) != NoBits()
    ensures Single(a) == Single(b) ==> a == b
  {
    assert Single(a)[a] && !NoBits()[a];
    assert a != b ==> !Single(b)[a];
  }

  lemma EccTracesDiffer(s: Spot, t: Spot)
    requires InRange(s) && InRange(t) && s.EccBit? && t.EccBit? && s != t
    ensures Trace(s) != Trace(t)
  {
    SinglesDiffer(s.b, t.b);
    SinglesDiffer(t.b, s.b);
  }

  lemma DataTracesDiffer(s: Spot, t: Spot)
    requires InRange(s) && InRange(t) && s.DataBit? && t.DataBit? && s != t
    ensures Trace(s) != Trace(t)
  {
    SyndromeDecodes(s.k, s.b);
    SyndromeDecodes(t.k, t.b);
  }

  /** Different flips leave different traces. */
  lemma TraceIsInjective(s: Spot, t: Spot)
    requires InRange(s) && InRange(t) && s != t
    ensures Trace(s) != Trace(t)
  {
    if s.DataBit? && t.DataBit? {
      DataTracesDiffer(s, t);
    } else if s.EccBit? && t.EccBit? {
      EccTracesDiffer(s, t);
    } else {
      TraceBits(s);
      TraceBits(t);
    }
  }

  lemma {:induction false} DifferentMeansBits(x: Byte, y: Byte)
    requires x != y
    ensures BitsInByte(Xor(x, y)) > 0
  {
    var i :| 0 <= i < 8 && x[i] != y[i];
    SomeBit(Xor(x, y), 8, i);
  }

  lemma ParityOfSums(p: nat, q: nat, r: nat, a: nat, b: nat, c: nat, x: nat, y: nat, z: nat)
    requires p % 2 == (a + x) % 2 && q % 2 == (b + y) % 2 && r % 2 == (c + z) % 2
    ensures (p + q + r) % 2 == (a + b + c + (x + y + z)) % 2
  {
  }

  lemma EccBitsXor(e: Ecc, f: Ecc)
    ensures BitsInEcc(XorEcc(e, f)) % 2 == (BitsInEcc(e) + BitsInEcc(f)) % 2
  {
    BitsXor(e.lp08_15, f.lp08_15, 8);
    BitsXor(e.lp00_07, f.lp00_07, 8);
    BitsXor(e.column, f.column, 8);
    var g := XorEcc(e, f);
    ParityOfSums(BitsInByte(g.lp08_15), BitsInByte(g.lp00_07), BitsInByte(g.column),
                 BitsInByte(e.lp08_15), BitsInByte(e.lp00_07), BitsInByte(e.column),
                 BitsInByte(f.lp08_15), BitsInByte(f.lp00_07), BitsInByte(f.column));
  }

  lemma DifferentCodesMeanBits(e: Ecc, f: Ecc)
    requires e != f
    ensures BitsInEcc(XorEcc(e, f)) > 0
  {
    if e.lp08_15 != f.lp08_15 {
      DifferentMeansBits(e.lp08_15, f.lp08_15);
    } else if e.lp00_07 != f.lp00_07 {
      DifferentMeansBits(e.lp00_07, f.lp00_07);
    } else {
      DifferentMeansBits(e.column, f.column);
    }
  }

  lemma OddCodesDifferEvenly(e: Ecc, f: Ecc)
    requires e != f && BitsInEcc(e) in {1, 11} && BitsInEcc(f) in {1, 11}
    ensures BitsInEcc(XorEcc(e, f)) % 2 == 0 && BitsInEcc(XorEcc(e, f)) > 0
  {
    EccBitsXor(e, f);
    DifferentCodesMeanBits(e, f);
  }

  /** Together two different flips leave an even number of bits, and not none. */
  lemma TwoTraces(s: Spot, t: Spot)
    requires InRange(s) && InRange(t) && s != t
    ensures BitsInEcc(XorEcc(Trace(s), Trace(t))) % 2 == 0
    ensures BitsInEcc(XorEcc(Trace(s), Trace(t))) > 0
  {
    TraceBits(s);
    TraceBits(t);
    TraceIsInjective(s, t);
    OddCodesDifferEvenly(Trace(s), Trace(t));
  }

  lemma CleanSlabPasses(data: Slab)
    ensures Verify(data, EccOf(data)) == (HAMMING_OK, data)
  {
    CleanDifference(data, DataBit(0, 0));
    ZeroHasNoBits(8);
  }

  /** Any single flip: in the data it is undone, in the code it is recognised as such. */
  lemma SingleFlip(data: Slab, s: Spot)
    requires InRange(s)
    ensures Verify(FlipInData(data, s), FlipInCode(EccOf(data), s)) ==
      (if s.DataBit? then HAMMING_ERROR_SINGLEBIT else HAMMING_ERROR_ECC, data)
  {
    CleanDifference(data, s);
    TraceBits(s);
    if s.DataBit? {
      CorrectUndoes(data, s.k, s.b);
    }
  }

  lemma CorrectUndoes(data: Slab, k: nat, b: nat)
    requires k < SLAB && b < 8
    ensures Correct(FlipData(data, k, b), Syndrome(k, b)) == data
  {
    SyndromeDecodes(k, b);
    XorTwice(data[k], Single(b));
  }

  lemma JudgeEven(data: Slab, e: Ecc)
    requires BitsInEcc(e) % 2 == 0 && BitsInEcc(e) > 0
    ensures Judge(data, e) == (HAMMING_ERROR_MULTIPLEBITS, data)
  {
  }

  /** Any two flips, in the data, in the code or one in each, are reported and nothing is changed. */
  lemma DoubleFlip(data: Slab, s: Spot, t: Spot)
    requires InRange(s) && InRange(t) && s != t
    ensures var data', code' := FlipInData(FlipInData(data, s), t), FlipInCode(FlipInCode(EccOf(data), s), t);
      Verify(data', code') == (HAMMING_ERROR_MULTIPLEBITS, data')
  {
    TwoTraces(s, t);
    var data', code' := FlipInData(FlipInData(data, s), t), FlipInCode(FlipInCode(EccOf(data), s), t);
    assert Difference(data', code') == XorEcc(Trace(s), Trace(t)) by {
      CleanDifference(data, s);
      FlipAddsTrace(FlipInData(data, s), FlipInCode(EccOf(data), s), t);
    }
    JudgeEven(data', Difference(data', code'));
  }

  // ----- the functions as they run -----

  /** `compute_ecc_256` on the slab that starts at `from`. The counter of the source is an unsigned
      char that has wrapped to 0 after 256 rounds. */
  method ComputeEcc256(data: array<Byte>, from: nat) returns (ecc: Ecc)
    requires from + SLAB <= data.Length
    ensures ecc == EccOf(data[from..from + SLAB])
  {
    ghost var slab: Slab := data[from..from + SLAB];
    var low, high, column := Hex(0xff), Hex(0xff), Hex(0xff);
    var cnt := 0;
    while cnt < 0x100
      invariant cnt <= 0x100
      invariant high == LineParity(slab, cnt, true) && low == LineParity(slab, cnt, false)
      invariant column == ColumnXor(slab, cnt)
    {
      assert slab[cnt] == data[from + cnt];
      if HasOddBits(data[from + cnt]) {
        low := Xor(low, Tbl(cnt % 16));
        high := Xor(high, Tbl(cnt / 16));
      }
      column := Xor(column, data[from + cnt]);
      cnt := cnt + 1;
    }
    ecc := Ecc(high, low, Complement(ColumnParity(column)));
  }

  /** `verify_256` with `correct_bit_256`, on the slab that starts at `from`. */
  method Verify256(data: array<Byte>, from: nat, stored: Ecc) returns (error: nat)
    requires from + SLAB <= data.Length
    modifies data
    ensures data[..from] == old(data[..from]) && data[from + SLAB..] == old(data[from + SLAB..])
    ensures (error, data[from..from + SLAB]) == Verify(old(data[from..from + SLAB]), stored)
    ensures error <= HAMMING_ERROR_MULTIPLEBITS
  {
    ghost var slab: Slab := data[from..from + SLAB];
    var ecc := ComputeEcc256(data, from);
    ecc := XorEcc(ecc, stored);
    var n := BitsInEcc(ecc);
    if n == 0 {
      error := HAMMING_OK;
    } else if n == 11 {
      var k := AddressOf(ecc.lp08_15, ecc.lp00_07);
      assert data[from + k] == slab[k];
      data[from + k] := Xor(data[from + k], Single(BitOf(ecc.column)));
      assert data[from..from + SLAB] == Correct(slab, ecc);
      error := HAMMING_ERROR_SINGLEBIT;
    } else if n == 1 {
      error := HAMMING_ERROR_ECC;
    } else {
      error := HAMMING_ERROR_MULTIPLEBITS;
    }
  }

  /** Slab after slab, until one cannot be repaired, by any way of judging one slab. */
  function AllSlabs(judge: (Slab, Ecc) -> (nat, Slab), data: seq<Byte>, stored: seq<Ecc>): (r: (nat, seq<Byte>))
    requires |data| == SLAB * |stored|
    ensures |r.1| == |data|
  {
    if stored == [] then (HAMMING_OK, data)
    else
      var (error, slab) := judge(data[..SLAB], stored[0]);
      if error == HAMMING_ERROR_ECC || error == HAMMING_ERROR_MULTIPLEBITS then (error, slab + data[SLAB..])
      else
        var (rest, tail) := AllSlabs(judge, data[SLAB..], stored[1..]);
        (if rest == HAMMING_OK then error else rest, slab + tail)
  }

  function VerifyAll(data: seq<Byte>, stored: seq<Ecc>): (nat, seq<Byte>)
    requires |data| == SLAB * |stored|
  {
    AllSlabs(Verify, data, stored)
  }

  /** The outcome once `done` has been dealt with, with result `sofar`, and `rest` has not. */
  function Outcome(judge: (Slab, Ecc) -> (nat, Slab), sofar: nat, done: seq<Byte>, rest: seq<Byte>, stored: seq<Ecc>)
    : (nat, seq<Byte>)
    requires |rest| == SLAB * |stored|
  {
    var (r, tail) := AllSlabs(judge, rest, stored);
    (if r == HAMMING_OK then sofar else r, done + tail)
  }

  ghost predicate Upto(done: seq<Byte>, data: seq<Byte>, from: nat) {
    from <= |data| && done == data[..from]
  }

  /** `goal` is what the loop will end with, from where it is now. */
  ghost predicate Heading(judge: (Slab, Ecc) -> (nat, Slab), goal: (nat, seq<Byte>),
                          sofar: nat, data: seq<Byte>, from: nat, stored: seq<Ecc>)
  {
    from + SLAB * |stored| == |data| &&
    forall done {:trigger Upto(done, data, from)} ::
      Upto(done, data, from) ==> goal == Outcome(judge, sofar, done, data[from..], stored)
  }

  lemma HeadingStarts(judge: (Slab, Ecc) -> (nat, Slab), data: seq<Byte>, stored: seq<Ecc>)
    requires |data| == SLAB * |stored|
    ensures Heading(judge, AllSlabs(judge, data, stored), HAMMING_OK, data, 0, stored)
  {
    assert data[0..] == data && data[..0] == [];
    assert [] + AllSlabs(judge, data, stored).1 == AllSlabs(judge, data, stored).1;
  }

  lemma HeadingEnds(judge: (Slab, Ecc) -> (nat, Slab), goal: (nat, seq<Byte>), sofar: nat, data: seq<Byte>, from: nat)
    requires Heading(judge, goal, sofar, data, from, [])
    ensures goal == (sofar, data)
  {
    assert data[..from] == data && data[from..] == [];
    assert Upto(data, data, from);
    assert data + [] == data;
  }

  /** One round: the slab at `from` has been judged, and everything else is as it was. */
  lemma HeadingStep(judge: (Slab, Ecc) -> (nat, Slab), goal: (nat, seq<Byte>), sofar: nat,
                    was: seq<Byte>, now: seq<Byte>, from: nat, stored: seq<Ecc>, error: nat)
    requires stored != [] && Heading(judge, goal, sofar, was, from, stored) && |now| == |was|
    requires now[..from] == was[..from] && now[from + SLAB..] == was[from + SLAB..]
    requires (error, now[from..from + SLAB]) == judge(was[from..from + SLAB], stored[0])
    ensures if error == HAMMING_ERROR_ECC || error == HAMMING_ERROR_MULTIPLEBITS then goal == (error, now)
            else Heading(judge, goal, if error == HAMMING_OK then sofar else error, now, from + SLAB, stored[1..])
  {
    var done, slab, later := was[..from], now[from..from + SLAB], was[from + SLAB..];
    assert was[from..][..SLAB] == was[from..from + SLAB] && was[from..][SLAB..] == later;
    assert now[..from + SLAB] == done + slab;
    assert Upto(done, was, from);
    if error == HAMMING_ERROR_ECC || error == HAMMING_ERROR_MULTIPLEBITS {
      assert now == done + (slab + later);
    } else {
      var tail := AllSlabs(judge, later, stored[1..]).1;
      assert done + (slab + tail) == done + slab + tail;
    }
  }

  /** One round of the loop. */
  method VerifyNext(data: array<Byte>, from: nat, stored: seq<Ecc>, ghost sofar: nat, ghost goal: (nat, seq<Byte>))
    returns (error: nat)
    requires stored != [] && Heading(Verify, goal, sofar, data[..], from, stored)
    modifies data
    ensures if error == HAMMING_ERROR_ECC || error == HAMMING_ERROR_MULTIPLEBITS then goal == (error, data[..])
            else Heading(Verify, goal, if error == HAMMING_OK then sofar else error, data[..], from + SLAB, stored[1..])
    ensures error <= HAMMING_ERROR_MULTIPLEBITS
  {
    ghost var was := data[..];
    error := Verify256(data, from, stored[0]);
    HeadingStep(Verify, goal, sofar, was, data[..], from, stored, error);
  }

  /** The loop of `Hamming_Verify256x`. */
  method VerifySlabs(data: array<Byte>, stored: seq<Ecc>, ghost goal: (nat, seq<Byte>)) returns (result: nat)
    requires Heading(Verify, goal, HAMMING_OK, data[..], 0, stored)
    modifies data
    ensures goal == (result, data[..])
  {
    result := HAMMING_OK;
    var i: nat, from: nat := 0, 0;
    assert stored[0..] == stored;
    while i < |stored|
      invariant i <= |stored|
      invariant Heading(Verify, goal, result, data[..], from, stored[i..])
    {
      assert stored[i..][1..] == stored[i + 1..];
      var error := VerifyNext(data, from, stored[i..], result, goal);
      if error == HAMMING_ERROR_SINGLEBIT {
        result := HAMMING_ERROR_SINGLEBIT;
      } else if error != HAMMING_OK {
        return error;
      }
      i, from := i + 1, from + SLAB;
    }
    HeadingEnds(Verify, goal, result, data[..], from);
  }

  /** `Hamming_Verify256x`. The size has to be a multiple of 256. */
  method HammingVerify256x(data: array<Byte>, stored: seq<Ecc>) returns (result: nat)
    requires data.Length == SLAB * |stored|
    modifies data
    ensures (result, data[..]) == VerifyAll(old(data[..]), stored)
  {
    HeadingStarts(Verify, data[..], stored);
    result := VerifySlabs(data, stored, VerifyAll(data[..], stored));
  }

  // ----- whole pages -----

  /** Each slab carries the code of the original, and at most one of its data bits is wrong. */
  ghost predicate LightlyDamaged(original: seq<Byte>, data: seq<Byte>, stored: seq<Ecc>)
    requires |original| == |data| == SLAB * |stored|
  {
    stored == [] ||
    (stored[0] == EccOf(original[..SLAB]) &&
     (data[..SLAB] == original[..SLAB] ||
      exists k: nat, b: nat :: k < SLAB && b < 8 && data[..SLAB] == FlipData(original[..SLAB], k, b)) &&
     LightlyDamaged(original[SLAB..], data[SLAB..], stored[1..]))
  }

  /** Such a page is restored in full, and the result says whether there was anything to repair. */
  lemma {:induction false} PageIsRestored(original: seq<Byte>, data: seq<Byte>, stored: seq<Ecc>)
    requires |original| == |data| == SLAB * |stored| && LightlyDamaged(original, data, stored)
    ensures VerifyAll(data, stored) == (if data == original then HAMMING_OK else HAMMING_ERROR_SINGLEBIT, original)
  {
    if stored != [] {
      var slab: Slab := original[..SLAB];
      if data[..SLAB] == slab {
        CleanSlabPasses(slab);
      } else {
        var k: nat, b: nat :| k < SLAB && b < 8 && data[..SLAB] == FlipData(slab, k, b);
        SingleFlip(slab, DataBit(k, b));
      }
      PageIsRestored(original[SLAB..], data[SLAB..], stored[1..]);
      assert original == original[..SLAB] + original[SLAB..];
      assert data == data[..SLAB] + data[SLAB..];
    }
  }
}
