/** What the checksum of a message is (at91bootstrap/driver/ds24xx.c:84-106), in terms of polynomials
    over the two-element field: the remainder that makes the message with its checksum a multiple of
    x^8 + x^5 + x^4 + 1. Polynomials are written as their coefficients, highest power first; the bits
    of a byte count from the lowest. */
module CrcPolynomial {
  import opened Crc8

  function Polynomial(): seq<bool> {
    [true, false, false, true, true, false, false, false, true]
  }

  /** The sum of a polynomial and, where wanted, the one above at the lowest powers. */
  function AddLow(p: seq<bool>, wanted: bool): (r: seq<bool>)
    requires |p| >= 9
    ensures |r| == |p|
  {
    var n := |p| - 9;
    seq(|p|, i requires 0 <= i < |p| => p[i] != (i >= n && wanted && Polynomial()[i - n]))
  }

  /** The product of a polynomial and the one above, written with 8 coefficients more. */
  function Product(q: seq<bool>): (p: seq<bool>)
    ensures |p| == |q| + 8
  {
    if q == [] then seq(8, _ => false)
    else
      var n := |q| - 1;
      // times x, and the one above once more if the last coefficient is 1
      AddLow(Product(q[..n]) + [false], q[n])
  }

  function BitsOf(b: bv8): (bits: seq<bool>)
    ensures |bits| == 8
  {
    seq(8, i requires 0 <= i < 8 => HasBit(b, i))
  }

  /** The bits of a message, as they go over the wire. */
  function MessageBits(m: seq<bv8>): (bits: seq<bool>)
    ensures |bits| == 8 * |m|
  {
    if m == [] then [] else MessageBits(m[..|m| - 1]) + BitsOf(m[|m| - 1])
  }

  lemma {:induction false} MessageBitsAt(m: seq<bv8>, k: nat)
    requires k < 8 * |m|
    ensures MessageBits(m)[k] == HasBit(m[k / 8], k % 8)
  {
    var n := |m| - 1;
    if k < 8 * n {
      MessageBitsAt(m[..n], k);
    } else {
      assert k / 8 == n && k % 8 == k - 8 * n;
    }
  }

  ghost predicate IsMultiple(bits: seq<bool>) {
    exists q :: |q| + 8 == |bits| && Product(q) == bits
  }

  // ----- single bits of the table's steps -----

  predicate IsBit(mask: bv8) {
    mask == 1 || mask == 2 || mask == 4 || mask == 8 || mask == 16 || mask == 32 || mask == 64 || mask == 128
  }

  lemma MaskIsBit(i: nat)
    requires i < 8
    ensures IsBit(Mask(i)) && (i < 7 ==> Mask(i) < 128 && Mask(i) << 1 == Mask(i + 1))
    ensures 0x8C & Mask(i) != 0 <==> Polynomial()[i + 1]
  {
  }

  lemma XorAt(a: bv8, b: bv8, mask: bv8)
    requires IsBit(mask)
    ensures (a ^ b) & mask != 0 <==> ((a & mask != 0) != (b & mask != 0))
  {
  }

  lemma XorBits(a: bv8, b: bv8, i: nat)
    requires i < 8
    ensures BitsOf(a ^ b)[i] == (BitsOf(a)[i] != BitsOf(b)[i])
  {
    MaskIsBit(i);
    XorAt(a, b, Mask(i));
  }

  lemma ShiftedAt(b: bv8, mask: bv8)
    requires IsBit(mask)
    ensures (b >> 1) & mask != 0 <==> mask < 128 && b & (mask << 1) != 0
  {
  }

  lemma DividedAt(b: bv8, mask: bv8)
    requires IsBit(mask)
    ensures DivideBit(b) & mask != 0 <==>
      ((mask < 128 && b & (mask << 1) != 0) != (b & 1 != 0 && 0x8C & mask != 0))
  {
    ShiftedAt(b, mask);
    XorAt(b >> 1, 0x8C, mask);
    assert b & 1 == 1 || b & 1 == 0;
  }

  /** A step shifts the register and takes off the polynomial if a one falls out. */
  lemma DivideBitShifts(b: bv8, i: nat)
    requires i < 8
    ensures BitsOf(DivideBit(b))[i] == ((i < 7 && BitsOf(b)[i + 1]) != (BitsOf(b)[0] && Polynomial()[i + 1]))
  {
    MaskIsBit(i);
    DividedAt(b, Mask(i));
  }

  // ----- one more coefficient of the quotient for each bit of the message -----

  /** What is left of a byte's register when `k` bits of the byte have been taken off. */
  function Left(u: seq<bool>, v: seq<bool>, k: nat): (left: seq<bool>)
    requires |u| == |v| == 8
    ensures |left| == 8
  {
    seq(8, i requires 0 <= i < 8 => u[i] != (i + k < 8 && v[i + k]))
  }

  predicate IsStep(u: seq<bool>, u': seq<bool>) {
    |u| == |u'| == 8 && forall i | 0 <= i < 8 :: u'[i] == ((i < 7 && u[i + 1]) != (u[0] && Polynomial()[i + 1]))
  }

  lemma OneBit(w: seq<bool>, u: seq<bool>, u': seq<bool>, v: seq<bool>, k: nat)
    requires IsStep(u, u') && |v| == 8 && k < 8
    ensures AddLow(w + Left(u, v, k) + [false], u[0]) == w + [v[k]] + Left(u', v, k + 1)
  {
    var n := |w|;
    var high, low := w + Left(u, v, k) + [false], w + [v[k]] + Left(u', v, k + 1);
    forall i | 0 <= i < n + 9
      ensures low[i] == (high[i] != (i >= n && u[0] && Polynomial()[i - n]))
    {
      if i == n {
        assert high[n] == Left(u, v, k)[0] && Polynomial()[0];
      } else if n < i {
        var j := i - n - 1;
        assert low[i] == Left(u', v, k + 1)[j];
        assert high[i] == (j < 7 && Left(u, v, k)[j + 1]);
      }
    }
  }

  lemma OneStep(q: seq<bool>, w: seq<bool>, u: seq<bool>, u': seq<bool>, v: seq<bool>, k: nat)
    requires IsStep(u, u') && |v| == 8 && k < 8 && |q| == |w|
    requires Product(q) == w + Left(u, v, k)
    ensures Product(q + [u[0]]) == w + [v[k]] + Left(u', v, k + 1)
  {
    OneBit(w, u, u', v, k);
    assert (q + [u[0]])[..|q|] == q;
  }

  function Steps(b: bv8, k: nat): bv8 {
    if k == 0 then b else DivideBit(Steps(b, k - 1))
  }

  lemma EightSteps(b: bv8)
    ensures Steps(b, 8) == Divided(b)
  {
    assert Steps(b, 1) == DivideBit(b);
    assert Steps(b, 2) == DivideTwo(b);
    assert Steps(b, 3) == DivideBit(DivideTwo(b));
    assert Steps(b, 4) == DivideFour(b);
    assert Steps(b, 5) == DivideBit(DivideFour(b));
    assert Steps(b, 6) == DivideTwo(DivideFour(b));
    assert Steps(b, 7) == DivideBit(DivideTwo(DivideFour(b)));
  }

  lemma DividesByStep(b: bv8)
    ensures IsStep(BitsOf(b), BitsOf(DivideBit(b)))
  {
    forall i | 0 <= i < 8
      ensures BitsOf(DivideBit(b))[i] == ((i < 7 && BitsOf(b)[i + 1]) != (BitsOf(b)[0] && Polynomial()[i + 1]))
    {
      DivideBitShifts(b, i);
    }
  }

  lemma NoneTaken(s: bv8, v: bv8)
    ensures Left(BitsOf(s ^ v), BitsOf(v), 0) == BitsOf(s)
  {
    forall i | 0 <= i < 8
      ensures BitsOf(s)[i] == Left(BitsOf(s ^ v), BitsOf(v), 0)[i]
    {
      XorBits(s, v, i);
    }
  }

  /** The first `k` bits of a byte `v`, which has met the remainder before it in the register `u`. */
  lemma {:induction false} BitsAreDivided(q: seq<bool>, w: seq<bool>, u: bv8, v: seq<bool>, k: nat)
    returns (r: seq<bool>)
    requires |v| == 8 && |q| == |w| && Product(q) == w + Left(BitsOf(u), v, 0) && k <= 8
    ensures |r| == |q| + k && Product(r) == w + v[..k] + Left(BitsOf(Steps(u, k)), v, k)
  {
    if k == 0 {
      r := q;
      assert w + v[..0] == w;
    } else {
      var p := BitsAreDivided(q, w, u, v, k - 1);
      var b := Steps(u, k - 1);
      DividesByStep(b);
      OneStep(p, w + v[..k - 1], BitsOf(b), BitsOf(DivideBit(b)), v, k - 1);
      r := p + [BitsOf(b)[0]];
      assert w + v[..k - 1] + [v[k - 1]] == w + v[..k];
    }
  }

  ghost predicate Divides(f: bv8 -> bv8) {
    forall b: bv8 :: f(b) == Steps(b, 8)
  }

  lemma {:induction false} FoldMakesMultiple(f: bv8 -> bv8, m: seq<bv8>) returns (q: seq<bool>)
    requires Divides(f)
    ensures |q| == 8 * |m| && Product(q) == MessageBits(m) + BitsOf(Fold(f, m))
  {
    if m == [] {
      q := [];
      ZeroBits();
    } else {
      var n := |m| - 1;
      var p := FoldMakesMultiple(f, m[..n]);
      var s, v := Fold(f, m[..n]), m[n];
      NoneTaken(s, v);
      q := BitsAreDivided(p, MessageBits(m[..n]), s ^ v, BitsOf(v), 8);
      var bits := BitsOf(Steps(s ^ v, 8));
      assert Left(bits, BitsOf(v), 8) == bits;
      assert BitsOf(v)[..8] == BitsOf(v);
    }
  }

  lemma TableDivides()
    ensures Divides(Entry)
  {
    forall b: bv8
      ensures Entry(b) == Steps(b, 8)
    {
      EntryIsRemainder(b);
      EightSteps(b);
    }
  }

  lemma ZeroBits()
    ensures BitsOf(0) == seq(8, _ => false)
  {
  }

  // ----- and with no other -----

  lemma AddLowAt(p: seq<bool>, wanted: bool, i: nat)
    requires |p| >= 9 && i <= |p| - 9
    ensures AddLow(p, wanted)[i] == (p[i] != (i == |p| - 9 && wanted))
  {
    assert Polynomial()[0];
  }

  /** The leading coefficients of a product tell what was multiplied. */
  lemma {:induction false} ProductIsOneToOne(q: seq<bool>, q': seq<bool>)
    requires |q| == |q'| && forall i | 0 <= i < |q| :: Product(q)[i] == Product(q')[i]
    ensures q == q'
  {
    if q != [] {
      var n := |q| - 1;
      forall i | 0 <= i <= n
        ensures (Product(q[..n])[i] != (i == n && q[n])) == (Product(q'[..n])[i] != (i == n && q'[n]))
      {
        assert Product(q)[i] == Product(q')[i];
        var p, p' := Product(q[..n]), Product(q'[..n]);
        AddLowAt(p + [false], q[n], i);
        AddLowAt(p' + [false], q'[n], i);
        assert (p + [false])[i] == p[i] && (p' + [false])[i] == p'[i];
      }
      ProductIsOneToOne(q[..n], q'[..n]);
      assert Product(q[..n])[n] == Product(q'[..n])[n];
      assert q == q[..n] + [q[n]] && q' == q'[..n] + [q'[n]];
    }
  }

  lemma SameBits(a: bv8, b: bv8)
    requires BitsOf(a) == BitsOf(b)
    ensures a == b
  {
    var bits := BitsOf(a);
    assert BitsOf(a)[0] == BitsOf(b)[0] && BitsOf(a)[1] == BitsOf(b)[1];
    assert BitsOf(a)[2] == BitsOf(b)[2] && BitsOf(a)[3] == BitsOf(b)[3];
    assert BitsOf(a)[4] == BitsOf(b)[4] && BitsOf(a)[5] == BitsOf(b)[5];
    assert BitsOf(a)[6] == BitsOf(b)[6] && BitsOf(a)[7] == BitsOf(b)[7];
  }

  lemma FoldIsRemainder(f: bv8 -> bv8, m: seq<bv8>, c: bv8)
    requires Divides(f)
    ensures c == Fold(f, m) <==> IsMultiple(MessageBits(m) + BitsOf(c))
  {
    var q := FoldMakesMultiple(f, m);
    var w, r := MessageBits(m), Fold(f, m);
    if IsMultiple(w + BitsOf(c)) {
      var q' :| |q'| + 8 == |w + BitsOf(c)| && Product(q') == w + BitsOf(c);
      ProductIsOneToOne(q, q');
      assert BitsOf(c) == Product(q)[|q|..] == BitsOf(r);
      SameBits(c, r);
    }
  }

  /** The checksum is the one byte that makes a multiple of message and checksum. */
  lemma CrcIsRemainder(m: seq<bv8>, c: bv8)
    ensures c == Crc(m) <==> IsMultiple(MessageBits(m) + BitsOf(c))
  {
    TableDivides();
    FoldIsRemainder(Entry, m, c);
  }

  lemma XorIsZero(a: bv8, b: bv8)
    ensures a ^ b == 0 <==> a == b
  {
  }

  lemma FoldIsZero(f: bv8 -> bv8, m: seq<bv8>)
    requires m != [] && OneToOne(f) && f(0) == 0
    ensures Fold(f, m) == 0 <==> m[|m| - 1] == Fold(f, m[..|m| - 1])
  {
    XorIsZero(Fold(f, m[..|m| - 1]), m[|m| - 1]);
  }

  /** A message has checksum 0 exactly if it ends with the checksum of what comes before, and so
      exactly if it is a multiple itself. */
  lemma ZeroExactlyWhenMultiple(m: seq<bv8>)
    requires m != []
    ensures Crc(m) == 0 <==> m[|m| - 1] == Crc(m[..|m| - 1])
    ensures Crc(m) == 0 <==> IsMultiple(MessageBits(m))
  {
    TableIsOneToOne();
    FoldIsZero(Entry, m);
    CrcIsRemainder(m[..|m| - 1], m[|m| - 1]);
  }
}
