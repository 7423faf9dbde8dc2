/** An unsigned char, modelled by its eight bits, lowest first, so that the bitwise operations work bit
    by bit. */
module Bytes {
  type Byte = b: seq<bool> | |b| == 8 witness seq(8, _ => false)

  function Pow2(i: nat): nat
    requires i < 8
  {
    match i
    case 0 => 0x01
    case 1 => 0x02
    case 2 => 0x04
    case 3 => 0x08
    case 4 => 0x10
    case 5 => 0x20
    case 6 => 0x40
    case _ => 0x80
  }

  /** The byte written as a number. */
  function Hex(n: nat): (b: Byte)
    requires n < 0x100
  {
    seq(8, i requires 0 <= i < 8 => (n / Pow2(i)) % 2 == 1)
  }

  function Xor(x: Byte, y: Byte): (z: Byte)
    ensures forall i | 0 <= i < 8 :: z[i] == (x[i] != y[i])
  {
    seq(8, i requires 0 <= i < 8 => x[i] != y[i])
  }

  function And(x: Byte, y: Byte): (z: Byte)
    ensures forall i | 0 <= i < 8 :: z[i] == (x[i] && y[i])
  {
    seq(8, i requires 0 <= i < 8 => x[i] && y[i])
  }

  function Complement(x: Byte): (z: Byte)
    ensures forall i | 0 <= i < 8 :: z[i] == !x[i]
  {
    seq(8, i requires 0 <= i < 8 => !x[i])
  }

  /** `1 << b` */
  function Single(b: nat): (z: Byte)
    requires b < 8
    ensures forall i | 0 <= i < 8 :: z[i] == (i == b)
  {
    seq(8, i requires 0 <= i < 8 => i == b)
  }

  lemma XorSwap(x: Byte, y: Byte, z: Byte)
    ensures Xor(Xor(x, y), z) == Xor(Xor(x, z), y)
  {
  }

  lemma XorTwice(x: Byte, y: Byte)
    ensures Xor(Xor(x, y), y) == x
  {
  }

  lemma XorAssociates(x: Byte, y: Byte, z: Byte)
    ensures Xor(x, Xor(y, z)) == Xor(Xor(x, y), z)
  {
  }
}
