/** The checksum of a ROM (at91bootstrap/driver/ds24xx.c:84-106): bytes go through a table of remainders modulo the
    polynomial x^8 + x^5 + x^4 + 1, lowest bit first. */
module Crc8 {
  // ----- the bits of a byte, lowest first -----

  function Mask(i: nat): bv8
    requires i < 8
  {
    match i
    case 0 => 1
    case 1 => 2
    case 2 => 4
    case 3 => 8
    case 4 => 16
    case 5 => 32
    case 6 => 64
    case _ => 128
  }

  predicate HasBit(b: bv8, i: nat)
    requires i < 8
  {
    b & Mask(i) != 0
  }

  // ----- the table, by rows of 16 -----

  function Row0(column: bv8): bv8 {
    match column
    case 0 => 0 case 1 => 94 case 2 => 188 case 3 => 226
    case 4 => 97 case 5 => 63 case 6 => 221 case 7 => 131
    case 8 => 194 case 9 => 156 case 10 => 126 case 11 => 32
    case 12 => 163 case 13 => 253 case 14 => 31 case _ => 65
  }

  function Row1(column: bv8): bv8 {
    match column
    case 0 => 157 case 1 => 195 case 2 => 33 case 3 => 127
    case 4 => 252 case 5 => 162 case 6 => 64 case 7 => 30
    case 8 => 95 case 9 => 1 case 10 => 227 case 11 => 189
    case 12 => 62 case 13 => 96 case 14 => 130 case _ => 220
  }

  function Row2(column: bv8): bv8 {
    match column
    case 0 => 35 case 1 => 125 case 2 => 159 case 3 => 193
    case 4 => 66 case 5 => 28 case 6 => 254 case 7 => 160
    case 8 => 225 case 9 => 191 case 10 => 93 case 11 => 3
    case 12 => 128 case 13 => 222 case 14 => 60 case _ => 98
  }

  function Row3(column: bv8): bv8 {
    match column
    case 0 => 190 case 1 => 224 case 2 => 2 case 3 => 92
    case 4 => 223 case 5 => 129 case 6 => 99 case 7 => 61
    case 8 => 124 case 9 => 34 case 10 => 192 case 11 => 158
    case 12 => 29 case 13 => 67 case 14 => 161 case _ => 255
  }

  function Row4(column: bv8): bv8 {
    match column
    case 0 => 70 case 1 => 24 case 2 => 250 case 3 => 164
    case 4 => 39 case 5 => 121 case 6 => 155 case 7 => 197
    case 8 => 132 case 9 => 218 case 10 => 56 case 11 => 102
    case 12 => 229 case 13 => 187 case 14 => 89 case _ => 7
  }

  function Row5(column: bv8): bv8 {
    match column
    case 0 => 219 case 1 => 133 case 2 => 103 case 3 => 57
    case 4 => 186 case 5 => 228 case 6 => 6 case 7 => 88
    case 8 => 25 case 9 => 71 case 10 => 165 case 11 => 251
    case 12 => 120 case 13 => 38 case 14 => 196 case _ => 154
  }

  function Row6(column: bv8): bv8 {
    match column
    case 0 => 101 case 1 => 59 case 2 => 217 case 3 => 135
    case 4 => 4 case 5 => 90 case 6 => 184 case 7 => 230
    case 8 => 167 case 9 => 249 case 10 => 27 case 11 => 69
    case 12 => 198 case 13 => 152 case 14 => 122 case _ => 36
  }

  function Row7(column: bv8): bv8 {
    match column
    case 0 => 248 case 1 => 166 case 2 => 68 case 3 => 26
    case 4 => 153 case 5 => 199 case 6 => 37 case 7 => 123
    case 8 => 58 case 9 => 100 case 10 => 134 case 11 => 216
    case 12 => 91 case 13 => 5 case 14 => 231 case _ => 185
  }

  function Row8(column: bv8): bv8 {
    match column
    case 0 => 140 case 1 => 210 case 2 => 48 case 3 => 110
    case 4 => 237 case 5 => 179 case 6 => 81 case 7 => 15
    case 8 => 78 case 9 => 16 case 10 => 242 case 11 => 172
    case 12 => 47 case 13 => 113 case 14 => 147 case _ => 205
  }

  function Row9(column: bv8): bv8 {
    match column
    case 0 => 17 case 1 => 79 case 2 => 173 case 3 => 243
    case 4 => 112 case 5 => 46 case 6 => 204 case 7 => 146
    case 8 => 211 case 9 => 141 case 10 => 111 case 11 => 49
    case 12 => 178 case 13 => 236 case 14 => 14 case _ => 80
  }

  function RowA(column: bv8): bv8 {
    match column
    case 0 => 175 case 1 => 241 case 2 => 19 case 3 => 77
    case 4 => 206 case 5 => 144 case 6 => 114 case 7 => 44
    case 8 => 109 case 9 => 51 case 10 => 209 case 11 => 143
    case 12 => 12 case 13 => 82 case 14 => 176 case _ => 238
  }

  function RowB(column: bv8): bv8 {
    match column
    case 0 => 50 case 1 => 108 case 2 => 142 case 3 => 208
    case 4 => 83 case 5 => 13 case 6 => 239 case 7 => 177
    case 8 => 240 case 9 => 174 case 10 => 76 case 11 => 18
    case 12 => 145 case 13 => 207 case 14 => 45 case _ => 115
  }

  function RowC(column: bv8): bv8 {
    match column
    case 0 => 202 case 1 => 148 case 2 => 118 case 3 => 40
    case 4 => 171 case 5 => 245 case 6 => 23 case 7 => 73
    case 8 => 8 case 9 => 86 case 10 => 180 case 11 => 234
    case 12 => 105 case 13 => 55 case 14 => 213 case _ => 139
  }

  function RowD(column: bv8): bv8 {
    match column
    case 0 => 87 case 1 => 9 case 2 => 235 case 3 => 181
    case 4 => 54 case 5 => 104 case 6 => 138 case 7 => 212
    case 8 => 149 case 9 => 203 case 10 => 41 case 11 => 119
    case 12 => 244 case 13 => 170 case 14 => 72 case _ => 22
  }

  function RowE(column: bv8): bv8 {
    match column
    case 0 => 233 case 1 => 183 case 2 => 85 case 3 => 11
    case 4 => 136 case 5 => 214 case 6 => 52 case 7 => 106
    case 8 => 43 case 9 => 117 case 10 => 151 case 11 => 201
    case 12 => 74 case 13 => 20 case 14 => 246 case _ => 168
  }

  function RowF(column: bv8): bv8 {
    match column
    case 0 => 116 case 1 => 42 case 2 => 200 case 3 => 150
    case 4 => 21 case 5 => 75 case 6 => 169 case 7 => 247
    case 8 => 182 case 9 => 232 case 10 => 10 case 11 => 84
    case 12 => 215 case 13 => 137 case 14 => 107 case _ => 53
  }

  /** Entry `b` of `dscrc_table`. */
  function Entry(b: bv8): bv8 {
    var column := b & 15;
    match b >> 4
    case 0 => Row0(column)
    case 1 => Row1(column)
    case 2 => Row2(column)
    case 3 => Row3(column)
    case 4 => Row4(column)
    case 5 => Row5(column)
    case 6 => Row6(column)
    case 7 => Row7(column)
    case 8 => Row8(column)
    case 9 => Row9(column)
    case 10 => RowA(column)
    case 11 => RowB(column)
    case 12 => RowC(column)
    case 13 => RowD(column)
    case 14 => RowE(column)
    case _ => RowF(column)
  }

  /** `docrc8` */
  function DoCrc8(crc: bv8, value: bv8): bv8 {
    Entry(crc ^ value)
  }

  /** The bytes go through the table one after the other. */
  function Fold(table: bv8 -> bv8, bytes: seq<bv8>): bv8 {
    if bytes == [] then 0 else table(Fold(table, bytes[..|bytes| - 1]) ^ bytes[|bytes| - 1])
  }

  function Crc(bytes: seq<bv8>): bv8 {
    Fold(Entry, bytes)
  }

  // ----- it divides by the polynomial -----

  /** One bit of the division: the polynomial, reflected and without its leading bit, is 0x8C. */
  function DivideBit(b: bv8): bv8 {
    if b & 1 == 1 then (b >> 1) ^ 0x8C else b >> 1
  }

  function DivideTwo(b: bv8): bv8 {
    DivideBit(DivideBit(b))
  }

  function DivideFour(b: bv8): bv8 {
    DivideTwo(DivideTwo(b))
  }

  /** All eight bits. */
  function Divided(b: bv8): bv8 {
    DivideFour(DivideFour(b))
  }

  lemma Row0Divides(column: bv8)
    requires column < 16
    ensures Row0(column) == Divided(column + 0)
  {
  }

  lemma Row1Divides(column: bv8)
    requires column < 16
    ensures Row1(column) == Divided(column + 16)
  {
  }

  lemma Row2Divides(column: bv8)
    requires column < 16
    ensures Row2(column) == Divided(column + 32)
  {
  }

  lemma Row3Divides(column: bv8)
    requires column < 16
    ensures Row3(column) == Divided(column + 48)
  {
  }

  lemma Row4Divides(column: bv8)
    requires column < 16
    ensures Row4(column) == Divided(column + 64)
  {
  }

  lemma Row5Divides(column: bv8)
    requires column < 16
    ensures Row5(column) == Divided(column + 80)
  {
  }

  lemma Row6Divides(column: bv8)
    requires column < 16
    ensures Row6(column) == Divided(column + 96)
  {
  }

  lemma Row7Divides(column: bv8)
    requires column < 16
    ensures Row7(column) == Divided(column + 112)
  {
  }

  lemma Row8Divides(column: bv8)
    requires column < 16
    ensures Row8(column) == Divided(column + 128)
  {
  }

  lemma Row9Divides(column: bv8)
    requires column < 16
    ensures Row9(column) == Divided(column + 144)
  {
  }

  lemma RowADivides(column: bv8)
    requires column < 16
    ensures RowA(column) == Divided(column + 160)
  {
  }

  lemma RowBDivides(column: bv8)
    requires column < 16
    ensures RowB(column) == Divided(column + 176)
  {
  }

  lemma RowCDivides(column: bv8)
    requires column < 16
    ensures RowC(column) == Divided(column + 192)
  {
  }

  lemma RowDDivides(column: bv8)
    requires column < 16
    ensures RowD(column) == Divided(column + 208)
  {
  }

  lemma RowEDivides(column: bv8)
    requires column < 16
    ensures RowE(column) == Divided(column + 224)
  {
  }

  lemma RowFDivides(column: bv8)
    requires column < 16
    ensures RowF(column) == Divided(column + 240)
  {
  }

  lemma SplitByte(b: bv8)
    ensures b & 15 < 16 && b >> 4 < 16 && b == (b & 15) + ((b >> 4) << 4)
  {
  }

  /** The table holds the remainders. */
  lemma EntryIsRemainder(b: bv8)
    ensures Entry(b) == Divided(b)
  {
    var column := b & 15;
    SplitByte(b);
    match b >> 4
    case 0 => Row0Divides(column);
    case 1 => Row1Divides(column);
    case 2 => Row2Divides(column);
    case 3 => Row3Divides(column);
    case 4 => Row4Divides(column);
    case 5 => Row5Divides(column);
    case 6 => Row6Divides(column);
    case 7 => Row7Divides(column);
    case 8 => Row8Divides(column);
    case 9 => Row9Divides(column);
    case 10 => RowADivides(column);
    case 11 => RowBDivides(column);
    case 12 => RowCDivides(column);
    case 13 => RowDDivides(column);
    case 14 => RowEDivides(column);
    case _ => RowFDivides(column);
  }

  // ----- so no two bytes leave the same, and a damaged byte is detected -----

  ghost predicate OneToOne(f: bv8 -> bv8) {
    forall x: bv8, y: bv8 :: f(x) == f(y) ==> x == y
  }

  lemma DivideBitIsOneToOne()
    ensures OneToOne(DivideBit)
  {
  }

  lemma TwiceIsOneToOne(f: bv8 -> bv8, g: bv8 -> bv8)
    requires OneToOne(f) && forall x: bv8 :: g(x) == f(f(x))
    ensures OneToOne(g)
  {
  }

  lemma DivideTwoIsOneToOne()
    ensures OneToOne(DivideTwo)
  {
    DivideBitIsOneToOne();
    TwiceIsOneToOne(DivideBit, DivideTwo);
  }

  lemma DivideFourIsOneToOne()
    ensures OneToOne(DivideFour)
  {
    DivideTwoIsOneToOne();
    TwiceIsOneToOne(DivideTwo, DivideFour);
  }

  lemma DividedIsOneToOne()
    ensures OneToOne(Divided)
  {
    DivideFourIsOneToOne();
    TwiceIsOneToOne(DivideFour, Divided);
  }

  lemma SameIsOneToOne(f: bv8 -> bv8, g: bv8 -> bv8)
    requires OneToOne(f) && forall x: bv8 :: g(x) == f(x)
    ensures OneToOne(g)
  {
  }

  lemma TableIsOneToOne()
    ensures OneToOne(Entry)
  {
    DividedIsOneToOne();
    forall b: bv8
      ensures Entry(b) == Divided(b)
    {
      EntryIsRemainder(b);
    }
    SameIsOneToOne(Divided, Entry);
  }

  lemma XorDiffers(a: bv8, b: bv8, c: bv8)
    ensures a ^ c == b ^ c ==> a == b
    ensures c ^ a == c ^ b ==> a == b
  {
  }

  lemma {:induction false} FoldDetectsOneByte(f: bv8 -> bv8, xs: seq<bv8>, k: nat, b: bv8)
    requires k < |xs| && b != xs[k] && OneToOne(f)
    ensures Fold(f, xs[k := b]) != Fold(f, xs)
  {
    var n, ys := |xs| - 1, xs[k := b];
    if k == n {
      assert ys[..n] == xs[..n];
      XorDiffers(xs[n], b, Fold(f, xs[..n]));
    } else {
      assert ys[..n] == xs[..n][k := b];
      FoldDetectsOneByte(f, xs[..n], k, b);
      XorDiffers(Fold(f, xs[..n]), Fold(f, ys[..n]), xs[n]);
    }
  }

  /** Two messages that differ in one byte have different checksums. */
  lemma OneByteIsDetected(xs: seq<bv8>, k: nat, b: bv8)
    requires k < |xs| && b != xs[k]
    ensures Crc(xs[k := b]) != Crc(xs)
  {
    TableIsOneToOne();
    FoldDetectsOneByte(Entry, xs, k, b);
  }
}
