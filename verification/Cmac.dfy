/** AES-CMAC over an abstract block cipher (at91bootstrap/driver/at91_aes.c:314-347, 413-485), against
    sections 6.1 and 6.2 of NIST SP 800-38B. */
module Cmac {
  import opened Bytes

  const BLOCK := 16

  type Block = b: seq<Byte> | |b| == BLOCK witness seq(BLOCK, _ => seq(8, _ => false))

  type Cipher = Block -> Block

  function ZeroBlock(): Block {
    seq(BLOCK, _ => seq(8, _ => false))
  }

  function XorBlock(x: Block, y: Block): (z: Block)
    ensures forall i | 0 <= i < BLOCK :: z[i] == Xor(x[i], y[i])
  {
    seq(BLOCK, i requires 0 <= i < BLOCK => Xor(x[i], y[i]))
  }

  // ----- the standard -----

  /** A block as a bit string, most significant bit first. */
  function Bits(b: Block): (s: seq<bool>)
    ensures |s| == 128
  {
    seq(128, k requires 0 <= k < 128 => b[k / 8][7 - k % 8])
  }

  /** `X << 1` for a bit string. */
  function ShiftLeft(s: seq<bool>): (r: seq<bool>)
    requires |s| == 128
    ensures |r| == 128
  {
    s[1..] + [false]
  }

  function XorBits(s: seq<bool>, r: seq<bool>): (x: seq<bool>)
    requires |s| == |r|
    ensures |x| == |s| && forall k | 0 <= k < |s| :: x[k] == (s[k] != r[k])
  {
    seq(|s|, k requires 0 <= k < |s| => s[k] != r[k])
  }

  /** `R_128`: 120 zeros and 10000111. */
  function R128(): (s: seq<bool>)
    ensures |s| == 128
  {
    seq(120, _ => false) + [true, false, false, false, false, true, true, true]
  }

  /** Steps 2 of section 6.1: the first subkey, from the encrypted zero block. */
  function FirstSubkey(l: seq<bool>): (k1: seq<bool>)
    requires |l| == 128
    ensures |k1| == 128
  {
    if !l[0] then ShiftLeft(l) else XorBits(ShiftLeft(l), R128())
  }

  /** Step 6 of section 6.2: the chain of blocks. */
  function Chain(cipher: Cipher, c: Block, blocks: seq<Block>): Block
    decreases |blocks|
  {
    if blocks == [] then c else Chain(cipher, cipher(XorBlock(c, blocks[0])), blocks[1..])
  }

  /** The block whose bits are the first subkey. */
  predicate IsFirstSubkey(cipher: Cipher, k1: Block) {
    Bits(k1) == FirstSubkey(Bits(cipher(ZeroBlock())))
  }

  /** Section 6.2 for a message of complete blocks, and the whole last block as the tag: the last block
      of the message is masked with the first subkey before the chain runs. */
  ghost predicate IsCmac(cipher: Cipher, message: seq<Block>, tag: Block)
    requires message != []
  {
    exists k1: Block :: IsFirstSubkey(cipher, k1) && tag == Chain(cipher, ZeroBlock(), LastMasked(message, k1))
  }

  function LastMasked(message: seq<Block>, k1: Block): seq<Block>
    requires message != []
  {
    message[..|message| - 1] + [XorBlock(message[|message| - 1], k1)]
  }

  // ----- polynomials -----

  /** The coefficient of `x^k` in the polynomial a bit string stands for. */
  function Coefficient(s: seq<bool>, k: nat): bool
    requires |s| == 128
  {
    k < 128 && s[127 - k]
  }

  /** `x^128 + x^7 + x^2 + x + 1` */
  predicate Modulus(k: nat) {
    k in {128, 7, 2, 1, 0}
  }

  /** The subkey is `x` times the block in GF(2^128): the product less a multiple of the modulus. */
  lemma FirstSubkeyIsDoubling(l: seq<bool>, k: nat)
    requires |l| == 128
    ensures (k > 0 && Coefficient(l, k - 1)) == (Coefficient(FirstSubkey(l), k) != (Coefficient(l, 127) && Modulus(k)))
  {
    var r := ShiftLeft(l);
    if k < 128 {
      assert r[127 - k] == (k > 0 && l[127 - k + 1]);
      assert R128()[127 - k] == (k in {7, 2, 1, 0});
    }
  }

  lemma {:induction false} ChainJoins(cipher: Cipher, c: Block, a: seq<Block>, b: seq<Block>)
    ensures Chain(cipher, c, a + b) == Chain(cipher, Chain(cipher, c, a), b)
    decreases |a|
  {
    if a == [] {
      assert a + b == b;
    } else {
      assert (a + b)[1..] == a[1..] + b;
      ChainJoins(cipher, cipher(XorBlock(c, a[0])), a[1..], b);
    }
  }

  // ----- the driver -----

  /** `at91_aes_length2blocks` */
  function Length2Blocks(length: nat, blockSize: nat): nat {
    match blockSize
    case 2 => length / 2 + if length % 2 != 0 then 1 else 0
    case 4 => length / 4 + if length % 4 != 0 then 1 else 0
    case 8 => length / 8 + if length % 8 != 0 then 1 else 0
    case 16 => length / 16 + if length % 16 != 0 then 1 else 0
    case _ => length
  }

  /** As many blocks as it takes to hold the data. */
  lemma Length2BlocksHolds(length: nat, blockSize: nat)
    requires blockSize in {1, 2, 4, 8, 16}
    ensures var n := Length2Blocks(length, blockSize);
      length <= n * blockSize && (n > 0 ==> (n - 1) * blockSize < length)
  {
  }

  lemma SameBitsSameBlock(x: Block, y: Block)
    requires Bits(x) == Bits(y)
    ensures x == y
  {
    forall i | 0 <= i < BLOCK
      ensures x[i] == y[i]
    {
      forall j | 0 <= j < 8
        ensures x[i][j] == y[i][j]
      {
        var k := 8 * i + 7 - j;
        assert k / 8 == i && k % 8 == 7 - j;
        assert Bits(x)[k] == Bits(y)[k];
      }
    }
  }

  /** There is one tag for a message. */
  lemma CmacIsUnique(cipher: Cipher, message: seq<Block>, s: Block, t: Block)
    requires message != [] && IsCmac(cipher, message, s) && IsCmac(cipher, message, t)
    ensures s == t
  {
    var k1: Block :| IsFirstSubkey(cipher, k1) && s == Chain(cipher, ZeroBlock(), LastMasked(message, k1));
    var k2: Block :| IsFirstSubkey(cipher, k2) && t == Chain(cipher, ZeroBlock(), LastMasked(message, k2));
    SameBitsSameBlock(k1, k2);
  }

  lemma XorZero(x: Block)
    ensures XorBlock(ZeroBlock(), x) == x
  {
    forall i | 0 <= i < BLOCK
      ensures XorBlock(ZeroBlock(), x)[i] == x[i]
    {
      assert Xor(seq(8, _ => false), x[i]) == x[i];
    }
  }

  lemma XorBlockAssociates(x: Block, y: Block, z: Block)
    ensures XorBlock(x, XorBlock(y, z)) == XorBlock(XorBlock(x, y), z)
  {
    forall i | 0 <= i < BLOCK
      ensures XorBlock(x, XorBlock(y, z))[i] == XorBlock(XorBlock(x, y), z)[i]
    {
      XorAssociates(x[i], y[i], z[i]);
    }
  }

  /** The tag of one block is that block, masked and encrypted. */
  lemma CmacOfOneBlock(cipher: Cipher, m: Block, k1: Block)
    requires IsFirstSubkey(cipher, k1)
    ensures IsCmac(cipher, [m], cipher(XorBlock(m, k1)))
  {
    XorZero(XorBlock(m, k1));
    assert LastMasked([m], k1) == [XorBlock(m, k1)];
    assert Chain(cipher, ZeroBlock(), [XorBlock(m, k1)]) == Chain(cipher, cipher(XorBlock(m, k1)), []);
  }

  lemma ChainAbsorbs(cipher: Cipher, x: Block, y: Block, rest: seq<Block>)
    ensures Chain(cipher, ZeroBlock(), [x, y] + rest) ==
      Chain(cipher, ZeroBlock(), [XorBlock(cipher(x), y)] + rest)
  {
    var z := XorBlock(cipher(x), y);
    XorZero(x);
    XorZero(z);
    assert ([x, y] + rest)[1..] == [y] + rest && ([y] + rest)[1..] == rest && ([z] + rest)[1..] == rest;
  }

  /** A longer message: the first block is encrypted and goes into the second. */
  lemma CmacAbsorbs(cipher: Cipher, x: Block, y: Block, rest: seq<Block>, tag: Block)
    ensures IsCmac(cipher, [x, y] + rest, tag) <==> IsCmac(cipher, [XorBlock(cipher(x), y)] + rest, tag)
  {
    var z := XorBlock(cipher(x), y);
    forall k1: Block
      ensures Chain(cipher, ZeroBlock(), LastMasked([x, y] + rest, k1)) ==
        Chain(cipher, ZeroBlock(), LastMasked([z] + rest, k1))
    {
      MaskedAbsorbs(cipher, x, y, rest, k1);
    }
  }

  lemma MaskedAbsorbs(cipher: Cipher, x: Block, y: Block, rest: seq<Block>, k1: Block)
    ensures Chain(cipher, ZeroBlock(), LastMasked([x, y] + rest, k1)) ==
      Chain(cipher, ZeroBlock(), LastMasked([XorBlock(cipher(x), y)] + rest, k1))
  {
    var z := XorBlock(cipher(x), y);
    if rest == [] {
      XorBlockAssociates(cipher(x), y, k1);
      ChainAbsorbs(cipher, x, XorBlock(y, k1), []);
      assert LastMasked([x, y] + rest, k1) == [x, XorBlock(y, k1)] + [];
      assert LastMasked([z] + rest, k1) == [XorBlock(z, k1)] + [];
    } else {
      var n := |rest| - 1;
      var masked := rest[..n] + [XorBlock(rest[n], k1)];
      ChainAbsorbs(cipher, x, y, masked);
      assert LastMasked([x, y] + rest, k1) == [x, y] + masked;
      assert LastMasked([z] + rest, k1) == [z] + masked;
    }
  }

  /** `(tmp << 1) | carry` in a byte */
  function ShiftByte(tmp: Byte, carry: bool): (b: Byte)
    ensures b[0] == carry && forall j | 0 < j < 8 :: b[j] == tmp[j - 1]
  {
    [carry] + tmp[..7]
  }

  /** `0x87` */
  lemma Mask(j: nat)
    requires j < 8
    ensures Hex(0x87)[j] == (j in {7, 2, 1, 0}) && !Hex(0)[j]
  {
    assert Pow2(j) in {1, 2, 4, 8, 16, 32, 64, 128};
  }

  /** What byte `k` becomes: shifted, with the highest bit of the byte behind it. */
  function Shifted(b: Block, k: nat): Byte
    requires k < BLOCK
  {
    ShiftByte(b[k], k + 1 < BLOCK && b[k + 1][7])
  }

  /** The carry loop: the subkey buffer is doubled in place. */
  method MakeSubkey(subkey: array<Byte>)
    requires subkey.Length == BLOCK
    modifies subkey
    ensures Bits(subkey[..]) == FirstSubkey(Bits(old(subkey[..])))
  {
    ghost var was: Block := subkey[..];
    var carry := ShiftAll(subkey);
    var mask := if carry then Hex(0x87) else Hex(0);
    MaskIs(carry);
    subkey[BLOCK - 1] := Xor(subkey[BLOCK - 1], mask);
    SubkeyBits(was, mask, subkey[..]);
  }

  method ShiftAll(subkey: array<Byte>) returns (carry: bool)
    requires subkey.Length == BLOCK
    modifies subkey
    ensures forall k | 0 <= k < BLOCK :: subkey[k] == Shifted(old(subkey[..]), k)
    ensures carry == old(subkey[0])[7]
  {
    ghost var was: Block := subkey[..];
    carry := false;
    var i := BLOCK;
    while i > 0
      invariant 0 <= i <= BLOCK && carry == (i < BLOCK && was[i][7])
      invariant forall k | 0 <= k < BLOCK :: subkey[k] == if k < i then was[k] else Shifted(was, k)
    {
      i := i - 1;
      var tmp := subkey[i];
      assert tmp == was[i];
      subkey[i] := ShiftByte(tmp, carry);
      assert subkey[i] == Shifted(was, i);
      carry := tmp[7];
    }
  }

  lemma SubkeyBits(was: Block, mask: Byte, now: Block)
    requires forall k | 0 <= k < BLOCK - 1 :: now[k] == Shifted(was, k)
    requires now[BLOCK - 1] == Xor(Shifted(was, BLOCK - 1), mask) && IsMask(mask, was[0][7])
    ensures Bits(now) == FirstSubkey(Bits(was))
  {
    var f := FirstSubkey(Bits(was));
    forall i: nat, c: nat | i < BLOCK && c < 8
      ensures BitIs(now[i], f, i, c)
    {
      if i < BLOCK - 1 {
        HighBit(was, i, c);
      } else {
        LowBit(was, mask, c);
      }
    }
    BitsAre(now, f);
  }

  /** Bit `c` from the top of byte `i`. */
  ghost predicate BitIs(b: Byte, f: seq<bool>, i: nat, c: nat)
    requires |f| == 128 && i < BLOCK && c < 8
  {
    b[7 - c] == f[8 * i + c]
  }

  lemma BitsAre(b: Block, f: seq<bool>)
    requires |f| == 128 && forall i: nat, c: nat | i < BLOCK && c < 8 :: BitIs(b[i], f, i, c)
    ensures Bits(b) == f
  {
    forall k: nat | k < 128
      ensures Bits(b)[k] == f[k]
    {
      assert BitIs(b[k / 8], f, k / 8, k % 8);
    }
  }

  lemma HighBit(was: Block, i: nat, c: nat)
    requires i < BLOCK - 1 && c < 8
    ensures BitIs(Shifted(was, i), FirstSubkey(Bits(was)), i, c)
  {
    ShiftedBit(was, i, c);
    SubkeyBitIs(Bits(was), 8 * i + c);
  }

  /** What is mixed into the last byte. */
  predicate IsMask(mask: Byte, carry: bool) {
    forall j | 0 <= j < 8 :: mask[j] == (carry && j in {7, 2, 1, 0})
  }

  lemma MaskIs(carry: bool)
    ensures IsMask(if carry then Hex(0x87) else Hex(0), carry)
  {
    forall j: nat | j < 8
      ensures Hex(0x87)[j] == (j in {7, 2, 1, 0}) && !Hex(0)[j]
    {
      Mask(j);
    }
  }

  lemma LowBit(was: Block, mask: Byte, c: nat)
    requires c < 8 && IsMask(mask, was[0][7])
    ensures BitIs(Xor(Shifted(was, BLOCK - 1), mask), FirstSubkey(Bits(was)), BLOCK - 1, c)
  {
    ShiftedBit(was, BLOCK - 1, c);
    SubkeyBitIs(Bits(was), 120 + c);
    assert Bits(was)[0] == was[0][7];
  }

  lemma SubkeyBitIs(l: seq<bool>, k: nat)
    requires |l| == 128 && k < 128
    ensures FirstSubkey(l)[k] == (ShiftLeft(l)[k] != (l[0] && k in {120, 125, 126, 127}))
  {
  }

  lemma ShiftedBit(was: Block, i: nat, c: nat)
    requires i < BLOCK && c < 8
    ensures Shifted(was, i)[7 - c] == ShiftLeft(Bits(was))[8 * i + c]
  {
    var k := 8 * i + c;
    assert ShiftLeft(Bits(was))[k] == (k < 127 && Bits(was)[k + 1]);
    if c < 7 {
      assert (k + 1) / 8 == i && (k + 1) % 8 == c + 1;
    } else if i + 1 < BLOCK {
      assert (k + 1) / 8 == i + 1 && (k + 1) % 8 == 0;
    }
  }

  /** One block through the engine; it refuses keys of a length it does not know. */
  method ProcessEcb(cipher: Cipher, accepted: bool, input: Block, output: array<Byte>) returns (status: int)
    requires output.Length == BLOCK
    modifies output
    ensures accepted ==> status == 0 && output[..] == cipher(input)
    ensures !accepted ==> status == -1 && output[..] == old(output[..])
  {
    if !accepted {
      return -1;
    }
    Store(output, cipher(input));
    status := 0;
  }

  method Store(output: array<Byte>, block: Block)
    requires output.Length == BLOCK
    modifies output
    ensures output[..] == block
  {
    for i := 0 to BLOCK
      invariant forall k | 0 <= k < i :: output[k] == block[k]
    {
      output[i] := block[i];
    }
  }

  function BlockAt(data: seq<Byte>, i: nat): Block
    requires BLOCK * (i + 1) <= |data|
  {
    data[BLOCK * i..BLOCK * i + BLOCK]
  }

  /** The first `n` blocks of the data. */
  function BlocksOf(data: seq<Byte>, n: nat): (r: seq<Block>)
    requires BLOCK * n <= |data|
    ensures |r| == n
  {
    if n == 0 then [] else BlocksOf(data, n - 1) + [BlockAt(data, n - 1)]
  }

  /** CBC-MAC of the first `n` blocks: every block is mixed in and enciphered, and only the last
      outcome is read back (`at91_aes_process`). */
  method ProcessMac(cipher: Cipher, accepted: bool, iv: Block, data: seq<Byte>, n: nat, output: array<Byte>)
    returns (status: int)
    requires output.Length == BLOCK && BLOCK * n <= |data|
    modifies output
    ensures if accepted then status == 0 && output[..] == Chain(cipher, iv, BlocksOf(data, n))
            else status == -1 && output[..] == old(output[..])
  {
    if !accepted {
      return -1;
    }
    var c := iv;
    for i := 0 to n
      invariant c == Chain(cipher, iv, BlocksOf(data, i))
    {
      ChainJoins(cipher, iv, BlocksOf(data, i), [BlockAt(data, i)]);
      assert [BlockAt(data, i)][1..] == [];
      c := cipher(XorBlock(c, BlockAt(data, i)));
    }
    Store(output, c);
    status := 0;
  }

  lemma CompleteBlocks(length: nat)
    requires length > 0 && length % BLOCK == 0
    ensures var n := Length2Blocks(length, BLOCK);
      n > 0 && length == BLOCK * n && n == length / BLOCK && Length2Blocks(length - BLOCK, BLOCK) == n - 1
  {
  }

  /** `at91_aes_cmac`, for data of complete blocks. */
  method AesCmac(cipher: Cipher, accepted: bool, data: seq<Byte>, cmac: array<Byte>) returns (status: int)
    requires cmac.Length == BLOCK && |data| % BLOCK == 0
    modifies cmac
    ensures status == if |data| == 0 || !accepted then -1 else 0
    ensures status == -1 ==> cmac[..] == old(cmac[..])
    ensures status == 0 ==> IsCmac(cipher, BlocksOf(data, |data| / BLOCK), cmac[..])
  {
    if |data| == 0 {
      return -1;
    }
    var subkey := new Byte[BLOCK];
    status := ProcessEcb(cipher, accepted, ZeroBlock(), subkey);
    if status != 0 {
      return -1;
    }
    MakeSubkey(subkey);
    CompleteBlocks(|data|);
    MacAllButLast(cipher, data, cmac);
    FinishMac(cipher, data, Length2Blocks(|data|, BLOCK) - 1, cmac, subkey);
  }

  /** The last block, once the engine has accepted the key. */
  method FinishMac(cipher: Cipher, data: seq<Byte>, n: nat, cmac: array<Byte>, subkey: array<Byte>)
    requires cmac.Length == BLOCK && subkey.Length == BLOCK && |data| == BLOCK * (n + 1)
    requires IsFirstSubkey(cipher, subkey[..]) && cmac[..] == Chain(cipher, ZeroBlock(), BlocksOf(data, n))
    modifies cmac
    ensures IsCmac(cipher, BlocksOf(data, |data| / BLOCK), cmac[..])
  {
    ghost var before: Block := cmac[..];
    var lastInput := MixLast(data, n, cmac, subkey);
    LastBlock(cipher, data, n, before, subkey[..], lastInput);
    var status := ProcessEcb(cipher, true, lastInput, cmac);
  }

  /** All blocks but the last, which may leave none. The key has been accepted before. */
  method MacAllButLast(cipher: Cipher, data: seq<Byte>, cmac: array<Byte>)
    requires cmac.Length == BLOCK && |data| % BLOCK == 0 && |data| > 0
    modifies cmac
    ensures cmac[..] == Chain(cipher, ZeroBlock(), BlocksOf(data, |data| / BLOCK - 1))
  {
    CompleteBlocks(|data|);
    if Length2Blocks(|data|, BLOCK) > 1 {
      var status := ProcessMac(cipher, true, ZeroBlock(), data, Length2Blocks(|data| - BLOCK, BLOCK), cmac);
    } else {
      Store(cmac, ZeroBlock());
    }
  }

  /** The last block of the data, mixed with the outcome so far and the subkey. */
  method MixLast(data: seq<Byte>, n: nat, cmac: array<Byte>, subkey: array<Byte>) returns (r: Block)
    requires BLOCK * (n + 1) <= |data| && cmac.Length == BLOCK && subkey.Length == BLOCK
    ensures forall k | 0 <= k < BLOCK :: r[k] == Xor(Xor(BlockAt(data, n)[k], cmac[k]), subkey[k])
  {
    var lastInput := new Byte[BLOCK];
    for i := 0 to BLOCK
      invariant forall k | 0 <= k < i :: lastInput[k] == Xor(Xor(data[BLOCK * n + k], cmac[k]), subkey[k])
    {
      lastInput[i] := Xor(Xor(data[BLOCK * n + i], cmac[i]), subkey[i]);
    }
    r := lastInput[..];
  }

  lemma LastBlock(cipher: Cipher, data: seq<Byte>, n: nat, before: Block, k1: Block, lastInput: Block)
    requires |data| == BLOCK * (n + 1) && IsFirstSubkey(cipher, k1)
    requires before == Chain(cipher, ZeroBlock(), BlocksOf(data, n))
    requires forall k | 0 <= k < BLOCK :: lastInput[k] == Xor(Xor(BlockAt(data, n)[k], before[k]), k1[k])
    ensures |data| / BLOCK == n + 1 && IsCmac(cipher, BlocksOf(data, |data| / BLOCK), cipher(lastInput))
  {
    var message := BlocksOf(data, n + 1);
    var last := XorBlock(message[n], k1);
    assert message[..n] == BlocksOf(data, n);
    ChainJoins(cipher, ZeroBlock(), message[..n], [last]);
    assert [last][1..] == [];
    assert XorBlock(before, last) == lastInput by {
      forall k | 0 <= k < BLOCK
        ensures XorBlock(before, last)[k] == lastInput[k]
      {
        XorAround(before[k], message[n][k], k1[k]);
      }
    }
  }

  lemma XorAround(c: Byte, m: Byte, k: Byte)
    ensures Xor(c, Xor(m, k)) == Xor(Xor(m, c), k)
  {
  }
}
