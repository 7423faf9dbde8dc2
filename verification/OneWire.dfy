/** The 1-Wire ROM search (at91bootstrap/driver/ds24xx.c:84-106, 179-332, 355-378).

    A ROM is eight bytes. Its bits go over the wire least significant bit first, byte 0 first, so
    "bit k" is bit k % 8 of byte k / 8. The search walks down the tree of bits that the devices on
    the bus span, one device per call. */
module OneWire {
  import opened Crc8
  import CrcPolynomial

  type Rom = r: seq<bv8> | |r| == 8 witness [0, 0, 0, 0, 0, 0, 0, 0]

  const MAX_ITEMS := 5
  const ROM_BITS := 64

  // ----- bits -----

  predicate Bit(r: Rom, k: nat)
    requires k < ROM_BITS
  {
    HasBit(r[k / 8], k % 8)
  }

  lemma SetMask(b: bv8, i: nat, j: nat)
    requires i < 8 && j < 8
    ensures HasBit(b | Mask(i), j) <==> i == j || HasBit(b, j)
  {
  }

  lemma ClearMask(b: bv8, i: nat, j: nat)
    requires i < 8 && j < 8
    ensures HasBit(b & !Mask(i), j) <==> i != j && HasBit(b, j)
  {
  }

  lemma BytesByBits(b: bv8, c: bv8)
    requires forall i: nat | i < 8 :: HasBit(b, i) == HasBit(c, i)
    ensures b == c
  {
    assert HasBit(b, 0) == HasBit(c, 0) && HasBit(b, 1) == HasBit(c, 1) && HasBit(b, 2) == HasBit(c, 2) &&
      HasBit(b, 3) == HasBit(c, 3);
    assert HasBit(b, 4) == HasBit(c, 4) && HasBit(b, 5) == HasBit(c, 5) && HasBit(b, 6) == HasBit(c, 6) &&
      HasBit(b, 7) == HasBit(c, 7);
  }

  /** A bit set or cleared through its mask, as the search does it. */
  function PutMasked(b: bv8, mask: bv8, bit: bool): bv8 {
    if bit then b | mask else b & !mask
  }

  function PutInByte(b: bv8, i: nat, bit: bool): bv8
    requires i < 8
  {
    PutMasked(b, Mask(i), bit)
  }

  lemma PutInByteBits(b: bv8, i: nat, bit: bool, j: nat)
    requires i < 8 && j < 8
    ensures HasBit(PutInByte(b, i, bit), j) == if j == i then bit else HasBit(b, j)
  {
    SetMask(b, i, j);
    ClearMask(b, i, j);
  }

  function PutBit(r: Rom, k: nat, bit: bool): Rom
    requires k < ROM_BITS
  {
    r[k / 8 := PutInByte(r[k / 8], k % 8, bit)]
  }

  lemma SamePlace(j: nat, k: nat)
    ensures j == k <==> j / 8 == k / 8 && j % 8 == k % 8
  {
  }

  lemma PutBitBits(r: Rom, k: nat, bit: bool, j: nat)
    requires k < ROM_BITS && j < ROM_BITS
    ensures Bit(PutBit(r, k, bit), j) == if j == k then bit else Bit(r, j)
  {
    SamePlace(j, k);
    if j / 8 == k / 8 {
      PutInByteBits(r[k / 8], k % 8, bit, j % 8);
    }
  }

  /** The two agree on the first `k` bits. */
  ghost predicate Agree(r: Rom, s: Rom, k: nat)
    requires k <= ROM_BITS
  {
    forall j: nat | j < k :: Bit(r, j) == Bit(s, j)
  }

  lemma AgreeOnAllBits(r: Rom, s: Rom)
    requires Agree(r, s, ROM_BITS)
    ensures r == s
  {
    forall n | 0 <= n < 8
      ensures r[n] == s[n]
    {
      forall i: nat | i < 8
        ensures HasBit(r[n], i) == HasBit(s[n], i)
      {
        assert Bit(r, 8 * n + i) == Bit(s, 8 * n + i);
      }
      BytesByBits(r[n], s[n]);
    }
  }

  // ----- the order of the search -----

  /** At bit `k`, the first in which they differ, `r` has 0 and `s` has 1. */
  ghost predicate LessAt(r: Rom, s: Rom, k: nat)
    requires k < ROM_BITS
  {
    Agree(r, s, k) && !Bit(r, k) && Bit(s, k)
  }

  ghost predicate Less(r: Rom, s: Rom) {
    exists k: nat :: k < ROM_BITS && LessAt(r, s, k)
  }

  lemma {:induction false} FirstDifference(r: Rom, s: Rom, k: nat)
    requires k <= ROM_BITS && !Agree(r, s, k)
    ensures Less(r, s) || Less(s, r)
  {
    if Agree(r, s, k - 1) {
      assert LessAt(r, s, k - 1) || LessAt(s, r, k - 1);
    } else {
      FirstDifference(r, s, k - 1);
    }
  }

  lemma LessIsTotal(r: Rom, s: Rom)
    ensures r == s || Less(r, s) || Less(s, r)
  {
    if Agree(r, s, ROM_BITS) {
      AgreeOnAllBits(r, s);
    } else {
      FirstDifference(r, s, ROM_BITS);
    }
  }

  lemma LessIsAsymmetric(r: Rom, s: Rom)
    requires Less(r, s)
    ensures !Less(s, r) && r != s
  {
    var k: nat :| k < ROM_BITS && LessAt(r, s, k);
    forall m: nat | m < ROM_BITS
      ensures !LessAt(s, r, m)
    {
    }
  }

  lemma LessIsTransitive(r: Rom, s: Rom, t: Rom)
    requires Less(r, s) && Less(s, t)
    ensures Less(r, t)
  {
    var k: nat :| k < ROM_BITS && LessAt(r, s, k);
    var m: nat :| m < ROM_BITS && LessAt(s, t, m);
    assert LessAt(r, t, if k < m then k else m);
  }

  /** `r` takes the 0 branch at bit `k` where some device takes the 1 branch. */
  ghost predicate ZeroBranch(bus: set<Rom>, r: Rom, k: nat)
    requires k < ROM_BITS
  {
    !Bit(r, k) && exists d :: d in bus && Agree(d, r, k) && Bit(d, k)
  }

  /** `n` is the number (counted from 1) of the last zero branch of `r` among its first `k` bits,
      or 0 if there is none. */
  ghost predicate IsLastZero(bus: set<Rom>, r: Rom, k: nat, n: nat)
    requires k <= ROM_BITS
  {
    n <= k && (n > 0 ==> ZeroBranch(bus, r, n - 1)) && forall j: nat | n <= j < k :: !ZeroBranch(bus, r, j)
  }

  /** `s` is the least device on the bus. */
  ghost predicate IsFirst(bus: set<Rom>, s: Rom) {
    s in bus && forall d | d in bus && d != s :: Less(s, d)
  }

  /** `s` is the device that follows `r`. */
  ghost predicate IsNext(bus: set<Rom>, r: Rom, s: Rom) {
    s in bus && Less(r, s) && forall d | d in bus && Less(r, d) && d != s :: Less(s, d)
  }

  ghost predicate IsLast(bus: set<Rom>, s: Rom) {
    s in bus && forall d | d in bus && d != s :: Less(d, s)
  }

  /** After bit number `last`, `s` takes the 1 branch only where there is no other. */
  ghost predicate ForcedFrom(bus: set<Rom>, s: Rom, last: nat, k: nat)
    requires k <= ROM_BITS
  {
    forall j: nat, d | last <= j < k && d in bus && Agree(d, s, j) && Bit(s, j) :: Bit(d, j)
  }

  lemma ForcedIsFirst(bus: set<Rom>, s: Rom)
    requires s in bus && ForcedFrom(bus, s, 0, ROM_BITS)
    ensures IsFirst(bus, s)
  {
    forall d | d in bus && d != s
      ensures Less(s, d)
    {
      LessIsTotal(s, d);
      forall p: nat | p < ROM_BITS
        ensures !LessAt(d, s, p)
      {
      }
    }
  }

  /** Following `r` up to its last zero branch, going the other way there, and keeping to 0 after
      that leads to the device after `r`. */
  lemma BranchIsNext(bus: set<Rom>, r: Rom, last: nat, s: Rom)
    requires s in bus && 0 < last && IsLastZero(bus, r, ROM_BITS, last)
    requires Agree(s, r, last - 1) && Bit(s, last - 1) && ForcedFrom(bus, s, last, ROM_BITS)
    ensures IsNext(bus, r, s)
  {
    assert LessAt(r, s, last - 1);
    forall d | d in bus && Less(r, d) && d != s
      ensures Less(s, d)
    {
      LessIsTotal(s, d);
      forall p: nat | p < ROM_BITS
        ensures !LessAt(d, s, p)
      {
        NotBetween(bus, r, last, s, d, p);
      }
    }
  }

  lemma NotBetween(bus: set<Rom>, r: Rom, last: nat, s: Rom, d: Rom, p: nat)
    requires s in bus && d in bus && 0 < last && IsLastZero(bus, r, ROM_BITS, last)
    requires Agree(s, r, last - 1) && Bit(s, last - 1) && ForcedFrom(bus, s, last, ROM_BITS)
    requires Less(r, d) && p < ROM_BITS
    ensures !LessAt(d, s, p)
  {
    var q: nat :| q < ROM_BITS && LessAt(r, d, q);
    LessIsAsymmetric(r, d);
    if p < last - 1 {
      assert LessAt(d, s, p) == LessAt(d, r, p);
    } else if p == last - 1 {
      assert ZeroBranch(bus, r, q);
      assert q < last;
    }
  }

  lemma NoZeroBranchIsLast(bus: set<Rom>, s: Rom)
    requires s in bus && IsLastZero(bus, s, ROM_BITS, 0)
    ensures IsLast(bus, s)
  {
    forall d | d in bus && d != s
      ensures Less(d, s)
    {
      LessIsTotal(s, d);
      forall q: nat | q < ROM_BITS
        ensures !LessAt(s, d, q)
      {
        assert !ZeroBranch(bus, s, q);
      }
    }
  }

  /** What the search accepts: the checksum comes out even, and the family byte is not 0. */
  predicate Acceptable(r: Rom) {
    Crc(r) == 0 && r[0] != 0
  }

  /** It accepts a device exactly if the last byte is the checksum of the others; in other words, if its
      bits, in the order in which they come over the wire, are a multiple of the checksum's polynomial. */
  lemma AcceptableExactlyWhen(r: Rom)
    ensures Acceptable(r) <==> r[0] != 0 && r[7] == Crc(r[..7])
    ensures Acceptable(r) <==>
      r[0] != 0 && CrcPolynomial.IsMultiple(seq(ROM_BITS, k requires 0 <= k < ROM_BITS => Bit(r, k)))
  {
    CrcPolynomial.ZeroExactlyWhenMultiple(r);
    var bits := seq(ROM_BITS, k requires 0 <= k < ROM_BITS => Bit(r, k));
    forall k | 0 <= k < ROM_BITS
      ensures CrcPolynomial.MessageBits(r)[k] == bits[k]
    {
      CrcPolynomial.MessageBitsAt(r, k);
    }
    assert CrcPolynomial.MessageBits(r) == bits;
  }

  /** A device that is acceptable is not any more once one of its bytes is read wrongly. */
  lemma DamagedRomIsRejected(r: Rom, k: nat, b: bv8)
    requires Acceptable(r) && k < 8 && b != r[k]
    ensures !Acceptable(r[k := b])
  {
    OneByteIsDetected(r, k, b);
  }

  // ----- one walk down the tree -----

  /** The devices that have not dropped out after the first `k` bits of `s`. */
  ghost function Followers(bus: set<Rom>, s: Rom, k: nat): set<Rom>
    requires k <= ROM_BITS
  {
    set d | d in bus && Agree(d, s, k)
  }

  predicate AllHave(devices: set<Rom>, k: nat, bit: bool)
    requires k < ROM_BITS
  {
    forall d | d in devices :: Bit(d, k) == bit
  }

  /** The direction taken at bit `k`: the one all devices agree on; where they do not, the previous
      path up to its last zero branch, 1 there, and 0 after it. */
  ghost predicate Chosen(bus: set<Rom>, r: Rom, last: nat, s: Rom, k: nat, bit: bool)
    requires k < ROM_BITS
  {
    var devices := Followers(bus, s, k);
    if AllHave(devices, k, true) then bit
    else if AllHave(devices, k, false) then !bit
    else bit == if k + 1 < last then Bit(r, k) else k + 1 == last
  }

  /** Up to its last zero branch the walk keeps to the path of `r`, and there it takes 1. */
  ghost predicate OnPath(r: Rom, last: nat, s: Rom, k: nat)
    requires k <= ROM_BITS
  {
    last <= ROM_BITS && (last > 0 ==> Agree(s, r, if k < last then k else last - 1)) &&
    (0 < last <= k ==> Bit(s, last - 1)) &&
    (forall j: nat | k <= j < ROM_BITS :: Bit(s, j) == Bit(r, j))
  }

  /** `s` is the path of the walk after `k` bits, `r` the device found before. */
  ghost predicate Walked(bus: set<Rom>, r: Rom, last: nat, s: Rom, k: nat, lastZero: nat)
    requires k <= ROM_BITS
  {
    forall t {:trigger About(t)} | About(t) && t == s :: WalkedTo(bus, r, last, t, k, lastZero)
  }

  /** A mark: what a walk has done is looked at only for the buffers that carry it. */
  predicate About(s: Rom) {
    true
  }

  ghost predicate WalkedTo(bus: set<Rom>, r: Rom, last: nat, s: Rom, k: nat, lastZero: nat)
    requires k <= ROM_BITS
  {
    Followers(bus, s, k) != {} && IsLastZero(bus, s, k, lastZero) &&
    ForcedFrom(bus, s, last, k) && OnPath(r, last, s, k)
  }

  /** The search state a walk can start from. */
  ghost predicate Resumable(bus: set<Rom>, r: Rom, last: nat) {
    last == 0 || (last <= ROM_BITS && r in bus && IsLastZero(bus, r, ROM_BITS, last))
  }

  lemma PutKeepsPrefix(s: Rom, k: nat, bit: bool, j: nat, d: Rom)
    requires k < ROM_BITS && j <= k
    ensures Agree(d, PutBit(s, k, bit), j) == Agree(d, s, j)
  {
    var t := PutBit(s, k, bit);
    forall i: nat | i < j
      ensures Bit(t, i) == Bit(s, i)
    {
      PutBitBits(s, k, bit, i);
    }
  }

  lemma FollowersStep(bus: set<Rom>, s: Rom, k: nat, bit: bool)
    requires k < ROM_BITS
    ensures Followers(bus, PutBit(s, k, bit), k + 1) == set d | d in Followers(bus, s, k) && Bit(d, k) == bit
  {
    var t := PutBit(s, k, bit);
    PutBitBits(s, k, bit, k);
    forall d | d in bus
      ensures Agree(d, t, k + 1) <==> Agree(d, s, k) && Bit(d, k) == bit
    {
      PutKeepsPrefix(s, k, bit, k, d);
    }
  }

  lemma LastZeroStep(bus: set<Rom>, s: Rom, k: nat, bit: bool, lastZero: nat)
    requires k < ROM_BITS && IsLastZero(bus, s, k, lastZero)
    requires bit || !AllHave(Followers(bus, s, k), k, true)
    ensures IsLastZero(bus, PutBit(s, k, bit), k + 1,
      if !bit && !AllHave(Followers(bus, s, k), k, false) then k + 1 else lastZero)
  {
    var t := PutBit(s, k, bit);
    forall j: nat, d | j <= k
      ensures Bit(t, j) == (if j == k then bit else Bit(s, j)) && Agree(d, t, j) == Agree(d, s, j)
    {
      PutBitBits(s, k, bit, j);
      PutKeepsPrefix(s, k, bit, j, d);
    }
    forall j: nat | j < k
      ensures ZeroBranch(bus, t, j) == ZeroBranch(bus, s, j)
    {
      if ZeroBranch(bus, s, j) {
        var d :| d in bus && Agree(d, s, j) && Bit(d, j);
        assert Agree(d, t, j);
      }
    }
    if !bit && !AllHave(Followers(bus, s, k), k, false) {
      var d :| d in Followers(bus, s, k) && Bit(d, k);
      assert Agree(d, t, k);
    }
  }

  lemma ForcedStep(bus: set<Rom>, r: Rom, last: nat, s: Rom, k: nat, bit: bool)
    requires k < ROM_BITS && ForcedFrom(bus, s, last, k) && Chosen(bus, r, last, s, k, bit)
    ensures ForcedFrom(bus, PutBit(s, k, bit), last, k + 1)
  {
    var t := PutBit(s, k, bit);
    forall j: nat, d | last <= j < k + 1 && d in bus && Agree(d, t, j) && Bit(t, j)
      ensures Bit(d, j)
    {
      PutBitBits(s, k, bit, j);
      PutKeepsPrefix(s, k, bit, j, d);
      assert j == k ==> d in Followers(bus, s, k);
    }
  }

  /** Somebody follows in any direction that can be chosen. */
  lemma SomeoneFollows(bus: set<Rom>, r: Rom, last: nat, s: Rom, k: nat, bit: bool)
    requires k < ROM_BITS && Followers(bus, s, k) != {} && Chosen(bus, r, last, s, k, bit)
    ensures Followers(bus, PutBit(s, k, bit), k + 1) != {}
  {
    var devices := Followers(bus, s, k);
    FollowersStep(bus, s, k, bit);
    var w :| w in devices;
    if !AllHave(devices, k, !bit) {
      var d :| d in devices && Bit(d, k) == bit;
      assert d in Followers(bus, PutBit(s, k, bit), k + 1);
    }
  }

  lemma PathStep(bus: set<Rom>, r: Rom, last: nat, s: Rom, k: nat, bit: bool)
    requires k < ROM_BITS && Resumable(bus, r, last) && OnPath(r, last, s, k) && Chosen(bus, r, last, s, k, bit)
    ensures OnPath(r, last, PutBit(s, k, bit), k + 1)
  {
    var t, devices := PutBit(s, k, bit), Followers(bus, s, k);
    forall j: nat | j < ROM_BITS
      ensures Bit(t, j) == if j == k then bit else Bit(s, j)
    {
      PutBitBits(s, k, bit, j);
    }
    if k + 1 <= last {
      assert Agree(r, s, k) && r in devices;
      if k + 1 == last {
        assert ZeroBranch(bus, r, k);
        var d :| d in bus && Agree(d, r, k) && Bit(d, k);
        assert Agree(d, s, k) && d in devices;
      }
    }
  }

  lemma WalkStep(bus: set<Rom>, r: Rom, last: nat, s: Rom, k: nat, lastZero: nat, bit: bool)
    requires k < ROM_BITS && Resumable(bus, r, last) && Walked(bus, r, last, s, k, lastZero)
    requires Chosen(bus, r, last, s, k, bit)
    ensures Walked(bus, r, last, PutBit(s, k, bit), k + 1,
      if !bit && !AllHave(Followers(bus, s, k), k, false) then k + 1 else lastZero)
  {
    assert About(s);
    SomeoneFollows(bus, r, last, s, k, bit);
    LastZeroStep(bus, s, k, bit, lastZero);
    ForcedStep(bus, r, last, s, k, bit);
    PathStep(bus, r, last, s, k, bit);
  }

  lemma SomeoneIsLeft(bus: set<Rom>, r: Rom, last: nat, s: Rom, k: nat, lastZero: nat)
    requires k < ROM_BITS && Walked(bus, r, last, s, k, lastZero)
    ensures Followers(bus, s, k) != {} && Bit(s, k) == Bit(r, k)
  {
    assert About(s);
  }

  /** After the last bit one device is left: the one after `r`, or the first if there was none. */
  lemma WalkEnds(bus: set<Rom>, r: Rom, last: nat, s: Rom, lastZero: nat)
    requires Resumable(bus, r, last) && Walked(bus, r, last, s, ROM_BITS, lastZero)
    ensures s in bus && IsLastZero(bus, s, ROM_BITS, lastZero)
    ensures if last == 0 then IsFirst(bus, s) else IsNext(bus, r, s)
    ensures lastZero == 0 ==> IsLast(bus, s)
  {
    assert About(s);
    var d :| d in Followers(bus, s, ROM_BITS);
    AgreeOnAllBits(d, s);
    if last == 0 {
      ForcedIsFirst(bus, s);
    } else {
      BranchIsNext(bus, r, last, s);
    }
    if lastZero == 0 {
      NoZeroBranchIsLast(bus, s);
    }
  }

  // ----- the devices on the wire -----

  /** All devices pull the same line down, so the line is high only if every participant lets go. */
  class Bus {
    const roms: set<Rom>
    var active: set<Rom>       // still taking part in the search
    var position: nat          // which bit they are at
    var complement: bool       // whether they send the bit or its complement next

    constructor (devices: set<Rom>)
      ensures roms == devices && active == {} && position == 0
    {
      roms, active, position, complement := devices, {}, 0, false;
    }

    /** `ds24xx_reset`: answered if there is anyone. */
    method Reset() returns (presence: bool)
      modifies this
      ensures presence <==> roms != {}
    {
      active, position, complement := {}, 0, false;
      presence := roms != {};
    }

    /** The command byte ROM_COMMAND_SEARCH. */
    method Search()
      modifies this
      ensures active == roms && position == 0 && !complement
    {
      active, position, complement := roms, 0, false;
    }

    /** `ds24xx_read_bit` */
    method ReadBit() returns (high: bool)
      requires position < ROM_BITS
      modifies this`complement
      ensures high == AllHave(active, position, !old(complement))
      ensures complement == !old(complement)
    {
      high := AllHave(active, position, !complement);
      complement := !complement;
    }

    /** `ds24xx_write_bit`: devices with the other bit drop out. */
    method WriteBit(bit: bool)
      requires position < ROM_BITS
      modifies this
      ensures active == (set d | d in old(active) && Bit(d, old(position)) == bit)
      ensures position == old(position) + 1 && !complement
    {
      active := set d | d in active && Bit(d, position) == bit;
      position, complement := position + 1, false;
    }
  }

  lemma MaskShift(i: nat)
    requires i < 8
    ensures Mask(i) << 1 == if i == 7 then 0 else Mask(i + 1)
    ensures Mask(i) != 0
  {
  }

  lemma CrcStep(bytes: seq<bv8>, n: nat)
    requires n < |bytes|
    ensures Crc(bytes[..n + 1]) == DoCrc8(Crc(bytes[..n]), bytes[n])
  {
    assert bytes[..n + 1][..n] == bytes[..n];
  }

  lemma SplitPosition(n: nat, i: nat)
    requires i < 8
    ensures (8 * n + i) / 8 == n && (8 * n + i) % 8 == i
  {
  }

  // ----- the searcher -----

  class Searcher {
    const bus: Bus
    const buf: array<bv8>
    const deviceIds: array<Rom>
    var lastDiscrepancy: nat
    var lastFamilyDiscrepancy: nat
    var lastDeviceFlag: bool

    ghost predicate Valid()
      reads this, buf
    {
      buf.Length == 8 && deviceIds.Length == MAX_ITEMS &&
      Resumable(bus.roms, buf[..], lastDiscrepancy)
    }

    constructor (theBus: Bus)
      ensures Valid() && bus == theBus && fresh(buf) && fresh(deviceIds)
    {
      bus := theBus;
      buf := new bv8[8](_ => 0);
      deviceIds := new Rom[MAX_ITEMS](_ => [0, 0, 0, 0, 0, 0, 0, 0]);
      lastDiscrepancy, lastFamilyDiscrepancy, lastDeviceFlag := 0, 0, false;
    }

    method ResetSearch()
      requires buf.Length == 8 && deviceIds.Length == MAX_ITEMS
      modifies this
      ensures Valid() && lastDiscrepancy == 0 && !lastDeviceFlag
    {
      lastDiscrepancy, lastDeviceFlag, lastFamilyDiscrepancy := 0, false, 0;
    }

    /** Sets or clears one bit of the buffer. */
    method KeepBit(k: nat, mask: bv8, bit: bool)
      requires buf.Length == 8 && k < ROM_BITS && mask == Mask(k % 8)
      modifies buf
      ensures buf[..] == PutBit(old(buf[..]), k, bit)
    {
      ghost var s := buf[..];
      var n := k / 8;
      buf[n] := PutMasked(buf[n], mask, bit);
      assert buf[..] == s[n := PutMasked(s[n], mask, bit)];
    }

    /** The direction at bit `k`, given the bit and its complement as read, and whether 0 was taken
        where 1 was possible. */
    method Choose(k: nat, mask: bv8, idBit: bool, cmpIdBit: bool, ghost r: Rom) returns (direction: bool, zero: bool)
      requires buf.Length == 8 && k < ROM_BITS && mask == Mask(k % 8)
      requires idBit == AllHave(Followers(bus.roms, buf[..], k), k, true)
      requires cmpIdBit == AllHave(Followers(bus.roms, buf[..], k), k, false)
      requires !(idBit && cmpIdBit) && Bit(buf[..], k) == Bit(r, k)
      ensures Chosen(bus.roms, r, lastDiscrepancy, buf[..], k, direction)
      ensures zero <==> !direction && !cmpIdBit
    {
      zero := false;
      if idBit != cmpIdBit {
        direction := idBit;
      } else {
        if k + 1 < lastDiscrepancy {
          direction := buf[k / 8] & mask > 0;
          assert direction == HasBit(buf[..][k / 8], k % 8);
        } else {
          direction := k + 1 == lastDiscrepancy;
        }
        zero := !direction;
      }
    }

    /** The bit and its complement: both are 1 only if nobody answers. */
    method ReadBoth() returns (idBit: bool, cmpIdBit: bool)
      requires bus.position < ROM_BITS && !bus.complement && bus.active != {}
      modifies bus`complement
      ensures idBit == AllHave(bus.active, bus.position, true) && cmpIdBit == AllHave(bus.active, bus.position, false)
      ensures !(idBit && cmpIdBit) && !bus.complement
    {
      ghost var d :| d in bus.active;
      idBit := bus.ReadBit();
      cmpIdBit := bus.ReadBit();
    }

    /** One bit of the walk: read the bit and its complement, choose, note a zero branch, keep the
        bit in the buffer, and tell the devices. */
    method Step(k: nat, mask: bv8, lastZero: nat, ghost r: Rom, ghost n: nat, ghost i: nat)
      returns (lastZero': nat, noDevice: bool)
      requires buf.Length == 8
      requires n < 8 && Place(n, i, k, mask) && bus.position == k && !bus.complement
      requires Resumable(bus.roms, r, lastDiscrepancy) && Walked(bus.roms, r, lastDiscrepancy, buf[..], k, lastZero)
      requires bus.active == Followers(bus.roms, buf[..], k)
      modifies this`lastFamilyDiscrepancy, buf, bus
      ensures !noDevice && bus.position == k + 1 && !bus.complement
      ensures Walked(bus.roms, r, lastDiscrepancy, buf[..], k + 1, lastZero')
      ensures bus.active == Followers(bus.roms, buf[..], k + 1)
      ensures buf[..n] == old(buf[..n])
    {
      ghost var s := buf[..];
      SomeoneIsLeft(bus.roms, r, lastDiscrepancy, s, k, lastZero);
      SplitPosition(n, i);
      lastZero' := lastZero;
      var idBit, cmpIdBit := ReadBoth();
      noDevice := idBit && cmpIdBit;
      var direction, zero := Choose(k, mask, idBit, cmpIdBit, r);
      if zero {
        lastZero' := k + 1;
        if lastZero' < 9 {
          lastFamilyDiscrepancy := lastZero';
        }
      }
      WalkStep(bus.roms, r, lastDiscrepancy, s, k, lastZero, direction);
      FollowersStep(bus.roms, s, k, direction);
      KeepBit(k, mask, direction);
      assert buf[..] == PutBit(s, k, direction) && buf[..n] == buf[..][..n] == s[..n];
      bus.WriteBit(direction);
    }

    /** The next mask, and at the end of a byte the next byte and its share of the checksum. */
    method Advance(romByteNumber: nat, romByteMask: bv8, crc8: bv8, ghost i: nat, ghost k: nat)
      returns (number: nat, mask: bv8, crc: bv8, ghost i': nat)
      requires buf.Length == 8 && romByteNumber < 8 && Place(romByteNumber, i, k, romByteMask)
      requires crc8 == Crc(buf[..romByteNumber])
      ensures Place(number, i', k + 1, mask) && crc == Crc(buf[..number])
    {
      MaskShift(i);
      number, mask, crc, i' := romByteNumber, romByteMask << 1, crc8, if i == 7 then 0 else i + 1;
      if mask == 0 {
        CrcStep(buf[..], romByteNumber);
        assert buf[..][..romByteNumber] == buf[..romByteNumber] &&
          buf[..][..romByteNumber + 1] == buf[..romByteNumber + 1];
        crc := DoCrc8(crc8, buf[romByteNumber]);
        number, mask := romByteNumber + 1, 1;
      }
    }

    /** Bit `k` is bit `i` of byte `n`; all bytes are done at 64. */
    static predicate Place(n: nat, i: nat, k: nat, mask: bv8) {
      n <= 8 && i < 8 && k == 8 * n + i && (n == 8 ==> i == 0) && mask == Mask(i)
    }

    /** The walk stands before bit `i` of byte `n`. */
    ghost predicate AtBit(r: Rom, n: nat, i: nat, number: nat, mask: bv8, lastZero: nat, crc8: bv8)
      reads this, buf, bus
    {
      buf.Length == 8 && Resumable(bus.roms, r, lastDiscrepancy) &&
      number > 0 && Place(n, i, number - 1, mask) && bus.position == number - 1 && !bus.complement &&
      Walked(bus.roms, r, lastDiscrepancy, buf[..], number - 1, lastZero) &&
      bus.active == Followers(bus.roms, buf[..], number - 1) &&
      crc8 == Crc(buf[..n])
    }

    /** The loop body. */
    method Round(n: nat, number: nat, mask: bv8, lastZero: nat, crc8: bv8, ghost r: Rom, ghost i: nat)
      returns (n': nat, number': nat, mask': bv8, lastZero': nat, crc8': bv8, noDevice: bool, ghost i': nat)
      requires AtBit(r, n, i, number, mask, lastZero, crc8) && n < 8
      modifies this`lastFamilyDiscrepancy, buf, bus
      ensures !noDevice && number' == number + 1
      ensures AtBit(r, n', i', number', mask', lastZero', crc8')
    {
      lastZero', noDevice := Step(number - 1, mask, lastZero, r, n, i);
      n', number', mask', crc8', i' := n, number + 1, mask, crc8, i;
      if !noDevice {
        n', mask', crc8', i' := Advance(n, mask, crc8, i, number - 1);
      }
    }

    /** The loop over the 64 bits. */
    method Walk(ghost r: Rom) returns (idBitNumber: nat, lastZero: nat, crc8: bv8)
      requires buf.Length == 8 && bus.position == 0 && !bus.complement
      requires buf[..] == r && Resumable(bus.roms, r, lastDiscrepancy) && bus.active == bus.roms != {}
      modifies this`lastFamilyDiscrepancy, buf, bus
      ensures Walked(bus.roms, r, lastDiscrepancy, buf[..], ROM_BITS, lastZero)
      ensures idBitNumber == 65 && crc8 == Crc(buf[..])
    {
      var romByteNumber, romByteMask: bv8 := 0, 1;
      idBitNumber, lastZero, crc8 := 1, 0, 0;
      ghost var i: nat := 0;
      assert Followers(bus.roms, r, 0) == bus.roms;
      while romByteNumber < 8
        invariant AtBit(r, romByteNumber, i, idBitNumber, romByteMask, lastZero, crc8)
        decreases ROM_BITS + 1 - idBitNumber
      {
        var noDevice;
        romByteNumber, idBitNumber, romByteMask, lastZero, crc8, noDevice, i :=
          Round(romByteNumber, idBitNumber, romByteMask, lastZero, crc8, r, i);
        if noDevice {
          break;
        }
      }
      assert buf[..8] == buf[..];
    }

    /** `ds24xx_search_rom`: moves on to the next device, or to the first if the search state has
        been reset. It reports success only for a device with a right checksum and a family byte,
        and otherwise resets the search state. */
    method SearchRom() returns (found: bool)
      requires Valid()
      modifies this, buf, bus
      ensures Valid()
      ensures found ==> !old(lastDeviceFlag) && Acceptable(buf[..])
      ensures !old(lastDeviceFlag) && bus.roms != {} ==>
        (if old(lastDiscrepancy) == 0 then IsFirst(bus.roms, buf[..]) else IsNext(bus.roms, old(buf[..]), buf[..])) &&
        (found <==> Acceptable(buf[..]))
      ensures old(lastDeviceFlag) || bus.roms == {} ==> !found
      ensures found ==> IsLastZero(bus.roms, buf[..], ROM_BITS, lastDiscrepancy)
      ensures found ==> (lastDeviceFlag <==> lastDiscrepancy == 0) && (lastDeviceFlag ==> IsLast(bus.roms, buf[..]))
      ensures !found ==> lastDiscrepancy == 0 && !lastDeviceFlag
    {
      var idBitNumber, lastZero, crc8: bv8 := 1, 0, 0;
      found := false;
      if !lastDeviceFlag {
        var presence := bus.Reset();
        if !presence {
          ResetSearch();
          return false;
        }
        bus.Search();
        ghost var r: Rom := buf[..];
        ghost var last := lastDiscrepancy;
        idBitNumber, lastZero, crc8 := Walk(r);
        WalkEnds(bus.roms, r, last, buf[..], lastZero);
        if !(idBitNumber < 65 || crc8 != 0) {
          lastDiscrepancy := lastZero;
          if lastDiscrepancy == 0 {
            lastDeviceFlag := true;
          }
          found := true;
        }
      }
      if !found || buf[0] == 0 {
        ResetSearch();
        found := false;
      }
    }

    /** `ds24xx_find_first` */
    method FindFirst() returns (found: bool)
      requires Valid()
      modifies this, buf, bus
      ensures Valid()
      ensures bus.roms == {} ==> !found
      ensures bus.roms != {} ==> IsFirst(bus.roms, buf[..]) && (found <==> Acceptable(buf[..]))
      ensures found ==> AtDevice()
    {
      lastDiscrepancy, lastDeviceFlag, lastFamilyDiscrepancy := 0, false, 0;
      found := SearchRom();
    }

    /** The search state after a device has been found. */
    ghost predicate AtDevice()
      reads this, buf
    {
      Valid() && buf[..] in bus.roms && IsLastZero(bus.roms, buf[..], ROM_BITS, lastDiscrepancy) &&
      (lastDeviceFlag <==> lastDiscrepancy == 0) && (lastDeviceFlag ==> IsLast(bus.roms, buf[..]))
    }

    /** `ds24xx_find_next` */
    method FindNext() returns (found: bool)
      requires AtDevice()
      modifies this, buf, bus
      ensures Valid() && (found ==> AtDevice())
      ensures if IsLast(bus.roms, old(buf[..])) then !found
        else IsNext(bus.roms, old(buf[..]), buf[..]) && (found <==> Acceptable(buf[..]))
    {
      ghost var r := buf[..];
      ghost var flag := lastDeviceFlag;
      found := SearchRom();
      if !flag {
        LastHasNoNext(bus.roms, r, buf[..]);
      }
    }

    /** Where the enumeration stands: `result` is whether there is a device still to be listed. */
    ghost predicate Progress(list: seq<Rom>, result: bool)
      reads this, buf
    {
      Valid() && Ascending(list) &&
      if result then AtDevice() && Acceptable(buf[..]) && ListsBelow(bus.roms, list, buf[..])
      else ListsReached(bus.roms, list)
    }

    /** Before anything is listed. */
    method Begin() returns (result: bool)
      requires Valid()
      modifies this, buf, bus
      ensures Progress([], result)
    {
      result := FindFirst();
      if bus.roms != {} {
        FirstHasNoneBelow(bus.roms, buf[..]);
        if !result {
          StoppedHere(bus.roms, [], buf[..]);
        }
      }
    }

    /** After `buf` has been listed, look for the next. */
    method Continue(ghost list: seq<Rom>) returns (result: bool)
      requires Progress(list, true)
      modifies this, buf, bus
      ensures Progress(list + [old(buf[..])], result)
    {
      ghost var r := buf[..];
      AscendingExtends(bus.roms, list, r);
      result := FindNext();
      if IsLast(bus.roms, r) {
        FinishedHere(bus.roms, list, r);
      } else {
        ListsBelowNext(bus.roms, list, r, buf[..]);
        if !result {
          StoppedHere(bus.roms, list + [r], buf[..]);
        }
      }
    }

    /** `enumerate_all_rom`: the devices in ascending order, up to the first that the search does not
        accept. The array has room for MAX_ITEMS of them. */
    method EnumerateAllRom() returns (cnt: nat)
      requires Valid() && |Listable(bus.roms)| <= MAX_ITEMS
      modifies this, buf, bus, deviceIds
      ensures cnt == |Listable(bus.roms)| && Ascending(deviceIds[..cnt])
      ensures ListsReached(bus.roms, deviceIds[..cnt])
      ensures ListsOnce(deviceIds[..cnt])
    {
      cnt := 0;
      var result := Begin();
      assert deviceIds[..0] == [];
      while result
        invariant cnt <= |Listable(bus.roms)| && Progress(deviceIds[..cnt], result)
        decreases |Listable(bus.roms)| - cnt, result
      {
        ghost var list := deviceIds[..cnt];
        RoomForOneMore(bus.roms, list, buf[..]);
        deviceIds[cnt] := buf[..];
        assert deviceIds[..cnt + 1] == list + [buf[..]];
        result := Continue(list);
        cnt := cnt + 1;
      }
      ListIsComplete(bus.roms, deviceIds[..cnt]);
    }
  }

  ghost function Listable(bus: set<Rom>): set<Rom> {
    set d | d in bus && Reached(bus, d)
  }

  /** The list holds exactly the devices that the search gets to. */
  ghost predicate ListsReached(bus: set<Rom>, list: seq<Rom>) {
    forall d :: d in list <==> d in bus && Reached(bus, d)
  }

  lemma FirstHasNoneBelow(bus: set<Rom>, s: Rom)
    requires IsFirst(bus, s)
    ensures ListsBelow(bus, [], s)
  {
    forall d | d in bus
      ensures !Less(d, s)
    {
      if d == s {
        forall k: nat | k < ROM_BITS
          ensures !LessAt(d, s, k)
        {
        }
      } else {
        LessIsAsymmetric(s, d);
      }
    }
  }

  ghost predicate Ascending(list: seq<Rom>) {
    forall i, j | 0 <= i < j < |list| :: Less(list[i], list[j])
  }

  /** The search gets as far as `d`: everything up to it is acceptable. */
  ghost predicate Reached(bus: set<Rom>, d: Rom) {
    forall e | e in bus && (e == d || Less(e, d)) :: Acceptable(e)
  }

  /** The list holds exactly the devices below `r`, and they were accepted. */
  ghost predicate ListsBelow(bus: set<Rom>, list: seq<Rom>, r: Rom) {
    (forall d :: d in list <==> d in bus && Less(d, r)) && forall d | d in list :: Acceptable(d)
  }

  lemma LastHasNoNext(bus: set<Rom>, r: Rom, s: Rom)
    requires s in bus && Less(r, s)
    ensures !IsLast(bus, r)
  {
    LessIsAsymmetric(r, s);
  }

  lemma AscendingExtends(bus: set<Rom>, list: seq<Rom>, r: Rom)
    requires Ascending(list) && ListsBelow(bus, list, r)
    ensures Ascending(list + [r])
  {
    forall i | 0 <= i < |list|
      ensures Less(list[i], r)
    {
      assert list[i] in list;
    }
  }

  lemma {:induction false} AscendingIsShort(bus: set<Rom>, list: seq<Rom>)
    requires Ascending(list) && forall d | d in list :: d in bus
    ensures |list| <= |bus|
  {
    if list != [] {
      var r := list[|list| - 1];
      forall d | d in list[..|list| - 1]
        ensures d in bus - {r}
      {
        LessIsAsymmetric(d, r);
      }
      AscendingIsShort(bus - {r}, list[..|list| - 1]);
    }
  }

  lemma {:induction false} AscendingCovers(devices: set<Rom>, list: seq<Rom>)
    requires Ascending(list) && forall d :: d in list <==> d in devices
    ensures |list| == |devices|
  {
    if list != [] {
      var r, rest := list[|list| - 1], list[..|list| - 1];
      forall d
        ensures d in rest <==> d in devices - {r}
      {
        if d in rest {
          LessIsAsymmetric(d, r);
        }
      }
      AscendingCovers(devices - {r}, rest);
    } else {
      assert devices == {};
    }
  }

  lemma ListIsComplete(bus: set<Rom>, list: seq<Rom>)
    requires Ascending(list) && ListsReached(bus, list)
    ensures |list| == |Listable(bus)| && ListsOnce(list)
  {
    AscendingCovers(Listable(bus), list);
    AscendingListsOnce(list);
  }

  lemma RoomForOneMore(bus: set<Rom>, list: seq<Rom>, r: Rom)
    requires Ascending(list) && ListsBelow(bus, list, r) && r in bus && Acceptable(r)
    ensures |list| < |Listable(bus)|
  {
    AscendingExtends(bus, list, r);
    forall d, e | d in list + [r] && e in bus && (e == d || Less(e, d))
      ensures Acceptable(e)
    {
      if d != r && e != d {
        LessIsTransitive(e, d, r);
      }
    }
    AscendingIsShort(Listable(bus), list + [r]);
  }

  lemma ListsBelowNext(bus: set<Rom>, list: seq<Rom>, r: Rom, s: Rom)
    requires ListsBelow(bus, list, r) && r in bus && Acceptable(r) && IsNext(bus, r, s)
    ensures ListsBelow(bus, list + [r], s)
  {
    forall d
      ensures d in list + [r] <==> d in bus && Less(d, s)
    {
      if d in list {
        LessIsTransitive(d, r, s);
      } else if d in bus && Less(d, s) {
        LessIsTotal(d, r);
        LessIsAsymmetric(d, s);
      }
    }
  }

  lemma FinishedHere(bus: set<Rom>, list: seq<Rom>, r: Rom)
    requires ListsBelow(bus, list, r) && IsLast(bus, r) && Acceptable(r)
    ensures ListsReached(bus, list + [r])
  {
    forall d | d in bus
      ensures d in list + [r] && Acceptable(d)
    {
      assert d == r || Less(d, r);
    }
  }

  lemma StoppedHere(bus: set<Rom>, list: seq<Rom>, s: Rom)
    requires s in bus && !Acceptable(s) && (forall d | d in list :: Acceptable(d))
    requires forall d :: d in list <==> d in bus && Less(d, s)
    ensures ListsReached(bus, list)
  {
    forall d
      ensures d in list <==> d in bus && Reached(bus, d)
    {
      if d in list {
        forall e | e in bus && (e == d || Less(e, d))
          ensures Acceptable(e)
        {
          if e != d {
            LessIsTransitive(e, d, s);
          }
          assert e in list;
        }
      } else if d in bus {
        LessIsTotal(d, s);
        assert s == d || Less(s, d);
      }
    }
  }

  /** Everything on the bus is listed just when the search accepts everything on the bus. */
  lemma AllListedExactlyWhen(bus: set<Rom>, list: seq<Rom>)
    requires ListsReached(bus, list)
    ensures (forall d | d in bus :: d in list) <==> (forall d | d in bus :: Acceptable(d))
  {
    if forall d | d in bus :: d in list {
      forall d | d in bus
        ensures Acceptable(d)
      {
        assert d in list && Reached(bus, d);
      }
    }
  }

  ghost predicate ListsOnce(list: seq<Rom>) {
    forall i, j | 0 <= i < j < |list| :: list[i] != list[j]
  }

  lemma AscendingListsOnce(list: seq<Rom>)
    requires Ascending(list)
    ensures ListsOnce(list)
  {
    forall i, j | 0 <= i < j < |list|
      ensures list[i] != list[j]
    {
      LessIsAsymmetric(list[i], list[j]);
    }
  }
}
