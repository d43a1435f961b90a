/** The 32-bit address arithmetic of the LAN parameter check. */
module LanCheck {
  import opened Bits

  /** A 32-bit address in host order. */
  type Address = a: nat | a < 0x1_0000_0000

  datatype Verdict =
    | Valid | EmptyBlob
    | InvalidIp | InvalidMac | StaticIpNotInLanRange
    | GatewayInvalid | RangeInvalid | NetmaskInvalid | LeaseTimeInvalid

  /** Dhcpv4_Lan_Ip_ispublic_addr: the private blocks of section 3 of RFC 1918. */
  predicate IsPublic(addr: Address) {
    !(0x0A000000 <= addr <= 0x0AFFFFFF) &&
    !(0xAC100000 <= addr <= 0xAC1FFFFF) &&
    !(0xC0A80000 <= addr <= 0xC0A8FFFF)
  }

  /** Dhcpv4_Lan_CheckIsValidLeaseTime */
  predicate IsLeaseTime(t: nat) {
    t % 604800 == 0 || t % 86400 == 0 || t % 3600 == 0 || t % 60 == 0 || 120 <= t <= 999 || t == 0xFFFFFFFF
  }

  lemma WordSize()
    ensures Pow2(32) == 0x1_0000_0000
  {
    assert Pow2(8) == 256;
    assert Pow2(16) == 256 * 256;
    assert Pow2(24) == 256 * 256 * 256;
  }

  function Complement(x: Address): Address {
    0xFFFFFFFF - x
  }

  function Network(gw: Address, mask: Address): Address { And(gw, mask) }

  function Broadcast(gw: Address, mask: Address): nat { Or(And(gw, mask), Complement(mask)) }

  /** Dhcpv4_Lan_CheckIpIsValidUnicast */
  predicate IsUnicast(gw: Address, mask: Address, ip: Address) {
    if ip == 0 || ip >= 0xE0000000 || And(ip, 0xFF000000) == 0x7F000000 then false
    else !(ip <= Network(gw, mask) || ip >= Broadcast(gw, mask) || ip == gw)
  }

  /** The numeric part of Get_LanParameters_ValidityCheckStatus, in the order of its tests. */
  function CheckNumbers(gw: Address, mask: Address, lo: Address, hi: Address, lease: nat): Verdict {
    if lo > hi then RangeInvalid
    else if IsPublic(gw) then GatewayInvalid
    else if And(gw, 0xFF) != 1 then GatewayInvalid
    else if mask == 0 || mask == 0xFFFFFFFF then NetmaskInvalid
    else if !IsUnicast(gw, mask, lo) || !IsUnicast(gw, mask, hi) then RangeInvalid
    else if !IsLeaseTime(lease) then LeaseTimeInvalid
    else Valid
  }

  /** lo .. hi is a pool that some request with this gateway and mask may set. */
  ghost predicate Accepted(gw: Address, mask: Address, lo: Address, hi: Address) {
    exists lease: nat :: CheckNumbers(gw, mask, lo, hi, lease) == Valid
  }

  // ---------------------------------------------------------------- masks

  /** n bits: ones followed by k zeros. */
  predicate OnesThenZeros(n: nat, mask: nat, k: nat) {
    k <= n && mask == Pow2(n) - Pow2(k)
  }

  ghost predicate Contiguous(n: nat, mask: nat) {
    exists k: nat :: OnesThenZeros(n, mask, k)
  }

  predicate InNetwork(gw: nat, mask: nat, a: nat) {
    And(a, mask) == And(gw, mask)
  }

  predicate InRange(n: nat, gw: nat, mask: nat, a: nat)
    requires mask < Pow2(n)
  {
    And(gw, mask) <= a <= And(gw, mask) + Not(n, mask)
  }

  lemma HalfMask(n: nat, mask: nat, k: nat)
    requires OnesThenZeros(n, mask, k) && k > 0
    ensures mask == 2 * (mask / 2) && OnesThenZeros(n - 1, mask / 2, k - 1)
  {
    assert mask == 2 * (Pow2(n - 1) - Pow2(k - 1));
  }

  lemma AndEven(x: nat, y: nat)
    ensures And(x, 2 * y) == 2 * And(x / 2, y)
  {
    hide And;
    assert (2 * y) / 2 == y && (2 * y) % 2 == 0;
    AndStep(x, 2 * y);
  }

  lemma AndZero(x: nat)
    ensures And(x, 0) == 0
  {
  }

  /** The last k bits and the others make up the number. */
  lemma {:induction false} AndSplits(n: nat, mask: nat, k: nat, x: nat)
    requires OnesThenZeros(n, mask, k) && x < Pow2(n)
    ensures And(x, Pow2(k) - 1) + And(x, mask) == x
    decreases k
  {
    hide And;
    if k == 0 {
      AndOnes(n, x);
      AndZero(x);
    } else {
      HalfMask(n, mask, k);
      AndStep(x, Pow2(k) - 1);
      AndStep(x, mask);
      assert (Pow2(k) - 1) / 2 == Pow2(k - 1) - 1;
      AndSplits(n - 1, mask / 2, k - 1, x / 2);
    }
  }

  lemma EvenHasNoLowBit(x: nat, y: nat)
    ensures And(2 * x, 2 * y + 1) == 2 * And(x, y)
  {
    AndStep(2 * x, 2 * y + 1);
  }

  lemma AlignedStep(c: nat, p: nat)
    requires p > 0
    ensures And(c * (2 * p), 2 * p - 1) == 2 * And(c * p, p - 1)
  {
    hide And;
    EvenHasNoLowBit(c * p, p - 1);
    assert c * (2 * p) == 2 * (c * p);
  }

  lemma {:induction false} AlignedHasNoLowBits(k: nat, c: nat)
    ensures And(c * Pow2(k), Pow2(k) - 1) == 0
  {
    hide And;
    if k == 0 {
      AndZero(c * Pow2(0));
    } else {
      AlignedStep(c, Pow2(k - 1));
      AlignedHasNoLowBits(k - 1, c);
    }
  }

  /** A multiple of 2^k is its own network under a mask of n - k ones. */
  lemma Aligned(n: nat, mask: nat, k: nat, c: nat)
    requires OnesThenZeros(n, mask, k) && c * Pow2(k) < Pow2(n)
    ensures And(c * Pow2(k), mask) == c * Pow2(k)
  {
    AlignedHasNoLowBits(k, c);
    AndSplits(n, mask, k, c * Pow2(k));
  }

  lemma HalfRange(n: nat, gw: nat, mask: nat, a: nat)
    requires n > 0 && mask < Pow2(n) && mask == 2 * (mask / 2)
    ensures InNetwork(gw, mask, a) <==> InNetwork(gw / 2, mask / 2, a / 2)
    ensures InRange(n, gw, mask, a) <==> InRange(n - 1, gw / 2, mask / 2, a / 2)
  {
    AndEven(gw, mask / 2);
    AndEven(a, mask / 2);
    assert Not(n, mask) == 2 * Not(n - 1, mask / 2) + 1;
  }

  /** A contiguous mask: the network is exactly the range from its base to its broadcast. */
  lemma {:induction false} ContiguousRange(n: nat, gw: nat, mask: nat, k: nat, a: nat)
    requires gw < Pow2(n) && mask < Pow2(n) && a < Pow2(n) && OnesThenZeros(n, mask, k)
    ensures InRange(n, gw, mask, a) <==> InNetwork(gw, mask, a)
    decreases k
  {
    if k == 0 {
      AndOnes(n, gw);
      AndOnes(n, a);
    } else {
      HalfMask(n, mask, k);
      HalfRange(n, gw, mask, a);
      ContiguousRange(n - 1, gw / 2, mask / 2, k - 1, a / 2);
    }
  }

  lemma DoubledContiguous(n: nat, mask: nat)
    requires n > 0 && mask % 2 == 0 && Contiguous(n - 1, mask / 2)
    ensures Contiguous(n, mask)
  {
    var k: nat :| OnesThenZeros(n - 1, mask / 2, k);
    assert OnesThenZeros(n, mask, k + 1);
  }

  /** A mask with a gap: some address of the range is in another network. */
  lemma {:induction false} GapLeaks(n: nat, gw: nat, mask: nat) returns (a: nat)
    requires gw < Pow2(n) && mask < Pow2(n) && !Contiguous(n, mask)
    ensures a < Pow2(n) && InRange(n, gw, mask, a) && !InNetwork(gw, mask, a)
    decreases n
  {
    assert !OnesThenZeros(n, mask, 0) && !OnesThenZeros(n, mask, n);
    if mask % 2 == 1 {
      a := And(gw, mask) + 1;
      AndStep(gw, mask);
      AndStep(a, mask);
      AndBelow(n, gw, mask);
    } else {
      if Contiguous(n - 1, mask / 2) {
        DoubledContiguous(n, mask);
      }
      var b := GapLeaks(n - 1, gw / 2, mask / 2);
      a := 2 * b;
      AndStep(gw, mask);
      AndStep(a, mask);
    }
  }

  /** The broadcast address is an n-bit number. */
  lemma {:induction false} AndBelow(n: nat, gw: nat, mask: nat)
    requires mask < Pow2(n)
    ensures And(gw, mask) + Not(n, mask) < Pow2(n)
  {
    assert And(gw, mask) <= mask;
  }

  lemma BroadcastIs(gw: Address, mask: Address)
    ensures Broadcast(gw, mask) == Network(gw, mask) + Complement(mask) <= 0xFFFFFFFF
  {
    WordSize();
    OrComplement(32, gw, mask);
  }

  /** The addresses from network to broadcast are the gateway's network if and only if the
      mask is contiguous; the validation does not ask for that. */
  lemma RangeIsNetworkIff(gw: Address, mask: Address)
    ensures Contiguous(32, mask) <==>
      forall a: Address :: Network(gw, mask) <= a <= Broadcast(gw, mask) ==> InNetwork(gw, mask, a)
  {
    WordSize();
    BroadcastIs(gw, mask);
    if Contiguous(32, mask) {
      var k: nat :| OnesThenZeros(32, mask, k);
      forall a: Address | Network(gw, mask) <= a <= Broadcast(gw, mask) ensures InNetwork(gw, mask, a) {
        ContiguousRange(32, gw, mask, k, a);
      }
    } else {
      var a := GapLeaks(32, gw, mask);
    }
  }

  /** Every address of an accepted pool is strictly between the network and the broadcast
      address, and in the gateway's network when the mask is contiguous. */
  lemma AcceptedPool(gw: Address, mask: Address, lo: Address, hi: Address, a: Address)
    requires Accepted(gw, mask, lo, hi) && lo <= a <= hi
    ensures Network(gw, mask) < a < Broadcast(gw, mask)
    ensures Contiguous(32, mask) ==> InNetwork(gw, mask, a)
  {
    if Contiguous(32, mask) {
      RangeIsNetworkIff(gw, mask);
    }
  }

  // ---------------------------------------------------------------- the private block

  /** The mask of the private block of an address. */
  function BlockMask(gw: Address): Address
    requires !IsPublic(gw)
  {
    if gw <= 0x0AFFFFFF then 0xFF000000 else if gw <= 0xAC1FFFFF then 0xFFF00000 else 0xFFFF0000
  }

  function BlockBase(gw: Address): Address
    requires !IsPublic(gw)
  {
    if gw <= 0x0AFFFFFF then 0x0A000000 else if gw <= 0xAC1FFFFF then 0xAC100000 else 0xC0A80000
  }

  function BlockBits(gw: Address): nat
    requires !IsPublic(gw)
  {
    if gw <= 0x0AFFFFFF then 24 else if gw <= 0xAC1FFFFF then 20 else 16
  }

  lemma BlockMaskIs(gw: Address)
    requires !IsPublic(gw)
    ensures OnesThenZeros(32, BlockMask(gw), BlockBits(gw))
    ensures BlockBase(gw) == BlockBase(gw) / Pow2(BlockBits(gw)) * Pow2(BlockBits(gw))
    ensures BlockBase(gw) <= gw < BlockBase(gw) + Pow2(BlockBits(gw))
  {
    WordSize();
    assert Pow2(16) == 0x10000 && Pow2(20) == 0x100000 && Pow2(24) == 0x1000000 by {
      assert Pow2(8) == 256;
      assert Pow2(16) == 256 * 256;
      assert Pow2(20) == 256 * 256 * 16;
    }
  }

  /** Two addresses with the same bits under a covered mask. */
  lemma CoveredMask(a: nat, gw: nat, mask: nat, block: nat)
    requires And(mask, block) == block && InNetwork(gw, mask, a)
    ensures InNetwork(gw, block, a)
  {
    AndAssociates(a, mask, block);
    AndAssociates(gw, mask, block);
  }

  /** The broadcast address is in the network, whatever the mask. */
  lemma {:induction false} BroadcastInNetwork(n: nat, gw: nat, mask: nat)
    requires mask < Pow2(n)
    ensures InNetwork(gw, mask, And(gw, mask) + Not(n, mask))
  {
    if mask != 0 {
      var b := And(gw, mask) + Not(n, mask);
      AndStep(gw, mask);
      assert b / 2 == And(gw / 2, mask / 2) + Not(n - 1, mask / 2);
      BroadcastInNetwork(n - 1, gw / 2, mask / 2);
    }
  }

  /** Block masks select ranges: both directions. */
  lemma BlockRange(base: Address, mask: Address, k: nat, a: Address)
    requires OnesThenZeros(32, mask, k) && And(base, mask) == base
    ensures base <= a < base + Pow2(k) <==> And(a, mask) == base
  {
    WordSize();
    ContiguousRange(32, base, mask, k, a);
  }

  lemma InBlock(gw: Address, a: Address)
    requires !IsPublic(gw)
    ensures And(a, BlockMask(gw)) == And(gw, BlockMask(gw)) <==> BlockBase(gw) <= a < BlockBase(gw) + Pow2(BlockBits(gw))
  {
    BlockMaskIs(gw);
    Aligned(32, BlockMask(gw), BlockBits(gw), BlockBase(gw) / Pow2(BlockBits(gw)));
    BlockRange(BlockBase(gw), BlockMask(gw), BlockBits(gw), a);
    BlockRange(BlockBase(gw), BlockMask(gw), BlockBits(gw), gw);
  }

  /** A mask that covers the gateway's private block: every pool address is private. */
  lemma CoveredPoolIsPrivate(gw: Address, mask: Address, lo: Address, hi: Address, a: Address)
    requires Accepted(gw, mask, lo, hi) && lo <= a <= hi
    requires And(mask, BlockMask(gw)) == BlockMask(gw)
    ensures !IsPublic(a)
  {
    WordSize();
    BroadcastIs(gw, mask);
    AcceptedPool(gw, mask, lo, hi, a);
    AndIdempotent(gw, mask);
    CoveredMask(Network(gw, mask), gw, mask, BlockMask(gw));
    BroadcastInNetwork(32, gw, mask);
    CoveredMask(Broadcast(gw, mask), gw, mask, BlockMask(gw));
    InBlock(gw, Network(gw, mask));
    InBlock(gw, Broadcast(gw, mask));
    BlockMaskIs(gw);
  }

  /** Loopback addresses are 127.x.x.x. */
  lemma LoopbackIs(a: Address)
    ensures And(a, 0xFF000000) == 0x7F000000 <==> 0x7F000000 <= a <= 0x7FFFFFFF
  {
    BlockMaskIs(0x0A000000);
    assert Pow2(24) == 0x1000000;
    Aligned(32, 0xFF000000, 24, 127);
    BlockRange(0x7F000000, 0xFF000000, 24, a);
  }

  lemma SameHalves(x: nat, z: nat, y: nat)
    requires And(x, y) == And(z, y)
    ensures And(x / 2, y / 2) == And(z / 2, y / 2)
    ensures y % 2 == 1 ==> x % 2 == z % 2
  {
    AndStep(x, y);
    AndStep(z, y);
  }

  lemma EndHalves(n: nat, gw: nat, mask: nat)
    requires n > 0 && mask < Pow2(n)
    ensures And(gw, mask) / 2 == And(gw / 2, mask / 2)
    ensures (And(gw, mask) + Not(n, mask)) / 2 == And(gw / 2, mask / 2) + Not(n - 1, mask / 2)
    ensures mask % 2 == 0 ==> And(gw, mask) % 2 == 0 && (And(gw, mask) + Not(n, mask)) % 2 == 1
  {
    AndStep(gw, mask);
  }

  /** Network and broadcast address both in the block: then the mask covers the block's mask.
      Where it had a zero, the network address has a zero and the broadcast address a one. */
  lemma {:induction false} EndsInBlock(n: nat, gw: nat, mask: nat, block: nat)
    requires mask < Pow2(n) && block < Pow2(n)
    requires And(And(gw, mask), block) == And(gw, block)
    requires And(And(gw, mask) + Not(n, mask), block) == And(gw, block)
    ensures And(mask, block) == block
    decreases n
  {
    hide And;
    if n > 0 {
      EndHalves(n, gw, mask);
      SameHalves(And(gw, mask), gw, block);
      SameHalves(And(gw, mask) + Not(n, mask), gw, block);
      AndStep(mask, block);
      EndsInBlock(n - 1, gw / 2, mask / 2, block / 2);
    }
  }

  lemma {:induction false} BelowBroadcast(n: nat, gw: nat, mask: nat)
    requires gw < Pow2(n) && mask < Pow2(n)
    ensures gw <= And(gw, mask) + Not(n, mask)
    decreases n
  {
    if n > 0 {
      AndStep(gw, mask);
      BelowBroadcast(n - 1, gw / 2, mask / 2);
    }
  }

  /** A gateway that ends in 1: the network address ends in the bits 00 or 01, the broadcast
      address in 1. */
  lemma EndBits(gw: Address, mask: Address)
    requires And(gw, 0xFF) == 1
    ensures Network(gw, mask) % 4 <= 1 && (Network(gw, mask) + Complement(mask)) % 2 == 1
  {
    hide And;
    AndStep(gw, 0xFF);
    AndStep(gw / 2, 0x7F);
    AndStep(gw, mask);
    AndStep(gw / 2, mask / 2);
  }

  /** The first address behind the gateway's block. */
  function BlockEnd(gw: Address): Address
    requires !IsPublic(gw)
  {
    if gw <= 0x0AFFFFFF then 0x0B000000 else if gw <= 0xAC1FFFFF then 0xAC200000 else 0xC0A90000
  }

  /** A range that starts before the block, or ends behind it, holds a public pool there. */
  lemma PoolBeforeBlock(gw: Address, mask: Address)
    requires !IsPublic(gw) && And(gw, 0xFF) == 1 && mask != 0 && mask != 0xFFFFFFFF
    requires Network(gw, mask) < BlockBase(gw)
    ensures var a := BlockBase(gw) - 1; Accepted(gw, mask, a, a) && IsPublic(a)
  {
    var a := BlockBase(gw) - 1;
    WordSize();
    BelowBroadcast(32, gw, mask);
    BroadcastIs(gw, mask);
    EndBits(gw, mask);
    LoopbackIs(a);
    assert CheckNumbers(gw, mask, a, a, 0) == Valid;
  }

  lemma PoolBehindBlock(gw: Address, mask: Address)
    requires !IsPublic(gw) && And(gw, 0xFF) == 1 && mask != 0 && mask != 0xFFFFFFFF
    requires Broadcast(gw, mask) >= BlockEnd(gw)
    ensures Accepted(gw, mask, BlockEnd(gw), BlockEnd(gw)) && IsPublic(BlockEnd(gw))
  {
    var a := BlockEnd(gw);
    BroadcastIs(gw, mask);
    EndBits(gw, mask);
    LoopbackIs(a);
    assert CheckNumbers(gw, mask, a, a, 0) == Valid;
  }

  lemma BlockEnds(gw: Address)
    requires !IsPublic(gw)
    ensures BlockEnd(gw) == BlockBase(gw) + Pow2(BlockBits(gw))
  {
    assert Pow2(16) == 0x10000 && Pow2(20) == 0x100000 && Pow2(24) == 0x1000000 by {
      assert Pow2(8) == 256;
      assert Pow2(16) == 256 * 256;
      assert Pow2(20) == 256 * 256 * 16;
    }
  }

  lemma InBlockRange(gw: Address, a: Address)
    requires !IsPublic(gw) && BlockBase(gw) <= a < BlockEnd(gw)
    ensures And(a, BlockMask(gw)) == And(gw, BlockMask(gw))
  {
    BlockEnds(gw);
    InBlock(gw, a);
  }

  /** A range inside the block belongs to a mask that covers the block's. */
  lemma RangeInBlock(gw: Address, mask: Address)
    requires !IsPublic(gw)
    requires BlockBase(gw) <= Network(gw, mask) && Broadcast(gw, mask) < BlockEnd(gw)
    ensures And(mask, BlockMask(gw)) == BlockMask(gw)
  {
    WordSize();
    BroadcastIs(gw, mask);
    InBlockRange(gw, Network(gw, mask));
    InBlockRange(gw, Broadcast(gw, mask));
    EndsInBlock(32, gw, mask, BlockMask(gw));
  }

  lemma AllOnesCovers(block: Address)
    ensures And(0xFFFFFFFF, block) == block
  {
    WordSize();
    AndOnes(32, block);
    AndCommutes(block, 0xFFFFFFFF);
  }

  lemma PublicPoolOf(gw: Address, mask: Address) returns (a: Address)
    requires !IsPublic(gw) && And(gw, 0xFF) == 1 && mask != 0 && And(mask, BlockMask(gw)) != BlockMask(gw)
    ensures Accepted(gw, mask, a, a) && IsPublic(a)
  {
    AllOnesCovers(BlockMask(gw));
    if Network(gw, mask) < BlockBase(gw) {
      PoolBeforeBlock(gw, mask);
      a := BlockBase(gw) - 1;
    } else {
      if Broadcast(gw, mask) < BlockEnd(gw) {
        RangeInBlock(gw, mask);
        assert false;
      }
      PoolBehindBlock(gw, mask);
      a := BlockEnd(gw);
    }
  }

  /** Every address of every accepted pool is private if and only if the mask covers the mask
      of the gateway's private block. */
  lemma PrivatePoolIff(gw: Address, mask: Address)
    requires !IsPublic(gw) && And(gw, 0xFF) == 1 && mask != 0
    ensures And(mask, BlockMask(gw)) == BlockMask(gw) <==>
      forall lo: Address, hi: Address, a: Address ::
        Accepted(gw, mask, lo, hi) && lo <= a <= hi ==> !IsPublic(a)
  {
    if And(mask, BlockMask(gw)) == BlockMask(gw) {
      forall lo: Address, hi: Address, a: Address | Accepted(gw, mask, lo, hi) && lo <= a <= hi
        ensures !IsPublic(a)
      {
        CoveredPoolIsPrivate(gw, mask, lo, hi, a);
      }
    } else {
      var a := PublicPoolOf(gw, mask);
    }
  }

  // ---------------------------------------------------------------- the gateway

  /** Only the two ends of a pool are compared with the gateway. It is outside every accepted
      pool if and only if it lies next to one end of the network range. */
  lemma GatewayOutsideIff(gw: Address, mask: Address)
    requires !IsPublic(gw) && And(gw, 0xFF) == 1 && mask != 0 && mask != 0xFFFFFFFF
    ensures (forall lo: Address, hi: Address :: Accepted(gw, mask, lo, hi) ==> !(lo <= gw <= hi)) <==>
      gw <= Network(gw, mask) + 1 || gw + 1 >= Broadcast(gw, mask)
  {
    if gw <= Network(gw, mask) + 1 || gw + 1 >= Broadcast(gw, mask) {
      forall lo: Address, hi: Address | Accepted(gw, mask, lo, hi) ensures !(lo <= gw <= hi) {
        AcceptedPool(gw, mask, lo, hi, lo);
        AcceptedPool(gw, mask, lo, hi, hi);
      }
    } else {
      LoopbackIs(gw - 1);
      LoopbackIs(gw + 1);
      assert CheckNumbers(gw, mask, gw - 1, gw + 1, 0) == Valid;
      assert Accepted(gw, mask, gw - 1, gw + 1);
    }
  }

  /** So it is for masks of at least 24 ones, since the validation wants a last octet of 1. */
  lemma LongMaskKeepsGatewayOut(gw: Address, mask: Address, lo: Address, hi: Address)
    requires Accepted(gw, mask, lo, hi) && And(mask, 0xFFFFFF00) == 0xFFFFFF00
    ensures !(lo <= gw <= hi)
  {
    AndAssociates(gw, mask, 0xFFFFFF00);
    WordSize();
    assert Pow2(8) == 256;
    AndSplits(32, 0xFFFFFF00, 8, gw);
    assert And(gw, 0xFFFFFF00) <= Network(gw, mask);
    GatewayOutsideIff(gw, mask);
  }
}
