/** Subnet arithmetic of the virtual network: the word operations of the program, bit by bit. */
module Subnet {
  import opened Common

  /** The relay's mask 255.255.0.0. */
  const FIXED_MASK: Ip := 0xFFFF_0000

  function Power(n: nat): (p: nat)
    ensures p > 0
  {
    if n == 0 then 1 else 2 * Power(n - 1)
  }

  // ---------------------------------------------------------------- the low n bits of a word

  function Or(a: nat, b: nat, n: nat): (r: nat)
    ensures r < Power(n)
  {
    if n == 0 then 0 else (if a % 2 == 1 || b % 2 == 1 then 1 else 0) + 2 * Or(a / 2, b / 2, n - 1)
  }

  function And(a: nat, b: nat, n: nat): (r: nat)
    ensures r < Power(n)
  {
    if n == 0 then 0 else (if a % 2 == 1 && b % 2 == 1 then 1 else 0) + 2 * And(a / 2, b / 2, n - 1)
  }

  function Not(a: nat, n: nat): (r: nat)
    ensures r < Power(n)
  {
    if n == 0 then 0 else (1 - a % 2) + 2 * Not(a / 2, n - 1)
  }

  /** `ip | ~mask` on words of n bits. */
  function BroadcastBits(ip: nat, mask: nat, n: nat): nat {
    Or(ip, Not(mask, n), n)
  }

  predicate SameBits(a: nat, b: nat, mask: nat, n: nat) {
    And(a, mask, n) == And(b, mask, n)
  }

  lemma {:induction false} Absorb(ip: nat, mask: nat, n: nat)
    ensures And(BroadcastBits(ip, mask, n), mask, n) == And(ip, mask, n)
  {
    if n > 0 { Absorb(ip / 2, mask / 2, n - 1); }
  }

  lemma {:induction false} Rebuild(ip: nat, mask: nat, n: nat)
    ensures Or(And(ip, mask, n), Not(mask, n), n) == BroadcastBits(ip, mask, n)
  {
    if n > 0 { Rebuild(ip / 2, mask / 2, n - 1); }
  }

  lemma {:induction false} NotIs(a: nat, n: nat)
    requires a < Power(n)
    ensures Not(a, n) == Power(n) - 1 - a
  {
    if n > 0 { NotIs(a / 2, n - 1); }
  }

  lemma {:induction false} OrNothing(a: nat, n: nat)
    requires a < Power(n)
    ensures Or(a, 0, n) == a
  {
    if n > 0 { OrNothing(a / 2, n - 1); }
  }

  /** `a` with its low k bits set. */
  function Filled(a: nat, k: nat): nat {
    if k == 0 then a else 1 + 2 * Filled(a / 2, k - 1)
  }

  lemma {:induction false} LowOnes(a: nat, k: nat, n: nat)
    requires k <= n && a < Power(n)
    ensures Or(a, Power(k) - 1, n) == Filled(a, k)
  {
    if k == 0 {
      OrNothing(a, n);
    } else {
      LowOnes(a / 2, k - 1, n - 1);
      OrOdd(a, Power(k - 1) - 1, n);
    }
  }

  lemma OrOdd(a: nat, b: nat, n: nat)
    requires n > 0
    ensures Or(a, 2 * b + 1, n) == 1 + 2 * Or(a / 2, b, n - 1)
  {
    assert (2 * b + 1) % 2 == 1 && (2 * b + 1) / 2 == b;
  }

  /** Setting the low k bits rounds up to the end of a block of that size. */
  lemma {:induction false} FilledRoundsUp(a: nat, k: nat)
    ensures Filled(a, k) == a - a % Power(k) + Power(k) - 1
  {
    if k > 0 {
      var p := Power(k - 1);
      FilledRoundsUp(a / 2, k - 1);
      HalveMod(a, p);
      assert Filled(a, k) == 1 + 2 * (a / 2 - a / 2 % p + p - 1);
    }
  }

  lemma HalveMod(a: nat, p: nat)
    requires p > 0
    ensures a % (2 * p) == 2 * (a / 2 % p) + a % 2
  {
    var q, r := a / 2 / p, a / 2 % p;
    assert a == q * (2 * p) + (2 * r + a % 2);
    ModIs(a, 2 * p, q, 2 * r + a % 2);
  }

  lemma ModIs(a: nat, m: nat, q: nat, r: nat)
    requires a == q * m + r && r < m
    ensures a % m == r
  {
    var d := a / m - q;
    assert a == m * (a / m) + a % m;
    assert m * d == r - a % m;
    assert d == 0;
  }

  // ---------------------------------------------------------------- addresses

  lemma WordSize()
    ensures Power(32) == 0x1_0000_0000 && Power(16) == 0x1_0000
  {
    assert Power(1) == 2 && Power(2) == 4;
    PowerAdd(2, 2);
    PowerAdd(4, 4);
    PowerAdd(8, 8);
    PowerAdd(16, 16);
  }

  lemma {:induction false} PowerAdd(a: nat, b: nat)
    ensures Power(a + b) == Power(a) * Power(b)
  {
    if a > 0 { PowerAdd(a - 1, b); }
  }

  /** `ip | ~mask`, the broadcast address as every host computes it. */
  function Broadcast(ip: Ip, mask: Ip): Ip {
    WordSize();
    BroadcastBits(ip, mask, 32)
  }

  predicate SameSubnet(a: Ip, b: Ip, mask: Ip) {
    SameBits(a, b, mask, 32)
  }

  /** For any mask, the broadcast address lies in the subnet of the host that derives it. */
  lemma BroadcastInSubnet(ip: Ip, mask: Ip)
    ensures SameSubnet(Broadcast(ip, mask), ip, mask)
  {
    Absorb(ip, mask, 32);
  }

  /**
   For any mask, two hosts derive the same broadcast address exactly when they
   are in the same subnet (section 3.2.1.3 of RFC 1122).
   */
  lemma BroadcastIdentifiesSubnet(a: Ip, b: Ip, mask: Ip)
    ensures Broadcast(a, mask) == Broadcast(b, mask) <==> SameSubnet(a, b, mask)
  {
    BitsIdentify(a, b, mask, 32);
  }

  lemma BitsIdentify(a: nat, b: nat, mask: nat, n: nat)
    ensures BroadcastBits(a, mask, n) == BroadcastBits(b, mask, n) <==> SameBits(a, b, mask, n)
  {
    Absorb(a, mask, n);
    Absorb(b, mask, n);
    Rebuild(a, mask, n);
    Rebuild(b, mask, n);
  }

  /** For the relay's fixed mask the word operation rounds up to the end of a block of 65536 addresses. */
  lemma FixedMask(ip: Ip)
    ensures Broadcast(ip, FIXED_MASK) == ip - ip % 0x1_0000 + 0xFFFF
  {
    WordSize();
    NotIs(FIXED_MASK, 32);
    LowOnes(ip, 16, 32);
    FilledRoundsUp(ip, 16);
  }
}
