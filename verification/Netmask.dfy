/** What rust/cidr/src/main.rs prints about an address and a mask length, and how that reads back the
    blocks of module Cidr.
 */
module Netmask {
  import opened Bits
  import opened Options
  import Cidr

  datatype Info = Info(netmask: nat, network: nat, broadcast: nat, gateway: nat, usable: nat)

  /** All ones, as a u32. */
  const BROADCAST: nat := 0xffff_ffff

  /** `x << n` on a u32: bits shifted past the top are lost. */
  function ShlU32(x: nat, n: nat): nat { Shl(x, n) % 0x1_0000_0000 }

  /** The printed figures; None where the subtraction or a shift count is out of range and the program panics. */
  function Describe(ip: nat, maskbits: nat): Option<Info> {
    if maskbits > 32 || 32 - maskbits >= 32 || maskbits >= 32 then None
    else
      var netmask := ShlU32(BROADCAST, 32 - maskbits);
      var network := And(netmask, ip);
      var span := Shr(BROADCAST, maskbits);
      if span < 1 then None
      else Some(Info(netmask, network, Or(network, span), network + 1, span - 1))
  }

  lemma Pow2Of32()
    ensures Pow2(32) == 0x1_0000_0000
  {
    Pow2Of31();
  }

  lemma NetmaskValue(n: nat)
    requires n <= 32
    ensures Pow2(n) <= Pow2(32)
    ensures ShlU32(BROADCAST, n) == Pow2(32) - Pow2(n)
  {
    Pow2Of32();
    Pow2Monotone(n, 32);
    var m := Pow2(n);
    assert BROADCAST * m == (m - 1) * 0x1_0000_0000 + (0x1_0000_0000 - m);
    DivUnique(BROADCAST * m, 0x1_0000_0000, m - 1, 0x1_0000_0000 - m);
  }

  lemma SpanValue(maskbits: nat)
    requires maskbits <= 32
    ensures Shr(BROADCAST, maskbits) == Pow2(32 - maskbits) - 1
  {
    Pow2Of32();
    var m, r := Pow2(maskbits), Pow2(32 - maskbits);
    Pow2Add(32 - maskbits, maskbits);
    assert (r - 1) * m == r * m - m;
    DivUnique(BROADCAST, m, r - 1, m - 1);
  }

  /** The program answers exactly for mask lengths 1 to 31; any address of an aligned block then gives back
      the block. */
  lemma DescribeInvertsBlock(b: Cidr.Block, ip: nat)
    requires b.k <= 32 && b.Aligned() && b.Has(ip) && ip <= BROADCAST
    ensures Describe(ip, 32 - b.k).Some? <==> 1 <= b.k <= 31
    ensures 1 <= b.k <= 31 ==>
      var info := Describe(ip, 32 - b.k).value;
      && info.network == b.base && info.broadcast == b.Last()
      && info.usable == Pow2(b.k) - 2 && info.gateway == b.base + 1
      && info.netmask + Pow2(b.k) == 0x1_0000_0000
  {
    hide And, Or, ShlU32, Shr;
    if 1 <= b.k <= 31 {
      NetmaskValue(b.k);
      SpanValue(32 - b.k);
      Pow2Of32();
      AndMask(32, b.k, ip);
      FloorUnique(ip, b.k, b.base);
      OrDisjoint(b.base, Pow2(b.k) - 1, b.k);
      assert Pow2(b.k) >= 2;
    }
  }

  /** The netmask picks the addresses of the block: masked, they and no others give the network. The gateway is one of
      them, and besides the network and the broadcast address if there are more than two. */
  lemma MaskPicksBlock(b: Cidr.Block, ip: nat, a: nat)
    requires 1 <= b.k <= 31 && b.Aligned() && b.Has(ip) && ip <= BROADCAST && a <= BROADCAST
    ensures Describe(ip, 32 - b.k).Some?
    ensures var info := Describe(ip, 32 - b.k).value;
      && (And(info.netmask, a) == info.network <==> b.Has(a))
      && b.Has(info.gateway) && info.gateway != info.network && (b.k > 1 ==> info.gateway != info.broadcast)
  {
    hide And, Or, ShlU32, Shr, Describe;
    DescribeInvertsBlock(b, ip);
    Pow2Of32();
    Pow2Monotone(b.k, 32);
    AndMask(32, b.k, a);
    if b.Has(a) {
      FloorUnique(a, b.k, b.base);
    }
    assert b.k > 1 ==> Pow2(b.k) == 2 * Pow2(b.k - 1) && Pow2(b.k - 1) >= 2;
  }
}
