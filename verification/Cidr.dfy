/** Splitting an address range into aligned power-of-two blocks (other/bysin_cidr.c), and reading a
    block back as a range (rust/cidr/src/main.rs). Addresses are `w` bits wide; the programs use w = 32.
 */
module Cidr {
  import opened Bits

  /** The `2^k` addresses from `base` up; at width `w` it is printed as `base/(w-k)`. */
  datatype Block = Block(base: nat, k: nat) {
    function Last(): int { base + Pow2(k) - 1 }

    predicate Has(x: int) { base <= x <= Last() }

    predicate Aligned() { Multiple(base, k) }
  }

  /** `b` and `c` are the two halves, lower first, of one aligned block. */
  predicate Siblings(b: Block, c: Block) {
    b.k == c.k && c.base == b.base + Pow2(b.k) && Multiple(b.base, b.k + 1)
  }

  ghost predicate AllAligned(bs: seq<Block>) {
    forall i :: 0 <= i < |bs| ==> bs[i].Aligned()
  }

  /** Some block of `bs` has the address. */
  ghost predicate Listed(bs: seq<Block>, x: int) {
    exists i :: 0 <= i < |bs| && bs[i].Has(x)
  }

  /** The union of `bs` is exactly `[first, last]`; blocks may overlap and come in any order. */
  ghost predicate Covers(bs: seq<Block>, first: int, last: int) {
    && (forall i :: 0 <= i < |bs| ==> first <= bs[i].base && bs[i].Last() <= last)
    && (forall x :: first <= x <= last ==> Listed(bs, x))
  }

  /** Each block ends before the next one starts. */
  ghost predicate Ascending(bs: seq<Block>) {
    forall i, j :: 0 <= i < j < |bs| ==> bs[i].Last() < bs[j].base
  }

  /** No two blocks could be printed as one. */
  ghost predicate NoneMergeable(bs: seq<Block>) {
    forall i, j :: 0 <= i < |bs| && 0 <= j < |bs| ==> !Siblings(bs[i], bs[j])
  }

  // ----- the canonical cover, by descent in the tree of aligned blocks -----

  ghost predicate Within(b: Block, first: int, last: int) {
    b.Aligned() && b.base <= first <= last <= b.Last()
  }

  function LowHalf(b: Block): Block
    requires b.k > 0
  {
    Block(b.base, b.k - 1)
  }

  function HighHalf(b: Block): Block
    requires b.k > 0
  {
    Block(b.base + Pow2(b.k - 1), b.k - 1)
  }

  /** The cover of a range inside block `b`: `b` itself, or the covers of the range's parts in its halves. */
  function Cover(b: Block, first: nat, last: nat): seq<Block>
    requires b.base <= first <= last <= b.Last()
    decreases b.k
  {
    if first == b.base && last == b.Last() then [b]
    else
      var mid := HighHalf(b).base;
      if last < mid then Cover(LowHalf(b), first, last)
      else if mid <= first then Cover(HighHalf(b), first, last)
      else Cover(LowHalf(b), first, mid - 1) + Cover(HighHalf(b), mid, last)
  }

  /** One level of the descent. */
  lemma CoverStep(b: Block, first: nat, last: nat)
    requires b.base <= first <= last <= b.Last()
    ensures first == b.base && last == b.Last() ==> Cover(b, first, last) == [b]
    ensures !(first == b.base && last == b.Last()) ==>
      && b.k > 0
      && var mid := HighHalf(b).base;
      && (last < mid ==> Cover(b, first, last) == Cover(LowHalf(b), first, last))
      && (mid <= first ==> Cover(b, first, last) == Cover(HighHalf(b), first, last))
      && (first < mid <= last ==>
        Cover(b, first, last) == Cover(LowHalf(b), first, mid - 1) + Cover(HighHalf(b), mid, last))
  {
  }

  lemma HalvesAligned(b: Block)
    requires b.k > 0 && b.Aligned()
    ensures LowHalf(b).Aligned() && HighHalf(b).Aligned()
  {
    MultipleOfSmaller(b.base, b.k - 1, b.k);
    NextMultiple(b.base, b.k - 1);
  }

  // ----- exact partition -----

  /** The blocks of the canonical cover are aligned, ascending and disjoint, and their union is the range. */
  lemma {:induction false} CoverIsPartition(b: Block, first: nat, last: nat)
    requires Within(b, first, last)
    ensures var bs := Cover(b, first, last);
      AllAligned(bs) && Ascending(bs) && Covers(bs, first, last)
    decreases b.k
  {
    hide Cover, Multiple;
    CoverStep(b, first, last);
    if first == b.base && last == b.Last() {
      OneBlockCovers(b);
    } else {
      HalvesAligned(b);
      var mid := HighHalf(b).base;
      if last < mid {
        CoverIsPartition(LowHalf(b), first, last);
      } else if mid <= first {
        CoverIsPartition(HighHalf(b), first, last);
      } else {
        CoverIsPartition(LowHalf(b), first, mid - 1);
        CoverIsPartition(HighHalf(b), mid, last);
        CoversConcat(Cover(LowHalf(b), first, mid - 1), Cover(HighHalf(b), mid, last), first, mid, last);
      }
    }
  }

  lemma OneBlockCovers(b: Block)
    ensures Covers([b], b.base, b.Last())
  {
    forall x | b.base <= x <= b.Last() ensures Listed([b], x) {
      assert [b][0].Has(x);
    }
  }

  lemma CoversConcat(lo: seq<Block>, hi: seq<Block>, first: int, mid: int, last: int)
    requires first <= mid <= last + 1
    requires Covers(lo, first, mid - 1) && Covers(hi, mid, last)
    ensures Covers(lo + hi, first, last)
  {
    forall x | first <= x <= last ensures Listed(lo + hi, x) {
      if x < mid {
        assert Listed(lo, x);
        var i :| 0 <= i < |lo| && lo[i].Has(x);
        assert (lo + hi)[i].Has(x);
      } else {
        assert Listed(hi, x);
        var i :| 0 <= i < |hi| && hi[i].Has(x);
        assert (lo + hi)[|lo| + i].Has(x);
      }
    }
  }

  // ----- minimality -----

  /** Aligned blocks are nested or disjoint: one that lies in a block but is not the block lies in a half. */
  lemma InOneHalf(c: Block, b: Block)
    requires b.Aligned() && c.Aligned() && b.base <= c.base && c.Last() <= b.Last() && c != b
    ensures c.k < b.k
    ensures c.Last() < HighHalf(b).base || HighHalf(b).base <= c.base
  {
    if c.k >= b.k {
      Pow2Monotone(b.k, c.k);
      if c.k > b.k {
        Pow2Monotone(b.k + 1, c.k);
      }
      assert false;
    }
    HalvesAligned(b);
    MultipleOfSmaller(HighHalf(b).base, c.k, b.k - 1);
    if c.base < HighHalf(b).base {
      MultiplesApart(c.base, HighHalf(b).base, c.k);
    }
  }

  /** The blocks below `mid`, or from it on. */
  function Side(bs: seq<Block>, mid: int, low: bool): seq<Block> {
    if bs == [] then []
    else (if (bs[0].base < mid) == low then [bs[0]] else []) + Side(bs[1..], mid, low)
  }

  lemma {:induction false} SidesCount(bs: seq<Block>, mid: int)
    ensures |Side(bs, mid, true)| + |Side(bs, mid, false)| == |bs|
  {
    if bs != [] {
      SidesCount(bs[1..], mid);
    }
  }

  lemma {:induction false} SideMembers(bs: seq<Block>, mid: int, low: bool, c: Block)
    ensures c in Side(bs, mid, low) <==> c in bs && (c.base < mid) == low
  {
    if bs != [] {
      SideMembers(bs[1..], mid, low, c);
      assert c in bs <==> c == bs[0] || c in bs[1..];
    }
  }

  /** A cover by aligned blocks none of which straddles `mid` splits into covers of the two parts. */
  lemma SideCovers(bs: seq<Block>, first: int, mid: int, last: int, low: bool)
    requires first < mid <= last && AllAligned(bs) && Covers(bs, first, last)
    requires forall c :: c in bs ==> c.Last() < mid || mid <= c.base
    ensures var s := Side(bs, mid, low);
      AllAligned(s) && (if low then Covers(s, first, mid - 1) else Covers(s, mid, last))
  {
    var s := Side(bs, mid, low);
    forall i | 0 <= i < |s|
      ensures s[i] in bs && (s[i].base < mid) == low && s[i].Aligned()
    {
      SideMembers(bs, mid, low, s[i]);
      var j :| 0 <= j < |bs| && bs[j] == s[i];
    }
    forall x | (if low then first <= x < mid else mid <= x <= last) ensures Listed(s, x) {
      assert Listed(bs, x);
      var i :| 0 <= i < |bs| && bs[i].Has(x);
      assert bs[i] in bs;
      SideMembers(bs, mid, low, bs[i]);
      var j :| 0 <= j < |s| && s[j] == bs[i];
      assert s[j].Has(x);
    }
  }

  lemma NoneStraddles(b: Block, first: nat, last: nat, bs: seq<Block>)
    requires Within(b, first, last) && !(first == b.base && last == b.Last()) && b.k > 0
    requires AllAligned(bs) && Covers(bs, first, last)
    ensures forall c :: c in bs ==> c.Last() < HighHalf(b).base || HighHalf(b).base <= c.base
  {
    forall c | c in bs ensures c.Last() < HighHalf(b).base || HighHalf(b).base <= c.base {
      var i :| 0 <= i < |bs| && bs[i] == c;
      InOneHalf(c, b);
    }
  }

  /** No exact cover by aligned blocks, overlapping or not, has fewer blocks than the canonical one. */
  lemma {:induction false} CoverIsMinimal(b: Block, first: nat, last: nat, bs: seq<Block>)
    requires Within(b, first, last)
    requires AllAligned(bs) && Covers(bs, first, last)
    ensures |Cover(b, first, last)| <= |bs|
    decreases b.k
  {
    hide Cover, Multiple;
    CoverStep(b, first, last);
    assert Listed(bs, first);
    if !(first == b.base && last == b.Last()) {
      HalvesAligned(b);
      var mid := HighHalf(b).base;
      if last < mid {
        CoverIsMinimal(LowHalf(b), first, last, bs);
      } else if mid <= first {
        CoverIsMinimal(HighHalf(b), first, last, bs);
      } else {
        NoneStraddles(b, first, last, bs);
        SideCovers(bs, first, mid, last, true);
        SideCovers(bs, first, mid, last, false);
        CoverIsMinimal(LowHalf(b), first, mid - 1, Side(bs, mid, true));
        CoverIsMinimal(HighHalf(b), mid, last, Side(bs, mid, false));
        SidesCount(bs, mid);
      }
    }
  }

  // ----- canonicity: nothing to merge, and the only such partition -----

  lemma {:induction false} CoverNotMergeable(b: Block, first: nat, last: nat)
    requires Within(b, first, last)
    ensures NoneMergeable(Cover(b, first, last))
    decreases b.k
  {
    hide Cover, Multiple;
    CoverStep(b, first, last);
    if !(first == b.base && last == b.Last()) {
      HalvesAligned(b);
      var mid := HighHalf(b).base;
      if last < mid {
        CoverNotMergeable(LowHalf(b), first, last);
      } else if mid <= first {
        CoverNotMergeable(HighHalf(b), first, last);
      } else {
        CoverNotMergeable(LowHalf(b), first, mid - 1);
        CoverNotMergeable(HighHalf(b), mid, last);
        NothingMergesAcross(b, first, last);
        var lo, hi := Cover(LowHalf(b), first, mid - 1), Cover(HighHalf(b), mid, last);
        forall i, j | 0 <= i < |lo + hi| && 0 <= j < |lo + hi| ensures !Siblings((lo + hi)[i], (lo + hi)[j]) {
        }
      }
    }
  }

  lemma NothingMergesAcross(b: Block, first: nat, last: nat)
    requires Within(b, first, last) && b.k > 0 && first < HighHalf(b).base <= last
    requires !(first == b.base && last == b.Last())
    ensures var mid := HighHalf(b).base;
      forall c, d :: c in Cover(LowHalf(b), first, mid - 1) && d in Cover(HighHalf(b), mid, last) ==>
        !Siblings(c, d) && !Siblings(d, c)
  {
    hide Cover, Multiple;
    HalvesAligned(b);
    var mid := HighHalf(b).base;
    CoverIsPartition(LowHalf(b), first, mid - 1);
    CoverIsPartition(HighHalf(b), mid, last);
    forall c, d | c in Cover(LowHalf(b), first, mid - 1) && d in Cover(HighHalf(b), mid, last)
      ensures !Siblings(c, d) && !Siblings(d, c)
    {
      if Siblings(c, d) {
        SiblingsAcross(c, d, b);
      }
    }
  }

  /** Siblings on either side of a block's middle are the block's own halves, so the range is the block. */
  lemma SiblingsAcross(c: Block, d: Block, b: Block)
    requires b.Aligned() && b.k > 0 && Siblings(c, d)
    requires b.base <= c.base && c.Last() < HighHalf(b).base <= d.base && d.Last() <= b.Last()
    ensures c == LowHalf(b) && d == HighHalf(b)
  {
    var parent := Block(c.base, c.k + 1);
    if parent != b {
      InOneHalf(parent, b);
    }
  }

  /** Any ascending exact cover by aligned blocks with nothing left to merge is the canonical one. */
  lemma {:induction false} CoverIsUnique(b: Block, first: nat, last: nat, bs: seq<Block>)
    requires Within(b, first, last)
    requires AllAligned(bs) && Ascending(bs) && Covers(bs, first, last) && NoneMergeable(bs)
    ensures bs == Cover(b, first, last)
    decreases b.k
  {
    hide Cover, Multiple;
    CoverStep(b, first, last);
    if b in bs {
      OnlyBlock(b, first, last, bs);
    } else {
      SomethingSmaller(b, first, last, bs);
      HalvesAligned(b);
      var mid := HighHalf(b).base;
      if last < mid {
        CoverIsUnique(LowHalf(b), first, last, bs);
      } else if mid <= first {
        CoverIsUnique(HighHalf(b), first, last, bs);
      } else {
        var n := SplitAt(bs, b, first, mid, last);
        SlicesCanonical(bs, n);
        CoverIsUnique(LowHalf(b), first, mid - 1, bs[..n]);
        CoverIsUnique(HighHalf(b), mid, last, bs[n..]);
        JoinHalves(b, first, last, bs);
      }
    }
  }

  lemma JoinHalves(b: Block, first: nat, last: nat, bs: seq<Block>)
    requires Within(b, first, last) && b.k > 0 && NoneMergeable(bs)
    requires first < HighHalf(b).base <= last
    requires var mid := HighHalf(b).base;
      bs == Cover(LowHalf(b), first, mid - 1) + Cover(HighHalf(b), mid, last)
    ensures bs == Cover(b, first, last)
  {
    hide Cover, Multiple;
    var mid := HighHalf(b).base;
    CoverStep(b, first, last);
    CoverStep(LowHalf(b), first, mid - 1);
    CoverStep(HighHalf(b), mid, last);
    assert Siblings(LowHalf(b), HighHalf(b));
    if |bs| == 2 {
      assert !Siblings(bs[0], bs[1]);
    }
  }

  lemma AscendingAt(bs: seq<Block>, i: nat, j: nat)
    requires Ascending(bs)
    ensures i < j < |bs| ==> bs[i].Last() < bs[j].base
  {
  }

  lemma OnlyBlock(b: Block, first: nat, last: nat, bs: seq<Block>)
    requires Within(b, first, last) && Ascending(bs) && Covers(bs, first, last) && b in bs
    ensures bs == [b] == Cover(b, first, last)
  {
    var f :| 0 <= f < |bs| && bs[f] == b;
    AscendingAt(bs, 0, f);
    AscendingAt(bs, f, f + 1);
  }

  lemma SomethingSmaller(b: Block, first: nat, last: nat, bs: seq<Block>)
    requires Within(b, first, last) && AllAligned(bs) && Covers(bs, first, last) && b !in bs
    ensures b.k > 0
  {
    assert Listed(bs, first);
    var f :| 0 <= f < |bs| && bs[f].Has(first);
    InOneHalf(bs[f], b);
  }

  lemma SlicesCanonical(bs: seq<Block>, n: nat)
    requires n <= |bs| && AllAligned(bs) && Ascending(bs) && NoneMergeable(bs)
    ensures bs == bs[..n] + bs[n..]
    ensures AllAligned(bs[..n]) && Ascending(bs[..n]) && NoneMergeable(bs[..n])
    ensures AllAligned(bs[n..]) && Ascending(bs[n..]) && NoneMergeable(bs[n..])
  {
  }

  lemma SplitAt(bs: seq<Block>, b: Block, first: int, mid: int, last: int) returns (n: nat)
    requires b.Aligned() && b.k > 0 && mid == HighHalf(b).base
    requires b.base <= first < mid <= last <= b.Last()
    requires AllAligned(bs) && Ascending(bs) && Covers(bs, first, last) && b !in bs
    ensures n <= |bs|
    ensures Covers(bs[..n], first, mid - 1) && Covers(bs[n..], mid, last)
  {
    n := 0;
    while n < |bs| && bs[n].base < mid
      invariant n <= |bs|
      invariant forall i :: 0 <= i < n ==> bs[i].base < mid
    {
      n := n + 1;
    }
    hide Multiple, Covers;
    forall i | 0 <= i < |bs|
      ensures i < n ==> bs[i].Last() < mid
      ensures i >= n ==> mid <= bs[i].base
    {
      InOneHalf(bs[i], b);
    }
    CoversApart(bs, n, first, mid, last);
  }

  lemma CoversApart(bs: seq<Block>, n: nat, first: int, mid: int, last: int)
    requires Covers(bs, first, last) && first < mid <= last && n <= |bs|
    requires forall i :: 0 <= i < |bs| ==> if i < n then bs[i].Last() < mid else mid <= bs[i].base
    ensures Covers(bs[..n], first, mid - 1) && Covers(bs[n..], mid, last)
  {
    forall x | first <= x <= last
      ensures x < mid ==> Listed(bs[..n], x)
      ensures x >= mid ==> Listed(bs[n..], x)
    {
      assert Listed(bs, x);
      var i :| 0 <= i < |bs| && bs[i].Has(x);
      if x < mid {
        assert bs[..n][i].Has(x);
      } else {
        assert bs[n..][i - n].Has(x);
      }
    }
  }

  // ----- size -----

  /** A range touching an end of its `2^k` block needs at most `max(k, 1)` blocks. */
  lemma {:induction false} OneSidedSize(b: Block, first: nat, last: nat)
    requires b.base <= first <= last <= b.Last()
    requires first == b.base || last == b.Last()
    ensures |Cover(b, first, last)| <= if b.k == 0 then 1 else b.k
    decreases b.k
  {
    if !(first == b.base && last == b.Last()) {
      var mid := HighHalf(b).base;
      if last < mid {
        OneSidedSize(LowHalf(b), first, last);
      } else if mid <= first {
        OneSidedSize(HighHalf(b), first, last);
      } else {
        OneSidedSize(LowHalf(b), first, mid - 1);
        OneSidedSize(HighHalf(b), mid, last);
      }
    }
  }

  /** At most `2(k-1)` blocks for a range inside a `2^k` block: 62 for IPv4. */
  lemma {:induction false} CoverSize(b: Block, first: nat, last: nat)
    requires b.base <= first <= last <= b.Last()
    ensures |Cover(b, first, last)| <= if b.k <= 1 then 1 else 2 * (b.k - 1)
    decreases b.k
  {
    if !(first == b.base && last == b.Last()) {
      var mid := HighHalf(b).base;
      if last < mid {
        CoverSize(LowHalf(b), first, last);
      } else if mid <= first {
        CoverSize(HighHalf(b), first, last);
      } else {
        OneSidedSize(LowHalf(b), first, mid - 1);
        OneSidedSize(HighHalf(b), mid, last);
      }
    }
  }

  lemma {:induction false} OneSidedSizeReached(b: Block, low: bool)
    requires b.k > 0
    ensures var (first, last) := if low then (b.base, b.Last() - 1) else (b.base + 1, b.Last());
      |Cover(b, first, last)| == b.k
    decreases b.k
  {
    if b.k == 1 {
      assert Pow2(1) == 2 && Pow2(0) == 1;
    } else {
      OneSidedSizeReached(if low then HighHalf(b) else LowHalf(b), low);
    }
  }

  /** The bound is reached: all addresses of a block but its first and last need `2(k-1)` blocks. */
  lemma CoverSizeReached(b: Block)
    requires b.k >= 2
    ensures b.base + 1 <= b.Last() - 1
    ensures |Cover(b, b.base + 1, b.Last() - 1)| == 2 * (b.k - 1)
  {
    hide Cover, Multiple;
    assert Pow2(b.k) == 2 * Pow2(b.k - 1) && Pow2(b.k - 1) == 2 * Pow2(b.k - 2);
    CoverStep(b, b.base + 1, b.Last() - 1);
    OneSidedSizeReached(LowHalf(b), false);
    OneSidedSizeReached(HighHalf(b), true);
  }

  // ----- the program -----

  /** Unsigned int arithmetic wraps at this value. */
  const UINT_RANGE: nat := 0x1_0000_0000

  /** `x` to the power `n` in unsigned 32-bit arithmetic, by repeated squaring. */
  function MPow(x: nat, n: nat): nat
    decreases n
  {
    if n == 0 then 1
    else if n % 2 == 1 then x * MPow(x, n - 1) % UINT_RANGE
    else MPow(x * x % UINT_RANGE, n / 2)
  }

  function Pow(x: nat, n: nat): nat {
    if n == 0 then 1 else x * Pow(x, n - 1)
  }

  lemma {:induction false} PowSquare(x: nat, n: nat)
    ensures Pow(x * x, n) == Pow(x, 2 * n)
  {
    if n > 0 {
      PowSquare(x, n - 1);
      var p := Pow(x, 2 * n - 2);
      assert Pow(x, 2 * n) == x * Pow(x, 2 * n - 1) && Pow(x, 2 * n - 1) == x * p;
      assert x * x * p == x * (x * p);
    }
  }

  /** A factor may be reduced before multiplying. */
  lemma ModProduct(x: int, y: int, m: int)
    requires m > 0
    ensures x * (y % m) % m == x * y % m
  {
    var q := y / m;
    assert y == q * m + y % m;
    assert x * y == (x * q) * m + x * (y % m);
    var r := x * (y % m);
    assert r == (r / m) * m + r % m;
    assert x * y == (x * q + r / m) * m + r % m;
    DivUnique(x * y, m, x * q + r / m, r % m);
  }

  lemma {:induction false} PowMod(x: nat, m: nat, n: nat)
    requires m > 0
    ensures Pow(x % m, n) % m == Pow(x, n) % m
  {
    if n > 0 {
      PowMod(x, m, n - 1);
      var p, r := Pow(x, n - 1), Pow(x % m, n - 1);
      ModProduct(x % m, r, m);
      ModProduct(x % m, p, m);
      ModProduct(p, x, m);
      assert (x % m) * p == p * (x % m) && x * p == p * x;
    }
  }

  /** Fast exponentiation is the power, wrapped to 32 bits. */
  lemma {:induction false} MPowIsPow(x: nat, n: nat)
    ensures MPow(x, n) == Pow(x, n) % UINT_RANGE
    decreases n
  {
    var m := UINT_RANGE;
    if n == 0 {
    } else if n % 2 == 1 {
      MPowIsPow(x, n - 1);
      ModProduct(x, Pow(x, n - 1), m);
    } else {
      MPowIsPow(x * x % m, n / 2);
      PowMod(x * x, m, n / 2);
      PowSquare(x, n / 2);
    }
  }

  /** Below bit 32 nothing wraps: the split size is the power of two it should be. */
  lemma SplitSize(n: nat)
    requires n < 32
    ensures MPow(2, n) == Pow2(n)
  {
    MPowIsPow(2, n);
    PowTwo(n);
    Pow2Monotone(n, 31);
    Pow2Of31();
    DivUnique(Pow2(n), UINT_RANGE, 0, Pow2(n));
  }

  lemma {:induction false} PowTwo(n: nat)
    ensures Pow(2, n) == Pow2(n)
  {
    if n > 0 {
      PowTwo(n - 1);
    }
  }

  /** Bit `pos` of `x`, as the program tests it. */
  function Bit(x: nat, pos: nat): (b: nat)
    ensures b == BitAt(x, pos)
  {
    AndPow2(x, pos);
    if And(x, Shl(1, pos)) != 0 then 1 else 0
  }

  /** The aligned `2^j` block around `x`. */
  function Enclosing(j: nat, x: nat): (b: Block)
    ensures b.Aligned() && b.Has(x)
  {
    Block(Floor(x, j), j)
  }

  /** The cover may be computed in any aligned block that holds the whole range. */
  lemma {:induction false} CoverDescend(b: Block, e: Block, first: nat, last: nat)
    requires Within(b, first, last) && Within(e, first, last) && e.k <= b.k
    ensures Cover(b, first, last) == Cover(e, first, last)
    decreases b.k
  {
    MultipleOfSmaller(b.base, e.k, b.k);
    if b.base < e.base {
      if e.k == b.k {
        MultiplesApart(b.base, e.base, e.k);
      }
    } else if e.base < b.base {
      MultiplesApart(e.base, b.base, e.k);
    }
    if e.k < b.k {
      HalvesAligned(b);
      Pow2Monotone(e.k, b.k - 1);
      var mid := HighHalf(b).base;
      MultipleOfSmaller(mid, e.k, b.k - 1);
      if e.base < mid {
        MultiplesApart(e.base, mid, e.k);
      }
      CoverDescend(if last < mid then LowHalf(b) else HighHalf(b), e, first, last);
    }
  }

  /** The highest differing bit: `first` lies in the lower half of the common block, `last` in the upper. */
  lemma Straddle(j: nat, first: nat, last: nat)
    requires first < last && Shr(first, j + 1) == Shr(last, j + 1)
    requires BitAt(first, j) != BitAt(last, j)
    ensures var e := Enclosing(j + 1, first);
      Within(e, first, last) && first < HighHalf(e).base <= last && last - e.base == Low(last, j + 1)
  {
    hide Multiple, Shr, Low, Shl, BitAt;
    assert Floor(first, j + 1) == Floor(last, j + 1);
    OneMoreBit(first, j);
    OneMoreBit(last, j);
    LowBelow(first, j);
    LowBelow(last, j);
  }

  lemma LowBelow(x: nat, n: nat)
    ensures Low(x, n) < Pow2(n)
  {
  }

  /** In a range that is its whole block, every lower bit is 0 in `first` and 1 in `last`. */
  lemma WholeBits(e: Block, i: nat)
    requires e.Aligned() && i < e.k
    ensures e.Last() >= 0 && BitAt(e.base, i) == 0 && BitAt(e.Last(), i) == 1
  {
    MultipleOfSmaller(e.base, i + 1, e.k);
    FloorOfMultiple(e.base, i + 1);
    OneMoreBit(e.base, i);
    NextMultiple(e.base, e.k);
    MultipleOfSmaller(e.base + Pow2(e.k), i + 1, e.k);
    BelowMultiple(e.Last(), i);
  }

  /** When some lower bit rules out a single block, the program's two sub-ranges are the halves of the cover. */
  lemma SplitInTwo(w: nat, j: nat, i: nat, first: nat, last: nat)
    requires i <= j < w && first < last < Pow2(w)
    requires Shr(first, j + 1) == Shr(last, j + 1) && BitAt(first, j) != BitAt(last, j)
    requires !(BitAt(first, i) == 0 && BitAt(last, i) == 1)
    ensures var prefix := Floor(first, j + 1);
      var lo, mid := Or(prefix, Pow2(j) - 1), Or(prefix, Pow2(j));
      && first <= lo == mid - 1 && mid <= last
      && Cover(Block(0, w), first, last) == Cover(Block(0, w), first, lo) + Cover(Block(0, w), mid, last)
  {
    hide Cover, And, Or, Multiple, Floor, Shr, Low, BitAt;
    var all, e := Block(0, w), Enclosing(j + 1, first);
    var mid := HighHalf(e).base;
    Straddle(j, first, last);
    HalvesAligned(e);
    OrDisjoint(e.base, Pow2(j) - 1, j);
    OrDisjoint(e.base, Pow2(j), j + 1);
    WholeBits(e, i);
    ZeroAligned(w);
    CoverStep(e, first, last);
    CoverDescend(all, e, first, last);
    CoverDescend(all, LowHalf(e), first, mid - 1);
    CoverDescend(all, HighHalf(e), mid, last);
  }

  lemma ZeroAligned(w: nat)
    ensures Block(0, w).Aligned()
  {
  }

  /** The low `i` bits are all 0 in `first` and all 1 in `last`. */
  ghost predicate LowBits(i: nat, first: nat, last: nat) {
    Low(first, i) == 0 && Low(last, i) == Pow2(i) - 1
  }

  lemma LowBitsNext(i: nat, first: nat, last: nat)
    ensures LowBits(0, first, last)
    ensures LowBits(i, first, last) && BitAt(first, i) == 0 && BitAt(last, i) == 1 ==> LowBits(i + 1, first, last)
  {
    NoBits(first);
    NoBits(last);
    OneMoreBit(first, i);
    OneMoreBit(last, i);
  }

  /** When all bits up to the highest differing one are such, the range is one block. */
  lemma LowBitsCover(w: nat, j: nat, first: nat, last: nat)
    requires j < w && first < last < Pow2(w)
    requires Shr(first, j + 1) == Shr(last, j + 1) && BitAt(first, j) != BitAt(last, j)
    requires LowBits(j + 1, first, last)
    ensures Cover(Block(0, w), first, last) == [Block(Floor(first, j + 1), j + 1)]
  {
    hide Cover, Multiple, Floor, Shr, Low, BitAt;
    var e := Enclosing(j + 1, first);
    Straddle(j, first, last);
    ZeroAligned(w);
    CoverDescend(Block(0, w), e, first, last);
    CoverStep(e, first, last);
  }

  lemma SingleCover(w: nat, x: nat)
    requires x < Pow2(w)
    ensures Cover(Block(0, w), x, x) == [Block(x, 0)]
  {
    hide Cover;
    assert Pow2(0) == 1;
    CoverDescend(Block(0, w), Block(x, 0), x, x);
    CoverStep(Block(x, 0), x, x);
  }

  lemma CoversOnlyForward(w: nat, first: nat, last: nat)
    requires first < Pow2(w) && last < Pow2(w)
    ensures first <= last ==> Covers(Cover(Block(0, w), first, last), first, last)
    ensures first > last ==> !Covers([Block(first, 0)], first, last)
  {
    if first <= last {
      ZeroAligned(w);
      CoverIsPartition(Block(0, w), first, last);
    } else {
      assert [Block(first, 0)][0].Last() == first;
    }
  }

  /** Splits a range; the blocks come in the order they are printed. A reversed range prints `first` alone. */
  method Split(w: nat, first: nat, last: nat) returns (out: seq<Block>)
    requires 1 <= w <= 32
    requires first < Pow2(w) && last < Pow2(w)
    ensures first <= last ==> out == Cover(Block(0, w), first, last)
    ensures first > last ==> out == [Block(first, 0)]
    ensures Covers(out, first, last) <==> first <= last
    decreases if first < last then last - first else 0
  {
    hide Cover, Covers, And, Or, MPow, LowBits, Multiple, Floor, Shr, Low, BitAt, Bit;
    CoversOnlyForward(w, first, last);
    if first < last {
      var idx1: nat, idx2: nat := w - 1, 0;
      AllLow(first, w);
      AllLow(last, w);
      NoBits(first);
      NoBits(last);
      while Bit(first, idx1) == Bit(last, idx1)
        invariant idx1 < w
        invariant Shr(first, idx1 + 1) == Shr(last, idx1 + 1)
        decreases idx1
      {
        OneMoreBit(first, idx1);
        OneMoreBit(last, idx1);
        idx1 := idx1 - 1;
      }
      var prefix := Shl(Shr(first, idx1 + 1), idx1 + 1);
      LowBitsNext(0, first, last);
      while idx2 <= idx1 && Bit(first, idx2) == 0 && Bit(last, idx2) == 1
        invariant idx2 <= idx1 + 1
        invariant LowBits(idx2, first, last)
      {
        LowBitsNext(idx2, first, last);
        idx2 := idx2 + 1;
      }
      assert prefix == Floor(first, idx1 + 1);
      if idx2 <= idx1 {
        SplitSize(idx1);
        SplitInTwo(w, idx1, idx2, first, last);
        var lo := Split(w, first, Or(prefix, MPow(2, idx1) - 1));
        var hi := Split(w, Or(prefix, Shl(1, idx1)), last);
        out := lo + hi;
      } else {
        LowBitsCover(w, idx1, first, last);
        out := [Block(prefix, idx2)];
      }
    } else {
      out := [Block(first, 0)];
      if first == last {
        SingleCover(w, first);
      }
    }
  }
}
