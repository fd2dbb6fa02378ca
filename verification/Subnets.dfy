/** Reducing a list of subnets to the widest ones (src/ClusterBootstrap/utils.py, keep_widest_subnet). */
module Subnets {
  import opened Jobs
  import opened Arithmetic
  import opened Binary
  import opened StableSort

  const ADDRESSES: int := 0x1_0000_0000

  /** One entry of the list: its text, the address ip2int reads from it and its mask, two decimal digits. */
  datatype Subnet = Subnet(text: string, ip: nat, mask: nat)

  predicate IsSubnet(s: Subnet) {
    s.ip < ADDRESSES && s.mask < 100
  }

  /** How many addresses a mask leaves open. */
  function Block(mask: nat): (b: nat)
    ensures b > 0
  {
    if mask <= 32 then Pow2(32 - mask) else 1
  }

  predicate Aligned(s: Subnet) {
    s.ip % Block(s.mask) == 0
  }

  /** The addresses of a subnet whose host bits are zero. */
  predicate InSubnet(a: nat, s: Subnet) {
    s.ip <= a < s.ip + Block(s.mask)
  }

  ghost predicate Contains(wide: Subnet, s: Subnet) {
    forall a: nat :: InSubnet(a, s) ==> InSubnet(a, wide)
  }

  ghost predicate Disjoint(s: Subnet, t: Subnet) {
    forall a: nat :: !(InSubnet(a, s) && InSubnet(a, t))
  }

  ghost predicate Covered(a: nat, subnets: set<Subnet>) {
    exists s :: s in subnets && InSubnet(a, s)
  }

  // ---- The masks of the original -------------------------------------------------------------------

  function MaskNum(mask: nat): nat {
    FromBinary(Repeat('1', mask) + Repeat('0', 32 - mask))
  }

  function RemainNum(mask: nat): nat {
    FromBinary(Repeat('0', mask) + Repeat('1', 32 - mask))
  }

  lemma RemainTest(s: Subnet)
    ensures And(RemainNum(s.mask), s.ip) == 0 <==> Aligned(s)
  {
    AndCommutes(RemainNum(s.mask), s.ip);
    if s.mask <= 32 {
      TwoRuns('0', s.mask, '1', 32 - s.mask);
      AndLow(s.ip, 32 - s.mask);
    } else {
      TwoRuns('0', s.mask, '1', 0);
    }
  }

  lemma {:induction false} AndCommutes(x: nat, y: nat)
    ensures And(x, y) == And(y, x)
  {
    if x != 0 && y != 0 {
      AndCommutes(x / 2, y / 2);
    }
  }

  /** Masking an address rounds it down to a multiple of the block. */
  lemma MaskRounds(ip: nat, mask: nat)
    requires ip < ADDRESSES
    ensures And(ip, MaskNum(mask)) == ip - ip % Block(mask)
  {
    Pow2Of32();
    if mask <= 32 {
      TwoRuns('1', mask, '0', 32 - mask);
      assert MaskNum(mask) == (Pow2(mask) - 1) * Pow2(32 - mask);
      AndHigh(ip, mask, 32 - mask, MaskNum(mask));
    } else {
      WideMask(ip, mask);
    }
  }

  /** Beyond 32 the mask string has more than 32 ones and clears nothing. */
  lemma WideMask(ip: nat, mask: nat)
    requires ip < ADDRESSES && mask > 32
    ensures And(ip, MaskNum(mask)) == ip
  {
    Pow2Of32();
    assert Repeat('1', mask) + Repeat('0', 32 - mask) == Repeat('1', mask);
    OneRun('1', mask);
    Pow2Adds(mask - 32, 32);
    MulMonotone(1, Pow2(mask - 32), Pow2(32));
    AndLow(ip, mask);
    DivModUnique(ip, Pow2(mask), 0, ip);
  }

  lemma Pow2Of32()
    ensures Pow2(32) == ADDRESSES
  {
    assert Pow2(8) == 256;
    Pow2Adds(8, 8);
    Pow2Adds(16, 16);
  }

  // ---- Aligned blocks ------------------------------------------------------------------------------

  lemma BlocksDivide(wide: nat, narrow: nat) returns (q: nat)
    requires wide <= narrow
    ensures q > 0 && Block(wide) == q * Block(narrow)
  {
    if narrow <= 32 {
      Pow2Adds(narrow - wide, 32 - narrow);
      q := Pow2(narrow - wide);
    } else {
      q := Block(wide);
    }
  }

  /** In units of the narrower block, the wider one starts at `j` and is `q` long, the narrower one sits at `i`. */
  lemma InUnits(wide: Subnet, s: Subnet) returns (i: nat, j: nat, q: nat)
    requires Aligned(wide) && Aligned(s) && wide.mask <= s.mask
    ensures q > 0 && Block(wide.mask) == q * Block(s.mask)
    ensures s.ip == i * Block(s.mask) && wide.ip == j * Block(s.mask)
    ensures wide.ip + Block(wide.mask) == (j + q) * Block(s.mask) && s.ip + Block(s.mask) == (i + 1) * Block(s.mask)
  {
    q := BlocksDivide(wide.mask, s.mask);
    i, j := s.ip / Block(s.mask), wide.ip / Block(wide.mask) * q;
    Multiple(s.ip, Block(s.mask));
    Multiple(wide.ip, Block(wide.mask));
    MulAssociates(wide.ip / Block(wide.mask), q, Block(s.mask));
    MulAdd(j, q, Block(s.mask));
    MulAdd(i, 1, Block(s.mask));
  }

  /** Aligned subnets are nested or disjoint; the wider one contains the narrower exactly when it contains its
      first address. */
  lemma NestedOrDisjoint(wide: Subnet, s: Subnet)
    requires Aligned(wide) && Aligned(s) && wide.mask <= s.mask
    ensures if InSubnet(s.ip, wide) then Contains(wide, s) else Disjoint(wide, s)
    ensures Contains(wide, s) <==> InSubnet(s.ip, wide)
  {
    var i, j, q := InUnits(wide, s);
    var b := Block(s.mask);
    Unscale(i, j, b);
    Unscale(i, j + q, b);
    Unscale(i + 1, j, b);
    Unscale(i + 1, j + q, b);
    assert InSubnet(s.ip, s);
  }

  /** The test of the original is containment. */
  lemma MaskedMeansContains(wide: Subnet, s: Subnet)
    requires IsSubnet(s) && Aligned(wide) && Aligned(s) && wide.mask < s.mask
    ensures And(s.ip, MaskNum(wide.mask)) == wide.ip <==> Contains(wide, s)
  {
    MaskRounds(s.ip, wide.mask);
    NestedOrDisjoint(wide, s);
    RoundsTo(s.ip, wide.ip, Block(wide.mask));
  }

  lemma RoundsTo(x: nat, y: nat, b: nat)
    requires b > 0 && y % b == 0
    ensures x - x % b == y <==> y <= x < y + b
  {
    assert y == (y / b) * b;
    if y <= x < y + b {
      DivModUnique(x, b, y / b, x - y);
    }
  }

  /** Subnets of one mask coincide or are disjoint. */
  lemma SameMask(s: Subnet, t: Subnet)
    requires Aligned(s) && Aligned(t) && s.mask == t.mask && Contains(s, t)
    ensures s.ip == t.ip
  {
    NestedOrDisjoint(s, t);
    RoundsTo(t.ip, s.ip, Block(s.mask));
  }

  // ---- The reduction -------------------------------------------------------------------------------

  method CheckCoveredByIpvals(ipvals: set<nat>, masked: nat) returns (covered: bool)
    ensures covered == (masked in ipvals)
  {
    var todo := ipvals;
    while todo != {}
      invariant todo <= ipvals && masked !in ipvals - todo
    {
      var wider :| wider in todo;
      if wider == masked {
        return true;
      }
      todo := todo - {wider};
    }
    return false;
  }

  method CheckCoveredByWiderIps(mask2ip: map<nat, set<nat>>, ip: nat, mask: nat) returns (covered: bool)
    ensures covered == exists m :: m in mask2ip && m < mask && And(ip, MaskNum(m)) in mask2ip[m]
  {
    var todo := mask2ip.Keys;
    while todo != {}
      invariant todo <= mask2ip.Keys
      invariant forall m | m in mask2ip.Keys - todo :: !(m < mask && And(ip, MaskNum(m)) in mask2ip[m])
    {
      var m :| m in todo;
      if m < mask {
        var found := CheckCoveredByIpvals(mask2ip[m], And(ip, MaskNum(m)));
        if found {
          return true;
        }
      }
      todo := todo - {m};
    }
    return false;
  }

  /** The index holds exactly the addresses of the kept subnets, by mask. */
  ghost predicate Indexes(mask2ip: map<nat, set<nat>>, kept: set<Subnet>) {
    && (forall s | s in kept :: s.mask in mask2ip && s.ip in mask2ip[s.mask])
    && (forall m, ip | m in mask2ip && ip in mask2ip[m] :: exists s :: s in kept && s.mask == m && s.ip == ip)
  }

  /** What has been kept of `done`: the same addresses, nothing inside another, what is missing inside something kept. */
  ghost predicate Reduces(kept: set<Subnet>, done: seq<Subnet>) {
    && (forall s | s in kept :: s in done)
    && (forall s, t | s in kept && t in kept && Contains(s, t) :: s.ip == t.ip && s.mask == t.mask)
    && (forall s | s in done && s !in kept :: exists w :: w in kept && w.mask < s.mask && Contains(w, s))
  }

  function ByMask(): (Subnet, Subnet) -> bool {
    (s: Subnet, t: Subnet) => s.mask <= t.mask
  }

  datatype Result = Kept(subnets: set<Subnet>) | InvalidSubnet(s: Subnet)

  method KeepWidestSubnet(ips: seq<Subnet>) returns (r: Result)
    requires forall s | s in ips :: IsSubnet(s)
    ensures r.InvalidSubnet? ==> r.s in ips && !Aligned(r.s)
    ensures r.Kept? ==> Reduces(r.subnets, ips) && forall s | s in ips :: Aligned(s)
  {
    var sorted := Sort(ByMask(), ips);
    SortSorts(ByMask(), ips);
    SortMembers(ByMask(), ips);
    r := KeepFromSorted(sorted);
    if r.Kept? {
      SameMembers(r.subnets, sorted, ips);
    }
  }

  /** The loop, over the subnets from the widest mask on. */
  method KeepFromSorted(sorted: seq<Subnet>) returns (r: Result)
    requires Sorted(ByMask(), sorted) && forall s | s in sorted :: IsSubnet(s)
    ensures r.InvalidSubnet? ==> r.s in sorted && !Aligned(r.s)
    ensures r.Kept? ==> Reduces(r.subnets, sorted) && forall s | s in sorted :: Aligned(s)
  {
    var kept: set<Subnet> := {};
    var mask2ip: map<nat, set<nat>> := map[];
    for i := 0 to |sorted|
      invariant forall k | 0 <= k < i :: Aligned(sorted[k])
      invariant Indexes(mask2ip, kept) && Reduces(kept, sorted[..i])
    {
      assert sorted[i] in sorted;
      RemainTest(sorted[i]);
      if And(RemainNum(sorted[i].mask), sorted[i].ip) != 0 {
        return InvalidSubnet(sorted[i]);
      }
      mask2ip, kept := KeepNext(mask2ip, kept, sorted, i);
    }
    assert sorted[..|sorted|] == sorted;
    r := Kept(kept);
  }

  lemma SameMembers(kept: set<Subnet>, sorted: seq<Subnet>, ips: seq<Subnet>)
    requires Reduces(kept, sorted) && forall s :: s in sorted <==> s in ips
    ensures Reduces(kept, ips)
  {
  }

  method KeepNext(mask2ip: map<nat, set<nat>>, kept: set<Subnet>, sorted: seq<Subnet>, i: nat)
    returns (mask2ip': map<nat, set<nat>>, kept': set<Subnet>)
    requires i < |sorted| && Sorted(ByMask(), sorted) && IsSubnet(sorted[i]) && forall k | 0 <= k <= i :: Aligned(sorted[k])
    requires Indexes(mask2ip, kept) && Reduces(kept, sorted[..i])
    ensures Indexes(mask2ip', kept') && Reduces(kept', sorted[..i + 1])
  {
    KeptSoFar(kept, sorted, i);
    mask2ip', kept' := Consider(mask2ip, kept, sorted[i], sorted[..i]);
    assert sorted[..i + 1] == sorted[..i] + [sorted[i]];
  }

  /** Drops a subnet that something wider covers, keeps and indexes it otherwise. */
  method Consider(mask2ip: map<nat, set<nat>>, kept: set<Subnet>, s: Subnet, ghost done: seq<Subnet>)
    returns (mask2ip': map<nat, set<nat>>, kept': set<Subnet>)
    requires Indexes(mask2ip, kept) && Reduces(kept, done) && IsSubnet(s) && Aligned(s)
    requires forall w | w in kept :: Aligned(w) && w.mask <= s.mask
    ensures Indexes(mask2ip', kept') && Reduces(kept', done + [s])
  {
    CoveredMeansInside(mask2ip, kept, s);
    var covered := CheckCoveredByWiderIps(mask2ip, s.ip, s.mask);
    if covered {
      return mask2ip, kept;
    }
    KeepStep(kept, done, s);
    IndexStep(mask2ip, kept, s);
    mask2ip', kept' := mask2ip, kept + {s};
    if s.mask !in mask2ip' {
      mask2ip' := mask2ip'[s.mask := {}];
    }
    mask2ip' := mask2ip'[s.mask := mask2ip'[s.mask] + {s.ip}];
  }

  lemma KeptSoFar(kept: set<Subnet>, sorted: seq<Subnet>, i: nat)
    requires i < |sorted| && Reduces(kept, sorted[..i]) && Sorted(ByMask(), sorted)
    requires forall k | 0 <= k < i :: Aligned(sorted[k])
    ensures forall t | t in kept :: t.mask <= sorted[i].mask && Aligned(t)
  {
    forall t | t in kept ensures t.mask <= sorted[i].mask && Aligned(t) {
      var k :| 0 <= k < i && sorted[..i][k] == t;
      assert ByMask()(sorted[k], sorted[i]);
    }
  }

  lemma IndexStep(mask2ip: map<nat, set<nat>>, kept: set<Subnet>, s: Subnet)
    requires Indexes(mask2ip, kept)
    ensures Indexes(mask2ip[s.mask := (if s.mask in mask2ip then mask2ip[s.mask] else {}) + {s.ip}], kept + {s})
  {
    var index := mask2ip[s.mask := (if s.mask in mask2ip then mask2ip[s.mask] else {}) + {s.ip}];
    forall m, ip | m in index && ip in index[m] ensures exists t :: t in kept + {s} && t.mask == m && t.ip == ip {
      if m == s.mask && ip == s.ip {
        assert s in kept + {s};
      } else {
        assert m in mask2ip && ip in mask2ip[m];
        var t :| t in kept && t.mask == m && t.ip == ip;
        assert t in kept + {s};
      }
    }
  }

  lemma CoveredMeansInside(mask2ip: map<nat, set<nat>>, kept: set<Subnet>, s: Subnet)
    requires Indexes(mask2ip, kept) && IsSubnet(s) && Aligned(s) && forall w | w in kept :: Aligned(w)
    ensures (exists m :: m in mask2ip && m < s.mask && And(s.ip, MaskNum(m)) in mask2ip[m]) <==>
            exists w :: w in kept && w.mask < s.mask && Contains(w, s)
  {
    forall w | w in kept && w.mask < s.mask
      ensures And(s.ip, MaskNum(w.mask)) == w.ip <==> Contains(w, s)
    {
      MaskedMeansContains(w, s);
    }
  }

  /** Keeping an uncovered subnet whose mask is at least those kept before. */
  lemma KeepStep(kept: set<Subnet>, done: seq<Subnet>, s: Subnet)
    requires Reduces(kept, done) && Aligned(s) && forall w | w in kept :: Aligned(w) && w.mask <= s.mask
    requires !exists w :: w in kept && w.mask < s.mask && Contains(w, s)
    ensures Reduces(kept + {s}, done + [s])
  {
    forall t | t in kept && (Contains(t, s) || Contains(s, t)) ensures s.ip == t.ip && s.mask == t.mask {
      if t.mask == s.mask {
        if Contains(t, s) { SameMask(t, s); } else { SameMask(s, t); }
      } else {
        WiderNotInside(t, s);
      }
    }
  }

  lemma WiderNotInside(wide: Subnet, s: Subnet)
    requires Aligned(wide) && Aligned(s) && wide.mask < s.mask && Contains(s, wide)
    ensures Contains(wide, s)
  {
    assert InSubnet(wide.ip, wide) && InSubnet(wide.ip, s);
    NestedOrDisjoint(wide, s);
  }

  /** Consequences for the whole list: the kept subnets cover exactly the addresses of the input, and two kept
      subnets are the same pair of address and mask or have no address in common. */
  lemma ReducedCover(kept: set<Subnet>, ips: seq<Subnet>)
    requires Reduces(kept, ips) && forall s | s in ips :: Aligned(s)
    ensures forall a: nat :: Covered(a, set s | s in ips) <==> Covered(a, kept)
    ensures forall s, t | s in kept && t in kept :: (s.ip == t.ip && s.mask == t.mask) || Disjoint(s, t)
  {
    forall a: nat | Covered(a, set s | s in ips) ensures Covered(a, kept) {
      var s :| s in ips && InSubnet(a, s);
      if s !in kept {
        var w :| w in kept && w.mask < s.mask && Contains(w, s);
        assert InSubnet(a, w);
      }
    }
    forall s, t | s in kept && t in kept ensures (s.ip == t.ip && s.mask == t.mask) || Disjoint(s, t) {
      if s.mask <= t.mask { NestedOrDisjoint(s, t); } else { NestedOrDisjoint(t, s); }
    }
  }
}
