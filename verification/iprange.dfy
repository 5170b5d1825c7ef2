/** The generic `iprange` type of `iprange.c`: a range tagged with its
    family, where the tag 0 stands for the universal range `-` that holds
    every IPv4 and every IPv6 address.  This module gives its compact
    stored form, its total order, the set rules across families, the
    CIDR split of the universal range, and the GiST union, picksplit and
    consistency rules over keys of mixed families. */
module IpRange {
  import opened Bits
  import opened Wrappers
  import opened Ip6rFuncs
  import opened Picksplit
  import F4 = Ip4rFuncs
  import Ipr
  import Ip4r
  import Ip6r

  /** An unpacked `iprange`: the tag returned by `ipr_unpack` together with
      the member of the `IPR` union that tag selects. */
  datatype IPR = Universal | R4(r4: F4.IP4R) | R6(r6: IP6R) {

    /** A concrete range has its bounds in order. */
    predicate Valid() {
      match this
      case Universal => true
      case R4(c) => c.Valid()
      case R6(c) => c.Valid()
    }
  }

  /** The family tag: 0, `PGSQL_AF_INET` or `PGSQL_AF_INET6`. */
  function Af(r: IPR): (af: int)
    ensures af == Ipr.AfUniversal <==> r.Universal?
    ensures af == Ipr.AfInet <==> r.R4?
    ensures af == Ipr.AfInet6 <==> r.R6?
  {
    match r
    case Universal => Ipr.AfUniversal
    case R4(_) => Ipr.AfInet
    case R6(_) => Ipr.AfInet6
  }

  /** The meaning of a range: the addresses it holds.  The universal range
      holds the addresses of both families; a concrete range holds the
      addresses of its own family between its bounds. */
  predicate Has(r: IPR, x: Ipr.IP) {
    match r
    case Universal => true
    case R4(c) => x.V4? && c.Has(x.ip4)
    case R6(c) => x.V6? && c.Has(x.ip6.Val())
  }

  // ---------------------------------------------------------------------
  // The stored form

  /** The data of a stored `iprange`: its length in bytes, the prefix-length
      byte of the 9- and 17-byte forms, and the words `memcpy` copies after
      it, in order.  The host byte order of those words is not modelled. */
  datatype Packed = Packed(len: nat, pfxlen: nat, words: seq<nat>)

  /** The number of words each data length holds: two 32-bit words for an
      IPv4 range, one or two 64-bit limbs after the prefix byte, or the
      four limbs of an arbitrary IPv6 range. */
  function WordCount(len: nat): nat {
    if len == 8 then 2
    else if len == 9 then 1
    else if len == 17 then 2
    else if len == 32 then 4
    else 0
  }

  /** A stored datum is as long as its length says: the words fit their
      width, and a prefix byte written by `ipr_pack` is at most 128. */
  predicate Sized(p: Packed) {
    && |p.words| == WordCount(p.len)
    && (forall i :: 0 <= i < |p.words| ==> p.words[i] < (if p.len == 8 then TWO32 else TWO64))
    && p.pfxlen <= 128
  }

  /** `ipr_pack`: nothing for the universal range, eight bytes for any IPv4
      range, and for IPv6 the prefix length and the lower bound's high limb
      for blocks of `/64` or shorter, the prefix length and the whole lower
      bound for longer blocks, and both bounds otherwise. */
  function Pack(r: IPR): (p: Packed)
    ensures Sized(p)
    ensures p.len == 0 <==> r.Universal?
    ensures p.len == 8 <==> r.R4?
    ensures p.len == 9 <==> r.R6? && exists n: nat :: n <= 64 && IsCidr6(r.r6.lower, r.r6.upper, n)
    ensures p.len == 17 <==> r.R6? && exists n: nat :: 64 < n && IsCidr6(r.r6.lower, r.r6.upper, n)
    ensures p.len == 32 <==> r.R6? && forall n: nat :: !IsCidr6(r.r6.lower, r.r6.upper, n)
  {
    match r
    case Universal => Packed(0, 0, [])
    case R4(c) => Packed(8, 0, [c.lower, c.upper])
    case R6(c) =>
      var m := Masklen6(c.lower, c.upper);
      MasklenOfRange(c);
      if m.Some? && m.value <= 64 then Packed(9, m.value, [c.lower.hi])
      else if m.Some? then Packed(17, m.value, [c.lower.hi, c.lower.lo])
      else Packed(32, 0, [c.lower.hi, c.lower.lo, c.upper.hi, c.upper.lo])
  }

  /** What `masklen6` finds for a range: a length of at most 128 exactly
      when the range is that block, and nothing when it is no block. */
  lemma MasklenOfRange(c: IP6R)
    ensures Masklen6(c.lower, c.upper).Some? ==>
              Masklen6(c.lower, c.upper).value <= 128
              && IsCidr6(c.lower, c.upper, Masklen6(c.lower, c.upper).value)
    ensures forall n: nat :: IsCidr6(c.lower, c.upper, n) ==> Masklen6(c.lower, c.upper) == Some(n)
  {
    forall n: nat | IsCidr6(c.lower, c.upper, n)
      ensures Masklen6(c.lower, c.upper) == Some(n)
    {
      Masklen6Iff(c.lower, c.upper, n);
    }
    if Masklen6(c.lower, c.upper).Some? {
      Masklen6Iff(c.lower, c.upper, Masklen6(c.lower, c.upper).value);
    }
  }

  /** `ipr_unpack`: the form is chosen by the data length alone, and any
      other length is an internal error.  The prefix forms rebuild the
      upper bound as `lower | hostmask6(pfxlen)`; in the 9-byte form the
      low limb of the lower bound is zero, so the upper low limb is the
      host mask itself. */
  function Unpack(p: Packed): (r: Result<IPR, Error>)
    requires Sized(p)
    ensures r.Success? <==> p.len in {0, 8, 9, 17, 32}
    ensures r.Success? ==> (r.value.Universal? <==> p.len == 0)
    ensures r.Success? ==> (r.value.R4? <==> p.len == 8)
    ensures r.Failure? ==> r.error == InternalError
  {
    var w := p.words;
    if p.len == 0 then Success(Universal)
    else if p.len == 8 then Success(R4(F4.IP4R(w[0], w[1])))
    else if p.len == 9 then
      var lower := IP6(w[0], 0);
      Success(R6(IP6R(lower, Op6(OrOp, lower, Hostmask6(p.pfxlen)))))
    else if p.len == 17 then
      var lower := IP6(w[0], w[1]);
      Success(R6(IP6R(lower, Op6(OrOp, lower, Hostmask6(p.pfxlen)))))
    else if p.len == 32 then Success(R6(IP6R(IP6(w[0], w[1]), IP6(w[2], w[3]))))
    else Failure(InternalError)
  }

  /** Unpacking what `ipr_pack` stored gives back the tag and the range. */
  lemma PackRoundTrip(r: IPR)
    ensures Unpack(Pack(r)) == Success(r)
  {
    if r.R6? {
      var c := r.r6;
      MasklenOfRange(c);
      var m := Masklen6(c.lower, c.upper);
      if m.Some? {
        var n := m.value;
        PrefixRebuilt(c, n);
        if n <= 64 {
          BlockHigh(c.lower, c.upper, 128 - n);
          assert IP6(c.lower.hi, 0) == c.lower;
        }
      }
    }
  }

  /** A block's upper bound is its lower bound or-ed with the host mask. */
  lemma PrefixRebuilt(c: IP6R, n: nat)
    requires IsCidr6(c.lower, c.upper, n)
    ensures Op6(OrOp, c.lower, Hostmask6(n)) == c.upper
  {
    MaskBits6(c.lower, n);
    ValOrder(Op6(OrOp, c.lower, Hostmask6(n)), c.upper);
  }

  // ---------------------------------------------------------------------
  // Ordering

  /** The sort key of `iprange_cmp_internal`: the family tag first, then the
      bounds of a concrete range. */
  function Rank(r: IPR): (int, nat, nat) {
    match r
    case Universal => (Ipr.AfUniversal, 0, 0)
    case R4(c) => (Ipr.AfInet, c.lower, c.upper)
    case R6(c) => (Ipr.AfInet6, c.lower.Val(), c.upper.Val())
  }

  /** Lexicographic order on sort keys. */
  predicate LexLess(a: (int, nat, nat), b: (int, nat, nat)) {
    a.0 < b.0 || (a.0 == b.0 && (a.1 < b.1 || (a.1 == b.1 && a.2 < b.2)))
  }

  /** Distinct ranges have distinct sort keys. */
  lemma RankInjective(a: IPR, b: IPR)
    ensures Rank(a) == Rank(b) <==> a == b
  {
    if a.R6? && b.R6? {
      ValOrder(a.r6.lower, b.r6.lower);
      ValOrder(a.r6.upper, b.r6.upper);
    }
  }

  /** `iprange_cmp_internal`: the universal range first, then IPv4, then
      IPv6; within a family by lower bound and then upper bound. */
  function Cmp(a: IPR, b: IPR): (r: int)
    ensures r == -1 || r == 0 || r == 1
    ensures r < 0 <==> LexLess(Rank(a), Rank(b))
    ensures r == 0 <==> a == b
    ensures r > 0 <==> LexLess(Rank(b), Rank(a))
  {
    RankInjective(a, b);
    if Af(a) == Af(b) then
      match (a, b)
      case (R4(x), R4(y)) =>
        if F4.LessThan(x, y) then -1 else if F4.LessThan(y, x) then 1 else 0
      case (R6(x), R6(y)) =>
        if RangeLessThan6(x, y) then -1 else if RangeLessThan6(y, x) then 1 else 0
      case _ => 0
    else if Af(a) < Af(b) then -1
    else 1
  }

  /** The order is antisymmetric and transitive, as a sort needs. */
  lemma CmpOrder(a: IPR, b: IPR, c: IPR)
    ensures Cmp(a, b) == -Cmp(b, a)
    ensures Cmp(a, b) < 0 && Cmp(b, c) < 0 ==> Cmp(a, c) < 0
    ensures Cmp(a, b) <= 0 && Cmp(b, c) <= 0 ==> Cmp(a, c) <= 0
  {
  }

  // ---------------------------------------------------------------------
  // Set rules across families

  /** `iprange_overlaps_internal`: two universal ranges overlap, a universal
      range overlaps everything, and ranges of different concrete families
      never do. */
  function Overlaps(a: IPR, b: IPR): (r: bool)
    ensures a.Valid() && b.Valid() ==> (r <==> exists x :: Has(a, x) && Has(b, x))
  {
    if a.Universal? && b.Universal? then
      assert Has(a, Ipr.V4(0)) && Has(b, Ipr.V4(0));
      true
    else if a.R4? && b.R4? then
      var x, y := a.r4, b.r4;
      if F4.Overlaps(x, y) then
        Has4(a, x.lower); Has4(b, x.lower); Has4(a, y.lower); Has4(b, y.lower);
        true
      else
        NoCommon4(x, y);
        false
    else if a.R6? && b.R6? then
      var x, y := a.r6, b.r6;
      if Overlaps6(x, y) then
        Has6(a, x.lower); Has6(b, x.lower); Has6(a, y.lower); Has6(b, y.lower);
        true
      else
        NoCommon6(x, y);
        false
    else if a.Universal? || b.Universal? then
      var c := if a.Universal? then b else a;
      assert c.Valid() ==> Has(c, Low(c)) && Has(a, Low(c)) && Has(b, Low(c));
      true
    else
      false
  }

  /** The lower bound of a range as an address; the all-zero IPv4 address
      for the universal range. */
  function Low(r: IPR): Ipr.IP {
    match r
    case Universal => Ipr.V4(0)
    case R4(c) => Ipr.V4(c.lower)
    case R6(c) => Ipr.V6(c.lower)
  }

  /** The upper bound of a range as an address. */
  function High(r: IPR): Ipr.IP {
    match r
    case Universal => Ipr.V6(IP6(MAX64, MAX64))
    case R4(c) => Ipr.V4(c.upper)
    case R6(c) => Ipr.V6(c.upper)
  }

  lemma Has4(r: IPR, a: u32)
    requires r.R4?
    ensures Has(r, Ipr.V4(a)) <==> r.r4.Has(a)
  {
  }

  lemma Has6(r: IPR, a: IP6)
    requires r.R6?
    ensures Has(r, Ipr.V6(a)) <==> r.r6.Has(a.Val())
  {
  }

  /** IPv4 ranges without a common number have no common address. */
  lemma NoCommon4(x: F4.IP4R, y: F4.IP4R)
    requires forall n: nat :: !(x.Has(n) && y.Has(n))
    ensures forall a :: !(Has(R4(x), a) && Has(R4(y), a))
  {
    forall a
      ensures !(Has(R4(x), a) && Has(R4(y), a))
    {
      if a.V4? {
        assert !(x.Has(a.ip4) && y.Has(a.ip4));
      }
    }
  }

  /** IPv6 ranges without a common number have no common address. */
  lemma NoCommon6(x: IP6R, y: IP6R)
    requires forall n: nat :: !(x.Has(n) && y.Has(n))
    ensures forall a :: !(Has(R6(x), a) && Has(R6(y), a))
  {
    forall a
      ensures !(Has(R6(x), a) && Has(R6(y), a))
    {
      if a.V6? {
        assert !(x.Has(a.ip6.Val()) && y.Has(a.ip6.Val()));
      }
    }
  }

  /** Every number an IPv4 range holds is an IPv4 address, so containment
      of numbers and of addresses agree. */
  lemma Subset4(x: F4.IP4R, y: F4.IP4R)
    ensures (forall a :: Has(R4(y), a) ==> Has(R4(x), a))
            <==> (forall n: nat :: y.Has(n) ==> x.Has(n))
  {
    if forall a :: Has(R4(y), a) ==> Has(R4(x), a) {
      forall n: nat | y.Has(n)
        ensures x.Has(n)
      {
        assert Has(R4(y), Ipr.V4(n));
      }
    }
  }

  /** Every number an IPv6 range holds is the value of an IPv6 address. */
  lemma Subset6(x: IP6R, y: IP6R)
    ensures (forall a :: Has(R6(y), a) ==> Has(R6(x), a))
            <==> (forall n: nat :: y.Has(n) ==> x.Has(n))
  {
    if forall a :: Has(R6(y), a) ==> Has(R6(x), a) {
      forall n: nat | y.Has(n)
        ensures x.Has(n)
      {
        ValOrder(y.upper, y.upper);
        assert Has(R6(y), Ipr.V6(FromVal(n)));
      }
    }
  }

  /** An address of the family a concrete range does not hold. */
  function Outside(a: IPR): Ipr.IP {
    if a.R4? then Ipr.V6(Zero6) else Ipr.V4(0)
  }

  /** `iprange_contains_internal`: `eqval` for two universal ranges, true
      when only the left one is universal, false for different families,
      and the family's own test otherwise. */
  function Contains(a: IPR, b: IPR, eqval: bool): (r: bool)
    ensures a.Valid() && b.Valid() ==>
              (r <==> if a == b then eqval else forall x :: Has(b, x) ==> Has(a, x))
  {
    if a.Universal? && b.Universal? then eqval
    else if a.R4? && b.R4? then
      Subset4(a.r4, b.r4);
      F4.ContainsInternal(a.r4, b.r4, eqval)
    else if a.R6? && b.R6? then
      Subset6(a.r6, b.r6);
      ContainsInternal6(a.r6, b.r6, eqval)
    else
      var w := if b.Universal? then Outside(a) else Low(b);
      assert !a.Universal? && b.Valid() ==> Has(b, w) && !Has(a, w);
      a.Universal?
  }

  /** `iprange_contains_ip_internal`: a universal range holds every
      address, a concrete range only those of its family within it. */
  function ContainsIp(a: IPR, ip: Ipr.IP): (r: bool)
    ensures r <==> Has(a, ip)
  {
    if Af(a) == Ipr.FamilyOf(ip) then
      if a.R4? then F4.ContainsIp(a.r4, ip.ip4) else ContainsIp6(a.r6, ip.ip6)
    else
      a.Universal?
  }

  /** `c` bounds `a` as a GiST key: it is universal, or a range of the same
      family enclosing it. */
  predicate Encloses(c: IPR, a: IPR) {
    || c.Universal?
    || (c.R4? && a.R4? && F4.Encloses(c.r4, a.r4))
    || (c.R6? && a.R6? && Encloses6(c.r6, a.r6))
  }

  /** Bounding a valid range is holding every address it holds. */
  lemma EnclosesMeaning(c: IPR, a: IPR)
    requires a.Valid()
    ensures Encloses(c, a) <==> forall x :: Has(a, x) ==> Has(c, x)
  {
    if forall x :: Has(a, x) ==> Has(c, x) {
      if !c.Universal? {
        if a.Universal? {
          assert Has(a, Outside(c));
        } else {
          assert Has(a, Low(a)) && Has(a, High(a));
        }
      }
    }
  }

  /** `iprange_union`: the universal range for different families, else
      the family's bounding range. */
  function Union(a: IPR, b: IPR): (r: IPR)
    ensures Encloses(r, a) && Encloses(r, b)
    ensures forall c :: Encloses(c, a) && Encloses(c, b) ==> Encloses(c, r)
    ensures r.Universal? <==> a.Universal? || Af(a) != Af(b)
  {
    if a.R4? && b.R4? then R4(F4.Union(a.r4, b.r4))
    else if a.R6? && b.R6? then R6(Union6(a.r6, b.r6))
    else Universal
  }

  /** `iprange_inter`: the universal range for two universal ranges, the
      other operand when one is universal, the family's overlap for the
      same family, and NULL for disjoint ranges or different concrete
      families. */
  function Inter(a: IPR, b: IPR): (r: Option<IPR>)
    ensures a.Valid() && b.Valid() ==> (r.None? <==> forall x :: !(Has(a, x) && Has(b, x)))
    ensures r.Some? ==> forall x :: Has(r.value, x) <==> Has(a, x) && Has(b, x)
  {
    if a.Universal? && b.Universal? then
      assert Has(a, Ipr.V4(0)) && Has(b, Ipr.V4(0));
      Some(Universal)
    else if a.R4? && b.R4? then
      match F4.Inter(a.r4, b.r4)
      case None =>
        NoCommon4(a.r4, b.r4);
        None
      case Some(c) =>
        Meet4(a.r4, b.r4, c);
        Some(R4(c))
    else if a.R6? && b.R6? then
      match Inter6(a.r6, b.r6)
      case None =>
        NoCommon6(a.r6, b.r6);
        None
      case Some(c) =>
        Meet6(a.r6, b.r6, c);
        Some(R6(c))
    else if a.Universal? then
      assert b.Valid() ==> Has(a, Low(b)) && Has(b, Low(b));
      Some(b)
    else if b.Universal? then
      assert a.Valid() ==> Has(a, Low(a)) && Has(b, Low(a));
      Some(a)
    else
      assert forall x :: !(Has(a, x) && Has(b, x));
      None
  }

  /** An overlap of numbers is an overlap of addresses, and a non-empty
      one has a common address. */
  lemma Meet4(x: F4.IP4R, y: F4.IP4R, c: F4.IP4R)
    requires forall n: nat :: c.Has(n) <==> x.Has(n) && y.Has(n)
    ensures forall a :: Has(R4(c), a) <==> Has(R4(x), a) && Has(R4(y), a)
    ensures c.Valid() ==> Has(R4(x), Ipr.V4(c.lower)) && Has(R4(y), Ipr.V4(c.lower))
  {
    assert c.Valid() ==> c.Has(c.lower);
  }

  lemma Meet6(x: IP6R, y: IP6R, c: IP6R)
    requires forall n: nat :: c.Has(n) <==> x.Has(n) && y.Has(n)
    ensures forall a :: Has(R6(c), a) <==> Has(R6(x), a) && Has(R6(y), a)
    ensures c.Valid() ==> Has(R6(x), Ipr.V6(c.lower)) && Has(R6(y), Ipr.V6(c.lower))
  {
    assert c.Valid() ==> c.Has(c.lower.Val());
  }

  // ---------------------------------------------------------------------
  // CIDR split

  /** `iprange_cidr_split`: the universal range becomes the two whole
      families `0.0.0.0/0` and `::/0`; a concrete range becomes the blocks
      of its family's split. */
  function CidrSplit(r: IPR): (rows: seq<IPR>)
    requires r.Valid()
    ensures r.Universal? ==> |rows| == 2 && rows[0].R4? && rows[1].R6?
    ensures forall i :: 0 <= i < |rows| ==>
              rows[i].Valid() && IsBlockRange(rows[i]) && (r.Universal? || Af(rows[i]) == Af(r))
  {
    match r
    case Universal => WholeRows(0, MAX32, IP6(0, 0), IP6(MAX64, MAX64))
    case R4(c) => Rows4(c)
    case R6(c) => Rows6(c)
  }

  /** The two rows of the universal range, given the bounds of the whole
      families (`netmask(0)` to `hostmask(0)` and its IPv6 twin, see
      `WholeMasks`). */
  function WholeRows(lo4: u32, hi4: u32, lo6: IP6, hi6: IP6): (rows: seq<IPR>)
    requires lo4 == 0 && hi4 == MAX32
    requires lo6 == IP6(0, 0) && hi6 == IP6(MAX64, MAX64)
    ensures |rows| == 2 && rows[0].R4? && rows[1].R6?
    ensures forall i :: 0 <= i < |rows| ==> rows[i].Valid() && IsBlockRange(rows[i])
  {
    WholeBlock4(lo4, hi4);
    WholeBlock6(lo6, hi6);
    [R4(F4.IP4R(lo4, hi4)), R6(IP6R(lo6, hi6))]
  }

  /** The blocks of `ip4r_cidr_split`, as IPv4 rows. */
  function Rows4(c: F4.IP4R): (rows: seq<IPR>)
    requires c.Valid()
    ensures forall i :: 0 <= i < |rows| ==> rows[i].R4? && rows[i].Valid() && IsBlockRange(rows[i])
  {
    var p := F4.SplitAll(c);
    F4.SplitAllTiles(c);
    seq(|p|, i requires 0 <= i < |p| => R4(p[i]))
  }

  /** The blocks of `ip6r_cidr_split`, as IPv6 rows. */
  function Rows6(c: IP6R): (rows: seq<IPR>)
    requires c.Valid()
    ensures forall i :: 0 <= i < |rows| ==> rows[i].R6? && rows[i].Valid() && IsBlockRange(rows[i])
  {
    var p := SplitAll6(c);
    SplitAll6Tiles(c);
    seq(|p|, i requires 0 <= i < |p| => R6(p[i]))
  }

  /** A concrete range that is one CIDR block. */
  predicate IsBlockRange(r: IPR) {
    match r
    case Universal => false
    case R4(c) => F4.Masklen(c.lower, c.upper).Some?
    case R6(c) => Masklen6(c.lower, c.upper).Some?
  }

  /** `0.0.0.0/0` is the block spanning all of IPv4. */
  lemma WholeBlock4(lo: u32, hi: u32)
    requires lo == 0 && hi == MAX32
    ensures F4.Masklen(lo, hi) == Some(0)
  {
    F4.WholeSpaceIsCidr();
    F4.MasklenWhole(lo, hi);
  }

  /** `::/0` is the block spanning all of IPv6. */
  lemma WholeBlock6(lo: IP6, hi: IP6)
    requires lo == IP6(0, 0) && hi == IP6(MAX64, MAX64)
    ensures Masklen6(lo, hi) == Some(0)
  {
    WholeRow6(Netmask6(0), Hostmask6(0));
  }

  /** The masks of length 0 are the bounds of the whole families. */
  lemma WholeMasks()
    ensures F4.Netmask(0) == 0 && F4.Hostmask(0) == MAX32
    ensures Netmask6(0) == IP6(0, 0) && Hostmask6(0) == IP6(MAX64, MAX64)
  {
    WholeRow4(F4.Netmask(0), F4.Hostmask(0));
    WholeRow6(Netmask6(0), Hostmask6(0));
  }

  lemma WholeRow4(lo: u32, hi: u32)
    requires lo == F4.Netmask(0) && hi == F4.Hostmask(0)
    ensures lo == 0 && hi == MAX32
  {
    Pow2Of32();
  }

  lemma WholeRow6(lo: IP6, hi: IP6)
    requires lo == Netmask6(0) && hi == Hostmask6(0)
    ensures lo == IP6(0, 0) && hi == IP6(MAX64, MAX64)
    ensures Masklen6(lo, hi) == Some(0)
  {
    assert hi.Val() == TWO128 - 1 && lo.Val() == 0 by {
      Pow2Values();
    }
    ValOrder(lo, IP6(0, 0));
    ValOrder(hi, IP6(MAX64, MAX64));
    assert IsCidr6(lo, hi, 0) by {
      Pow2Values();
      ShrLowSmall(0, 128);
    }
    Masklen6Iff(lo, hi, 0);
  }

  /** The rows of the split are CIDR blocks that together hold exactly the
      addresses of the range, each in one row only. */
  lemma CidrSplitCovers(r: IPR, x: Ipr.IP)
    requires r.Valid()
    ensures Has(r, x) <==> exists i :: 0 <= i < |CidrSplit(r)| && Has(CidrSplit(r)[i], x)
    ensures forall i, j :: 0 <= i < j < |CidrSplit(r)| ==> !(Has(CidrSplit(r)[i], x) && Has(CidrSplit(r)[j], x))
  {
    match r
    case Universal => CoversWhole(x);
    case R4(c) =>
      assert CidrSplit(r) == Rows4(c);
      Covers4(c, x);
      Disjoint4(c, x);
    case R6(c) =>
      assert CidrSplit(r) == Rows6(c);
      Covers6(c, x);
      Disjoint6(c, x);
  }

  lemma CoversWhole(x: Ipr.IP)
    ensures exists i :: 0 <= i < |CidrSplit(Universal)| && Has(CidrSplit(Universal)[i], x)
    ensures forall i, j :: 0 <= i < j < |CidrSplit(Universal)| ==>
              !(Has(CidrSplit(Universal)[i], x) && Has(CidrSplit(Universal)[j], x))
  {
    var rows := CidrSplit(Universal);
    assert rows == WholeRows(0, MAX32, IP6(0, 0), IP6(MAX64, MAX64));
    if x.V4? {
      assert Has(rows[0], x);
    } else {
      ValOrder(x.ip6, IP6(0, 0));
      ValOrder(x.ip6, IP6(MAX64, MAX64));
      assert Has(rows[1], x);
    }
  }

  lemma Covers4(c: F4.IP4R, x: Ipr.IP)
    requires c.Valid()
    ensures Has(R4(c), x) <==> exists i :: 0 <= i < |Rows4(c)| && Has(Rows4(c)[i], x)
  {
    var p := F4.SplitAll(c);
    F4.SplitAllTiles(c);
    if x.V4? {
      F4.TilesCover(p, c.lower, c.upper, x.ip4);
      if Has(R4(c), x) {
        var i :| 0 <= i < |p| && p[i].Has(x.ip4);
        assert Has(Rows4(c)[i], x);
      }
    }
  }

  lemma Disjoint4(c: F4.IP4R, x: Ipr.IP)
    requires c.Valid()
    ensures forall i, j :: 0 <= i < j < |Rows4(c)| ==> !(Has(Rows4(c)[i], x) && Has(Rows4(c)[j], x))
  {
    var p := F4.SplitAll(c);
    F4.SplitAllTiles(c);
    if x.V4? {
      F4.TilesCover(p, c.lower, c.upper, x.ip4);
    }
  }

  lemma Covers6(c: IP6R, x: Ipr.IP)
    requires c.Valid()
    ensures Has(R6(c), x) <==> exists i :: 0 <= i < |Rows6(c)| && Has(Rows6(c)[i], x)
  {
    var p := SplitAll6(c);
    SplitAll6Tiles(c);
    if x.V6? {
      Tiles6Cover(p, c.lower.Val(), c.upper.Val(), x.ip6.Val());
      if Has(R6(c), x) {
        var i :| 0 <= i < |p| && p[i].Has(x.ip6.Val());
        assert Has(Rows6(c)[i], x);
      }
    }
  }

  lemma Disjoint6(c: IP6R, x: Ipr.IP)
    requires c.Valid()
    ensures forall i, j :: 0 <= i < j < |Rows6(c)| ==> !(Has(Rows6(c)[i], x) && Has(Rows6(c)[j], x))
  {
    var p := SplitAll6(c);
    SplitAll6Tiles(c);
    if x.V6? {
      Tiles6Cover(p, c.lower.Val(), c.upper.Val(), x.ip6.Val());
    }
  }

  // ---------------------------------------------------------------------
  // GiST: union

  /** `gipr_same`: keys of different families differ, two universal keys
      are the same, and otherwise the family's equality decides. */
  function Same(a: IPR, b: IPR): (r: bool)
    ensures r <==> a == b
  {
    if Af(a) != Af(b) then false
    else if a.R4? then F4.Equal(a.r4, b.r4)
    else if a.R6? then Equal6(a.r6, b.r6)
    else true
  }

  /** Every entry has the family of the first. */
  predicate SameFamily(es: seq<IPR>)
    requires |es| > 0
  {
    forall i :: 0 <= i < |es| ==> Af(es[i]) == Af(es[0])
  }

  /** What `gipr_union_internal` hands back: the key and the `allequal`
      and `afequal` flags. */
  datatype PageUnion = PageUnion(key: IPR, allEqual: bool, afEqual: bool)

  /** The loop of `gipr_union_internal` over a page of one family, which is
      also the `ADDLIST` accumulation of a picksplit side: the running
      union (`gipr_union_internal_1`), and whether each entry equalled the
      union of those before it. */
  function Running(es: seq<IPR>): (p: (IPR, bool))
    requires |es| > 0
    ensures forall i :: 0 <= i < |es| ==> Encloses(p.0, es[i])
    ensures p.1 <==> forall i :: 0 <= i < |es| ==> es[i] == es[0]
    ensures p.1 ==> p.0 == es[0]
    ensures SameFamily(es) ==> Af(p.0) == Af(es[0])
    decreases |es|
  {
    if |es| == 1 then (es[0], true)
    else
      var m := |es| - 1;
      var (u, eq) := Running(es[..m]);
      assert forall i :: 0 <= i < m ==> es[..m][i] == es[i];
      assert SameFamily(es) ==> SameFamily(es[..m]);
      if eq && es[m] == u then
        UnionSelf(u);
        (Union(u, es[m]), true)
      else
        (Union(u, es[m]), false)
  }

  /** A key united with itself is unchanged. */
  lemma UnionSelf(a: IPR)
    ensures Union(a, a) == a
  {
    if a.R6? {
      ValOrder(a.r6.lower, a.r6.lower);
      ValOrder(a.r6.upper, a.r6.upper);
    }
  }

  /** Any key bounding every entry bounds the running union. */
  lemma {:induction false} RunningLeast(es: seq<IPR>, c: IPR)
    requires |es| > 0
    requires forall i :: 0 <= i < |es| ==> Encloses(c, es[i])
    ensures Encloses(c, Running(es).0)
    decreases |es|
  {
    if |es| > 1 {
      var m := |es| - 1;
      assert forall i :: 0 <= i < m ==> es[..m][i] == es[i];
      RunningLeast(es[..m], c);
    }
  }

  /** For entries of one concrete family the running union keeps the
      lowest lower bound and the highest upper bound found among them. */
  lemma {:induction false} RunningEnds(es: seq<IPR>)
    requires |es| > 0 && SameFamily(es) && !es[0].Universal?
    ensures exists i :: 0 <= i < |es| && Low(Running(es).0) == Low(es[i])
    ensures exists i :: 0 <= i < |es| && High(Running(es).0) == High(es[i])
    decreases |es|
  {
    if |es| > 1 {
      var m := |es| - 1;
      var pre := es[..m];
      assert forall i :: 0 <= i < m ==> pre[i] == es[i];
      assert SameFamily(pre);
      RunningEnds(pre);
      var u := Running(pre).0;
      var i :| 0 <= i < m && Low(u) == Low(pre[i]);
      var j :| 0 <= j < m && High(u) == High(pre[j]);
      RunningStep(es);
      UnionEnds(u, es[m]);
      assert Low(Running(es).0) == Low(es[i]) || Low(Running(es).0) == Low(es[m]);
      assert High(Running(es).0) == High(es[j]) || High(Running(es).0) == High(es[m]);
    }
  }

  /** One step of the running union. */
  lemma RunningStep(es: seq<IPR>)
    requires |es| > 1
    ensures Running(es).0 == Union(Running(es[..|es| - 1]).0, es[|es| - 1])
  {
  }

  /** The union of two keys of one concrete family takes each bound from
      one of them. */
  lemma UnionEnds(a: IPR, b: IPR)
    requires Af(a) == Af(b) && !a.Universal?
    ensures Low(Union(a, b)) == Low(a) || Low(Union(a, b)) == Low(b)
    ensures High(Union(a, b)) == High(a) || High(Union(a, b)) == High(b)
  {
  }

  /** `gipr_union_internal`: a page whose first entry is universal gives the
      universal key with both flags set, without looking further; a page
      of mixed families gives the universal key with both flags clear;
      otherwise the running union of the page's family. */
  function UnionKey(es: seq<IPR>): (p: PageUnion)
    requires |es| > 0
    ensures forall i :: 0 <= i < |es| ==> Encloses(p.key, es[i])
    ensures p.key.Universal? <==> es[0].Universal? || !SameFamily(es)
    ensures p.afEqual <==> es[0].Universal? || SameFamily(es)
    ensures p.allEqual <==> es[0].Universal? || forall i :: 0 <= i < |es| ==> es[i] == es[0]
  {
    if es[0].Universal? then PageUnion(Universal, true, true)
    else if !SameFamily(es) then
      var j :| 0 <= j < |es| && Af(es[j]) != Af(es[0]);
      PageUnion(Universal, false, false)
    else
      var (u, eq) := Running(es);
      PageUnion(u, eq, true)
  }

  /** The key of `gipr_union` is the smallest one bounding the page. */
  lemma UnionKeyLeast(es: seq<IPR>, c: IPR)
    requires |es| > 0
    requires forall i :: 0 <= i < |es| ==> Encloses(c, es[i])
    ensures Encloses(c, UnionKey(es).key)
  {
    if es[0].Universal? {
      assert Encloses(c, es[0]);
    } else if !SameFamily(es) {
      var j :| 0 <= j < |es| && Af(es[j]) != Af(es[0]);
      assert Encloses(c, es[0]) && Encloses(c, es[j]);
    } else {
      RunningLeast(es, c);
    }
  }

  // ---------------------------------------------------------------------
  // GiST: picksplit

  /** The side test of `gipr_picksplit` for an entry `cur` of the page
      union's family: `cur.upper - pageunion.lower` against
      `pageunion.upper - cur.lower`, in the family's unsigned arithmetic.
      The first pass asks only for "less than"; the re-split also tells a
      tie apart.  Entries of another family never meet this test. */
  function SideOf(cur: IPR, pu: IPR): Side {
    if cur.R4? && pu.R4? then
      var d1 := (cur.r4.upper - pu.r4.lower) % TWO32;
      var d2 := (pu.r4.upper - cur.r4.lower) % TWO32;
      if d1 < d2 then LeftSide else if d1 == d2 then Tie else RightSide
    else if cur.R6? && pu.R6? then
      var d1 := Sub(cur.r6.upper, pu.r6.lower);
      var d2 := Sub(pu.r6.upper, cur.r6.lower);
      if LessThan(d1, d2) then LeftSide else if Compare(d1, d2) == 0 then Tie else RightSide
    else RightSide
  }

  /** Inside the page union the test compares midpoints: an entry goes
      left when the sum of its bounds is below that of the page union, and
      ties when the sums are equal. */
  lemma SideOfMeaning(cur: IPR, pu: IPR)
    requires cur.Valid() && !pu.Universal? && Encloses(pu, cur)
    ensures var m, mp := Rank(cur).1 + Rank(cur).2, Rank(pu).1 + Rank(pu).2;
            && (SideOf(cur, pu) == LeftSide <==> m < mp)
            && (SideOf(cur, pu) == Tie <==> m == mp)
  {
    if cur.R6? {
      var c, q := cur.r6, pu.r6;
      ValOrder(c.lower, c.lower);
      ValOrder(q.upper, q.upper);
      ModBelow(c.upper.Val() - q.lower.Val(), TWO128);
      ModBelow(q.upper.Val() - c.lower.Val(), TWO128);
    }
  }

  /** The class of each entry of a one-family page. */
  function Classes(es: seq<IPR>, pu: IPR): (r: seq<Side>)
    ensures |r| == |es|
    ensures forall k :: 0 <= k < |es| ==> r[k] == SideOf(es[k], pu)
  {
    seq(|es|, k requires 0 <= k < |es| => SideOf(es[k], pu))
  }

  /** `right_af` of the mixed-family split: the universal tag when some
      entry is universal, else `PGSQL_AF_INET6`. */
  function RightAf(es: seq<IPR>): int {
    if exists i :: 0 <= i < |es| && es[i].Universal? then Ipr.AfUniversal else Ipr.AfInet6
  }

  /** The classes of the mixed-family split: entries of the family
      `rightAf` go right and all others left. */
  function AfClasses(es: seq<IPR>, rightAf: int): (r: seq<Side>)
    ensures |r| == |es|
    ensures forall k :: 0 <= k < |es| ==> r[k] != Tie && (r[k] == LeftSide <==> Af(es[k]) != rightAf)
  {
    seq(|es|, k requires 0 <= k < |es| => if Af(es[k]) != rightAf then LeftSide else RightSide)
  }

  /** What `gipr_picksplit` hands back: the offset lists and the union of
      each side. */
  datatype Split = Split(lists: Lists, unionL: IPR, unionR: IPR)

  /** The side lists before the unions are taken.  An all-equal page is cut
      in the middle; a page of mixed families is split by family in one
      pass; a page of one family is split by `SideOf`, re-split in the
      order `order` (ascending size, from `qsort`) if a side came out
      empty.  The mixed-family split never needs the re-split, as
      `MixedSplitSides` shows. */
  function SplitLists(es: seq<IPR>, order: seq<nat>): Lists
    requires |es| >= 2
    requires InRange(order, |es|)
  {
    var pu := UnionKey(es);
    if pu.allEqual then Midpoint(|es|)
    else if !pu.afEqual then Place(Offsets(1, |es| + 1), AfClasses(es, RightAf(es)), false)
    else TwoPass(Classes(es, pu.key), order)
  }

  /** A page of mixed families is never all equal, so it is split by
      family. */
  lemma MixedIsPlace(es: seq<IPR>, order: seq<nat>)
    requires |es| >= 2 && InRange(order, |es|)
    requires !UnionKey(es).afEqual
    ensures SplitLists(es, order) == Place(Offsets(1, |es| + 1), AfClasses(es, RightAf(es)), false)
  {
    var j :| 0 <= j < |es| && Af(es[j]) != Af(es[0]);
    assert es[j] != es[0];
    assert !UnionKey(es).allEqual;
  }

  /** In the mixed-family split an entry goes left exactly when its family
      is not `right_af`: universal entries, if there are any, are kept apart
      from the rest, and otherwise IPv6 from IPv4. */
  lemma MixedSplitSides(es: seq<IPR>, order: seq<nat>, k: nat)
    requires |es| >= 2 && InRange(order, |es|) && k < |es|
    requires !UnionKey(es).afEqual
    ensures k + 1 in SplitLists(es, order).left <==> Af(es[k]) != RightAf(es)
    ensures k + 1 in SplitLists(es, order).right <==> Af(es[k]) == RightAf(es)
  {
    MixedIsPlace(es, order);
    FirstPassSides(AfClasses(es, RightAf(es)), k);
  }

  /** The mixed-family split fills both sides: the first entry is
      concrete and goes left, and an entry of `right_af` goes right. */
  lemma MixedSplitNonempty(es: seq<IPR>, order: seq<nat>)
    requires |es| >= 2 && InRange(order, |es|)
    requires !UnionKey(es).afEqual
    ensures Partitions(SplitLists(es, order), |es|)
    ensures |SplitLists(es, order).left| > 0 && |SplitLists(es, order).right| > 0
  {
    var n := |es|;
    MixedIsPlace(es, order);
    var j :| 0 <= j < n && Af(es[j]) != Af(es[0]);
    MixedSplitSides(es, order, 0);
    if exists i :: 0 <= i < n && es[i].Universal? {
      var u :| 0 <= u < n && es[u].Universal?;
      MixedSplitSides(es, order, u);
    } else {
      MixedSplitSides(es, order, j);
    }
  }

  /** The lists split the page and neither is empty. */
  lemma SplitListsSpec(es: seq<IPR>, order: seq<nat>)
    requires |es| >= 2 && forall i :: 0 <= i < |es| ==> es[i].Valid()
    requires IsOrder(order, |es|) && InRange(order, |es|)
    ensures Partitions(SplitLists(es, order), |es|)
    ensures |SplitLists(es, order).left| > 0 && |SplitLists(es, order).right| > 0
  {
    var pu := UnionKey(es);
    if pu.allEqual {
    } else if !pu.afEqual {
      MixedSplitNonempty(es, order);
    } else {
      var key := pu.key;
      assert key == Running(es).0;
      RunningEnds(es);
      var cls := Classes(es, key);
      var top :| 0 <= top < |es| && High(key) == High(es[top]);
      var bottom :| 0 <= bottom < |es| && Low(key) == Low(es[bottom]);
      SideOfMeaning(es[top], key);
      SideOfMeaning(es[bottom], key);
      TopBottom(es[top], es[bottom], key);
      TwoPassSpec(cls, order, top, bottom);
    }
  }

  /** The entry ending where the page union ends is not nearer its lower
      end, and the entry starting where it starts is a tie unless it is. */
  lemma TopBottom(top: IPR, bottom: IPR, key: IPR)
    requires top.Valid() && bottom.Valid() && !key.Universal?
    requires Encloses(key, top) && Encloses(key, bottom)
    requires High(key) == High(top) && Low(key) == Low(bottom)
    ensures Rank(top).1 + Rank(top).2 >= Rank(key).1 + Rank(key).2
    ensures Rank(bottom).1 + Rank(bottom).2 <= Rank(key).1 + Rank(key).2
  {
    if key.R6? {
      ValOrder(key.r6.lower, top.r6.lower);
      ValOrder(bottom.r6.upper, key.r6.upper);
    }
  }

  /** `u` bounds the entries at the offsets `offs`, which are all page
      offsets. */
  predicate Bounds(es: seq<IPR>, offs: seq<nat>, u: IPR) {
    forall k :: k in offs ==> 1 <= k <= |es| && Encloses(u, es[k - 1])
  }

  /** The union `ADDLIST` accumulates for one side. */
  function SideUnion(es: seq<IPR>, offs: seq<nat>): (u: IPR)
    requires InRange(offs, |es|) && |offs| > 0
    ensures Bounds(es, offs, u)
  {
    var p := Pick(es, offs);
    var u := Running(p).0;
    forall k | k in offs
      ensures 1 <= k <= |es| && Encloses(u, es[k - 1])
    {
      var i :| 0 <= i < |offs| && offs[i] == k;
      assert p[i] == es[k - 1];
    }
    u
  }

  /** `gipr_picksplit` on a page of at least two valid entries: both
      sides come out nonempty, between them they hold every entry once,
      and each side's union bounds its entries.  The all-equal split hands
      back the page union for both sides. */
  function SplitPage(es: seq<IPR>, order: seq<nat>): (r: Split)
    requires |es| >= 2 && forall i :: 0 <= i < |es| ==> es[i].Valid()
    requires IsOrder(order, |es|)
    ensures Partitions(r.lists, |es|)
    ensures |r.lists.left| > 0 && |r.lists.right| > 0
    ensures Bounds(es, r.lists.left, r.unionL) && Bounds(es, r.lists.right, r.unionR)
  {
    var n := |es|;
    assert InRange(order, n) by {
      OrderInRange(order, n);
    }
    var l := SplitLists(es, order);
    assert Partitions(l, n) && |l.left| > 0 && |l.right| > 0 by {
      SplitListsSpec(es, order);
    }
    assert InRange(l.left, n) && InRange(l.right, n) by {
      ListsInRange(l, n);
    }
    var pu := UnionKey(es);
    if pu.allEqual then
      assert Bounds(es, l.left, pu.key) && Bounds(es, l.right, pu.key) by {
        PageBound(es, l.left);
        PageBound(es, l.right);
      }
      Split(l, pu.key, pu.key)
    else
      Split(l, SideUnion(es, l.left), SideUnion(es, l.right))
  }

  /** The page union bounds every entry. */
  lemma PageBound(es: seq<IPR>, offs: seq<nat>)
    requires |es| > 0 && InRange(offs, |es|)
    ensures Bounds(es, offs, UnionKey(es).key)
  {
    forall k | k in offs
      ensures 1 <= k <= |es| && Encloses(UnionKey(es).key, es[k - 1])
    {
      var i :| 0 <= i < |offs| && offs[i] == k;
    }
  }

  // ---------------------------------------------------------------------
  // GiST: consistency

  /** `gipr_leaf_consistent`: the operator of each strategy number applied
      to a leaf key, `>>=`, `<<=`, `>>`, `<<`, `&&` and `=`.  A universal
      key or query is settled by a fixed table, keys and queries of
      different concrete families never match, and otherwise the family's
      own leaf test decides. */
  function LeafConsistent(key: IPR, query: IPR, strategy: int): bool {
    if key.Universal? then
      match strategy
      case 1 => true
      case 2 => query.Universal?
      case 3 => !query.Universal?
      case 4 => false
      case 5 => true
      case 6 => query.Universal?
      case _ => false
    else if query.Universal? then
      match strategy
      case 1 => false
      case 2 => true
      case 3 => false
      case 4 => true
      case 5 => true
      case 6 => false
      case _ => false
    else if Af(query) != Af(key) then false
    else if query.R4? then Ip4r.LeafConsistent(key.r4, query.r4, strategy)
    else Ip6r.LeafConsistent(key.r6, query.r6, strategy)
  }

  /** The leaf test is the `iprange` operator of its strategy: `>>=` and
      `<<=` are `iprange_contains_internal` with `eqval` true, `>>` and
      `<<` with `eqval` false, `&&` is `iprange_overlaps_internal` and `=`
      is `iprange_cmp_internal` giving 0. */
  lemma LeafConsistentAgrees(key: IPR, query: IPR, strategy: int)
    requires key.Valid() && query.Valid()
    ensures LeafConsistent(key, query, strategy) == match strategy
              case 1 => Contains(key, query, true)
              case 2 => Contains(query, key, true)
              case 3 => Contains(key, query, false)
              case 4 => Contains(query, key, false)
              case 5 => Overlaps(key, query)
              case 6 => Cmp(key, query) == 0
              case _ => false
  {
    if key.Universal? || query.Universal? {
      var c := if key.Universal? then query else key;
      assert Has(key, Low(c)) && Has(query, Low(c));
      if !c.Universal? {
        assert Has(Universal, Outside(c)) && !Has(c, Outside(c));
      }
    } else if Af(query) != Af(key) {
      assert Has(key, Low(key)) && !Has(query, Low(key));
      assert Has(query, Low(query)) && !Has(key, Low(query));
    } else if query.R4? {
      Subset4(key.r4, query.r4);
      Subset4(query.r4, key.r4);
      if strategy == 5 && !Ip4r.LeafConsistent(key.r4, query.r4, strategy) {
        NoCommon4(key.r4, query.r4);
      }
      if strategy == 5 && Ip4r.LeafConsistent(key.r4, query.r4, strategy) {
        var n: nat :| key.r4.Has(n) && query.r4.Has(n);
        assert Has(key, Ipr.V4(n)) && Has(query, Ipr.V4(n));
      }
    } else {
      Subset6(key.r6, query.r6);
      Subset6(query.r6, key.r6);
      if strategy == 5 && !Ip6r.LeafConsistent(key.r6, query.r6, strategy) {
        NoCommon6(key.r6, query.r6);
      }
      if strategy == 5 && Ip6r.LeafConsistent(key.r6, query.r6, strategy) {
        var n: nat :| key.r6.Has(n) && query.r6.Has(n);
        ValOrder(key.r6.upper, key.r6.upper);
        assert Has(key, Ipr.V6(FromVal(n))) && Has(query, Ipr.V6(FromVal(n)));
      }
    }
  }

  /** What the leaf test means on the addresses the ranges hold. */
  lemma LeafConsistentMeaning(key: IPR, query: IPR, strategy: int)
    requires key.Valid() && query.Valid()
    ensures LeafConsistent(key, query, strategy) == match strategy
              case 1 => forall x :: Has(query, x) ==> Has(key, x)
              case 2 => forall x :: Has(key, x) ==> Has(query, x)
              case 3 => key != query && forall x :: Has(query, x) ==> Has(key, x)
              case 4 => key != query && forall x :: Has(key, x) ==> Has(query, x)
              case 5 => exists x :: Has(key, x) && Has(query, x)
              case 6 => key == query
              case _ => false
  {
    LeafConsistentAgrees(key, query, strategy);
  }

  /** `gipr_internal_consistent` as written: before anything else it
      refuses every inner key for `<<` against the universal query.  On
      every other strategy and query it agrees with `InternalConsistent`. */
  function InternalConsistentAsWritten(key: IPR, query: IPR, strategy: int): (r: bool)
    ensures !(query.Universal? && strategy == 4) ==> r == InternalConsistent(key, query, strategy)
    ensures query.Universal? && strategy == 4 ==> !r
  {
    if query.Universal? && strategy == 4 then false
    else if key.Universal? || query.Universal? then true
    else if Af(query) != Af(key) then false
    else if query.R4? then Ip4r.InternalConsistent(key.r4, query.r4, strategy)
    else Ip6r.InternalConsistent(key.r6, query.r6, strategy)
  }

  /** `gipr_internal_consistent` without that first test: a universal key
      or query admits the subtree, different concrete families exclude it,
      and otherwise the family's own inner test decides. */
  function InternalConsistent(key: IPR, query: IPR, strategy: int): bool {
    if key.Universal? || query.Universal? then true
    else if Af(query) != Af(key) then false
    else if query.R4? then Ip4r.InternalConsistent(key.r4, query.r4, strategy)
    else Ip6r.InternalConsistent(key.r6, query.r6, strategy)
  }

  /** The written test prunes a subtree holding a match: the leaf
      `0.0.0.0` is strictly inside `-`, so it matches `<< '-'`, yet an
      inner key equal to it is refused. */
  lemma AsWrittenPrunesMatch()
    ensures var leaf := R4(F4.IP4R(0, 0));
            && leaf.Valid() && Encloses(leaf, leaf)
            && LeafConsistent(leaf, Universal, 4)
            && !InternalConsistentAsWritten(leaf, Universal, 4)
  {
  }

  /** An inner key that bounds a matching leaf is never pruned by the
      corrected test. */
  lemma InternalSound(key: IPR, leaf: IPR, query: IPR, strategy: int)
    requires leaf.Valid() && Encloses(key, leaf)
    requires LeafConsistent(leaf, query, strategy)
    ensures InternalConsistent(key, query, strategy)
  {
    if !key.Universal? && !query.Universal? && Af(query) == Af(key) {
      if query.R4? {
        Ip4r.InternalSound(key.r4, leaf.r4, query.r4, strategy);
      } else {
        Ip6r.InternalSound(key.r6, leaf.r6, query.r6, strategy);
      }
    }
  }

  /** In particular the `gipr_union` key of a page admits every query one
      of its entries matches. */
  lemma UnionSound(es: seq<IPR>, i: nat, query: IPR, strategy: int)
    requires i < |es| && es[i].Valid()
    requires LeafConsistent(es[i], query, strategy)
    ensures InternalConsistent(UnionKey(es).key, query, strategy)
  {
    InternalSound(UnionKey(es).key, es[i], query, strategy);
  }
}
