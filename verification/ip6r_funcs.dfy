/** The 128-bit range algebra of `ip6r_funcs.h`.  An IPv6 address is kept as
    two 64-bit limbs, most significant first, exactly as the C code keeps
    `bits[0]` and `bits[1]`; every operation is stated against the value
    `hi * 2^64 + lo`.  The older root copy of `ip6r_funcs.h` has the same
    code for every function it shares with this one. */
module Ip6rFuncs {
  import opened Bits
  import opened Wrappers
  import opened Radix

  /** An IPv6 address as its two limbs. */
  datatype IP6 = IP6(hi: u64, lo: u64) {

    /** The 128-bit number the limbs spell. */
    function Val(): nat {
      hi * TWO64 + lo
    }
  }

  /** The address whose value is `v`. */
  function FromVal(v: nat): (r: IP6)
    requires v < TWO128
    ensures r.Val() == v
  {
    var hi := v / TWO64;
    var lo := v % TWO64;
    assert hi < TWO64 by {
      DivNat(v, TWO64);
      if hi >= TWO64 {
        MulMono(TWO64, hi, TWO64);
        assert false;
      }
    }
    IP6(hi, lo)
  }

  /** Limb order is value order, and the value fits in 128 bits. */
  lemma ValOrder(a: IP6, b: IP6)
    ensures a.Val() < TWO128
    ensures a.Val() < b.Val() <==> a.hi < b.hi || (a.hi == b.hi && a.lo < b.lo)
    ensures a.Val() == b.Val() <==> a == b
  {
    MulMono(a.hi, TWO64 - 1, TWO64);
    if a.hi < b.hi {
      MulMono(a.hi + 1, b.hi, TWO64);
    } else if b.hi < a.hi {
      MulMono(b.hi + 1, a.hi, TWO64);
    }
  }

  /** A bitwise operator applied limb by limb, as the C code always does. */
  function Op6(op: BitOp, a: IP6, b: IP6): (r: IP6)
    ensures r.Val() == Apply(op, a.Val(), b.Val())
  {
    Pow2Of64();
    ApplyBound(op, a.hi, b.hi, 64);
    ApplyBound(op, a.lo, b.lo, 64);
    ApplyConcat(op, a.hi, a.lo, b.hi, b.lo, 64);
    IP6(Apply(op, a.hi, b.hi), Apply(op, a.lo, b.lo))
  }

  /** `~x` on a 64-bit limb. */
  function Not64(x: u64): (r: u64)
    ensures r == MAX64 - x
  {
    Pow2Of64();
    Not(x, 64)
  }

  // ---------------------------------------------------------------------
  // Masks

  /** `hostmask6_hi`. */
  function HostmaskHi(len: nat): (r: u64)
    requires len <= 128
  {
    if len >= 64 then 0
    else if len == 0 then MAX64
    else
      MaskFits64(64 - len);
      LowMask(64 - len)
  }

  /** `hostmask6_lo`. */
  function HostmaskLo(len: nat): (r: u64)
    requires len <= 128
  {
    if len <= 64 then MAX64
    else
      MaskFits64(128 - len);
      LowMask(128 - len)
  }

  lemma MaskFits64(k: nat)
    requires k <= 64
    ensures LowMask(k) <= MAX64 && Pow2(k) <= TWO64
  {
    Pow2Of64();
    Pow2Monotone(k, 64);
  }

  /** The two host-mask limbs spell the 128-bit mask with the low
      `128 - len` bits set. */
  function Hostmask6(len: nat): (r: IP6)
    requires len <= 128
    ensures r.Val() == LowMask(128 - len)
  {
    var r := IP6(HostmaskHi(len), HostmaskLo(len));
    HostmaskValue(len);
    r
  }

  lemma HostmaskValue(len: nat)
    requires len <= 128
    ensures IP6(HostmaskHi(len), HostmaskLo(len)).Val() == LowMask(128 - len)
  {
    Pow2Of64();
    if len <= 64 {
      Pow2Add(64 - len, 64);
      if len == 0 {
        assert HostmaskHi(len) == LowMask(64);
      }
    } else {
      assert HostmaskHi(len) == 0;
    }
  }

  /** `netmask6_hi` / `netmask6_lo`: the complement of the host mask, limb by limb. */
  function Netmask6(len: nat): (r: IP6)
    requires len <= 128
    ensures r.Val() + LowMask(128 - len) == LowMask(128)
  {
    var r := IP6(Not64(HostmaskHi(len)), Not64(HostmaskLo(len)));
    assert r.Val() + Hostmask6(len).Val() == MAX64 * TWO64 + MAX64;
    Pow2Values();
    r
  }

  /** Masking with the host mask keeps the low bits; with the net mask,
      the high bits; or-ing with the host mask sets the low bits. */
  lemma MaskBits6(x: IP6, len: nat)
    requires len <= 128
    ensures Op6(AndOp, x, Hostmask6(len)).Val() == Low(x.Val(), 128 - len)
    ensures Op6(AndOp, x, Netmask6(len)).Val() == x.Val() - Low(x.Val(), 128 - len)
    ensures Op6(OrOp, x, Hostmask6(len)).Val()
            == x.Val() - Low(x.Val(), 128 - len) + LowMask(128 - len)
  {
    var k := 128 - len;
    AndLowMask(x.Val(), k);
    OrLowMask(x.Val(), k);
    assert Netmask6(len).Val() == HighMask(128, k);
    assert x.Val() < Pow2(128) by {
      ValOrder(x, x);
      Pow2Values();
    }
    AndHighMask(x.Val(), 128, k);
  }

  // ---------------------------------------------------------------------
  // Comparison and arithmetic

  /** `ip6_compare`: -1, 0 or 1 by the limbs. */
  function Compare(a: IP6, b: IP6): (r: int)
    ensures r == 0 <==> a.Val() == b.Val()
    ensures r < 0 <==> a.Val() < b.Val()
    ensures r > 0 <==> a.Val() > b.Val()
    ensures -1 <= r <= 1
  {
    ValOrder(a, b);
    ValOrder(b, a);
    if a.hi != b.hi then (if a.hi > b.hi then 1 else -1)
    else if a.lo != b.lo then (if a.lo > b.lo then 1 else -1)
    else 0
  }

  /** `ip6_lessthan`. */
  function LessThan(a: IP6, b: IP6): (r: bool)
    ensures r <==> a.Val() < b.Val()
  {
    ValOrder(a, b);
    a.hi < b.hi || (a.hi == b.hi && a.lo < b.lo)
  }

  /** `ip6_less_eq`. */
  function LessEq(a: IP6, b: IP6): (r: bool)
    ensures r <==> a.Val() <= b.Val()
  {
    !LessThan(b, a)
  }

  /** `ip6_sub`: limb subtraction with a borrow from the high limb; the
      result is the difference modulo 2^128. */
  function Sub(m: IP6, s: IP6): (r: IP6)
    ensures r.Val() == (m.Val() - s.Val()) % TWO128
  {
    var borrow := if m.lo < s.lo then 1 else 0;
    var r := IP6((m.hi - s.hi - borrow) % TWO64, (m.lo - s.lo) % TWO64);
    SubLimbs(m, s);
    r
  }

  lemma SubLimbs(m: IP6, s: IP6)
    ensures var borrow := if m.lo < s.lo then 1 else 0;
            IP6((m.hi - s.hi - borrow) % TWO64, (m.lo - s.lo) % TWO64).Val()
            == (m.Val() - s.Val()) % TWO128
  {
    var borrow := if m.lo < s.lo then 1 else 0;
    var lo := m.lo - s.lo + borrow * TWO64;
    assert 0 <= lo < TWO64;
    ModOfSum(lo, -borrow, TWO64);
    var h := m.hi - s.hi - borrow;
    assert m.Val() - s.Val() == h * TWO64 + lo;
    WrapLimbs(h, lo);
  }

  /** A high limb taken modulo 2^64 wraps the 128-bit value modulo 2^128. */
  lemma WrapLimbs(h: int, lo: nat)
    requires lo < TWO64
    ensures IP6(h % TWO64, lo).Val() == (h * TWO64 + lo) % TWO128
  {
    var q := h / TWO64;
    var hm := h % TWO64;
    assert h == q * TWO64 + hm;
    assert h * TWO64 + lo == q * TWO128 + (hm * TWO64 + lo);
    ValOrder(IP6(hm, lo), IP6(hm, lo));
    DivModInt(h * TWO64 + lo, TWO128, q, hm * TWO64 + lo);
  }

  /** `ip6_sub_int`: subtract a C `int`, borrowing from (or, for a negative
      argument, carrying into) the high limb when the low limb wraps. */
  function SubInt(m: IP6, k: int): (r: IP6)
    requires -0x8000_0000 <= k < 0x8000_0000
    ensures r.Val() == (m.Val() - k) % TWO128
  {
    if k >= 0 then
      var resLo := (m.lo - k) % TWO64;
      var borrow := if resLo > m.lo then 1 else 0;
      assert borrow == (if m.lo < k then 1 else 0) by {
        if m.lo >= k {
          ModBelow(m.lo - k, TWO64);
        } else {
          ModOfSum(m.lo - k, 1, TWO64);
          ModBelow(m.lo - k + TWO64, TWO64);
        }
      }
      SubLimbs(m, IP6(0, k));
      IP6((m.hi - borrow) % TWO64, resLo)
    else
      var resLo := (m.lo + (-k)) % TWO64;
      var carry := if resLo < m.lo then 1 else 0;
      assert carry == (if m.lo + (-k) >= TWO64 then 1 else 0) && resLo == m.lo + (-k) - carry * TWO64 by {
        if m.lo + (-k) < TWO64 {
          ModBelow(m.lo + (-k), TWO64);
        } else {
          ModOfSum(m.lo + (-k) - TWO64, 1, TWO64);
          ModBelow(m.lo + (-k) - TWO64, TWO64);
        }
      }
      assert m.Val() - k == (m.hi + carry) * TWO64 + resLo;
      WrapLimbs(m.hi + carry, resLo);
      IP6((m.hi + carry) % TWO64, resLo)
  }

  /** `ip6_in_range_internal`: whether `val` compares as asked (`<=` when
      `less`, else `>=`) with `base - offset` (when `sub`) or
      `base + offset`, computed without ever wrapping. */
  function InRangeInternal(val: IP6, base: IP6, offset: IP6, sub: bool, less: bool): (r: bool)
    ensures var target := if sub then base.Val() - offset.Val() else base.Val() + offset.Val();
            r == if less then val.Val() <= target else val.Val() >= target
  {
    ValOrder(val, base);
    ValOrder(base, val);
    if sub then
      if LessThan(base, val) then !less
      else
        var diff := Sub(base, val);
        ModBelow(base.Val() - val.Val(), TWO128);
        var less' := !less;
        if less' then !LessThan(offset, diff) else !LessThan(diff, offset)
    else
      if LessThan(val, base) then less
      else
        var diff := Sub(val, base);
        ModBelow(val.Val() - base.Val(), TWO128);
        if less then !LessThan(offset, diff) else !LessThan(diff, offset)
  }

  /** `ip6_in_range_internal_bits`: compare `val` with the first (`sub`) or
      last address of the `/bits` network holding `base`. */
  function InRangeBits(val: IP6, base: IP6, bits: nat, sub: bool, less: bool): (r: bool)
    requires bits <= 128
    ensures var b := base.Val();
            var edge := if sub then b - Low(b, 128 - bits)
                        else b - Low(b, 128 - bits) + LowMask(128 - bits);
            r == if less then val.Val() <= edge else val.Val() >= edge
  {
    var newbase := if sub then Op6(AndOp, base, Netmask6(bits)) else Op6(OrOp, base, Hostmask6(bits));
    MaskBits6(base, bits);
    if less then !LessThan(newbase, val) else !LessThan(val, newbase)
  }

  // ---------------------------------------------------------------------
  // Power-of-two detection on a 64-bit word

  /** The first step of the power-of-two test in `masklen64` and
      `ip6_valid_netmask`: when the low 32 bits are clear, shift them out.
      The result is the shift and the shifted word. */
  function SkipLowWord(d: u64): (r: (nat, nat))
    ensures r.0 == 0 || r.0 == 32
    ensures d == r.1 * Pow2(r.0)
    ensures r.1 == 0 <==> d == 0
    ensures d != 0 ==> Low(r.1, 32) != 0
  {
    if Low(d, 32) == 0 then
      SkipHigh(d);
      (32, Shr(d, 32))
    else
      (0, d)
  }

  lemma {:induction false} SkipHigh(d: u64)
    requires Low(d, 32) == 0
    ensures d == Shr(d, 32) * Pow2(32)
    ensures Shr(d, 32) == 0 <==> d == 0
    ensures d != 0 ==> Low(Shr(d, 32), 32) != 0
  {
    ShrLowSplit(d, 32);
    assert Shr(d, 32) < Pow2(32) by {
      Pow2Of64();
      ShrBound(d, 32, 64);
    }
    ShrLowSmall(Shr(d, 32), 32);
  }

  /** `ffs` on the low word after `SkipLowWord`: whether `d` is a power of
      two, and if so which one (the `t + b - 1` of `masklen64`). */
  function Pow2Probe(d: u64): (r: (bool, nat))
    requires d != 0
    ensures r.1 < 64
    ensures r.0 ==> d == Pow2(r.1)
  {
    var (t, d2) := SkipLowWord(d);
    var b := Ffs(Low(d2, 32));
    FfsBound(Low(d2, 32), 32);
    ProbeValue(d, t, d2, b);
    (Pow2(b - 1) == d2, t + b - 1)
  }

  lemma {:induction false} ProbeValue(d: nat, t: nat, d2: nat, b: nat)
    requires b >= 1 && d == d2 * Pow2(t)
    ensures Pow2(b - 1) == d2 ==> d == Pow2(t + b - 1)
  {
    Pow2Add(b - 1, t);
  }

  /** The probe recognises every power of two below `2^64`, with its exponent. */
  lemma {:induction false} Pow2ProbeExact(k: nat)
    requires k < 64
    ensures Pow2(k) < TWO64
    ensures Pow2Probe(Pow2(k)) == (true, k)
  {
    Pow2Of64();
    Pow2Monotone(k + 1, 64);
    var d := Pow2(k);
    Pow2Of32();
    if k < 32 {
      Pow2Monotone(k + 1, 32);
      ShrLowSmall(d, 32);
      assert SkipLowWord(d) == (0, d);
      FfsPow2(k);
    } else {
      Pow2Add(k - 32, 32);
      ShrLowOf(Pow2(k - 32), 0, 32);
      assert SkipLowWord(d) == (32, Pow2(k - 32));
      Pow2Monotone(k - 32 + 1, 32);
      ShrLowSmall(Pow2(k - 32), 32);
      FfsPow2(k - 32);
    }
  }

  // ---------------------------------------------------------------------
  // Prefix length detection

  /** `masklen64`: the prefix length, plus `offset`, when `[lo, hi]` is an
      aligned block of one 64-bit limb, else `None` (C's `~0`).  Like the
      32-bit `masklen` it inspects `(lo ^ hi) + 1` and rechecks the
      candidate with masks. */
  function Masklen64(lo: u64, hi: u64, offset: nat): (r: Option<nat>)
    ensures r.Some? ==> offset <= r.value <= offset + 64
  {
    var d := (Xor(lo, hi) + 1) % TWO64;
    if d == 0 then
      if lo == 0 && hi == MAX64 then Some(offset) else None
    else if d == 1 then
      if lo == hi then Some(64 + offset) else None
    else
      var (isPow, j) := Pow2Probe(d);
      if !isPow then None
      else
        var mask := LowMask(j);
        if And(lo, mask) == 0 && And(hi, mask) == mask then Some(64 - j + offset) else None
  }

  /** `masklen64` finds `n` (plus the offset) exactly when `[lo, hi]` is an
      aligned block of `2^(64 - n)` values. */
  lemma Masklen64Iff(lo: u64, hi: u64, offset: nat, n: nat)
    ensures Masklen64(lo, hi, offset) == Some(n + offset) <==> n <= 64 && IsBlock(lo, hi, 64 - n)
  {
    if n <= 64 && IsBlock(lo, hi, 64 - n) {
      Masklen64OfBlock(lo, hi, offset, 64 - n);
    }
    if Masklen64(lo, hi, offset) == Some(n + offset) {
      BlockOfMasklen64(lo, hi, offset, n);
    }
  }

  lemma Masklen64OfBlock(lo: u64, hi: u64, offset: nat, k: nat)
    requires k <= 64 && IsBlock(lo, hi, k)
    ensures Masklen64(lo, hi, offset) == Some(64 - k + offset)
  {
    Pow2Of64();
    BlockXor(lo, hi, k, 64);
    if k == 64 {
      ShrLowSmall(lo, 64);
      Masklen64Zero(lo, hi, offset);
    } else if k == 0 {
      Masklen64One(lo, hi, offset);
    } else {
      Masklen64Pow(lo, hi, offset, k);
    }
  }

  lemma BlockOfMasklen64(lo: u64, hi: u64, offset: nat, n: nat)
    requires Masklen64(lo, hi, offset) == Some(n + offset)
    ensures n <= 64 && IsBlock(lo, hi, 64 - n)
  {
    var d := (Xor(lo, hi) + 1) % TWO64;
    Pow2Of64();
    if d == 0 {
      Masklen64Zero(lo, hi, offset);
      ShrLowSmall(0, 64);
    } else if d == 1 {
      Masklen64One(lo, hi, offset);
      ShrLowStep(lo, 0);
    } else {
      var (isPow, j) := Pow2Probe(d);
      if !isPow {
        Masklen64NotPow(lo, hi, offset);
        assert false;
      }
      assert 0 < j;
      Masklen64Pow(lo, hi, offset, j);
      BlockTest(lo, hi, j, 64);
    }
  }

  // The branches of `masklen64`, each on its own.

  lemma Masklen64Zero(lo: u64, hi: u64, offset: nat)
    requires (Xor(lo, hi) + 1) % TWO64 == 0
    ensures Masklen64(lo, hi, offset) == if lo == 0 && hi == MAX64 then Some(offset) else None
  {
  }

  lemma Masklen64One(lo: u64, hi: u64, offset: nat)
    requires (Xor(lo, hi) + 1) % TWO64 == 1
    ensures Masklen64(lo, hi, offset) == if lo == hi then Some(64 + offset) else None
  {
  }

  lemma Masklen64Pow(lo: u64, hi: u64, offset: nat, k: nat)
    requires 0 < k < 64 && (Xor(lo, hi) + 1) % TWO64 == Pow2(k)
    ensures Masklen64(lo, hi, offset)
            == if And(lo, LowMask(k)) == 0 && And(hi, LowMask(k)) == LowMask(k)
               then Some(64 - k + offset) else None
  {
    Pow2ProbeExact(k);
    Pow2Monotone(1, k);
  }

  lemma Masklen64NotPow(lo: u64, hi: u64, offset: nat)
    requires var d := (Xor(lo, hi) + 1) % TWO64; d > 1 && !Pow2Probe(d).0
    ensures Masklen64(lo, hi, offset) == None
  {
  }

  // ---------------------------------------------------------------------
  // Blocks of 128-bit values, limb by limb

  /** A block of at most `2^64` values lies within one high limb. */
  lemma {:induction false} BlockLow(a: IP6, b: IP6, k: nat)
    requires k <= 64
    ensures IsBlock(a.Val(), b.Val(), k) <==> a.hi == b.hi && IsBlock(a.lo, b.lo, k)
  {
    Pow2Of64();
    ConcatBelow(a.hi, a.lo, k, 64);
    if Low(a.lo, k) == 0 {
      BlockEndFits(a.lo, k, 64);
      var e := IP6(a.hi, a.lo + LowMask(k));
      assert e.Val() == a.Val() + LowMask(k);
      ValOrder(e, b);
    }
  }

  /** A block of at least `2^64` values covers whole low limbs. */
  lemma {:induction false} BlockHigh(a: IP6, b: IP6, k: nat)
    requires 64 <= k <= 128
    ensures IsBlock(a.Val(), b.Val(), k)
            <==> a.lo == 0 && b.lo == MAX64 && IsBlock(a.hi, b.hi, k - 64)
  {
    Pow2Of64();
    ConcatAbove(a.hi, a.lo, k, 64);
    LowZeroLimbs(Low(a.hi, k - 64), a.lo);
    if Low(a.hi, k - 64) == 0 && a.lo == 0 {
      LowMaskSplit(k, 64);
      BlockEndFits(a.hi, k - 64, 64);
      var e := IP6(a.hi + LowMask(k - 64), MAX64);
      assert e.Val() == a.Val() + LowMask(k) by {
        assert a.Val() == a.hi * TWO64;
      }
      ValOrder(e, b);
    }
  }

  lemma LowZeroLimbs(h: nat, l: nat)
    ensures h * TWO64 + l == 0 <==> h == 0 && l == 0
  {
    if h > 0 {
      MulMono(1, h, TWO64);
    }
  }

  /** `[lo, hi]` is exactly the CIDR block `lo/n` (section 2.3 of RFC 4291). */
  predicate IsCidr6(lo: IP6, hi: IP6, n: nat) {
    n <= 128 && IsBlock(lo.Val(), hi.Val(), 128 - n)
  }

  /** `masklen6`: equal high limbs leave a prefix of 64 or more, found in the
      low limbs; otherwise the low limbs must span a whole limb and the
      prefix is found in the high limbs. */
  function Masklen6(lo: IP6, hi: IP6): Option<nat> {
    if lo.hi == hi.hi then
      Masklen64(lo.lo, hi.lo, 64)
    else if lo.lo != 0 || hi.lo != MAX64 then
      None
    else
      Masklen64(lo.hi, hi.hi, 0)
  }

  /** `masklen6` finds a length exactly when the range is that CIDR block. */
  lemma Masklen6Iff(lo: IP6, hi: IP6, n: nat)
    ensures Masklen6(lo, hi) == Some(n) <==> IsCidr6(lo, hi, n)
  {
    if lo.hi == hi.hi {
      Masklen6SameHigh(lo, hi, n);
    } else {
      Masklen6SplitHigh(lo, hi, n);
    }
  }

  lemma Masklen6SameHigh(lo: IP6, hi: IP6, n: nat)
    requires lo.hi == hi.hi
    ensures Masklen6(lo, hi) == Some(n) <==> IsCidr6(lo, hi, n)
  {
    if n < 64 {
      SameHighShort(lo, hi, n);
    } else {
      SameHighLong(lo, hi, n);
    }
  }

  /** Within one high limb no block is longer than `2^64`. */
  lemma SameHighShort(lo: IP6, hi: IP6, n: nat)
    requires lo.hi == hi.hi && n < 64
    ensures !IsCidr6(lo, hi, n)
  {
    if IsCidr6(lo, hi, n) {
      BlockHigh(lo, hi, 128 - n);
      Pow2Monotone(1, 64 - n);
      assert false;
    }
  }

  lemma SameHighLong(lo: IP6, hi: IP6, n: nat)
    requires lo.hi == hi.hi && 64 <= n
    ensures Masklen64(lo.lo, hi.lo, 64) == Some(n) <==> IsCidr6(lo, hi, n)
  {
    var m := n - 64;
    assert m + 64 == n;
    Masklen64Iff(lo.lo, hi.lo, 64, m);
    if n <= 128 {
      assert 64 - m == 128 - n;
      BlockLow(lo, hi, 128 - n);
    } else {
      assert !IsCidr6(lo, hi, n);
    }
  }

  lemma Masklen6SplitHigh(lo: IP6, hi: IP6, n: nat)
    requires lo.hi != hi.hi
    ensures Masklen6(lo, hi) == Some(n) <==> IsCidr6(lo, hi, n)
  {
    if n > 64 {
      if n <= 128 {
        BlockLow(lo, hi, 128 - n);
      }
    } else {
      BlockHigh(lo, hi, 128 - n);
      Masklen64Iff(lo.hi, hi.hi, 0, n);
    }
  }

  // ---------------------------------------------------------------------
  // Serialization

  /** `ip6_serialize`: sixteen bytes, high limb first, each limb most
      significant byte first; read back big-endian they spell the address. */
  function Serialize6(ip: IP6): (r: seq<u8>)
    ensures |r| == 16
    ensures BigEndian(r, 8) == ip.Val()
  {
    var ds := ToDigits(ip.hi, 8, 8) + ToDigits(ip.lo, 8, 8);
    Pow2Values();
    assert 8 * 8 == 64;
    ToDigitsValue(ip.hi, 8, 8);
    ToDigitsValue(ip.lo, 8, 8);
    BigEndianAppend(ToDigits(ip.hi, 8, 8), ToDigits(ip.lo, 8, 8), 8);
    assert forall i :: 0 <= i < 16 ==> ds[i] < 0x100;
    ds
  }

  /** `ip6_deserialize`: each limb or-ed together from its eight bytes. */
  function Deserialize6(bs: seq<u8>): (r: IP6)
    requires |bs| == 16
    ensures r.hi == BigEndian(bs[..8], 8) && r.lo == BigEndian(bs[8..], 8)
    ensures r.Val() == BigEndian(bs, 8)
  {
    var hi := OrShifted(bs[..8], 8, 8);
    var lo := OrShifted(bs[8..], 8, 8);
    LimbOfBytes(bs[..8]);
    LimbOfBytes(bs[8..]);
    assert bs == bs[..8] + bs[8..];
    BigEndianAppend(bs[..8], bs[8..], 8);
    Pow2Of64();
    assert 8 * 8 == 64;
    IP6(hi, lo)
  }

  lemma LimbOfBytes(bs: seq<u8>)
    requires |bs| == 8
    ensures OrShifted(bs, 8, 8) == BigEndian(bs, 8) < TWO64
  {
    BytesFit(bs);
    OrShiftedValue(bs, 8, 8);
    assert bs[..8] == bs;
    BigEndianDigits(bs, 8);
    Pow2Of64();
    assert 8 * 8 == 64;
  }

  lemma BytesFit(bs: seq<u8>)
    ensures DigitsFit(bs, 8)
  {
    Pow2Values();
  }

  /** Deserializing a serialized address gives it back. */
  lemma SerializeRoundTrip(ip: IP6)
    ensures Deserialize6(Serialize6(ip)) == ip
  {
    ValOrder(Deserialize6(Serialize6(ip)), ip);
  }

  /** Serializing a deserialized address gives back the bytes. */
  lemma DeserializeRoundTrip(bs: seq<u8>)
    requires |bs| == 16
    ensures Serialize6(Deserialize6(bs)) == bs
  {
    BytesFit(bs[..8]);
    BytesFit(bs[8..]);
    BigEndianDigits(bs[..8], 8);
    BigEndianDigits(bs[8..], 8);
    assert bs == bs[..8] + bs[8..];
  }

  // ---------------------------------------------------------------------
  // Netmask validation

  /** `ip6_valid_netmask`: one limb must be all ones or the other all zeros,
      and the complement of the remaining limb, plus one, must be zero or a
      power of two.  (The C code shifts `d` before testing it for zero; a
      zero `d` stays zero, so the test is made first here.) */
  function ValidNetmask6(maskhi: u64, masklo: u64): bool {
    if maskhi != MAX64 && masklo != 0 then false
    else
      var d := (Not64(if maskhi == MAX64 then masklo else maskhi) + 1) % TWO64;
      d == 0 || Pow2Probe(d).0
  }

  /** The net mask limbs: all ones above the prefix, zeros below. */
  lemma NetmaskLimbs(n: nat)
    requires n <= 128
    ensures n <= 64 ==> Netmask6(n) == IP6(TWO64 - Pow2(64 - n), 0)
    ensures n >= 64 ==> Netmask6(n) == IP6(MAX64, TWO64 - Pow2(128 - n))
  {
    Pow2Of64();
    if n > 0 && n < 64 {
      MaskFits64(64 - n);
    } else if n > 64 {
      MaskFits64(128 - n);
    }
  }

  /** One plus the complement of a limb, wrapped: zero for zero, else
      `2^64 - x`. */
  lemma ComplementPlusOne(x: u64)
    ensures (Not64(x) + 1) % TWO64 == if x == 0 then 0 else TWO64 - x
  {
    if x == 0 {
      ModSelf(TWO64);
    } else {
      ModBelow(TWO64 - x, TWO64);
    }
  }

  /** The valid netmasks are exactly the `netmask6(n)` values. */
  lemma ValidNetmask6Iff(maskhi: u64, masklo: u64)
    ensures ValidNetmask6(maskhi, masklo)
            <==> exists n: nat :: n <= 128 && IP6(maskhi, masklo) == Netmask6(n)
  {
    if ValidNetmask6(maskhi, masklo) {
      var n := NetmaskOfValid6(maskhi, masklo);
    }
    if exists n: nat :: n <= 128 && IP6(maskhi, masklo) == Netmask6(n) {
      var n: nat :| n <= 128 && IP6(maskhi, masklo) == Netmask6(n);
      NetmaskIsValid6(n);
    }
  }

  /** The prefix length a valid netmask encodes. */
  lemma NetmaskOfValid6(maskhi: u64, masklo: u64) returns (n: nat)
    requires ValidNetmask6(maskhi, masklo)
    ensures n <= 128 && IP6(maskhi, masklo) == Netmask6(n)
  {
    var x := if maskhi == MAX64 then masklo else maskhi;
    var d := (Not64(x) + 1) % TWO64;
    ComplementPlusOne(x);
    var j := 64;
    if d != 0 {
      j := Pow2Probe(d).1;
      assert d == Pow2(j);
    } else {
      Pow2Of64();
    }
    assert x == TWO64 - Pow2(j);
    n := if maskhi == MAX64 then 128 - j else 64 - j;
    NetmaskLimbs(n);
  }

  lemma NetmaskIsValid6(n: nat)
    requires n <= 128
    ensures ValidNetmask6(Netmask6(n).hi, Netmask6(n).lo)
  {
    NetmaskLimbs(n);
    Pow2Of64();
    if n >= 64 {
      Pow2Monotone(128 - n, 64);
      LowLimbMaskValid(128 - n, Netmask6(n).lo);
    } else {
      Pow2Monotone(64 - n, 64);
      HighLimbMaskValid(64 - n, Netmask6(n).hi);
    }
  }

  /** Which way `ip6_valid_netmask` goes for a limb `x == 2^64 - 2^j`. */
  lemma ComplementOfMask(j: nat, x: u64)
    requires j <= 64 && x + Pow2(j) == TWO64
    ensures var d := (Not64(x) + 1) % TWO64; d == 0 || Pow2Probe(d).0
  {
    Pow2Of64();
    ComplementPlusOne(x);
    if j < 64 {
      Pow2ProbeExact(j);
    }
  }

  /** All ones in the high limb and `2^64 - 2^j` in the low limb is valid. */
  lemma LowLimbMaskValid(j: nat, x: u64)
    requires j <= 64 && x + Pow2(j) == TWO64
    ensures ValidNetmask6(MAX64, x)
  {
    ComplementOfMask(j, x);
  }

  /** `2^64 - 2^j` in the high limb and zero in the low limb is valid. */
  lemma HighLimbMaskValid(j: nat, x: u64)
    requires 0 < j <= 64 && x + Pow2(j) == TWO64
    ensures ValidNetmask6(x, 0)
  {
    assert x != MAX64 by {
      Pow2Monotone(1, j);
    }
    ComplementOfMask(j, x);
  }

  // ---------------------------------------------------------------------
  // Ranges and building them from prefixes

  /** An IPv6 range `[lower, upper]`; see `Ip4rFuncs.IP4R`. */
  datatype IP6R = IP6R(lower: IP6, upper: IP6) {

    predicate Valid() {
      lower.Val() <= upper.Val()
    }

    /** The meaning of a range: the set of address values it holds. */
    predicate Has(x: nat) {
      lower.Val() <= x <= upper.Val()
    }
  }

  /** The all-zero address. */
  const Zero6: IP6 := IP6(0, 0)

  lemma ZeroVal(a: IP6)
    ensures a == Zero6 <==> a.Val() == 0
  {
    ValOrder(a, Zero6);
  }

  /** `ip6r_from_cidr`: the block `prefix/len`, refused when the length is
      over 128 or the prefix has host bits set.  (The C code builds the
      masks before checking the length; here the check comes first.) */
  function FromCidr6(prefix: IP6, len: nat): Option<IP6R> {
    if len > 128 then None
    else
      var mask := Hostmask6(len);
      if Op6(AndOp, prefix, mask) != Zero6 then None
      else Some(IP6R(prefix, Op6(OrOp, prefix, mask)))
  }

  lemma FromCidr6Spec(prefix: IP6, len: nat)
    ensures FromCidr6(prefix, len).Some? <==> len <= 128 && Low(prefix.Val(), 128 - len) == 0
    ensures FromCidr6(prefix, len).Some? ==>
              var r := FromCidr6(prefix, len).value;
              r.lower == prefix && IsCidr6(r.lower, r.upper, len)
              && Masklen6(r.lower, r.upper) == Some(len)
  {
    if len <= 128 {
      MaskBits6(prefix, len);
      ZeroVal(Op6(AndOp, prefix, Hostmask6(len)));
      var r := FromCidr6(prefix, len);
      if r.Some? {
        Masklen6Iff(r.value.lower, r.value.upper, len);
      }
    }
  }

  /** `ip6r_from_inet`: the block of length `len` around `addr`. */
  function FromInet6(addr: IP6, len: nat): Option<IP6R> {
    if len > 128 then None
    else Some(IP6R(Op6(AndOp, addr, Netmask6(len)), Op6(OrOp, addr, Hostmask6(len))))
  }

  lemma FromInet6Spec(addr: IP6, len: nat)
    ensures FromInet6(addr, len).Some? <==> len <= 128
    ensures FromInet6(addr, len).Some? ==>
              var r := FromInet6(addr, len).value;
              r.Has(addr.Val()) && IsCidr6(r.lower, r.upper, len)
              && r.lower.Val() == addr.Val() - Low(addr.Val(), 128 - len)
  {
    if len <= 128 {
      MaskBits6(addr, len);
      var v := addr.Val();
      var k := 128 - len;
      var r := FromInet6(addr, len).value;
      AlignDown(v, k);
      assert r.lower.Val() == v - Low(v, k) && r.upper.Val() == v - Low(v, k) + LowMask(k);
    }
  }

  /** Clearing the low `k` bits aligns a number to `2^k`. */
  lemma AlignDown(v: nat, k: nat)
    ensures Low(v, k) <= v && Low(v, k) <= LowMask(k)
    ensures Low(v - Low(v, k), k) == 0
  {
    ShrLowSplit(v, k);
    ShrLowOf(Shr(v, k), 0, k);
  }

  // ---------------------------------------------------------------------
  // CIDR splitting

  /** The result of one `ip6r_split_cidr` call; see `Ip4rFuncs.SplitStep`. */
  datatype SplitStep6 = SplitStep6(done: bool, piece: IP6R, rest: IP6R)

  /** One turn of the loop: the mask `hostmask6(len - 1)` has the low `j + 1`
      bits set, where `len = 128 - j`.  The and-test says whether `lo` is
      aligned to `2^(j+1)`, and then or-ing the mask into `tmp` (which holds
      `lo` with its low `j` bits set) sets the low `j + 1` bits. */
  lemma LoopTest6(lo: IP6, tmp: IP6, j: nat)
    requires j < 128 && Low(lo.Val(), j) == 0 && tmp.Val() == lo.Val() + LowMask(j)
    ensures Op6(AndOp, lo, Hostmask6(127 - j)) == Zero6 <==> Low(lo.Val(), j + 1) == 0
    ensures Low(lo.Val(), j + 1) == 0 ==>
              Op6(OrOp, tmp, Hostmask6(127 - j)).Val() == lo.Val() + LowMask(j + 1)
  {
    MaskBits6(lo, 127 - j);
    ZeroVal(Op6(AndOp, lo, Hostmask6(127 - j)));
    MaskBits6(tmp, 127 - j);
    if Low(lo.Val(), j + 1) == 0 {
      assert LowMask(j) < Pow2(j + 1) by {
        Pow2Monotone(j, j + 1);
      }
      var v, m := lo.Val(), LowMask(j);
      LowOfAligned(v, m, j + 1);
      assert 128 - (127 - j) == j + 1;
      assert Low(tmp.Val(), j + 1) == m;
      assert Op6(OrOp, tmp, Hostmask6(127 - j)).Val() == (v + m) - m + LowMask(j + 1);
    }
  }

  /** The loop of `ip6r_split_cidr`, counting `j = 128 - len` up from 0.
      It stops before the mask covers all 128 bits because the range is not
      a CIDR block. */
  function GrowBlock6(lo: IP6, hi: IP6, tmp: IP6, j: nat): (k: nat)
    requires Masklen6(lo, hi).None?
    requires j < 128 && BlockFits(lo.Val(), hi.Val(), j) && tmp.Val() == lo.Val() + LowMask(j)
    ensures j <= k < 128 && BlockFits(lo.Val(), hi.Val(), k) && !BlockFits(lo.Val(), hi.Val(), k + 1)
    decreases 128 - j
  {
    var mask := Hostmask6(127 - j);
    LoopTest6(lo, tmp, j);
    if Op6(AndOp, lo, mask) != Zero6 then j
    else
      var tmp' := Op6(OrOp, tmp, mask);
      if LessThan(hi, tmp') then j
      else
        GrowFits6(lo, hi, j + 1);
        GrowBlock6(lo, hi, tmp', j + 1)
  }

  lemma GrowFits6(lo: IP6, hi: IP6, j: nat)
    requires Masklen6(lo, hi).None? && j <= 128 && BlockFits(lo.Val(), hi.Val(), j)
    ensures j < 128
  {
    if j == 128 {
      ValOrder(lo, hi);
      ValOrder(hi, lo);
      Pow2Values();
      ShrLowSmall(lo.Val(), 128);
      Masklen6Iff(lo, hi, 0);
    }
  }

  /** `ip6r_split_cidr` on an ordered range.  The cursor advances past the
      emitted block with `ip6_sub_int(tmp, -1)`. */
  function SplitCidr6(val: IP6R): SplitStep6
    requires val.Valid()
  {
    var lo := val.lower;
    var hi := val.upper;
    if Masklen6(lo, hi).Some? then SplitStep6(true, val, val)
    else
      ShrLowStep(lo.Val(), 0);
      var j := GrowBlock6(lo, hi, lo, 0);
      var top := Op6(OrOp, lo, Hostmask6(128 - j));
      SplitStep6(false, IP6R(lo, top), IP6R(SubInt(top, -1), hi))
  }

  /** A range is returned whole exactly when it is a CIDR block; otherwise
      the piece is the largest CIDR block starting at `lower` that fits, and
      the rest starts right after it. */
  lemma SplitCidr6Spec(val: IP6R)
    requires val.Valid()
    ensures var s := SplitCidr6(val);
            && (s.done <==> Masklen6(val.lower, val.upper).Some?)
            && (s.done ==> s.piece == val)
            && (!s.done ==>
                  && s.piece.lower == val.lower
                  && s.piece.Valid()
                  && s.piece.upper.Val() < val.upper.Val()
                  && Masklen6(s.piece.lower, s.piece.upper).Some?
                  && s.rest.lower.Val() == s.piece.upper.Val() + 1
                  && s.rest.upper == val.upper
                  && (forall n: nat, u: IP6 ::
                        IsCidr6(val.lower, u, n) && u.Val() <= val.upper.Val()
                        ==> u.Val() <= s.piece.upper.Val()))
  {
    var lo, hi := val.lower, val.upper;
    if Masklen6(lo, hi).None? {
      ShrLowStep(lo.Val(), 0);
      var j := GrowBlock6(lo, hi, lo, 0);
      SplitUnfold6(val);
      PieceIsCidr6(lo, SplitCidr6(val).piece.upper, j);
      PieceMaximal6(lo, hi, j);
    }
  }

  /** The step taken on a range that is not a CIDR block. */
  lemma SplitUnfold6(val: IP6R)
    requires val.Valid() && Masklen6(val.lower, val.upper).None?
    ensures BlockFits(val.lower.Val(), val.upper.Val(), 0)
    ensures var j := GrowBlock6(val.lower, val.upper, val.lower, 0);
            var s := SplitCidr6(val);
            && !s.done
            && s.piece.lower == val.lower
            && s.piece.upper.Val() == val.lower.Val() + LowMask(j) < val.upper.Val()
            && s.rest.lower.Val() == s.piece.upper.Val() + 1
            && s.rest.upper == val.upper
  {
    var lo, hi := val.lower, val.upper;
    ShrLowStep(lo.Val(), 0);
    var j := GrowBlock6(lo, hi, lo, 0);
    var top := Op6(OrOp, lo, Hostmask6(128 - j));
    assert SplitCidr6(val) == SplitStep6(false, IP6R(lo, top), IP6R(SubInt(top, -1), hi));
    MaskBits6(lo, 128 - j);
    assert top.Val() == lo.Val() + LowMask(j);
    if top.Val() == hi.Val() {
      Masklen6Iff(lo, hi, 128 - j);
      assert false;
    }
    ValOrder(hi, hi);
    SubIntSucc(top, hi);
  }

  /** `m - (-1)` is the next address when there is one. */
  lemma SubIntSucc(m: IP6, hi: IP6)
    requires m.Val() < hi.Val()
    ensures SubInt(m, -1).Val() == m.Val() + 1
  {
    ValOrder(hi, hi);
    ModBelow(m.Val() + 1, TWO128);
  }

  /** The block the loop settles on is a CIDR block. */
  lemma PieceIsCidr6(lo: IP6, top: IP6, j: nat)
    requires j < 128 && Low(lo.Val(), j) == 0 && top.Val() == lo.Val() + LowMask(j)
    ensures Masklen6(lo, top) == Some(128 - j)
  {
    Masklen6Iff(lo, top, 128 - j);
  }

  /** No CIDR block starting at `lo` and ending later than the loop's block
      fits below `hi`. */
  lemma PieceMaximal6(lo: IP6, hi: IP6, j: nat)
    requires j < 128 && !BlockFits(lo.Val(), hi.Val(), j + 1)
    ensures forall n: nat, u: IP6 :: IsCidr6(lo, u, n) && u.Val() <= hi.Val()
              ==> u.Val() <= lo.Val() + LowMask(j)
  {
    forall n: nat, u: IP6 | IsCidr6(lo, u, n) && u.Val() <= hi.Val()
      ensures u.Val() <= lo.Val() + LowMask(j)
    {
      if 128 - n > j {
        BlockFitsMono(lo.Val(), hi.Val(), j + 1, 128 - n);
        assert false;
      }
      Pow2Monotone(128 - n, j);
    }
  }

  /** The remainder of a split is a smaller ordered range. */
  lemma SplitProgress6(val: IP6R)
    requires val.Valid()
    ensures !SplitCidr6(val).done ==>
              SplitCidr6(val).rest.Valid()
              && SplitCidr6(val).rest.upper.Val() - SplitCidr6(val).rest.lower.Val()
                 < val.upper.Val() - val.lower.Val()
  {
    SplitCidr6Spec(val);
  }

  /** The pieces `ip6r_cidr_split` produces by calling the step until done. */
  function SplitAll6(val: IP6R): (r: seq<IP6R>)
    requires val.Valid()
    decreases val.upper.Val() - val.lower.Val()
  {
    SplitProgress6(val);
    var s := SplitCidr6(val);
    if s.done then [val] else [s.piece] + SplitAll6(s.rest)
  }

  /** `pieces` are CIDR blocks laid end to end from `lo` to `hi`. */
  predicate Tiles6(pieces: seq<IP6R>, lo: nat, hi: nat) {
    && |pieces| > 0
    && pieces[0].lower.Val() == lo
    && pieces[|pieces| - 1].upper.Val() == hi
    && (forall i :: 0 <= i < |pieces| ==>
          pieces[i].Valid() && Masklen6(pieces[i].lower, pieces[i].upper).Some?)
    && (forall i :: 0 <= i < |pieces| - 1 ==> pieces[i + 1].lower.Val() == pieces[i].upper.Val() + 1)
  }

  /** Splitting terminates and tiles the range with ascending CIDR blocks. */
  lemma {:induction false} SplitAll6Tiles(val: IP6R)
    requires val.Valid()
    ensures Tiles6(SplitAll6(val), val.lower.Val(), val.upper.Val())
    decreases val.upper.Val() - val.lower.Val()
  {
    SplitCidr6Spec(val);
    var s := SplitCidr6(val);
    if !s.done {
      SplitAll6Tiles(s.rest);
    }
  }

  /** Adjacent pieces cover exactly the addresses of the tiled range, and
      each address lies in one piece only. */
  lemma {:induction false} Tiles6Cover(pieces: seq<IP6R>, lo: nat, hi: nat, x: nat)
    requires Tiles6(pieces, lo, hi)
    ensures lo <= x <= hi <==> exists i :: 0 <= i < |pieces| && pieces[i].Has(x)
    ensures forall i, k :: 0 <= i < k < |pieces| ==> pieces[i].upper.Val() < pieces[k].lower.Val()
    decreases |pieces|
  {
    if |pieces| > 1 {
      var tail := pieces[1..];
      assert Tiles6(tail, pieces[1].lower.Val(), hi);
      Tiles6Cover(tail, pieces[1].lower.Val(), hi, x);
      if lo <= x <= hi && !pieces[0].Has(x) {
        var i :| 0 <= i < |tail| && tail[i].Has(x);
        assert pieces[i + 1].Has(x);
      }
      forall i, k | 0 <= i < k < |pieces|
        ensures pieces[i].upper.Val() < pieces[k].lower.Val()
      {
        if i > 0 {
          assert tail[i - 1].upper.Val() < tail[k - 1].lower.Val();
        } else if k > 1 {
          assert tail[0].upper.Val() < tail[k - 1].lower.Val();
        }
      }
      if exists i :: 0 <= i < |pieces| && pieces[i].Has(x) {
        var i :| 0 <= i < |pieces| && pieces[i].Has(x);
        if i > 0 {
          assert tail[i - 1].Has(x);
        }
      }
    }
  }

  // ---------------------------------------------------------------------
  // Union, intersection and the range predicates

  /** `c` covers every address of `a`. */
  predicate Encloses6(c: IP6R, a: IP6R) {
    c.lower.Val() <= a.lower.Val() && a.upper.Val() <= c.upper.Val()
  }

  /** `ip6r_union_internal`: the smallest range enclosing both. */
  function Union6(a: IP6R, b: IP6R): (r: IP6R)
    ensures Encloses6(r, a) && Encloses6(r, b)
    ensures forall c: IP6R :: Encloses6(c, a) && Encloses6(c, b) ==> Encloses6(c, r)
  {
    var lower := if LessThan(a.lower, b.lower) then a.lower else b.lower;
    var upper := if LessThan(b.upper, a.upper) then a.upper else b.upper;
    IP6R(lower, upper)
  }

  /** `ip6r_inter_internal`: NULL for disjoint ranges, else the overlap. */
  function Inter6(a: IP6R, b: IP6R): (r: Option<IP6R>)
    ensures a.Valid() && b.Valid() ==>
              (r.None? <==> forall x: nat :: !(a.Has(x) && b.Has(x)))
    ensures r.Some? ==> r.value.Valid() || !(a.Valid() && b.Valid())
    ensures r.Some? ==> forall x: nat :: r.value.Has(x) <==> a.Has(x) && b.Has(x)
  {
    if LessThan(a.upper, b.lower) || LessThan(b.upper, a.lower) then None
    else
      var upper := if LessThan(a.upper, b.upper) then a.upper else b.upper;
      var lower := if LessThan(b.lower, a.lower) then a.lower else b.lower;
      assert a.Valid() && b.Valid() ==> a.Has(lower.Val()) && b.Has(lower.Val());
      Some(IP6R(lower, upper))
  }

  /** `ip6r_equal`. */
  function Equal6(a: IP6R, b: IP6R): (r: bool)
    ensures r <==> a == b
  {
    ValOrder(a.lower, b.lower);
    ValOrder(a.upper, b.upper);
    a.lower == b.lower && a.upper == b.upper
  }

  /** `ip6r_lessthan`: by lower bound, then upper bound. */
  function RangeLessThan6(a: IP6R, b: IP6R): (r: bool)
    ensures r <==> a.lower.Val() < b.lower.Val()
                   || (a.lower.Val() == b.lower.Val() && a.upper.Val() < b.upper.Val())
  {
    var c := Compare(a.lower, b.lower);
    if c == -1 then true else if c == 1 then false else LessThan(a.upper, b.upper)
  }

  /** `ip6r_less_eq`. */
  function RangeLessEq6(a: IP6R, b: IP6R): bool {
    !RangeLessThan6(b, a)
  }

  /** The range order is a strict total order and `less_eq` is its reflexive closure. */
  lemma RangeOrder6(a: IP6R, b: IP6R, c: IP6R)
    ensures !RangeLessThan6(a, a)
    ensures RangeLessThan6(a, b) && RangeLessThan6(b, c) ==> RangeLessThan6(a, c)
    ensures RangeLessThan6(a, b) || a == b || RangeLessThan6(b, a)
    ensures !(RangeLessThan6(a, b) && RangeLessThan6(b, a))
    ensures RangeLessEq6(a, b) <==> RangeLessThan6(a, b) || a == b
  {
    ValOrder(a.lower, b.lower);
    ValOrder(a.upper, b.upper);
  }

  /** `ip6r_contains_internal`: `eqval` on equal ranges, else containment. */
  function ContainsInternal6(left: IP6R, right: IP6R, eqval: bool): (r: bool)
    ensures left.Valid() && right.Valid() ==>
              (r <==> if left == right then eqval
                      else forall x: nat :: right.Has(x) ==> left.Has(x))
  {
    if Equal6(left, right) then eqval
    else if !LessThan(right.lower, left.lower) && !LessThan(left.upper, right.upper) then true
    else
      assert right.Valid() ==> right.Has(right.lower.Val()) && right.Has(right.upper.Val());
      false
  }

  /** `ip6r_overlaps_internal`. */
  function Overlaps6(left: IP6R, right: IP6R): (r: bool)
    ensures left.Valid() && right.Valid() ==>
              (r <==> exists x: nat :: left.Has(x) && right.Has(x))
  {
    if !LessThan(left.upper, right.lower) && !LessThan(right.upper, left.lower) then
      var x := if left.lower.Val() < right.lower.Val() then right.lower.Val() else left.lower.Val();
      assert left.Valid() && right.Valid() ==> left.Has(x) && right.Has(x);
      true
    else
      false
  }

  lemma Overlaps6Symmetric(a: IP6R, b: IP6R)
    ensures Overlaps6(a, b) == Overlaps6(b, a)
  {
  }

  /** `ip6_contains_internal`: the range holds the address. */
  function ContainsIp6(left: IP6R, ip: IP6): (r: bool)
    ensures r <==> left.Has(ip.Val())
  {
    !LessThan(ip, left.lower) && !LessThan(left.upper, ip)
  }
}
