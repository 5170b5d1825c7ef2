/** The SQL-facing IPv6 operations of `src/ip6r.c` (and of its older root
    copy `ip6r.c`, which has the same code for everything both define):
    range text I/O, the carry- and borrow-propagating `+` and `-`, the
    prefix and mask functions, the `in_range` window support, and the GiST
    union, picksplit and consistency rules. */
module Ip6r {
  import opened Bits
  import opened Wrappers
  import opened Ip6rFuncs
  import opened RawIo
  import opened RawIo6
  import opened RawIo6Proofs
  import opened RangeText
  import opened Picksplit
  import Ipr

  // ---------------------------------------------------------------------
  // Range text I/O

  /** `ip6r_from_str`: a single address, `a-b` in either order, or `a/n`
      with an aligned prefix.  The part before a separator may take at
      most `IP6_STRING_MAX - 2` characters. */
  function RangeFromStr(s: string): (r: Option<IP6R>)
    ensures r.Some? ==> r.value.Valid()
  {
    var pos := SepPos(s);
    if pos == |s| then
      match Ip6Input(s)
      case None => None
      case Some(ip) => Some(IP6R(ip, ip))
    else if pos > Ip6StringMax - 2 then None
    else
      match Ip6Input(s[..pos])
      case None => None
      case Some(first) =>
        if s[pos] == '-' then
          match Ip6Input(s[pos + 1..])
          case None => None
          case Some(second) =>
            if !LessThan(second, first) then Some(IP6R(first, second)) else Some(IP6R(second, first))
        else
          match PrefixLength(s[pos + 1..])
          case None => None
          case Some(len) =>
            FromCidr6Spec(first, len);
            FromCidr6(first, len)
  }

  /** `ip6r_to_str`: `a` for a single address, `a/n` for a CIDR block and
      `a-b` otherwise. */
  function RangeToStr(r: IP6R): string {
    if r.lower == r.upper then Ip6Output(r.lower)
    else
      match Masklen6(r.lower, r.upper)
      case Some(n) => Ip6Output(r.lower) + "/" + Dec(n)
      case None => Ip6Output(r.lower) + "-" + Ip6Output(r.upper)
  }

  /** A formatted address holds no separator, and it fits the buffer the
      part before a separator is copied into. */
  lemma NoSepIn(ip: IP6)
    ensures SepFree(Ip6Output(ip))
    ensures |Ip6Output(ip)| <= Ip6StringMax - 2
  {
    Ip6OutputFits(ip);
    Ip6OutputChars(ip);
    var s := Ip6Output(ip);
    forall i | 0 <= i < |s|
      ensures !IsSep(s[i])
    {
      assert IsIp6Char(s[i]);
    }
  }

  /** Text without a separator is read as one address. */
  lemma FromStrSingle(s: string)
    requires SepFree(s)
    ensures RangeFromStr(s).Some? <==> Ip6Input(s).Some?
    ensures Ip6Input(s).Some? ==>
              RangeFromStr(s) == Some(IP6R(Ip6Input(s).value, Ip6Input(s).value))
  {
    SepPosNone(s);
  }

  /** `a-b` gives the range between the two addresses, whichever is
      written first. */
  lemma FromStrDash(a: IP6, b: IP6)
    ensures RangeFromStr(Ip6Output(a) + "-" + Ip6Output(b))
            == Some(if b.Val() < a.Val() then IP6R(b, a) else IP6R(a, b))
  {
    var x, y := Ip6Output(a), Ip6Output(b);
    NoSepIn(a);
    SepPosAfter(x, '-', y);
    Pieces(x, '-', y);
    Ip6RoundTrip(a);
    Ip6RoundTrip(b);
  }

  /** `a/n` gives the block `a/n` when `n` is a run of digits, and nothing
      otherwise. */
  lemma FromStrSlash(ip: IP6, ds: string)
    ensures RangeFromStr(Ip6Output(ip) + "/" + ds)
            == if PrefixLength(ds).Some? then FromCidr6(ip, PrefixLength(ds).value) else None
  {
    var x := Ip6Output(ip);
    NoSepIn(ip);
    SepPosAfter(x, '/', ds);
    Pieces(x, '/', ds);
    Ip6RoundTrip(ip);
  }

  /** Reading back the text of an ordered range gives the range. */
  lemma RangeRoundTrip(r: IP6R)
    requires r.Valid()
    ensures RangeFromStr(RangeToStr(r)) == Some(r)
  {
    if r.lower == r.upper {
      RoundTripSingle(r.lower);
    } else {
      match Masklen6(r.lower, r.upper)
      case Some(n) =>
        assert RangeToStr(r) == Ip6Output(r.lower) + "/" + Dec(n);
        RoundTripCidr(r, n);
      case None =>
        assert RangeToStr(r) == Ip6Output(r.lower) + "-" + Ip6Output(r.upper);
        FromStrDash(r.lower, r.upper);
    }
  }

  lemma RoundTripSingle(ip: IP6)
    ensures RangeFromStr(Ip6Output(ip)) == Some(IP6R(ip, ip))
  {
    NoSepIn(ip);
    FromStrSingle(Ip6Output(ip));
    Ip6RoundTrip(ip);
  }

  lemma RoundTripCidr(r: IP6R, n: nat)
    requires Masklen6(r.lower, r.upper) == Some(n)
    ensures RangeFromStr(Ip6Output(r.lower) + "/" + Dec(n)) == Some(r)
  {
    FromStrSlash(r.lower, Dec(n));
    PrefixLengthOfDec(n);
    Masklen6Iff(r.lower, r.upper, n);
    FromCidr6Spec(r.lower, n);
    var c := FromCidr6(r.lower, n).value;
    Masklen6Iff(c.lower, c.upper, n);
    ValOrder(c.upper, r.upper);
  }

  /** A prefix length takes at most three digits. */
  lemma DecLength(n: nat)
    requires n <= 128
    ensures |Dec(n)| <= 3
  {
    if n >= 10 {
      assert Dec(n) == Dec(n / 10) + [DecChar(n % 10)];
      if n / 10 >= 10 {
        assert Dec(n / 10) == Dec(n / 100) + [DecChar(n / 10 % 10)];
      }
    }
  }

  /** The text fits `IP6R_STRING_MAX` with its terminator. */
  lemma RangeToStrFits(r: IP6R)
    ensures |RangeToStr(r)| + 1 <= Ipr.Ip6rStringMax
  {
    var a, b := Ip6Output(r.lower), Ip6Output(r.upper);
    Ip6OutputFits(r.lower);
    Ip6OutputFits(r.upper);
    if r.lower != r.upper {
      match Masklen6(r.lower, r.upper)
      case Some(n) =>
        Masklen6Iff(r.lower, r.upper, n);
        DecLength(n);
        assert RangeToStr(r) == a + "/" + Dec(n);
      case None =>
        assert RangeToStr(r) == a + "-" + b;
    }
  }

  // ---------------------------------------------------------------------
  // Arithmetic

  /** The carrying add of `ip6_plus_int` and `ip6_plus_bigint` for a
      non-negative amount: add to the low limb, and carry one into the high
      limb when the low limb comes out smaller. */
  function AddLow(ip: IP6, k: nat): (r: IP6)
    requires k < TWO64
    ensures r.Val() == (ip.Val() + k) % TWO128
  {
    var lo := (ip.lo + k) % TWO64;
    var carry := if lo < ip.lo then 1 else 0;
    assert lo == ip.lo + k - carry * TWO64 by {
      if ip.lo + k < TWO64 {
        ModBelow(ip.lo + k, TWO64);
      } else {
        ModOfSum(ip.lo + k - TWO64, 1, TWO64);
        ModBelow(ip.lo + k - TWO64, TWO64);
      }
    }
    assert ip.Val() + k == (ip.hi + carry) * TWO64 + lo;
    WrapLimbs(ip.hi + carry, lo);
    IP6((ip.hi + carry) % TWO64, lo)
  }

  /** The borrowing subtract of the negative branches: take from the low
      limb, and borrow one from the high limb when the low limb comes out
      larger. */
  function SubLow(ip: IP6, k: nat): (r: IP6)
    requires k < TWO64
    ensures r.Val() == (ip.Val() - k) % TWO128
  {
    var lo := (ip.lo - k) % TWO64;
    var borrow := if lo > ip.lo then 1 else 0;
    assert lo == ip.lo - k + borrow * TWO64 by {
      if ip.lo >= k {
        ModBelow(ip.lo - k, TWO64);
      } else {
        ModOfSum(ip.lo - k, 1, TWO64);
        ModBelow(ip.lo - k + TWO64, TWO64);
      }
    }
    assert ip.Val() - k == (ip.hi - borrow) * TWO64 + lo;
    WrapLimbs(ip.hi - borrow, lo);
    IP6((ip.hi - borrow) % TWO64, lo)
  }

  /** The overflow test of the four operations: a result taken modulo
      2^128 moved the wrong way exactly when the exact result is not an
      address, and otherwise it is the exact result. */
  lemma WrapCheck(v: nat, k: int, res: nat)
    requires v < TWO128 && 0 < k + TWO128 && k < TWO128
    requires res == (v + k) % TWO128
    ensures ((k < 0) != (res < v)) <==> !(0 <= v + k < TWO128)
    ensures 0 <= v + k < TWO128 ==> res == v + k
  {
    if v + k < 0 {
      ModOfSum(v + k, 1, TWO128);
      ModBelow(v + k + TWO128, TWO128);
    } else if v + k < TWO128 {
      ModBelow(v + k, TWO128);
    } else {
      ModOfSum(v + k - TWO128, 1, TWO128);
      ModBelow(v + k - TWO128, TWO128);
    }
  }

  /** `ip6_plus_int`: refused exactly when the sum is not an address. */
  function PlusInt(ip: IP6, addend: i32): (r: Result<IP6, Error>)
    ensures r.Success? <==> 0 <= ip.Val() + addend < TWO128
    ensures r.Success? ==> r.value.Val() == ip.Val() + addend
    ensures r.Failure? ==> r.error == AddressOutOfRange
  {
    var result := if addend >= 0 then AddLow(ip, addend) else SubLow(ip, -(addend as int));
    ValOrder(ip, ip);
    WrapCheck(ip.Val(), addend, result.Val());
    if (addend < 0) != LessThan(result, ip) then Failure(AddressOutOfRange) else Success(result)
  }

  /** `ip6_plus_bigint`: the same with a 64-bit addend. */
  function PlusBigint(ip: IP6, addend: i64): (r: Result<IP6, Error>)
    ensures r.Success? <==> 0 <= ip.Val() + addend < TWO128
    ensures r.Success? ==> r.value.Val() == ip.Val() + addend
    ensures r.Failure? ==> r.error == AddressOutOfRange
  {
    var result := if addend >= 0 then AddLow(ip, addend) else SubLow(ip, -(addend as int));
    ValOrder(ip, ip);
    WrapCheck(ip.Val(), addend, result.Val());
    if (addend < 0) != LessThan(result, ip) then Failure(AddressOutOfRange) else Success(result)
  }

  /** `ip6_minus_int`: `ip6_sub_int`, refused exactly when the difference
      is not an address. */
  function MinusInt(ip: IP6, subtrahend: i32): (r: Result<IP6, Error>)
    ensures r.Success? <==> 0 <= ip.Val() - subtrahend < TWO128
    ensures r.Success? ==> r.value.Val() == ip.Val() - subtrahend
    ensures r.Failure? ==> r.error == AddressOutOfRange
  {
    var result := SubInt(ip, subtrahend);
    ValOrder(ip, ip);
    WrapCheck(ip.Val(), -(subtrahend as int), result.Val());
    if (subtrahend > 0) != LessThan(result, ip) then Failure(AddressOutOfRange) else Success(result)
  }

  /** `ip6_minus_bigint`: the same with a 64-bit subtrahend. */
  function MinusBigint(ip: IP6, subtrahend: i64): (r: Result<IP6, Error>)
    ensures r.Success? <==> 0 <= ip.Val() - subtrahend < TWO128
    ensures r.Success? ==> r.value.Val() == ip.Val() - subtrahend
    ensures r.Failure? ==> r.error == AddressOutOfRange
  {
    var result := if subtrahend >= 0 then SubLow(ip, subtrahend) else AddLow(ip, -(subtrahend as int));
    ValOrder(ip, ip);
    WrapCheck(ip.Val(), -(subtrahend as int), result.Val());
    if (subtrahend > 0) != LessThan(result, ip) then Failure(AddressOutOfRange) else Success(result)
  }

  /** Adding and then subtracting the same amount gives the address back. */
  lemma PlusMinusInverse(ip: IP6, k: i32)
    requires PlusInt(ip, k).Success?
    ensures MinusInt(PlusInt(ip, k).value, k) == Success(ip)
  {
    var x := PlusInt(ip, k).value;
    ValOrder(MinusInt(x, k).value, ip);
    ValOrder(ip, MinusInt(x, k).value);
  }

  // ---------------------------------------------------------------------
  // Negating the most negative `int`

  /** `-x` on a C `int` with two's-complement wrap-around, as PostgreSQL
      compiles it (`-fwrapv`): `-INT_MIN` stays `INT_MIN`. */
  function NegWrap32(x: i32): (r: i32)
    ensures x != -0x8000_0000 ==> r == -x
    ensures x == -0x8000_0000 ==> r == x
  {
    if x == -0x8000_0000 then x else -x
  }

  /** `(uint64)` of a signed value: its 64-bit two's-complement pattern. */
  function ToU64(x: int): (r: u64)
    ensures 0 <= x < TWO64 ==> r == x
    ensures 0 <= x + TWO64 < TWO64 ==> r == x + TWO64
  {
    if 0 <= x < TWO64 then
      ModBelow(x, TWO64);
      x % TWO64
    else if 0 <= x + TWO64 < TWO64 then
      ModOfSum(x, 1, TWO64);
      ModBelow(x + TWO64, TWO64);
      x % TWO64
    else
      x % TWO64
  }

  /** `ip6_plus_int` as written: the negative branch subtracts
      `(uint64)(-addend)` with `-addend` taken in `int`.  It agrees with
      `PlusInt` on every addend but `INT_MIN`. */
  function PlusIntAsWritten(ip: IP6, addend: i32): (r: Result<IP6, Error>)
    ensures addend != -0x8000_0000 ==> r == PlusInt(ip, addend)
  {
    var result := if addend >= 0 then AddLow(ip, addend) else SubLow(ip, ToU64(NegWrap32(addend)));
    if (addend < 0) != LessThan(result, ip) then Failure(AddressOutOfRange) else Success(result)
  }

  /** With `INT_MIN`, `(uint64)(-addend)` is `2^64 - 2^31`, so the low limb
      moves up by `2^31` and the borrow takes `2^64` off:
      `0:0:0:1:: + (-2147483648)` gives `::8000:0` instead of
      `::ffff:ffff:8000:0`, and the direction test lets it through. */
  lemma PlusIntMinInt()
    ensures PlusIntAsWritten(IP6(1, 0), -0x8000_0000) == Success(IP6(0, 0x8000_0000))
    ensures PlusInt(IP6(1, 0), -0x8000_0000) == Success(IP6(0, 0xFFFF_FFFF_8000_0000))
  {
    var ip := IP6(1, 0);
    assert ToU64(NegWrap32(-0x8000_0000)) == 0xFFFF_FFFF_8000_0000;
    assert SubLow(ip, 0xFFFF_FFFF_8000_0000) == IP6(0, 0x8000_0000) by {
      ModOfSum(0x8000_0000, -1, TWO64);
      ModBelow(0x8000_0000, TWO64);
      ModBelow(0, TWO64);
    }
    ValOrder(PlusInt(ip, -0x8000_0000).value, IP6(0, 0xFFFF_FFFF_8000_0000));
  }

  /** `ip6_sub_int` as written: the negative branch adds
      `(uint64)(-subtrahend)` with `-subtrahend` taken in `int`.  It agrees
      with `SubInt` on every subtrahend but `INT_MIN`. */
  function SubIntAsWritten(m: IP6, k: i32): (r: IP6)
    ensures k != -0x8000_0000 ==> r == SubInt(m, k)
  {
    if k >= 0 then SubInt(m, k)
    else
      var resLo := (m.lo + ToU64(NegWrap32(k))) % TWO64;
      var carry := if resLo < m.lo then 1 else 0;
      IP6((m.hi + carry) % TWO64, resLo)
  }

  /** `ip6_minus_int` as written, on `ip6_sub_int` as written. */
  function MinusIntAsWritten(ip: IP6, subtrahend: i32): (r: Result<IP6, Error>)
    ensures subtrahend != -0x8000_0000 ==> r == MinusInt(ip, subtrahend)
  {
    var result := SubIntAsWritten(ip, subtrahend);
    if (subtrahend > 0) != LessThan(result, ip) then Failure(AddressOutOfRange) else Success(result)
  }

  /** With `INT_MIN` the low limb moves down by `2^31` and the carry adds
      `2^64`: `::8000:0 - (-2147483648)` gives `0:0:0:1::` instead of
      `::1:0:0`, and the direction test lets it through. */
  lemma MinusIntMinInt()
    ensures MinusIntAsWritten(IP6(0, 0x8000_0000), -0x8000_0000) == Success(IP6(1, 0))
    ensures MinusInt(IP6(0, 0x8000_0000), -0x8000_0000) == Success(IP6(0, 0x1_0000_0000))
  {
    var ip := IP6(0, 0x8000_0000);
    assert ToU64(NegWrap32(-0x8000_0000)) == 0xFFFF_FFFF_8000_0000;
    assert (0x8000_0000 + 0xFFFF_FFFF_8000_0000) % TWO64 == 0 by {
      ModSelf(TWO64);
    }
    assert SubIntAsWritten(ip, -0x8000_0000) == IP6(1, 0) by {
      ModBelow(1, TWO64);
    }
    ValOrder(MinusInt(ip, -0x8000_0000).value, IP6(0, 0x1_0000_0000));
  }

  // ---------------------------------------------------------------------
  // Prefixes and masks

  predicate PrefixOk(pfxlen: i32) {
    0 <= pfxlen <= 128
  }

  /** `ip6_netmask`: the address with the top `pfxlen` bits set. */
  function NetmaskOf(pfxlen: i32): (r: Result<IP6, Error>)
    ensures r.Success? <==> 0 <= pfxlen <= 128
    ensures r.Success? ==> r.value.Val() == HighMask(128, 128 - pfxlen)
                           && ValidNetmask6(r.value.hi, r.value.lo)
    ensures r.Failure? ==> r.error == PrefixOutOfRange
  {
    if !PrefixOk(pfxlen) then Failure(PrefixOutOfRange)
    else
      NetmaskIsValid6(pfxlen);
      Success(Netmask6(pfxlen))
  }

  /** `ip6_net_lower`: the first address of the `/pfxlen` network. */
  function NetLower(ip: IP6, pfxlen: i32): (r: Result<IP6, Error>)
    ensures r.Success? <==> 0 <= pfxlen <= 128
    ensures r.Success? ==> r.value.Val() == ip.Val() - Low(ip.Val(), 128 - pfxlen)
    ensures r.Failure? ==> r.error == PrefixOutOfRange
  {
    if !PrefixOk(pfxlen) then Failure(PrefixOutOfRange)
    else
      MaskBits6(ip, pfxlen);
      Success(Op6(AndOp, ip, Netmask6(pfxlen)))
  }

  /** `ip6_net_upper`: the last address of the `/pfxlen` network. */
  function NetUpper(ip: IP6, pfxlen: i32): (r: Result<IP6, Error>)
    ensures r.Success? <==> 0 <= pfxlen <= 128
    ensures r.Success? ==> r.value.Val() == ip.Val() - Low(ip.Val(), 128 - pfxlen) + LowMask(128 - pfxlen)
    ensures r.Failure? ==> r.error == PrefixOutOfRange
  {
    if !PrefixOk(pfxlen) then Failure(PrefixOutOfRange)
    else
      MaskBits6(ip, pfxlen);
      Success(Op6(OrOp, ip, Hostmask6(pfxlen)))
  }

  /** `~mask`, limb by limb. */
  function Complement(mask: IP6): IP6 {
    IP6(Not64(mask.hi), Not64(mask.lo))
  }

  /** The network range `[ip & mask, ip | ~mask]` of `ip6r_net_mask`. */
  function MaskedRange(ip: IP6, mask: IP6): IP6R {
    IP6R(Op6(AndOp, ip, mask), Op6(OrOp, ip, Complement(mask)))
  }

  /** `ip6r_net_prefix`: the `/pfxlen` block holding `ip`, built by
      `ip6r_from_inet`. */
  function NetPrefix(ip: IP6, pfxlen: i32): (r: Result<IP6R, Error>)
    ensures r.Success? <==> 0 <= pfxlen <= 128
    ensures r.Success? ==> r.value.Has(ip.Val()) && IsCidr6(r.value.lower, r.value.upper, pfxlen)
    ensures r.Failure? ==> r.error == PrefixOutOfRange
  {
    if !PrefixOk(pfxlen) then Failure(PrefixOutOfRange)
    else
      FromInet6Spec(ip, pfxlen);
      Success(FromInet6(ip, pfxlen).value)
  }

  /** The bounds of the `ip6r_net_prefix` block are `ip6_net_lower` and
      `ip6_net_upper`. */
  lemma NetPrefixBounds(ip: IP6, n: nat)
    requires n <= 128
    ensures NetLower(ip, n) == Success(NetPrefix(ip, n).value.lower)
    ensures NetUpper(ip, n) == Success(NetPrefix(ip, n).value.upper)
  {
  }

  /** `ip6r_net_mask`: refused unless `mask` is a netmask. */
  function NetMask(ip: IP6, mask: IP6): (r: Result<IP6R, Error>)
    ensures r.Success? <==> exists n: nat :: n <= 128 && mask == Netmask6(n)
    ensures r.Failure? ==> r.error == InvalidNetmask
  {
    ValidNetmask6Iff(mask.hi, mask.lo);
    if !ValidNetmask6(mask.hi, mask.lo) then Failure(InvalidNetmask)
    else Success(MaskedRange(ip, mask))
  }

  /** With the netmask of length `n`, `ip6r_net_mask` and
      `ip6r_net_prefix` agree. */
  lemma NetMaskIsPrefix(ip: IP6, n: nat)
    requires n <= 128
    ensures NetMask(ip, Netmask6(n)) == NetPrefix(ip, n)
  {
    NetmaskIsValid6(n);
    assert Complement(Netmask6(n)) == Hostmask6(n);
  }

  // ---------------------------------------------------------------------
  // Window frames

  /** `ip6_in_range_bigint`: `val CMP (base OP offset)`.  An offset of
      `-n` stands for the `/n` network of `base`: its first address when
      subtracting and its last when adding. */
  function InRangeBigint(val: IP6, base: IP6, offset: i64, sub: bool, less: bool): (r: Result<bool, Error>)
    ensures r.Success? <==> -128 <= offset
    ensures r.Failure? ==> r.error == InvalidWindowSize
    ensures r.Success? && offset >= 0 ==>
              r.value == Ipr.Cmp(val.Val(), if sub then base.Val() - offset else base.Val() + offset, less)
    ensures r.Success? && offset < 0 ==>
              var net := FromInet6(base, -offset).value;
              r.value == Ipr.Cmp(val.Val(), if sub then net.lower.Val() else net.upper.Val(), less)
  {
    if offset < -128 then Failure(InvalidWindowSize)
    else if offset < 0 then
      var bits := -offset;
      MaskBits6(base, bits);
      Success(InRangeBits(val, base, bits, sub, less))
    else
      Success(InRangeInternal(val, base, IP6(0, offset), sub, less))
  }

  // ---------------------------------------------------------------------
  // GiST: union

  /** `gip6r_union`: the bounding range of the entries, folded from the
      first one. */
  function UnionAll(es: seq<IP6R>): (r: IP6R)
    requires |es| > 0
    ensures forall i :: 0 <= i < |es| ==> Encloses6(r, es[i])
    ensures exists i :: 0 <= i < |es| && r.lower == es[i].lower
    ensures exists i :: 0 <= i < |es| && r.upper == es[i].upper
    decreases |es|
  {
    if |es| == 1 then es[0]
    else
      var m := |es| - 1;
      var u := UnionAll(es[..m]);
      assert forall i :: 0 <= i < m ==> es[..m][i] == es[i];
      Union6(u, es[m])
  }

  /** A key enclosing every entry encloses their union: the union is the
      smallest bounding range. */
  lemma UnionAllLeast(es: seq<IP6R>, c: IP6R)
    requires |es| > 0
    requires forall i :: 0 <= i < |es| ==> Encloses6(c, es[i])
    ensures Encloses6(c, UnionAll(es))
  {
    var u := UnionAll(es);
    var i :| 0 <= i < |es| && u.lower == es[i].lower;
    var j :| 0 <= j < |es| && u.upper == es[j].upper;
    assert Encloses6(c, es[i]) && Encloses6(c, es[j]);
  }

  // ---------------------------------------------------------------------
  // GiST: picksplit

  /** The side test of `gip6r_picksplit`: `ip6_sub(cur.lower,
      pageunion.lower)` against `ip6_sub(pageunion.upper, cur.upper)`.  The
      first pass only asks for "less than"; the re-split also tells a tie
      apart. */
  function SideOf(cur: IP6R, pu: IP6R): Side {
    var d1 := Sub(cur.lower, pu.lower);
    var d2 := Sub(pu.upper, cur.upper);
    if LessThan(d1, d2) then LeftSide else if d1 == d2 then Tie else RightSide
  }

  /** Inside the page union the limb differences are the exact distances
      to its two ends. */
  lemma SideOfMeaning(cur: IP6R, pu: IP6R)
    requires Encloses6(pu, cur)
    ensures var d1, d2 := cur.lower.Val() - pu.lower.Val(), pu.upper.Val() - cur.upper.Val();
            && (SideOf(cur, pu) == LeftSide <==> d1 < d2)
            && (SideOf(cur, pu) == Tie <==> d1 == d2)
  {
    var d1 := Sub(cur.lower, pu.lower);
    var d2 := Sub(pu.upper, cur.upper);
    ValOrder(cur.lower, cur.lower);
    ValOrder(pu.upper, pu.upper);
    ModBelow(cur.lower.Val() - pu.lower.Val(), TWO128);
    ModBelow(pu.upper.Val() - cur.upper.Val(), TWO128);
    ValOrder(d1, d2);
  }

  /** The class of each page entry against the page union `pu`. */
  function Classes(es: seq<IP6R>, pu: IP6R): (r: seq<Side>)
    ensures |r| == |es|
    ensures forall k :: 0 <= k < |es| ==> r[k] == SideOf(es[k], pu)
  {
    if |es| == 0 then [] else [SideOf(es[0], pu)] + Classes(es[1..], pu)
  }

  /** The `allisequal` test: every entry equals the first. */
  predicate AllEqual(es: seq<IP6R>) {
    forall i :: 0 <= i < |es| ==> es[i] == es[0]
  }

  /** What `gip6r_picksplit` hands back: the offset lists and the union of
      each side. */
  datatype Split6 = Split6(lists: Lists, unionL: IP6R, unionR: IP6R)

  /** The side lists before the unions are taken.  `order` is the order
      `qsort` leaves the entries in, by ascending size, for the re-split. */
  function SplitLists(es: seq<IP6R>, order: seq<nat>): Lists
    requires |es| >= 2
    requires InRange(order, |es|)
  {
    var pu := UnionAll(es);
    if AllEqual(es) && es[1] == pu then Midpoint(|es|)
    else TwoPass(Classes(es, pu), order)
  }

  /** `gip6r_picksplit` on a page of at least two entries. */
  function Picksplit6(es: seq<IP6R>, order: seq<nat>): (r: Split6)
    requires |es| >= 2
    requires IsOrder(order, |es|)
    ensures Partitions(r.lists, |es|)
    ensures |r.lists.left| > 0 && |r.lists.right| > 0
    ensures Bounds(es, r.lists.left, r.unionL) && Bounds(es, r.lists.right, r.unionR)
  {
    var n := |es|;
    assert InRange(order, n) by {
      OrderInRange(order, n);
    }
    var l := SplitLists(es, order);
    assert Partitions(l, n) && |l.left| > 0 && |l.right| > 0 by {
      SplitListsSpec(es, order);
    }
    assert InRange(l.left, n) && InRange(l.right, n) by {
      ListsInRange(l, n);
    }
    var u := SideUnions(es, l, AllEqual(es) && es[1] == UnionAll(es));
    Split6(l, u.0, u.1)
  }

  /** The unions handed back with the lists: the page union for the
      all-equal split, else the union `ADDLIST` accumulates on each side. */
  function SideUnions(es: seq<IP6R>, l: Lists, allEqual: bool): (u: (IP6R, IP6R))
    requires |es| > 0 && |l.left| > 0 && |l.right| > 0
    requires InRange(l.left, |es|) && InRange(l.right, |es|)
    ensures Bounds(es, l.left, u.0) && Bounds(es, l.right, u.1)
  {
    var pu := UnionAll(es);
    var uL := if allEqual then pu else SideUnion(es, l.left);
    var uR := if allEqual then pu else SideUnion(es, l.right);
    PageBound(es, l.left);
    PageBound(es, l.right);
    (uL, uR)
  }

  /** `u` bounds the entries at the offsets `offs`, which are all page
      offsets. */
  predicate Bounds(es: seq<IP6R>, offs: seq<nat>, u: IP6R) {
    forall k :: k in offs ==> 1 <= k <= |es| && Encloses6(u, es[k - 1])
  }

  /** The page union bounds every entry. */
  lemma PageBound(es: seq<IP6R>, offs: seq<nat>)
    requires |es| > 0 && InRange(offs, |es|)
    ensures Bounds(es, offs, UnionAll(es))
  {
    forall k | k in offs
      ensures 1 <= k <= |es| && Encloses6(UnionAll(es), es[k - 1])
    {
      var i :| 0 <= i < |offs| && offs[i] == k;
    }
  }

  /** The union `ADDLIST` accumulates for one side. */
  function SideUnion(es: seq<IP6R>, offs: seq<nat>): (u: IP6R)
    requires forall i :: 0 <= i < |offs| ==> 1 <= offs[i] <= |es|
    requires |offs| > 0
    ensures Bounds(es, offs, u)
  {
    var p := Pick(es, offs);
    var u := UnionAll(p);
    forall k | k in offs
      ensures 1 <= k <= |es| && Encloses6(u, es[k - 1])
    {
      var i :| 0 <= i < |offs| && offs[i] == k;
      assert p[i] == es[k - 1];
    }
    u
  }

  /** The lists split the page and neither is empty. */
  lemma SplitListsSpec(es: seq<IP6R>, order: seq<nat>)
    requires |es| >= 2
    requires IsOrder(order, |es|)
    requires InRange(order, |es|)
    ensures Partitions(SplitLists(es, order), |es|)
    ensures |SplitLists(es, order).left| > 0 && |SplitLists(es, order).right| > 0
  {
    var pu := UnionAll(es);
    if !(AllEqual(es) && es[1] == pu) {
      var cls := Classes(es, pu);
      var top :| 0 <= top < |es| && pu.upper == es[top].upper;
      var bottom :| 0 <= bottom < |es| && pu.lower == es[bottom].lower;
      HighEndNotLeft(es[top], pu);
      if SideOf(es[bottom], pu) != LeftSide {
        LowEndTie(es[bottom], pu);
      }
      TwoPassSpec(cls, order, top, bottom);
    } else {
      assert AllEqual(es);
    }
  }

  /** An entry ending where the page union ends is never nearer the lower
      end: its distance to the upper end is zero. */
  lemma HighEndNotLeft(cur: IP6R, pu: IP6R)
    requires cur.upper == pu.upper
    ensures SideOf(cur, pu) != LeftSide
  {
    assert Sub(pu.upper, cur.upper) == IP6(0, 0);
  }

  /** An entry starting where the page union starts is a tie unless it is
      nearer the lower end. */
  lemma LowEndTie(cur: IP6R, pu: IP6R)
    requires cur.lower == pu.lower && SideOf(cur, pu) != LeftSide
    ensures SideOf(cur, pu) == Tie
  {
    assert Sub(cur.lower, pu.lower) == IP6(0, 0);
  }

  // ---------------------------------------------------------------------
  // GiST: consistency

  /** `gip6r_leaf_consistent`: the operator of each strategy number applied
      to a leaf key, `>>=`, `<<=`, `>>`, `<<`, `&&` and `=`. */
  function LeafConsistent(key: IP6R, query: IP6R, strategy: int): (r: bool)
    ensures key.Valid() && query.Valid() ==>
              r == match strategy
                   case 1 => forall x: nat :: query.Has(x) ==> key.Has(x)
                   case 2 => forall x: nat :: key.Has(x) ==> query.Has(x)
                   case 3 => key != query && forall x: nat :: query.Has(x) ==> key.Has(x)
                   case 4 => key != query && forall x: nat :: key.Has(x) ==> query.Has(x)
                   case 5 => exists x: nat :: key.Has(x) && query.Has(x)
                   case 6 => key == query
                   case _ => false
  {
    match strategy
    case 1 => ContainsInternal6(key, query, true)
    case 2 => ContainsInternal6(query, key, true)
    case 3 => ContainsInternal6(key, query, false)
    case 4 => ContainsInternal6(query, key, false)
    case 5 => Overlaps6(key, query)
    case 6 => Equal6(key, query)
    case _ => false
  }

  /** `gip6r_internal_consistent`: the test on an inner key, relaxed so
      that it admits every subtree that may hold a match. */
  function InternalConsistent(key: IP6R, query: IP6R, strategy: int): bool {
    match strategy
    case 2 => Overlaps6(key, query)
    case 4 => Overlaps6(key, query)
    case 5 => Overlaps6(key, query)
    case 3 => ContainsInternal6(key, query, false)
    case 1 => ContainsInternal6(key, query, true)
    case 6 => ContainsInternal6(key, query, true)
    case _ => false
  }

  /** An inner key that encloses a matching leaf is never pruned. */
  lemma InternalSound(key: IP6R, leaf: IP6R, query: IP6R, strategy: int)
    requires leaf.Valid() && Encloses6(key, leaf)
    requires LeafConsistent(leaf, query, strategy)
    ensures InternalConsistent(key, query, strategy)
  {
  }

  /** In particular the `gip6r_union` of a page admits every query that
      one of its entries matches. */
  lemma UnionSound(es: seq<IP6R>, i: nat, query: IP6R, strategy: int)
    requires i < |es| && es[i].Valid()
    requires LeafConsistent(es[i], query, strategy)
    ensures InternalConsistent(UnionAll(es), query, strategy)
  {
    InternalSound(UnionAll(es), es[i], query, strategy);
  }
}
