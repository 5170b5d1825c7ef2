/** The family-polymorphic `ipaddress` type of `ipaddr.c`: a value is an
    IPv4 or an IPv6 address (the `IP` union after `ip_unpack`), text input
    is dispatched on the presence of a `:`, the per-family operations are
    lifted by the `ipaddr_transform_*` helpers, and the ordering puts every
    IPv4 address before every IPv6 address. */
module IpAddr {
  import opened Bits
  import opened Wrappers
  import opened Ip6rFuncs
  import opened Ipr
  import Ip4rFuncs
  import RawIo
  import RawIo6
  import RawIo6Proofs
  import Ip4r
  import Ip6r

  // ---------------------------------------------------------------------
  // Text

  /** The C string a text value holds once `buf[tlen] = 0` is written:
      everything before the first NUL. */
  function CStr(s: string): (r: string)
    ensures |r| <= |s| && r == s[..|r|]
    ensures forall i :: 0 <= i < |r| ==> r[i] != '\0'
    ensures |r| < |s| ==> s[|r|] == '\0'
  {
    if |s| == 0 || s[0] == '\0' then "" else [s[0]] + CStr(s[1..])
  }

  /** A text without NUL is its own C string. */
  lemma {:induction false} CStrNoNul(s: string)
    requires forall i :: 0 <= i < |s| ==> s[i] != '\0'
    ensures CStr(s) == s
  {
    if |s| > 0 {
      CStrNoNul(s[1..]);
    }
  }

  /** `ipaddr_in`: a text holding a `:` is read by `ip6_raw_input` and any
      other text by `ip4_raw_input`; when that parser refuses it, the value
      is invalid, with no second attempt in the other family. */
  function AddrIn(s: string): (r: Result<IP, Error>)
    ensures r.Success? ==> (r.value.V6? <==> ':' in s)
    ensures r.Success? && r.value.V6? ==> RawIo6.Ip6Input(s) == Some(r.value.ip6)
    ensures r.Success? && r.value.V4? ==> RawIo.Ip4Input(s) == Some(r.value.ip4)
    ensures r.Failure? <==> (if ':' in s then RawIo6.Ip6Input(s).None? else RawIo.Ip4Input(s).None?)
    ensures r.Failure? ==> r.error == InvalidValue
  {
    if ':' in s then
      match RawIo6.Ip6Input(s)
      case Some(a) => Success(V6(a))
      case None => Failure(InvalidValue)
    else
      match RawIo.Ip4Input(s)
      case Some(a) => Success(V4(a))
      case None => Failure(InvalidValue)
  }

  /** `ipaddr_out` (and `ipaddr_cast_to_text`): the family's formatter. */
  function AddrOut(ip: IP): string {
    match ip
    case V4(a) => RawIo.Ip4Output(a)
    case V6(a) => RawIo6.Ip6Output(a)
  }

  /** `ipaddr_cast_from_text`: a text shorter than `IP6_STRING_MAX` is
      copied into the buffer and read like `ipaddr_in`; a longer one is
      refused. */
  function CastFromText(s: string): (r: Result<IP, Error>)
    ensures |s| >= RawIo6.Ip6StringMax ==> r == Failure(InvalidValue)
    ensures |s| < RawIo6.Ip6StringMax ==> r == AddrIn(CStr(s))
  {
    if |s| < RawIo6.Ip6StringMax then AddrIn(CStr(s)) else Failure(InvalidValue)
  }

  /** Every IPv6 text `ip6_raw_output` writes holds a `:`. */
  lemma Ip6OutputColon(a: IP6)
    ensures ':' in RawIo6.Ip6Output(a)
  {
    var t := RawIo6.Groups6(a);
    var best, n := RawIo6.BestRun(t).0, RawIo6.BestRun(t).1;
    RawIo6Proofs.Ip6OutputText(a);
    var s := RawIo6.Ip6Output(a);
    if RawIo6.Ip4Tailed(t, best, n) {
      assert s[0] == ':';
    } else if best < 0 {
      var h := RawIo6.HexNum(t[0]);
      assert s == h + ":" + RawIo6.Joined(t[1..]);
      assert s[|h|] == ':';
    } else {
      var p := RawIo6.Joined(t[..best]);
      assert s == p + "::" + RawIo6.Joined(t[best + n..]);
      assert s[|p|] == ':';
    }
  }

  /** No IPv4 text `ip4_raw_output` writes holds a `:`. */
  lemma Ip4OutputNoColon(a: u32)
    ensures ':' !in RawIo.Ip4Output(a)
    ensures forall i :: 0 <= i < |RawIo.Ip4Output(a)| ==> RawIo.Ip4Output(a)[i] != '\0'
  {
    RawIo.Ip4OutputChars(a);
  }

  /** The text of an address is read back as that address, through
      `ipaddr_in` and through the text cast, and fits `IP6_STRING_MAX`. */
  lemma AddrRoundTrip(ip: IP)
    ensures AddrIn(AddrOut(ip)) == Success(ip)
    ensures |AddrOut(ip)| + 1 <= RawIo6.Ip6StringMax
    ensures CastFromText(AddrOut(ip)) == Success(ip)
  {
    match ip
    case V4(a) =>
      Ip4OutputNoColon(a);
      RawIo.Ip4InputIff(RawIo.Ip4Output(a), a);
      RawIo.Ip4OutputFits(a);
      CStrNoNul(RawIo.Ip4Output(a));
    case V6(a) =>
      Ip6OutputColon(a);
      RawIo6Proofs.Ip6RoundTrip(a);
      RawIo6Proofs.Ip6OutputFits(a);
      Ip6OutputNoNul(a);
      CStrNoNul(RawIo6.Ip6Output(a));
  }

  /** An IPv6 text holds no NUL: it reads back, and the reader stops at
      nothing but its own characters. */
  lemma Ip6OutputNoNul(a: IP6)
    ensures forall i :: 0 <= i < |RawIo6.Ip6Output(a)| ==> RawIo6.Ip6Output(a)[i] != '\0'
  {
    RawIo6Proofs.Ip6OutputChars(a);
  }

  // ---------------------------------------------------------------------
  // Family

  /** `ipaddr_family`: 6 for an IPv6 address, 4 otherwise. */
  function Family(ip: IP): (r: int)
    ensures r == 6 <==> FamilyOf(ip) == AfInet6
    ensures r == 4 <==> FamilyOf(ip) == AfInet
  {
    if ip.V6? then 6 else 4
  }

  /** `ipaddr_cast_to_ip4`: only an IPv4 value converts. */
  function CastToIp4(ip: IP): (r: Result<u32, Error>)
    ensures r.Success? <==> FamilyOf(ip) == AfInet
    ensures r.Success? ==> V4(r.value) == ip
    ensures r.Failure? ==> r.error == InvalidValue
  {
    if ip.V4? then Success(ip.ip4) else Failure(InvalidValue)
  }

  /** `ipaddr_cast_to_ip6`: only an IPv6 value converts. */
  function CastToIp6(ip: IP): (r: Result<IP6, Error>)
    ensures r.Success? <==> FamilyOf(ip) == AfInet6
    ensures r.Success? ==> V6(r.value) == ip
    ensures r.Failure? ==> r.error == InvalidValue
  {
    if ip.V6? then Success(ip.ip6) else Failure(InvalidValue)
  }

  // ---------------------------------------------------------------------
  // Transforms

  /** `ipaddr_transform_1`: the family's operation, packed back with the
      same family. */
  function Transform1(ip: IP, f4: u32 -> u32, f6: IP6 -> IP6): (r: IP)
    ensures FamilyOf(r) == FamilyOf(ip)
    ensures ip.V4? ==> r.ip4 == f4(ip.ip4)
    ensures ip.V6? ==> r.ip6 == f6(ip.ip6)
  {
    match ip
    case V4(a) => V4(f4(a))
    case V6(a) => V6(f6(a))
  }

  /** `ip6_not`: both limbs complemented. */
  function Not6(a: IP6): (r: IP6)
    ensures r.Val() == TWO128 - 1 - a.Val()
  {
    IP6(Not64(a.hi), Not64(a.lo))
  }

  /** `ipaddr_not`: every bit of the address flipped. */
  function AddrNot(ip: IP): (r: IP)
    ensures FamilyOf(r) == FamilyOf(ip)
    ensures IpValue(r) == Pow2(AfMaxbits(FamilyOf(ip))) - 1 - IpValue(ip)
  {
    Pow2Of32();
    Pow2Values();
    Transform1(ip, Ip4rFuncs.Not32, Not6)
  }

  /** Complementing twice gives the address back. */
  lemma AddrNotTwice(ip: IP)
    ensures AddrNot(AddrNot(ip)) == ip
  {
    var r := AddrNot(AddrNot(ip));
    assert IpValue(r) == IpValue(ip);
    match ip
    case V4(a) =>
    case V6(a) =>
      ValOrder(r.ip6, a);
  }

  /** `ipaddr_transform_2d`: the family's operation with an extra
      argument; its error is passed on, and a result has the family of the
      input. */
  function Transform2d(ip: IP, f4: u32 -> Result<u32, Error>, f6: IP6 -> Result<IP6, Error>): (r: Result<IP, Error>)
    ensures r.Success? ==> FamilyOf(r.value) == FamilyOf(ip)
    ensures ip.V4? ==> (r.Success? <==> f4(ip.ip4).Success?)
    ensures ip.V4? && r.Success? ==> r.value.ip4 == f4(ip.ip4).value
    ensures ip.V4? && r.Failure? ==> r.error == f4(ip.ip4).error
    ensures ip.V6? ==> (r.Success? <==> f6(ip.ip6).Success?)
    ensures ip.V6? && r.Success? ==> r.value.ip6 == f6(ip.ip6).value
    ensures ip.V6? && r.Failure? ==> r.error == f6(ip.ip6).error
  {
    match ip
    case V4(a) =>
      (match f4(a) case Success(v) => Success(V4(v)) case Failure(e) => Failure(e))
    case V6(a) =>
      (match f6(a) case Success(v) => Success(V6(v)) case Failure(e) => Failure(e))
  }

  /** The range of addresses of a family: `[0, 2^maxbits)`. */
  predicate InFamily(ip: IP, v: int) {
    0 <= v < Pow2(AfMaxbits(FamilyOf(ip)))
  }

  /** `ipaddr_plus_int`: the exact sum, refused when it leaves the
      family's address space. */
  function PlusInt(ip: IP, addend: i32): (r: Result<IP, Error>)
    ensures r.Success? <==> InFamily(ip, IpValue(ip) + addend)
    ensures r.Success? ==> FamilyOf(r.value) == FamilyOf(ip) && IpValue(r.value) == IpValue(ip) + addend
    ensures r.Failure? ==> r.error == AddressOutOfRange
  {
    Pow2Of32();
    Pow2Values();
    Transform2d(ip, a => Ip4r.PlusInt(a, addend), a => Ip6r.PlusInt(a, addend))
  }

  /** `ipaddr_plus_bigint`. */
  function PlusBigint(ip: IP, addend: i64): (r: Result<IP, Error>)
    ensures r.Success? <==> InFamily(ip, IpValue(ip) + addend)
    ensures r.Success? ==> FamilyOf(r.value) == FamilyOf(ip) && IpValue(r.value) == IpValue(ip) + addend
    ensures r.Failure? ==> r.error == AddressOutOfRange
  {
    Pow2Of32();
    Pow2Values();
    Transform2d(ip, a => Ip4r.PlusBigint(a, addend), a => Ip6r.PlusBigint(a, addend))
  }

  /** `ipaddr_minus_int`. */
  function MinusInt(ip: IP, subtrahend: i32): (r: Result<IP, Error>)
    ensures r.Success? <==> InFamily(ip, IpValue(ip) - subtrahend)
    ensures r.Success? ==> FamilyOf(r.value) == FamilyOf(ip) && IpValue(r.value) == IpValue(ip) - subtrahend
    ensures r.Failure? ==> r.error == AddressOutOfRange
  {
    Pow2Of32();
    Pow2Values();
    Transform2d(ip, a => Ip4r.MinusInt(a, subtrahend), a => Ip6r.MinusInt(a, subtrahend))
  }

  /** `ipaddr_minus_bigint`. */
  function MinusBigint(ip: IP, subtrahend: i64): (r: Result<IP, Error>)
    ensures r.Success? <==> InFamily(ip, IpValue(ip) - subtrahend)
    ensures r.Success? ==> FamilyOf(r.value) == FamilyOf(ip) && IpValue(r.value) == IpValue(ip) - subtrahend
    ensures r.Failure? ==> r.error == AddressOutOfRange
  {
    Pow2Of32();
    Pow2Values();
    Transform2d(ip, a => Ip4r.MinusBigint(a, subtrahend), a => Ip6r.MinusBigint(a, subtrahend))
  }

  /** Adding and then subtracting the same amount gives the address back. */
  lemma PlusMinusInverse(ip: IP, k: i32)
    requires PlusInt(ip, k).Success?
    ensures MinusInt(PlusInt(ip, k).value, k) == Success(ip)
  {
    var p := PlusInt(ip, k).value;
    var r := MinusInt(p, k);
    assert r.Success?;
    match ip
    case V4(a) =>
    case V6(a) =>
      ValOrder(r.value.ip6, a);
  }

  /** `ipaddr_net_lower`: the first address of the `/pfxlen` network, for
      a prefix length within the family's width. */
  function NetLower(ip: IP, pfxlen: i32): (r: Result<IP, Error>)
    ensures r.Success? <==> 0 <= pfxlen <= AfMaxbits(FamilyOf(ip))
    ensures r.Success? ==> FamilyOf(r.value) == FamilyOf(ip)
    ensures r.Success? ==> IpValue(r.value) == IpValue(ip) - Low(IpValue(ip), AfMaxbits(FamilyOf(ip)) - pfxlen)
    ensures r.Failure? ==> r.error == PrefixOutOfRange
  {
    Transform2d(ip, a => Ip4r.NetLower(a, pfxlen), a => Ip6r.NetLower(a, pfxlen))
  }

  /** `ipaddr_net_upper`: the last address of the `/pfxlen` network. */
  function NetUpper(ip: IP, pfxlen: i32): (r: Result<IP, Error>)
    ensures r.Success? <==> 0 <= pfxlen <= AfMaxbits(FamilyOf(ip))
    ensures r.Success? ==> FamilyOf(r.value) == FamilyOf(ip)
    ensures r.Success? ==> var k := AfMaxbits(FamilyOf(ip)) - pfxlen;
                           IpValue(r.value) == IpValue(ip) - Low(IpValue(ip), k) + LowMask(k)
    ensures r.Failure? ==> r.error == PrefixOutOfRange
  {
    Transform2d(ip, a => Ip4r.NetUpper(a, pfxlen), a => Ip6r.NetUpper(a, pfxlen))
  }

  /** `ipaddr_transform_2`: both operands must be of one family; the
      result has that family. */
  function Transform2(a: IP, b: IP, f4: (u32, u32) -> u32, f6: (IP6, IP6) -> IP6): (r: Result<IP, Error>)
    ensures r.Success? <==> FamilyOf(a) == FamilyOf(b)
    ensures r.Success? ==> FamilyOf(r.value) == FamilyOf(a)
    ensures r.Success? && a.V4? ==> r.value.ip4 == f4(a.ip4, b.ip4)
    ensures r.Success? && a.V6? ==> r.value.ip6 == f6(a.ip6, b.ip6)
    ensures r.Failure? ==> r.error == FamilyMismatch
  {
    match (a, b)
    case (V4(x), V4(y)) => Success(V4(f4(x, y)))
    case (V6(x), V6(y)) => Success(V6(f6(x, y)))
    case _ => Failure(FamilyMismatch)
  }

  /** `ip4_and`, `ip4_or`, `ip4_xor`. */
  function Op4(op: BitOp, x: u32, y: u32): (r: u32)
    ensures r == Apply(op, x, y)
  {
    Ip4rFuncs.Bound32(op, x, y);
    Apply(op, x, y)
  }

  /** `ipaddr_and`, `ipaddr_or` and `ipaddr_xor`: the bitwise operation on
      two addresses of one family. */
  function Bitwise(op: BitOp, a: IP, b: IP): (r: Result<IP, Error>)
    ensures r.Success? <==> FamilyOf(a) == FamilyOf(b)
    ensures r.Success? ==> FamilyOf(r.value) == FamilyOf(a)
    ensures r.Success? ==> IpValue(r.value) == Apply(op, IpValue(a), IpValue(b))
    ensures r.Failure? ==> r.error == FamilyMismatch
  {
    Transform2(a, b, (x, y) => Op4(op, x, y), (x, y) => Op6(op, x, y))
  }

  /** `ipaddr_minus_ipaddr`: the exact difference of two addresses of one
      family (a `numeric`, unbounded here). */
  function MinusAddr(a: IP, b: IP): (r: Result<int, Error>)
    ensures r.Success? <==> FamilyOf(a) == FamilyOf(b)
    ensures r.Success? ==> r.value == IpValue(a) - IpValue(b)
    ensures r.Failure? ==> r.error == FamilyMismatch
  {
    if FamilyOf(a) != FamilyOf(b) then Failure(FamilyMismatch)
    else Success(IpValue(a) - IpValue(b))
  }

  /** Subtracting the difference of two addresses of one family from the
      first gives the second back. */
  lemma MinusAddrInverse(a: IP, b: IP, k: i64)
    requires MinusAddr(a, b) == Success(k as int)
    ensures MinusBigint(a, k) == Success(b)
  {
    var r := MinusBigint(a, k);
    assert r.Success?;
    match a
    case V4(x) =>
    case V6(x) =>
      ValOrder(r.value.ip6, b.ip6);
  }

  // ---------------------------------------------------------------------
  // Ordering

  /** `ip4_cmp`. */
  function Ip4Cmp(a: u32, b: u32): (r: int)
    ensures r < 0 <==> a < b
    ensures r == 0 <==> a == b
    ensures -1 <= r <= 1
  {
    if a < b then -1 else if a == b then 0 else 1
  }

  /** The position of an address in the `ipaddress` order: the IPv4
      addresses first, then the IPv6 addresses, each by value. */
  function Rank(ip: IP): nat {
    match ip
    case V4(a) => a
    case V6(a) => TWO32 + a.Val()
  }

  /** Different addresses have different positions. */
  lemma RankInjective(a: IP, b: IP)
    ensures Rank(a) == Rank(b) <==> a == b
  {
    if a.V6? && b.V6? {
      ValOrder(a.ip6, b.ip6);
    }
  }

  /** `ipaddr_cmp`: across families the one with the larger tag is larger;
      within a family `ip4_cmp` or `ip6_cmp` decides.  The result is the
      sign of the difference of positions. */
  function Cmp(a: IP, b: IP): (r: int)
    ensures r < 0 <==> Rank(a) < Rank(b)
    ensures r == 0 <==> a == b
    ensures r > 0 <==> Rank(b) < Rank(a)
  {
    RankInjective(a, b);
    if FamilyOf(a) != FamilyOf(b) then (if FamilyOf(a) > FamilyOf(b) then 1 else -1)
    else
      match (a, b)
      case (V4(x), V4(y)) => Ip4Cmp(x, y)
      case (V6(x), V6(y)) => Compare(x, y)
  }

  /** Every IPv4 address sorts before every IPv6 address. */
  lemma Ip4BeforeIp6(a: u32, b: IP6)
    ensures Cmp(V4(a), V6(b)) < 0 && Cmp(V6(b), V4(a)) > 0
  {
  }

  /** `ipaddr_comparison_bool`: across families the flag for the operand
      with the larger tag; within a family the family's comparison. */
  function ComparisonBool(a: IP, b: IP, mismatch1: bool, mismatch2: bool,
                          f4: (u32, u32) -> bool, f6: (IP6, IP6) -> bool): (r: bool)
    ensures FamilyOf(a) > FamilyOf(b) ==> r == mismatch1
    ensures FamilyOf(a) < FamilyOf(b) ==> r == mismatch2
    ensures a.V4? && b.V4? ==> r == f4(a.ip4, b.ip4)
    ensures a.V6? && b.V6? ==> r == f6(a.ip6, b.ip6)
  {
    if FamilyOf(a) != FamilyOf(b) then (if FamilyOf(a) > FamilyOf(b) then mismatch1 else mismatch2)
    else
      match (a, b)
      case (V4(x), V4(y)) => f4(x, y)
      case (V6(x), V6(y)) => f6(x, y)
  }

  /** `ipaddr_lt`: flags `false, true`; agrees with `ipaddr_cmp`. */
  function Lt(a: IP, b: IP): (r: bool)
    ensures r <==> Cmp(a, b) < 0
  {
    ComparisonBool(a, b, false, true, (x: u32, y: u32) => x < y, LessThan)
  }

  /** `ipaddr_le`: flags `false, true`. */
  function Le(a: IP, b: IP): (r: bool)
    ensures r <==> Cmp(a, b) <= 0
  {
    ComparisonBool(a, b, false, true, (x: u32, y: u32) => x <= y, LessEq)
  }

  /** `ipaddr_gt`: flags `true, false`. */
  function Gt(a: IP, b: IP): (r: bool)
    ensures r <==> Cmp(a, b) > 0
  {
    ComparisonBool(a, b, true, false, (x: u32, y: u32) => x > y, (x: IP6, y: IP6) => LessThan(y, x))
  }

  /** `ipaddr_ge`: flags `true, false`. */
  function Ge(a: IP, b: IP): (r: bool)
    ensures r <==> Cmp(a, b) >= 0
  {
    ComparisonBool(a, b, true, false, (x: u32, y: u32) => x >= y, (x: IP6, y: IP6) => LessEq(y, x))
  }

  /** `ipaddr_eq`: flags `false, false`, so addresses of different
      families are never equal. */
  function Eq(a: IP, b: IP): (r: bool)
    ensures r <==> Cmp(a, b) == 0
    ensures r <==> a == b
  {
    ComparisonBool(a, b, false, false, (x: u32, y: u32) => x == y, (x: IP6, y: IP6) => x == y)
  }

  /** `ipaddr_neq`: flags `true, true`. */
  function Neq(a: IP, b: IP): (r: bool)
    ensures r <==> Cmp(a, b) != 0
    ensures r <==> a != b
  {
    ComparisonBool(a, b, true, true, (x: u32, y: u32) => x != y, (x: IP6, y: IP6) => x != y)
  }

  /** `ipaddr_cmp` is a total order: antisymmetric and transitive. */
  lemma CmpOrder(a: IP, b: IP, c: IP)
    ensures Cmp(a, b) < 0 <==> Cmp(b, a) > 0
    ensures Cmp(a, b) <= 0 && Cmp(b, c) <= 0 ==> Cmp(a, c) <= 0
  {
  }
}
