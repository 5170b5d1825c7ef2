/** The family-tagged address of `ipr.h`: the PostgreSQL family tags, the
    per-family width and payload size, the varlena payload of `ip_pack` and
    its length-driven decoding in `ip_unpack`, and the text buffer sizes. */
module Ipr {
  import opened Bits
  import opened Wrappers
  import opened Ip6rFuncs
  import RawIo
  import RawIo6

  /** PostgreSQL's `PGSQL_AF_INET` and `PGSQL_AF_INET6`; tag 0 is the
      universal range of `iprange`. */
  const AfInet: int := 2
  const AfInet6: int := 3
  const AfUniversal: int := 0

  /** The `IP` union: an IPv4 word or an IPv6 pair of limbs. */
  datatype IP = V4(ip4: u32) | V6(ip6: IP6)

  /** The tag that belongs with a value of the union. */
  function FamilyOf(ip: IP): (af: int)
    ensures af == AfInet || af == AfInet6
    ensures af == AfInet <==> ip.V4?
  {
    if ip.V4? then AfInet else AfInet6
  }

  /** The unsigned value an address stands for. */
  function IpValue(ip: IP): (v: nat)
    ensures v < Pow2(AfMaxbits(FamilyOf(ip)))
  {
    Pow2Of32();
    Pow2Values();
    match ip
    case V4(a) => a
    case V6(a) => a.Val()
  }

  /** `ipr_af_maxbits`: 32 for IPv4 and 128 for every other tag. */
  function AfMaxbits(af: int): (r: nat)
    ensures r == 32 || r == 128
    ensures r == 32 <==> af == AfInet
  {
    if af == AfInet then 32 else 128
  }

  /** `ip_sizeof`: the payload bytes, which carry exactly the family's bits. */
  function IpSizeof(af: int): (r: nat)
    ensures r * 8 == AfMaxbits(af)
    ensures r == 4 || r == 16
  {
    if af == AfInet then 4 else 16
  }

  /** A varlena payload: its data length in bytes and the number stored in
      those bytes.  The byte order of the stored copy is the host's and is
      not modelled; `value` is what a matching `memcpy` reads back. */
  datatype Payload = Payload(len: nat, value: nat)

  /** `ip_pack`: writes `ip_sizeof(af)` bytes of the union.  Callers pass
      the tag that belongs with the value. */
  function IpPack(af: int, ip: IP): (p: Payload)
    requires af == FamilyOf(ip)
    ensures p.len == IpSizeof(af)
    ensures p.len * 8 == AfMaxbits(af)
    ensures p.value == IpValue(ip)
  {
    Payload(IpSizeof(af), IpValue(ip))
  }

  /** `ip_unpack`: the family is chosen by the payload length alone; any
      length other than 4 or 16 is an internal error. */
  function IpUnpack(p: Payload): (r: Result<(int, IP), Error>)
    ensures r.Success? <==> p.len == 4 || p.len == 16
    ensures r.Success? ==> r.value.0 == FamilyOf(r.value.1)
    ensures r.Success? ==> (r.value.0 == AfInet <==> p.len == 4)
    ensures r.Failure? ==> r.error == InternalError
  {
    if p.len == 4 then Success((AfInet, V4(p.value % TWO32)))
    else if p.len == 16 then Success((AfInet6, V6(FromVal(p.value % TWO128))))
    else Failure(InternalError)
  }

  /** Unpacking what `ip_pack` wrote gives back the tag and the value. */
  lemma IpPackRoundTrip(af: int, ip: IP)
    requires af == FamilyOf(ip)
    ensures IpUnpack(IpPack(af, ip)) == Success((af, ip))
  {
    Pow2Of32();
    Pow2Values();
    var p := IpPack(af, ip);
    match ip
    case V4(a) =>
      ModBelow(a, TWO32);
    case V6(a) =>
      ModBelow(a.Val(), TWO128);
      ValOrder(a, FromVal(a.Val()));
      ValOrder(FromVal(a.Val()), a);
  }

  /** A payload of the right length and width decodes to an address that
      packs back to the same payload. */
  lemma IpUnpackRoundTrip(p: Payload)
    requires p.len == 4 || p.len == 16
    requires p.value < Pow2(8 * p.len)
    ensures IpUnpack(p).Success?
    ensures IpPack(IpUnpack(p).value.0, IpUnpack(p).value.1) == p
  {
    Pow2Of32();
    Pow2Values();
    if p.len == 4 {
      ModBelow(p.value, TWO32);
    } else {
      ModBelow(p.value, TWO128);
    }
  }

  /** `IP4R_STRING_MAX` and `IP6R_STRING_MAX`: two address buffers. */
  const Ip4rStringMax: nat := 2 * RawIo.Ip4StringMax
  const Ip6rStringMax: nat := 2 * RawIo6.Ip6StringMax

  /** `val <= bound` when `less`, else `val >= bound`. */
  predicate Cmp(val: int, bound: int, less: bool) {
    if less then val <= bound else val >= bound
  }
}
