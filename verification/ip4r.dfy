/** The SQL-facing IPv4 operations of `src/ip4r.c`: range text I/O, the
    wrap-checked `+` and `-`, the cast from `bigint`, the prefix and mask
    functions, the `in_range` window support, and the GiST union,
    picksplit and consistency rules. */
module Ip4r {
  import opened Bits
  import opened Wrappers
  import opened Ip4rFuncs
  import opened RawIo
  import opened RangeText
  import opened Picksplit
  import Ipr

  // ---------------------------------------------------------------------
  // Range text I/O

  /** `ip4r_from_str`: a single address, `a-b` in either order, or `a/n`
      with an aligned prefix.  The part before a separator must fit the
      `IP4_STRING_MAX` buffer. */
  function RangeFromStr(s: string): (r: Option<IP4R>)
    ensures r.Some? ==> r.value.Valid()
  {
    var pos := SepPos(s);
    if pos == |s| then
      match Ip4Input(s)
      case None => None
      case Some(ip) => Some(IP4R(ip, ip))
    else if pos >= Ip4StringMax then None
    else
      match Ip4Input(s[..pos])
      case None => None
      case Some(first) =>
        if s[pos] == '-' then
          match Ip4Input(s[pos + 1..])
          case None => None
          case Some(second) =>
            if !(second < first) then Some(IP4R(first, second)) else Some(IP4R(second, first))
        else
          match PrefixLength(s[pos + 1..])
          case None => None
          case Some(len) =>
            FromCidrSpec(first, len);
            FromCidr(first, len)
  }

  /** `ip4r_to_str`: `a` for a single address, `a/n` for a CIDR block and
      `a-b` otherwise. */
  function RangeToStr(r: IP4R): string {
    if r.lower == r.upper then Ip4Output(r.lower)
    else
      match Masklen(r.lower, r.upper)
      case Some(n) => Ip4Output(r.lower) + "/" + Dec(n)
      case None => Ip4Output(r.lower) + "-" + Ip4Output(r.upper)
  }

  /** A formatted address holds no separator. */
  lemma NoSepIn(ip: IP4)
    ensures forall i :: 0 <= i < |Ip4Output(ip)| ==> !IsSep(Ip4Output(ip)[i])
    ensures |Ip4Output(ip)| < Ip4StringMax
  {
    Ip4OutputChars(ip);
    Ip4OutputFits(ip);
  }

  /** Text without a separator is read as one address. */
  lemma FromStrSingle(s: string)
    requires forall i :: 0 <= i < |s| ==> !IsSep(s[i])
    ensures RangeFromStr(s).Some? <==> Ip4Input(s).Some?
    ensures Ip4Input(s).Some? ==>
              RangeFromStr(s) == Some(IP4R(Ip4Input(s).value, Ip4Input(s).value))
  {
    SepPosNone(s);
  }

  /** `a-b` gives the range between the two addresses, whichever is
      written first. */
  lemma FromStrDash(a: IP4, b: IP4)
    ensures RangeFromStr(Ip4Output(a) + "-" + Ip4Output(b))
            == Some(if b < a then IP4R(b, a) else IP4R(a, b))
  {
    var x, y := Ip4Output(a), Ip4Output(b);
    NoSepIn(a);
    SepPosAfter(x, '-', y);
    Pieces(x, '-', y);
    Ip4InputIff(x, a);
    Ip4InputIff(y, b);
  }

  /** `a/n` gives the block `a/n` when `n` is a run of digits, and nothing
      otherwise. */
  lemma FromStrSlash(ip: IP4, ds: string)
    ensures RangeFromStr(Ip4Output(ip) + "/" + ds)
            == if PrefixLength(ds).Some? then FromCidr(ip, PrefixLength(ds).value) else None
  {
    var x := Ip4Output(ip);
    NoSepIn(ip);
    SepPosAfter(x, '/', ds);
    Pieces(x, '/', ds);
    Ip4InputIff(x, ip);
  }

  /** Everything `ip4r_from_str` accepts has one of the three shapes,
      spelled with the canonical address texts. */
  lemma FromStrShapes(s: string)
    requires RangeFromStr(s).Some?
    ensures var r := RangeFromStr(s).value;
            var k := |Ip4Output(r.lower)|;
            || (r.lower == r.upper && s == Ip4Output(r.lower))
            || s == Ip4Output(r.lower) + "-" + Ip4Output(r.upper)
            || s == Ip4Output(r.upper) + "-" + Ip4Output(r.lower)
            || (k < |s| && s == Ip4Output(r.lower) + "/" + s[k + 1..]
                && PrefixLength(s[k + 1..]).Some?
                && IsCidr(r.lower, r.upper, PrefixLength(s[k + 1..]).value))
  {
    var pos := SepPos(s);
    if pos == |s| {
      Ip4InputIff(s, Ip4Input(s).value);
    } else {
      var head, rest := s[..pos], s[pos + 1..];
      assert s == head + [s[pos]] + rest;
      var first := Ip4Input(head).value;
      Ip4InputIff(head, first);
      if s[pos] == '-' {
        Ip4InputIff(rest, Ip4Input(rest).value);
      } else {
        FromCidrSpec(first, PrefixLength(rest).value);
      }
    }
  }

  /** Reading back the text of an ordered range gives the range. */
  lemma RangeRoundTrip(r: IP4R)
    requires r.Valid()
    ensures RangeFromStr(RangeToStr(r)) == Some(r)
  {
    if r.lower == r.upper {
      NoSepIn(r.lower);
      FromStrSingle(Ip4Output(r.lower));
      Ip4InputIff(Ip4Output(r.lower), r.lower);
    } else {
      match Masklen(r.lower, r.upper)
      case Some(n) =>
        FromStrSlash(r.lower, Dec(n));
        PrefixLengthOfDec(n);
        MasklenIsCidr(r.lower, r.upper, n);
        FromCidrSpec(r.lower, n);
      case None =>
        FromStrDash(r.lower, r.upper);
    }
  }

  /** The text fits `IP4R_STRING_MAX` with its terminator. */
  lemma RangeToStrFits(r: IP4R)
    ensures |RangeToStr(r)| + 1 <= Ipr.Ip4rStringMax
  {
    Ip4OutputFits(r.lower);
    Ip4OutputFits(r.upper);
    match Masklen(r.lower, r.upper)
    case Some(n) =>
      MasklenIsCidr(r.lower, r.upper, n);
      assert |Dec(n)| <= 2 by {
        if n >= 10 {
          assert Dec(n) == Dec(n / 10) + [DecChar(n % 10)];
        }
      }
    case None =>
  }

  // ---------------------------------------------------------------------
  // Casts and arithmetic

  /** `ip4_cast_from_bigint`: values in `[-2^31, 2^32)` are taken as their
      32-bit two's-complement pattern. */
  function CastFromBigint(val: i64): (r: Result<IP4, Error>)
    ensures r.Success? <==> -0x8000_0000 <= val < TWO32
    ensures r.Success? ==> r.value == if val >= 0 then val else val + TWO32
    ensures r.Failure? ==> r.error == AddressOutOfRange
  {
    if val < -0x8000_0000 || val > MAX32 then Failure(AddressOutOfRange)
    else Success(val % TWO32)
  }

  /** `ip4_plus_int`: `ip + (IP4) addend` in 32 bits, refused when the sign
      of the addend disagrees with the direction the result moved. */
  function PlusInt(ip: IP4, addend: i32): (r: Result<IP4, Error>)
    ensures r.Success? <==> 0 <= ip + addend < TWO32
    ensures r.Success? ==> r.value == ip + addend
    ensures r.Failure? ==> r.error == AddressOutOfRange
  {
    var result := (ip + addend % TWO32) % TWO32;
    if (addend < 0) != (result < ip) then Failure(AddressOutOfRange) else Success(result)
  }

  /** `ip4_plus_bigint`: the sum in `int64`, refused on a direction
      mismatch or when it is not a 32-bit address. */
  function PlusBigint(ip: IP4, addend: i64): (r: Result<IP4, Error>)
    ensures r.Success? <==> 0 <= ip + addend < TWO32
    ensures r.Success? ==> r.value == ip + addend
    ensures r.Failure? ==> r.error == AddressOutOfRange
  {
    var result := Wrap64(ip + addend);
    if (addend < 0) != (result < ip) || !(0 <= result < TWO32) then Failure(AddressOutOfRange)
    else Success(result)
  }

  /** `ip4_minus_int`: `ip - (IP4) subtrahend` in 32 bits, refused when the
      sign of the subtrahend disagrees with the direction of the result. */
  function MinusInt(ip: IP4, subtrahend: i32): (r: Result<IP4, Error>)
    ensures r.Success? <==> 0 <= ip - subtrahend < TWO32
    ensures r.Success? ==> r.value == ip - subtrahend
    ensures r.Failure? ==> r.error == AddressOutOfRange
  {
    var result := (ip - subtrahend % TWO32) % TWO32;
    if (subtrahend > 0) != (result < ip) then Failure(AddressOutOfRange) else Success(result)
  }

  /** `ip4_minus_bigint`. */
  function MinusBigint(ip: IP4, subtrahend: i64): (r: Result<IP4, Error>)
    ensures r.Success? <==> 0 <= ip - subtrahend < TWO32
    ensures r.Success? ==> r.value == ip - subtrahend
    ensures r.Failure? ==> r.error == AddressOutOfRange
  {
    var result := Wrap64(ip - subtrahend);
    if (subtrahend > 0) != (result < ip) || !(0 <= result < TWO32) then Failure(AddressOutOfRange)
    else Success(result)
  }

  // ---------------------------------------------------------------------
  // Prefixes and masks

  predicate PrefixOk(pfxlen: i32) {
    0 <= pfxlen <= 32
  }

  /** `ip4_netmask`: the word with the top `pfxlen` bits set. */
  function NetmaskOf(pfxlen: i32): (r: Result<IP4, Error>)
    ensures r.Success? <==> 0 <= pfxlen <= 32
    ensures r.Success? ==> r.value == HighMask(32, 32 - pfxlen) && ValidNetmask(r.value)
    ensures r.Failure? ==> r.error == PrefixOutOfRange
  {
    if !PrefixOk(pfxlen) then Failure(PrefixOutOfRange)
    else
      MaskBits(0, pfxlen);
      NetmaskIsValid(pfxlen);
      Success(Netmask(pfxlen))
  }

  /** `ip4_net_lower`: the first address of the `/pfxlen` network. */
  function NetLower(ip: IP4, pfxlen: i32): (r: Result<IP4, Error>)
    ensures r.Success? <==> 0 <= pfxlen <= 32
    ensures r.Success? ==> r.value == ip - Low(ip, 32 - pfxlen)
    ensures r.Failure? ==> r.error == PrefixOutOfRange
  {
    if !PrefixOk(pfxlen) then Failure(PrefixOutOfRange)
    else
      MaskBits(ip, pfxlen);
      Bound32(AndOp, ip, Netmask(pfxlen));
      Success(And(ip, Netmask(pfxlen)))
  }

  /** `ip4_net_upper`: the last address of the `/pfxlen` network. */
  function NetUpper(ip: IP4, pfxlen: i32): (r: Result<IP4, Error>)
    ensures r.Success? <==> 0 <= pfxlen <= 32
    ensures r.Success? ==> r.value == ip - Low(ip, 32 - pfxlen) + LowMask(32 - pfxlen)
    ensures r.Failure? ==> r.error == PrefixOutOfRange
  {
    if !PrefixOk(pfxlen) then Failure(PrefixOutOfRange)
    else
      MaskBits(ip, pfxlen);
      Bound32(OrOp, ip, Hostmask(pfxlen));
      Success(Or(ip, Hostmask(pfxlen)))
  }

  /** The network range `[ip & mask, ip | ~mask]` of `ip4r_net_prefix` and
      `ip4r_net_mask`. */
  function MaskedRange(ip: IP4, mask: IP4): IP4R {
    Bound32(AndOp, ip, mask);
    Bound32(OrOp, ip, Not32(mask));
    IP4R(And(ip, mask), Or(ip, Not32(mask)))
  }

  /** `ip4r_net_prefix`: the `/pfxlen` block holding `ip`. */
  function NetPrefix(ip: IP4, pfxlen: i32): (r: Result<IP4R, Error>)
    ensures r.Success? <==> 0 <= pfxlen <= 32
    ensures r.Success? ==> r.value.Has(ip) && IsCidr(r.value.lower, r.value.upper, pfxlen)
    ensures r.Failure? ==> r.error == PrefixOutOfRange
  {
    if !PrefixOk(pfxlen) then Failure(PrefixOutOfRange)
    else
      NetPrefixIsInet(ip, pfxlen);
      FromInetSpec(ip, pfxlen);
      Success(MaskedRange(ip, Netmask(pfxlen)))
  }

  /** The network of `ip4r_net_prefix` is the block of `ip4r_from_inet`,
      and its bounds are `ip4_net_lower` and `ip4_net_upper`. */
  lemma NetPrefixIsInet(ip: IP4, n: nat)
    requires n <= 32
    ensures FromInet(ip, n) == Some(MaskedRange(ip, Netmask(n)))
    ensures NetLower(ip, n) == Success(MaskedRange(ip, Netmask(n)).lower)
    ensures NetUpper(ip, n) == Success(MaskedRange(ip, Netmask(n)).upper)
  {
    MaskBits(ip, n);
    assert Not32(Netmask(n)) == Hostmask(n);
  }

  /** `ip4r_net_mask`: refused unless `mask` is a netmask. */
  function NetMask(ip: IP4, mask: IP4): (r: Result<IP4R, Error>)
    ensures r.Success? <==> exists n: nat :: n <= 32 && mask == Netmask(n)
    ensures r.Failure? ==> r.error == InvalidNetmask
  {
    ValidNetmaskIff(mask);
    if !ValidNetmask(mask) then Failure(InvalidNetmask)
    else Success(MaskedRange(ip, mask))
  }

  /** With the netmask of length `n`, `ip4r_net_mask` and
      `ip4r_net_prefix` agree. */
  lemma NetMaskIsPrefix(ip: IP4, n: nat)
    requires n <= 32
    ensures NetMask(ip, Netmask(n)) == NetPrefix(ip, n)
  {
    NetmaskIsValid(n);
  }

  // ---------------------------------------------------------------------
  // Window frames

  /** `ip4_in_range_bigint`: `val CMP (base OP offset)`.  An offset of
      `-n` stands for the `/n` network of `base`: its first address when
      subtracting and its last when adding. */
  function InRangeBigint(val: IP4, base: IP4, offset: i64, sub: bool, less: bool): (r: Result<bool, Error>)
    ensures r.Success? <==> -32 <= offset < TWO32
    ensures r.Failure? ==> r.error == InvalidWindowSize
    ensures r.Success? && offset >= 0 ==>
              r.value == Ipr.Cmp(val, if sub then base - offset else base + offset, less)
    ensures r.Success? && offset < 0 ==>
              var net := FromInet(base, -offset).value;
              r.value == Ipr.Cmp(val, if sub then net.lower else net.upper, less)
  {
    if offset >= TWO32 || offset < -32 then Failure(InvalidWindowSize)
    else if offset < 0 then
      var bits := -offset;
      NetPrefixIsInet(base, bits);
      Pow2Of32();
      var b := if sub then And(base, Netmask(bits)) else Or(base, Hostmask(bits));
      Success(if less then val <= b else val >= b)
    else
      var delta := val - base;
      var off := if sub then -offset else offset;
      Success(if less then delta <= off else delta >= off)
  }

  /** `ip4_in_range_ip4`: the same comparison with an address offset. */
  function InRangeIp4(val: IP4, base: IP4, offset: IP4, sub: bool, less: bool): (r: bool)
    ensures r == Ipr.Cmp(val, if sub then base - offset else base + offset, less)
  {
    var delta: int := val - base;
    var offs: int := if sub then -(offset as int) else offset;
    if less then delta <= offs else delta >= offs
  }

  // ---------------------------------------------------------------------
  // GiST: union

  /** `gip4r_union`: the bounding range of the entries, folded from the
      first one. */
  function UnionAll(es: seq<IP4R>): (r: IP4R)
    requires |es| > 0
    ensures forall i :: 0 <= i < |es| ==> Encloses(r, es[i])
    ensures exists i :: 0 <= i < |es| && r.lower == es[i].lower
    ensures exists i :: 0 <= i < |es| && r.upper == es[i].upper
    decreases |es|
  {
    if |es| == 1 then es[0]
    else
      var m := |es| - 1;
      var u := UnionAll(es[..m]);
      assert forall i :: 0 <= i < m ==> es[..m][i] == es[i];
      Union(u, es[m])
  }

  /** A key enclosing every entry encloses their union: the union is the
      smallest bounding range. */
  lemma UnionAllLeast(es: seq<IP4R>, c: IP4R)
    requires |es| > 0
    requires forall i :: 0 <= i < |es| ==> Encloses(c, es[i])
    ensures Encloses(c, UnionAll(es))
  {
    var u := UnionAll(es);
    var i :| 0 <= i < |es| && u.lower == es[i].lower;
    var j :| 0 <= j < |es| && u.upper == es[j].upper;
    assert Encloses(c, es[i]) && Encloses(c, es[j]);
  }

  // ---------------------------------------------------------------------
  // GiST: picksplit

  /** The side test of `gip4r_picksplit`:
      `cur.lower - pageunion.lower` against `pageunion.upper - cur.upper`. */
  function SideOf(cur: IP4R, pu: IP4R): Side
    requires Encloses(pu, cur)
  {
    var d1 := cur.lower - pu.lower;
    var d2 := pu.upper - cur.upper;
    if d1 < d2 then LeftSide else if d1 == d2 then Tie else RightSide
  }

  /** The class of each page entry against the page union `pu`. */
  function Classes(es: seq<IP4R>, pu: IP4R): (r: seq<Side>)
    requires forall k :: 0 <= k < |es| ==> Encloses(pu, es[k])
    ensures |r| == |es|
    ensures forall k :: 0 <= k < |es| ==> r[k] == SideOf(es[k], pu)
  {
    if |es| == 0 then [] else [SideOf(es[0], pu)] + Classes(es[1..], pu)
  }

  /** The `allisequal` test: every entry equals the first. */
  predicate AllEqual(es: seq<IP4R>) {
    forall i :: 0 <= i < |es| ==> es[i] == es[0]
  }

  /** What `gip4r_picksplit` hands back: the offset lists and the union of
      each side. */
  datatype Split4 = Split4(lists: Lists, unionL: IP4R, unionR: IP4R)

  /** The side lists before the unions are taken.  `order` is the order
      `qsort` leaves the entries in, by ascending size, for the re-split. */
  function SplitLists(es: seq<IP4R>, order: seq<nat>): Lists
    requires |es| >= 2
    requires InRange(order, |es|)
  {
    var pu := UnionAll(es);
    if AllEqual(es) && es[1] == pu then Midpoint(|es|)
    else TwoPass(Classes(es, pu), order)
  }

  /** `gip4r_picksplit` on a page of at least two entries. */
  function Picksplit4(es: seq<IP4R>, order: seq<nat>): (r: Split4)
    requires |es| >= 2
    requires IsOrder(order, |es|)
    ensures Partitions(r.lists, |es|)
    ensures |r.lists.left| > 0 && |r.lists.right| > 0
    ensures Bounds(es, r.lists.left, r.unionL) && Bounds(es, r.lists.right, r.unionR)
  {
    var n := |es|;
    assert InRange(order, n) by {
      OrderInRange(order, n);
    }
    var l := SplitLists(es, order);
    assert Partitions(l, n) && |l.left| > 0 && |l.right| > 0 by {
      SplitListsSpec(es, order);
    }
    assert InRange(l.left, n) && InRange(l.right, n) by {
      ListsInRange(l, n);
    }
    var u := SideUnions(es, l, AllEqual(es) && es[1] == UnionAll(es));
    Split4(l, u.0, u.1)
  }

  /** The unions handed back with the lists: the page union for the
      all-equal split, else the union `ADDLIST` accumulates on each side. */
  function SideUnions(es: seq<IP4R>, l: Lists, allEqual: bool): (u: (IP4R, IP4R))
    requires |es| > 0 && |l.left| > 0 && |l.right| > 0
    requires InRange(l.left, |es|) && InRange(l.right, |es|)
    ensures Bounds(es, l.left, u.0) && Bounds(es, l.right, u.1)
  {
    var pu := UnionAll(es);
    var uL := if allEqual then pu else SideUnion(es, l.left);
    var uR := if allEqual then pu else SideUnion(es, l.right);
    PageBound(es, l.left);
    PageBound(es, l.right);
    (uL, uR)
  }

  /** `u` bounds the entries at the offsets `offs`, which are all page
      offsets. */
  predicate Bounds(es: seq<IP4R>, offs: seq<nat>, u: IP4R) {
    forall k :: k in offs ==> 1 <= k <= |es| && Encloses(u, es[k - 1])
  }

  /** The page union bounds every entry. */
  lemma PageBound(es: seq<IP4R>, offs: seq<nat>)
    requires |es| > 0 && InRange(offs, |es|)
    ensures Bounds(es, offs, UnionAll(es))
  {
    forall k | k in offs
      ensures 1 <= k <= |es| && Encloses(UnionAll(es), es[k - 1])
    {
      var i :| 0 <= i < |offs| && offs[i] == k;
    }
  }

  /** The union `ADDLIST` accumulates for one side. */
  function SideUnion(es: seq<IP4R>, offs: seq<nat>): (u: IP4R)
    requires forall i :: 0 <= i < |offs| ==> 1 <= offs[i] <= |es|
    requires |offs| > 0
    ensures Bounds(es, offs, u)
  {
    var p := Pick(es, offs);
    var u := UnionAll(p);
    forall k | k in offs
      ensures 1 <= k <= |es| && Encloses(u, es[k - 1])
    {
      var i :| 0 <= i < |offs| && offs[i] == k;
      assert p[i] == es[k - 1];
    }
    u
  }

  /** The lists split the page and neither is empty. */
  lemma SplitListsSpec(es: seq<IP4R>, order: seq<nat>)
    requires |es| >= 2
    requires IsOrder(order, |es|)
    requires InRange(order, |es|)
    ensures Partitions(SplitLists(es, order), |es|)
    ensures |SplitLists(es, order).left| > 0 && |SplitLists(es, order).right| > 0
  {
    var pu := UnionAll(es);
    if !(AllEqual(es) && es[1] == pu) {
      var cls := Classes(es, pu);
      var top :| 0 <= top < |es| && pu.upper == es[top].upper;
      var bottom :| 0 <= bottom < |es| && pu.lower == es[bottom].lower;
      assert cls[top] != LeftSide;
      assert cls[bottom] != LeftSide ==> cls[bottom] == Tie;
      TwoPassSpec(cls, order, top, bottom);
    } else {
      assert AllEqual(es);
    }
  }

  // ---------------------------------------------------------------------
  // GiST: consistency

  /** `gip4r_leaf_consistent`: the operator of each strategy number applied
      to a leaf key, `>>=`, `<<=`, `>>`, `<<`, `&&` and `=`. */
  function LeafConsistent(key: IP4R, query: IP4R, strategy: int): (r: bool)
    ensures key.Valid() && query.Valid() ==>
              r == match strategy
                   case 1 => forall x: nat :: query.Has(x) ==> key.Has(x)
                   case 2 => forall x: nat :: key.Has(x) ==> query.Has(x)
                   case 3 => key != query && forall x: nat :: query.Has(x) ==> key.Has(x)
                   case 4 => key != query && forall x: nat :: key.Has(x) ==> query.Has(x)
                   case 5 => exists x: nat :: key.Has(x) && query.Has(x)
                   case 6 => key == query
                   case _ => false
  {
    match strategy
    case 1 => ContainsInternal(key, query, true)
    case 2 => ContainsInternal(query, key, true)
    case 3 => ContainsInternal(key, query, false)
    case 4 => ContainsInternal(query, key, false)
    case 5 => Overlaps(key, query)
    case 6 => Equal(key, query)
    case _ => false
  }

  /** `gip4r_internal_consistent`: the test on an inner key, relaxed so
      that it admits every subtree that may hold a match. */
  function InternalConsistent(key: IP4R, query: IP4R, strategy: int): bool {
    match strategy
    case 2 => Overlaps(key, query)
    case 4 => Overlaps(key, query)
    case 5 => Overlaps(key, query)
    case 3 => ContainsInternal(key, query, false)
    case 1 => ContainsInternal(key, query, true)
    case 6 => ContainsInternal(key, query, true)
    case _ => false
  }

  /** An inner key that encloses a matching leaf is never pruned. */
  lemma InternalSound(key: IP4R, leaf: IP4R, query: IP4R, strategy: int)
    requires leaf.Valid() && Encloses(key, leaf)
    requires LeafConsistent(leaf, query, strategy)
    ensures InternalConsistent(key, query, strategy)
  {
  }

  /** In particular the `gip4r_union` of a page admits every query that
      one of its entries matches. */
  lemma UnionSound(es: seq<IP4R>, i: nat, query: IP4R, strategy: int)
    requires i < |es| && es[i].Valid()
    requires LeafConsistent(es[i], query, strategy)
    ensures InternalConsistent(UnionAll(es), query, strategy)
  {
    InternalSound(UnionAll(es), es[i], query, strategy);
  }
}
