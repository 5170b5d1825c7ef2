/** The IPv4 half of the text codec of `src/raw_io.c`: dotted-quad
    parsing and formatting.  A C string is a `string` without its
    terminator: the end of the sequence plays the part of the NUL byte. */
module RawIo {
  import opened Bits
  import opened Wrappers
  import opened Radix

  // ---------------------------------------------------------------------
  // Decimal numerals

  predicate IsDecDigit(c: char) {
    '0' <= c <= '9'
  }

  /** `ch - '0'`. */
  function DecValue(c: char): (d: nat)
    requires IsDecDigit(c)
    ensures d < 10
  {
    c as int - '0' as int
  }

  function DecChar(d: nat): (c: char)
    requires d < 10
    ensures IsDecDigit(c) && DecValue(c) == d
  {
    ('0' as int + d) as char
  }

  /** `%u`: the decimal numeral of `n`, without leading zeros. */
  function Dec(n: nat): (r: string)
    ensures 1 <= |r|
    ensures forall i :: 0 <= i < |r| ==> IsDecDigit(r[i])
    ensures r[0] == '0' <==> n == 0
  {
    if n < 10 then [DecChar(n)] else Dec(n / 10) + [DecChar(n % 10)]
  }

  /** Appending a digit to the numeral of a positive number gives the
      numeral of ten times it plus the digit. */
  lemma DecSnoc(n: nat, d: nat)
    requires 0 < n && d < 10
    ensures Dec(n * 10 + d) == Dec(n) + [DecChar(d)]
  {
    DivMod(n * 10 + d, 10, n, d);
  }

  /** An octet takes at most three digits. */
  lemma DecOctetLength(n: nat)
    requires n < 0x100
    ensures |Dec(n)| <= 3
  {
    if n >= 10 {
      assert |Dec(n)| == |Dec(n / 10)| + 1;
      if n / 10 >= 10 {
        assert |Dec(n / 10)| == |Dec(n / 10 / 10)| + 1;
        assert n / 10 / 10 < 10;
      }
    }
  }

  // ---------------------------------------------------------------------
  // ip4_raw_input

  /** `2^(8k)`: the room of a `uint32` holding `k` packed bytes. */
  function Room(k: nat): (r: nat)
    requires k <= 4
    ensures r == Pow2(8 * k)
  {
    Pow2Of8();
    Pow2Of16();
    Pow2Of32();
    assert Pow2(24) == 0x100_0000 by {
      Pow2Add(16, 8);
    }
    if k == 0 then 1 else if k == 1 then 0x100 else if k == 2 then 0x1_0000
    else if k == 3 then 0x100_0000 else 0x1_0000_0000
  }

  /** The loop of `ip4_raw_input` from position `i` on: `digits` digits of
      the current octet read so far with value `octet`, `octets` dots
      passed, and the completed octets packed into `tmp`.  The C code packs
      with `tmp << 8 | octet`, written here as the sum it equals
      (`ShiftInOctet`). */
  function Ip4Scan(s: string, i: nat, digits: nat, octets: nat, octet: nat, tmp: nat): (r: Option<nat>)
    requires i <= |s| && octets <= 3 && octet < 0x100 && tmp < Room(octets)
    ensures r.Some? ==> r.value < TWO32
    decreases |s| - i
  {
    if i == |s| then
      if digits == 0 || octets != 3 then None else Some(tmp * 0x100 + octet)
    else if IsDecDigit(s[i]) then
      if digits > 0 && octet == 0 then None  // a leading zero
      else
        var o := octet * 10 + DecValue(s[i]);
        if o > 255 then None else Ip4Scan(s, i + 1, digits + 1, octets, o, tmp)
    else if s[i] == '.' then
      if digits == 0 || octets + 1 > 3 then None
      else Ip4Scan(s, i + 1, 0, octets + 1, 0, tmp * 0x100 + octet)
    else
      None
  }

  /** `tmp << 8 | octet` appends a byte: it is `tmp * 256 + octet`, one
      byte wider than `tmp`. */
  lemma ShiftInOctet(tmp: nat, octet: nat, k: nat)
    requires octet < 0x100 && k < 4 && tmp < Room(k)
    ensures Or(tmp * 0x100, octet) == tmp * 0x100 + octet < Room(k + 1)
  {
    Pow2Of8();
    OrDigit(tmp, octet, 8);
  }

  /** `ip4_raw_input`: a dotted quad, or `None` where the C function
      returns false. */
  function Ip4Input(s: string): (r: Option<u32>)
  {
    match Ip4Scan(s, 0, 0, 0, 0, 0)
    case None => None
    case Some(v) => Some(v)
  }

  // ---------------------------------------------------------------------
  // ip4_raw_output

  /** `ip4_raw_output`: `"%u.%u.%u.%u"` of the four bytes, most significant
      first. */
  function Ip4Output(ip: u32): string {
    Dotted(ToDigits(ip, 4, 8))
  }

  // ---------------------------------------------------------------------
  // The dotted quad, both ways

  predicate Octets(os: seq<nat>) {
    forall i :: 0 <= i < |os| ==> os[i] < 0x100
  }

  /** Octets packed most significant first, as `tmp` collects them. */
  function Pack(os: seq<nat>): nat {
    if |os| == 0 then 0 else Pack(os[..|os| - 1]) * 0x100 + os[|os| - 1]
  }

  /** Completed octets, each followed by its dot. */
  function DotPrefix(os: seq<nat>): string {
    if |os| == 0 then "" else DotPrefix(os[..|os| - 1]) + Dec(os[|os| - 1]) + "."
  }

  /** Octets joined by dots. */
  function Dotted(os: seq<nat>): string
    requires |os| > 0
  {
    DotPrefix(os[..|os| - 1]) + Dec(os[|os| - 1])
  }

  lemma {:induction false} PackBigEndian(os: seq<nat>)
    ensures Pack(os) == BigEndian(os, 8)
  {
    if |os| > 0 {
      PackBigEndian(os[..|os| - 1]);
      Pow2Of8();
    }
  }

  lemma {:induction false} PackBound(os: seq<nat>)
    requires Octets(os) && |os| <= 4
    ensures Pack(os) < Room(|os|)
  {
    if |os| > 0 {
      var init := os[..|os| - 1];
      PackBound(init);
      ShiftInOctet(Pack(init), os[|os| - 1], |init|);
    }
  }

  /** Four octets, packed and then formatted, come back dotted. */
  lemma Ip4OutputOf(ds: seq<nat>)
    requires |ds| == 4 && Octets(ds)
    ensures Pack(ds) < TWO32 && Ip4Output(Pack(ds)) == Dotted(ds)
  {
    PackBigEndian(ds);
    PackBound(ds);
    Pow2Of8();
    assert DigitsFit(ds, 8);
    BigEndianDigits(ds, 8);
  }

  /** The four bytes of an address, which pack back into it. */
  lemma Ip4DigitsOf(ip: u32)
    ensures Octets(ToDigits(ip, 4, 8)) && Pack(ToDigits(ip, 4, 8)) == ip
  {
    var ds := ToDigits(ip, 4, 8);
    Pow2Of8();
    Pow2Of32();
    assert 8 * 4 == 32;
    ToDigitsValue(ip, 4, 8);
    PackBigEndian(ds);
  }

  lemma {:induction false} DotPrefixCons(b: nat, r: seq<nat>)
    ensures DotPrefix([b] + r) == Dec(b) + "." + DotPrefix(r)
    decreases |r|
  {
    if |r| > 0 {
      var r' := r[..|r| - 1];
      assert ([b] + r)[..|r|] == [b] + r';
      DotPrefixCons(b, r');
    } else {
      assert ([b] + r)[..0] == [];
    }
  }

  lemma DottedCons(b: nat, r: seq<nat>)
    requires |r| > 0
    ensures Dotted([b] + r) == Dec(b) + "." + Dotted(r)
  {
    var s, p := [b] + r, r[..|r| - 1];
    assert s[..|s| - 1] == [b] + p && s[|s| - 1] == r[|r| - 1];
    DotPrefixCons(b, p);
    assert Dotted(s) == (Dec(b) + "." + DotPrefix(p)) + Dec(r[|r| - 1]);
  }

  /** One more completed octet, packed. */
  lemma Ip4SnocPack(os: seq<nat>, octet: nat)
    requires octet < 0x100 && Octets(os)
    ensures Octets(os + [octet]) && Pack(os + [octet]) == Pack(os) * 0x100 + octet
  {
    assert (os + [octet])[..|os|] == os;
  }

  /** One more completed octet, written out. */
  lemma Ip4SnocText(os: seq<nat>, octet: nat)
    ensures DotPrefix(os + [octet]) == DotPrefix(os) + Dec(octet) + "."
    ensures Dotted(os + [octet]) == DotPrefix(os) + Dec(octet)
  {
    assert (os + [octet])[..|os|] == os;
  }

  // One step of the loop, in each direction.

  lemma Ip4ScanDigit(s: string, i: nat, digits: nat, octets: nat, octet: nat, tmp: nat)
    requires i < |s| && octets <= 3 && octet < 0x100 && tmp < Room(octets)
    requires IsDecDigit(s[i]) && (digits == 0 || octet > 0) && octet * 10 + DecValue(s[i]) < 0x100
    ensures Ip4Scan(s, i, digits, octets, octet, tmp)
            == Ip4Scan(s, i + 1, digits + 1, octets, octet * 10 + DecValue(s[i]), tmp)
  {
  }

  lemma Ip4ScanDot(s: string, i: nat, digits: nat, octets: nat, octet: nat, tmp: nat)
    requires i < |s| && octets < 3 && octet < 0x100 && tmp < Room(octets)
    requires s[i] == '.' && digits > 0
    ensures tmp * 0x100 + octet < Room(octets + 1)
    ensures Ip4Scan(s, i, digits, octets, octet, tmp)
            == Ip4Scan(s, i + 1, 0, octets + 1, 0, tmp * 0x100 + octet)
  {
  }

  lemma Ip4ScanEnd(s: string, digits: nat, octet: nat, tmp: nat)
    requires octet < 0x100 && tmp < Room(3) && digits > 0
    ensures Ip4Scan(s, |s|, digits, 3, octet, tmp) == Some(tmp * 0x100 + octet)
  {
  }

  /** What the loop needs at position `i` to go on or to accept. */
  lemma Ip4ScanAccepts(s: string, i: nat, digits: nat, octets: nat, octet: nat, tmp: nat)
    requires i <= |s| && octets <= 3 && octet < 0x100 && tmp < Room(octets)
    requires Ip4Scan(s, i, digits, octets, octet, tmp).Some?
    ensures i == |s| ==> digits > 0 && octets == 3
    ensures i < |s| ==> s[i] == '.' || IsDecDigit(s[i])
    ensures i < |s| && s[i] == '.' ==> digits > 0 && octets < 3
    ensures i < |s| && IsDecDigit(s[i]) ==>
              (digits == 0 || octet > 0) && octet * 10 + DecValue(s[i]) < 0x100
  {
  }

  lemma DecCharValue(c: char)
    requires IsDecDigit(c)
    ensures DecChar(DecValue(c)) == c
  {
  }

  /** Whatever the loop accepts is four octets, dotted: the text read so
      far is the completed octets, dotted, then the numeral of the octet in
      progress. */
  lemma {:induction false} Ip4ScanSound(s: string, i: nat, digits: nat, octet: nat, os: seq<nat>, v: nat)
      returns (ds: seq<nat>)
    requires i <= |s| && |os| <= 3 && octet < 0x100 && Octets(os) && Pack(os) < Room(|os|)
    requires digits == 0 ==> octet == 0
    requires s[..i] == DotPrefix(os) + (if digits == 0 then "" else Dec(octet))
    requires Ip4Scan(s, i, digits, |os|, octet, Pack(os)) == Some(v)
    ensures |ds| == 4 && Octets(ds) && v == Pack(ds) && s == Dotted(ds)
    decreases |s| - i, 1
  {
    Ip4ScanAccepts(s, i, digits, |os|, octet, Pack(os));
    if i == |s| {
      Ip4ScanEnd(s, digits, octet, Pack(os));
      ds := os + [octet];
      Ip4SnocPack(os, octet);
      Ip4SnocText(os, octet);
      assert s == s[..i];
    } else if IsDecDigit(s[i]) {
      ds := Ip4SoundDigitStep(s, i, digits, octet, os, v);
    } else {
      ds := Ip4SoundDotStep(s, i, digits, octet, os, v);
    }
  }

  lemma {:induction false} Ip4SoundDigitStep(s: string, i: nat, digits: nat, octet: nat, os: seq<nat>, v: nat)
      returns (ds: seq<nat>)
    requires i < |s| && |os| <= 3 && octet < 0x100 && Octets(os) && Pack(os) < Room(|os|)
    requires digits == 0 ==> octet == 0
    requires s[..i] == DotPrefix(os) + (if digits == 0 then "" else Dec(octet))
    requires Ip4Scan(s, i, digits, |os|, octet, Pack(os)) == Some(v)
    requires IsDecDigit(s[i]) && (digits == 0 || octet > 0) && octet * 10 + DecValue(s[i]) < 0x100
    ensures |ds| == 4 && Octets(ds) && v == Pack(ds) && s == Dotted(ds)
    decreases |s| - i, 0
  {
    var o := octet * 10 + DecValue(s[i]);
    Ip4ScanDigit(s, i, digits, |os|, octet, Pack(os));
    Ip4SoundDigit(s, i, digits, octet, os);
    ds := Ip4ScanSound(s, i + 1, digits + 1, o, os, v);
  }

  lemma {:induction false} Ip4SoundDotStep(s: string, i: nat, digits: nat, octet: nat, os: seq<nat>, v: nat)
      returns (ds: seq<nat>)
    requires i < |s| && |os| < 3 && octet < 0x100 && Octets(os) && Pack(os) < Room(|os|)
    requires s[i] == '.' && digits > 0
    requires s[..i] == DotPrefix(os) + Dec(octet)
    requires Ip4Scan(s, i, digits, |os|, octet, Pack(os)) == Some(v)
    ensures |ds| == 4 && Octets(ds) && v == Pack(ds) && s == Dotted(ds)
    decreases |s| - i, 0
  {
    var os' := os + [octet];
    Ip4ScanDot(s, i, digits, |os|, octet, Pack(os));
    Ip4SnocPack(os, octet);
    Ip4SnocText(os, octet);
    Ip4SoundDot(s, i, DotPrefix(os) + Dec(octet));
    ds := Ip4ScanSound(s, i + 1, 0, 0, os', v);
  }

  lemma Ip4SoundDigit(s: string, i: nat, digits: nat, octet: nat, os: seq<nat>)
    requires i < |s| && IsDecDigit(s[i]) && (digits == 0 || octet > 0)
    requires digits == 0 ==> octet == 0
    requires s[..i] == DotPrefix(os) + (if digits == 0 then "" else Dec(octet))
    ensures s[..i + 1] == DotPrefix(os) + Dec(octet * 10 + DecValue(s[i]))
  {
    var d := DecValue(s[i]);
    assert s[..i + 1] == s[..i] + [s[i]];
    DecCharValue(s[i]);
    if digits > 0 {
      DecSnoc(octet, d);
    }
  }

  lemma Ip4SoundDot(s: string, i: nat, t: string)
    requires i < |s| && s[i] == '.' && s[..i] == t
    ensures s[..i + 1] == t + "."
  {
    assert s[..i + 1] == s[..i] + [s[i]];
  }

  /** The loop reads the numeral of an octet digit by digit. */
  lemma {:induction false} Ip4ScanDec(s: string, i: nat, octets: nat, tmp: nat, o: nat)
    requires o < 0x100 && octets <= 3 && tmp < Room(octets)
    requires i + |Dec(o)| <= |s| && s[i..i + |Dec(o)|] == Dec(o)
    ensures Ip4Scan(s, i, 0, octets, 0, tmp) == Ip4Scan(s, i + |Dec(o)|, |Dec(o)|, octets, o, tmp)
    decreases o
  {
    if o >= 10 {
      var h := Dec(o / 10);
      var j := i + |h|;
      assert s[i..j] == s[i..i + |Dec(o)|][..|h|];
      Ip4ScanDec(s, i, octets, tmp, o / 10);
      assert s[j] == DecChar(o % 10);
    } else {
      assert s[i] == DecChar(o);
    }
  }

  /** The loop accepts the dotted rest `r` of a quad whose first octets
      `p` are already packed. */
  lemma {:induction false} Ip4ScanComplete(s: string, i: nat, p: seq<nat>, r: seq<nat>)
    requires |p| + |r| == 4 && 0 < |r| && Octets(p) && Octets(r) && Pack(p) < Room(|p|)
    requires i <= |s| && s[i..] == Dotted(r)
    ensures Ip4Scan(s, i, 0, |p|, 0, Pack(p)) == Some(Pack(p + r))
    decreases |r|, 1
  {
    if |r| == 1 {
      var b := r[0];
      Ip4SnocPack(p, b);
      assert p + [b] == p + r by {
        assert r == [b];
      }
      Ip4CompleteLast(s, i, Pack(p), b);
    } else {
      Ip4CompleteMore(s, i, p, r);
    }
  }

  /** The next octet and its dot, then the rest of the quad. */
  lemma {:induction false} Ip4CompleteMore(s: string, i: nat, p: seq<nat>, r: seq<nat>)
    requires |p| + |r| == 4 && 1 < |r| && Octets(p) && Octets(r) && Pack(p) < Room(|p|)
    requires i <= |s| && s[i..] == Dotted(r)
    ensures Ip4Scan(s, i, 0, |p|, 0, Pack(p)) == Some(Pack(p + r))
    decreases |r|, 0
  {
    var b, r' := r[0], r[1..];
    assert r == [b] + r' && (p + [b]) + r' == p + r;
    var i' := Ip4CompleteAdvance(s, i, p, b, r');
    Ip4ScanComplete(s, i', p + [b], r');
  }

  /** Reading one octet and its dot moves it from the text into `tmp`. */
  lemma Ip4CompleteAdvance(s: string, i: nat, p: seq<nat>, b: nat, r: seq<nat>) returns (i': nat)
    requires |p| < 3 && Octets(p) && b < 0x100 && Pack(p) < Room(|p|) && 0 < |r|
    requires i <= |s| && s[i..] == Dotted([b] + r)
    ensures i' <= |s| && s[i'..] == Dotted(r)
    ensures Octets(p + [b]) && Pack(p + [b]) < Room(|p + [b]|)
    ensures Ip4Scan(s, i, 0, |p|, 0, Pack(p)) == Ip4Scan(s, i', 0, |p + [b]|, 0, Pack(p + [b]))
  {
    var tmp := Pack(p);
    Ip4SnocPack(p, b);
    i' := Ip4CompleteStep(s, i, b, r);
    Ip4ScanOctetDot(s, i, i', |p|, tmp, b, tmp * 0x100 + b);
    assert |p + [b]| == |p| + 1;
  }

  /** The last octet, up to the end of the text. */
  lemma Ip4CompleteLast(s: string, i: nat, tmp: nat, b: nat)
    requires b < 0x100 && tmp < Room(3)
    requires i <= |s| && s[i..] == Dotted([b])
    ensures Ip4Scan(s, i, 0, 3, 0, tmp) == Some(tmp * 0x100 + b)
  {
    var n := |Dec(b)|;
    assert [b][..0] == [];
    assert s[i..i + n] == Dec(b) && i + n == |s|;
    Ip4ScanDec(s, i, 3, tmp, b);
    Ip4ScanEnd(s, n, b, tmp);
  }

  /** Where the octet `b` and its dot end, and what follows them. */
  lemma Ip4CompleteStep(s: string, i: nat, b: nat, r: seq<nat>) returns (i': nat)
    requires |r| > 0 && i <= |s| && s[i..] == Dotted([b] + r)
    ensures i' == i + |Dec(b)| + 1 <= |s|
    ensures s[i..i + |Dec(b)|] == Dec(b) && s[i + |Dec(b)|] == '.' && s[i'..] == Dotted(r)
  {
    DottedCons(b, r);
    i' := i + |Dec(b)| + 1;
    assert s[i..][..|Dec(b)|] == Dec(b);
    assert s[i'..] == s[i..][|Dec(b)| + 1..];
  }

  /** An octet's numeral and the dot after it: the loop goes on at `j`
      with one more octet packed into `t`. */
  lemma Ip4ScanOctetDot(s: string, i: nat, j: nat, octets: nat, tmp: nat, b: nat, t: nat)
    requires b < 0x100 && octets < 3 && tmp < Room(octets) && t == tmp * 0x100 + b
    requires j == i + |Dec(b)| + 1 <= |s| && s[i..i + |Dec(b)|] == Dec(b) && s[i + |Dec(b)|] == '.'
    ensures t < Room(octets + 1)
    ensures Ip4Scan(s, i, 0, octets, 0, tmp) == Ip4Scan(s, j, 0, octets + 1, 0, t)
  {
    Ip4ScanDec(s, i, octets, tmp, b);
    Ip4ScanDot(s, i + |Dec(b)|, |Dec(b)|, octets, b, tmp);
  }

  /** `ip4_raw_input` accepts exactly the texts `ip4_raw_output` writes: four
      decimal octets below 256 without leading zeros, joined by three dots,
      and returns the address they spell. */
  lemma Ip4InputIff(s: string, ip: u32)
    ensures Ip4Input(s) == Some(ip) <==> s == Ip4Output(ip)
  {
    if s == Ip4Output(ip) {
      var ds := ToDigits(ip, 4, 8);
      Ip4DigitsOf(ip);
      assert [] + ds == ds;
      Ip4ScanComplete(s, 0, [], ds);
    }
    if Ip4Input(s) == Some(ip) {
      var ds := Ip4ScanSound(s, 0, 0, 0, [], ip);
      Ip4OutputOf(ds);
    }
  }

  /** The characters of a dotted quad. */
  predicate IsIp4Char(c: char) {
    IsDecDigit(c) || c == '.'
  }

  /** The scanner accepts only digits and dots. */
  lemma {:induction false} Ip4ScanChars(s: string, i: nat, digits: nat, octets: nat, octet: nat, tmp: nat)
    requires i <= |s| && octets <= 3 && octet < 0x100 && tmp < Room(octets)
    requires Ip4Scan(s, i, digits, octets, octet, tmp).Some?
    ensures forall j :: i <= j < |s| ==> IsIp4Char(s[j])
    decreases |s| - i
  {
    if i < |s| {
      if IsDecDigit(s[i]) {
        var o := octet * 10 + DecValue(s[i]);
        Ip4ScanChars(s, i + 1, digits + 1, octets, o, tmp);
      } else {
        ShiftInOctet(tmp, octet, octets);
        Ip4ScanChars(s, i + 1, 0, octets + 1, 0, tmp * 0x100 + octet);
      }
    }
  }

  /** Every text `ip4_raw_input` accepts is made of digits and dots. */
  lemma Ip4InputChars(s: string)
    requires Ip4Input(s).Some?
    ensures forall j :: 0 <= j < |s| ==> IsIp4Char(s[j])
  {
    Ip4ScanChars(s, 0, 0, 0, 0, 0);
  }

  /** A formatted address is made of digits and dots. */
  lemma Ip4OutputChars(ip: u32)
    ensures forall j :: 0 <= j < |Ip4Output(ip)| ==> IsIp4Char(Ip4Output(ip)[j])
  {
    Ip4InputIff(Ip4Output(ip), ip);
    Ip4InputChars(Ip4Output(ip));
  }

  /** The formatted address fits `IP4_STRING_MAX`, the size of the buffer
      for `"255.255.255.255"` with its terminator. */
  lemma Ip4OutputFits(ip: u32)
    ensures |Ip4Output(ip)| + 1 <= Ip4StringMax
  {
    var ds := ToDigits(ip, 4, 8);
    Ip4DigitsOf(ip);
    DotPrefixLength(ds[..3]);
    DecOctetLength(ds[3]);
  }

  lemma {:induction false} DotPrefixLength(os: seq<nat>)
    requires Octets(os)
    ensures |DotPrefix(os)| <= 4 * |os|
  {
    if |os| > 0 {
      DotPrefixLength(os[..|os| - 1]);
      DecOctetLength(os[|os| - 1]);
    }
  }

  /** `IP4_STRING_MAX`: `sizeof("255.255.255.255")`. */
  const Ip4StringMax: nat := |"255.255.255.255"| + 1
}
