/** The colon-hex IPv6 half of `src/raw_io.c`: `ip6_raw_input` and
    `ip6_raw_output`, with the dotted-quad tail handled by `RawIo`. */
module RawIo6 {
  import opened Bits
  import opened Wrappers
  import opened Radix
  import opened RawIo
  import Ip6rFuncs

  type IP6 = Ip6rFuncs.IP6

  /** Every group is a 16-bit word. */
  predicate Fits16(ws: seq<nat>) {
    forall k :: 0 <= k < |ws| ==> ws[k] < 0x1_0000
  }

  function Zeros(n: nat): (r: seq<nat>)
    ensures |r| == n && forall k :: 0 <= k < n ==> r[k] == 0
  {
    seq(n, _ => 0)
  }

  // ---------------------------------------------------------------------
  // Hex digits

  predicate IsHexDigit(c: char) {
    '0' <= c <= '9' || 'a' <= c <= 'f' || 'A' <= c <= 'F'
  }

  /** The value the `switch` of `ip6_raw_input` gives a hex digit, in either case. */
  function HexValue(c: char): (v: nat)
    requires IsHexDigit(c)
    ensures v < 16
  {
    if '0' <= c <= '9' then c as int - '0' as int
    else if 'a' <= c <= 'f' then c as int - 'a' as int + 10
    else c as int - 'A' as int + 10
  }

  /** `(word << 4) | v` stored back into the `uint16` word, written as the
      sum it equals (`ShiftInNibbleOr`). */
  function ShiftInNibble(word: nat, v: nat): (r: nat)
    requires v < 16
    ensures r < 0x1_0000
  {
    (word * 16 + v) % 0x1_0000
  }

  lemma ShiftInNibbleOr(word: nat, v: nat)
    requires v < 16
    ensures ShiftInNibble(word, v) == Or(word * 16, v) % 0x1_0000
  {
    assert Pow2(4) == 16;
    OrDigit(word, v, 4);
  }

  // ---------------------------------------------------------------------
  // ip6_raw_input

  /** What the loop of `ip6_raw_input` keeps true: at most eight groups
      stored, a full `tmp` only at the terminator, and the gap index, when
      set, naming a stored group. */
  predicate ScanOk(s: string, i: nat, back: nat, digits: nat, words: seq<nat>, gap: Option<nat>, word: nat) {
    && i <= |s| && back <= i
    && |words| <= 8 && Fits16(words) && word < 0x1_0000
    && (|words| == 8 ==> i == |s| && digits == 0)
    && (gap.Some? ==> gap.value < |words|)
  }

  /** The loop of `ip6_raw_input` from position `i` on: `back` is where the
      current group starts (`backtrack`), `digits` and `word` the hex digits
      of the group read so far and their value, `words` the groups stored
      in `tmp`, and `gap` the index where `::` was seen (C's `-1` is
      `None`). */
  function Ip6Scan(s: string, i: nat, back: nat, digits: nat, words: seq<nat>, gap: Option<nat>, word: nat): (r: Option<IP6>)
    requires ScanOk(s, i, back, digits, words, gap, word)
    decreases |s| - i
  {
    if i == |s| then
      Finish(if digits > 0 then words + [word] else words, gap)
    else if IsHexDigit(s[i]) then
      if digits + 1 > 4 then None
      else Ip6Scan(s, i + 1, back, digits + 1, words, gap, ShiftInNibble(word, HexValue(s[i])))
    else if s[i] == ':' then
      if digits == 0 && gap.Some? then None                // a second `::`
      else if digits > 0 && i + 1 == |s| then None         // a trailing single `:`
      else if |words| + 1 > 7 && i + 1 < |s| then None     // more than eight groups
      else
        var gap' := if digits == 0 then Some(|words|) else gap;
        Ip6Scan(s, i + 1, i + 1, 0, words + [word], gap', 0)
    else if s[i] == '.' then
      if |words| < 1 || |words| > 6 then None
      else
        match Ip4Input(s[back..])
        case None => None
        case Some(v) => Finish(words + [v / 0x1_0000, v % 0x1_0000], gap)
    else
      None
  }

  /** `ip6_raw_input`: a leading `:` must be the start of `::`; the loop
      then starts at the second colon. */
  function Ip6Input(s: string): (r: Option<IP6>)
  {
    if |s| > 0 && s[0] == ':' then
      if |s| == 1 || s[1] != ':' then None else Ip6Scan(s, 1, 0, 0, [], None, 0)
    else
      Ip6Scan(s, 0, 0, 0, [], None, 0)
  }

  /** The terminator: fewer than eight groups need a gap, which is widened
      with zero groups; then the groups are packed into the two limbs. */
  function Finish(ws: seq<nat>, gap: Option<nat>): (r: Option<IP6>)
    requires |ws| <= 8 && Fits16(ws) && (gap.Some? ==> gap.value < |ws|)
  {
    if |ws| < 8 then
      if gap.None? then None else Some(Pack6(Expand(ws, gap.value)))
    else
      Some(Pack6(ws))
  }

  /** The two shifting loops of `ip6_raw_input` on the eight-slot `tmp`:
      the groups after the gap move up by `d = 8 - |ws|` and the slots they
      leave become zero.  The slots past the stored groups are never read
      before they are written, so their initial contents do not matter. */
  function Expand(ws: seq<nat>, g: nat): (r: seq<nat>)
    requires |ws| < 8 && g < |ws| && Fits16(ws)
    ensures r == ws[..g + 1] + Zeros(8 - |ws|) + ws[g + 1..]
    ensures |r| == 8 && Fits16(r)
  {
    var d := 8 - |ws|;
    var t0 := ws + Zeros(d);
    PaddedPrefix(ws, d);
    var t := MoveUp(t0, 7, d, g, ws);
    var r := ZeroFill(t, g + d, d, g, ws);
    GapLayout(r, ws, g, d);
    r
  }

  /** Before the loops, `tmp` holds the groups in its first slots. */
  lemma PaddedPrefix(ws: seq<nat>, d: nat)
    requires |ws| + d == 8
    ensures |ws + Zeros(d)| == 8
    ensures forall k :: 0 <= k < |ws| ==> (ws + Zeros(d))[k] == ws[k]
  {
  }

  /** `for (i = 7; i > gap + d; --i) tmp[i] = tmp[i - d];` */
  function MoveUp(t: seq<nat>, i: nat, d: nat, g: nat, ws: seq<nat>): (r: seq<nat>)
    requires |t| == 8 && |ws| + d == 8 && g < |ws| && g + d <= i <= 7
    requires forall k :: 0 <= k <= i && k < |ws| ==> t[k] == ws[k]
    requires forall k :: i < k < 8 ==> t[k] == ws[k - d]
    ensures |r| == 8
    ensures forall k :: 0 <= k <= g + d && k < |ws| ==> r[k] == ws[k]
    ensures forall k :: g + d < k < 8 ==> r[k] == ws[k - d]
    decreases i
  {
    if i > g + d then MoveUp(t[i := t[i - d]], i - 1, d, g, ws) else t
  }

  /** `for (; i > gap; --i) tmp[i] = 0;` */
  function ZeroFill(t: seq<nat>, i: nat, d: nat, g: nat, ws: seq<nat>): (r: seq<nat>)
    requires |t| == 8 && |ws| + d == 8 && g < |ws| && g <= i <= g + d
    requires forall k :: 0 <= k <= g ==> t[k] == ws[k]
    requires forall k :: i < k <= g + d ==> t[k] == 0
    requires forall k :: g + d < k < 8 ==> t[k] == ws[k - d]
    ensures |r| == 8
    ensures forall k :: 0 <= k <= g ==> r[k] == ws[k]
    ensures forall k :: g < k <= g + d ==> r[k] == 0
    ensures forall k :: g + d < k < 8 ==> r[k] == ws[k - d]
    decreases i
  {
    if i > g then ZeroFill(t[i := 0], i - 1, d, g, ws) else t
  }

  /** Slot by slot, the widened groups are the groups up to the gap, `d`
      zeros, and the rest. */
  lemma GapLayout(r: seq<nat>, ws: seq<nat>, g: nat, d: nat)
    requires |r| == 8 && |ws| + d == 8 && g < |ws|
    requires forall k :: 0 <= k <= g ==> r[k] == ws[k]
    requires forall k :: g < k <= g + d ==> r[k] == 0
    requires forall k :: g + d < k < 8 ==> r[k] == ws[k - d]
    ensures r == ws[..g + 1] + Zeros(d) + ws[g + 1..]
    ensures Fits16(ws) ==> Fits16(r)
  {
    var e := ws[..g + 1] + Zeros(d) + ws[g + 1..];
    assert |e| == 8;
    forall k | 0 <= k < 8
      ensures r[k] == e[k]
    {
      if k <= g {
      } else if k <= g + d {
        assert e[k] == Zeros(d)[k - g - 1];
      } else {
        assert e[k] == ws[g + 1..][k - g - 1 - d];
      }
    }
  }

  /** The two limbs, each packed from four groups with shifts and `|`. */
  function Pack6(t: seq<nat>): (r: IP6)
    requires |t| == 8 && Fits16(t)
    ensures r.Val() == BigEndian(t, 16)
  {
    LimbOfGroups(t[..4]);
    LimbOfGroups(t[4..]);
    assert t == t[..4] + t[4..];
    BigEndianAppend(t[..4], t[4..], 16);
    Pow2Of64();
    assert 16 * 4 == 64;
    Ip6rFuncs.IP6(OrShifted(t[..4], 4, 16), OrShifted(t[4..], 4, 16))
  }

  lemma LimbOfGroups(gs: seq<nat>)
    requires |gs| == 4 && Fits16(gs)
    ensures OrShifted(gs, 4, 16) == BigEndian(gs, 16) < TWO64
  {
    Pow2Of16();
    assert DigitsFit(gs, 16);
    OrShiftedValue(gs, 4, 16);
    assert gs[..4] == gs && 16 * (|gs| - 4) == 0;
    assert OrShifted(gs, 4, 16) == BigEndian(gs, 16) * Pow2(0);
    BigEndianDigits(gs, 16);
    assert 16 * |gs| == 64;
    Pow2Of64();
  }

  // ---------------------------------------------------------------------
  // ip6_raw_output: the groups

  /** `tmp[0..7]`: the eight 16-bit groups of the address, most
      significant first. */
  function Groups6(ip: IP6): (r: seq<nat>)
    ensures |r| == 8 && Fits16(r)
  {
    Pow2Of16();
    ToDigits(ip.hi, 4, 16) + ToDigits(ip.lo, 4, 16)
  }

  /** Packing the groups of an address gives the address back. */
  lemma Groups6Pack(ip: IP6)
    ensures Pack6(Groups6(ip)) == ip
  {
    var a, b := ToDigits(ip.hi, 4, 16), ToDigits(ip.lo, 4, 16);
    assert Pow2(16 * 4) == TWO64 by { Pow2Of64(); }
    ToDigitsValue(ip.hi, 4, 16);
    ToDigitsValue(ip.lo, 4, 16);
    BigEndianAppend(a, b, 16);
    var g := Groups6(ip);
    assert g == a + b;
    assert Pack6(g).Val() == ip.hi * TWO64 + ip.lo;
    Ip6rFuncs.ValOrder(Pack6(g), ip);
  }

  // ---------------------------------------------------------------------
  // ip6_raw_output: the flag word and the run to compress

  /** `flags` after the first `n` rounds of its loop: bit 8 is a sentinel
      and bit `k` is set when group `k` is not zero. */
  function Flags(t: seq<nat>, n: nat): nat
    requires |t| == 8 && n <= 8
  {
    if n == 0 then 0x100
    else Or(Flags(t, n - 1), if t[n - 1] != 0 then Pow2(n - 1) else 0)
  }

  /** The number of zero groups starting at group `i`. */
  function ZeroRun(t: seq<nat>, i: nat): (r: nat)
    requires |t| == 8 && i <= 8
    ensures i + r <= 8
    decreases 8 - i
  {
    if i == 8 || t[i] != 0 then 0 else 1 + ZeroRun(t, i + 1)
  }

  /** The flag bits of groups `i..7` over the sentinel, lowest first. */
  function FlagBits(t: seq<nat>, i: nat): (r: nat)
    requires |t| == 8 && i <= 8
    ensures r >= 1
    decreases 8 - i
  {
    if i == 8 then 1 else 2 * FlagBits(t, i + 1) + (if t[i] != 0 then 1 else 0)
  }

  /** The flag bits of groups `0..n-1`. */
  function LowFlags(t: seq<nat>, n: nat): (r: nat)
    requires |t| == 8 && n <= 8
    ensures r < Pow2(n)
  {
    if n == 0 then 0 else LowFlags(t, n - 1) + (if t[n - 1] != 0 then Pow2(n - 1) else 0)
  }

  /** Or-ing a fresh bit above the lower flags adds it. */
  lemma FlagOr(lower: nat, nz: bool, n: nat)
    requires n < 8 && lower < Pow2(n)
    ensures Or(0x100 + lower, if nz then Pow2(n) else 0) == 0x100 + lower + (if nz then Pow2(n) else 0)
  {
    var p, a := Pow2(n), Pow2(7 - n);
    assert 0x100 == 2 * a * p by {
      Pow2Add(8 - n, n);
      Pow2Of8();
    }
    OrAbove(a, lower, if nz then 1 else 0, p, n);
  }

  /** A bit or-ed into an even multiple of `2^n` plus a low part adds it. */
  lemma OrAbove(a: nat, lower: nat, bit: nat, p: nat, n: nat)
    requires p == Pow2(n) && lower < p && bit < 2
    ensures Apply(OrOp, 2 * a * p + lower, bit * p) == 2 * a * p + lower + bit * p
  {
    ApplyConcat(OrOp, 2 * a, lower, bit, 0, n);
    ApplyZeroRight(OrOp, lower);
    assert Pow2(1) == 2;
    OrDigit(a, bit, 1);
    Distribute(2 * a, bit, p);
  }

  lemma Distribute(a: nat, b: nat, p: nat)
    ensures (a + b) * p == a * p + b * p
  {
  }

  /** The `|=` loop sums the bits of the non-zero groups over the sentinel. */
  lemma {:induction false} FlagsValue(t: seq<nat>, n: nat)
    requires |t| == 8 && n <= 8
    ensures Flags(t, n) == 0x100 + LowFlags(t, n)
  {
    if n > 0 {
      FlagsValue(t, n - 1);
      FlagOr(LowFlags(t, n - 1), t[n - 1] != 0, n - 1);
    }
  }

  lemma SplitStep(x: nat, f: nat, nz: bool, p: nat, q: nat, low: nat, low': nat)
    requires x == 2 * f + (if nz then 1 else 0) && q == 2 * p
    requires low' == low + (if nz then p else 0)
    ensures x * p + low == f * q + low'
  {
  }

  lemma {:induction false} FlagBitsSplit(t: seq<nat>, j: nat, i: nat)
    requires |t| == 8 && j <= i <= 8
    ensures FlagBits(t, j) * Pow2(j) + LowFlags(t, j) == FlagBits(t, i) * Pow2(i) + LowFlags(t, i)
  {
    if j < i {
      FlagBitsSplit(t, j, i - 1);
      SplitStep(FlagBits(t, i - 1), FlagBits(t, i), t[i - 1] != 0, Pow2(i - 1), Pow2(i), LowFlags(t, i - 1), LowFlags(t, i));
    }
  }

  /** `flags >> i`, the value the search loop tests in round `i`. */
  lemma ShiftedFlags(t: seq<nat>, i: nat)
    requires |t| == 8 && i <= 8
    ensures Shr(Flags(t, 8), i) == FlagBits(t, i)
  {
    FlagsValue(t, 8);
    FlagBitsSplit(t, 0, 8);
    Pow2Of8();
    FlagBitsSplit(t, 0, i);
    ShrLowOfValue(Flags(t, 8), FlagBits(t, i), LowFlags(t, i), i);
  }

  lemma {:induction false} FfsRun(t: seq<nat>, i: nat)
    requires |t| == 8 && i <= 8
    ensures Ffs(FlagBits(t, i)) == ZeroRun(t, i) + 1
    decreases 8 - i
  {
    if i < 8 && t[i] == 0 {
      FfsRun(t, i + 1);
      assert FlagBits(t, i) / 2 == FlagBits(t, i + 1);
    }
  }

  /** What one round of the search loop reads off `flags >> i`: whether
      group `i` is zero, the length of the zero run there, and the next
      shifted value. */
  lemma FlagTest(t: seq<nat>, i: nat)
    requires |t| == 8 && i < 8
    ensures And(FlagBits(t, i), 1) == 0 <==> t[i] == 0
    ensures Ffs(FlagBits(t, i)) - 1 == ZeroRun(t, i)
    ensures Shr(FlagBits(t, i), 1) == FlagBits(t, i + 1)
  {
    var f := FlagBits(t, i);
    assert Pow2(1) == 2;
    AndLowMask(f, 1);
    FfsRun(t, i);
  }

  /** The search loop: group `i` starts a better run when it is zero and
      its run is strictly longer than the best so far. */
  function BestScan(f: nat, i: nat, best: int, bestLen: int): (int, int)
    requires i <= 8
    decreases 8 - i
  {
    if i == 8 then (best, bestLen)
    else if And(f, 1) == 0 && Ffs(f) - 1 > bestLen then BestScan(Shr(f, 1), i + 1, i, Ffs(f) - 1)
    else BestScan(Shr(f, 1), i + 1, best, bestLen)
  }

  /** The choice that sections 4.2.2 and 4.2.3 of RFC 5952 prescribe among
      groups `0..n-1`: the longest run of zero groups, the leftmost of
      equally long ones, and none (`-1`, with length 1) when no run has two
      groups. */
  predicate BestAmong(t: seq<nat>, n: nat, best: int, bestLen: int)
    requires |t| == 8 && n <= 8
  {
    && 1 <= bestLen
    && (forall j :: 0 <= j < n ==> ZeroRun(t, j) <= bestLen)
    && (best < 0 ==> best == -1 && bestLen == 1)
    && (best >= 0 ==> best < n && 2 <= bestLen == ZeroRun(t, best)
                      && forall j :: 0 <= j < best ==> ZeroRun(t, j) < bestLen)
  }

  lemma {:induction false} BestScanFinds(t: seq<nat>, i: nat, best: int, bestLen: int)
    requires |t| == 8 && i <= 8 && BestAmong(t, i, best, bestLen)
    ensures BestAmong(t, 8, BestScan(FlagBits(t, i), i, best, bestLen).0, BestScan(FlagBits(t, i), i, best, bestLen).1)
    decreases 8 - i
  {
    if i < 8 {
      var f := FlagBits(t, i);
      FlagTest(t, i);
      BestAmongStep(t, i, best, bestLen);
      if t[i] == 0 && ZeroRun(t, i) > bestLen {
        assert BestScan(f, i, best, bestLen) == BestScan(FlagBits(t, i + 1), i + 1, i, ZeroRun(t, i));
        BestScanFinds(t, i + 1, i, ZeroRun(t, i));
      } else {
        assert BestScan(f, i, best, bestLen) == BestScan(FlagBits(t, i + 1), i + 1, best, bestLen);
        BestScanFinds(t, i + 1, best, bestLen);
      }
    }
  }

  /** One round of the search keeps the best run among the groups seen. */
  lemma BestAmongStep(t: seq<nat>, i: nat, best: int, bestLen: int)
    requires |t| == 8 && i < 8 && BestAmong(t, i, best, bestLen)
    ensures t[i] == 0 && ZeroRun(t, i) > bestLen ==> BestAmong(t, i + 1, i, ZeroRun(t, i))
    ensures !(t[i] == 0 && ZeroRun(t, i) > bestLen) ==> BestAmong(t, i + 1, best, bestLen)
  {
  }

  /** The run `ip6_raw_output` compresses. */
  function BestRun(t: seq<nat>): (int, int)
    requires |t| == 8
  {
    BestScan(Flags(t, 8), 0, -1, 1)
  }

  /** The search loop finds the run RFC 5952 prescribes. */
  lemma BestRunIsBest(t: seq<nat>)
    requires |t| == 8
    ensures BestAmong(t, 8, BestRun(t).0, BestRun(t).1)
  {
    ShiftedFlags(t, 0);
    ShrLowStep(Flags(t, 8), 0);
    BestScanFinds(t, 0, -1, 1);
  }

  /** The prescribed choice is unique. */
  lemma BestAmongUnique(t: seq<nat>, b1: int, l1: int, b2: int, l2: int)
    requires |t| == 8 && BestAmong(t, 8, b1, l1) && BestAmong(t, 8, b2, l2)
    ensures b1 == b2 && l1 == l2
  {
    if b1 >= 0 {
      assert ZeroRun(t, b1) <= l2;
    }
    if b2 >= 0 {
      assert ZeroRun(t, b2) <= l1;
    }
  }

  /** The groups of a run are zero, and the group after it is not. */
  lemma {:induction false} ZeroRunZeros(t: seq<nat>, i: nat)
    requires |t| == 8 && i <= 8
    ensures forall k :: i <= k < i + ZeroRun(t, i) ==> t[k] == 0
    ensures i + ZeroRun(t, i) < 8 ==> t[i + ZeroRun(t, i)] != 0
    decreases 8 - i
  {
    if i < 8 && t[i] == 0 {
      ZeroRunZeros(t, i + 1);
    }
  }

  // ---------------------------------------------------------------------
  // ip6_raw_output: one group in hex

  /** The four nibbles of a group, most significant first: the order in
      which the byte swap and the nibble swap of `ip6_raw_output` let its
      loops read them from the low end. */
  function Nibbles(w: nat): (r: seq<nat>)
    ensures |r| == 4 && forall k :: 0 <= k < 4 ==> r[k] < 16
  {
    [w / 16 / 16 / 16 % 16, w / 16 / 16 % 16, w / 16 % 16, w % 16]
  }

  /** `(d > 9) ? d + 'a' - 10 : d + '0'`. */
  function HexChar(d: nat): (c: char)
    requires d < 16
    ensures IsHexDigit(c) && HexValue(c) == d && !('A' <= c <= 'F')
  {
    if d > 9 then (d - 10 + 'a' as int) as char else (d + '0' as int) as char
  }

  /** The first loop: skip at most three leading zero nibbles. */
  function SkipZeros(ns: seq<nat>, j: nat): (r: nat)
    requires |ns| == 4 && j <= 3
    ensures j <= r <= 3
    decreases 3 - j
  {
    if j < 3 && ns[j] == 0 then SkipZeros(ns, j + 1) else j
  }

  function HexDigits(ns: seq<nat>): (r: string)
    requires forall k :: 0 <= k < |ns| ==> ns[k] < 16
    ensures |r| == |ns|
  {
    seq(|ns|, k requires 0 <= k < |ns| => HexChar(ns[k]))
  }

  /** One group: `0`, or the nibbles from the first non-zero one on. */
  function HexWord(w: nat): string
    requires w < 0x1_0000
  {
    if w == 0 then "0"
    else
      var ns := Nibbles(w);
      HexDigits(ns[SkipZeros(ns, 0)..])
  }

  /** The shortest lower-case hex numeral of `w`, the form sections 4.1
      and 4.3 of RFC 5952 require of a group. */
  function HexNum(w: nat): (r: string)
    ensures 1 <= |r|
  {
    if w < 16 then [HexChar(w)] else HexNum(w / 16) + [HexChar(w % 16)]
  }

  /** The two loops print the shortest lower-case numeral. */
  lemma HexWordIsHexNum(w: nat)
    requires w < 0x1_0000
    ensures HexWord(w) == HexNum(w)
  {
    var w1, w2, w3 := w / 16, w / 16 / 16, w / 16 / 16 / 16;
    if w3 > 0 {
      HexWordOf4(w);
    } else if w2 > 0 {
      HexWordOf3(w);
    } else if w1 > 0 {
      HexWordOf2(w);
    } else if w > 0 {
      assert SkipZeros(Nibbles(w), 0) == 3;
    }
  }

  lemma HexWordOf4(w: nat)
    requires 0x1000 <= w < 0x1_0000
    ensures HexWord(w) == HexNum(w)
  {
    var w1, w2, w3 := w / 16, w / 16 / 16, w / 16 / 16 / 16;
    assert 0 < w3 < 16;
    assert SkipZeros(Nibbles(w), 0) == 0;
    assert HexNum(w2) == [HexChar(w3)] + [HexChar(w2 % 16)];
  }

  lemma HexWordOf3(w: nat)
    requires 0x100 <= w < 0x1000
    ensures HexWord(w) == HexNum(w)
  {
    var w1, w2 := w / 16, w / 16 / 16;
    assert 0 < w2 < 16 && w / 16 / 16 / 16 == 0;
    assert SkipZeros(Nibbles(w), 0) == 1;
    assert HexNum(w1) == [HexChar(w2)] + [HexChar(w1 % 16)];
  }

  lemma HexWordOf2(w: nat)
    requires 0x10 <= w < 0x100
    ensures HexWord(w) == HexNum(w)
  {
    var w1 := w / 16;
    assert 0 < w1 < 16 && w / 16 / 16 == 0;
    assert SkipZeros(Nibbles(w), 0) == 2;
    assert HexNum(w) == [HexChar(w1)] + [HexChar(w % 16)];
  }

  /** A group takes at most four hex digits. */
  lemma {:induction false} HexNumLength(w: nat)
    ensures w < 16 ==> |HexNum(w)| == 1
    ensures w < 0x100 ==> |HexNum(w)| <= 2
    ensures w < 0x1000 ==> |HexNum(w)| <= 3
    ensures w < 0x1_0000 ==> |HexNum(w)| <= 4
  {
    if w >= 16 {
      HexNumLength(w / 16);
    }
  }

  // ---------------------------------------------------------------------
  // ip6_raw_output: the text

  /** The general loop of `ip6_raw_output` from group `i` on: the groups
      `best..bestEnd` are left out and a `:` is written at `bestEnd`, which
      with the separator of the next group makes the `::`. */
  function Emit(t: seq<nat>, i: nat, best: int, bestEnd: int): string
    requires |t| == 8 && Fits16(t) && i <= 8
    decreases 8 - i
  {
    if i == 8 then ""
    else if best <= i <= bestEnd then (if i == bestEnd then ":" else "") + Emit(t, i + 1, best, bestEnd)
    else (if i > 0 then ":" else "") + HexWord(t[i]) + Emit(t, i + 1, best, bestEnd)
  }

  /** `((uint32) hi << 16) | lo`, written as the sum it equals. */
  function Word32(hi: nat, lo: nat): (r: u32)
    requires hi < 0x1_0000 && lo < 0x1_0000
  {
    MulMono(hi, 0xFFFF, 0x1_0000);
    hi * 0x1_0000 + lo
  }

  /** The special forms of `ip6_raw_output`: a leading run of six zero
      groups, of five followed by `ffff`, or of four followed by `ffff:0`,
      ends in a dotted quad. */
  predicate Ip4Tailed(t: seq<nat>, best: int, bestLen: int)
    requires |t| == 8
  {
    best == 0 && (bestLen == 6 || (bestLen == 5 && t[5] == 0xffff) || (bestLen == 4 && t[4] == 0xffff && t[5] == 0))
  }

  /** The special forms `::a.b.c.d`, `::ffff:a.b.c.d` and
      `::ffff:0:a.b.c.d`, told apart by the length of the leading run. */
  function Ip4TailText(bestLen: int, v: u32): string {
    ":" + (if bestLen != 6 then ":ffff" else "") + (if bestLen == 4 then ":0" else "") + ":" + Ip4Output(v)
  }

  /** `ip6_raw_output`. */
  function Ip6Output(ip: IP6): string {
    var t := Groups6(ip);
    var run := BestRun(t);
    var best, bestLen := run.0, run.1;
    if Ip4Tailed(t, best, bestLen) then Ip4TailText(bestLen, Word32(t[6], t[7]))
    else if best == 0 && bestLen == 8 then "::"
    else Emit(t, 0, best, best + bestLen - 1) + (if best + bestLen - 1 == 7 then ":" else "")
  }

  /** Groups in shortest hex, separated by colons. */
  function Joined(gs: seq<nat>): string
    decreases |gs|
  {
    if |gs| == 0 then ""
    else if |gs| == 1 then HexNum(gs[0])
    else HexNum(gs[0]) + ":" + Joined(gs[1..])
  }

  /** The colon-hex text section 4 of RFC 5952 prescribes: every group, or
      the groups before and after the compressed run around `::`. */
  function Canonical(t: seq<nat>, best: int, bestLen: int): string
    requires |t| == 8 && (best == -1 || (0 <= best && 0 <= bestLen && best + bestLen <= 8))
  {
    if best < 0 then Joined(t) else Joined(t[..best]) + "::" + Joined(t[best + bestLen..])
  }

  /** The groups before the dotted quad in the special forms. */
  function TailPrefix(bestLen: int): seq<nat> {
    if bestLen == 6 then [] else if bestLen == 5 then [0xffff] else [0xffff, 0]
  }

  lemma Regroup3(a: string, b: string, c: string)
    ensures (a + b) + c == a + (b + c)
  {
  }

  lemma Regroup4(a: string, b: string, c: string, d: string)
    ensures (a + b) + (c + d) == a + ((b + c) + d)
  {
    Regroup3(a, b, c + d);
    Regroup3(b, c, d);
  }

  lemma Regroup5(p: string, h: string, c: string, j: string, e: string)
    ensures (p + h) + ((c + j) + e) == (p + ((h + c) + j)) + e
  {
    Regroup3(p + h, c + j, e);
    Regroup4(p, h, c, j);
  }

  /** Past the compressed run, each group is written with its separator. */
  lemma {:induction false} EmitAfter(t: seq<nat>, i: nat, best: int, bestEnd: int)
    requires |t| == 8 && Fits16(t) && 0 < i <= 8 && bestEnd < i
    ensures Emit(t, i, best, bestEnd) == if i == 8 then "" else ":" + Joined(t[i..])
    decreases 8 - i
  {
    if i < 8 {
      var h := HexNum(t[i]);
      HexWordIsHexNum(t[i]);
      EmitAfter(t, i + 1, best, bestEnd);
      assert Emit(t, i, best, bestEnd) == (":" + h) + Emit(t, i + 1, best, bestEnd);
      if i + 1 < 8 {
        var j := Joined(t[i + 1..]);
        assert t[i..][1..] == t[i + 1..];
        assert Joined(t[i..]) == (h + ":") + j;
        Regroup4(":", h, ":", j);
      } else {
        assert Joined(t[i..]) == h;
      }
    }
  }

  /** Inside the compressed run only the closing `:` is written. */
  lemma {:induction false} EmitRun(t: seq<nat>, i: nat, best: int, bestEnd: int)
    requires |t| == 8 && Fits16(t) && 0 <= best <= i <= bestEnd < 8
    ensures Emit(t, i, best, bestEnd) == ":" + Emit(t, bestEnd + 1, best, bestEnd)
    decreases bestEnd - i
  {
    var next := Emit(t, i + 1, best, bestEnd);
    if i < bestEnd {
      EmitRun(t, i + 1, best, bestEnd);
      assert Emit(t, i, best, bestEnd) == "" + next;
      assert "" + next == next;
    } else {
      assert Emit(t, i, best, bestEnd) == ":" + next;
    }
  }

  /** Before the compressed run the groups are written joined; `pre` is
      the groups from `i` up to the run. */
  lemma {:induction false} EmitBefore(t: seq<nat>, i: nat, best: int, bestEnd: int, pre: seq<nat>, sep: string)
    requires |t| == 8 && Fits16(t) && i < best <= bestEnd < 8 && pre == t[i..best]
    requires sep == if i > 0 then ":" else ""
    ensures Emit(t, i, best, bestEnd) == (sep + Joined(pre)) + Emit(t, best, best, bestEnd)
    decreases best - i
  {
    var h, e := HexNum(t[i]), Emit(t, best, best, bestEnd);
    HexWordIsHexNum(t[i]);
    EmitStep(t, i, best, bestEnd);
    if i + 1 < best {
      var rest := t[i + 1..best];
      var j := Joined(rest);
      EmitBefore(t, i + 1, best, bestEnd, rest, ":");
      assert pre[1..] == rest;
      assert Joined(pre) == (h + ":") + j;
      Regroup5(sep, h, ":", j, e);
    } else {
      assert Joined(pre) == h;
    }
  }

  /** What follows the run: its closing `:` and the groups after it. */
  lemma RunTail(t: seq<nat>, best: int, bestLen: int)
    requires |t| == 8 && Fits16(t) && 0 <= best && 2 <= bestLen && best + bestLen <= 8
    ensures var e := best + bestLen - 1;
            Emit(t, e + 1, best, e) + (if e == 7 then ":" else "") == ":" + Joined(t[best + bestLen..])
  {
    var e := best + bestLen - 1;
    if e + 1 < 8 {
      EmitAfter(t, e + 1, best, e);
    } else {
      assert t[best + bestLen..] == [];
    }
  }

  /** The general loop writes the text RFC 5952 prescribes for the run it
      is given. */
  lemma EmitCanonical(t: seq<nat>, best: int, bestLen: int)
    requires |t| == 8 && Fits16(t)
    requires (best == -1 && bestLen == 1) || (0 <= best && 2 <= bestLen && best + bestLen <= 8)
    ensures Emit(t, 0, best, best + bestLen - 1) + (if best + bestLen - 1 == 7 then ":" else "")
            == Canonical(t, best, bestLen)
  {
    if best < 0 {
      EmitAll(t);
    } else if best == 0 {
      EmitLeadingRun(t, bestLen);
    } else {
      EmitInnerRun(t, best, bestLen);
    }
  }

  lemma EmitAll(t: seq<nat>)
    requires |t| == 8 && Fits16(t)
    ensures Emit(t, 0, -1, -1) + "" == Joined(t)
  {
    EmitNoRun(t, 0, -1);
  }

  /** Without a run to compress, every group is printed. */
  lemma EmitNoRun(t: seq<nat>, i: nat, none: int)
    requires |t| == 8 && Fits16(t) && i == 0 && none == -1
    ensures Emit(t, i, none, none) + "" == Joined(t)
  {
    var h, j := HexNum(t[i]), Joined(t[i + 1..]);
    EmitFirst(t, i, none);
    assert Joined(t) == (h + ":") + j;
    JoinFirst(Emit(t, i, none, none), h, j);
  }

  lemma EmitFirst(t: seq<nat>, i: nat, bestEnd: int)
    requires |t| == 8 && Fits16(t) && i == 0 && bestEnd < i
    ensures Emit(t, i, bestEnd, bestEnd) == HexNum(t[i]) + (":" + Joined(t[i + 1..]))
  {
    EmitHead(t, i, bestEnd);
    HexWordIsHexNum(t[i]);
    EmitAfter(t, i + 1, bestEnd, bestEnd);
  }

  lemma EmitHead(t: seq<nat>, i: nat, bestEnd: int)
    requires |t| == 8 && Fits16(t) && i == 0 && bestEnd < i
    ensures Emit(t, i, bestEnd, bestEnd) == HexWord(t[i]) + Emit(t, i + 1, bestEnd, bestEnd)
  {
    EmitStep(t, i, bestEnd, bestEnd);
    EmptyPrefix(HexWord(t[i]), Emit(t, i + 1, bestEnd, bestEnd));
  }

  /** One group printed outside the compressed run. */
  lemma EmitStep(t: seq<nat>, i: nat, best: int, bestEnd: int)
    requires |t| == 8 && Fits16(t) && i < 8 && !(best <= i <= bestEnd)
    ensures Emit(t, i, best, bestEnd) == (if i > 0 then ":" else "") + HexWord(t[i]) + Emit(t, i + 1, best, bestEnd)
  {
  }

  lemma EmptyPrefix(h: string, r: string)
    ensures ("" + h) + r == h + r
  {
    assert "" + h == h;
  }

  lemma JoinFirst(x: string, h: string, j: string)
    requires x == h + (":" + j)
    ensures x + "" == (h + ":") + j
  {
    Regroup3(h, ":", j);
  }

  /** A text ending in `pre:tail`, closed by `close` where `tail close` is
      `:q`, is `pre::q`. */
  lemma JoinAround(x: string, pre: string, tail: string, close: string, q: string)
    requires x == pre + (":" + tail) && tail + close == ":" + q
    ensures x + close == (pre + "::") + q
  {
    Regroup3(pre, ":" + tail, close);
    Regroup3(":", tail, close);
    Regroup3(":", ":", q);
    Regroup3(pre, "::", q);
  }

  lemma EmitLeadingRun(t: seq<nat>, bestLen: int)
    requires |t| == 8 && Fits16(t) && 2 <= bestLen <= 8
    ensures Emit(t, 0, 0, bestLen - 1) + (if bestLen - 1 == 7 then ":" else "")
            == Canonical(t, 0, bestLen)
  {
    var e := bestLen - 1;
    var tail := Emit(t, e + 1, 0, e);
    EmitRun(t, 0, 0, e);
    RunTail(t, 0, bestLen);
    assert Emit(t, 0, 0, e) == "" + (":" + tail);
    JoinAround(Emit(t, 0, 0, e), "", tail, if e == 7 then ":" else "", Joined(t[bestLen..]));
    assert Joined(t[..0]) == "";
  }

  lemma EmitInnerRun(t: seq<nat>, best: int, bestLen: int)
    requires |t| == 8 && Fits16(t) && 0 < best && 2 <= bestLen && best + bestLen <= 8
    ensures Emit(t, 0, best, best + bestLen - 1) + (if best + bestLen - 1 == 7 then ":" else "")
            == Canonical(t, best, bestLen)
  {
    var e := best + bestLen - 1;
    var tail := Emit(t, e + 1, best, e);
    EmitPrefix(t, best, e);
    RunTail(t, best, bestLen);
    JoinAround(Emit(t, 0, best, e), Joined(t[..best]), tail, if e == 7 then ":" else "", Joined(t[best + bestLen..]));
  }

  lemma EmitPrefix(t: seq<nat>, best: int, e: int)
    requires |t| == 8 && Fits16(t) && 0 < best <= e < 8
    ensures Emit(t, 0, best, e) == Joined(t[..best]) + (":" + Emit(t, e + 1, best, e))
  {
    assert t[..best] == t[0..best];
    EmitBefore(t, 0, best, e, t[..best], "");
    EmptyPrefix(Joined(t[..best]), Emit(t, best, best, e));
    EmitRun(t, best, best, e);
  }

  /** `IP6_STRING_MAX`: `sizeof("ffff:ffff:ffff:ffff:ffff:ffff:255.255.255.255") + 2`. */
  const Ip6StringMax: nat := |"ffff:ffff:ffff:ffff:ffff:ffff:255.255.255.255"| + 1 + 2
}
