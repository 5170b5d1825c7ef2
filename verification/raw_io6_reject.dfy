/** What `ip6_raw_input` refuses.  The round trips elsewhere say which
    texts are read and to what; here the texts the scanner turns down are
    characterised: stray characters, groups of more than four digits, a
    lone leading or trailing `:`, a second `::`, too many or too few groups,
    and a dotted quad anywhere but at the end after one to six groups. */
module RawIo6Reject {
  import opened Wrappers
  import opened RawIo
  import opened RawIo6

  // ---------------------------------------------------------------------
  // The dotted quad

  /** A character `ip4_raw_input` has no case for. */
  predicate Ip4Stray(c: char) {
    !IsDecDigit(c) && c != '.'
  }

  /** Four decimal digits in a row: too many for an octet. */
  predicate DecRun4(s: string, k: nat) {
    k + 4 <= |s| && IsDecDigit(s[k]) && IsDecDigit(s[k + 1]) && IsDecDigit(s[k + 2]) && IsDecDigit(s[k + 3])
  }

  /** What makes `ip4_raw_input` give up once it reaches position `k`. */
  predicate Ip4Flaw(s: string, k: nat) {
    k < |s| && (Ip4Stray(s[k]) || DecRun4(s, k))
  }

  /** An octet that already has a nonzero digit overflows after three more. */
  lemma Ip4ThreeMore(s: string, i: nat, digits: nat, octets: nat, octet: nat, tmp: nat)
    requires i + 3 <= |s| && octets <= 3 && 1 <= octet < 0x100 && tmp < Room(octets)
    requires IsDecDigit(s[i]) && IsDecDigit(s[i + 1]) && IsDecDigit(s[i + 2])
    ensures Ip4Scan(s, i, digits + 1, octets, octet, tmp).None?
  {
    var o1 := octet * 10 + DecValue(s[i]);
    if o1 <= 255 {
      var o2 := o1 * 10 + DecValue(s[i + 1]);
      assert Ip4Scan(s, i, digits + 1, octets, octet, tmp) == Ip4Scan(s, i + 1, digits + 2, octets, o1, tmp);
      if o2 <= 255 {
        assert Ip4Scan(s, i + 1, digits + 2, octets, o1, tmp) == Ip4Scan(s, i + 2, digits + 3, octets, o2, tmp);
        assert o2 * 10 + DecValue(s[i + 2]) > 255;
      }
    }
  }

  /** Four digits in a row are refused whatever was read before them: a
      leading zero followed by a digit, or a value past 255. */
  lemma Ip4RunRejects(s: string, i: nat, digits: nat, octets: nat, octet: nat, tmp: nat)
    requires octets <= 3 && octet < 0x100 && tmp < Room(octets) && DecRun4(s, i)
    ensures Ip4Scan(s, i, digits, octets, octet, tmp).None?
  {
    if !(digits > 0 && octet == 0) {
      var o := octet * 10 + DecValue(s[i]);
      if o <= 255 {
        assert Ip4Scan(s, i, digits, octets, octet, tmp) == Ip4Scan(s, i + 1, digits + 1, octets, o, tmp);
        if o == 0 {
          assert Ip4Scan(s, i + 1, digits + 1, octets, o, tmp).None?;
        } else {
          Ip4ThreeMore(s, i + 1, digits, octets, o, tmp);
        }
      }
    }
  }

  /** A flaw anywhere ahead of the scanner ends the dotted quad in failure. */
  lemma {:induction false} Ip4FlawAhead(s: string, i: nat, digits: nat, octets: nat, octet: nat, tmp: nat, k: nat)
    requires i <= k && Ip4Flaw(s, k) && octets <= 3 && octet < 0x100 && tmp < Room(octets)
    ensures Ip4Scan(s, i, digits, octets, octet, tmp).None?
    decreases |s| - i
  {
    if i == k {
      if !Ip4Stray(s[k]) {
        Ip4RunRejects(s, i, digits, octets, octet, tmp);
      }
    } else if IsDecDigit(s[i]) {
      var o := octet * 10 + DecValue(s[i]);
      if !(digits > 0 && octet == 0) && o <= 255 {
        Ip4FlawAhead(s, i + 1, digits + 1, octets, o, tmp, k);
      }
    } else if s[i] == '.' && digits != 0 && octets + 1 <= 3 {
      ShiftInOctet(tmp, octet, octets);
      Ip4FlawAhead(s, i + 1, 0, octets + 1, 0, tmp * 0x100 + octet, k);
    }
  }

  /** A dotted quad `ip4_raw_input` accepts has only digits and dots, and
      never four digits in a row. */
  lemma Ip4InputFlawless(t: string)
    ensures Ip4Input(t).Some? ==> forall k :: 0 <= k < |t| ==> !Ip4Flaw(t, k)
  {
    forall k | 0 <= k < |t| && Ip4Flaw(t, k)
      ensures Ip4Input(t).None?
    {
      Ip4FlawAhead(t, 0, 0, 0, 0, 0, k);
    }
  }

  // ---------------------------------------------------------------------
  // Stray characters and long groups

  /** The characters `ip6_raw_input` has a case for. */
  predicate Ip6Char(c: char) {
    IsHexDigit(c) || c == ':' || c == '.'
  }

  /** Five hex digits in a row: a group of more than four digits. */
  predicate HexRun(s: string, k: nat, n: nat) {
    k + n <= |s| && forall j :: k <= j < k + n ==> IsHexDigit(s[j])
  }

  /** What makes `ip6_raw_input` give up once it reaches position `k`. */
  predicate Ip6Flaw(s: string, k: nat) {
    k < |s| && (!Ip6Char(s[k]) || HexRun(s, k, 5))
  }

  /** Whatever refuses the colon-hex text also refuses it as a dotted quad. */
  lemma Ip6FlawIp4(s: string, b: nat, k: nat)
    requires b <= k && Ip6Flaw(s, k)
    ensures Ip4Input(s[b..]).None?
  {
    var t := s[b..];
    assert forall j :: 0 <= j < |t| ==> t[j] == s[b + j];
    var m: nat;
    if !Ip6Char(s[k]) {
      m := k - b;
    } else if IsDecDigit(s[k]) && IsDecDigit(s[k + 1]) && IsDecDigit(s[k + 2]) && IsDecDigit(s[k + 3]) {
      m := k - b;
      assert DecRun4(t, m);
    } else {
      var j :| k <= j < k + 4 && !IsDecDigit(s[j]);
      assert IsHexDigit(s[j]);
      m := j - b;
    }
    assert Ip4Flaw(t, m);
    Ip4FlawAhead(t, 0, 0, 0, 0, 0, m);
  }

  /** The scanner stops at the fifth digit of a group. */
  lemma {:induction false} HexRunRejects(s: string, i: nat, back: nat, digits: nat, words: seq<nat>, gap: Option<nat>, word: nat, n: nat)
    requires ScanOk(s, i, back, digits, words, gap, word) && 0 < n && HexRun(s, i, n) && digits + n > 4
    ensures Ip6Scan(s, i, back, digits, words, gap, word).None?
    decreases n
  {
    assert IsHexDigit(s[i]);
    if digits + 1 <= 4 {
      assert HexRun(s, i + 1, n - 1);
      HexRunRejects(s, i + 1, back, digits + 1, words, gap, ShiftInNibble(word, HexValue(s[i])), n - 1);
    }
  }

  /** A flaw anywhere ahead of the scanner ends the text in failure,
      whether it is met in the colon-hex part or in a dotted-quad tail. */
  lemma {:induction false} Ip6FlawAhead(s: string, i: nat, back: nat, digits: nat, words: seq<nat>, gap: Option<nat>, word: nat, k: nat)
    requires ScanOk(s, i, back, digits, words, gap, word) && i <= k && Ip6Flaw(s, k)
    ensures Ip6Scan(s, i, back, digits, words, gap, word).None?
    decreases |s| - i
  {
    if i == k {
      if Ip6Char(s[k]) {
        HexRunRejects(s, i, back, digits, words, gap, word, 5);
      }
    } else if IsHexDigit(s[i]) {
      if digits + 1 <= 4 {
        Ip6FlawAhead(s, i + 1, back, digits + 1, words, gap, ShiftInNibble(word, HexValue(s[i])), k);
      }
    } else if s[i] == ':' {
      if !(digits == 0 && gap.Some?) && !(digits > 0 && i + 1 == |s|) && !(|words| + 1 > 7 && i + 1 < |s|) {
        var gap' := if digits == 0 then Some(|words|) else gap;
        Ip6FlawAhead(s, i + 1, i + 1, 0, words + [word], gap', 0, k);
      }
    } else if s[i] == '.' {
      Ip6FlawIp4(s, back, k);
    }
  }

  /** No flaw survives `ip6_raw_input`. */
  lemma Ip6InputFlawless(s: string, k: nat)
    requires k < |s| && Ip6Flaw(s, k)
    ensures Ip6Input(s).None?
  {
    if s[0] == ':' {
      if k > 0 && 1 < |s| && s[1] == ':' {
        Ip6FlawAhead(s, 1, 0, 0, [], None, 0, k);
      }
    } else {
      Ip6FlawAhead(s, 0, 0, 0, [], None, 0, k);
    }
  }

  /** An accepted address has only hex digits, colons and dots in it. */
  lemma Ip6InputAlphabet(s: string)
    ensures Ip6Input(s).Some? ==> forall k :: 0 <= k < |s| ==> Ip6Char(s[k])
  {
    forall k | 0 <= k < |s| && !Ip6Char(s[k])
      ensures Ip6Input(s).None?
    {
      Ip6InputFlawless(s, k);
    }
  }

  /** An accepted address has no group of more than four hex digits. */
  lemma Ip6InputShortGroups(s: string)
    ensures Ip6Input(s).Some? ==> forall k :: 0 <= k <= |s| - 5 ==> !HexRun(s, k, 5)
  {
    forall k | 0 <= k <= |s| - 5 && HexRun(s, k, 5)
      ensures Ip6Input(s).None?
    {
      Ip6InputFlawless(s, k);
    }
  }

  /** A leading `:` must be the first half of `::`. */
  lemma Ip6InputLeadingColon(s: string)
    ensures 0 < |s| && s[0] == ':' && (|s| == 1 || s[1] != ':') ==> Ip6Input(s).None?
  {
  }

  // ---------------------------------------------------------------------
  // Colons, gaps and groups

  /** Where the loop starts: past a leading `:`, which the special case
      has checked to be the first half of `::`. */
  function Start(s: string): (r: nat)
    ensures r <= |s|
  {
    if 0 < |s| && s[0] == ':' then 1 else 0
  }

  /** The colons in `s[lo..hi]`. */
  function Colons(s: string, lo: nat, hi: nat): nat
    requires lo <= hi <= |s|
    decreases hi - lo
  {
    if lo == hi then 0 else Colons(s, lo, hi - 1) + (if s[hi - 1] == ':' then 1 else 0)
  }

  predicate NoColon(s: string, lo: nat, hi: nat)
    requires lo <= hi <= |s|
  {
    forall j :: lo <= j < hi ==> s[j] != ':'
  }

  /** A `::` whose second colon is at `k`. */
  predicate GapAt(s: string, k: nat) {
    0 < k < |s| && s[k - 1] == ':' && s[k] == ':'
  }

  /** The `::` in `s[..hi]`, counted by their second colon; `:::` counts
      twice. */
  function GapCount(s: string, hi: nat): nat
    requires hi <= |s|
  {
    if hi <= 1 then 0 else GapCount(s, hi - 1) + (if GapAt(s, hi - 1) then 1 else 0)
  }

  predicate HasDot(s: string) {
    exists k :: 0 <= k < |s| && s[k] == '.'
  }

  /** The groups the loop stores in `tmp` before widening the gap: one per
      colon it reads, one for the digits after the last colon, and one
      more when a dotted quad fills two groups. */
  function Groups(s: string): nat {
    Colons(s, Start(s), |s|) + (if 0 < |s| && s[|s| - 1] != ':' then 1 else 0) + (if HasDot(s) then 1 else 0)
  }

  /** A text that ends in `:` ends in `::`. */
  predicate TrailingOk(s: string) {
    0 < |s| && s[|s| - 1] == ':' ==> 2 <= |s| && s[|s| - 2] == ':'
  }

  /** The colon at `c` is the last one, a dotted quad follows it, and one
      to six groups come before the quad. */
  predicate QuadAfter(s: string, c: nat) {
    && Start(s) <= c < |s| && s[c] == ':'
    && NoColon(s, c + 1, |s|)
    && Ip4Input(s[c + 1..]).Some?
    && 1 <= Colons(s, Start(s), c + 1) <= 6
  }

  /** Every dot belongs to a dotted quad at the end. */
  predicate DotTail(s: string) {
    forall k :: 0 <= k < |s| && s[k] == '.' ==> exists c: nat :: c < k && QuadAfter(s, c)
  }

  /** What the loop of `ip6_raw_input` demands of a text it accepts. */
  predicate Shaped(s: string) {
    && GapCount(s, |s|) <= 1
    && Groups(s) <= 8
    && (GapCount(s, |s|) == 0 ==> Groups(s) == 8)
    && TrailingOk(s)
    && DotTail(s)
  }

  lemma {:induction false} ColonsFlat(s: string, lo: nat, mid: nat, hi: nat)
    requires lo <= mid <= hi <= |s| && NoColon(s, mid, hi)
    ensures Colons(s, lo, hi) == Colons(s, lo, mid)
    decreases hi
  {
    if mid < hi {
      ColonsFlat(s, lo, mid, hi - 1);
    }
  }

  lemma {:induction false} GapFlat(s: string, mid: nat, hi: nat)
    requires mid <= hi <= |s| && NoColon(s, mid, hi)
    ensures GapCount(s, hi) == GapCount(s, mid)
    decreases hi
  {
    if mid < hi {
      GapFlat(s, mid, hi - 1);
    }
  }

  lemma {:induction false} GapCountOne(s: string, k: nat, hi: nat)
    requires GapAt(s, k) && k < hi <= |s|
    ensures 1 <= GapCount(s, hi)
    decreases hi
  {
    if k < hi - 1 {
      GapCountOne(s, k, hi - 1);
    }
  }

  lemma {:induction false} GapCountTwo(s: string, k1: nat, k2: nat, hi: nat)
    requires GapAt(s, k1) && GapAt(s, k2) && k1 < k2 < hi <= |s|
    ensures 2 <= GapCount(s, hi)
    decreases hi
  {
    if k2 < hi - 1 {
      GapCountTwo(s, k1, k2, hi - 1);
    } else {
      GapCountOne(s, k1, hi - 1);
    }
  }

  lemma {:induction false} GapCountNone(s: string, hi: nat)
    requires hi <= |s| && forall k :: 0 < k < hi ==> !GapAt(s, k)
    ensures GapCount(s, hi) == 0
    decreases hi
  {
    if 1 < hi {
      GapCountNone(s, hi - 1);
    }
  }

  // ---------------------------------------------------------------------
  // The loop, followed with what it has seen

  /** What the loop state says about the text read so far: no dot yet,
      `digits` counts the hex digits just before `i`, one group stored per
      colon read, the gap set exactly when one `::` has been read, and
      `backtrack` just past the last colon. */
  predicate Seen(s: string, i: nat, back: nat, digits: nat, words: seq<nat>, gap: Option<nat>) {
    && Start(s) <= i <= |s| && back <= i
    && (forall j :: 0 <= j < i ==> s[j] != '.')
    && (i == Start(s) ==> digits == 0)
    && (Start(s) < i ==> (IsHexDigit(s[i - 1]) || s[i - 1] == ':') && (0 < digits <==> IsHexDigit(s[i - 1])))
    && |words| == Colons(s, Start(s), i)
    && (gap.Some? <==> 0 < GapCount(s, i)) && GapCount(s, i) <= 1
    && (0 < |words| ==> Start(s) < back && s[back - 1] == ':' && NoColon(s, back, i))
    && (i == |s| && Start(s) < i && s[i - 1] == ':' ==> 2 <= i && s[i - 2] == ':')
  }

  lemma SeenHex(s: string, i: nat, back: nat, digits: nat, words: seq<nat>, gap: Option<nat>)
    requires Seen(s, i, back, digits, words, gap) && i < |s| && IsHexDigit(s[i])
    ensures Seen(s, i + 1, back, digits + 1, words, gap)
  {
    assert Colons(s, Start(s), i + 1) == Colons(s, Start(s), i);
    assert GapCount(s, i + 1) == GapCount(s, i);
  }

  lemma SeenColon(s: string, i: nat, back: nat, digits: nat, words: seq<nat>, gap: Option<nat>, word: nat)
    requires Seen(s, i, back, digits, words, gap) && i < |s| && s[i] == ':'
    requires !(digits == 0 && gap.Some?) && !(0 < digits && i + 1 == |s|)
    ensures Seen(s, i + 1, i + 1, 0, words + [word], if digits == 0 then Some(|words|) else gap)
  {
    assert Colons(s, Start(s), i + 1) == Colons(s, Start(s), i) + 1;
    if digits == 0 {
      assert 0 < i && s[i - 1] == ':';
      assert GapCount(s, i + 1) == GapCount(s, i) + 1;
    } else {
      assert GapCount(s, i + 1) == GapCount(s, i);
    }
  }

  /** The terminator: the groups stored are the groups of the text. */
  lemma EndShaped(s: string, back: nat, digits: nat, words: seq<nat>, gap: Option<nat>, word: nat)
    requires ScanOk(s, |s|, back, digits, words, gap, word) && Seen(s, |s|, back, digits, words, gap)
    ensures Ip6Scan(s, |s|, back, digits, words, gap, word).Some? ==> Shaped(s)
  {
    var ws := if digits > 0 then words + [word] else words;
    if Finish(ws, gap).Some? {
      assert !HasDot(s);
      assert |ws| == Groups(s);
    }
  }

  /** The characters of a dotted quad read from `back` are not colons. */
  lemma QuadNoColon(s: string, back: nat)
    requires back <= |s| && Ip4Input(s[back..]).Some?
    ensures NoColon(s, back, |s|)
  {
    var t := s[back..];
    Ip4InputChars(t);
    assert forall j :: back <= j < |s| ==> s[j] == t[j - back];
  }

  /** The dotted-quad tail: the quad is read from just past the last colon
      to the end, and the text has no colon after it. */
  lemma DotTailFacts(s: string, i: nat, back: nat, digits: nat, words: seq<nat>, gap: Option<nat>)
    requires Seen(s, i, back, digits, words, gap) && i < |s| && s[i] == '.'
    requires 1 <= |words| <= 6 && Ip4Input(s[back..]).Some?
    ensures Groups(s) == |words| + 2 && GapCount(s, |s|) == GapCount(s, i)
    ensures TrailingOk(s) && DotTail(s)
  {
    QuadNoColon(s, back);
    ColonsFlat(s, Start(s), i, |s|);
    ColonsFlat(s, Start(s), back, i);
    GapFlat(s, i, |s|);
    assert HasDot(s);
    var c := back - 1;
    assert QuadAfter(s, c);
    forall k | 0 <= k < |s| && s[k] == '.'
      ensures exists c: nat :: c < k && QuadAfter(s, c)
    {
      assert c < k;
    }
  }

  lemma DotShaped(s: string, i: nat, back: nat, digits: nat, words: seq<nat>, gap: Option<nat>, word: nat)
    requires ScanOk(s, i, back, digits, words, gap, word) && Seen(s, i, back, digits, words, gap)
    requires i < |s| && s[i] == '.'
    ensures Ip6Scan(s, i, back, digits, words, gap, word).Some? ==> Shaped(s)
  {
    if Ip6Scan(s, i, back, digits, words, gap, word).Some? {
      assert 1 <= |words| <= 6 && Ip4Input(s[back..]).Some?;
      DotTailFacts(s, i, back, digits, words, gap);
    }
  }

  lemma {:induction false} ScanShaped(s: string, i: nat, back: nat, digits: nat, words: seq<nat>, gap: Option<nat>, word: nat)
    requires ScanOk(s, i, back, digits, words, gap, word) && Seen(s, i, back, digits, words, gap)
    ensures Ip6Scan(s, i, back, digits, words, gap, word).Some? ==> Shaped(s)
    decreases |s| - i
  {
    if i == |s| {
      EndShaped(s, back, digits, words, gap, word);
    } else if IsHexDigit(s[i]) {
      if digits + 1 <= 4 {
        SeenHex(s, i, back, digits, words, gap);
        ScanShaped(s, i + 1, back, digits + 1, words, gap, ShiftInNibble(word, HexValue(s[i])));
      }
    } else if s[i] == ':' {
      if !(digits == 0 && gap.Some?) && !(digits > 0 && i + 1 == |s|) && !(|words| + 1 > 7 && i + 1 < |s|) {
        var gap' := if digits == 0 then Some(|words|) else gap;
        SeenColon(s, i, back, digits, words, gap, word);
        ScanShaped(s, i + 1, i + 1, 0, words + [word], gap', 0);
      }
    } else if s[i] == '.' {
      DotShaped(s, i, back, digits, words, gap, word);
    }
  }

  lemma InputShaped(s: string)
    ensures Ip6Input(s).Some? ==> Shaped(s)
  {
    if 0 < |s| && s[0] == ':' {
      if 1 < |s| && s[1] == ':' {
        ScanShaped(s, 1, 0, 0, [], None, 0);
      }
    } else {
      ScanShaped(s, 0, 0, 0, [], None, 0);
    }
  }

  // ---------------------------------------------------------------------
  // The refusals, one by one

  /** At most one `::`: a second one, or a `:::`, is refused. */
  lemma Ip6InputOneGap(s: string, k1: nat, k2: nat)
    requires GapAt(s, k1) && GapAt(s, k2) && k1 != k2
    ensures Ip6Input(s).None?
  {
    InputShaped(s);
    if k1 < k2 {
      GapCountTwo(s, k1, k2, |s|);
    } else {
      GapCountTwo(s, k2, k1, |s|);
    }
  }

  /** A trailing `:` is refused unless it closes a `::`. */
  lemma Ip6InputTrailingColon(s: string)
    requires 0 < |s| && s[|s| - 1] == ':' && (|s| == 1 || s[|s| - 2] != ':')
    ensures Ip6Input(s).None?
  {
    InputShaped(s);
  }

  /** More than eight groups are refused, and so are fewer than eight
      without a `::` to widen. */
  lemma Ip6InputGroups(s: string)
    ensures Ip6Input(s).Some? ==> Groups(s) <= 8
    ensures Ip6Input(s).Some? && (forall k :: !GapAt(s, k)) ==> Groups(s) == 8
  {
    InputShaped(s);
    if forall k :: !GapAt(s, k) {
      GapCountNone(s, |s|);
    }
  }

  /** A dot is accepted only inside a dotted quad that ends the text, after
      a colon and one to six groups. */
  lemma Ip6InputDottedTail(s: string, k: nat)
    requires k < |s| && s[k] == '.' && Ip6Input(s).Some?
    ensures exists c: nat :: c < k && QuadAfter(s, c)
  {
    InputShaped(s);
  }
}
