/** What `ip6_raw_input` makes of the texts `ip6_raw_output` writes: the
    scanner, followed step by step over each piece of the output. */
module RawIo6Proofs {
  import opened Bits
  import opened Wrappers
  import opened Radix
  import opened RawIo
  import opened RawIo6
  import Ip6rFuncs

  // ---------------------------------------------------------------------
  // One step of the scanner

  lemma HexStep(s: string, i: nat, back: nat, d: nat, words: seq<nat>, gap: Option<nat>, word: nat, word': nat)
    requires ScanOk(s, i, back, d, words, gap, word) && i < |s| && IsHexDigit(s[i]) && d < 4 && |words| < 8
    requires word' == ShiftInNibble(word, HexValue(s[i]))
    ensures ScanOk(s, i + 1, back, d + 1, words, gap, word')
    ensures Ip6Scan(s, i, back, d, words, gap, word) == Ip6Scan(s, i + 1, back, d + 1, words, gap, word')
  {
  }

  /** A `:` closing a group stores it. */
  lemma ColonStep(s: string, i: nat, back: nat, d: nat, words: seq<nat>, gap: Option<nat>, word: nat)
    requires ScanOk(s, i, back, d, words, gap, word) && i + 1 < |s| && s[i] == ':' && 0 < d && |words| < 7
    ensures ScanOk(s, i + 1, i + 1, 0, words + [word], gap, 0)
    ensures Ip6Scan(s, i, back, d, words, gap, word) == Ip6Scan(s, i + 1, i + 1, 0, words + [word], gap, 0)
  {
  }

  /** The second `:` of `::` stores a zero group and marks the gap there. */
  lemma GapStep(s: string, i: nat, back: nat, words: seq<nat>)
    requires ScanOk(s, i, back, 0, words, None, 0) && i < |s| && s[i] == ':' && |words| < 7
    ensures ScanOk(s, i + 1, i + 1, 0, words + [0], Some(|words|), 0)
    ensures Ip6Scan(s, i, back, 0, words, None, 0) == Ip6Scan(s, i + 1, i + 1, 0, words + [0], Some(|words|), 0)
  {
  }

  // ---------------------------------------------------------------------
  // Pieces of text

  /** The leading piece of a text and what follows it. */
  lemma Split2(s: string, i: nat, j: nat, a: string, b: string)
    requires i + |a| + |b| == j <= |s| && s[i..j] == a + b
    ensures s[i..i + |a|] == a && s[i + |a|..j] == b
  {
    assert s[i..i + |a|] == s[i..j][..|a|];
    assert s[i + |a|..j] == s[i..j][|a|..];
  }

  lemma {:induction false} HexNumDigits(w: nat)
    ensures forall k :: 0 <= k < |HexNum(w)| ==> IsHexDigit(HexNum(w)[k])
  {
    if w >= 16 {
      HexNumDigits(w / 16);
    }
  }

  /** Reading the shortest numeral of a group gives the group. */
  lemma {:induction false} ScanHex(s: string, i: nat, back: nat, words: seq<nat>, gap: Option<nat>, w: nat, j: nat)
    requires ScanOk(s, i, back, 0, words, gap, 0) && |words| < 8 && w < 0x1_0000
    requires i + |HexNum(w)| == j <= |s| && s[i..j] == HexNum(w)
    ensures ScanOk(s, j, back, |HexNum(w)|, words, gap, w)
    ensures Ip6Scan(s, i, back, 0, words, gap, 0) == Ip6Scan(s, j, back, |HexNum(w)|, words, gap, w)
    decreases w
  {
    HexNumLength(w);
    if w < 16 {
      ScanHexDigit(s, i, back, words, gap, w, j);
    } else {
      var h, c, m := HexNum(w / 16), HexChar(w % 16), j - 1;
      assert HexNum(w) == h + [c];
      Split2(s, i, j, h, [c]);
      ScanHex(s, i, back, words, gap, w / 16, m);
      assert s[m] == c by { assert s[m..j][0] == s[m]; }
      NibbleSplit(w, w / 16, w % 16);
      HexStep(s, m, back, |h|, words, gap, w / 16, w);
      assert |HexNum(w)| == |h| + 1 && m + 1 == j;
      assert Ip6Scan(s, m, back, |h|, words, gap, w / 16) == Ip6Scan(s, j, back, |HexNum(w)|, words, gap, w);
    }
  }

  lemma ScanHexDigit(s: string, i: nat, back: nat, words: seq<nat>, gap: Option<nat>, w: nat, j: nat)
    requires ScanOk(s, i, back, 0, words, gap, 0) && |words| < 8 && w < 16
    requires i + 1 == j <= |s| && s[i..j] == HexNum(w)
    ensures ScanOk(s, j, back, 1, words, gap, w)
    ensures Ip6Scan(s, i, back, 0, words, gap, 0) == Ip6Scan(s, j, back, 1, words, gap, w)
  {
    assert s[i] == HexNum(w)[0];
    HexStep(s, i, back, 0, words, gap, 0, w);
  }

  lemma NibbleSplit(w: nat, hi: nat, lo: nat)
    requires w < 0x1_0000 && hi == w / 16 && lo == w % 16
    ensures ShiftInNibble(hi, lo) == w
  {
  }

  /** The groups joined by single colons are read into `words`, all but
      the last, which is still being read at the end. */
  lemma {:induction false} ScanJoined(s: string, i: nat, words: seq<nat>, gap: Option<nat>, gs: seq<nat>, j: nat)
    returns (back: nat)
    requires ScanOk(s, i, i, 0, words, gap, 0) && 1 <= |gs| && |words| + |gs| <= 8 && Fits16(gs)
    requires i + |Joined(gs)| == j <= |s| && s[i..j] == Joined(gs)
    ensures ScanOk(s, j, back, |HexNum(gs[|gs| - 1])|, words + gs[..|gs| - 1], gap, gs[|gs| - 1])
    ensures 0 < |HexNum(gs[|gs| - 1])|
    ensures Ip6Scan(s, i, i, 0, words, gap, 0)
            == Ip6Scan(s, j, back, |HexNum(gs[|gs| - 1])|, words + gs[..|gs| - 1], gap, gs[|gs| - 1])
    decreases |gs|
  {
    if |gs| == 1 {
      back := ScanLastGroup(s, i, words, gap, gs, j);
    } else {
      var rest := gs[1..];
      var k := ScanHeadGroup(s, i, words, gap, gs, j);
      back := ScanJoined(s, k, words + [gs[0]], gap, rest, j);
      assert (words + [gs[0]]) + rest[..|rest| - 1] == words + gs[..|gs| - 1];
    }
  }

  /** The first group and the colon after it. */
  lemma ScanHeadGroup(s: string, i: nat, words: seq<nat>, gap: Option<nat>, gs: seq<nat>, j: nat)
    returns (k: nat)
    requires ScanOk(s, i, i, 0, words, gap, 0) && 2 <= |gs| && |words| + |gs| <= 8 && Fits16(gs)
    requires i + |Joined(gs)| == j <= |s| && s[i..j] == Joined(gs)
    ensures k + |Joined(gs[1..])| == j && s[k..j] == Joined(gs[1..])
    ensures ScanOk(s, k, k, 0, words + [gs[0]], gap, 0)
    ensures Ip6Scan(s, i, i, 0, words, gap, 0) == Ip6Scan(s, k, k, 0, words + [gs[0]], gap, 0)
  {
    var h := HexNum(gs[0]);
    var m := i + |h|;
    Split2(s, i, j, h + ":", Joined(gs[1..]));
    Split2(s, i, m + 1, h, ":");
    ScanHex(s, i, i, words, gap, gs[0], m);
    assert s[m] == ':' by { assert s[m..m + 1][0] == s[m]; }
    ColonStep(s, m, i, |h|, words, gap, gs[0]);
    k := m + 1;
  }

  lemma ScanLastGroup(s: string, i: nat, words: seq<nat>, gap: Option<nat>, gs: seq<nat>, j: nat)
    returns (back: nat)
    requires ScanOk(s, i, i, 0, words, gap, 0) && |gs| == 1 && |words| < 8 && Fits16(gs)
    requires i + |Joined(gs)| == j <= |s| && s[i..j] == Joined(gs)
    ensures ScanOk(s, j, back, |HexNum(gs[0])|, words + gs[..0], gap, gs[0])
    ensures Ip6Scan(s, i, i, 0, words, gap, 0) == Ip6Scan(s, j, back, |HexNum(gs[0])|, words + gs[..0], gap, gs[0])
  {
    assert words + gs[..0] == words;
    ScanHex(s, i, i, words, gap, gs[0], j);
    back := i;
  }

  /** After the last group the terminator stores it. */
  lemma ScanEnd(s: string, back: nat, d: nat, words: seq<nat>, gap: Option<nat>, word: nat)
    requires ScanOk(s, |s|, back, d, words, gap, word) && 0 < d
    ensures |words + [word]| <= 8 && Fits16(words + [word])
    ensures Ip6Scan(s, |s|, back, d, words, gap, word) == Finish(words + [word], gap)
  {
  }

  lemma {:induction false} ScanDigits(s: string, i: nat, back: nat, d: nat, words: seq<nat>, gap: Option<nat>, word: nat, j: nat)
    returns (word': nat)
    requires ScanOk(s, i, back, d, words, gap, word) && i <= j <= |s| && d + (j - i) <= 4 && |words| < 8
    requires forall k :: i <= k < j ==> IsHexDigit(s[k])
    ensures ScanOk(s, j, back, d + (j - i), words, gap, word')
    ensures Ip6Scan(s, i, back, d, words, gap, word) == Ip6Scan(s, j, back, d + (j - i), words, gap, word')
    decreases j - i
  {
    if i < j {
      var w1 := ShiftInNibble(word, HexValue(s[i]));
      HexStep(s, i, back, d, words, gap, word, w1);
      word' := ScanDigits(s, i + 1, back, d + 1, words, gap, w1, j);
    } else {
      word' := word;
    }
  }

  /** A `.` hands the text from the start of its group to `ip4_raw_input`. */
  lemma DotStep(s: string, p: nat, back: nat, d: nat, words: seq<nat>, gap: Option<nat>, word: nat, v: u32)
    requires ScanOk(s, p, back, d, words, gap, word) && p < |s| && s[p] == '.' && 1 <= |words| <= 6
    requires Ip4Input(s[back..]) == Some(v)
    ensures Ip6Scan(s, p, back, d, words, gap, word) == Finish(words + [v / 0x1_0000, v % 0x1_0000], gap)
  {
  }

  /** A dotted quad after one to six groups gives the last two groups. */
  lemma ScanDotted(s: string, k: nat, words: seq<nat>, gap: Option<nat>, v: u32)
    requires ScanOk(s, k, k, 0, words, gap, 0) && 1 <= |words| <= 6 && s[k..] == Ip4Output(v)
    ensures Ip6Scan(s, k, k, 0, words, gap, 0) == Finish(words + [v / 0x1_0000, v % 0x1_0000], gap)
  {
    var ds := ToDigits(v, 4, 8);
    Ip4DigitsOf(v);
    var a := Dec(ds[0]);
    assert [ds[0]] + ds[1..] == ds;
    DottedCons(ds[0], ds[1..]);
    DecOctetLength(ds[0]);
    var p := k + |a|;
    Split2(s, k, |s|, a + ".", Dotted(ds[1..]));
    Split2(s, k, p + 1, a, ".");
    assert s[p] == '.' by { assert s[p..p + 1][0] == s[p]; }
    forall q | k <= q < p
      ensures IsHexDigit(s[q])
    {
      assert s[q] == a[q - k];
    }
    var w := ScanDigits(s, k, k, 0, words, gap, 0, p);
    Ip4InputIff(s[k..], v);
    DotStep(s, p, k, |a|, words, gap, w, v);
  }

  // ---------------------------------------------------------------------
  // The widened gap

  /** The groups around a run of `n` zero groups. */
  lemma RunLayout(t: seq<nat>, best: nat, n: nat)
    requires |t| == 8 && best + n <= 8
    requires forall k :: best <= k < best + n ==> t[k] == 0
    ensures t == t[..best] + Zeros(n) + t[best + n..]
  {
    var e := t[..best] + Zeros(n) + t[best + n..];
    assert |e| == 8;
    forall k | 0 <= k < 8
      ensures t[k] == e[k]
    {
      if best <= k < best + n {
        assert e[k] == Zeros(n)[k - best];
      } else if k >= best + n {
        assert e[k] == t[best + n..][k - best - n];
      }
    }
  }

  /** The groups stored with one zero at the gap, widened, are the groups
      with the whole run of zeros. */
  lemma FinishGap(pre: seq<nat>, post: seq<nat>, n: nat, t: seq<nat>)
    requires 2 <= n && |pre| + n + |post| == 8 && t == pre + Zeros(n) + post
    requires Fits16(pre + [0] + post) && |t| == 8 && Fits16(t)
    ensures Finish(pre + [0] + post, Some(|pre|)) == Some(Pack6(t))
  {
    var ws := pre + [0] + post;
    var g := |pre|;
    assert ws[..g + 1] == pre + [0];
    assert ws[g + 1..] == post;
    assert |ws| < 8 && 8 - |ws| == n - 1;
    var z := Zeros(n - 1);
    assert Zeros(n) == [0] + z;
    assert Expand(ws, g) == (pre + [0]) + z + post;
    assert (pre + [0]) + z + post == pre + ([0] + z) + post;
  }

  /** The rest of the text after `::`: no group or some groups joined. */
  lemma AfterGap(s: string, k: nat, pre: seq<nat>, post: seq<nat>, n: nat, t: seq<nat>)
    requires ScanOk(s, k, k, 0, pre + [0], Some(|pre|), 0)
    requires 2 <= n && |pre| + n + |post| == 8 && t == pre + Zeros(n) + post && |t| == 8 && Fits16(t)
    requires k + |Joined(post)| == |s| && s[k..] == Joined(post)
    ensures Ip6Scan(s, k, k, 0, pre + [0], Some(|pre|), 0) == Some(Pack6(t))
  {
    if |post| == 0 {
      assert pre + [0] + post == pre + [0];
      FinishGap(pre, post, n, t);
    } else {
      AfterGapGroups(s, k, pre, post, n, t);
    }
  }

  lemma AfterGapGroups(s: string, k: nat, pre: seq<nat>, post: seq<nat>, n: nat, t: seq<nat>)
    requires ScanOk(s, k, k, 0, pre + [0], Some(|pre|), 0) && 0 < |post|
    requires 2 <= n && |pre| + n + |post| == 8 && t == pre + Zeros(n) + post && |t| == 8 && Fits16(t)
    requires k + |Joined(post)| == |s| && s[k..] == Joined(post)
    ensures Ip6Scan(s, k, k, 0, pre + [0], Some(|pre|), 0) == Some(Pack6(t))
  {
    var front := pre + [0];
    var words, last := front + post[..|post| - 1], post[|post| - 1];
    FitsAfter(pre, post, n, t);
    var back := ScanJoined(s, k, front, Some(|pre|), post, |s|);
    ScanEnd(s, back, |HexNum(last)|, words, Some(|pre|), last);
    SnocLast(front, post);
    FinishGap(pre, post, n, t);
  }

  lemma SnocLast(front: seq<nat>, post: seq<nat>)
    requires 0 < |post|
    ensures (front + post[..|post| - 1]) + [post[|post| - 1]] == front + post
  {
    assert post[..|post| - 1] + [post[|post| - 1]] == post;
  }

  lemma FitsAfter(pre: seq<nat>, post: seq<nat>, n: nat, t: seq<nat>)
    requires |pre| + n + |post| == 8 && t == pre + Zeros(n) + post && |t| == 8 && Fits16(t)
    ensures Fits16(post)
  {
    forall q | 0 <= q < |post|
      ensures post[q] < 0x1_0000
    {
      assert post[q] == t[|pre| + n + q];
    }
  }

  // ---------------------------------------------------------------------
  // The canonical text

  lemma JoinedHead(gs: seq<nat>)
    requires 1 <= |gs|
    ensures 1 <= |Joined(gs)| && IsHexDigit(Joined(gs)[0])
  {
    HexNumDigits(gs[0]);
    if |gs| > 1 {
      assert Joined(gs) == (HexNum(gs[0]) + ":") + Joined(gs[1..]);
    }
  }

  /** A text that starts with a group is scanned from its first character. */
  lemma InputFromStart(s: string)
    requires 1 <= |s| && IsHexDigit(s[0])
    ensures ScanOk(s, 0, 0, 0, [], None, 0)
    ensures Ip6Input(s) == Ip6Scan(s, 0, 0, 0, [], None, 0)
  {
  }

  /** A text that starts with `::` is scanned from its second character,
      which stores the zero group at the gap. */
  lemma InputFromGap(s: string)
    requires 2 <= |s| && s[0] == ':' && s[1] == ':'
    ensures ScanOk(s, 2, 2, 0, [] + [0], Some(0), 0)
    ensures Ip6Input(s) == Ip6Scan(s, 2, 2, 0, [] + [0], Some(0), 0)
  {
    GapStep(s, 1, 0, []);
  }

  /** All eight groups, joined. */
  lemma JoinedRoundTrip(t: seq<nat>)
    requires |t| == 8 && Fits16(t)
    ensures Ip6Input(Joined(t)) == Some(Pack6(t))
  {
    var s := Joined(t);
    JoinedHead(t);
    InputFromStart(s);
    assert s[0..|s|] == s;
    var back := ScanJoined(s, 0, [], None, t, |s|);
    ScanEnd(s, back, |HexNum(t[7])|, [] + t[..7], None, t[7]);
    SnocLast([], t);
    assert [] + t == t;
  }

  lemma LeadingGapText(t: seq<nat>, n: nat)
    requires |t| == 8 && 2 <= n <= 8
    ensures Canonical(t, 0, n) == "::" + Joined(t[n..])
  {
    assert Joined(t[..0]) == "";
    assert "" + "::" == "::";
  }

  /** A leading run compressed: `::` and the groups after it. */
  lemma LeadingGapRoundTrip(t: seq<nat>, n: nat)
    requires |t| == 8 && Fits16(t) && 2 <= n <= 8
    requires forall k :: 0 <= k < n ==> t[k] == 0
    ensures Ip6Input(Canonical(t, 0, n)) == Some(Pack6(t))
  {
    var s, post := Canonical(t, 0, n), t[n..];
    LeadingGapText(t, n);
    Split2(s, 0, |s|, "::", Joined(post));
    InputFromGap(s);
    RunLayout(t, 0, n);
    assert t[..0] == [];
    AfterGap(s, 2, [], post, n, t);
  }

  /** The groups before an inner run, and its `::`. */
  lemma InnerGapPrefix(s: string, pre: seq<nat>, rest: string)
    requires 1 <= |pre| <= 6 && Fits16(pre) && s == (Joined(pre) + "::") + rest
    ensures var k := |Joined(pre)| + 2;
            && ScanOk(s, k, k, 0, pre + [0], Some(|pre|), 0)
            && Ip6Input(s) == Ip6Scan(s, k, k, 0, pre + [0], Some(|pre|), 0)
            && s[k..] == rest
  {
    var m, last := |Joined(pre)|, pre[|pre| - 1];
    Split2(s, 0, |s|, Joined(pre) + "::", rest);
    Split2(s, 0, m + 2, Joined(pre), "::");
    JoinedHead(pre);
    InputFromStart(s);
    assert s[0..m] == Joined(pre);
    var back := ScanJoined(s, 0, [], None, pre, m);
    assert s[m] == ':' && s[m + 1] == ':' by { assert s[m..m + 2] == "::"; }
    ColonStep(s, m, back, |HexNum(last)|, [] + pre[..|pre| - 1], None, last);
    SnocLast([], pre);
    assert [] + pre == pre;
    GapStep(s, m + 1, m + 1, pre);
  }

  /** An inner run compressed: the groups before it, `::`, the groups
      after it. */
  lemma InnerGapRoundTrip(t: seq<nat>, best: nat, n: nat)
    requires |t| == 8 && Fits16(t) && 0 < best && 2 <= n && best + n <= 8
    requires forall k :: best <= k < best + n ==> t[k] == 0
    ensures Ip6Input(Canonical(t, best, n)) == Some(Pack6(t))
  {
    var s, pre, post := Canonical(t, best, n), t[..best], t[best + n..];
    assert Fits16(pre) by {
      forall q | 0 <= q < best
        ensures pre[q] < 0x1_0000
      {
        assert pre[q] == t[q];
      }
    }
    InnerGapPrefix(s, pre, Joined(post));
    RunLayout(t, best, n);
    AfterGap(s, |Joined(pre)| + 2, pre, post, n, t);
  }

  /** Every text of the form section 4 of RFC 5952 prescribes, for any run
      of zero groups (or none), reads back as the address of its groups. */
  lemma CanonicalRoundTrip(t: seq<nat>, best: int, n: int)
    requires |t| == 8 && Fits16(t)
    requires (best == -1 && n == 1) || (0 <= best && 2 <= n && best + n <= 8)
    requires forall k :: 0 <= best <= k < best + n ==> t[k] == 0
    ensures Ip6Input(Canonical(t, best, n)) == Some(Pack6(t))
  {
    if best < 0 {
      JoinedRoundTrip(t);
    } else if best == 0 {
      LeadingGapRoundTrip(t, n);
    } else {
      InnerGapRoundTrip(t, best, n);
    }
  }

  // ---------------------------------------------------------------------
  // The dotted-quad forms

  lemma TailTexts(v: u32)
    ensures Ip4TailText(6, v) == "::" + Ip4Output(v)
    ensures Ip4TailText(5, v) == "::ffff:" + Ip4Output(v)
    ensures Ip4TailText(4, v) == "::ffff:0:" + Ip4Output(v)
  {
  }

  lemma SplitWord(t: seq<nat>, v: u32)
    requires |t| == 8 && Fits16(t) && v == Word32(t[6], t[7])
    ensures v / 0x1_0000 == t[6] && v % 0x1_0000 == t[7]
  {
  }

  lemma HexFfff()
    ensures HexNum(0xffff) == "ffff"
  {
    var f := HexChar(15);
    assert f == 'f';
    assert HexNum(0xff) == [f] + [f];
    assert HexNum(0xfff) == HexNum(0xff) + [f];
    assert HexNum(0xffff) == HexNum(0xfff) + [f];
  }

  /** `::ffff` read after the leading `::`. */
  lemma ScanFfff(s: string)
    requires 7 <= |s| && s[..7] == "::ffff:" && 7 < |s|
    ensures ScanOk(s, 7, 7, 0, [0, 0xffff], Some(0), 0)
    ensures Ip6Input(s) == Ip6Scan(s, 7, 7, 0, [0, 0xffff], Some(0), 0)
  {
    assert s[0] == ':' && s[1] == ':' && s[6] == ':';
    InputFromGap(s);
    HexFfff();
    assert s[2..6] == s[..7][2..6];
    ScanHex(s, 2, 2, [] + [0], Some(0), 0xffff, 6);
    ColonStep(s, 6, 2, 4, [] + [0], Some(0), 0xffff);
    assert ([] + [0]) + [0xffff] == [0, 0xffff];
  }

  /** `::ffff:0` read after the leading `::`. */
  lemma ScanFfff0(s: string)
    requires 9 <= |s| && s[..9] == "::ffff:0:" && 9 < |s|
    ensures ScanOk(s, 9, 9, 0, [0, 0xffff, 0], Some(0), 0)
    ensures Ip6Input(s) == Ip6Scan(s, 9, 9, 0, [0, 0xffff, 0], Some(0), 0)
  {
    assert s[..7] == "::ffff:" && s[8] == ':';
    ScanFfff(s);
    assert HexNum(0) == "0";
    assert s[7..8] == s[..9][7..8];
    ScanHex(s, 7, 7, [0, 0xffff], Some(0), 0, 8);
    ColonStep(s, 8, 7, 1, [0, 0xffff], Some(0), 0);
    assert [0, 0xffff] + [0] == [0, 0xffff, 0];
  }

  /** Each special form reads back as its groups. */
  lemma TailedRoundTrip(t: seq<nat>, n: int)
    requires |t| == 8 && Fits16(t) && Ip4Tailed(t, 0, n)
    requires forall k :: 0 <= k < n ==> t[k] == 0
    ensures Ip6Input(Ip4TailText(n, Word32(t[6], t[7]))) == Some(Pack6(t))
  {
    var v := Word32(t[6], t[7]);
    TailTexts(v);
    SplitWord(t, v);
    RunLayout(t, 0, n);
    assert t[..0] == [];
    if n == 6 {
      Tailed6(t, v, Ip4TailText(n, v));
    } else if n == 5 {
      Tailed5(t, v, Ip4TailText(n, v));
    } else {
      Tailed4(t, v, Ip4TailText(n, v));
    }
  }

  lemma Tailed6(t: seq<nat>, v: u32, s: string)
    requires |t| == 8 && Fits16(t) && t == [] + Zeros(6) + t[6..]
    requires v / 0x1_0000 == t[6] && v % 0x1_0000 == t[7] && s == "::" + Ip4Output(v)
    ensures Ip6Input(s) == Some(Pack6(t))
  {
    var post := t[6..];
    Split2(s, 0, |s|, "::", Ip4Output(v));
    InputFromGap(s);
    ScanDotted(s, 2, [] + [0], Some(0), v);
    assert post == [t[6], t[7]];
    FinishGap([], post, 6, t);
  }

  lemma Tailed5(t: seq<nat>, v: u32, s: string)
    requires |t| == 8 && Fits16(t) && t == [] + Zeros(5) + t[5..] && t[5] == 0xffff
    requires v / 0x1_0000 == t[6] && v % 0x1_0000 == t[7] && s == "::ffff:" + Ip4Output(v)
    ensures Ip6Input(s) == Some(Pack6(t))
  {
    var post := t[5..];
    Split2(s, 0, |s|, "::ffff:", Ip4Output(v));
    assert s[..7] == s[0..7];
    ScanFfff(s);
    ScanDotted(s, 7, [0, 0xffff], Some(0), v);
    assert post == [0xffff, t[6], t[7]];
    assert [0, 0xffff] + [t[6], t[7]] == [] + [0] + post;
    FinishGap([], post, 5, t);
  }

  lemma Tailed4(t: seq<nat>, v: u32, s: string)
    requires |t| == 8 && Fits16(t) && t == [] + Zeros(4) + t[4..] && t[4] == 0xffff && t[5] == 0
    requires v / 0x1_0000 == t[6] && v % 0x1_0000 == t[7] && s == "::ffff:0:" + Ip4Output(v)
    ensures Ip6Input(s) == Some(Pack6(t))
  {
    var post := t[4..];
    Split2(s, 0, |s|, "::ffff:0:", Ip4Output(v));
    assert s[..9] == s[0..9];
    ScanFfff0(s);
    ScanDotted(s, 9, [0, 0xffff, 0], Some(0), v);
    assert post == [0xffff, 0, t[6], t[7]];
    assert [0, 0xffff, 0] + [t[6], t[7]] == [] + [0] + post;
    FinishGap([], post, 4, t);
  }

  // ---------------------------------------------------------------------
  // ip6_raw_output, then ip6_raw_input

  /** The run the output compresses: when there is one, its groups are zero. */
  lemma BestRunZeros(t: seq<nat>)
    requires |t| == 8
    ensures var best, n := BestRun(t).0, BestRun(t).1;
            && BestAmong(t, 8, best, n)
            && ((best == -1 && n == 1) || (0 <= best && 2 <= n && best + n <= 8))
            && forall k :: 0 <= best <= k < best + n ==> t[k] == 0
  {
    var best := BestRun(t).0;
    BestRunIsBest(t);
    if best >= 0 {
      ZeroRunZeros(t, best);
    }
  }

  /** Outside the dotted-quad forms, `ip6_raw_output` writes the text of
      section 4 of RFC 5952: lower-case groups without leading zeros, the
      longest (leftmost) run of two or more zero groups as `::`. */
  lemma Ip6OutputText(ip: IP6)
    ensures var t := Groups6(ip);
            var best, n := BestRun(t).0, BestRun(t).1;
            && BestAmong(t, 8, best, n)
            && (Ip4Tailed(t, best, n) ==> Ip6Output(ip) == Ip4TailText(n, Word32(t[6], t[7])))
            && (!Ip4Tailed(t, best, n) ==> Ip6Output(ip) == Canonical(t, best, n))
  {
    var t := Groups6(ip);
    var best, n := BestRun(t).0, BestRun(t).1;
    BestRunZeros(t);
    if !Ip4Tailed(t, best, n) {
      if best == 0 && n == 8 {
        AllZeroText(t);
      } else {
        EmitCanonical(t, best, n);
      }
    }
  }

  lemma AllZeroText(t: seq<nat>)
    requires |t| == 8
    ensures Canonical(t, 0, 8) == "::"
  {
    assert Joined(t[..0]) == "" && Joined(t[8..]) == "";
    assert ("" + "::") + "" == "::";
  }

  /** `ip6_raw_input` reads back every address `ip6_raw_output` writes. */
  lemma Ip6RoundTrip(ip: IP6)
    ensures Ip6Input(Ip6Output(ip)) == Some(ip)
  {
    var t := Groups6(ip);
    var best, n := BestRun(t).0, BestRun(t).1;
    BestRunZeros(t);
    Ip6OutputText(ip);
    Groups6Pack(ip);
    if Ip4Tailed(t, best, n) {
      TailedRoundTrip(t, n);
    } else {
      CanonicalRoundTrip(t, best, n);
    }
  }

  // ---------------------------------------------------------------------
  // The buffer

  lemma {:induction false} JoinedLength(gs: seq<nat>)
    requires Fits16(gs)
    ensures |gs| == 0 ==> |Joined(gs)| == 0
    ensures |gs| > 0 ==> |Joined(gs)| + 1 <= 5 * |gs|
    decreases |gs|
  {
    if |gs| > 0 {
      HexNumLength(gs[0]);
      if |gs| > 1 {
        assert Fits16(gs[1..]) by {
          forall q | 0 <= q < |gs| - 1
            ensures gs[1..][q] < 0x1_0000
          {
            assert gs[1..][q] == gs[q + 1];
          }
        }
        JoinedLength(gs[1..]);
      }
    }
  }

  lemma CanonicalLength(t: seq<nat>, best: int, n: int)
    requires |t| == 8 && Fits16(t)
    requires (best == -1 && n == 1) || (0 <= best && 2 <= n && best + n <= 8)
    ensures |Canonical(t, best, n)| <= 39
  {
    if best < 0 {
      JoinedLength(t);
    } else {
      var pre, post := t[..best], t[best + n..];
      assert Fits16(pre) by {
        forall q | 0 <= q < |pre|
          ensures pre[q] < 0x1_0000
        {
          assert pre[q] == t[q];
        }
      }
      assert Fits16(post) by {
        forall q | 0 <= q < |post|
          ensures post[q] < 0x1_0000
        {
          assert post[q] == t[best + n + q];
        }
      }
      JoinedLength(pre);
      JoinedLength(post);
    }
  }

  /** The text fits `IP6_STRING_MAX` with its terminator; no text is longer
      than eight full groups, `ffff:ffff:ffff:ffff:ffff:ffff:ffff:ffff`. */
  lemma Ip6OutputFits(ip: IP6)
    ensures |Ip6Output(ip)| <= 39
    ensures |Ip6Output(ip)| + 1 <= Ip6StringMax
  {
    var t := Groups6(ip);
    var best, n := BestRun(t).0, BestRun(t).1;
    BestRunZeros(t);
    Ip6OutputText(ip);
    if Ip4Tailed(t, best, n) {
      Ip4OutputFits(Word32(t[6], t[7]));
    } else {
      CanonicalLength(t, best, n);
    }
  }

  // ---------------------------------------------------------------------
  // The characters of the output

  /** The characters of a colon-hex text, with or without a dotted quad. */
  predicate IsIp6Char(c: char) {
    IsHexDigit(c) || c == ':' || c == '.'
  }

  predicate Ip6Chars(s: string) {
    forall i :: 0 <= i < |s| ==> IsIp6Char(s[i])
  }

  lemma Ip6CharsConcat(a: string, b: string)
    requires Ip6Chars(a) && Ip6Chars(b)
    ensures Ip6Chars(a + b)
  {
    forall i | 0 <= i < |a + b|
      ensures IsIp6Char((a + b)[i])
    {
      if i < |a| {
        assert (a + b)[i] == a[i];
      } else {
        assert (a + b)[i] == b[i - |a|];
      }
    }
  }

  /** A hex numeral is made of hex digits. */
  lemma {:induction false} HexNumChars(w: nat)
    ensures Ip6Chars(HexNum(w))
  {
    if w >= 16 {
      HexNumChars(w / 16);
      Ip6CharsConcat(HexNum(w / 16), [HexChar(w % 16)]);
    }
  }

  /** Colon-separated groups are made of hex digits and colons. */
  lemma {:induction false} JoinedChars(gs: seq<nat>)
    ensures Ip6Chars(Joined(gs))
    decreases |gs|
  {
    if |gs| == 1 {
      HexNumChars(gs[0]);
    } else if |gs| > 1 {
      HexNumChars(gs[0]);
      JoinedChars(gs[1..]);
      Ip6CharsConcat(HexNum(gs[0]), ":");
      Ip6CharsConcat(HexNum(gs[0]) + ":", Joined(gs[1..]));
    }
  }

  /** The dotted-quad forms are made of colons, hex digits, digits and dots. */
  lemma TailChars(n: int, v: u32)
    ensures Ip6Chars(Ip4TailText(n, v))
  {
    Ip4OutputChars(v);
    var head := ":" + (if n != 6 then ":ffff" else "") + (if n == 4 then ":0" else "") + ":";
    assert Ip6Chars(head);
    assert Ip6Chars(Ip4Output(v)) by {
      forall i | 0 <= i < |Ip4Output(v)|
        ensures IsIp6Char(Ip4Output(v)[i])
      {
        assert IsIp4Char(Ip4Output(v)[i]);
      }
    }
    Ip6CharsConcat(head, Ip4Output(v));
  }

  /** So is the colon-hex form. */
  lemma CanonicalChars(t: seq<nat>, best: int, n: int)
    requires |t| == 8 && (best == -1 || (0 <= best && 0 <= n && best + n <= 8))
    ensures Ip6Chars(Canonical(t, best, n))
  {
    if best < 0 {
      JoinedChars(t);
    } else {
      JoinedChars(t[..best]);
      JoinedChars(t[best + n..]);
      Ip6CharsConcat(Joined(t[..best]), "::");
      Ip6CharsConcat(Joined(t[..best]) + "::", Joined(t[best + n..]));
    }
  }

  /** Every text `ip6_raw_output` writes is made of hex digits, colons and
      dots. */
  lemma Ip6OutputChars(ip: Ip6rFuncs.IP6)
    ensures Ip6Chars(Ip6Output(ip))
  {
    Ip6OutputText(ip);
    var t := Groups6(ip);
    var best, n := BestRun(t).0, BestRun(t).1;
    if Ip4Tailed(t, best, n) {
      TailChars(n, Word32(t[6], t[7]));
    } else {
      CanonicalChars(t, best, n);
    }
  }
}
