/** The C library steps shared by `ip4r_from_str` and `ip6r_from_str`:
    finding the separator with `strcspn(str, "-/")`, and reading the prefix
    length after a `/` with the `strspn` digit check followed by
    `sscanf(rest, "%u%c", ...)`. */
module RangeText {
  import opened Wrappers
  import opened RawIo

  predicate IsSep(c: char) {
    c == '-' || c == '/'
  }

  /** A text with no separator in it. */
  predicate SepFree(s: string) {
    forall i :: 0 <= i < |s| ==> !IsSep(s[i])
  }

  /** Joining separator-free texts gives a separator-free text. */
  lemma SepFreeConcat(a: string, b: string)
    requires SepFree(a) && SepFree(b)
    ensures SepFree(a + b)
  {
    forall i | 0 <= i < |a + b|
      ensures !IsSep((a + b)[i])
    {
      if i < |a| {
        assert (a + b)[i] == a[i];
      } else {
        assert (a + b)[i] == b[i - |a|];
      }
    }
  }

  /** `strcspn(s, "-/")`: the length of the longest prefix without a
      separator. */
  function SepPos(s: string): (pos: nat)
    ensures pos <= |s|
    ensures forall i :: 0 <= i < pos ==> !IsSep(s[i])
    ensures pos < |s| ==> IsSep(s[pos])
  {
    if |s| == 0 then 0
    else if IsSep(s[0]) then 0
    else 1 + SepPos(s[1..])
  }

  /** The separator is found right after a prefix that has none. */
  lemma {:induction false} SepPosAfter(a: string, c: char, b: string)
    requires forall i :: 0 <= i < |a| ==> !IsSep(a[i])
    requires IsSep(c)
    ensures SepPos(a + [c] + b) == |a|
  {
    var s := a + [c] + b;
    assert s[|a|] == c;
    assert forall i :: 0 <= i < |a| ==> s[i] == a[i];
  }

  /** A text with no separator is read to its end. */
  lemma {:induction false} SepPosNone(s: string)
    requires forall i :: 0 <= i < |s| ==> !IsSep(s[i])
    ensures SepPos(s) == |s|
  {
  }

  predicate AllDigits(s: string) {
    forall i :: 0 <= i < |s| ==> IsDecDigit(s[i])
  }

  /** The value of a decimal numeral, leading zeros allowed. */
  function DecNum(s: string): (n: nat)
    requires AllDigits(s)
  {
    if |s| == 0 then 0 else DecNum(s[..|s| - 1]) * 10 + DecValue(s[|s| - 1])
  }

  /** Reading back the numeral `%u` wrote gives the number. */
  lemma {:induction false} DecNumOfDec(n: nat)
    ensures AllDigits(Dec(n))
    ensures DecNum(Dec(n)) == n
  {
    if n >= 10 {
      DecNumOfDec(n / 10);
      var s := Dec(n);
      assert s == Dec(n / 10) + [DecChar(n % 10)];
      assert s[..|s| - 1] == Dec(n / 10);
    }
  }

  /** The prefix length after `/`: the rest must be all digits (the
      `strspn` test), and `sscanf` must convert exactly one number, which
      needs at least one digit. */
  function PrefixLength(rest: string): (r: Option<nat>)
    ensures r.Some? <==> |rest| > 0 && AllDigits(rest)
    ensures r.Some? ==> r.value == DecNum(rest)
  {
    if !AllDigits(rest) then None
    else if |rest| == 0 then None
    else Some(DecNum(rest))
  }

  /** The numeral of a length is read back as that length. */
  lemma PrefixLengthOfDec(n: nat)
    ensures PrefixLength(Dec(n)) == Some(n)
  {
    DecNumOfDec(n);
  }

  /** Cutting `a + [c] + b` at `|a|` gives back its pieces. */
  lemma Pieces(a: string, c: char, b: string)
    ensures (a + [c] + b)[..|a|] == a
    ensures (a + [c] + b)[|a|] == c
    ensures (a + [c] + b)[|a| + 1..] == b
  {
  }
}
