/** Numbers written as fixed-width digits, most significant first: bytes
    (`w = 8`) for serialized addresses and dotted quads, 16-bit groups
    (`w = 16`) for IPv6 text. */
module Radix {
  import opened Bits

  /** Every digit fits in `w` bits. */
  predicate DigitsFit(ds: seq<nat>, w: nat) {
    forall i :: 0 <= i < |ds| ==> ds[i] < Pow2(w)
  }

  /** The number the digits spell, most significant first. */
  function BigEndian(ds: seq<nat>, w: nat): nat {
    if |ds| == 0 then 0 else BigEndian(ds[..|ds| - 1], w) * Pow2(w) + ds[|ds| - 1]
  }

  /** Digit `k` of `x`, counting from the least significant:
      `(x >> (w * k)) & (2^w - 1)`. */
  function DigitOf(x: nat, w: nat, k: nat): (r: nat)
    ensures r < Pow2(w)
  {
    Low(Shr(x, w * k), w)
  }

  /** The `n` digits of `x`, most significant first. */
  function ToDigits(x: nat, n: nat, w: nat): (r: seq<nat>)
    ensures |r| == n && DigitsFit(r, w)
  {
    seq(n, i requires 0 <= i < n => DigitOf(x, w, n - 1 - i))
  }

  /** `d0 << w(n-1) | d1 << w(n-2) | ... | d(j-1) << w(n-j)`: the first `j`
      digits or-ed into place, as the C code packs them. */
  function OrShifted(ds: seq<nat>, j: nat, w: nat): nat
    requires j <= |ds|
  {
    if j == 0 then 0 else Or(OrShifted(ds, j - 1, w), ds[j - 1] * Pow2(w * (|ds| - j)))
  }

  /** Dropping the last digit divides it out. */
  lemma {:induction false} ShrLowDigit(ds: seq<nat>, w: nat)
    requires |ds| > 0 && ds[|ds| - 1] < Pow2(w)
    ensures Shr(BigEndian(ds, w), w) == BigEndian(ds[..|ds| - 1], w)
    ensures Low(BigEndian(ds, w), w) == ds[|ds| - 1]
  {
    ShrLowOf(BigEndian(ds[..|ds| - 1], w), ds[|ds| - 1], w);
  }

  /** The digits of `x` are the digits of `x >> w` followed by its low digit. */
  lemma {:induction false} ToDigitsSnoc(x: nat, n: nat, w: nat)
    requires n > 0
    ensures ToDigits(x, n, w) == ToDigits(Shr(x, w), n - 1, w) + [Low(x, w)]
  {
    var ds := ToDigits(x, n, w);
    var h := Shr(x, w);
    forall i | 0 <= i < n - 1
      ensures ds[i] == ToDigits(h, n - 1, w)[i]
    {
      var k := n - 2 - i;
      assert ds[i] == DigitOf(x, w, k + 1);
      assert ToDigits(h, n - 1, w)[i] == DigitOf(h, w, k);
      assert w * (k + 1) == w + w * k;
      ShrShr(x, w, w * k);
    }
    assert ds[n - 1] == Low(x, w) by {
      assert ds[n - 1] == DigitOf(x, w, 0);
      ShrLowStep(x, 0);
    }
  }

  /** The digits of a number that fits in `n` digits spell it back. */
  lemma {:induction false} ToDigitsValue(x: nat, n: nat, w: nat)
    requires x < Pow2(w * n)
    ensures BigEndian(ToDigits(x, n, w), w) == x
    decreases n
  {
    if n > 0 {
      var h := Shr(x, w);
      var ds := ToDigits(x, n, w);
      ToDigitsSnoc(x, n, w);
      assert ds[..n - 1] == ToDigits(h, n - 1, w);
      assert ds[n - 1] == Low(x, w);
      ShrFits(x, w, n - 1);
      ToDigitsValue(h, n - 1, w);
      ShrLowSplit(x, w);
    } else {
      assert Pow2(0) == 1;
    }
  }

  /** Dropping one digit of an `m + 1`-digit number leaves `m` digits. */
  lemma {:induction false} ShrFits(x: nat, w: nat, m: nat)
    requires x < Pow2(w * (m + 1))
    ensures Shr(x, w) < Pow2(w * m)
  {
    var t := w * m + w;
    assert w * (m + 1) == t;
    ShrBound(x, w, t);
    assert t - w == w * m;
  }

  /** Digits that fit are the digits of the number they spell, and that
      number fits in their count. */
  lemma {:induction false} BigEndianDigits(ds: seq<nat>, w: nat)
    requires DigitsFit(ds, w)
    ensures BigEndian(ds, w) < Pow2(w * |ds|)
    ensures ToDigits(BigEndian(ds, w), |ds|, w) == ds
  {
    var n := |ds|;
    if n > 0 {
      var init := ds[..n - 1];
      var v := BigEndian(ds, w);
      assert DigitsFit(init, w);
      BigEndianDigits(init, w);
      ShrLowDigit(ds, w);
      ToDigitsSnoc(v, n, w);
      assert ds == init + [ds[n - 1]];
      BigEndianBound(ds, w);
    }
  }

  lemma {:induction false} BigEndianBound(ds: seq<nat>, w: nat)
    requires |ds| > 0 && ds[|ds| - 1] < Pow2(w)
    requires BigEndian(ds[..|ds| - 1], w) < Pow2(w * (|ds| - 1))
    ensures BigEndian(ds, w) < Pow2(w * |ds|)
  {
    var n := |ds|;
    var a := Pow2(w * (n - 1));
    assert Pow2(w * n) == a * Pow2(w) by {
      assert w * n == w * (n - 1) + w;
      Pow2Add(w * (n - 1), w);
    }
    MulBelow(BigEndian(ds[..n - 1], w), a, ds[n - 1], Pow2(w));
  }

  /** Or-ing digits into disjoint places is the big-endian value, shifted. */
  lemma {:induction false} OrShiftedValue(ds: seq<nat>, j: nat, w: nat)
    requires j <= |ds| && DigitsFit(ds, w)
    ensures OrShifted(ds, j, w) == BigEndian(ds[..j], w) * Pow2(w * (|ds| - j))
  {
    if j > 0 {
      OrShiftedValue(ds, j - 1, w);
      var v := BigEndian(ds[..j - 1], w);
      var d := ds[j - 1];
      var k := w * (|ds| - j);
      assert BigEndian(ds[..j], w) == v * Pow2(w) + d by {
        assert ds[..j][..j - 1] == ds[..j - 1];
      }
      ShiftSplit(v, w, |ds| - j);
      OrPlace(v, d, w, k);
    }
  }

  /** `v << w(m+1) == (v << w) << wm`. */
  lemma {:induction false} ShiftSplit(v: nat, w: nat, m: nat)
    ensures v * Pow2(w * (m + 1)) == v * Pow2(w) * Pow2(w * m)
  {
    assert w * (m + 1) == w + w * m;
    Pow2Add(w, w * m);
  }

  /** `(v << w) << k | d << k == ((v << w) + d) << k` for a digit `d`. */
  lemma {:induction false} OrPlace(v: nat, d: nat, w: nat, k: nat)
    requires d < Pow2(w)
    ensures Or(v * Pow2(w) * Pow2(k), d * Pow2(k)) == (v * Pow2(w) + d) * Pow2(k)
  {
    ApplyConcat(OrOp, v * Pow2(w), 0, d, 0, k);
    ApplyZeroRight(OrOp, 0);
    OrDigit(v, d, w);
  }

  /** `(v << w) | d == (v << w) + d` for a digit `d`. */
  lemma {:induction false} OrDigit(v: nat, d: nat, w: nat)
    requires d < Pow2(w)
    ensures Or(v * Pow2(w), d) == v * Pow2(w) + d
  {
    var p := Pow2(w);
    ApplyConcat(OrOp, v, 0, 0, d, w);
    assert v * p + 0 == v * p && 0 * p + d == d;
    ApplyZeroRight(OrOp, v);
    ApplyZeroRight(OrOp, d);
    ApplyCommute(OrOp, 0, d);
  }

  /** Appending digits shifts the value of the prefix up past them. */
  lemma {:induction false} BigEndianAppend(a: seq<nat>, b: seq<nat>, w: nat)
    ensures BigEndian(a + b, w) == BigEndian(a, w) * Pow2(w * |b|) + BigEndian(b, w)
  {
    if |b| == 0 {
      assert a + b == a;
    } else {
      var c := a + b;
      var b' := b[..|b| - 1];
      assert c[..|c| - 1] == a + b';
      BigEndianAppend(a, b', w);
      var p := Pow2(w * |b'|);
      assert Pow2(w * |b|) == p * Pow2(w) by {
        assert w * |b| == w * |b'| + w;
        Pow2Add(w * |b'|, w);
      }
      var ea, eb, last := BigEndian(a, w), BigEndian(b', w), b[|b| - 1];
      assert c[|c| - 1] == last && b[..|b| - 1] == b';
      assert BigEndian(c, w) == (ea * p + eb) * Pow2(w) + last;
      assert BigEndian(b, w) == eb * Pow2(w) + last;
      Regroup(ea, p, eb, Pow2(w));
    }
  }
}
