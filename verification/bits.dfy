/** Machine words and bitwise operators over unbounded naturals.

    The C code works on `uint8`, `uint16`, `uint32` and `uint64`.  Here a word
    is a `nat` below a power of two, bitwise operators are defined bit by bit,
    and every wrap-around the C code relies on is written as an explicit `%`.
    Shifts are `Shr` (C's `x >> k`) and `Low` (C's `x & ((1 << k) - 1)`). */
module Bits {

  type u8 = x: nat | x < 0x100
  type u16 = x: nat | x < 0x1_0000
  type u32 = x: nat | x < 0x1_0000_0000
  type u64 = x: nat | x < 0x1_0000_0000_0000_0000
  type i32 = x: int | -0x8000_0000 <= x < 0x8000_0000
  type i64 = x: int | -0x8000_0000_0000_0000 <= x < 0x8000_0000_0000_0000

  const TWO32: nat := 0x1_0000_0000
  const TWO64: nat := 0x1_0000_0000_0000_0000
  const TWO128: nat := 0x1_0000_0000_0000_0000_0000_0000_0000_0000
  const MAX32: u32 := 0xFFFF_FFFF
  const MAX64: u64 := 0xFFFF_FFFF_FFFF_FFFF

  /** A conversion to `int64`: the value congruent to `x` modulo 2^64
      (the two's-complement wrap-around of the hardware). */
  function Wrap64(x: int): (r: i64)
    ensures (r - x) % TWO64 == 0
    ensures -0x8000_0000_0000_0000 <= x < 0x8000_0000_0000_0000 ==> r == x
    ensures 0x8000_0000_0000_0000 <= x < 0x1_8000_0000_0000_0000 ==> r == x - TWO64
  {
    (x + 0x8000_0000_0000_0000) % TWO64 - 0x8000_0000_0000_0000
  }

  function Pow2(n: nat): (r: nat)
    ensures r >= 1
  {
    if n == 0 then 1 else 2 * Pow2(n - 1)
  }

  lemma {:induction false} Pow2Add(a: nat, b: nat)
    ensures Pow2(a + b) == Pow2(a) * Pow2(b)
  {
    if a > 0 {
      Pow2Add(a - 1, b);
      assert Pow2(a + b) == 2 * Pow2(a - 1 + b);
    }
  }

  lemma Pow2Values()
    ensures Pow2(8) == 0x100 && Pow2(16) == 0x1_0000
    ensures Pow2(32) == TWO32 && Pow2(64) == TWO64 && Pow2(128) == TWO128
  {
    assert Pow2(8) == 0x100;
    Pow2Add(8, 8);
    Pow2Add(16, 16);
    Pow2Add(32, 32);
    Pow2Add(64, 64);
  }

  /** A remainder by a larger modulus leaves the value alone. */
  lemma ModBelow(x: nat, m: nat)
    requires x < m
    ensures x % m == x
  {
  }

  /** A modulus leaves no remainder from itself. */
  lemma ModSelf(m: nat)
    requires m > 0
    ensures m % m == 0
  {
    DivMod(m, m, 1, 0);
  }

  lemma Pow2Of8()
    ensures Pow2(8) == 0x100
  {
    assert Pow2(8) == 0x100;
  }

  lemma Pow2Of16()
    ensures Pow2(16) == 0x1_0000
  {
    Pow2Of8();
    Pow2Add(8, 8);
  }

  lemma Pow2Of32()
    ensures Pow2(32) == TWO32
  {
    Pow2Values();
  }

  lemma Pow2Of64()
    ensures Pow2(64) == TWO64
  {
    Pow2Values();
  }

  lemma {:induction false} Pow2Monotone(a: nat, b: nat)
    requires a <= b
    ensures Pow2(a) <= Pow2(b)
  {
    if a < b {
      Pow2Monotone(a, b - 1);
    }
  }

  /** C's `ffs`: one plus the index of the lowest set bit, or 0 for 0. */
  function Ffs(x: nat): (r: nat)
    ensures r == 0 <==> x == 0
  {
    if x == 0 then 0 else if x % 2 == 1 then 1 else 1 + Ffs(x / 2)
  }

  lemma FfsZero()
    ensures Ffs(0) == 0
  {
  }

  lemma {:induction false} FfsPow2(k: nat)
    ensures Ffs(Pow2(k)) == k + 1
  {
    if k > 0 {
      FfsPow2(k - 1);
      assert Pow2(k) / 2 == Pow2(k - 1);
    }
  }

  /** A nonzero `w`-bit word has its lowest set bit among its `w` bits. */
  lemma {:induction false} FfsBound(x: nat, w: nat)
    requires 0 < x < Pow2(w)
    ensures Ffs(x) <= w
  {
    if x % 2 == 0 {
      FfsBound(x / 2, w - 1);
    }
  }

  // ---------------------------------------------------------------------
  // Division facts

  lemma MulMono(x: int, y: int, d: nat)
    requires x <= y
    ensures x * d <= y * d
  {
    assert (y - x) * d >= 0;
    assert y * d - x * d == (y - x) * d;
  }

  /** Quotient and remainder are unique. */
  lemma DivMod(a: nat, d: nat, q: nat, r: nat)
    requires d > 0 && a == q * d + r && r < d
    ensures a / d == q && a % d == r
  {
    var q0 := a / d;
    var r0 := a % d;
    assert a == q0 * d + r0;
    if q0 < q {
      MulMono(q0 + 1, q, d);
      assert false;
    } else if q < q0 {
      MulMono(q + 1, q0, d);
      assert false;
    }
  }

  /** `(x + k * m) % m == x % m`, for borrows and carries. */
  lemma ModOfSum(x: int, k: int, m: nat)
    requires m > 0
    ensures (x + k * m) % m == x % m
  {
    var q := x / m;
    var r := x % m;
    assert x + k * m == (q + k) * m + r;
    DivModInt(x + k * m, m, q + k, r);
  }

  /** Quotient and remainder are unique, for a possibly negative dividend. */
  lemma DivModInt(a: int, d: nat, q: int, r: int)
    requires d > 0 && a == q * d + r && 0 <= r < d
    ensures a / d == q && a % d == r
  {
    var q' := a / d;
    var r' := a % d;
    if q' < q {
      MulMono(q' + 1, q, d);
      assert false;
    } else if q < q' {
      MulMono(q + 1, q', d);
      assert false;
    }
  }

  lemma DivModDouble(x: nat, p: nat)
    requires p > 0
    ensures x / (2 * p) == (x / 2) / p
    ensures x % (2 * p) == 2 * ((x / 2) % p) + x % 2
  {
    var q := (x / 2) / p;
    var m := (x / 2) % p;
    assert x / 2 == q * p + m;
    assert x == q * (2 * p) + (2 * m + x % 2);
    DivMod(x, 2 * p, q, 2 * m + x % 2);
  }

  lemma Halve(x: nat, e: nat)
    requires e < 2
    ensures (2 * x + e) / 2 == x && (2 * x + e) % 2 == e
  {
  }

  lemma DivNat(a: nat, d: nat)
    requires d > 0
    ensures a / d >= 0
  {
  }

  // ---------------------------------------------------------------------
  // Shifts

  /** The bits of `a` from position `k` up (C's `a >> k`). */
  function Shr(a: nat, k: nat): nat {
    DivNat(a, Pow2(k));
    a / Pow2(k)
  }

  /** The `k` low bits of `a`. */
  function Low(a: nat, k: nat): (r: nat)
    ensures r < Pow2(k)
  {
    a % Pow2(k)
  }

  /** One step of `Shr` and `Low`: peel off the lowest bit. */
  lemma ShrLowStep(a: nat, k: nat)
    ensures Shr(a, 0) == a && Low(a, 0) == 0
    ensures k > 0 ==> Shr(a, k) == Shr(a / 2, k - 1)
    ensures k > 0 ==> Low(a, k) == 2 * Low(a / 2, k - 1) + a % 2
  {
    if k > 0 {
      DivModDouble(a, Pow2(k - 1));
    }
  }

  /** `a` is its high part shifted back plus its low part. */
  lemma ShrLowSplit(a: nat, k: nat)
    ensures a == Shr(a, k) * Pow2(k) + Low(a, k)
  {
  }

  /** The high and low parts of `q * 2^k + r` are `q` and `r`. */
  lemma ShrLowOf(q: nat, r: nat, k: nat)
    requires r < Pow2(k)
    ensures Shr(q * Pow2(k) + r, k) == q && Low(q * Pow2(k) + r, k) == r
  {
    DivMod(q * Pow2(k) + r, Pow2(k), q, r);
  }

  /** `ShrLowOf` for a value already known to be `q * 2^k + r`. */
  lemma ShrLowOfValue(x: nat, q: nat, r: nat, k: nat)
    requires x == q * Pow2(k) + r && r < Pow2(k)
    ensures Shr(x, k) == q && Low(x, k) == r
  {
    ShrLowOf(q, r, k);
  }

  lemma ShrLowSmall(a: nat, k: nat)
    requires a < Pow2(k)
    ensures Shr(a, k) == 0 && Low(a, k) == a
  {
    ShrLowOf(0, a, k);
  }

  /** Regrouping a product of a sum, kept apart so the solver sees it alone. */
  lemma Regroup(q: nat, a: nat, r: nat, b: nat)
    ensures (q * a + r) * b == q * (a * b) + r * b
  {
  }

  /** Low bits and shifts of a concatenation `h * 2^w + l`, when `k <= w`. */
  lemma {:induction false} ConcatBelow(h: nat, l: nat, k: nat, w: nat)
    requires k <= w && l < Pow2(w)
    ensures Low(h * Pow2(w) + l, k) == Low(l, k)
    ensures Shr(h * Pow2(w) + l, k) == h * Pow2(w - k) + Shr(l, k)
  {
    var a := Pow2(w - k);
    var b := Pow2(k);
    assert Pow2(w) == a * b by {
      Pow2Add(w - k, k);
    }
    assert l == Shr(l, k) * b + Low(l, k) by {
      ShrLowSplit(l, k);
    }
    Regroup(h, a, Shr(l, k), b);
    ShrLowOf(h * a + Shr(l, k), Low(l, k), k);
  }

  /** `r * b + l < a * b` when `r < a` and `l < b`. */
  lemma MulBelow(r: nat, a: nat, l: nat, b: nat)
    requires r < a && l < b
    ensures r * b + l < a * b
  {
    MulMono(r + 1, a, b);
    Regroup(r, 1, 1, b);
  }

  /** Division of `h` by `a` carried over to `h * b + l` and divisor `a * b`. */
  lemma {:induction false} RegroupBelow(h: nat, l: nat, q: nat, r: nat, a: nat, b: nat, p: nat)
    requires h == q * a + r && p == a * b && r < a && l < b
    ensures h * b + l == q * p + (r * b + l) && r * b + l < p
  {
    Regroup(q, a, r, b);
    MulBelow(r, a, l, b);
  }

  /** `h * 2^w + l` regrouped around `2^k` with `k >= w`. */
  lemma {:induction false} ConcatAboveSplit(h: nat, l: nat, k: nat, w: nat)
    requires w <= k && l < Pow2(w)
    ensures h * Pow2(w) + l == Shr(h, k - w) * Pow2(k) + (Low(h, k - w) * Pow2(w) + l)
    ensures Low(h, k - w) * Pow2(w) + l < Pow2(k)
  {
    var a := Pow2(k - w);
    var b := Pow2(w);
    var p := Pow2(k);
    var q := Shr(h, k - w);
    var r := Low(h, k - w);
    assert p == a * b by {
      Pow2Add(k - w, w);
    }
    assert h == q * a + r && r < a by {
      ShrLowSplit(h, k - w);
    }
    RegroupBelow(h, l, q, r, a, b, p);
  }

  /** Low bits and shifts of a concatenation `h * 2^w + l`, when `k >= w`. */
  lemma {:induction false} ConcatAbove(h: nat, l: nat, k: nat, w: nat)
    requires w <= k && l < Pow2(w)
    ensures Low(h * Pow2(w) + l, k) == Low(h, k - w) * Pow2(w) + l
    ensures Shr(h * Pow2(w) + l, k) == Shr(h, k - w)
  {
    var x := h * Pow2(w) + l;
    ConcatAboveSplit(h, l, k, w);
    ShrLowOfValue(x, Shr(h, k - w), Low(h, k - w) * Pow2(w) + l, k);
  }

  /** Shifting twice is shifting by the sum. */
  lemma {:induction false} ShrShr(x: nat, a: nat, b: nat)
    ensures Shr(Shr(x, a), b) == Shr(x, a + b)
    decreases a
  {
    ShrLowStep(x, a);
    ShrLowStep(x, a + b);
    if a > 0 {
      ShrShr(x / 2, a - 1, b);
    }
  }

  /** Clear low bits stay clear when fewer bits are looked at. */
  lemma {:induction false} LowZeroMono(x: nat, j: nat, k: nat)
    requires j <= k && Low(x, k) == 0
    ensures Low(x, j) == 0
  {
    ShrLowStep(x, k);
    ShrLowStep(x, j);
    if j > 0 {
      LowZeroMono(x / 2, j - 1, k - 1);
    }
  }

  /** Adding less than `2^k` to a `k`-aligned value only fills its low bits. */
  lemma LowOfAligned(a: nat, m: nat, k: nat)
    requires Low(a, k) == 0 && m < Pow2(k)
    ensures Low(a + m, k) == m && Shr(a + m, k) == Shr(a, k)
  {
    ShrLowSplit(a, k);
    ShrLowOf(Shr(a, k), m, k);
  }

  /** The high part of a `w`-bit word has `w - k` bits. */
  lemma ShrBound(a: nat, k: nat, w: nat)
    requires k <= w && a < Pow2(w)
    ensures Shr(a, k) < Pow2(w - k)
  {
    Pow2Add(w - k, k);
    ShrLowSplit(a, k);
    if Shr(a, k) >= Pow2(w - k) {
      MulMono(Pow2(w - k), Shr(a, k), Pow2(k));
      assert false;
    }
  }

  // ---------------------------------------------------------------------
  // Bitwise operators

  datatype BitOp = AndOp | OrOp | XorOp

  function BitOf(op: BitOp, x: bool, y: bool): bool {
    match op
    case AndOp => x && y
    case OrOp => x || y
    case XorOp => x != y
  }

  /** The operator applied to the lowest bits of `a` and `b`, as 0 or 1. */
  function BitVal(op: BitOp, a: nat, b: nat): (r: nat)
    ensures r < 2
  {
    if BitOf(op, a % 2 == 1, b % 2 == 1) then 1 else 0
  }

  /** A bitwise operator applied at every bit position of two naturals. */
  function Apply(op: BitOp, a: nat, b: nat): nat
    decreases a + b
  {
    if a == 0 && b == 0 then 0
    else 2 * Apply(op, a / 2, b / 2) + BitVal(op, a, b)
  }

  function And(a: nat, b: nat): nat { Apply(AndOp, a, b) }
  function Or(a: nat, b: nat): nat { Apply(OrOp, a, b) }
  function Xor(a: nat, b: nat): nat { Apply(XorOp, a, b) }

  /** The defining equation holds for zero operands too. */
  lemma ApplyStep(op: BitOp, a: nat, b: nat)
    ensures Apply(op, a, b) == 2 * Apply(op, a / 2, b / 2) + BitVal(op, a, b)
    ensures Apply(op, a, b) / 2 == Apply(op, a / 2, b / 2)
    ensures Apply(op, a, b) % 2 == BitVal(op, a, b)
  {
    Halve(Apply(op, a / 2, b / 2), BitVal(op, a, b));
  }

  /** A bitwise operator commutes with taking the high bits. */
  lemma {:induction false} ApplyShr(op: BitOp, a: nat, b: nat, k: nat)
    ensures Shr(Apply(op, a, b), k) == Apply(op, Shr(a, k), Shr(b, k))
  {
    var x := Apply(op, a, b);
    ShrLowStep(x, k);
    ShrLowStep(a, k);
    ShrLowStep(b, k);
    if k > 0 {
      ApplyStep(op, a, b);
      ApplyShr(op, a / 2, b / 2, k - 1);
    }
  }

  /** A bitwise operator commutes with taking the low bits. */
  lemma {:induction false} ApplyLow(op: BitOp, a: nat, b: nat, k: nat)
    ensures Low(Apply(op, a, b), k) == Apply(op, Low(a, k), Low(b, k))
  {
    var x := Apply(op, a, b);
    if k > 0 {
      var la, lb := Low(a, k), Low(b, k);
      var a2, b2 := Low(a / 2, k - 1), Low(b / 2, k - 1);
      assert la == 2 * a2 + a % 2 && lb == 2 * b2 + b % 2 by {
        ShrLowStep(a, k);
        ShrLowStep(b, k);
      }
      assert la / 2 == a2 && la % 2 == a % 2 && lb / 2 == b2 && lb % 2 == b % 2 by {
        Halve(a2, a % 2);
        Halve(b2, b % 2);
      }
      assert Apply(op, la, lb) == 2 * Apply(op, a2, b2) + BitVal(op, a, b) by {
        ApplyStep(op, la, lb);
      }
      assert x / 2 == Apply(op, a / 2, b / 2) && x % 2 == BitVal(op, a, b) by {
        ApplyStep(op, a, b);
      }
      assert Low(x, k) == 2 * Low(x / 2, k - 1) + x % 2 by {
        ShrLowStep(x, k);
      }
      ApplyLow(op, a / 2, b / 2, k - 1);
    } else {
      ShrLowStep(x, k);
      ShrLowStep(a, k);
      ShrLowStep(b, k);
    }
  }

  /** A bitwise operator on the concatenation `hi * 2^k + lo` works part by part. */
  lemma ApplyConcat(op: BitOp, ah: nat, al: nat, bh: nat, bl: nat, k: nat)
    requires al < Pow2(k) && bl < Pow2(k)
    ensures Apply(op, ah * Pow2(k) + al, bh * Pow2(k) + bl)
            == Apply(op, ah, bh) * Pow2(k) + Apply(op, al, bl)
  {
    var a := ah * Pow2(k) + al;
    var b := bh * Pow2(k) + bl;
    ShrLowOf(ah, al, k);
    ShrLowOf(bh, bl, k);
    ApplyShr(op, a, b, k);
    ApplyLow(op, a, b, k);
    ShrLowSplit(Apply(op, a, b), k);
  }

  /** Bitwise operators keep a `k`-bit word a `k`-bit word. */
  lemma {:induction false} ApplyBound(op: BitOp, a: nat, b: nat, k: nat)
    requires a < Pow2(k) && b < Pow2(k)
    ensures Apply(op, a, b) < Pow2(k)
  {
    if k > 0 && (a != 0 || b != 0) {
      ApplyBound(op, a / 2, b / 2, k - 1);
    }
  }

  lemma {:induction false} ApplyZeroRight(op: BitOp, a: nat)
    ensures Apply(op, a, 0) == (if op == AndOp then 0 else a)
    decreases a
  {
    if a > 0 {
      ApplyZeroRight(op, a / 2);
    }
  }

  lemma {:induction false} ApplySame(op: BitOp, a: nat)
    ensures Apply(op, a, a) == (if op == XorOp then 0 else a)
    decreases a
  {
    if a > 0 {
      ApplySame(op, a / 2);
    }
  }

  lemma {:induction false} ApplyCommute(op: BitOp, a: nat, b: nat)
    ensures Apply(op, a, b) == Apply(op, b, a)
    decreases a + b
  {
    if a != 0 || b != 0 {
      ApplyCommute(op, a / 2, b / 2);
    }
  }

  lemma {:induction false} XorZeroMeansEqual(a: nat, b: nat)
    requires Xor(a, b) == 0
    ensures a == b
    decreases a + b
  {
    if a != 0 || b != 0 {
      XorZeroMeansEqual(a / 2, b / 2);
    }
  }

  // ---------------------------------------------------------------------
  // Masks

  /** The word with the low `k` bits set (C's `(1 << k) - 1`). */
  function LowMask(k: nat): (r: nat)
    ensures r < Pow2(k)
  {
    Pow2(k) - 1
  }

  /** The `w`-bit word with all bits set except the low `k` ones. */
  function HighMask(w: nat, k: nat): (r: nat)
    requires k <= w
    ensures r < Pow2(w)
    ensures r + LowMask(k) == LowMask(w)
  {
    Pow2Monotone(k, w);
    Pow2(w) - Pow2(k)
  }

  lemma {:induction false} AndLowMask(x: nat, k: nat)
    ensures And(x, LowMask(k)) == Low(x, k)
  {
    ShrLowStep(x, k);
    if k == 0 {
      ApplyZeroRight(AndOp, x);
    } else {
      assert LowMask(k) / 2 == LowMask(k - 1) && LowMask(k) % 2 == 1;
      ApplyStep(AndOp, x, LowMask(k));
      AndLowMask(x / 2, k - 1);
    }
  }

  lemma {:induction false} OrLowMask(x: nat, k: nat)
    ensures Or(x, LowMask(k)) == x - Low(x, k) + LowMask(k)
  {
    ShrLowStep(x, k);
    if k == 0 {
      ApplyZeroRight(OrOp, x);
    } else {
      assert LowMask(k) / 2 == LowMask(k - 1) && LowMask(k) % 2 == 1;
      ApplyStep(OrOp, x, LowMask(k));
      OrLowMask(x / 2, k - 1);
    }
  }

  lemma {:induction false} AndHighMask(x: nat, w: nat, k: nat)
    requires k <= w && x < Pow2(w)
    ensures And(x, HighMask(w, k)) == x - Low(x, k)
  {
    ShrLowStep(x, k);
    if k == 0 {
      AndLowMask(x, w);
      ShrLowSmall(x, w);
    } else {
      assert HighMask(w, k) / 2 == HighMask(w - 1, k - 1) && HighMask(w, k) % 2 == 0;
      ApplyStep(AndOp, x, HighMask(w, k));
      AndHighMask(x / 2, w - 1, k - 1);
    }
  }

  /** Two words agree from bit `k` up exactly when their xor is below `2^k`. */
  lemma {:induction false} XorBelow(a: nat, b: nat, k: nat)
    ensures Xor(a, b) < Pow2(k) <==> Shr(a, k) == Shr(b, k)
  {
    ShrLowStep(a, k);
    ShrLowStep(b, k);
    if k == 0 {
      if a == b {
        ApplySame(XorOp, a);
      } else if Xor(a, b) == 0 {
        XorZeroMeansEqual(a, b);
      }
    } else {
      ApplyStep(XorOp, a, b);
      XorBelow(a / 2, b / 2, k - 1);
    }
  }

  /** The xor of the two ends of an aligned block of `2^k` values is the low mask. */
  lemma {:induction false} XorAlignedBlock(a: nat, k: nat)
    requires Low(a, k) == 0
    ensures Xor(a, a + LowMask(k)) == LowMask(k)
  {
    ShrLowStep(a, k);
    if k == 0 {
      ApplySame(XorOp, a);
    } else {
      var b := a + LowMask(k);
      assert a % 2 == 0 && Low(a / 2, k - 1) == 0;
      assert b / 2 == a / 2 + LowMask(k - 1) && b % 2 == 1;
      ApplyStep(XorOp, a, b);
      XorAlignedBlock(a / 2, k - 1);
    }
  }

  /** An aligned block of `2^k` values: `lo` has its low bits clear, `hi` set,
      and both agree above bit `k`. */
  lemma AlignedBlock(lo: nat, hi: nat, k: nat)
    ensures (Low(lo, k) == 0 && hi == lo + LowMask(k))
            <==> (Low(lo, k) == 0 && Low(hi, k) == LowMask(k) && Shr(lo, k) == Shr(hi, k))
  {
    ShrLowSplit(lo, k);
    ShrLowSplit(hi, k);
    if Low(lo, k) == 0 && hi == lo + LowMask(k) {
      ShrLowOf(Shr(lo, k), LowMask(k), k);
    }
  }

  /** `[lo, hi]` is the aligned block of `2^k` values starting at `lo`. */
  predicate IsBlock(lo: nat, hi: nat, k: nat) {
    Low(lo, k) == 0 && hi == lo + LowMask(k)
  }

  /** The aligned block of `2^k` values at `lo` ends at or below `hi`. */
  predicate BlockFits(lo: nat, hi: nat, k: nat) {
    Low(lo, k) == 0 && lo + LowMask(k) <= hi
  }

  /** A smaller aligned block at the same start fits whenever a larger one does. */
  lemma BlockFitsMono(lo: nat, hi: nat, j: nat, k: nat)
    requires j <= k && BlockFits(lo, hi, k)
    ensures BlockFits(lo, hi, j)
  {
    LowZeroMono(lo, j, k);
    Pow2Monotone(j, k);
  }

  /** An aligned block that starts inside a `w`-bit word ends inside it. */
  lemma {:induction false} BlockEndFits(x: nat, k: nat, w: nat)
    requires k <= w && x < Pow2(w) && Low(x, k) == 0
    ensures x + LowMask(k) < Pow2(w)
  {
    var q := Shr(x, k);
    var a := Pow2(w - k);
    var b := Pow2(k);
    assert x == q * b by {
      ShrLowSplit(x, k);
    }
    assert q < a by {
      ShrBound(x, k, w);
    }
    assert Pow2(w) == a * b by {
      Pow2Add(w - k, k);
    }
    MulBelow(q, a, 0, b);
    MulMono(q + 1, a, b);
    Regroup(q, 1, 1, b);
  }

  /** The low `k` bits are the low `k - w` bits shifted up by `w`, plus the low `w`. */
  lemma {:induction false} LowMaskSplit(k: nat, w: nat)
    requires w <= k
    ensures LowMask(k) == LowMask(k - w) * Pow2(w) + LowMask(w)
  {
    Pow2Add(k - w, w);
  }

  /** The ends of a block of `2^k` values inside a `w`-bit word: one plus
      their xor, wrapped to `w` bits, is `2^k` (0 for the whole word), and
      the mask test of the prefix-length functions accepts them. */
  lemma BlockXor(lo: nat, hi: nat, k: nat, w: nat)
    requires k <= w && hi < Pow2(w) && IsBlock(lo, hi, k)
    ensures (Xor(lo, hi) + 1) % Pow2(w) == (if k == w then 0 else Pow2(k))
    ensures And(lo, LowMask(k)) == 0 && And(hi, LowMask(k)) == LowMask(k)
  {
    XorAlignedBlock(lo, k);
    AndLowMask(lo, k);
    AndLowMask(hi, k);
    LowOfAligned(lo, LowMask(k), k);
    if k < w {
      assert Pow2(k) < Pow2(w) by {
        Pow2Monotone(k + 1, w);
      }
      ModBelow(Pow2(k), Pow2(w));
    } else {
      ModSelf(Pow2(w));
    }
  }

  /** Conversely, when one plus the wrapped xor is `2^k` with `k < w`, the
      mask test accepts exactly the aligned blocks of `2^k` values. */
  lemma BlockTest(lo: nat, hi: nat, k: nat, w: nat)
    requires k < w && lo < Pow2(w) && hi < Pow2(w)
    requires (Xor(lo, hi) + 1) % Pow2(w) == Pow2(k)
    ensures IsBlock(lo, hi, k) <==> And(lo, LowMask(k)) == 0 && And(hi, LowMask(k)) == LowMask(k)
  {
    AndLowMask(lo, k);
    AndLowMask(hi, k);
    var x := Xor(lo, hi);
    assert x + 1 < Pow2(w) by {
      ApplyBound(XorOp, lo, hi, w);
      if x + 1 == Pow2(w) {
        ModSelf(Pow2(w));
        assert false;
      }
    }
    assert x < Pow2(k) by {
      ModBelow(x + 1, Pow2(w));
    }
    XorBelow(lo, hi, k);
    AlignedBlock(lo, hi, k);
  }

  // ---------------------------------------------------------------------
  // Fixed-width helpers

  /** `~x` on a `w`-bit word. */
  function Not(x: nat, w: nat): (r: nat)
    requires x < Pow2(w)
    ensures r < Pow2(w)
  {
    Pow2(w) - 1 - x
  }

  /** `Not` flips every one of the `w` bits. */
  lemma {:induction false} NotIsXorOnes(x: nat, w: nat)
    requires x < Pow2(w)
    ensures Not(x, w) == Xor(x, LowMask(w))
  {
    if w > 0 {
      assert LowMask(w) / 2 == LowMask(w - 1) && LowMask(w) % 2 == 1;
      ApplyStep(XorOp, x, LowMask(w));
      NotIsXorOnes(x / 2, w - 1);
    } else {
      ApplyZeroRight(XorOp, x);
    }
  }
}
