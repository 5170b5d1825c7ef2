/** The 32-bit range algebra of `ip4r_funcs.h`: masks, prefix detection,
    CIDR construction and splitting, bounding union and intersection, and the
    range predicates used by the operators and the GiST index. */
module Ip4rFuncs {
  import opened Bits
  import opened Wrappers

  type IP4 = u32

  /** An IPv4 range `[lower, upper]`.  Every range the extension builds is
      ordered; the type itself does not say so, hence `Valid`. */
  datatype IP4R = IP4R(lower: IP4, upper: IP4) {

    predicate Valid() {
      lower <= upper
    }

    /** The meaning of a range: the set of addresses it holds. */
    predicate Has(x: nat) {
      lower <= x <= upper
    }
  }

  /** `[lo, hi]` is exactly the CIDR block `lo/n` (section 3.1 of RFC 4632). */
  predicate IsCidr(lo: nat, hi: nat, n: nat) {
    n <= 32 && Low(lo, 32 - n) == 0 && hi == lo + LowMask(32 - n)
  }

  lemma MaskFits(k: nat)
    requires k <= 32
    ensures LowMask(k) <= MAX32 && Pow2(k) <= TWO32
  {
    Pow2Of32();
    Pow2Monotone(k, 32);
  }

  lemma PowBelow32(k: nat)
    requires k < 32
    ensures Pow2(k) < TWO32 && Pow2(k) % TWO32 == Pow2(k)
  {
    Pow2Of32();
    Pow2Monotone(k + 1, 32);
  }

  // ---------------------------------------------------------------------
  // Masks

  /** `hostmask`: the low `32 - len` bits set; length 0 is special-cased. */
  function Hostmask(len: nat): (r: IP4)
    requires len <= 32
    ensures r == LowMask(32 - len)
  {
    MaskFits(32 - len);
    Pow2Of32();
    if len != 0 then LowMask(32 - len) else MAX32
  }

  /** `~x` on a 32-bit word. */
  function Not32(x: IP4): (r: IP4)
    ensures r == MAX32 - x
  {
    Pow2Of32();
    Not(x, 32)
  }

  /** `netmask`: the complement of the host mask. */
  function Netmask(len: nat): (r: IP4)
    requires len <= 32
    ensures r + Hostmask(len) == MAX32
  {
    Not32(Hostmask(len))
  }

  /** The host mask selects the low bits and the net mask the high bits. */
  lemma MaskBits(x: IP4, len: nat)
    requires len <= 32
    ensures And(x, Hostmask(len)) == Low(x, 32 - len)
    ensures Or(x, Hostmask(len)) == x - Low(x, 32 - len) + LowMask(32 - len)
    ensures Netmask(len) == HighMask(32, 32 - len)
    ensures And(x, Netmask(len)) == x - Low(x, 32 - len)
  {
    Pow2Of32();
    AndLowMask(x, 32 - len);
    OrLowMask(x, 32 - len);
    AndHighMask(x, 32, 32 - len);
  }

  /** Bitwise operators keep 32-bit words 32-bit words. */
  lemma Bound32(op: BitOp, a: IP4, b: IP4)
    ensures Apply(op, a, b) <= MAX32
  {
    Pow2Of32();
    ApplyBound(op, a, b, 32);
  }

  // ---------------------------------------------------------------------
  // Prefix length detection

  /** `masklen`: the prefix length when `[lo, hi]` is a CIDR block, else
      `None` (C's `~0`).  It inspects `(lo ^ hi) + 1`, which wraps to 0 for
      the whole space, and rechecks the candidate length with masks. */
  function Masklen(lo: IP4, hi: IP4): Option<nat> {
    Pow2Of32();
    var d := (Xor(lo, hi) + 1) % TWO32;
    var fbit := Ffs(d);
    if fbit == 0 then
      if lo == 0 && hi == MAX32 then Some(0) else None
    else if fbit == 1 then
      if lo == hi then Some(32) else None
    else if Pow2(fbit - 1) == d then
      FfsBound(d, 32);
      var mask := Hostmask(33 - fbit);
      if And(lo, mask) == 0 && And(hi, mask) == mask then Some(33 - fbit) else None
    else
      None
  }

  /** `masklen` finds a length exactly when the range is that CIDR block. */
  lemma MasklenIsCidr(lo: IP4, hi: IP4, n: nat)
    ensures Masklen(lo, hi) == Some(n) <==> IsCidr(lo, hi, n)
  {
    if IsCidr(lo, hi, n) {
      MasklenOfCidr(lo, hi, n);
    }
    if Masklen(lo, hi) == Some(n) {
      CidrOfMasklen(lo, hi, n);
    }
  }

  lemma MasklenOfCidr(lo: IP4, hi: IP4, n: nat)
    requires IsCidr(lo, hi, n)
    ensures Masklen(lo, hi) == Some(n)
  {
    var k := 32 - n;
    if k == 32 {
      MasklenWhole(lo, hi);
    } else if k == 0 {
      MasklenSingle(lo, hi);
    } else {
      MasklenBlock(lo, hi, k);
    }
  }

  // Each of the four branches of `masklen`, stated on its own so that proofs
  // about one branch need not unfold the others.

  lemma MasklenZeroCase(lo: IP4, hi: IP4)
    requires Ffs((Xor(lo, hi) + 1) % TWO32) == 0
    ensures Masklen(lo, hi) == if lo == 0 && hi == MAX32 then Some(0) else None
  {
  }

  lemma MasklenOneCase(lo: IP4, hi: IP4)
    requires Ffs((Xor(lo, hi) + 1) % TWO32) == 1
    ensures Masklen(lo, hi) == if lo == hi then Some(32) else None
  {
  }

  lemma MasklenPowCase(lo: IP4, hi: IP4, k: nat)
    requires 0 < k < 32
    requires var d := (Xor(lo, hi) + 1) % TWO32; Ffs(d) == k + 1 && d == Pow2(k)
    ensures Masklen(lo, hi) ==
              var mask := Hostmask(32 - k);
              if And(lo, mask) == 0 && And(hi, mask) == mask then Some(32 - k) else None
  {
    Pow2Of32();
    FfsBound((Xor(lo, hi) + 1) % TWO32, 32);
  }

  lemma MasklenWhole(lo: IP4, hi: IP4)
    requires IsCidr(lo, hi, 0)
    ensures Masklen(lo, hi) == Some(0)
  {
    assert Ffs((Xor(lo, hi) + 1) % TWO32) == 0 by {
      WholeSpace(lo, hi);
      FfsZero();
    }
    MasklenZeroCase(lo, hi);
    WholeSpace(lo, hi);
  }

  lemma MasklenSingle(lo: IP4, hi: IP4)
    requires IsCidr(lo, hi, 32)
    ensures Masklen(lo, hi) == Some(32)
  {
    assert Ffs((Xor(lo, hi) + 1) % TWO32) == 1 by {
      XorAlignedBlock(lo, 0);
      FfsPow2(0);
    }
    MasklenOneCase(lo, hi);
  }

  lemma MasklenBlock(lo: IP4, hi: IP4, k: nat)
    requires 0 < k < 32 && IsCidr(lo, hi, 32 - k)
    ensures Masklen(lo, hi) == Some(32 - k)
  {
    var n := 32 - k;
    var d := (Xor(lo, hi) + 1) % TWO32;
    assert d == Pow2(k) by {
      XorAlignedBlock(lo, k);
      PowBelow32(k);
    }
    assert Ffs(d) == k + 1 by {
      FfsPow2(k);
    }
    assert And(lo, Hostmask(n)) == 0 && And(hi, Hostmask(n)) == Hostmask(n) by {
      MaskBits(lo, n);
      MaskBits(hi, n);
      LowOfAligned(lo, LowMask(k), k);
    }
    MasklenPowCase(lo, hi, k);
  }

  /** The only /0 block is the whole address space. */
  lemma WholeSpace(lo: IP4, hi: IP4)
    requires IsCidr(lo, hi, 0)
    ensures lo == 0 && hi == MAX32 && (Xor(lo, hi) + 1) % TWO32 == 0
  {
    Pow2Of32();
    ShrLowSmall(lo, 32);
    XorAlignedBlock(lo, 32);
  }

  lemma WholeSpaceIsCidr()
    ensures IsCidr(0, MAX32, 0)
  {
    Pow2Of32();
    ShrLowSmall(0, 32);
  }

  lemma CidrOfMasklen(lo: IP4, hi: IP4, n: nat)
    requires Masklen(lo, hi) == Some(n)
    ensures IsCidr(lo, hi, n)
  {
    var d := (Xor(lo, hi) + 1) % TWO32;
    var fbit := Ffs(d);
    if fbit == 0 {
      MasklenZeroCase(lo, hi);
      assert lo == 0 && hi == MAX32 && n == 0;
      WholeSpaceIsCidr();
    } else if fbit == 1 {
      MasklenOneCase(lo, hi);
      assert lo == hi && n == 32;
      ShrLowStep(lo, 0);
    } else if Pow2(fbit - 1) != d {
      MasklenOtherCase(lo, hi);
      assert false;
    } else {
      var k := fbit - 1;
      assert k < 32 by {
        Pow2Of32();
        FfsBound(d, 32);
      }
      MasklenPowCase(lo, hi, k);
      CidrOfPowCase(lo, hi, k);
    }
  }

  lemma MasklenOtherCase(lo: IP4, hi: IP4)
    requires var d := (Xor(lo, hi) + 1) % TWO32; Ffs(d) > 1 && Pow2(Ffs(d) - 1) != d
    ensures Masklen(lo, hi).None?
  {
  }

  /** The mask test of the power-of-two branch accepts exactly a block. */
  lemma CidrOfPowCase(lo: IP4, hi: IP4, k: nat)
    requires 0 < k < 32 && (Xor(lo, hi) + 1) % TWO32 == Pow2(k)
    requires And(lo, Hostmask(32 - k)) == 0 && And(hi, Hostmask(32 - k)) == Hostmask(32 - k)
    ensures IsCidr(lo, hi, 32 - k)
  {
    MaskBits(lo, 32 - k);
    MaskBits(hi, 32 - k);
    XorBelowPow(lo, hi, k);
    AlignedBlock(lo, hi, k);
  }

  /** When `(lo ^ hi) + 1` is `2^k`, `lo` and `hi` agree above bit `k`. */
  lemma XorBelowPow(lo: IP4, hi: IP4, k: nat)
    requires k < 32 && (Xor(lo, hi) + 1) % TWO32 == Pow2(k)
    ensures Shr(lo, k) == Shr(hi, k)
  {
    assert Xor(lo, hi) < Pow2(k) by {
      Bound32(XorOp, lo, hi);
      PowBelow32(k);
    }
    XorBelow(lo, hi, k);
  }

  /** A CIDR block has one prefix length. */
  lemma CidrUnique(lo: nat, hi: nat, n: nat, m: nat)
    requires IsCidr(lo, hi, n) && IsCidr(lo, hi, m)
    ensures n == m
  {
    if n < m {
      Pow2Monotone(32 - m + 1, 32 - n);
      assert false;
    } else if m < n {
      Pow2Monotone(32 - n + 1, 32 - m);
      assert false;
    }
  }

  // ---------------------------------------------------------------------
  // Netmask validation

  /** `ip4_valid_netmask`: `~mask + 1` must be zero or a power of two. */
  function ValidNetmask(mask: IP4): bool {
    var d := (Not32(mask) + 1) % TWO32;
    var fbit := Ffs(d);
    if fbit == 0 then true else Pow2(fbit - 1) == d
  }

  /** The valid netmasks are exactly the `netmask(n)` values. */
  lemma ValidNetmaskIff(mask: IP4)
    ensures ValidNetmask(mask) <==> exists n: nat :: n <= 32 && mask == Netmask(n)
  {
    if ValidNetmask(mask) {
      ValidNetmaskIsNetmask(mask);
    }
    if exists n: nat :: n <= 32 && mask == Netmask(n) {
      var n: nat :| n <= 32 && mask == Netmask(n);
      NetmaskIsValid(n);
    }
  }

  lemma ValidNetmaskIsNetmask(mask: IP4)
    requires ValidNetmask(mask)
    ensures exists n: nat :: n <= 32 && mask == Netmask(n)
  {
    var d := (Not32(mask) + 1) % TWO32;
    var fbit := Ffs(d);
    if fbit == 0 {
      NetmaskOfZero(mask);
      assert 0 <= 32 && mask == Netmask(0);
    } else {
      assert fbit - 1 < 32 by {
        Pow2Of32();
        FfsBound(d, 32);
      }
      NetmaskOfPow(mask, fbit - 1);
      assert 33 - fbit <= 32 && mask == Netmask(33 - fbit);
    }
  }

  lemma NetmaskOfZero(mask: IP4)
    requires (Not32(mask) + 1) % TWO32 == 0
    ensures mask == Netmask(0)
  {
    Pow2Of32();
  }

  lemma NetmaskOfPow(mask: IP4, k: nat)
    requires k < 32 && (Not32(mask) + 1) % TWO32 == Pow2(k)
    ensures mask == Netmask(32 - k)
  {
    Pow2Of32();
    PowBelow32(k);
  }

  lemma NetmaskIsValid(n: nat)
    requires n <= 32
    ensures ValidNetmask(Netmask(n))
  {
    Pow2Of32();
    var d := (Not32(Netmask(n)) + 1) % TWO32;
    assert Not32(Netmask(n)) + 1 == Pow2(32 - n);
    if n > 0 {
      PowBelow32(32 - n);
      assert d == Pow2(32 - n);
      FfsPow2(32 - n);
    } else {
      assert d == 0;
      FfsZero();
    }
  }

  // ---------------------------------------------------------------------
  // Building ranges from prefixes

  /** `ip4r_from_cidr`: the block `prefix/len`, refused when the length is
      over 32 or the prefix has host bits set. */
  function FromCidr(prefix: IP4, len: nat): Option<IP4R> {
    if len > 32 then None
    else
      var mask := Hostmask(len);
      if And(prefix, mask) != 0 then None
      else
        Bound32(OrOp, prefix, mask);
        Some(IP4R(prefix, Or(prefix, mask)))
  }

  lemma FromCidrSpec(prefix: IP4, len: nat)
    ensures FromCidr(prefix, len).Some? <==> len <= 32 && Low(prefix, 32 - len) == 0
    ensures FromCidr(prefix, len).Some? ==>
              var r := FromCidr(prefix, len).value;
              r.lower == prefix && IsCidr(r.lower, r.upper, len)
              && Masklen(r.lower, r.upper) == Some(len)
  {
    if len <= 32 {
      MaskBits(prefix, len);
      var r := FromCidr(prefix, len);
      if r.Some? {
        MasklenIsCidr(r.value.lower, r.value.upper, len);
      }
    }
  }

  /** `ip4r_from_inet`: the block of length `len` around `addr`. */
  function FromInet(addr: IP4, len: nat): Option<IP4R> {
    if len > 32 then None
    else
      var mask := Hostmask(len);
      Pow2Of32();
      Bound32(AndOp, addr, Not32(mask));
      Bound32(OrOp, addr, mask);
      Some(IP4R(And(addr, Not32(mask)), Or(addr, mask)))
  }

  lemma FromInetSpec(addr: IP4, len: nat)
    ensures FromInet(addr, len).Some? <==> len <= 32
    ensures FromInet(addr, len).Some? ==>
              var r := FromInet(addr, len).value;
              r.Has(addr) && IsCidr(r.lower, r.upper, len)
              && r.lower == addr - Low(addr, 32 - len)
  {
    if len <= 32 {
      MaskBits(addr, len);
      Pow2Of32();
      assert Not32(Hostmask(len)) == Netmask(len);
      var lo := addr - Low(addr, 32 - len);
      assert Low(lo, 32 - len) == 0 by {
        ShrLowSplit(addr, 32 - len);
        ShrLowOf(Shr(addr, 32 - len), 0, 32 - len);
      }
    }
  }

  // ---------------------------------------------------------------------
  // CIDR splitting

  /** The result of one `ip4r_split_cidr` call: whether the range was already
      a CIDR block, the block emitted, and what remains of the range. */
  datatype SplitStep = SplitStep(done: bool, piece: IP4R, rest: IP4R)

  /** One turn of the loop test `(lo & mask) == 0 && (lo | mask) <= hi`. */
  lemma LoopTest(lo: IP4, hi: IP4, j: nat)
    requires j <= 32
    ensures (And(lo, LowMask(j)) == 0 && Or(lo, LowMask(j)) <= hi) <==> BlockFits(lo, hi, j)
  {
    MaskBits(lo, 32 - j);
  }

  /** The doubling loop of `ip4r_split_cidr`: starting from a block of
      `2^j` addresses that fits, try `mask = 2^(j+1) - 1` and so on.  It
      stops before the mask covers the whole word because the range is not
      a CIDR block. */
  function GrowBlock(lo: IP4, hi: IP4, j: nat): (k: nat)
    requires Masklen(lo, hi).None?
    requires j < 32 && BlockFits(lo, hi, j)
    ensures j <= k < 32 && BlockFits(lo, hi, k) && !BlockFits(lo, hi, k + 1)
    decreases 32 - j
  {
    var mask := LowMask(j + 1);
    LoopTest(lo, hi, j + 1);
    if And(lo, mask) == 0 && Or(lo, mask) <= hi then
      GrowFits(lo, hi, j + 1);
      GrowBlock(lo, hi, j + 1)
    else
      j
  }

  lemma GrowFits(lo: IP4, hi: IP4, j: nat)
    requires Masklen(lo, hi).None? && j <= 32 && BlockFits(lo, hi, j)
    ensures j < 32
  {
    if j == 32 {
      Pow2Of32();
      ShrLowSmall(lo, 32);
      MasklenIsCidr(lo, hi, 0);
    }
  }

  /** `ip4r_split_cidr` on an ordered range. */
  function SplitCidr(val: IP4R): SplitStep
    requires val.Valid()
  {
    var lo := val.lower;
    var hi := val.upper;
    if Masklen(lo, hi).Some? then SplitStep(true, val, val)
    else
      ShrLowStep(lo, 0);
      var j := GrowBlock(lo, hi, 0);
      var mask := LowMask(j);
      LoopTest(lo, hi, j);
      Bound32(OrOp, lo, mask);
      var top := Or(lo, mask);
      SplitStep(false, IP4R(lo, top), IP4R((top + 1) % TWO32, hi))
  }

  /** A range is returned whole, with `true`, exactly when it is a CIDR block;
      otherwise the piece is the largest CIDR block starting at `lower` that
      fits, and the rest starts right after it. */
  lemma SplitCidrSpec(val: IP4R)
    requires val.Valid()
    ensures var s := SplitCidr(val);
            && (s.done <==> Masklen(val.lower, val.upper).Some?)
            && (s.done ==> s.piece == val)
            && (!s.done ==>
                  && s.piece.lower == val.lower
                  && s.piece.Valid()
                  && s.piece.upper < val.upper
                  && Masklen(s.piece.lower, s.piece.upper).Some?
                  && s.rest == IP4R(s.piece.upper + 1, val.upper)
                  && (forall n: nat, u: nat ::
                        IsCidr(val.lower, u, n) && u <= val.upper ==> u <= s.piece.upper))
  {
    var lo, hi := val.lower, val.upper;
    if Masklen(lo, hi).None? {
      ShrLowStep(lo, 0);
      var j := GrowBlock(lo, hi, 0);
      SplitUnfold(val);
      var sp := SplitCidr(val);
      PieceSpec(lo, hi, j, sp.piece, sp.rest);
    }
  }

  /** The piece the loop settles on, and what is left after it. */
  lemma PieceSpec(lo: IP4, hi: IP4, j: nat, piece: IP4R, rest: IP4R)
    requires j < 32 && BlockFits(lo, hi, j) && !BlockFits(lo, hi, j + 1) && lo + LowMask(j) < hi
    requires piece == IP4R(lo, lo + LowMask(j)) && rest == IP4R(lo + LowMask(j) + 1, hi)
    ensures piece.lower == lo && piece.Valid() && piece.upper < hi
    ensures Masklen(piece.lower, piece.upper).Some?
    ensures rest == IP4R(piece.upper + 1, hi)
    ensures forall n: nat, u: nat :: IsCidr(lo, u, n) && u <= hi ==> u <= piece.upper
  {
    PieceIsCidr(lo, hi, j);
    PieceMaximal(lo, hi, j);
  }

  /** The step taken on a range that is not a CIDR block, in terms of the
      block size the loop settles on. */
  lemma SplitUnfold(val: IP4R)
    requires val.Valid() && Masklen(val.lower, val.upper).None?
    ensures BlockFits(val.lower, val.upper, 0)
    ensures var j := GrowBlock(val.lower, val.upper, 0);
            var top := val.lower + LowMask(j);
            top < val.upper
            && SplitCidr(val) == SplitStep(false, IP4R(val.lower, top), IP4R(top + 1, val.upper))
  {
    var lo, hi := val.lower, val.upper;
    ShrLowStep(lo, 0);
    var j := GrowBlock(lo, hi, 0);
    var top := Or(lo, LowMask(j));
    NotCidr(lo, hi, 32 - j);
    PieceEnd(lo, hi, j);
    assert top == lo + LowMask(j) < hi;
    ModBelow(top + 1, TWO32);
  }

  /** A range `masklen` rejects is no CIDR block. */
  lemma NotCidr(lo: IP4, hi: IP4, n: nat)
    requires Masklen(lo, hi).None?
    ensures !IsCidr(lo, hi, n)
  {
    MasklenIsCidr(lo, hi, n);
  }

  /** The block the loop settles on ends strictly below `hi`. */
  lemma PieceEnd(lo: IP4, hi: IP4, j: nat)
    requires j < 32 && BlockFits(lo, hi, j) && !IsCidr(lo, hi, 32 - j)
    ensures Or(lo, LowMask(j)) == lo + LowMask(j) < hi
  {
    MaskBits(lo, 32 - j);
  }

  /** The block the loop settles on is a CIDR block. */
  lemma PieceIsCidr(lo: IP4, hi: IP4, j: nat)
    requires j < 32 && BlockFits(lo, hi, j)
    ensures lo + LowMask(j) <= MAX32
    ensures Masklen(lo, lo + LowMask(j)) == Some(32 - j)
  {
    MasklenIsCidr(lo, lo + LowMask(j), 32 - j);
  }

  /** No CIDR block starting at `lo` and ending later than the loop's block
      fits below `hi`. */
  lemma PieceMaximal(lo: IP4, hi: IP4, j: nat)
    requires j < 32 && !BlockFits(lo, hi, j + 1)
    ensures forall n: nat, u: nat :: IsCidr(lo, u, n) && u <= hi ==> u <= lo + LowMask(j)
  {
    forall n: nat, u: nat | IsCidr(lo, u, n) && u <= hi
      ensures u <= lo + LowMask(j)
    {
      if 32 - n > j {
        BlockFitsMono(lo, hi, j + 1, 32 - n);
        assert false;
      }
      Pow2Monotone(32 - n, j);
    }
  }

  /** The remainder of a split is a smaller ordered range. */
  lemma SplitProgress(val: IP4R)
    requires val.Valid()
    ensures !SplitCidr(val).done ==>
              SplitCidr(val).rest.Valid()
              && SplitCidr(val).rest.upper - SplitCidr(val).rest.lower < val.upper - val.lower
  {
    SplitCidrSpec(val);
    var s := SplitCidr(val);
    if !s.done {
      assert s.rest.lower > val.lower;
    }
  }

  /** The pieces `ip4r_cidr_split` produces by calling the step until done. */
  function SplitAll(val: IP4R): (r: seq<IP4R>)
    requires val.Valid()
    decreases val.upper - val.lower
  {
    SplitProgress(val);
    var s := SplitCidr(val);
    if s.done then [val] else [s.piece] + SplitAll(s.rest)
  }

  /** `pieces` are CIDR blocks laid end to end from `lo` to `hi`. */
  predicate Tiles(pieces: seq<IP4R>, lo: nat, hi: nat) {
    && |pieces| > 0
    && pieces[0].lower == lo
    && pieces[|pieces| - 1].upper == hi
    && (forall i :: 0 <= i < |pieces| ==>
          pieces[i].Valid() && Masklen(pieces[i].lower, pieces[i].upper).Some?)
    && (forall i :: 0 <= i < |pieces| - 1 ==> pieces[i + 1].lower == pieces[i].upper + 1)
  }

  /** Splitting terminates and tiles the range with ascending CIDR blocks. */
  lemma {:induction false} SplitAllTiles(val: IP4R)
    requires val.Valid()
    ensures Tiles(SplitAll(val), val.lower, val.upper)
    decreases val.upper - val.lower
  {
    SplitCidrSpec(val);
    var s := SplitCidr(val);
    if s.done {
      MasklenIsCidr(val.lower, val.upper, Masklen(val.lower, val.upper).value);
    } else {
      var m := Masklen(s.piece.lower, s.piece.upper).value;
      MasklenIsCidr(s.piece.lower, s.piece.upper, m);
      SplitAllTiles(s.rest);
    }
  }

  /** Adjacent pieces cover exactly the addresses of the tiled range, and
      each address lies in one piece only. */
  lemma {:induction false} TilesCover(pieces: seq<IP4R>, lo: nat, hi: nat, x: nat)
    requires Tiles(pieces, lo, hi)
    ensures lo <= x <= hi <==> exists i :: 0 <= i < |pieces| && pieces[i].Has(x)
    ensures forall i, k :: 0 <= i < k < |pieces| ==> pieces[i].upper < pieces[k].lower
    decreases |pieces|
  {
    if |pieces| > 1 {
      var tail := pieces[1..];
      assert Tiles(tail, pieces[1].lower, hi);
      TilesCover(tail, pieces[1].lower, hi, x);
      if lo <= x <= hi && !pieces[0].Has(x) {
        var i :| 0 <= i < |tail| && tail[i].Has(x);
        assert pieces[i + 1].Has(x);
      }
      forall i, k | 0 <= i < k < |pieces|
        ensures pieces[i].upper < pieces[k].lower
      {
        if i > 0 {
          assert tail[i - 1].upper < tail[k - 1].lower;
        } else if k > 1 {
          assert tail[0].upper < tail[k - 1].lower;
        }
      }
      if exists i :: 0 <= i < |pieces| && pieces[i].Has(x) {
        var i :| 0 <= i < |pieces| && pieces[i].Has(x);
        if i > 0 {
          assert tail[i - 1].Has(x);
        }
      }
    }
  }

  // ---------------------------------------------------------------------
  // Union, intersection and the range predicates

  /** `c` covers every address of `a`. */
  predicate Encloses(c: IP4R, a: IP4R) {
    c.lower <= a.lower && a.upper <= c.upper
  }

  /** `ip4r_union_internal`: the smallest range enclosing both. */
  function Union(a: IP4R, b: IP4R): (r: IP4R)
    ensures Encloses(r, a) && Encloses(r, b)
    ensures forall c: IP4R :: Encloses(c, a) && Encloses(c, b) ==> Encloses(c, r)
  {
    var lower := if a.lower < b.lower then a.lower else b.lower;
    var upper := if a.upper > b.upper then a.upper else b.upper;
    IP4R(lower, upper)
  }

  /** `ip4r_inter_internal`: NULL for disjoint ranges, else the overlap. */
  function Inter(a: IP4R, b: IP4R): (r: Option<IP4R>)
    ensures a.Valid() && b.Valid() ==>
              (r.None? <==> forall x: nat :: !(a.Has(x) && b.Has(x)))
    ensures r.Some? ==> r.value.Valid() || !(a.Valid() && b.Valid())
    ensures r.Some? ==> forall x: nat :: r.value.Has(x) <==> a.Has(x) && b.Has(x)
  {
    if a.upper < b.lower || a.lower > b.upper then None
    else
      var upper := if a.upper < b.upper then a.upper else b.upper;
      var lower := if a.lower > b.lower then a.lower else b.lower;
      assert a.Valid() && b.Valid() ==> a.Has(lower) && b.Has(lower);
      Some(IP4R(lower, upper))
  }

  predicate Equal(a: IP4R, b: IP4R) {
    a.lower == b.lower && a.upper == b.upper
  }

  /** `ip4r_lessthan`: lexicographic on `(lower, upper)`. */
  predicate LessThan(a: IP4R, b: IP4R) {
    if a.lower == b.lower then a.upper < b.upper else a.lower < b.lower
  }

  /** `ip4r_less_eq`. */
  predicate LessEq(a: IP4R, b: IP4R) {
    if a.lower == b.lower then a.upper <= b.upper else a.lower < b.lower
  }

  /** The range order is a strict total order and `less_eq` is its reflexive closure. */
  lemma RangeOrder(a: IP4R, b: IP4R, c: IP4R)
    ensures Equal(a, b) <==> a == b
    ensures !LessThan(a, a)
    ensures LessThan(a, b) && LessThan(b, c) ==> LessThan(a, c)
    ensures LessThan(a, b) || a == b || LessThan(b, a)
    ensures !(LessThan(a, b) && LessThan(b, a))
    ensures LessEq(a, b) <==> LessThan(a, b) || a == b
  {
  }

  /** `ip4r_contains_internal`: `eqval` on equal ranges, else containment. */
  function ContainsInternal(left: IP4R, right: IP4R, eqval: bool): (r: bool)
    ensures left.Valid() && right.Valid() ==>
              (r <==> if left == right then eqval
                      else forall x: nat :: right.Has(x) ==> left.Has(x))
  {
    if Equal(left, right) then eqval
    else if left.lower <= right.lower && left.upper >= right.upper then true
    else
      assert right.Valid() ==> right.Has(right.lower) && right.Has(right.upper);
      false
  }

  /** `ip4r_overlaps_internal`. */
  function Overlaps(left: IP4R, right: IP4R): (r: bool)
    ensures left.Valid() && right.Valid() ==>
              (r <==> exists x: nat :: left.Has(x) && right.Has(x))
  {
    if left.upper >= right.lower && left.lower <= right.upper then
      var x := if left.lower < right.lower then right.lower else left.lower;
      assert left.Valid() && right.Valid() ==> left.Has(x) && right.Has(x);
      true
    else
      false
  }

  lemma OverlapsSymmetric(a: IP4R, b: IP4R)
    ensures Overlaps(a, b) == Overlaps(b, a)
  {
  }

  /** `ip4_contains_internal`: the range holds the address. */
  predicate ContainsIp(left: IP4R, ip: IP4) {
    left.lower <= ip && left.upper >= ip
  }

  /** `ip4r_left_internal`: every address of `left` is below every address of `right`. */
  function LeftOf(left: IP4R, right: IP4R): (r: bool)
    ensures left.Valid() && right.Valid() ==>
              (r <==> forall x: nat, y: nat :: left.Has(x) && right.Has(y) ==> x < y)
  {
    if left.upper < right.lower then true
    else
      assert left.Valid() && right.Valid() ==> left.Has(left.upper) && right.Has(right.lower);
      false
  }

  /** `ip4r_extends_left_of_internal`. */
  function ExtendsLeftOf(left: IP4R, right: IP4R): (r: bool)
    ensures left.Valid() ==> (r <==> exists x: nat :: left.Has(x) && x < right.lower)
  {
    if left.lower < right.lower then
      assert left.Valid() ==> left.Has(left.lower);
      true
    else
      false
  }

  /** `ip4r_extends_right_of_internal`. */
  function ExtendsRightOf(left: IP4R, right: IP4R): (r: bool)
    ensures left.Valid() ==> (r <==> exists x: nat :: left.Has(x) && x > right.upper)
  {
    if left.upper > right.upper then
      assert left.Valid() ==> left.Has(left.upper);
      true
    else
      false
  }
}
