/** The index bookkeeping shared by the GiST `picksplit` methods of
    `ip4r.c`, `ip6r.c` and `iprange.c`.

    A page of `n` entries is addressed by the offsets `1 .. n`
    (`FirstOffsetNumber` is 1).  A split fills two offset lists with the
    `ADDLIST` macro: the entries are visited in some order, each one is
    classified against the page union, and appended to the left or right
    list.  What each family decides per entry lives in its own module; this
    one states how the lists come out. */
module Picksplit {

  /** How an entry compares with the page union: nearer its lower end,
      nearer its upper end, or exactly as near to both. */
  datatype Side = LeftSide | RightSide | Tie

  /** The two offset lists `spl_left` and `spl_right`. */
  datatype Lists = Lists(left: seq<nat>, right: seq<nat>)

  /** The entries at the given 1-based offsets. */
  function Pick<T>(es: seq<T>, offs: seq<nat>): (r: seq<T>)
    requires forall i :: 0 <= i < |offs| ==> 1 <= offs[i] <= |es|
    ensures |r| == |offs|
    ensures forall i :: 0 <= i < |offs| ==> r[i] == es[offs[i] - 1]
  {
    if |offs| == 0 then [] else [es[offs[0] - 1]] + Pick(es, offs[1..])
  }

  /** The offsets `lo, lo + 1, ..., hi - 1`. */
  function Offsets(lo: nat, hi: nat): (r: seq<nat>)
    ensures |r| == if lo <= hi then hi - lo else 0
    ensures forall i :: 0 <= i < |r| ==> r[i] == lo + i
  {
    if lo >= hi then [] else seq(hi - lo, i => lo + i)
  }

  /** Each offset of `[lo, hi)` occurs once in `Offsets(lo, hi)`, and no
      other number occurs. */
  lemma {:induction false} OffsetsCount(lo: nat, hi: nat, k: nat)
    ensures multiset(Offsets(lo, hi))[k] == if lo <= k < hi then 1 else 0
    decreases hi - lo
  {
    if lo < hi {
      OffsetsCount(lo + 1, hi, k);
      assert Offsets(lo, hi) == [lo] + Offsets(lo + 1, hi);
    }
  }

  /** Consecutive offset runs join into one. */
  lemma {:induction false} OffsetsJoin(a: nat, b: nat, c: nat)
    requires a <= b <= c
    ensures Offsets(a, b) + Offsets(b, c) == Offsets(a, c)
    ensures multiset(Offsets(a, b)) + multiset(Offsets(b, c)) == multiset(Offsets(a, c))
  {
    assert Offsets(a, b) + Offsets(b, c) == Offsets(a, c);
    assert multiset(Offsets(a, b) + Offsets(b, c)) == multiset(Offsets(a, b)) + multiset(Offsets(b, c));
  }

  /** A visiting order: every offset of the page exactly once. */
  predicate IsOrder(order: seq<nat>, n: nat) {
    multiset(order) == multiset(Offsets(1, n + 1))
  }

  /** The lists split the page: together they hold each offset once. */
  predicate Partitions(l: Lists, n: nat) {
    multiset(l.left) + multiset(l.right) == multiset(Offsets(1, n + 1))
  }

  /** What `Partitions` means offset by offset: every offset of the page is
      in exactly one list, nothing else is in either, and the list lengths
      add up to the page size. */
  lemma PartitionExact(l: Lists, n: nat, k: nat)
    requires Partitions(l, n)
    ensures 1 <= k <= n <==> k in l.left || k in l.right
    ensures !(k in l.left && k in l.right)
    ensures |l.left| + |l.right| == n
  {
    OffsetsCount(1, n + 1, k);
    assert |multiset(l.left) + multiset(l.right)| == |multiset(Offsets(1, n + 1))|;
  }

  /** The first `k` offsets go left and the rest go right. */
  function SplitAt(n: nat, k: nat): (l: Lists)
    requires k <= n
    ensures Partitions(l, n)
    ensures |l.left| == k && |l.right| == n - k
    ensures forall i :: 0 <= i < |l.left| ==> l.left[i] == 1 + i
    ensures forall i :: 0 <= i < |l.right| ==> l.right[i] == 1 + k + i
  {
    OffsetsJoin(1, 1 + k, n + 1);
    Lists(Offsets(1, 1 + k), Offsets(1 + k, n + 1))
  }

  /** The all-equal split: offsets below `split_at = 1 + n / 2` go left and
      the rest go right, so both sides get entries once there are two. */
  function Midpoint(n: nat): (l: Lists)
    ensures Partitions(l, n)
    ensures |l.left| == n / 2 && |l.right| == n - n / 2
    ensures forall i :: 0 <= i < |l.left| ==> l.left[i] == 1 + i
    ensures n >= 2 ==> |l.left| > 0 && |l.right| > 0
  {
    SplitAt(n, n / 2)
  }

  /** The `ADDLIST` loop: `order[i]` has class `sides[i]`.  Entries nearer
      the lower end go left and entries nearer the upper end go right.  A
      tie goes right in the first pass (`balance` false); in the re-split
      (`balance` true) it goes right only while the left list is longer. */
  function Place(order: seq<nat>, sides: seq<Side>, balance: bool): (l: Lists)
    requires |order| == |sides|
    ensures multiset(l.left) + multiset(l.right) == multiset(order)
  {
    if |order| == 0 then Lists([], [])
    else
      var m := |order| - 1;
      var p := Place(order[..m], sides[..m], balance);
      assert order == order[..m] + [order[m]];
      assert multiset(order) == multiset(order[..m]) + multiset{order[m]};
      if GoesLeft(sides[m], balance, |p.left|, |p.right|) then
        Lists(p.left + [order[m]], p.right)
      else
        Lists(p.left, p.right + [order[m]])
  }

  /** Entries nearer the lower end go left and entries nearer the upper
      end go right; in the first pass ties go right as well. */
  lemma {:induction false} PlaceSides(order: seq<nat>, sides: seq<Side>, balance: bool, i: nat)
    requires |order| == |sides| && i < |order|
    ensures sides[i] == LeftSide ==> order[i] in Place(order, sides, balance).left
    ensures sides[i] == RightSide ==> order[i] in Place(order, sides, balance).right
    ensures sides[i] == Tie && !balance ==> order[i] in Place(order, sides, balance).right
  {
    var m := |order| - 1;
    if i < m {
      PlaceSides(order[..m], sides[..m], balance, i);
    }
  }

  /** In a first pass over the page in offset order, an offset goes left
      exactly when its entry is nearer the lower end, and right otherwise. */
  lemma {:induction false} FirstPassSides(cls: seq<Side>, k: nat)
    requires k < |cls|
    ensures k + 1 in Place(Offsets(1, |cls| + 1), cls, false).left <==> cls[k] == LeftSide
    ensures k + 1 in Place(Offsets(1, |cls| + 1), cls, false).right <==> cls[k] != LeftSide
  {
    var n := |cls|;
    var offs := Offsets(1, n + 1);
    var l := Place(offs, cls, false);
    assert offs[k] == k + 1;
    PlaceSides(offs, cls, false, k);
    PartitionExact(l, n, k + 1);
    if cls[k] == LeftSide {
      assert k + 1 in l.left;
    } else {
      assert k + 1 in l.right;
    }
  }

  /** The side test of the `ADDLIST` loop for one entry, given the list
      lengths `posL` and `posR` so far. */
  predicate GoesLeft(side: Side, balance: bool, posL: nat, posR: nat) {
    side == LeftSide || (side == Tie && balance && !(posL > posR))
  }

  /** Some entry is nearer the lower end. */
  predicate AnyLeft(sides: seq<Side>) {
    exists i :: 0 <= i < |sides| && sides[i] == LeftSide
  }

  /** Some entry is nearer the upper end. */
  predicate AnyRight(sides: seq<Side>) {
    exists i :: 0 <= i < |sides| && sides[i] == RightSide
  }

  /** Some entry is as near to both ends. */
  predicate AnyTie(sides: seq<Side>) {
    exists i :: 0 <= i < |sides| && sides[i] == Tie
  }

  /** The first pass leaves a side empty only when no entry has that
      side's class (ties counting as right). */
  lemma PlaceFirstPass(order: seq<nat>, sides: seq<Side>)
    requires |order| == |sides|
    ensures |Place(order, sides, false).left| == 0 ==> !AnyLeft(sides)
    ensures |Place(order, sides, false).right| == 0 ==> !AnyRight(sides) && !AnyTie(sides)
  {
    if AnyLeft(sides) {
      var i :| 0 <= i < |sides| && sides[i] == LeftSide;
      PlaceSides(order, sides, false, i);
    }
    if AnyRight(sides) || AnyTie(sides) {
      var i :| 0 <= i < |sides| && sides[i] != LeftSide;
      PlaceSides(order, sides, false, i);
    }
  }

  /** In the re-split, with no entry nearer the lower end, the left list
      is empty exactly as long as no tie has been placed. */
  lemma {:induction false} ResplitLeft(order: seq<nat>, sides: seq<Side>)
    requires |order| == |sides| && !AnyLeft(sides)
    ensures |Place(order, sides, true).left| == 0 <==> !AnyTie(sides)
  {
    if |order| > 0 {
      var m := |order| - 1;
      var p := Place(order[..m], sides[..m], true);
      forall i | 0 <= i < m
        ensures sides[..m][i] != LeftSide
      {
        assert sides[i] != LeftSide;
      }
      ResplitLeft(order[..m], sides[..m]);
      if AnyTie(sides[..m]) {
        var i :| 0 <= i < m && sides[..m][i] == Tie;
        assert sides[i] == Tie;
      }
      if AnyTie(sides) && sides[m] != Tie {
        var i :| 0 <= i < |sides| && sides[i] == Tie;
        assert sides[..m][i] == Tie;
      }
    }
  }

  /** In the re-split, ties alone alternate left, right, left, ... */
  lemma {:induction false} ResplitTies(order: seq<nat>, sides: seq<Side>)
    requires |order| == |sides|
    requires forall i :: 0 <= i < |sides| ==> sides[i] == Tie
    ensures |Place(order, sides, true).left| == (|order| + 1) / 2
    ensures |Place(order, sides, true).right| == |order| / 2
  {
    if |order| > 0 {
      var m := |order| - 1;
      ResplitTies(order[..m], sides[..m]);
    }
  }

  /** The re-split of `gip4r_picksplit` and `gip6r_picksplit` fills both
      lists when no entry is nearer the lower end but one is a tie, which
      is the only way the first pass can leave a list empty. */
  lemma ResplitNonempty(order: seq<nat>, sides: seq<Side>)
    requires |order| == |sides| && |order| >= 2
    requires !AnyLeft(sides) && AnyTie(sides)
    ensures |Place(order, sides, true).left| > 0
    ensures |Place(order, sides, true).right| > 0
  {
    ResplitLeft(order, sides);
    if AnyRight(sides) {
      var i :| 0 <= i < |sides| && sides[i] == RightSide;
      PlaceSides(order, sides, true, i);
    } else {
      forall i | 0 <= i < |sides|
        ensures sides[i] == Tie
      {
        assert sides[i] != LeftSide;
      }
      ResplitTies(order, sides);
    }
  }

  /** The classes in a visiting order are the page's classes rearranged:
      with none nearer the lower end and a tie among them, the same holds
      in the new order. */
  lemma ReorderClasses(all: seq<Side>, order: seq<nat>, sides: seq<Side>, j: nat)
    requires IsOrder(order, |all|) && |sides| == |order|
    requires forall i :: 0 <= i < |order| ==> 1 <= order[i] <= |all| && sides[i] == all[order[i] - 1]
    requires !AnyLeft(all) && j < |all| && all[j] == Tie
    ensures !AnyLeft(sides) && AnyTie(sides)
  {
    forall i | 0 <= i < |order|
      ensures sides[i] != LeftSide
    {
      assert all[order[i] - 1] == sides[i];
    }
    assert j + 1 in multiset(order) by {
      OffsetsCount(1, |all| + 1, j + 1);
    }
    var i :| 0 <= i < |order| && order[i] == j + 1;
    assert sides[i] == Tie;
  }

  /** The classes of the entries at the given offsets, read off the class
      of each page entry. */
  function Select(cls: seq<Side>, offs: seq<nat>): (r: seq<Side>)
    requires InRange(offs, |cls|)
    ensures |r| == |offs|
    ensures forall i :: 0 <= i < |offs| ==> r[i] == cls[offs[i] - 1]
  {
    seq(|offs|, i requires 0 <= i < |offs| => cls[offs[i] - 1])
  }

  /** The split of `gip4r_picksplit` and `gip6r_picksplit` once the page
      is known not to be all equal, given the class of each entry (`cls[k]`
      for offset `k + 1`): a first pass over the page in offset order, and
      if that leaves a list empty, a balancing re-split in the order
      `order`. */
  function TwoPass(cls: seq<Side>, order: seq<nat>): Lists
    requires InRange(order, |cls|)
  {
    var first := Place(Offsets(1, |cls| + 1), cls, false);
    if |first.left| == 0 || |first.right| == 0 then Place(order, Select(cls, order), true)
    else first
  }

  /** Both passes place every offset once.  If some entry (`top`) is not
      nearer the lower end, and some entry (`bottom`) is a tie whenever it
      is not nearer the lower end, neither list comes out empty. */
  lemma TwoPassSpec(cls: seq<Side>, order: seq<nat>, top: nat, bottom: nat)
    requires |cls| >= 2 && IsOrder(order, |cls|)
    requires top < |cls| && cls[top] != LeftSide
    requires bottom < |cls| && (cls[bottom] != LeftSide ==> cls[bottom] == Tie)
    ensures InRange(order, |cls|)
    ensures Partitions(TwoPass(cls, order), |cls|)
    ensures |TwoPass(cls, order).left| > 0 && |TwoPass(cls, order).right| > 0
  {
    var n := |cls|;
    OrderInRange(order, n);
    var offs := Offsets(1, n + 1);
    var first := Place(offs, cls, false);
    PlaceFirstPass(offs, cls);
    assert AnyRight(cls) || AnyTie(cls) by {
      assert cls[top] == RightSide || cls[top] == Tie;
    }
    if |first.left| == 0 {
      assert cls[bottom] == Tie;
      var sides := Select(cls, order);
      ReorderClasses(cls, order, sides, bottom);
      ResplitNonempty(order, sides);
    }
  }

  /** Every offset of the list is a page offset. */
  predicate InRange(offs: seq<nat>, n: nat) {
    forall i :: 0 <= i < |offs| ==> 1 <= offs[i] <= n
  }

  /** A visiting order has one entry per page offset, and each entry is
      an offset of the page. */
  lemma OrderInRange(order: seq<nat>, n: nat)
    requires IsOrder(order, n)
    ensures InRange(order, n) && |order| == n
  {
    assert |multiset(order)| == |multiset(Offsets(1, n + 1))|;
    forall i | 0 <= i < |order|
      ensures 1 <= order[i] <= n
    {
      assert order[i] in multiset(order);
      OffsetsCount(1, n + 1, order[i]);
    }
  }

  /** Both lists hold page offsets only. */
  lemma ListsInRange(l: Lists, n: nat)
    requires Partitions(l, n)
    ensures InRange(l.left, n) && InRange(l.right, n)
  {
    forall i | 0 <= i < |l.left|
      ensures 1 <= l.left[i] <= n
    {
      PartitionExact(l, n, l.left[i]);
    }
    forall i | 0 <= i < |l.right|
      ensures 1 <= l.right[i] <= n
    {
      PartitionExact(l, n, l.right[i]);
    }
  }
}
