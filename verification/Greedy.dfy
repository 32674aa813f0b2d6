/** kernel/extent_alloc.c, the choice the allocation loop makes: whole extents in tree order
    until the target is met, the list is exhausted, or the file's extent slots are full. */
module Greedy {
  import opened Types
  import opened ExtentOrder

  /** How many extents the loop takes from `free` for `target` blocks with `slots` slots left. */
  function TakeCount(free: seq<Extent>, target: nat, slots: nat): (k: nat)
    ensures k <= |free| && k <= slots
  {
    if free == [] || slots == 0 then 0
    else if free[0].length >= target then 1
    else 1 + TakeCount(free[1..], target - free[0].length, slots - 1)
  }

  lemma TotalLengthPrepend(e: Extent, s: seq<Extent>)
    ensures TotalLength([e] + s) == e.length + TotalLength(s)
  {
    TotalLengthConcat([e], s);
    assert TotalLength([e]) == TotalLength([]) + e.length;
  }

  /** The loop stops as soon as the target is met, and gives up only for want of extents or
      of slots. */
  lemma {:induction false} TakeStops(free: seq<Extent>, target: nat, slots: nat)
    requires target > 0
    ensures var k := TakeCount(free, target, slots);
      && (forall j: nat | j < k :: TotalLength(free[..j]) < target)
      && (TotalLength(free[..k]) < target ==> k == |free| || k == slots)
  {
    var k := TakeCount(free, target, slots);
    if free != [] && slots > 0 {
      var e, rest := free[0], free[1..];
      if e.length < target {
        TakeStops(rest, target - e.length, slots - 1);
      }
      forall j: nat | 0 < j <= k
        ensures TotalLength(free[..j]) == e.length + TotalLength(rest[..j - 1])
      {
        assert free[..j] == [e] + rest[..j - 1];
        TotalLengthPrepend(e, rest[..j - 1]);
      }
    }
  }

  lemma {:induction false} PrefixGrows(s: seq<Extent>, i: nat, j: nat)
    requires i <= j <= |s|
    ensures TotalLength(s[..i]) <= TotalLength(s[..j])
  {
    if i < j {
      PrefixGrows(s, i, j - 1);
      assert s[..j][..j - 1] == s[..j - 1];
    }
  }

  /** The loop's own test for going on to extent `p`: there is one, a slot is left for it, and
      the extents before it hold less than the target. */
  predicate Reaches(free: seq<Extent>, target: nat, slots: nat, p: nat) {
    p < |free| && p < slots && TotalLength(free[..p]) < target
  }

  /** An extent is taken exactly when the loop's test holds for it. */
  lemma TakenIff(free: seq<Extent>, target: nat, slots: nat, p: nat)
    requires target > 0
    ensures p < TakeCount(free, target, slots) <==> Reaches(free, target, slots, p)
  {
    var k := TakeCount(free, target, slots);
    TakeStops(free, target, slots);
    if k <= p < |free| {
      PrefixGrows(free, k, p);
    }
  }

  /** The target is met exactly when all the extents there are slots for hold it. */
  lemma MeetsIff(free: seq<Extent>, target: nat, slots: nat)
    requires target > 0
    ensures TotalLength(free[..TakeCount(free, target, slots)]) >= target
            <==> TotalLength(free[..if |free| <= slots then |free| else slots]) >= target
  {
    TakeStops(free, target, slots);
    PrefixGrows(free, TakeCount(free, target, slots), if |free| <= slots then |free| else slots);
  }

  /** On success the blocks taken are at least the target and exceed it by less than one
      full extent. */
  lemma Overshoot(free: seq<Extent>, target: nat, slots: nat)
    requires target > 0 && forall e | e in free :: e.length <= MAX_EXTENT_LENGTH
    ensures var sum := TotalLength(free[..TakeCount(free, target, slots)]);
      sum >= target ==> sum <= target + MAX_EXTENT_LENGTH - 1
  {
    var k := TakeCount(free, target, slots);
    TakeStops(free, target, slots);
    if k > 0 {
      assert free[..k][..k - 1] == free[..k - 1];
      assert free[k - 1] in free;
    }
  }

  // ---------------------------------------------------------------- optimality

  /** How many extents a choice picks, and how many blocks they hold. `pick[i]` says whether
      the i-th extent is chosen; every subset of the list is some choice. */
  function Picked(pick: seq<bool>): nat {
    if pick == [] then 0 else (if pick[0] then 1 else 0) + Picked(pick[1..])
  }

  function PickedLength(free: seq<Extent>, pick: seq<bool>): nat
    requires |pick| == |free|
  {
    if pick == [] then 0
    else (if pick[0] then free[0].length else 0) + PickedLength(free[1..], pick[1..])
  }

  /** Exchange: no choice of m extents of an ordered list holds more blocks than its first m. */
  lemma {:induction false} PrefixDominates(free: seq<Extent>, pick: seq<bool>)
    requires Ordered(free) && |pick| == |free|
    ensures Picked(pick) <= |free|
    ensures PickedLength(free, pick) <= TotalLength(free[..Picked(pick)])
  {
    if pick != [] {
      var m := Picked(pick[1..]);
      PrefixDominates(free[1..], pick[1..]);
      if pick[0] {
        assert free[..m + 1] == [free[0]] + free[1..][..m];
        TotalLengthPrepend(free[0], free[1..][..m]);
      } else {
        ShiftDown(free, m);
      }
    }
  }

  lemma {:induction false} ShiftDown(free: seq<Extent>, m: nat)
    requires Ordered(free) && m < |free|
    ensures TotalLength(free[1..][..m]) <= TotalLength(free[..m])
  {
    if m > 0 {
      ShiftDown(free, m - 1);
      assert free[1..][..m][..m - 1] == free[1..][..m - 1];
      assert free[..m][..m - 1] == free[..m - 1];
      assert !Before(free[m], free[m - 1]);
    }
  }

  /** Greedy optimality: fewer extents than the loop takes never reach the target, however
      they are chosen. */
  lemma FewerNeverSuffice(free: seq<Extent>, target: nat, slots: nat, pick: seq<bool>)
    requires target > 0 && Ordered(free) && |pick| == |free|
    requires Picked(pick) < TakeCount(free, target, slots)
    ensures PickedLength(free, pick) < target
  {
    PrefixDominates(free, pick);
    TakeStops(free, target, slots);
  }
}
