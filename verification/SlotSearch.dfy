/** How a predicted slot becomes an answer (cpp/gapped_array.h: locate, reaches, gallop,
    find_nearest_gap). The prediction only chooses where the search starts. */
module SlotSearch {
  import opened Slots

  /** i is the first real slot holding a key >= target, or the end. */
  ghost predicate IsLowerBound(data: seq<int>, i: nat, target: int) {
    && i <= |data|
    && (forall j :: 0 <= j < i && IsReal(data[j]) ==> data[j] < target)
    && (i < |data| ==> IsReal(data[i]) && data[i] >= target)
  }

  /** Every real key from slot j on is >= target. */
  ghost predicate Reached(data: seq<int>, j: nat, target: int) {
    forall k :: j <= k < |data| && IsReal(data[k]) ==> data[k] >= target
  }

  /** The slot where Reached turns true, and stays true. */
  ghost function Flip(data: seq<int>, target: int, j: nat): (f: nat)
    requires j <= |data| && Reached(data, j, target)
    ensures f <= j
    decreases j
  {
    if j > 0 && Reached(data, j - 1, target) then Flip(data, target, j - 1) else j
  }

  ghost function FlipSlot(data: seq<int>, target: int): nat {
    Flip(data, target, |data|)
  }

  lemma {:induction false} FlipSplits(data: seq<int>, target: int, from: nat, j: nat)
    requires from <= |data| && Reached(data, from, target) && j <= |data|
    requires j >= from ==> Reached(data, j, target)
    ensures Reached(data, j, target) <==> j >= Flip(data, target, from)
    decreases from
  {
    if from > 0 && Reached(data, from - 1, target) {
      FlipSplits(data, target, from - 1, j);
    } else if j < from && from > 0 && Reached(data, j, target) {
      assert Reached(data, from - 1, target);
    }
  }

  /** One slot divides those from which the target is not reached from those from which it is. */
  lemma ReachedFlipsOnce(data: seq<int>, target: int, j: nat)
    requires j <= |data|
    ensures Reached(data, j, target) <==> j >= FlipSlot(data, target)
    ensures FlipSlot(data, target) <= |data|
  {
    if j >= |data| { assert Reached(data, j, target); }
    FlipSplits(data, target, |data|, j);
  }

  /** Decides Reached by looking past gaps for the next key. */
  method Reaches(data: seq<int>, j: nat, target: int) returns (yes: bool)
    requires SortedSlots(data) && j <= |data|
    ensures yes == Reached(data, j, target)
  {
    var i := j;
    while i < |data| && data[i] == EMPTY_SLOT
      invariant j <= i <= |data|
      invariant forall k :: j <= k < i ==> !IsReal(data[k])
    {
      i := i + 1;
    }
    if i == |data| { return true; }
    yes := data[i] >= target;
    if !yes { assert IsReal(data[i]); }
  }

  function Pow2(m: nat): (r: nat)
    ensures r >= 1
  {
    if m == 0 then 1 else 2 * Pow2(m - 1)
  }

  /** The largest m with 2^m <= x. */
  ghost function Log2(x: nat): nat
    requires x >= 1
  {
    if x == 1 then 0 else 1 + Log2(x / 2)
  }

  lemma {:induction false} Log2AtLeast(m: nat, x: nat)
    requires x >= 1 && Pow2(m) <= x
    ensures m <= Log2(x)
  {
    if m > 0 { Log2AtLeast(m - 1, x / 2); }
  }

  ghost function Distance(i: nat, j: nat): nat {
    if i <= j then j - i else i - j
  }

  /** Binary search inside a bracket no wider than 2^m: at most m more calls. */
  method Bisect(data: seq<int>, lo0: int, hi0: nat, target: int, ghost m: nat) returns (hi: nat, ghost calls: nat)
    requires SortedSlots(data) && -1 <= lo0 < hi0 <= |data| && hi0 - lo0 <= Pow2(m)
    requires (lo0 >= 0 ==> !Reached(data, lo0, target)) && Reached(data, hi0, target)
    ensures hi == FlipSlot(data, target) && calls <= m
  {
    var lo := lo0;
    hi, calls := hi0, 0;
    ghost var left := m;
    while hi - lo > 1
      invariant -1 <= lo < hi <= |data| && calls + left <= m && hi - lo <= Pow2(left)
      invariant (lo >= 0 ==> !Reached(data, lo, target)) && Reached(data, hi, target)
    {
      var mid := lo + (hi - lo) / 2;
      var yes := Reaches(data, mid, target);
      if yes { hi := mid; } else { lo := mid; }
      calls, left := calls + 1, left - 1;
    }
    ReachedFlipsOnce(data, target, hi);
    if lo >= 0 { ReachedFlipsOnce(data, target, lo); }
  }

  /** Doubling jumps to the left from a slot that reaches. */
  method JumpLeft(data: seq<int>, i: nat, target: int) returns (lo: int, hi: nat, ghost m: nat, ghost calls: nat)
    requires SortedSlots(data) && i <= |data| && Reached(data, i, target)
    ensures -1 <= lo < hi <= i && hi - lo <= Pow2(m) && calls <= m + 1
    ensures (lo >= 0 ==> !Reached(data, lo, target)) && Reached(data, hi, target)
    ensures Pow2(m) <= Distance(i, FlipSlot(data, target)) + 1
  {
    hi, m, calls := i, 0, 0;
    var step := 1;
    ReachedFlipsOnce(data, target, i);
    while true
      invariant step == Pow2(m) && calls == m
      invariant hi <= i && hi == i - (step - 1) && Reached(data, hi, target) && FlipSlot(data, target) <= hi
      decreases hi
    {
      lo := hi - step;
      if lo < 0 {
        lo := -1;
        break;
      }
      var yes := Reaches(data, lo, target);
      calls := calls + 1;
      if !yes { break; }
      ReachedFlipsOnce(data, target, lo);
      hi := lo;
      step, m := step * 2, m + 1;
    }
  }

  /** Doubling jumps to the right from a slot that does not reach. */
  method JumpRight(data: seq<int>, i: nat, target: int) returns (lo: nat, hi: nat, ghost m: nat, ghost calls: nat)
    requires SortedSlots(data) && i <= |data| && !Reached(data, i, target)
    ensures i <= lo < hi <= |data| && hi - lo <= Pow2(m) && calls <= m + 1
    ensures !Reached(data, lo, target) && Reached(data, hi, target)
    ensures Pow2(m) <= Distance(i, FlipSlot(data, target)) + 1
  {
    lo, m, calls := i, 0, 0;
    var step := 1;
    ReachedFlipsOnce(data, target, i);
    while true
      invariant step == Pow2(m) && calls == m
      invariant i <= lo < |data| && lo == i + (step - 1) && !Reached(data, lo, target) && lo < FlipSlot(data, target)
      decreases |data| - lo
    {
      hi := lo + step;
      if hi >= |data| {
        hi := |data|;
        break;
      }
      var yes := Reaches(data, hi, target);
      calls := calls + 1;
      if yes { break; }
      ReachedFlipsOnce(data, target, hi);
      lo := hi;
      step, m := step * 2, m + 1;
    }
  }

  /** The far-off case: bracket the flip by doubling, bisect, then skip gaps. The number of
      calls to `reaches` is logarithmic in the distance to the flip. */
  method Gallop(data: seq<int>, i: nat, target: int) returns (idx: nat, ghost calls: nat)
    requires SortedSlots(data) && i <= |data|
    ensures IsLowerBound(data, idx, target)
    ensures calls <= 2 * Log2(Distance(i, FlipSlot(data, target)) + 1) + 2
  {
    var lo: int, hi: nat;
    ghost var m: nat, jumps: nat;
    var yes := Reaches(data, i, target);
    if yes {
      lo, hi, m, jumps := JumpLeft(data, i, target);
    } else {
      lo, hi, m, jumps := JumpRight(data, i, target);
    }
    ghost var more;
    hi, more := Bisect(data, lo, hi, target, m);
    calls := 1 + jumps + more;
    Log2AtLeast(m, Distance(i, FlipSlot(data, target)) + 1);
    ReachedFlipsOnce(data, target, hi);
    idx := hi;
    BelowFlip(data, target, hi);
    while idx < |data| && data[idx] == EMPTY_SLOT
      invariant hi <= idx <= |data|
      invariant forall j :: 0 <= j < idx && IsReal(data[j]) ==> data[j] < target
    {
      idx := idx + 1;
    }
  }

  lemma BelowFlip(data: seq<int>, target: int, f: nat)
    requires SortedSlots(data) && f == FlipSlot(data, target)
    ensures f <= |data| && forall j :: 0 <= j < f && IsReal(data[j]) ==> data[j] < target
  {
    ReachedFlipsOnce(data, target, f);
    if f > 0 {
      ReachedFlipsOnce(data, target, f - 1);
      var k :| f - 1 <= k < |data| && IsReal(data[k]) && data[k] < target;
    }
  }

  /** Walks at most `eps` slots each way from the clamped prediction, then gallops. */
  method Locate(data: seq<int>, eps: nat, predicted: int, target: int) returns (i: nat)
    requires SortedSlots(data) && target < EMPTY_SLOT
    ensures IsLowerBound(data, i, target)
  {
    var n := |data|;
    i := if predicted < 0 then 0 else if predicted > n then n else predicted;
    var walkLimit := if eps < 1 then 1 else eps;
    var far := false;
    var leftStop := if i - walkLimit < 0 then 0 else i - walkLimit;
    while i > leftStop
      invariant leftStop <= i <= n
    {
      if data[i - 1] < target { break; }
      i := i - 1;
    }
    if i == leftStop && i > 0 && data[i - 1] >= target { far := true; }
    if !far {
      assert i == 0 || data[i - 1] < target;
      var rightStop := if n < i + walkLimit then n else i + walkLimit;
      ghost var from := i;
      while i < rightStop
        invariant from <= i <= rightStop
        invariant forall j :: 0 <= j < i && IsReal(data[j]) ==> data[j] < target
      {
        if data[i] != EMPTY_SLOT && data[i] >= target { break; }
        i := i + 1;
      }
      if i == rightStop && i < n && (data[i] == EMPTY_SLOT || data[i] < target) { far := true; }
    }
    if far {
      ghost var calls;
      i, calls := Gallop(data, i, target);
    }
  }

  /** How far the shift for an insert at `start` may look. */
  ghost predicate NoGapWithin(data: seq<int>, start: nat, d: nat) {
    forall k :: start - d <= k < start + d && 0 <= k < |data| ==> IsReal(data[k])
  }

  /** The nearest gap within reach, the right one first; -1 if there is none. Everything
      between it and the insertion point is occupied. */
  method FindNearestGap(data: seq<int>, start: nat, maxGapScan: nat) returns (gap: int)
    requires start <= |data|
    ensures gap == -1 ==> NoGapWithin(data, start, maxGapScan + 1)
    ensures gap != -1 ==> 0 <= gap < |data| && data[gap] == EMPTY_SLOT
    ensures gap != -1 ==> gap <= start + maxGapScan && start <= gap + maxGapScan + 1
    ensures gap != -1 ==> NoGapWithin(data, start, if gap >= start then gap - start else start - 1 - gap)
    ensures gap != -1 && gap < start && 2 * start - 1 - gap < |data| ==> IsReal(data[2 * start - 1 - gap])
  {
    var d := 0;
    while d <= maxGapScan
      invariant 0 <= d <= maxGapScan + 1 && NoGapWithin(data, start, d)
    {
      var right := start + d;
      if right < |data| && data[right] == EMPTY_SLOT { return right; }
      var left := start - 1 - d;
      if 0 <= left < |data| && data[left] == EMPTY_SLOT { return left; }
      d := d + 1;
    }
    gap := -1;
  }
}
