/** Lookup through a segmented model of a dense sorted array (cpp/segmented_model.h): predict
    a position, then binary search the window the error bound allows. */
module SegmentSearch {
  import opened Geometry
  import opened FitLines
  import opened Segments
  import opened PinnedModel

  ghost predicate StrictlySorted(keys: seq<int>) {
    forall i, j :: 0 <= i < j < |keys| ==> keys[i] < keys[j]
  }

  function Dense(n: nat): seq<int> {
    seq(n, i => i)
  }

  function Predicted(s: Segment, key: int): int {
    Round(s.slope * key as real + s.intercept)
  }

  function WindowLo(predicted: int, eps: int): nat {
    if predicted - eps < 0 then 0 else predicted - eps
  }

  /** The last slot of the window. */
  function WindowHi(predicted: int, eps: int, n: nat): int {
    if n - 1 < predicted + eps then n - 1 else predicted + eps
  }

  /** The search needs begin <= end, both inside the array. */
  predicate WindowOk(predicted: int, eps: int, n: nat) {
    WindowLo(predicted, eps) <= WindowHi(predicted, eps, n) + 1 <= n
  }

  /** Exactly when a prediction's window is a real range of the array. */
  lemma WindowOkExactly(predicted: int, eps: nat, n: nat)
    ensures WindowOk(predicted, eps, n) <==> predicted - eps <= n && -1 <= predicted + eps
  {
  }

  /** A key the model was fit on: its window is a range, and holds the key's own index. */
  lemma StoredKeyInWindow(keys: seq<int>, segments: seq<Segment>, starts: seq<nat>, eps: nat, i: nat, r: nat)
    requires StrictlySorted(keys) && ModelServes(segments, Points(keys, Dense(|keys|)), eps, starts)
    requires i < |keys| && Owns(segments, r, keys[i])
    ensures var p := Predicted(segments[r], keys[i]);
      WindowOk(p, eps, |keys|) && WindowLo(p, eps) <= i <= WindowHi(p, eps, |keys|)
  {
    var pts := Points(keys, Dense(|keys|));
    assert Rightward(pts) && pts[i] == Point(keys[i], i);
    RouteFindsRun(segments, pts, eps, starts, i, r);
    hide ModelServes, Owns, Rightward, Points, StrictlySorted;
    PredictedNear(segments[r], keys[i], i, eps);
  }

  lemma PredictedNear(s: Segment, key: int, i: nat, eps: nat)
    requires Fits(LineOf(s), Point(key, i), eps)
    ensures i - eps <= Predicted(s, key) <= i + eps
  {
    RoundStaysWithin(At(LineOf(s), key), i - eps, i + eps);
  }

  /** An absent key can be predicted past the end, which inverts the window. */
  lemma AbsentKeyCanInvertWindow()
    ensures var keys, segments := [0, 1, 2], [Segment(0, 1.0, 0.0)];
      && IsPinnedModel(segments, Points(keys, Dense(3)), 1, SIZE_MAX, [0])
      && ModelServes(segments, Points(keys, Dense(3)), 1, [0])
      && Owns(segments, 0, 1000) && !WindowOk(Predicted(segments[0], 1000), 1, 3)
  {
    var pts := Points([0, 1, 2], Dense(3));
    var s := Segment(0, 1.0, 0.0);
    assert pts == [Point(0, 0), Point(1, 1), Point(2, 2)];
    assert Run(pts, [0], 0) == pts;
    assert FitsAll(LineOf(s), pts, 1);
    assert SegmentServes(s, Run(pts, [0], 0), 1);
    assert PinnedAt([s], pts, 1, SIZE_MAX, [0], 3, 0);
    assert Predicted(s, 1000) == 1000;
  }

  /** The first index in [lo, hi) whose key is at least `key`, or hi. */
  method LowerBound(keys: seq<int>, lo: nat, hi: nat, key: int) returns (it: nat)
    requires StrictlySorted(keys) && lo <= hi <= |keys|
    ensures lo <= it <= hi
    ensures forall i :: lo <= i < it ==> keys[i] < key
    ensures forall i :: it <= i < hi ==> key <= keys[i]
  {
    it := lo;
    var count := hi - lo;
    while count > 0
      invariant lo <= it && 0 <= count && it + count <= hi
      invariant forall i :: lo <= i < it ==> keys[i] < key
      invariant forall i :: it + count <= i < hi ==> key <= keys[i]
    {
      var step := count / 2;
      if keys[it + step] < key {
        it := it + step + 1;
        count := count - (step + 1);
      } else {
        count := step;
      }
    }
  }

  /** Looks a key up. On a model of this array, every stored key is found at its own index. */
  method SegmentedSearch(keys: seq<int>, segments: seq<Segment>, eps: nat, key: int)
    returns (found: bool, value: nat)
    requires StrictlySorted(keys) && SortedStarts(segments)
    requires forall r: nat :: Owns(segments, r, key) ==> WindowOk(Predicted(segments[r], key), eps, |keys|)
    ensures found ==> value < |keys| && keys[value] == key
    ensures forall starts, i ::
      (ModelServes(segments, Points(keys, Dense(|keys|)), eps, starts) && 0 <= i < |keys| && keys[i] == key)
      ==> found && value == i
  {
    found, value := false, 0;
    if segments == [] { return; }
    var r := FindSegmentIndex(segments, key);
    var predicted := Predicted(segments[r], key);
    var lo, hi := WindowLo(predicted, eps), WindowHi(predicted, eps, |keys|);
    var it := LowerBound(keys, lo, hi + 1, key);
    if it != hi + 1 && keys[it] == key {
      found, value := true, it;
    }
    forall starts, i | ModelServes(segments, Points(keys, Dense(|keys|)), eps, starts) && 0 <= i < |keys| && keys[i] == key
      ensures found && value == i
    {
      StoredKeyInWindow(keys, segments, starts, eps, i, r);
    }
  }
}
