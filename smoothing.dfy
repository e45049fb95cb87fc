/** The rolling average of `get_smoothed_temp`: a `deque(maxlen=smoothing_window)`
    of raw readings and the rounded mean of what it holds. */
module Smoothing {
  import opened Numeric

  /** What a bounded deque keeps of `s`: its last `cap` elements. */
  function Window(s: seq<int>, cap: nat): (r: seq<int>)
    ensures |r| == if |s| <= cap then |s| else cap
    ensures r == s[|s| - |r|..]
  {
    if |s| <= cap then s else s[|s| - cap..]
  }

  /** `temp_history.append(x)` on a deque holding at most `cap` readings: the
      reading joins at the end and, when the deque was full, the oldest one
      leaves; a deque of capacity 0 stays empty. */
  lemma PushEvictsOldest(h: seq<int>, x: int, cap: nat)
    requires |h| <= cap
    ensures |h| < cap ==> Window(h + [x], cap) == h + [x]
    ensures 0 < |h| == cap ==> Window(h + [x], cap) == h[1..] + [x]
    ensures cap == 0 ==> Window(h + [x], cap) == []
  {
    if 0 < |h| == cap {
      assert (h + [x])[1..] == h[1..] + [x];
    }
  }

  function Sum(s: seq<int>): int {
    if s == [] then 0 else Sum(s[..|s| - 1]) + s[|s| - 1]
  }

  lemma SumAppend(s: seq<int>, x: int)
    ensures Sum(s + [x]) == Sum(s) + x
  {
    assert (s + [x])[..|s|] == s;
  }

  /** `round(sum(history) / len(history))`, computed exactly. */
  function Mean(s: seq<int>): (r: int)
    requires |s| > 0
    ensures 2 * (Sum(s) - r * |s|) <= |s| && 2 * (r * |s| - Sum(s)) <= |s|
  {
    RoundHalfEven(Sum(s), |s|)
  }

  lemma {:induction false} SumBounds(s: seq<int>, lo: int, hi: int)
    requires forall k :: 0 <= k < |s| ==> lo <= s[k] <= hi
    ensures lo * |s| <= Sum(s) <= hi * |s|
  {
    if s != [] {
      SumBounds(s[..|s| - 1], lo, hi);
      assert lo * |s| == lo * (|s| - 1) + lo;
      assert hi * |s| == hi * (|s| - 1) + hi;
    }
  }

  /** The mean lies between any bounds of the readings it averages. */
  lemma MeanWithin(s: seq<int>, lo: int, hi: int)
    requires |s| > 0
    requires forall k :: 0 <= k < |s| ==> lo <= s[k] <= hi
    ensures lo <= Mean(s) <= hi
  {
    SumBounds(s, lo, hi);
    RoundBetween(Sum(s), |s|, lo, hi);
  }

  function Min(s: seq<int>): (m: int)
    requires |s| > 0
    ensures m in s && forall k :: 0 <= k < |s| ==> m <= s[k]
  {
    if |s| == 1 then s[0]
    else
      var m := Min(s[1..]);
      assert forall k :: 1 <= k < |s| ==> s[k] == s[1..][k - 1];
      if s[0] <= m then s[0] else m
  }

  function Max(s: seq<int>): (m: int)
    requires |s| > 0
    ensures m in s && forall k :: 0 <= k < |s| ==> s[k] <= m
  {
    if |s| == 1 then s[0]
    else
      var m := Max(s[1..]);
      assert forall k :: 1 <= k < |s| ==> s[k] == s[1..][k - 1];
      if s[0] >= m then s[0] else m
  }

  /** The smoothed temperature lies between the coolest and the hottest held
      reading. */
  lemma MeanBetweenMinAndMax(s: seq<int>)
    requires |s| > 0
    ensures Min(s) <= Mean(s) <= Max(s)
  {
    MeanWithin(s, Min(s), Max(s));
  }

  /** Feeding 50, 60, 70, 80, 90 into a window of five gives 70; one more reading
      of 100 pushes out the 50 and gives 80. */
  lemma SmoothingExample()
    ensures Window([50, 60, 70, 80, 90], 5) == [50, 60, 70, 80, 90]
    ensures Mean([50, 60, 70, 80, 90]) == 70
    ensures Window([50, 60, 70, 80, 90] + [100], 5) == [60, 70, 80, 90, 100]
    ensures Mean([60, 70, 80, 90, 100]) == 80
  {
    PushEvictsOldest([50, 60, 70, 80, 90], 100, 5);
    assert [50, 60, 70, 80, 90][1..] == [60, 70, 80, 90];
    SumOfFive(50, 60, 70, 80, 90);
    RoundExact(70, 5);
    SumOfFive(60, 70, 80, 90, 100);
    RoundExact(80, 5);
  }

  lemma SumOfFive(a: int, b: int, c: int, d: int, e: int)
    ensures Sum([a, b, c, d, e]) == a + b + c + d + e
  {
    SumAppend([], a); SumAppend([a], b); SumAppend([a, b], c);
    SumAppend([a, b, c], d); SumAppend([a, b, c, d], e);
    assert [] + [a] == [a] && [a] + [b] == [a, b] && [a, b] + [c] == [a, b, c];
    assert [a, b, c] + [d] == [a, b, c, d] && [a, b, c, d] + [e] == [a, b, c, d, e];
  }
}
