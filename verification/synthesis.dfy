/** Arc-length trimming of the trail: the backward walk of `generatePath` over
    the history buffer, and an independent description of its result in terms
    of the arc length of the buffer's suffixes. */
module Synthesis {
  import opened Geometry

  /** The length of the drawn trail, in pixels. */
  const Target: real := 1000.0

  /** The elements of `s` in the opposite order. */
  function Reverse<T>(s: seq<T>): (r: seq<T>)
    ensures |r| == |s|
  {
    if |s| == 0 then [] else Reverse(s[1..]) + [s[0]]
  }

  /** Position `k` of the reversed list holds position `|s| - 1 - k` of `s`. */
  lemma {:induction false} ReverseIndex<T>(s: seq<T>)
    ensures forall k :: 0 <= k < |s| ==> Reverse(s)[k] == s[|s| - 1 - k]
  {
    if |s| > 0 {
      ReverseIndex(s[1..]);
    }
  }

  /** The arc length of a chronological point list: the sum of the distances
      from each point to the one before it. */
  function ArcLength(d: Metric, s: seq<Point>): (len: real)
    requires NonNegative(d)
    ensures 0.0 <= len
  {
    if |s| < 2 then 0.0 else d(s[1], s[0]) + ArcLength(d, s[1..])
  }

  /** The fraction of a segment of length `dist` that covers the `remaining`
      length. */
  function Ratio(remaining: real, dist: real): (t: real)
    requires 0.0 <= remaining < dist
    ensures 0.0 <= t < 1.0
    ensures t * dist == remaining
  {
    DivBelowOne(remaining, dist);
    remaining / dist
  }

  /** A non-negative real divided by a larger one lies in [0, 1). */
  lemma DivBelowOne(a: real, b: real)
    requires 0.0 <= a < b
    ensures 0.0 <= a / b < 1.0
  {
    assert b / b == 1.0;
    assert (b - a) / b > 0.0;
    assert a / b + (b - a) / b == b / b;
  }

  /** One step of the backward walk and all the steps after it. `prev` is the
      point pushed last, `total` the length accumulated so far and `older` the
      samples not yet visited (the next one visited is its last). Returns the
      points pushed from here on, in push order: every visited sample whose
      segment still fits within `Target`, and, at the first that does not, the
      point on that segment where the length reaches `Target`. */
  function Walk(d: Metric, older: seq<Point>, prev: Point, total: real): (pushed: seq<Point>)
    requires NonNegative(d)
    requires 0.0 <= total <= Target
    ensures |pushed| == 0 <==> |older| == 0
    ensures |pushed| <= |older|
    ensures forall k :: 0 <= k < |pushed| - 1 ==> pushed[k] == older[|older| - 1 - k]
    decreases |older|
  {
    if |older| == 0 then []
    else
      var cur := older[|older| - 1];
      var dist := d(prev, cur);
      if total + dist <= Target then
        [cur] + Walk(d, older[..|older| - 1], cur, total + dist)
      else
        [Lerp(prev, cur, Ratio(Target - total, dist))]
  }

  /** The trail `generatePath` draws, oldest point first: the newest sample,
      then the walk over the older ones, reversed. */
  function Selected(d: Metric, buf: seq<Point>): (trail: seq<Point>)
    requires NonNegative(d)
    requires |buf| >= 2
    ensures 2 <= |trail| <= |buf|
    ensures trail[|trail| - 1] == buf[|buf| - 1]
    ensures trail[1..] == buf[|buf| - |trail| + 1..]
  {
    var newest := buf[|buf| - 1];
    var raw := [newest] + Walk(d, buf[..|buf| - 1], newest, 0.0);
    var trail := Reverse(raw);
    ReverseIndex(raw);
    assert forall k :: 1 <= k < |trail| ==> trail[k] == buf[|buf| - |trail| + k];
    trail
  }

  /** The smallest index at or below `i` from which every suffix of `buf`, up to
      the one at `i`, has arc length within `Target`. */
  function Cut(d: Metric, buf: seq<Point>, i: nat): (j: nat)
    requires NonNegative(d)
    requires i < |buf|
    requires ArcLength(d, buf[i..]) <= Target
    ensures j <= i
    ensures ArcLength(d, buf[j..]) <= Target
    ensures j == 0 || ArcLength(d, buf[j - 1..]) > Target
    decreases i
  {
    if i == 0 || ArcLength(d, buf[i - 1..]) > Target then i else Cut(d, buf, i - 1)
  }

  /** The arc length of a suffix is the first segment plus the rest. */
  lemma ArcLengthStep(d: Metric, buf: seq<Point>, j: nat)
    requires NonNegative(d)
    requires 0 < j < |buf|
    ensures ArcLength(d, buf[j - 1..]) == d(buf[j], buf[j - 1]) + ArcLength(d, buf[j..])
  {
    assert buf[j - 1..][1..] == buf[j..];
  }

  /** The trail that starts at sample `j`: the suffix `buf[j..]`, preceded, when
      `j > 0`, by the point on the segment from `buf[j]` back to `buf[j - 1]` that
      brings the arc length up to `Target`. */
  function TrailFrom(d: Metric, buf: seq<Point>, j: nat): (trail: seq<Point>)
    requires NonNegative(d)
    requires j < |buf|
    requires ArcLength(d, buf[j..]) <= Target
    requires j == 0 || ArcLength(d, buf[j - 1..]) > Target
  {
    if j == 0 then buf
    else
      ArcLengthStep(d, buf, j);
      var remaining := Target - ArcLength(d, buf[j..]);
      [Lerp(buf[j], buf[j - 1], Ratio(remaining, d(buf[j], buf[j - 1])))] + buf[j..]
  }

  /** The reference trail: the longest suffix of the buffer whose arc length is
      within `Target`, extended along the next older segment to exactly `Target`
      when the buffer is longer than that. */
  function ReferenceTrail(d: Metric, buf: seq<Point>): (trail: seq<Point>)
    requires NonNegative(d)
    requires |buf| >= 1
  {
    TrailFrom(d, buf, Cut(d, buf, |buf| - 1))
  }

  /** Reversing a list with `x` in front puts `x` at the back. */
  lemma ReverseCons<T>(x: T, s: seq<T>)
    ensures Reverse([x] + s) == Reverse(s) + [x]
  {
    assert ([x] + s)[1..] == s;
  }

  /** One accepting step of the walk from sample `i`. */
  lemma WalkAccepts(d: Metric, buf: seq<Point>, i: nat)
    requires NonNegative(d)
    requires 0 < i < |buf|
    requires ArcLength(d, buf[i - 1..]) <= Target
    ensures Walk(d, buf[..i], buf[i], ArcLength(d, buf[i..]))
            == [buf[i - 1]] + Walk(d, buf[..i - 1], buf[i - 1], ArcLength(d, buf[i - 1..]))
  {
    ArcLengthStep(d, buf, i);
    assert buf[..i][i - 1] == buf[i - 1];
    assert buf[..i][..i - 1] == buf[..i - 1];
  }

  /** The stopping step of the walk from sample `i`. */
  lemma WalkStops(d: Metric, buf: seq<Point>, i: nat, total: real)
    requires NonNegative(d)
    requires 0 < i < |buf|
    requires 0.0 <= total <= Target < total + d(buf[i], buf[i - 1])
    ensures Walk(d, buf[..i], buf[i], total)
            == [Lerp(buf[i], buf[i - 1], Ratio(Target - total, d(buf[i], buf[i - 1])))]
  {
    assert buf[..i][i - 1] == buf[i - 1];
  }

  /** An accepting step from sample `i` extends the reference trail found from
      sample `i - 1`. */
  lemma AcceptStep(d: Metric, buf: seq<Point>, i: nat)
    requires NonNegative(d)
    requires 0 < i < |buf|
    requires ArcLength(d, buf[i - 1..]) <= Target
    requires Reverse(Walk(d, buf[..i - 1], buf[i - 1], ArcLength(d, buf[i - 1..]))) + buf[i - 1..]
             == TrailFrom(d, buf, Cut(d, buf, i - 1))
    ensures ArcLength(d, buf[i..]) <= Target
    ensures Reverse(Walk(d, buf[..i], buf[i], ArcLength(d, buf[i..]))) + buf[i..]
            == TrailFrom(d, buf, Cut(d, buf, i))
  {
    var cur := buf[i - 1];
    var total := ArcLength(d, buf[i..]);
    ArcLengthStep(d, buf, i);
    var rest := Walk(d, buf[..i - 1], cur, ArcLength(d, buf[i - 1..]));
    calc {
      Reverse(Walk(d, buf[..i], buf[i], total)) + buf[i..];
      { WalkAccepts(d, buf, i); }
      Reverse([cur] + rest) + buf[i..];
      { ReverseCons(cur, rest); }
      (Reverse(rest) + [cur]) + buf[i..];
      { AppendMiddle(Reverse(rest), cur, buf[i..]); assert [cur] + buf[i..] == buf[i - 1..]; }
      Reverse(rest) + buf[i - 1..];
    }
    assert Cut(d, buf, i) == Cut(d, buf, i - 1);
  }

  /** A stopping step from sample `i` yields the reference trail that starts
      at sample `i`. */
  lemma StopStep(d: Metric, buf: seq<Point>, i: nat)
    requires NonNegative(d)
    requires 0 < i < |buf|
    requires ArcLength(d, buf[i..]) <= Target < ArcLength(d, buf[i - 1..])
    ensures Reverse(Walk(d, buf[..i], buf[i], ArcLength(d, buf[i..]))) + buf[i..]
            == TrailFrom(d, buf, Cut(d, buf, i))
  {
    var total := ArcLength(d, buf[i..]);
    ArcLengthStep(d, buf, i);
    WalkStops(d, buf, i, total);
    var l := Lerp(buf[i], buf[i - 1], Ratio(Target - total, d(buf[i], buf[i - 1])));
    assert Reverse([l]) == [l] by {
      ReverseCons(l, []);
    }
    assert Cut(d, buf, i) == i;
  }

  /** The walk from sample `i`, with the length of `buf[i..]` accumulated,
      completes the reference trail. */
  lemma {:induction false} WalkFollowsReference(d: Metric, buf: seq<Point>, i: nat)
    requires NonNegative(d)
    requires i < |buf|
    requires ArcLength(d, buf[i..]) <= Target
    ensures Reverse(Walk(d, buf[..i], buf[i], ArcLength(d, buf[i..]))) + buf[i..]
            == TrailFrom(d, buf, Cut(d, buf, i))
    decreases i
  {
    if i > 0 {
      if ArcLength(d, buf[i - 1..]) <= Target {
        WalkFollowsReference(d, buf, i - 1);
        AcceptStep(d, buf, i);
      } else {
        StopStep(d, buf, i);
      }
    }
  }

  /** Concatenation regroups around a single element. */
  lemma AppendMiddle<T>(a: seq<T>, x: T, b: seq<T>)
    ensures (a + [x]) + b == a + ([x] + b)
  {
  }

  /** The backward walk produces the reference trail. */
  lemma SelectedIsReference(d: Metric, buf: seq<Point>)
    requires NonNegative(d)
    requires |buf| >= 2
    ensures Selected(d, buf) == ReferenceTrail(d, buf)
  {
    var n := |buf|;
    SelectedCompletesWalk(d, buf);
    assert ArcLength(d, buf[n - 1..]) == 0.0;
    WalkFollowsReference(d, buf, n - 1);
  }

  /** `Selected` is the reversed walk from the newest sample, followed by that
      sample. */
  lemma SelectedCompletesWalk(d: Metric, buf: seq<Point>)
    requires NonNegative(d)
    requires |buf| >= 2
    ensures Selected(d, buf)
            == Reverse(Walk(d, buf[..|buf| - 1], buf[|buf| - 1], ArcLength(d, buf[|buf| - 1..]))) + buf[|buf| - 1..]
  {
    var n := |buf|;
    var newest := buf[n - 1];
    var w := Walk(d, buf[..n - 1], newest, ArcLength(d, buf[n - 1..]));
    SelectedStartsAtNewest(d, buf);
    ReverseCons(newest, w);
    assert buf[n - 1..] == [newest];
  }

  /** The walk behind `Selected` starts from the newest sample with the length
      of the one-point suffix, which is zero, accumulated. */
  lemma SelectedStartsAtNewest(d: Metric, buf: seq<Point>)
    requires NonNegative(d)
    requires |buf| >= 2
    ensures Selected(d, buf)
            == Reverse([buf[|buf| - 1]] + Walk(d, buf[..|buf| - 1], buf[|buf| - 1], ArcLength(d, buf[|buf| - 1..])))
  {
    assert ArcLength(d, buf[|buf| - 1..]) == 0.0;
  }

  /** No suffix of the buffer is longer than the whole buffer. */
  lemma {:induction false} SuffixArcLengthBounded(d: Metric, buf: seq<Point>, k: nat)
    requires NonNegative(d)
    requires k < |buf|
    ensures ArcLength(d, buf[k..]) <= ArcLength(d, buf)
    decreases k
  {
    if k > 0 {
      ArcLengthStep(d, buf, k);
      SuffixArcLengthBounded(d, buf, k - 1);
    } else {
      assert buf[0..] == buf;
    }
  }

  /** Putting a point in front of a list adds the segment back to it. */
  lemma ArcLengthCons(d: Metric, p: Point, s: seq<Point>)
    requires NonNegative(d)
    requires |s| >= 1
    ensures ArcLength(d, [p] + s) == d(s[0], p) + ArcLength(d, s)
  {
    assert ([p] + s)[1..] == s;
  }

  /** A trail that starts at an interpolated point is exactly `Target` long. */
  lemma InterpolatedTrailLength(d: Metric, buf: seq<Point>, j: nat)
    requires NonNegative(d) && ScalesAlongSegments(d)
    requires 0 < j < |buf|
    requires ArcLength(d, buf[j..]) <= Target
    requires ArcLength(d, buf[j - 1..]) > Target
    ensures ArcLength(d, TrailFrom(d, buf, j)) == Target
  {
    ArcLengthStep(d, buf, j);
    var remaining := Target - ArcLength(d, buf[j..]);
    var dist := d(buf[j], buf[j - 1]);
    var t := Ratio(remaining, dist);
    var l := Lerp(buf[j], buf[j - 1], t);
    assert TrailFrom(d, buf, j) == [l] + buf[j..];
    ArcLengthCons(d, l, buf[j..]);
    assert d(buf[j], l) == t * dist;
  }

  /** With the walk started past the point where the whole buffer fits, the
      trail is the whole buffer exactly when the buffer is within `Target`. */
  lemma TrailFromWhole(d: Metric, buf: seq<Point>, j: nat)
    requires NonNegative(d) && ScalesAlongSegments(d)
    requires j < |buf|
    requires ArcLength(d, buf[j..]) <= Target
    requires j == 0 || ArcLength(d, buf[j - 1..]) > Target
    ensures TrailFrom(d, buf, j) == buf <==> j == 0
  {
    if j > 0 {
      ArcLengthStep(d, buf, j);
      var remaining := Target - ArcLength(d, buf[j..]);
      var dist := d(buf[j], buf[j - 1]);
      var t := Ratio(remaining, dist);
      var l := Lerp(buf[j], buf[j - 1], t);
      assert TrailFrom(d, buf, j) == [l] + buf[j..];
      assert d(buf[j], l) < dist by {
        PositiveProduct(1.0 - t, dist);
      }
      assert l != buf[j - 1];
      if j == 1 {
        assert TrailFrom(d, buf, j)[0] != buf[0];
      } else {
        assert |TrailFrom(d, buf, j)| < |buf|;
      }
    }
  }

  /** The trail's arc length never exceeds `Target`, and it is exactly `Target`
      whenever the whole buffer is longer than that. */
  lemma TrailLength(d: Metric, buf: seq<Point>)
    requires Euclidean(d)
    requires |buf| >= 2
    ensures ArcLength(d, Selected(d, buf)) <= Target
    ensures ArcLength(d, buf) > Target ==> ArcLength(d, Selected(d, buf)) == Target
  {
    EuclideanIsNonNegative(d);
    EuclideanScales(d);
    SelectedIsReference(d, buf);
    var j := Cut(d, buf, |buf| - 1);
    assert buf[0..] == buf;
    if j > 0 {
      InterpolatedTrailLength(d, buf, j);
    }
  }

  /** The whole buffer is drawn exactly when its arc length is within `Target`;
      otherwise the trail starts at an interpolated point. */
  lemma WholeBufferIffShort(d: Metric, buf: seq<Point>)
    requires Euclidean(d)
    requires |buf| >= 2
    ensures Selected(d, buf) == buf <==> ArcLength(d, buf) <= Target
  {
    EuclideanIsNonNegative(d);
    EuclideanScales(d);
    SelectedIsReference(d, buf);
    var j := Cut(d, buf, |buf| - 1);
    TrailFromWhole(d, buf, j);
    assert buf[0..] == buf;
    if j > 0 {
      SuffixArcLengthBounded(d, buf, j - 1);
    }
  }
}
