/** The sample collector: the body of the pointer-move handler as a state
    transition on the history buffer (oldest sample first). */
module TrailBuffer {
  import opened Geometry

  /** Once the buffer grows past this many samples it is trimmed. */
  const Capacity: nat := 1000
  /** How many of the newest samples a trim keeps. */
  const Retained: nat := 800
  /** A new sample is recorded only if it lies farther than this from the last one. */
  const MinStep: real := 1.0

  /** `s` is the last `|s|` elements of `t`, in order. */
  predicate IsSuffix<T(==)>(s: seq<T>, t: seq<T>) {
    |s| <= |t| && s == t[|t| - |s|..]
  }

  /** The pointer moved far enough to be recorded: the buffer is empty, or the
      squared distance to the last sample exceeds the squared threshold (that is,
      the distance exceeds `MinStep`; see `MoveThresholdIsDistance`). */
  predicate MovedEnough(buf: seq<Point>, p: Point) {
    |buf| == 0 || SqDist(p, buf[|buf| - 1]) > MinStep * MinStep
  }

  /** One pointer-move event: record `p` if it moved far enough, then trim to the
      newest `Retained` samples if the buffer has grown past `Capacity`. */
  function RecordMove(buf: seq<Point>, p: Point): (r: seq<Point>)
    ensures MovedEnough(buf, p) ==> IsSuffix(r, buf + [p]) && |r| > 0 && r[|r| - 1] == p
    ensures !MovedEnough(buf, p) ==> IsSuffix(r, buf)
    ensures MovedEnough(buf, p) ==> |r| == if |buf| + 1 > Capacity then Retained else |buf| + 1
    ensures !MovedEnough(buf, p) ==> |r| == if |buf| > Capacity then Retained else |buf|
    ensures |buf| <= Capacity ==> |r| <= Capacity
  {
    var sampled := if MovedEnough(buf, p) then buf + [p] else buf;
    if |sampled| > Capacity then sampled[|sampled| - Retained..] else sampled
  }

  /** Consecutive samples lie more than `MinStep` apart. */
  predicate Spaced(buf: seq<Point>) {
    forall k :: 0 < k < |buf| ==> SqDist(buf[k], buf[k - 1]) > MinStep * MinStep
  }

  /** The invariant the handler keeps on the buffer. */
  predicate Valid(buf: seq<Point>) {
    |buf| <= Capacity && Spaced(buf)
  }

  /** A stream of pointer-move events, handled in order. */
  function RecordMoves(buf: seq<Point>, moves: seq<Point>): (r: seq<Point>)
    ensures forall q :: q in r ==> q in buf || q in moves
    decreases |moves|
  {
    if |moves| == 0 then buf
    else RecordMoves(RecordMove(buf, moves[0]), moves[1..])
  }

  /** Testing the squared distance against `MinStep * MinStep` is the source's
      `Math.sqrt(dx * dx + dy * dy) > 1`. */
  lemma MoveThresholdIsDistance(d: Metric, buf: seq<Point>, p: Point)
    requires Euclidean(d)
    requires |buf| > 0
    ensures MovedEnough(buf, p) <==> d(p, buf[|buf| - 1]) > MinStep
  {
    DistanceExceedsIff(d, p, buf[|buf| - 1], MinStep);
  }

  /** A suffix of a spaced buffer is spaced. */
  lemma SuffixSpaced(buf: seq<Point>, from: nat)
    requires Spaced(buf)
    requires from <= |buf|
    ensures Spaced(buf[from..])
  {
    var s := buf[from..];
    forall k | 0 < k < |s|
      ensures SqDist(s[k], s[k - 1]) > MinStep * MinStep
    {
      assert s[k] == buf[from + k] && s[k - 1] == buf[from + k - 1];
    }
  }

  /** Appending a sample that moved far enough keeps the buffer spaced. */
  lemma AppendSpaced(buf: seq<Point>, p: Point)
    requires Spaced(buf)
    requires MovedEnough(buf, p)
    ensures Spaced(buf + [p])
  {
    var s := buf + [p];
    forall k | 0 < k < |s|
      ensures SqDist(s[k], s[k - 1]) > MinStep * MinStep
    {
      if k < |buf| {
        assert s[k] == buf[k] && s[k - 1] == buf[k - 1];
      } else {
        assert s[k] == p && s[k - 1] == buf[|buf| - 1];
      }
    }
  }

  /** Handling a move keeps the buffer bounded and its samples spaced. */
  lemma RecordMovePreservesValid(buf: seq<Point>, p: Point)
    requires Valid(buf)
    ensures Valid(RecordMove(buf, p))
  {
    if MovedEnough(buf, p) {
      AppendSpaced(buf, p);
      if |buf| + 1 > Capacity {
        SuffixSpaced(buf + [p], |buf| + 1 - Retained);
      }
    }
  }

  /** Repeating the same pointer position records it at most once. */
  lemma RecordMoveIdempotent(buf: seq<Point>, p: Point)
    ensures RecordMove(RecordMove(buf, p), p) == RecordMove(buf, p)
  {
    var r := RecordMove(buf, p);
    if MovedEnough(buf, p) {
      assert SqDist(p, r[|r| - 1]) == 0.0;
      assert !MovedEnough(r, p);
    }
  }

  /** Along any stream of moves the buffer stays within its capacity and its
      consecutive samples stay more than `MinStep` apart; the empty buffer the
      handler starts from is valid. */
  lemma {:induction false} RecordMovesPreservesValid(buf: seq<Point>, moves: seq<Point>)
    requires Valid(buf)
    ensures Valid(RecordMoves(buf, moves))
    decreases |moves|
  {
    if |moves| > 0 {
      RecordMovePreservesValid(buf, moves[0]);
      RecordMovesPreservesValid(RecordMove(buf, moves[0]), moves[1..]);
    }
  }
}
