/** `generatePath` end to end: from the history buffer to the path commands and
    the head marker position, together with the two worked examples of a short
    and a long trail. */
module Snake {
  import opened Geometry
  import opened TrailBuffer
  import opened Synthesis
  import opened PathCommands

  datatype Option<T> = None | Some(value: T)

  /** What one redraw shows: the path and, if any, the head marker position. */
  datatype Frame = Frame(path: seq<Cmd>, head: Option<Point>)

  /** The path and head drawn for the current buffer. With fewer than two
      samples there is no path; otherwise the path runs through the trimmed
      trail and the head is the trail's last point. */
  function GeneratePath(d: Metric, buf: seq<Point>): (f: Frame)
    requires NonNegative(d)
    ensures |buf| < 2 ==> f.path == []
    ensures |buf| == 0 <==> f.head == None
    ensures |buf| >= 1 ==> f.head == Some(buf[|buf| - 1])
    ensures |buf| >= 2 ==> 2 <= |f.path| <= |buf| && f.path[0].MoveTo?
    ensures |buf| >= 2 ==> f.path[|f.path| - 1].end == buf[|buf| - 1]
  {
    if |buf| < 2 then
      Frame([], if |buf| == 1 then Some(buf[0]) else None)
    else
      var trail := Selected(d, buf);
      Frame(SmoothPath(trail), Some(trail[|trail| - 1]))
  }

  /** The drawn path describes exactly the reference trail: the longest suffix
      of the buffer within the target length, extended to that length along the
      next older segment. */
  lemma PathDrawsReferenceTrail(d: Metric, buf: seq<Point>)
    requires NonNegative(d)
    requires |buf| >= 2
    ensures Decode(GeneratePath(d, buf).path) == ReferenceTrail(d, buf)
  {
    DecodeSmoothPath(Selected(d, buf));
    SelectedIsReference(d, buf);
  }

  /** After a move that is recorded, the head marker sits at the pointer. */
  lemma HeadFollowsPointer(d: Metric, buf: seq<Point>, p: Point)
    requires NonNegative(d)
    requires MovedEnough(buf, p)
    ensures GeneratePath(d, RecordMove(buf, p)).head == Some(p)
  {
  }

  /** A segment of 100px is drawn whole, as a straight line. */
  lemma ShortSegmentDrawnWhole(d: Metric)
    requires Euclidean(d)
    ensures GeneratePath(d, [Point(0.0, 0.0), Point(100.0, 0.0)])
            == Frame([MoveTo(Point(0.0, 0.0)), LineTo(Point(100.0, 0.0))], Some(Point(100.0, 0.0)))
  {
    EuclideanIsNonNegative(d);
    var a, b := Point(0.0, 0.0), Point(100.0, 0.0);
    assert SqDist(b, a) == 100.0 * 100.0;
    SquareRootUnique(d(b, a), 100.0);
    assert [a, b][..1] == [a];
    assert Walk(d, [a], b, 0.0) == [a];
    assert Selected(d, [a, b]) == Reverse([b, a]);
    assert Reverse([b, a]) == [a, b];
  }

  /** A segment of 2000px is cut to its newest 1000px: the trail starts at the
      interpolated point (1000, 0). */
  lemma LongSegmentCutToTarget(d: Metric)
    requires Euclidean(d)
    ensures GeneratePath(d, [Point(0.0, 0.0), Point(2000.0, 0.0)])
            == Frame([MoveTo(Point(1000.0, 0.0)), LineTo(Point(2000.0, 0.0))], Some(Point(2000.0, 0.0)))
  {
    EuclideanIsNonNegative(d);
    var a, b := Point(0.0, 0.0), Point(2000.0, 0.0);
    assert SqDist(b, a) == 2000.0 * 2000.0;
    SquareRootUnique(d(b, a), 2000.0);
    assert Ratio(Target, 2000.0) == 0.5;
    assert Lerp(b, a, 0.5) == Point(1000.0, 0.0);
    assert [a, b][..1] == [a];
    assert Walk(d, [a], b, 0.0) == [Point(1000.0, 0.0)];
    assert Selected(d, [a, b]) == Reverse([b, Point(1000.0, 0.0)]);
    assert Reverse([b, Point(1000.0, 0.0)]) == [Point(1000.0, 0.0), b];
  }
}
