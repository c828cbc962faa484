/** The smooth-curve description `generatePath` builds from the ordered trail,
    as a list of SVG path commands instead of a string, and the decoding that
    recovers the trail from it. */
module PathCommands {
  import opened Geometry

  /** SVG path commands `M x y`, `L x y`, `Q cx cy x y` and `T x y`; `end` is the
      point each one ends at. */
  datatype Cmd =
    | MoveTo(end: Point)
    | LineTo(end: Point)
    | QuadTo(ctrl: Point, end: Point)
    | SmoothQuadTo(end: Point)

  /** The smaller of two integers (the source's `Math.min`). */
  function Min(a: int, b: int): (m: int)
    ensures m <= a && m <= b
    ensures m == a || m == b
  {
    if a <= b then a else b
  }

  /** The on-curve endpoint of the segment controlled by `pts[i]`: the midpoint
      to the next point, or the last point itself. */
  function EndPoint(pts: seq<Point>, i: nat): Point
    requires 1 <= i < |pts|
  {
    var next := pts[Min(i + 1, |pts| - 1)];
    if i == |pts| - 1 then pts[i] else Mid(pts[i], next)
  }

  /** The curve segments for control points `pts[i..]`: the first is an explicit
      quadratic curve, later ones smooth continuations. */
  function Segments(pts: seq<Point>, i: nat): (cmds: seq<Cmd>)
    requires 3 <= |pts|
    requires 1 <= i <= |pts|
    ensures |cmds| == |pts| - i
    decreases |pts| - i
  {
    if i == |pts| then []
    else
      var end := EndPoint(pts, i);
      var cmd := if i == 1 then QuadTo(pts[i], end) else SmoothQuadTo(end);
      [cmd] + Segments(pts, i + 1)
  }

  /** The segment for control point `pts[i + k]` sits at position `k`. */
  lemma {:induction false} SegmentsShape(pts: seq<Point>, i: nat)
    requires 3 <= |pts|
    requires 1 <= i <= |pts|
    ensures forall k :: 0 <= k < |pts| - i && i + k == 1 ==> Segments(pts, i)[k] == QuadTo(pts[1], EndPoint(pts, 1))
    ensures forall k :: 0 <= k < |pts| - i && i + k > 1 ==> Segments(pts, i)[k] == SmoothQuadTo(EndPoint(pts, i + k))
    decreases |pts| - i
  {
    if i < |pts| {
      SegmentsShape(pts, i + 1);
    }
  }

  /** The path drawn through an ordered trail of at least two points. */
  function SmoothPath(pts: seq<Point>): (cmds: seq<Cmd>)
    requires |pts| >= 2
    ensures |cmds| == |pts|
    ensures cmds[0] == MoveTo(pts[0])
    ensures |pts| == 2 ==> cmds[1] == LineTo(pts[1])
    ensures |pts| >= 3 ==> cmds[1] == QuadTo(pts[1], Mid(pts[1], pts[2]))
    ensures forall k :: 2 <= k < |pts| - 1 ==> cmds[k] == SmoothQuadTo(Mid(pts[k], pts[k + 1]))
    ensures |pts| >= 3 ==> cmds[|pts| - 1] == SmoothQuadTo(pts[|pts| - 1])
    ensures cmds[|cmds| - 1].end == pts[|pts| - 1]
  {
    var first := MoveTo(pts[0]);
    if |pts| == 2 then [first, LineTo(pts[1])]
    else
      var rest := Segments(pts, 1);
      SegmentsShape(pts, 1);
      [first] + rest
  }

  /** The endpoints of the commands. */
  function Ends(cmds: seq<Cmd>): (ends: seq<Point>)
    ensures |ends| == |cmds|
  {
    if |cmds| == 0 then [] else [cmds[0].end] + Ends(cmds[1..])
  }

  /** Recovers the control points after `prev` from the endpoints of the curve
      segments: each endpoint but the last is the midpoint of a control point and
      the next one. */
  function Unfold(prev: Point, ends: seq<Point>): (pts: seq<Point>)
    ensures |pts| == if |ends| == 0 then 0 else |ends| - 1
    decreases |ends|
  {
    if |ends| <= 1 then []
    else
      var next := Reflect(ends[0], prev);
      [next] + Unfold(next, ends[1..])
  }

  /** Every command is a smooth continuation `T`. */
  predicate AllSmooth(cmds: seq<Cmd>) {
    forall k :: 0 <= k < |cmds| ==> cmds[k].SmoothQuadTo?
  }

  /** The trail a path describes: the move-to point, then the line-to point, or
      the control point of the first curve and those recovered from the
      endpoints. A curve must be followed by smooth continuations only, and the
      last of them must end at the last recovered point, as it does in a drawn
      path. Anything else describes no trail. */
  function Decode(cmds: seq<Cmd>): seq<Point> {
    if |cmds| < 2 || !cmds[0].MoveTo? then []
    else match cmds[1]
      case LineTo(p) => if |cmds| == 2 then [cmds[0].end, p] else []
      case QuadTo(c, _) =>
        var pts := [cmds[0].end, c] + Unfold(c, Ends(cmds[1..]));
        if |cmds| >= 3 && AllSmooth(cmds[2..]) && pts[|pts| - 1] == cmds[|cmds| - 1].end then pts else []
      case _ => []
  }

  /** Unfolding the endpoints of the segments from `pts[i]` on recovers the
      control points after `pts[i]`. */
  lemma {:induction false} UnfoldSegments(pts: seq<Point>, i: nat)
    requires 3 <= |pts|
    requires 1 <= i < |pts|
    ensures Unfold(pts[i], Ends(Segments(pts, i))) == pts[i + 1..]
    decreases |pts| - i
  {
    var ends := Ends(Segments(pts, i));
    if i < |pts| - 1 {
      assert ends[0] == Mid(pts[i], pts[i + 1]);
      ReflectMid(pts[i], pts[i + 1]);
      assert Ends(Segments(pts, i))[1..] == Ends(Segments(pts, i + 1)) by {
        assert Segments(pts, i)[1..] == Segments(pts, i + 1);
      }
      UnfoldSegments(pts, i + 1);
      assert [pts[i + 1]] + pts[i + 2..] == pts[i + 1..];
    }
  }

  /** A path that opens with a move and a quadratic curve, continues smoothly
      and ends at the last recovered point decodes through the curve's control
      point. */
  lemma DecodeQuad(start: Point, rest: seq<Cmd>)
    requires |rest| >= 2 && rest[0].QuadTo? && AllSmooth(rest[1..])
    requires ([start, rest[0].ctrl] + Unfold(rest[0].ctrl, Ends(rest)))[|rest|] == rest[|rest| - 1].end
    ensures Decode([MoveTo(start)] + rest) == [start, rest[0].ctrl] + Unfold(rest[0].ctrl, Ends(rest))
  {
    var cmds := [MoveTo(start)] + rest;
    assert cmds[1..] == rest;
    assert cmds[2..] == rest[1..];
  }

  /** Unfolding the endpoints of all curve segments recovers the trail. */
  lemma UnfoldCurve(pts: seq<Point>)
    requires |pts| >= 3
    ensures [pts[0], pts[1]] + Unfold(pts[1], Ends(Segments(pts, 1))) == pts
  {
    var u := Unfold(pts[1], Ends(Segments(pts, 1)));
    UnfoldSegments(pts, 1);
    assert u == pts[2..];
    PrependTwo(pts);
  }

  /** A list of two or more elements is its first two followed by the rest. */
  lemma PrependTwo<T>(s: seq<T>)
    requires |s| >= 2
    ensures [s[0], s[1]] + s[2..] == s
  {
  }

  /** The curve for three or more points decodes to them. */
  lemma DecodeCurve(pts: seq<Point>)
    requires |pts| >= 3
    ensures Decode([MoveTo(pts[0])] + Segments(pts, 1)) == pts
  {
    var rest := Segments(pts, 1);
    SegmentsShape(pts, 1);
    assert rest[0] == QuadTo(pts[1], EndPoint(pts, 1));
    assert AllSmooth(rest[1..]) by {
      forall k | 0 <= k < |rest| - 1
        ensures rest[1..][k].SmoothQuadTo?
      {
        assert rest[1..][k] == rest[k + 1];
      }
    }
    UnfoldCurve(pts);
    assert rest[|rest| - 1].end == pts[|pts| - 1];
    DecodeQuad(pts[0], rest);
  }

  /** Decoding the path gives back the trail it was drawn through. */
  lemma DecodeSmoothPath(pts: seq<Point>)
    requires |pts| >= 2
    ensures Decode(SmoothPath(pts)) == pts
  {
    if |pts| >= 3 {
      DecodeCurve(pts);
    }
  }

  /** Position `k` of the endpoint list is the endpoint of command `k`. */
  lemma {:induction false} EndsIndex(cmds: seq<Cmd>)
    ensures forall k :: 0 <= k < |cmds| ==> Ends(cmds)[k] == cmds[k].end
  {
    if |cmds| > 0 {
      EndsIndex(cmds[1..]);
    }
  }

  /** In `prev` followed by the unfolded control points, each control point is
      the previous one reflected through the next endpoint. */
  lemma {:induction false} UnfoldChain(prev: Point, ends: seq<Point>)
    ensures forall i :: 0 <= i < |ends| - 1 ==>
              ([prev] + Unfold(prev, ends))[i + 1] == Reflect(ends[i], ([prev] + Unfold(prev, ends))[i])
    decreases |ends|
  {
    if |ends| > 1 {
      var next := Reflect(ends[0], prev);
      var u := [prev] + Unfold(prev, ends);
      var v := [next] + Unfold(next, ends[1..]);
      UnfoldChain(next, ends[1..]);
      assert u[1..] == v;
      forall i | 0 <= i < |ends| - 1
        ensures u[i + 1] == Reflect(ends[i], u[i])
      {
        if i > 0 {
          assert u[i + 1] == v[i] && u[i] == v[i - 1] && ends[i] == ends[1..][i - 1];
        }
      }
    }
  }

  /** A path through `pts` that opens with a move to the first point and a
      curve controlled by the second, continues smoothly, ends each segment at
      the midpoint of its control point and the next, and ends at the last
      point, is the path drawn through `pts`. */
  lemma CurveIsDrawn(pts: seq<Point>, cmds: seq<Cmd>)
    requires |pts| == |cmds| >= 3
    requires cmds[0].MoveTo? && cmds[0].end == pts[0]
    requires cmds[1].QuadTo? && cmds[1].ctrl == pts[1]
    requires forall k :: 2 <= k < |cmds| ==> cmds[k].SmoothQuadTo?
    requires forall k :: 1 <= k < |pts| - 1 ==> Mid(pts[k], pts[k + 1]) == cmds[k].end
    requires cmds[|cmds| - 1].end == pts[|pts| - 1]
    ensures SmoothPath(pts) == cmds
  {
    var drawn := SmoothPath(pts);
    forall k | 0 <= k < |pts|
      ensures drawn[k] == cmds[k]
    {
      if k == 0 {
        assert cmds[0] == MoveTo(pts[0]);
      } else if k == 1 {
        assert cmds[1] == QuadTo(pts[1], Mid(pts[1], pts[2]));
      } else if k < |pts| - 1 {
        assert cmds[k] == SmoothQuadTo(Mid(pts[k], pts[k + 1]));
      } else {
        assert cmds[k] == SmoothQuadTo(pts[k]);
      }
    }
  }

  /** A curve path that decodes is the path drawn through the trail it decodes
      to. */
  lemma SmoothPathOfCurve(cmds: seq<Cmd>)
    requires |cmds| >= 3 && cmds[0].MoveTo? && cmds[1].QuadTo?
    requires Decode(cmds) != []
    ensures SmoothPath(Decode(cmds)) == cmds
  {
    var c := cmds[1].ctrl;
    var ends := Ends(cmds[1..]);
    var u := [c] + Unfold(c, ends);
    var pts := [cmds[0].end] + u;
    assert pts == Decode(cmds);
    assert AllSmooth(cmds[2..]);
    forall k | 2 <= k < |cmds|
      ensures cmds[k].SmoothQuadTo?
    {
      assert cmds[2..][k - 2] == cmds[k];
    }
    EndsIndex(cmds[1..]);
    UnfoldChain(c, ends);
    forall k | 1 <= k < |pts| - 1
      ensures Mid(pts[k], pts[k + 1]) == cmds[k].end
    {
      assert pts[k + 1] == u[k] && pts[k] == u[k - 1];
      assert ends[k - 1] == cmds[1..][k - 1].end;
    }
    CurveIsDrawn(pts, cmds);
  }

  /** Every path that decodes is the path drawn through the trail it decodes
      to: with `DecodeSmoothPath`, drawing and decoding are inverse to each
      other between trails of two or more points and the paths that decode. */
  lemma SmoothPathOfDecode(cmds: seq<Cmd>)
    requires Decode(cmds) != []
    ensures |Decode(cmds)| >= 2
    ensures SmoothPath(Decode(cmds)) == cmds
  {
    if cmds[1].QuadTo? {
      SmoothPathOfCurve(cmds);
    }
  }
}
