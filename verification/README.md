# Pointer trail of the InfinitySnake effect

This project models the pointer-trail machinery of the `InfinitySnake` cursor
follower in Dafny. The model has two parts:

- **The sample collector.** This is the body of `handleMouseMove`, modelled as a
  pure state transition on the history buffer (`TrailBuffer.RecordMove`).
  - The buffer holds pointer samples, oldest first.
  - A new position is recorded only when the buffer is empty or the position
    lies more than 1px from the last sample.
  - Once the buffer holds more than 1000 samples, it is cut back to its newest
    800.
- **The path synthesizer.** This is `generatePath` (`Snake.GeneratePath`).
  - It walks the buffer from the newest sample backward, accumulating segment
    lengths up to a target of 1000px.
  - At the first segment that would overshoot, it interpolates the point that
    makes the length exactly 1000px and stops.
  - It reverses what it collected into oldest-first order.
  - It emits an SVG path: `M` first, then either one `L`, or one `Q` followed by
    `T` continuations whose endpoints are midpoints of consecutive points.
  - It returns the newest sample as the head marker position.

Modules, one per file:

- `Geometry` (`geometry.dfy`): the `Point` record, the squared distance, and
  the distance function.
  - Coordinates are reals.
  - `Math.sqrt` has no Dafny counterpart, so the distance is a parameter
    `d: Metric`.
  - Most results need only `NonNegative(d)`.
  - The results about exact lengths assume `Euclidean(d)`, meaning `d(p, q) >= 0`
    and `d(p, q) * d(p, q) == dx * dx + dy * dy`. This determines `d` as the real
    square root.
  - The fact that a fraction `t` of a segment has `t` times its length
    (`ScalesAlongSegments`) is proved from `Euclidean(d)`. It is not assumed.
- `TrailBuffer` (`trail_buffer.dfy`): the pointer-move handler, the buffer
  invariant it keeps (at most 1000 samples, consecutive samples more than 1px
  apart), and its idempotence.
- `Synthesis` (`synthesis.dfy`): the backward walk of `generatePath` as the
  recursive `Walk`, and the reversed trail as `Selected`.
  - Its partner is an independent description, `ReferenceTrail`: the longest
    suffix of the buffer whose arc length is within 1000px, preceded by the
    interpolated point when the buffer is longer than that.
  - `SelectedIsReference` proves the two equal for every buffer.
- `PathCommands` (`path_commands.dfy`): the path as a list of commands
  (`MoveTo`, `LineTo`, `QuadTo`, `SmoothQuadTo`), and its inverse `Decode`.
  - `Decode` recovers the trail by reflecting the control points through the
    segment endpoints.
  - It accepts only the path shapes that are drawn. After a `QuadTo`, only
    `SmoothQuadTo` commands may follow, and the last endpoint must equal the
    last recovered point. Any other path decodes to the empty list.
  - Decoding inverts drawing in both directions:
    `Decode(SmoothPath(pts)) == pts` (`DecodeSmoothPath`), and every path that
    decodes is the path drawn through its decoding (`SmoothPathOfDecode`).
- `Snake` (`snake.dfy`): `generatePath` end to end. It also holds the two
  worked examples: a 100px segment drawn whole, and a 2000px segment cut at
  (1000, 0).

Trail order: the comment at `app/components/InfinitySnake.tsx:57` says the
reversal gives "head to tail" order. The code actually produces oldest first,
with the head (newest sample) last, and it returns that last element as the
head at line 95. The model follows the code.

## Model

| member | source | states |
|---|---|---|
| Geometry.DistanceExceedsIff | app/components/InfinitySnake.tsx:117-122 | for the real square root, `sqrt(dx*dx + dy*dy) > m` holds exactly when `dx*dx + dy*dy > m*m` |
| Geometry.LerpScalesDistance | app/components/InfinitySnake.tsx:46-51 | the interpolated point `prev - (prev - cur) * ratio` lies at `ratio` times the segment length from `prev` |
| TrailBuffer.RecordMove | app/components/InfinitySnake.tsx:111-131 | a move records `p` as the newest sample when the buffer is empty or `p` moved far enough, and otherwise leaves the buffer as it was; once the length exceeds 1000, exactly the newest 800 samples are kept in order; a buffer of at most 1000 stays at most 1000 |
| TrailBuffer.MoveThresholdIsDistance | app/components/InfinitySnake.tsx:117-122 | the squared-distance test used by the model is the source's `Math.sqrt(dx*dx + dy*dy) > 1` |
| TrailBuffer.RecordMovePreservesValid | app/components/InfinitySnake.tsx:111-131 | one move keeps the buffer within 1000 samples with consecutive samples more than 1px apart |
| TrailBuffer.RecordMoves | app/components/InfinitySnake.tsx:111-131 | a stream of moves never invents a point: every buffered sample was buffered before or is one of the pointer positions |
| TrailBuffer.RecordMovesPreservesValid | app/components/InfinitySnake.tsx:111-131 | starting from a valid buffer (the initial empty one included), any stream of moves keeps it bounded and spaced |
| TrailBuffer.RecordMoveIdempotent | app/components/InfinitySnake.tsx:113-125 | for any buffer, repeating a move to the same position records it at most once and changes nothing the second time |
| Synthesis.Ratio | app/components/InfinitySnake.tsx:47-48 | the interpolation ratio lies in [0, 1) and scales the segment to the remaining length; the segment has positive length wherever it is taken, so there is no division by zero |
| Synthesis.Walk | app/components/InfinitySnake.tsx:32-55 | the walk pushes one point per visited sample and pushes nothing only for an empty history; all pushed points but the last are the visited samples, newest first; the accumulated length stays within 1000 at every step |
| Synthesis.Selected | app/components/InfinitySnake.tsx:26-58 | for at least two samples the reversed list has between 2 and `n` points, ends at the newest sample, and apart from its first point is a contiguous in-order suffix of the buffer, so the 0- and 1-point branches at lines 60-66 are never taken |
| Synthesis.ReverseIndex | app/components/InfinitySnake.tsx:58 | reversal moves the element at position `n - 1 - k` of a list of length `n` to position `k` |
| Synthesis.Cut | app/components/InfinitySnake.tsx:42-44 | the first sample of the longest buffer suffix whose arc length is within 1000px: its suffix fits, and the next older one does not |
| Synthesis.WalkFollowsReference | app/components/InfinitySnake.tsx:32-55 | at every step of the walk, the points still to be pushed, reversed and followed by the samples already visited, form the reference trail |
| Synthesis.SelectedIsReference | app/components/InfinitySnake.tsx:26-58 | the trail the walk selects is the longest suffix within 1000px, extended by the interpolated point exactly when an older sample exists beyond it |
| Synthesis.SuffixArcLengthBounded | app/components/InfinitySnake.tsx:40-43 | the accumulated length never decreases as the walk goes back: a suffix is never longer than the whole buffer |
| Synthesis.InterpolatedTrailLength | app/components/InfinitySnake.tsx:46-51 | a trail starting at an interpolated point is exactly 1000px long |
| Synthesis.TrailFromWhole | app/components/InfinitySnake.tsx:42-51 | the reference trail is the whole buffer exactly when no interpolation takes place |
| Synthesis.TrailLength | app/components/InfinitySnake.tsx:26-58 | the drawn trail is never longer than 1000px, and exactly 1000px whenever the buffer is longer than that |
| Synthesis.WholeBufferIffShort | app/components/InfinitySnake.tsx:42-58 | the whole buffer is drawn, without interpolation, exactly when its arc length is within 1000px |
| PathCommands.SmoothPath | app/components/InfinitySnake.tsx:68-93 | `n` points give `n` commands: `M p0`, then `L p1` for two points; for three or more, `Q` with control `p1`, then `n - 2` `T` commands ending at the midpoints of consecutive points and the last one at the last point |
| PathCommands.SegmentsShape | app/components/InfinitySnake.tsx:76-92 | in the curve loop, iteration `i` emits `Q` when `i == 1` and `T` otherwise, ending at the midpoint of `pts[i]` and `pts[i + 1]`, or at the last point |
| PathCommands.DecodeSmoothPath | app/components/InfinitySnake.tsx:69-92 | the path loses no information: decoding the commands gives back exactly the trail they were drawn through |
| PathCommands.SmoothPathOfDecode | app/components/InfinitySnake.tsx:69-92 | the drawn paths are exactly the paths that decode: any command list that decodes to a trail is the path drawn through that trail, so no other command list stands for the same trail |
| Snake.GeneratePath | app/components/InfinitySnake.tsx:21-96 | with fewer than two samples the path is empty, and the head is the single sample or absent; otherwise the path has 2 to `n` commands, opens with a move and ends at the head, and the head is the newest sample |
| Snake.PathDrawsReferenceTrail | app/components/InfinitySnake.tsx:21-96 | the path drawn for a buffer of two or more samples decodes to the reference trail |
| Snake.HeadFollowsPointer | app/components/InfinitySnake.tsx:113-125 | after a recorded move, the head marker sits at the pointer position |
| Snake.ShortSegmentDrawnWhole | app/components/InfinitySnake.tsx:26-95 | buffer `[(0,0), (100,0)]` is drawn as `M 0 0 L 100 0` with head `(100,0)` |
| Snake.LongSegmentCutToTarget | app/components/InfinitySnake.tsx:42-58 | buffer `[(0,0), (2000,0)]` is drawn as `M 1000 0 L 2000 0` with head `(2000,0)` |

## Left out

- Floating point: coordinates and lengths are reals. IEEE rounding in the
  distance, the running total and the interpolation is not modelled, so the
  exact-1000px results hold for the real-number computation only.
- `Math.sqrt` is the parameter `d`. Its results are constrained by `Euclidean(d)`
  where exact lengths matter, and by `NonNegative(d)` elsewhere.
- Path serialisation: the template strings `M x y`, `L x y`, `Q cx cy x y`,
  `T x y` and JavaScript's number-to-string conversion are not modelled. The
  path is the command list `seq<Cmd>`.
- The branches at `app/components/InfinitySnake.tsx:60-66` (zero or one point
  after the reversal) are not modelled, because they cannot be reached with
  two or more samples (`Synthesis.Selected`).
- The one-point case returns `trailRef.current[0] || null` at line 23. A point
  object is never falsy, so this is modelled as the single sample.
- React state, refs and effects, the `requestAnimationFrame` loop, the render
  trigger counter and the deferred state update (lines 98-166): these are
  framework scheduling. The model applies `GeneratePath` to whatever buffer the frame sees.
- Hue rotation `(prev + 0.3) % 360` on a 50ms timer (lines 135-138): a timer
  driven cosmetic value with no structure to verify.
- Window resize handling (lines 99-108 and 148) and the gradient colours and
  SVG/JSX rendering (gradient, stroke, head circle, lines 168-211):
  presentation only.
- Event listener registration and removal, and mutation of the shared buffer
  in place: the handler is modelled as a function from the old buffer to the
  new one.
- `app/page.tsx`: static markup with no logic.
- Determinism of the synthesizer needs no statement: every operation here is
  a pure function.
