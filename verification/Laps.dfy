/**
 * The simulator's distance and lap accounting, over the reals: the kart's speed limit, the arc-length
 * table of the closed track, and the episode loop that unwraps positions along it.
 */
module Laps {
  datatype Point = Point(x: real, y: real)

  /** Functions the accounting does not look into. */
  datatype World = World(
    hypot: (real, real) -> real,
    sqrt: real -> real,
    cos: real -> real,
    sin: real -> real,
    tan: real -> real,
    boundary: (real, real) -> real)

  /** All that is asked of them. */
  ghost predicate Sensible(w: World) { forall a, b :: w.hypot(a, b) >= 0.0 }

  function Abs(x: real): real { if x < 0.0 then -x else x }

  // ----- The kart

  const WHEELBASE := 1.05
  const MAX_STEER := 0.5
  const MAX_SPEED := 10.0
  const MAX_ACCEL := 2.0
  const DT := 0.05

  datatype KartState = KartState(x: real, y: real, yaw: real, speed: real)

  function Clip(x: real, low: real, high: real): real {
    var atLeast := if x < low then low else x;
    if atLeast > high then high else atLeast
  }

  /** kart_model.step */
  function KartStep(w: World, s: KartState, steerCmd: real, speedCmd: real, dt: real): KartState {
    var steer := Clip(steerCmd, -MAX_STEER, MAX_STEER);
    var target := Clip(speedCmd, 0.0, MAX_SPEED);
    var dv := Clip(target - s.speed, -(MAX_ACCEL * dt), MAX_ACCEL * dt);
    KartState(s.x + s.speed * w.cos(s.yaw) * dt, s.y + s.speed * w.sin(s.yaw) * dt,
              s.yaw + s.speed * w.tan(steer) / WHEELBASE * dt, Clip(s.speed + dv, 0.0, MAX_SPEED))
  }

  /** Whatever is commanded, the speed is between zero and the limit and changes no faster than allowed. */
  lemma SpeedInRange(w: World, s: KartState, steerCmd: real, speedCmd: real, dt: real)
    ensures 0.0 <= KartStep(w, s, steerCmd, speedCmd, dt).speed <= MAX_SPEED
    ensures dt >= 0.0 && 0.0 <= s.speed <= MAX_SPEED ==>
              Abs(KartStep(w, s, steerCmd, speedCmd, dt).speed - s.speed) <= MAX_ACCEL * dt
  {
  }

  // ----- The centerline

  const NUM_INTERP_PER_SEGMENT := 100

  function Distance(w: World, p: Point, q: Point): real { w.hypot(q.x - p.x, q.y - p.y) }

  /** Length of the polyline up to point k. */
  function ArcLength(w: World, points: seq<Point>, k: nat): real
    requires k < |points|
  {
    if k == 0 then 0.0 else ArcLength(w, points, k - 1) + Distance(w, points[k - 1], points[k])
  }

  lemma {:induction false} ArcLengthMonotone(w: World, points: seq<Point>, j: nat, k: nat)
    requires Sensible(w) && j <= k < |points|
    ensures 0.0 <= ArcLength(w, points, j) <= ArcLength(w, points, k)
    decreases k
  {
    if k == 0 {
    } else {
      assert Distance(w, points[k - 1], points[k]) >= 0.0;
      ArcLengthMonotone(w, points, if j < k then j else k - 1, k - 1);
    }
  }

  lemma {:induction false} ArcLengthPrefix(w: World, points: seq<Point>, more: seq<Point>, k: nat)
    requires k < |points|
    ensures ArcLength(w, points + more, k) == ArcLength(w, points, k)
  {
    if k == 0 {
    } else {
      ArcLengthPrefix(w, points, more, k - 1);
    }
  }

  /** The point j hundredths of the way along a segment. */
  function Interpolated(p: Point, q: Point, j: nat): Point {
    var t := j as real / NUM_INTERP_PER_SEGMENT as real;
    Point(p.x + t * (q.x - p.x), p.y + t * (q.y - p.y))
  }

  /** Point k of the closed polyline through the given points, each segment divided in a hundred. */
  function Sample(ordered: seq<Point>, k: nat): Point
    requires k < NUM_INTERP_PER_SEGMENT * |ordered|
  {
    var i := k / NUM_INTERP_PER_SEGMENT;
    Interpolated(ordered[i], ordered[(i + 1) % |ordered|], k % NUM_INTERP_PER_SEGMENT)
  }

  /** The points half-way between opposite cones. */
  function Midpoints(blue: seq<Point>, yellow: seq<Point>): (m: seq<Point>)
    requires |blue| == |yellow|
    ensures |m| == |blue|
  {
    seq(|blue|, i requires 0 <= i < |blue| => Point((blue[i].x + yellow[i].x) / 2.0, (blue[i].y + yellow[i].y) / 2.0))
  }

  function Distances(w: World, points: seq<Point>, p: Point): (d: seq<real>)
    ensures |d| == |points|
  {
    seq(|points|, i requires 0 <= i < |points| => Distance(w, p, points[i]))
  }

  /** Index of the first smallest element. */
  function ArgMin(v: seq<real>): (k: nat)
    requires |v| > 0
    ensures k < |v|
    ensures forall i :: 0 <= i < |v| ==> v[k] <= v[i]
    ensures forall i :: 0 <= i < k ==> v[k] < v[i]
  {
    if |v| == 1 then 0
    else
      var k := ArgMin(v[..|v| - 1]);
      if v[|v| - 1] < v[k] then |v| - 1 else k
  }

  /** The squared distance of a point from a place. */
  function Square(p: Point, x: real, y: real): real { (p.x - x) * (p.x - x) + (p.y - y) * (p.y - y) }

  lemma FirstMin(v: seq<real>, k: nat)
    requires k < |v| && (forall i :: 0 <= i < |v| ==> v[k] <= v[i]) && (forall i :: 0 <= i < k ==> v[k] < v[i])
    ensures ArgMin(v) == k
  {
    var best := ArgMin(v);
    assert v[best] <= v[k] && v[k] <= v[best];
  }

  /** The table so far: an entry for each point, and one for the point to come if there is none yet. */
  ghost predicate Measured(w: World, points: seq<Point>, cumS: seq<real>) {
    && |cumS| == (if points == [] then 1 else |points|)
    && (points == [] ==> cumS[0] == 0.0)
    && forall k :: 0 <= k < |points| ==> cumS[k] == ArcLength(w, points, k)
  }

  lemma MeasuredStart(w: World)
    ensures Measured(w, [], [0.0])
  {
  }

  lemma MeasuredTable(w: World, points: seq<Point>, cumS: seq<real>)
    requires Measured(w, points, cumS) && points != []
    ensures |cumS| == |points| && forall k :: 0 <= k < |points| ==> cumS[k] == ArcLength(w, points, k)
    ensures var p, q := points[|points| - 1], points[0]; Distance(w, p, q) == w.hypot(q.x - p.x, q.y - p.y)
  {
  }

  lemma MeasuredGrows(w: World, points: seq<Point>, cumS: seq<real>, p: Point)
    requires Measured(w, points, cumS)
    ensures points == [] ==> Measured(w, points + [p], cumS)
    ensures |cumS| > 0 && (points != [] ==> |cumS| == |points|)
    ensures points != [] ==>
              var q := points[|points| - 1];
              Measured(w, points + [p], cumS + [cumS[|cumS| - 1] + w.hypot(p.x - q.x, p.y - q.y)])
  {
    if points != [] {
      forall k | 0 <= k < |points|
        ensures ArcLength(w, points + [p], k) == ArcLength(w, points, k)
      {
        ArcLengthPrefix(w, points, [p], k);
      }
    }
  }

  lemma SampleIs(ordered: seq<Point>, i: nat, j: nat)
    requires i < |ordered| && j < NUM_INTERP_PER_SEGMENT
    ensures NUM_INTERP_PER_SEGMENT * i + j < NUM_INTERP_PER_SEGMENT * |ordered|
    ensures Sample(ordered, NUM_INTERP_PER_SEGMENT * i + j) == Interpolated(ordered[i], ordered[(i + 1) % |ordered|], j)
  {
    hide Interpolated;
    var k := 100 * i + j;
    assert k / 100 == i && k % 100 == j;
  }

  // ----- The centerline and the cones

  /** How far the middle between two opposite cones is from a place. */
  function Reach(w: World, blue: Point, yellow: Point, from: Point): real {
    w.hypot((blue.x + yellow.x) / 2.0 - from.x, (blue.y + yellow.y) / 2.0 - from.y)
  }

  /** The first pair of cones whose middle is nearest to the spawn point. */
  predicate FirstNearest(w: World, blue: seq<Point>, yellow: seq<Point>, spawn: Point, first: nat)
    requires |blue| == |yellow|
  {
    && first < |blue|
    && (forall i :: 0 <= i < |blue| ==>
          Reach(w, blue[first], yellow[first], spawn) <= Reach(w, blue[i], yellow[i], spawn))
    && (forall i :: 0 <= i < first ==>
          Reach(w, blue[first], yellow[first], spawn) < Reach(w, blue[i], yellow[i], spawn))
  }

  /** p lies j hundredths of the way from the middle of the cones r to the middle of the next ones around the track. */
  predicate OnSegment(p: Point, blue: seq<Point>, yellow: seq<Point>, r: nat, j: nat)
    requires r < |blue| == |yellow| && j < 100
  {
    var next := (r + 1) % |blue|;
    && 200.0 * p.x == (100 - j) as real * (blue[r].x + yellow[r].x) + j as real * (blue[next].x + yellow[next].x)
    && 200.0 * p.y == (100 - j) as real * (blue[r].y + yellow[r].y) + j as real * (blue[next].y + yellow[next].y)
  }

  /** A hundred points a segment, from the cones numbered first all the way around. */
  predicate AlongCones(xy: seq<Point>, blue: seq<Point>, yellow: seq<Point>, first: nat)
    requires |blue| == |yellow| > 0
  {
    && |xy| == 100 * |blue|
    && forall k :: 0 <= k < |xy| ==> OnSegment(xy[k], blue, yellow, (first + k / 100) % |blue|, k % 100)
  }

  /** The polyline runs half-way between the cones, beginning at the first middle nearest the spawn point. */
  ghost predicate StartsNearest(w: World, xy: seq<Point>, blue: seq<Point>, yellow: seq<Point>, spawn: Point)
    requires |blue| == |yellow| > 0
  {
    exists first :: FirstNearest(w, blue, yellow, spawn, first) && AlongCones(xy, blue, yellow, first)
  }

  lemma Fraction(p: real, q: real, j: nat)
    ensures 100.0 * (p + j as real / 100.0 * (q - p)) == (100 - j) as real * p + j as real * q
  {
    var t := j as real / 100.0;
    assert 100.0 * (t * (q - p)) == j as real * (q - p);
    assert (100 - j) as real == 100.0 - j as real;
  }

  lemma MidpointOnSegment(blue: seq<Point>, yellow: seq<Point>, r: nat, j: nat)
    requires r < |blue| == |yellow| && j < 100
    ensures var m := Midpoints(blue, yellow);
            OnSegment(Interpolated(m[r], m[(r + 1) % |m|], j), blue, yellow, r, j)
  {
    var m := Midpoints(blue, yellow);
    var next := (r + 1) % |m|;
    Fraction(m[r].x, m[next].x, j);
    Fraction(m[r].y, m[next].y, j);
  }

  lemma OnceAround(a: nat, n: nat)
    requires a < 2 * n
    ensures a % n == if a < n then a else a - n
  {
    if a >= n {
      assert (a - n) % n == a - n;
    }
  }

  /** Going on by i + 1, wherever the wrap falls. */
  lemma Around(first: nat, i: nat, n: nat)
    requires first < n && i < n
    ensures (first + (i + 1) % n) % n == ((first + i) % n + 1) % n
  {
    OnceAround(i + 1, n);
    OnceAround(first + i, n);
    OnceAround((first + i) % n + 1, n);
    OnceAround(first + (i + 1) % n, n);
  }

  lemma Rotated(m: seq<Point>, first: nat, i: nat)
    requires first < |m| && i < |m|
    ensures (m[first..] + m[..first])[i] == m[(first + i) % |m|]
  {
    OnceAround(first + i, |m|);
  }

  /** The samples of the rotated midpoints run along the cones. */
  lemma SamplesAlongCones(xy: seq<Point>, blue: seq<Point>, yellow: seq<Point>, first: nat)
    requires |blue| == |yellow| > 0 && first < |blue| && |xy| == NUM_INTERP_PER_SEGMENT * |blue|
    requires var m := Midpoints(blue, yellow);
             forall k :: 0 <= k < |xy| ==> xy[k] == Sample(m[first..] + m[..first], k)
    ensures AlongCones(xy, blue, yellow, first)
  {
    var m, n := Midpoints(blue, yellow), |blue|;
    hide Midpoints, Interpolated, OnSegment;
    forall k | 0 <= k < |xy|
      ensures OnSegment(xy[k], blue, yellow, (first + k / 100) % n, k % 100)
    {
      var i := k / 100;
      var r := (first + i) % n;
      Rotated(m, first, i);
      Rotated(m, first, (i + 1) % n);
      Around(first, i, n);
      MidpointOnSegment(blue, yellow, r, k % 100);
    }
  }

  lemma NearestMidpoint(w: World, blue: seq<Point>, yellow: seq<Point>, spawn: Point)
    requires |blue| == |yellow| > 0
    ensures FirstNearest(w, blue, yellow, spawn, ArgMin(Distances(w, Midpoints(blue, yellow), spawn)))
  {
    var d := Distances(w, Midpoints(blue, yellow), spawn);
    forall i | 0 <= i < |blue|
      ensures d[i] == Reach(w, blue[i], yellow[i], spawn)
    {
    }
    hide Distances, Midpoints, Reach, ArgMin;
  }

  class Track {
    const world: World
    const halfTrackWidth: real
    var centerlineXy: seq<Point>
    var centerlineS: seq<real>
    var trackLength: real

    /** The table gives every point its arc length, and the length closes the loop. */
    ghost predicate Valid()
      reads this
    {
      && |centerlineXy| > 0
      && |centerlineS| == |centerlineXy|
      && (forall k :: 0 <= k < |centerlineXy| ==> centerlineS[k] == ArcLength(world, centerlineXy, k))
      && trackLength == centerlineS[|centerlineS| - 1]
                        + Distance(world, centerlineXy[|centerlineXy| - 1], centerlineXy[0])
    }

    constructor (w: World, halfWidth: real, blue: seq<Point>, yellow: seq<Point>, spawn: Point)
      requires Sensible(w) && |blue| == |yellow| > 0 && halfWidth > 0.0
      ensures Valid() && world == w && halfTrackWidth == halfWidth
      ensures StartsNearest(w, centerlineXy, blue, yellow, spawn)
    {
      world, halfTrackWidth := w, halfWidth;
      centerlineXy, centerlineS, trackLength := [], [0.0], 0.0;
      new;
      ComputeCenterline(blue, yellow, spawn);
    }

    /** Track._compute_centerline: from the midpoint nearest the spawn point on, around the track. */
    method ComputeCenterline(blue: seq<Point>, yellow: seq<Point>, spawn: Point)
      requires Sensible(world) && |blue| == |yellow| > 0
      modifies this
      ensures Valid()
      ensures StartsNearest(world, centerlineXy, blue, yellow, spawn)
    {
      hide Midpoints, ArgMin, Distance, Distances, ArcLength, Sample, Measured, Sensible, FirstNearest, AlongCones;
      var midpoints := Midpoints(blue, yellow);
      var spawnIdx := ArgMin(Distances(world, midpoints, spawn));
      var ordered := midpoints[spawnIdx..] + midpoints[..spawnIdx];
      var points, cumS := Sampled(ordered);
      MeasuredTable(world, points, cumS);
      NearestMidpoint(world, blue, yellow, spawn);
      SamplesAlongCones(points, blue, yellow, spawnIdx);
      centerlineXy := points;
      centerlineS := cumS;
      trackLength := centerlineS[|centerlineS| - 1]
                     + world.hypot(centerlineXy[0].x - centerlineXy[|centerlineXy| - 1].x,
                                   centerlineXy[0].y - centerlineXy[|centerlineXy| - 1].y);
    }

    /** Its loops over segments and fractions. */
    method Sampled(ordered: seq<Point>) returns (points: seq<Point>, cumS: seq<real>)
      requires |ordered| > 0
      ensures |points| == NUM_INTERP_PER_SEGMENT * |ordered| && Measured(world, points, cumS)
      ensures forall k :: 0 <= k < |points| ==> points[k] == Sample(ordered, k)
    {
      hide Interpolated, Sample, Measured;
      var n := |ordered|;
      points, cumS := [], [0.0];
      MeasuredStart(world);
      for i := 0 to n
        invariant |points| == NUM_INTERP_PER_SEGMENT * i && Measured(world, points, cumS)
        invariant forall k :: 0 <= k < |points| ==> points[k] == Sample(ordered, k)
      {
        points, cumS := AddSegment(ordered, i, points, cumS);
      }
    }

    method AddSegment(ordered: seq<Point>, i: nat, points0: seq<Point>, cumS0: seq<real>)
      returns (points: seq<Point>, cumS: seq<real>)
      requires i < |ordered| && |points0| == NUM_INTERP_PER_SEGMENT * i && Measured(world, points0, cumS0)
      requires forall k :: 0 <= k < |points0| ==> points0[k] == Sample(ordered, k)
      ensures |points| == NUM_INTERP_PER_SEGMENT * (i + 1) && Measured(world, points, cumS)
      ensures forall k :: 0 <= k < |points| ==> points[k] == Sample(ordered, k)
    {
      hide Interpolated, Sample, Measured;
      points, cumS := points0, cumS0;
      var p0, p1 := ordered[i], ordered[(i + 1) % |ordered|];
      for j := 0 to NUM_INTERP_PER_SEGMENT
        invariant |points| == NUM_INTERP_PER_SEGMENT * i + j && Measured(world, points, cumS)
        invariant forall k :: 0 <= k < |points| ==> points[k] == Sample(ordered, k)
      {
        SampleIs(ordered, i, j);
        points, cumS := AddPoint(points, cumS, Interpolated(p0, p1, j));
      }
    }

    /** The inner loop's body: the point, and the way to it from the one before. */
    method AddPoint(points: seq<Point>, cumS: seq<real>, p: Point) returns (points': seq<Point>, cumS': seq<real>)
      requires Measured(world, points, cumS)
      ensures points' == points + [p] && Measured(world, points', cumS')
    {
      MeasuredGrows(world, points, cumS, p);
      hide Measured;
      points' := points + [p];
      cumS' := cumS;
      if |points'| > 1 {
        var dx := points'[|points'| - 1].x - points'[|points'| - 2].x;
        var dy := points'[|points'| - 1].y - points'[|points'| - 2].y;
        cumS' := cumS + [cumS[|cumS| - 1] + world.hypot(dx, dy)];
      }
    }

    /** The squared distances of the centerline's points from a place. */
    function Squares(x: real, y: real): (d: seq<real>)
      reads this
      ensures |d| == |centerlineXy|
    {
      var points := centerlineXy;
      seq(|points|, i requires 0 <= i < |points| =>
        (points[i].x - x) * (points[i].x - x) + (points[i].y - y) * (points[i].y - y))
    }

    /** Track.project_to_centerline: arc length of the nearest point and the distance to it. */
    function Project(x: real, y: real): (r: (real, real))
      requires Valid()
      reads this
      ensures Sensible(world) ==> 0.0 <= r.0 <= trackLength
    {
      var k := ArgMin(Squares(x, y));
      TableInRange(k);
      (centerlineS[k], world.sqrt(Squares(x, y)[k]))
    }

    lemma SquaresAt(x: real, y: real, i: nat)
      requires i < |centerlineXy|
      ensures Squares(x, y)[i] == Square(centerlineXy[i], x, y)
    {
    }

    /** The projection is onto the first of the nearest points, with the distance to it. */
    lemma ProjectsOntoNearest(x: real, y: real, k: nat)
      requires Valid() && k < |centerlineXy|
      requires forall i :: 0 <= i < |centerlineXy| ==> Square(centerlineXy[k], x, y) <= Square(centerlineXy[i], x, y)
      requires forall i :: 0 <= i < k ==> Square(centerlineXy[k], x, y) < Square(centerlineXy[i], x, y)
      ensures Project(x, y) == (centerlineS[k], world.sqrt(Square(centerlineXy[k], x, y)))
    {
      var d := Squares(x, y);
      forall i | 0 <= i < |d|
        ensures d[i] == Square(centerlineXy[i], x, y)
      {
        SquaresAt(x, y, i);
      }
      hide Square, Squares, ArgMin;
      FirstMin(d, k);
    }

    /** The table starts at zero, grows by the length of each piece, and the last piece leads back to the start. */
    lemma TableSteps(k: nat)
      requires Valid() && k < |centerlineXy|
      ensures |centerlineS| == |centerlineXy| && centerlineS[0] == 0.0
      ensures var p, q := centerlineXy[k], centerlineXy[if k + 1 == |centerlineXy| then 0 else k + 1];
              (if k + 1 == |centerlineXy| then trackLength else centerlineS[k + 1]) - centerlineS[k] ==
                world.hypot(q.x - p.x, q.y - p.y)
    {
      if k + 1 < |centerlineXy| {
        assert centerlineS[k + 1] == ArcLength(world, centerlineXy, k + 1);
      }
    }

    /** Every entry of the table is between zero and the track's length, and entries never decrease. */
    lemma TableInRange(k: nat)
      requires Valid() && k < |centerlineS|
      ensures Sensible(world) ==> 0.0 <= centerlineS[k] <= trackLength
      ensures Sensible(world) ==> forall j :: 0 <= j <= k ==> centerlineS[j] <= centerlineS[k]
    {
      if Sensible(world) {
        var last := |centerlineXy| - 1;
        ArcLengthMonotone(world, centerlineXy, k, last);
        assert Distance(world, centerlineXy[last], centerlineXy[0]) >= 0.0;
        forall j | 0 <= j <= k
          ensures centerlineS[j] <= centerlineS[k]
        {
          ArcLengthMonotone(world, centerlineXy, j, k);
        }
      }
    }
  }

  // ----- Unwrapping

  /** A step along the track, the short way round. */
  function Unwrap(ds: real, length: real): real {
    if ds > length / 2.0 then ds - length else if ds < -length / 2.0 then ds + length else ds
  }

  function Wraps(ds: real, length: real): int {
    if ds > length / 2.0 then -1 else if ds < -length / 2.0 then 1 else 0
  }

  /** Total distance over a sequence of positions. */
  function Unwrapped(s: seq<real>, length: real): real
    requires |s| > 0
  {
    if |s| == 1 then 0.0
    else Unwrapped(s[..|s| - 1], length) + Unwrap(s[|s| - 1] - s[|s| - 2], length)
  }

  /** Times the start line has been passed forwards, less the times backwards. */
  function Turns(s: seq<real>, length: real): int
    requires |s| > 0
  {
    if |s| == 1 then 0 else Turns(s[..|s| - 1], length) + Wraps(s[|s| - 1] - s[|s| - 2], length)
  }

  /** k times around. */
  function LapDistance(k: int, length: real): real { k as real * length }

  lemma StepUnfolds(s: seq<real>, length: real, n: nat)
    requires 0 < n < |s|
    ensures Unwrapped(s[..n + 1], length) == Unwrapped(s[..n], length) + Unwrap(s[n] - s[n - 1], length)
    ensures Turns(s[..n + 1], length) == Turns(s[..n], length) + Wraps(s[n] - s[n - 1], length)
  {
    assert s[..n + 1][..n] == s[..n];
  }

  lemma Distributes(k1: int, k0: int, length: real)
    ensures (k1 - k0) as real * length == k1 as real * length - k0 as real * length
  {
    assert (k1 - k0) as real == k1 as real - k0 as real;
  }

  lemma AddTurn(total: real, net: real, ds: real, t: int, w: int, length: real)
    requires total == net + LapDistance(t, length)
    ensures total + (ds + LapDistance(w, length)) == net + ds + LapDistance(t + w, length)
  {
    Distributes(t, -w, length);
    Distributes(0, w, length);
  }

  lemma UnwrapWraps(ds: real, length: real)
    ensures Unwrap(ds, length) == ds + LapDistance(Wraps(ds, length), length)
  {
  }

  lemma {:induction false} WholeLapsTo(s: seq<real>, length: real, n: nat)
    requires n < |s|
    ensures Unwrapped(s[..n + 1], length) == s[n] - s[0] + LapDistance(Turns(s[..n + 1], length), length)
  {
    if n > 0 {
      WholeLapsTo(s, length, n - 1);
      StepUnfolds(s, length, n);
      hide Unwrapped, Turns, Unwrap, Wraps, LapDistance;
      var ds := s[n] - s[n - 1];
      UnwrapWraps(ds, length);
      AddTurn(Unwrapped(s[..n], length), s[n - 1] - s[0], ds, Turns(s[..n], length), Wraps(ds, length), length);
    } else {
      assert s[..1] == [s[0]];
    }
  }

  /** Total distance and net displacement along the table differ by whole laps. */
  lemma {:induction false} WholeLaps(s: seq<real>, length: real)
    requires |s| > 0
    ensures Unwrapped(s, length) == s[|s| - 1] - s[0] + LapDistance(Turns(s, length), length)
  {
    WholeLapsTo(s, length, |s| - 1);
    assert s[..|s|] == s;
  }

  /** A whole multiple is none, one either way, or at least two. */
  predicate WholeMultiple(m: real, length: real) {
    m == 0.0 || m == length || m == -length || m >= 2.0 * length || m <= -2.0 * length
  }

  lemma NonNegativeProduct(a: real, b: real)
    requires a >= 0.0 && b >= 0.0
    ensures a * b >= 0.0
  {
  }

  lemma Ordered(a: real, b: real, length: real)
    requires a <= b && length > 0.0
    ensures a * length <= b * length
    ensures a < b ==> a * length < b * length
  {
    NonNegativeProduct(b - a, length);
    assert (b - a) * length == b * length - a * length;
  }

  lemma MultipleIsWhole(k: int, length: real)
    requires length > 0.0
    ensures WholeMultiple(k as real * length, length)
  {
    var m := k as real * length;
    if k >= 2 {
      assert k as real >= 2.0;
      Ordered(2.0, k as real, length);
    } else if k <= -2 {
      assert k as real <= -2.0;
      Ordered(k as real, -2.0, length);
    }
  }

  /** A step shorter than half the track is recovered from positions known up to whole laps. */
  lemma StepRecovered(ds: real, du: real, m: real, length: real)
    requires length > 0.0 && -length <= ds <= length && -length / 2.0 < du < length / 2.0
    requires ds == du + m && WholeMultiple(m, length)
    ensures Unwrap(ds, length) == du
  {
  }

  /** The table shows position s for the true position u, k whole laps away. */
  predicate Shows(s: real, u: real, k: int, length: real) {
    0.0 <= s <= length && s == u + LapDistance(k, length)
  }

  lemma LastStep(s0: real, s1: real, u0: real, u1: real, k0: int, k1: int, length: real)
    requires length > 0.0 && Shows(s0, u0, k0, length) && Shows(s1, u1, k1, length) && Abs(u1 - u0) < length / 2.0
    ensures Unwrap(s1 - s0, length) == u1 - u0
  {
    var m := (k1 - k0) as real * length;
    Distributes(k1, k0, length);
    MultipleIsWhole(k1 - k0, length);
    StepRecovered(s1 - s0, u1 - u0, m, length);
  }

  lemma {:induction false} DisplacementTo(s: seq<real>, u: seq<real>, laps: seq<int>, length: real, n: nat)
    requires n < |s| == |u| == |laps| && length > 0.0
    requires forall i :: 0 <= i < |s| ==> Shows(s[i], u[i], laps[i], length)
    requires forall i :: 0 < i < |u| ==> Abs(u[i] - u[i - 1]) < length / 2.0
    ensures Unwrapped(s[..n + 1], length) == u[n] - u[0]
  {
    if n == 0 {
    } else {
      DisplacementTo(s, u, laps, length, n - 1);
      hide Unwrap, Shows, Abs;
      assert s[..n + 1][..n] == s[..n];
      LastStep(s[n - 1], s[n], u[n - 1], u[n], laps[n - 1], laps[n], length);
    }
  }

  /**
   * If the kart is truly at u[i] and every step is shorter than half the track, the total distance is
   * the true displacement, however often the table's position wraps.
   */
  lemma {:induction false} TrueDisplacement(s: seq<real>, u: seq<real>, laps: seq<int>, length: real)
    requires |s| == |u| == |laps| > 0 && length > 0.0
    requires forall i :: 0 <= i < |s| ==> Shows(s[i], u[i], laps[i], length)
    requires forall i :: 0 < i < |u| ==> Abs(u[i] - u[i - 1]) < length / 2.0
    ensures Unwrapped(s, length) == u[|u| - 1] - u[0]
  {
    DisplacementTo(s, u, laps, length, |s| - 1);
    assert s[..|s|] == s;
  }

  /** Length of the way, whatever its direction. */
  function Travelled(s: seq<real>, length: real): real
    requires |s| > 0
  {
    if |s| == 1 then 0.0
    else Travelled(s[..|s| - 1], length) + Abs(Unwrap(s[|s| - 1] - s[|s| - 2], length))
  }

  // ----- The episode

  lemma SquareNonNegative(x: real)
    ensures x * x >= 0.0
  {
  }

  function Centering(cte: real, halfWidth: real): (c: real)
    requires halfWidth > 0.0
    ensures 0.0 <= c <= 1.0
  {
    var norm := cte / halfWidth;
    SquareNonNegative(norm);
    if 1.0 - norm * norm < 0.0 then 0.0 else 1.0 - norm * norm
  }

  lemma Scaled(norm: real, halfWidth: real, cte: real)
    requires halfWidth > 0.0 && norm == cte / halfWidth
    ensures norm * norm * (halfWidth * halfWidth) == cte * cte
  {
    assert norm * halfWidth == cte;
  }

  lemma Compared(a: real, b: real)
    requires a >= 0.0 && b > 0.0
    ensures a >= b <==> a * a >= b * b
  {
    assert a * a - b * b == (a - b) * (a + b);
    if a >= b {
      NonNegativeProduct(a - b, a + b);
    } else {
      Ordered(a - b, 0.0, a + b);
    }
  }

  lemma AbsSquare(x: real)
    ensures Abs(x) * Abs(x) == x * x && Abs(x) >= 0.0
  {
  }

  lemma PositiveProduct(a: real, b: real, product: real)
    requires a > 0.0 && b > 0.0 && product == a * b
    ensures product > 0.0
  {
  }

  lemma AtLeastWhole(sq: real, whole: real)
    requires whole > 0.0
    ensures sq * whole >= whole <==> sq >= 1.0
  {
    if sq >= 1.0 {
      Ordered(1.0, sq, whole);
    } else {
      Ordered(sq, 1.0, whole);
    }
  }

  /** The squared ratio reaches one when the square of one side reaches the square of the other. */
  lemma RatioSquare(sq: real, part: real, whole: real)
    requires part >= 0.0 && whole > 0.0 && sq * (whole * whole) == part * part
    ensures sq >= 1.0 <==> part >= whole
  {
    var w2 := whole * whole;
    PositiveProduct(whole, whole, w2);
    Compared(part, whole);
    AtLeastWhole(sq, w2);
  }

  /** Centering is one on the centerline, zero from the half width on, and between them loses the squared ratio. */
  lemma CenteringIs(cte: real, halfWidth: real)
    requires halfWidth > 0.0
    ensures cte == 0.0 ==> Centering(cte, halfWidth) == 1.0
    ensures Abs(cte) >= halfWidth ==> Centering(cte, halfWidth) == 0.0
    ensures Abs(cte) < halfWidth ==> (1.0 - Centering(cte, halfWidth)) * (halfWidth * halfWidth) == cte * cte
  {
    var norm := cte / halfWidth;
    Scaled(norm, halfWidth, cte);
    AbsSquare(cte);
    hide Abs;
    RatioSquare(norm * norm, Abs(cte), halfWidth);
    assert norm * norm < 1.0 ==> 1.0 - Centering(cte, halfWidth) == norm * norm;
  }

  lemma Weighted(ds: real, c: real)
    requires 0.0 <= c
    ensures Abs(ds * c) == Abs(ds) * c
  {
    if ds < 0.0 {
      assert -(ds * c) == -ds * c;
      NonNegativeProduct(-ds, c);
    } else {
      NonNegativeProduct(ds, c);
    }
  }

  lemma AbsNonNegative(x: real)
    ensures Abs(x) >= 0.0
  {
  }

  lemma Shrinks(a: real, c: real, top: real)
    requires a >= 0.0 && 0.0 <= c <= top
    ensures 0.0 <= a * c <= a * top
  {
    NonNegativeProduct(a, c);
    NonNegativeProduct(a, top - c);
    assert a * (top - c) == a * top - a * c;
  }

  lemma Boosted(x: real, bound: real, boost: real)
    requires Abs(x) <= bound && 1.0 <= boost <= 2.0
    ensures Abs(x * boost) <= 2.0 * bound
  {
    AbsNonNegative(x);
    calc {
      Abs(x * boost);
    == { Weighted(x, boost); }
      Abs(x) * boost;
    <= { Shrinks(Abs(x), boost, 2.0); }
      Abs(x) * 2.0;
    <=
      2.0 * bound;
    }
  }

  /** One step's share of the two weighted sums. */
  lemma Shares(ds: real, c: real, boost: real)
    requires 0.0 <= c <= 1.0 && 1.0 <= boost <= 2.0
    ensures Abs(ds * c) <= Abs(ds)
    ensures Abs(ds * c * boost) <= 2.0 * Abs(ds)
  {
    AbsNonNegative(ds);
    Weighted(ds, c);
    Shrinks(Abs(ds), c, 1.0);
    Boosted(ds * c, Abs(ds), boost);
  }

  /** Python's int() of a quotient: the fraction is dropped. */
  function Truncated(x: real): int { if x >= 0.0 then x.Floor else -(-x).Floor }

  /** The kart after n commands, from a standing start. */
  function Drive(w: World, spawn: KartState, commands: seq<(real, real)>, n: nat): KartState
    requires n <= |commands|
  {
    if n == 0 then spawn.(speed := 0.0)
    else KartStep(w, Drive(w, spawn, commands, n - 1), commands[n - 1].0, commands[n - 1].1, DT)
  }

  function Share(ds: real, centering: real, boost: real): real { ds * centering * boost }

  function Boost(speed: real): real { 1.0 + speed / MAX_SPEED }

  /** Position of the kart along the table after n commands. */
  ghost function PositionAt(track: Track, spawn: KartState, commands: seq<(real, real)>, n: nat): real
    requires track.Valid() && n <= |commands|
    reads track
  {
    var s := Drive(track.world, spawn, commands, n);
    track.Project(s.x, s.y).0
  }

  /** Progress after n steps, each weighted by centering and, if asked, by speed. */
  ghost function Progress(track: Track, spawn: KartState, commands: seq<(real, real)>, n: nat, fast: bool): real
    requires track.Valid() && track.halfTrackWidth > 0.0 && n <= |commands|
    reads track
  {
    if n == 0 then 0.0
    else
      var s := Drive(track.world, spawn, commands, n);
      var ds := Unwrap(PositionAt(track, spawn, commands, n) - PositionAt(track, spawn, commands, n - 1),
          track.trackLength);
      var centering := Centering(track.Project(s.x, s.y).1, track.halfTrackWidth);
      Progress(track, spawn, commands, n - 1, fast) + Share(ds, centering, if fast then Boost(s.speed) else 1.0)
  }

  /** On a track without length nothing is travelled. */
  lemma NoWay()
    ensures Unwrap(0.0, 0.0) == 0.0
  {
  }

  /** The loop's correction of a step that wraps around. */
  method ShortWay(step: real, length: real) returns (ds: real)
    ensures ds == Unwrap(step, length)
    ensures ds - step == 0.0 || ds - step == length || ds - step == -length
    ensures Abs(step) <= length ==> Abs(ds) <= length / 2.0
  {
    ds := step;
    if ds > length / 2.0 {
      ds := ds - length;
    } else if ds < -length / 2.0 {
      ds := ds + length;
    }
  }

  lemma Start(track: Track, spawn: KartState, commands: seq<(real, real)>)
    requires track.Valid() && track.halfTrackWidth > 0.0
    ensures Drive(track.world, spawn, commands, 0) == spawn.(speed := 0.0)
    ensures PositionAt(track, spawn, commands, 0) == track.Project(spawn.x, spawn.y).0
    ensures Progress(track, spawn, commands, 0, false) == Progress(track, spawn, commands, 0, true) == 0.0
  {
  }

  lemma DriveOn(track: Track, spawn: KartState, commands: seq<(real, real)>, n: nat)
    requires track.Valid() && 0 < n <= |commands|
    ensures var s := Drive(track.world, spawn, commands, n);
            && s == KartStep(track.world, Drive(track.world, spawn, commands, n - 1), commands[n - 1].0,
                commands[n - 1].1, DT)
            && PositionAt(track, spawn, commands, n) == track.Project(s.x, s.y).0
  {
    hide KartStep, Track.Project;
  }

  lemma MoreProgress(track: Track, spawn: KartState, commands: seq<(real, real)>, n: nat, ds: real, c: real,
                     boost: real)
    requires track.Valid() && track.halfTrackWidth > 0.0 && 0 < n <= |commands|
    requires ds ==
        Unwrap(PositionAt(track, spawn, commands, n) - PositionAt(track, spawn, commands, n - 1), track.trackLength)
    requires var s := Drive(track.world, spawn, commands, n);
             c == Centering(track.Project(s.x, s.y).1, track.halfTrackWidth) && boost == Boost(s.speed)
    ensures Progress(track, spawn, commands, n, false) ==
              Progress(track, spawn, commands, n - 1, false) + Share(ds, c, 1.0)
    ensures Progress(track, spawn, commands, n, true) ==
              Progress(track, spawn, commands, n - 1, true) + Share(ds, c, boost)
  {
    hide Drive, PositionAt, Unwrap, Centering, Share, Boost, Track.Project, Track.Valid;
  }

  lemma BoostInRange(speed: real)
    requires 0.0 <= speed <= MAX_SPEED
    ensures 1.0 <= Boost(speed) <= 2.0
  {
  }

  lemma ShareBound(ds: real, c: real, boost: real)
    requires 0.0 <= c <= 1.0 && 1.0 <= boost <= 2.0
    ensures Abs(Share(ds, c, 1.0)) <= Abs(ds)
    ensures Abs(Share(ds, c, boost)) <= 2.0 * Abs(ds)
  {
    Shares(ds, c, boost);
    assert Share(ds, c, 1.0) == ds * c;
  }

  lemma SumBound(a: real, b: real)
    ensures Abs(a + b) <= Abs(a) + Abs(b)
  {
  }

  /** The bounds on both sums grow with the way travelled. */
  lemma Score(weighted: real, fast: real, ds: real, c: real, boost: real, travelled: real)
    requires 0.0 <= c <= 1.0 && 1.0 <= boost <= 2.0
    requires Abs(weighted) <= travelled && Abs(fast) <= 2.0 * travelled
    ensures Abs(weighted + Share(ds, c, 1.0)) <= travelled + Abs(ds)
    ensures Abs(fast + Share(ds, c, boost)) <= 2.0 * (travelled + Abs(ds))
  {
    ShareBound(ds, c, boost);
    hide Share, Abs;
    SumBound(weighted, Share(ds, c, 1.0));
    SumBound(fast, Share(ds, c, boost));
  }

  lemma OnePosition(s: real, length: real)
    ensures Unwrapped([s], length) == Travelled([s], length) == Abs(0.0) == 0.0
  {
  }

  lemma OneMorePosition(positions: seq<real>, s: real, length: real)
    requires |positions| > 0
    ensures Unwrapped(positions + [s], length) ==
              Unwrapped(positions, length) + Unwrap(s - positions[|positions| - 1], length)
    ensures Travelled(positions + [s], length) ==
              Travelled(positions, length) + Abs(Unwrap(s - positions[|positions| - 1], length))
  {
    assert (positions + [s])[..|positions|] == positions;
  }

  lemma Quotient(distance: real, length: real)
    requires length > 0.0
    ensures distance / length * length == distance
    ensures distance > 0.0 ==> distance / length > 0.0
  {
  }

  lemma OneMore(whole: real, length: real)
    ensures (whole + 1.0) * length == whole * length + length
  {
  }

  lemma Bracket(q: real, whole: real, distance: real, length: real)
    requires length > 0.0 && q * length == distance && whole <= q < whole + 1.0
    ensures 0.0 <= distance - whole * length < length
  {
    Ordered(whole, q, length);
    calc {
      distance;
      q * length;
    < { Ordered(q, whole + 1.0, length); }
      (whole + 1.0) * length;
    == { OneMore(whole, length); }
      whole * length + length;
    }
  }

  lemma LapsBelow(distance: real, length: real)
    requires length > 0.0
    ensures distance > 0.0 ==>
              var n := Truncated(distance / length);
              n >= 0 && 0.0 <= distance - LapDistance(n, length) < length
  {
    if distance > 0.0 {
      var q := distance / length;
      Quotient(distance, length);
      var n := Truncated(q);
      Bracket(q, n as real, distance, length);
    }
  }

  /**
   * run_episode: the commands come from the controller, which sees more than is modelled here. The
   * episode ends with the commands or with the first step outside the track.
   */
  method RunEpisode(track: Track, spawn: KartState, commands: seq<(real, real)>)
    returns (totalDistance: real, weightedProgress: real, speedWeightedProgress: real, laps: int, steps: nat,
             ghost positions: seq<real>)
    requires track.Valid() && Sensible(track.world) && track.halfTrackWidth > 0.0
    ensures steps <= |commands| && |positions| == steps + 1
    ensures forall i :: 0 <= i <= steps ==> positions[i] == PositionAt(track, spawn, commands, i)
    ensures forall i :: 0 < i < steps ==>
              var s := Drive(track.world, spawn, commands, i); track.world.boundary(s.x, s.y) >= 0.0
    ensures steps < |commands| ==>
              steps > 0 && var s := Drive(track.world, spawn, commands, steps); track.world.boundary(s.x, s.y) < 0.0
    ensures totalDistance == Unwrapped(positions, track.trackLength)
    ensures totalDistance ==
              positions[steps] - positions[0] + LapDistance(Turns(positions, track.trackLength), track.trackLength)
    ensures weightedProgress == Progress(track, spawn, commands, steps, false)
    ensures speedWeightedProgress == Progress(track, spawn, commands, steps, true)
    ensures Abs(weightedProgress) <= Travelled(positions, track.trackLength)
    ensures Abs(speedWeightedProgress) <= 2.0 * Travelled(positions, track.trackLength)
    ensures totalDistance <= 0.0 ==> laps == 0
    ensures totalDistance > 0.0 ==>
              laps >= 0 && 0.0 <= totalDistance - LapDistance(laps, track.trackLength) < track.trackLength
  {
    hide Unwrapped, Travelled, Turns, Unwrap, Wraps, Abs, KartStep, Sensible, Track.Valid, Track.Project, Truncated,
         Centering, Progress, Share, Boost, Drive, PositionAt;
    var state := spawn.(speed := 0.0);
    var (sPrev, _) := track.Project(state.x, state.y);
    var length := track.trackLength;
    totalDistance, weightedProgress, speedWeightedProgress, steps := 0.0, 0.0, 0.0, 0;
    positions := [sPrev];
    OnePosition(sPrev, length);
    Start(track, spawn, commands);
    var inside := true;
    while inside && steps < |commands|
      invariant steps <= |commands| && |positions| == steps + 1 && positions[steps] == sPrev
      invariant state == Drive(track.world, spawn, commands, steps)
      invariant sPrev == track.Project(state.x, state.y).0
      invariant forall i :: 0 <= i <= steps ==> positions[i] == PositionAt(track, spawn, commands, i)
      invariant forall i :: 0 < i < steps ==>
                  var s := Drive(track.world, spawn, commands, i); track.world.boundary(s.x, s.y) >= 0.0
      invariant inside <==> steps == 0 || track.world.boundary(state.x, state.y) >= 0.0
      invariant totalDistance == Unwrapped(positions, length)
      invariant 0.0 <= sPrev <= length && (length == 0.0 ==> totalDistance == 0.0)
      invariant weightedProgress == Progress(track, spawn, commands, steps, false)
      invariant speedWeightedProgress == Progress(track, spawn, commands, steps, true)
      invariant Abs(weightedProgress) <= Travelled(positions, length)
      invariant Abs(speedWeightedProgress) <= 2.0 * Travelled(positions, length)
      decreases inside, |commands| - steps
    {
      var (steer, speedCmd) := commands[steps];
      DriveOn(track, spawn, commands, steps + 1);
      SpeedInRange(track.world, state, steer, speedCmd, DT);
      ghost var travelled := Travelled(positions, length);
      state := KartStep(track.world, state, steer, speedCmd, DT);
      steps := steps + 1;
      var (sCur, cte) := track.Project(state.x, state.y);
      var ds := ShortWay(sCur - sPrev, length);
      NoWay();
      OneMorePosition(positions, sCur, length);
      totalDistance := totalDistance + ds;
      sPrev := sCur;
      positions := positions + [sCur];
      var centering := Centering(cte, track.halfTrackWidth);
      var boost := Boost(state.speed);
      MoreProgress(track, spawn, commands, steps, ds, centering, boost);
      BoostInRange(state.speed);
      Score(weightedProgress, speedWeightedProgress, ds, centering, boost, travelled);
      var share, fastShare := Share(ds, centering, 1.0), Share(ds, centering, boost);
      weightedProgress := weightedProgress + share;
      speedWeightedProgress := speedWeightedProgress + fastShare;
      inside := !(track.world.boundary(state.x, state.y) < 0.0);
    }
    WholeLaps(positions, length);
    laps := 0;
    if totalDistance > 0.0 {
      laps := Truncated(totalDistance / length);
    }
    if totalDistance > 0.0 {
      LapsBelow(totalDistance, length);
    }
  }
}
