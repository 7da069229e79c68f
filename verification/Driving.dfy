/**
 * What the kart model and the progress sums promise, in plain numbers: how the kart moves and gains
 * speed, and what a steady drive earns.
 */
module Driving {
  import opened Laps

  /** The command as far as it is obeyed: between standing and ten metres a second. */
  function Target(speedCmd: real): real {
    if speedCmd < 0.0 then 0.0 else if speedCmd > 10.0 then 10.0 else speedCmd
  }

  /** The steering angle as far as it is obeyed: half a radian either way. */
  function Steering(steerCmd: real): real {
    if steerCmd < -0.5 then -0.5 else if steerCmd > 0.5 then 0.5 else steerCmd
  }

  lemma Limited(steerCmd: real, speedCmd: real)
    ensures Clip(steerCmd, -MAX_STEER, MAX_STEER) == Steering(steerCmd)
    ensures Clip(speedCmd, 0.0, MAX_SPEED) == Target(speedCmd)
  {
  }

  /** The commanded speed is reached if two metres a second squared allow it, else approached by that much. */
  lemma Approaches(w: World, s: KartState, steerCmd: real, speedCmd: real, dt: real)
    requires dt >= 0.0 && 0.0 <= s.speed <= 10.0
    ensures var v, target := KartStep(w, s, steerCmd, speedCmd, dt).speed, Target(speedCmd);
            && (Abs(target - s.speed) <= 2.0 * dt ==> v == target)
            && (target > s.speed + 2.0 * dt ==> v == s.speed + 2.0 * dt)
            && (target < s.speed - 2.0 * dt ==> v == s.speed - 2.0 * dt)
  {
  }

  /** Under constant command from a standing start the speed grows by a tenth a step up to the command, and stays. */
  lemma {:induction false} FromRest(w: World, spawn: KartState, commands: seq<(real, real)>, v: real, n: nat)
    requires n <= |commands| && forall i :: 0 <= i < n ==> commands[i].1 == v
    ensures var reach := 0.1 * n as real;
            Drive(w, spawn, commands, n).speed == if reach < Target(v) then reach else Target(v)
  {
    if n == 0 {
    } else {
      FromRest(w, spawn, commands, v, n - 1);
      assert n as real == (n - 1) as real + 1.0;
      Approaches(w, Drive(w, spawn, commands, n - 1), commands[n - 1].0, v, 0.05);
    }
  }

  lemma Product(a: real, b: real, c: real, ac: real)
    requires ac == a * c
    ensures a * b * c == ac * b
  {
  }

  lemma Turn(v: real, t: real, dt: real, way: real)
    requires way == v * dt
    ensures 1.05 * (v * t / 1.05 * dt) == way * t
  {
    Product(v, t, dt, way);
    assert v * t / 1.05 * dt == v * t * dt / 1.05;
  }

  /** In one step the kart goes its way ahead and turns by the tangent of the steering angle. */
  lemma Moves(w: World, s: KartState, steerCmd: real, speedCmd: real, dt: real, way: real)
    requires way == s.speed * dt
    ensures var r := KartStep(w, s, steerCmd, speedCmd, dt);
            && r.x == s.x + way * w.cos(s.yaw)
            && r.y == s.y + way * w.sin(s.yaw)
            && 1.05 * (r.yaw - s.yaw) == way * w.tan(Steering(steerCmd))
  {
    Limited(steerCmd, speedCmd);
    hide Clip, Steering;
    Product(s.speed, w.cos(s.yaw), dt, way);
    Product(s.speed, w.sin(s.yaw), dt, way);
    Turn(s.speed, w.tan(Steering(steerCmd)), dt, way);
  }

  /** The way made in n steps: each at the speed the step began with. */
  function Way(w: World, spawn: KartState, commands: seq<(real, real)>, n: nat): real
    requires n <= |commands|
  {
    if n == 0 then 0.0 else Way(w, spawn, commands, n - 1) + 0.05 * Drive(w, spawn, commands, n - 1).speed
  }

  lemma MoreWay(w: World, spawn: KartState, commands: seq<(real, real)>, n: nat)
    requires 0 < n <= |commands|
    ensures var s := Drive(w, spawn, commands, n - 1);
            && Drive(w, spawn, commands, n) == KartStep(w, s, commands[n - 1].0, commands[n - 1].1, DT)
            && Way(w, spawn, commands, n) == Way(w, spawn, commands, n - 1) + s.speed * DT
  {
    hide KartStep;
  }

  lemma Adds(start: real, a: real, b: real, c: real)
    ensures start + a * c + b * c == start + (a + b) * c
  {
  }

  /** A step with the wheel straight, from a place the way so far has led to. */
  lemma StepAhead(w: World, s: KartState, speedCmd: real, start: KartState, before: real, way: real)
    requires w.tan(0.0) == 0.0 && way == s.speed * DT && s.yaw == start.yaw
    requires s.x == start.x + before * w.cos(start.yaw) && s.y == start.y + before * w.sin(start.yaw)
    ensures var r := KartStep(w, s, 0.0, speedCmd, DT);
            && r.yaw == start.yaw
            && r.x == start.x + (before + way) * w.cos(start.yaw)
            && r.y == start.y + (before + way) * w.sin(start.yaw)
  {
    Moves(w, s, 0.0, speedCmd, DT, way);
    hide KartStep;
    assert way * w.tan(Steering(0.0)) == 0.0;
    Adds(start.x, before, way, w.cos(start.yaw));
    Adds(start.y, before, way, w.sin(start.yaw));
  }

  lemma NoWayYet(w: World, spawn: KartState, commands: seq<(real, real)>)
    ensures Drive(w, spawn, commands, 0) == spawn.(speed := 0.0)
    ensures Way(w, spawn, commands, 0) * w.cos(spawn.yaw) == Way(w, spawn, commands, 0) * w.sin(spawn.yaw) == 0.0
  {
  }

  /** With the wheel straight the heading stays and the kart is its way ahead of where it stood. */
  lemma {:induction false} StraightAhead(w: World, spawn: KartState, commands: seq<(real, real)>, n: nat)
    requires n <= |commands| && w.tan(0.0) == 0.0 && forall i :: 0 <= i < n ==> commands[i].0 == 0.0
    ensures var s := Drive(w, spawn, commands, n);
            && s.yaw == spawn.yaw
            && s.x == spawn.x + Way(w, spawn, commands, n) * w.cos(spawn.yaw)
            && s.y == spawn.y + Way(w, spawn, commands, n) * w.sin(spawn.yaw)
  {
    hide KartStep, Drive, Way;
    if n == 0 {
      NoWayYet(w, spawn, commands);
    } else {
      StraightAhead(w, spawn, commands, n - 1);
      MoreWay(w, spawn, commands, n);
      var s, before := Drive(w, spawn, commands, n - 1), Way(w, spawn, commands, n - 1);
      StepAhead(w, s, commands[n - 1].1, spawn, before, s.speed * DT);
    }
  }

  // ----- Progress

  lemma Earned(total: real, ds: real, c: real, factor: real)
    ensures total * (c * factor) + Share(ds, c, factor) == (total + ds) * (c * factor)
  {
    assert ds * c * factor == ds * (c * factor);
    assert (total + ds) * (c * factor) == total * (c * factor) + ds * (c * factor);
  }

  lemma Nothing(track: Track, spawn: KartState, commands: seq<(real, real)>, positions: seq<real>, factor: real)
    requires track.Valid() && track.halfTrackWidth > 0.0 && |positions| > 0
    ensures Unwrapped(positions[..1], track.trackLength) * factor == 0.0
    ensures Progress(track, spawn, commands, 0, false) == Progress(track, spawn, commands, 0, true) == 0.0
  {
    hide Track.Valid;
  }

  /**
   * A drive that keeps the distance cte from the centerline and, after its first step, the speed v
   * earns a fixed part of its total distance: its centering, and that times one to two by speed.
   */
  lemma {:induction false} SteadyProgress(track: Track, spawn: KartState, commands: seq<(real, real)>,
                                          positions: seq<real>, n: nat, cte: real, v: real)
    requires track.Valid() && track.halfTrackWidth > 0.0 && n <= |commands| && |positions| > n
    requires forall i :: 0 <= i <= n ==> positions[i] == PositionAt(track, spawn, commands, i)
    requires forall i :: 0 < i <= n ==>
               var s := Drive(track.world, spawn, commands, i); track.Project(s.x, s.y).1 == cte && s.speed == v
    ensures var total, c := Unwrapped(positions[..n + 1], track.trackLength), Centering(cte, track.halfTrackWidth);
            && Progress(track, spawn, commands, n, false) == total * (c * 1.0)
            && Progress(track, spawn, commands, n, true) == total * (c * (1.0 + v / 10.0))
  {
    hide Progress, Unwrapped, Unwrap, Centering, Share, Drive, PositionAt, Track.Project, Track.Valid;
    var c := Centering(cte, track.halfTrackWidth);
    if n == 0 {
      Nothing(track, spawn, commands, positions, c * 1.0);
      Nothing(track, spawn, commands, positions, c * (1.0 + v / 10.0));
    } else {
      SteadyProgress(track, spawn, commands, positions, n - 1, cte, v);
      StepUnfolds(positions, track.trackLength, n);
      var ds := Unwrap(positions[n] - positions[n - 1], track.trackLength);
      var s := Drive(track.world, spawn, commands, n);
      assert track.Project(s.x, s.y).1 == cte && s.speed == v;
      MoreProgress(track, spawn, commands, n, ds, c, Boost(v));
      assert Boost(v) == 1.0 + v / 10.0;
      var total := Unwrapped(positions[..n], track.trackLength);
      hide Boost;
      Earned(total, ds, c, 1.0);
      Earned(total, ds, c, Boost(v));
    }
  }
}
