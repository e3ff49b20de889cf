/**
 * The travel state of one track and the step that advances it by one tick
 * (generate_tracks.js).  The source keeps this state as `__`-prefixed
 * properties of each GeoJSON feature; here a `Track` holds the feature's id
 * and geometry together with those properties.  Distances are in miles and
 * are `real`: the IEEE-754 rounding of the JavaScript arithmetic is not
 * modelled.
 */
module Tracks {
  import opened Wrappers
  import opened Turf

  /** `speedInUnitsPerHour`, in miles per hour. */
  const SpeedInUnitsPerHour: real := 100000.0 * 5.0

  /** The milliseconds in an hour, which convert an elapsed time to hours. */
  const MsPerHour: real := 1000.0 * 60.0 * 60.0

  /** A GeoJSON feature id: a string or a number (section 3.2 of RFC 7946). */
  datatype FeatureId = Str(s: string) | Num(n: int)

  /** One feature of the track collection, with the properties the simulation keeps on it. */
  datatype Track = Track(
    id: Option<FeatureId>,
    geometry: LineString,
    length: real,            // properties.__length
    distanceTraveled: real,  // properties.__distanceTraveled
    reset: bool,             // properties.__reset
    lastUpdate: Option<int>) // properties.__lastUpdate in ms since the epoch; None while undefined

  /**
   * What `initTrackMeta` makes of one track: it sets the length, the distance
   * and the flag and no other field, and the track is then consistent,
   * whatever the loaded properties held.
   */
  function Initialized(geo: GeometryService, t: Track): (r: Track)
    ensures r.length == geo.length(t.geometry) && r.distanceTraveled == 0.0 && r.reset
    ensures Consistent(geo, r)
    ensures r.(length := t.length, distanceTraveled := t.distanceTraveled, reset := t.reset) == t
  {
    t.(length := geo.length(t.geometry), distanceTraveled := 0.0, reset := true)
  }

  /**
   * The distance invariant: the cached length is the geometry's, the distance
   * travelled lies in [0, length] and is below the length unless it is 0, and
   * a track waiting at its origin has travelled nothing.
   */
  ghost predicate OnPath(geo: GeometryService, t: Track)
  {
    && t.length == geo.length(t.geometry)
    && 0.0 <= t.distanceTraveled
    && (t.distanceTraveled < t.length || t.distanceTraveled == 0.0)
    && (t.reset ==> t.distanceTraveled == 0.0)
  }

  /** OnPath, and a track that is moving has a last update time to measure from. */
  ghost predicate Consistent(geo: GeometryService, t: Track)
  {
    OnPath(geo, t) && (!t.reset ==> t.lastUpdate.Some?)
  }

  /**
   * The wall clock has not gone back since the track was last updated, where
   * that update time is read: a track at its origin does not read it.
   */
  predicate ClockOk(t: Track, now: int)
  {
    !t.reset && t.lastUpdate.Some? ==> t.lastUpdate.value <= now
  }

  /**
   * The distance a moving track would reach at time `now`: the distance
   * travelled so far plus the elapsed hours times the speed.  None stands for
   * the NaN that JavaScript computes when `__lastUpdate` is undefined.
   */
  function TotalDistance(t: Track, now: int): (r: Option<real>)
    ensures r.None? <==> t.lastUpdate.None?
    ensures t.lastUpdate == Some(now) ==> r == Some(t.distanceTraveled)
    ensures t.lastUpdate.Some? && t.lastUpdate.value <= now ==> t.distanceTraveled <= r.value
  {
    match t.lastUpdate
    case None => None
    case Some(last) =>
      var deltaInHours := (now - last) as real / MsPerHour;
      Some(deltaInHours * SpeedInUnitsPerHour + t.distanceTraveled)
  }

  /** A track's new state and the waypoint emitted for it. */
  datatype Advanced = Advanced(track: Track, location: Position)

  /**
   * One tick's move of one track, before its update time is written: a track
   * at its origin emits its first position and starts moving; a moving track
   * advances by the elapsed time, and once it reaches the end of its
   * geometry it emits the end point and goes back to its origin.  A NaN total
   * fails the `<` test, so it takes the second way too.
   */
  function Advance(geo: GeometryService, t: Track, now: int): (r: Advanced)
    ensures r.track == t.(reset := r.track.reset, distanceTraveled := r.track.distanceTraveled)
    ensures r.track.reset ==> r.track.distanceTraveled == 0.0
  {
    if t.reset then
      Advanced(t.(reset := false), t.geometry.coordinates[0])
    else
      var total := TotalDistance(t, now);
      if total.Some? && total.value < t.length then
        Advanced(t.(distanceTraveled := total.value), geo.along(t.geometry, total.value))
      else
        Advanced(t.(reset := true, distanceTraveled := 0.0), geo.along(t.geometry, t.length))
  }

  /** The whole processing of one track in a tick: Advance, then record the update time. */
  function Process(geo: GeometryService, t: Track, now: int): (r: Advanced)
  {
    var a := Advance(geo, t, now);
    Advanced(a.track.(lastUpdate := Some(now)), a.location)
  }

  /** A track at its origin emits its first position, starts moving and keeps its distance. */
  lemma ResetStep(geo: GeometryService, t: Track, now: int)
    requires t.reset
    ensures Advance(geo, t, now).location == t.geometry.coordinates[0]
    ensures !Advance(geo, t, now).track.reset
    ensures Advance(geo, t, now).track.distanceTraveled == t.distanceTraveled
  {
  }

  /** A moving track that does not reach the end travels exactly speed times elapsed time. */
  lemma AdvanceWithinPath(geo: GeometryService, t: Track, now: int, last: int)
    requires !t.reset && t.lastUpdate == Some(last)
    requires t.distanceTraveled + (now - last) as real / MsPerHour * SpeedInUnitsPerHour < t.length
    ensures var sum := t.distanceTraveled + (now - last) as real / MsPerHour * SpeedInUnitsPerHour;
      && Advance(geo, t, now).track.distanceTraveled == sum
      && !Advance(geo, t, now).track.reset
      && Advance(geo, t, now).location == geo.along(t.geometry, sum)
  {
  }

  /**
   * A moving track that reaches or passes the end emits the end point and
   * restarts: the next tick emits its first position again, from distance 0,
   * so the geometry is travelled in the same direction every time.
   */
  lemma ExhaustedRestartsAtOrigin(geo: GeometryService, t: Track, now: int, last: int, next: int)
    requires !t.reset && t.lastUpdate == Some(last)
    requires t.distanceTraveled + (now - last) as real / MsPerHour * SpeedInUnitsPerHour >= t.length
    ensures var first := Process(geo, t, now);
      && first.location == geo.along(t.geometry, t.length)
      && first.track.distanceTraveled == 0.0 && first.track.reset
      && Process(geo, first.track, next).location == t.geometry.coordinates[0]
      && Process(geo, first.track, next).track.distanceTraveled == 0.0
      && !Process(geo, first.track, next).track.reset
  {
  }

  /** A moving track whose update time is undefined computes NaN, and NaN sends it back to its origin. */
  lemma UnsetUpdateTimeRestarts(geo: GeometryService, t: Track, now: int)
    requires !t.reset && t.lastUpdate.None?
    ensures Advance(geo, t, now).location == geo.along(t.geometry, t.length)
    ensures Advance(geo, t, now).track.reset && Advance(geo, t, now).track.distanceTraveled == 0.0
  {
  }

  /** Advancing keeps the distance invariant, provided the clock has not gone back. */
  lemma AdvanceKeepsOnPath(geo: GeometryService, t: Track, now: int)
    requires OnPath(geo, t) && ClockOk(t, now)
    ensures OnPath(geo, Advance(geo, t, now).track)
  {
    if !t.reset && t.lastUpdate.Some? {
      var elapsed := (now - t.lastUpdate.value) as real / MsPerHour;
      assert 0.0 <= elapsed * SpeedInUnitsPerHour;
    }
  }

  /**
   * Processing a consistent track keeps it consistent: 0 <= distance <= length,
   * and a moving track has its update time, so `__lastUpdate` is never read
   * while undefined.
   */
  lemma ProcessKeepsConsistent(geo: GeometryService, t: Track, now: int)
    requires Consistent(geo, t) && ClockOk(t, now)
    ensures Consistent(geo, Process(geo, t, now).track)
    ensures 0.0 <= Process(geo, t, now).track.distanceTraveled <= Process(geo, t, now).track.length
    ensures !t.reset ==> TotalDistance(t, now).Some?
  {
    AdvanceKeepsOnPath(geo, t, now);
  }

  /**
   * The invariant needs the clock: a track updated an hour after the time the
   * clock now shows ends up a negative distance along its geometry.
   */
  lemma ClockStepBackLeavesPath(geo: GeometryService, g: LineString)
    ensures var t := Track(None, g, geo.length(g), 0.0, false, Some(3600000));
      && Consistent(geo, t)
      && Process(geo, t, 0).track.distanceTraveled == -SpeedInUnitsPerHour
  {
  }

  /** The track after one update at each of `times`, in order. */
  function Trajectory(geo: GeometryService, t: Track, times: seq<int>): (r: Track)
  {
    if times == [] then t
    else Process(geo, Trajectory(geo, t, times[..|times| - 1]), times[|times| - 1]).track
  }

  /** Ticks `dt` milliseconds apart, the first `dt` after `t0`. */
  function Schedule(t0: int, dt: nat, n: nat): (times: seq<int>)
    ensures |times| == n
  {
    seq(n, k requires 0 <= k < n => t0 + (k + 1) * dt)
  }

  /** The distance a track covers in `dt` milliseconds. */
  function Pace(dt: nat): (d: real)
  {
    dt as real / MsPerHour * SpeedInUnitsPerHour
  }

  /**
   * Constant speed: a track that left its origin at `t0`, updated every `dt`
   * milliseconds `n` times without reaching the end, has travelled `n` times
   * the distance of one interval.
   */
  lemma {:induction false} ConstantPace(geo: GeometryService, t: Track, t0: int, dt: nat, n: nat)
    requires !t.reset && t.lastUpdate == Some(t0) && t.distanceTraveled == 0.0
    requires (n as real) * Pace(dt) < t.length
    ensures Trajectory(geo, t, Schedule(t0, dt, n)).distanceTraveled == (n as real) * Pace(dt)
    ensures !Trajectory(geo, t, Schedule(t0, dt, n)).reset
    ensures Trajectory(geo, t, Schedule(t0, dt, n)).lastUpdate == Some(t0 + n * dt)
    ensures Trajectory(geo, t, Schedule(t0, dt, n)).length == t.length
  {
    if n > 0 {
      var times := Schedule(t0, dt, n);
      assert times[..n - 1] == Schedule(t0, dt, n - 1);
      ConstantPace(geo, t, t0, dt, n - 1);
      var before := Trajectory(geo, t, times[..n - 1]);
      PaceAccumulates(dt, n);
      ScheduleGap(t0, dt, n);
      OneInterval(geo, before, t0 + (n - 1) * dt, times[n - 1], dt);
    }
  }

  /** A moving track updated `dt` milliseconds after its last update, short of the end, moves on by `Pace(dt)`. */
  lemma OneInterval(geo: GeometryService, t: Track, last: int, now: int, dt: nat)
    requires !t.reset && t.lastUpdate == Some(last) && now - last == dt
    requires t.distanceTraveled + Pace(dt) < t.length
    ensures Process(geo, t, now).track == t.(distanceTraveled := t.distanceTraveled + Pace(dt), lastUpdate := Some(now))
  {
    assert TotalDistance(t, now) == Some(t.distanceTraveled + Pace(dt));
  }

  /** One more interval adds one more `Pace(dt)`. */
  lemma PaceAccumulates(dt: nat, n: nat)
    requires 0 < n
    ensures ((n - 1) as real) * Pace(dt) + Pace(dt) == (n as real) * Pace(dt)
    ensures ((n - 1) as real) * Pace(dt) <= (n as real) * Pace(dt)
  {
  }

  /** The last two ticks of a schedule are `dt` apart. */
  lemma ScheduleGap(t0: int, dt: nat, n: nat)
    requires 0 < n
    ensures Schedule(t0, dt, n)[n - 1] - (t0 + (n - 1) * dt) == dt
    ensures Schedule(t0, dt, n)[n - 1] == t0 + n * dt
  {
  }
}
