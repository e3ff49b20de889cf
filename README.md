# faketracks: the per-track travel-state machine

faketracks feeds Elasticsearch a stream of synthetic vehicle positions. Its
script `generate_tracks.js` loads a GeoJSON feature collection of tracks
(LineStrings). Each track then runs a small state machine. `initTrackMeta`
puts every track at its origin: its length in miles, distance 0, reset flag
set. Every tick, `generateWaypoints` goes through the tracks in feature
order:

- a track at its origin emits its first position and starts moving;
- a moving track advances by the time elapsed since its last update times
  500 000 miles per hour;
- a track that reaches or passes the end of its geometry emits the end point
  and goes back to its origin, so the next tick starts the path over in the
  same direction.

One document `{location, entity_id, @timestamp}` is written per track. The
track's update time is recorded after that write. The tick counter is
incremented at the end of the tick.

This project models that state machine in Dafny and proves its properties:

- `wrappers.dfy`: module `Wrappers`, an `Option` for properties that may be
  `undefined`.
- `turf.dfy`: module `Turf`. Positions, LineStrings (two or more positions,
  section 3.1.4 of RFC 7946), and `turf.length` / `turf.along` as a
  `GeometryService` record of functions. The only thing known about them is
  that a length is never negative.
- `tracks.dfy`: module `Tracks`. The `Track` record (feature id and geometry
  plus `__length`, `__distanceTraveled`, `__reset`, `__lastUpdate`). The
  one-track step `Advance` and `Process`, the invariants `OnPath` and
  `Consistent`, and the per-track lemmas.
- `ticks.dfy`: module `Ticks`. One tick as a value (`TickTracks`, `Batch`,
  `Tick`), a sequence of ticks (`Run`), and the lemmas over whole ticks and
  runs.
- `generate_tracks.dfy`: module `GenerateTracks`. Class `Simulation` holds the
  track array and `tickCounter`. Its methods `InitTrackMeta` and
  `GenerateWaypoints` update them in place and are proved equal to the
  functions above.

Clock reads and sink writes are parameters:

- `GenerateWaypoints(nows, rejectedAt)` gets one timestamp per track, because
  the source calls `new Date()` once per track, not once per tick.
- `rejectedAt` is the index of the `esClient.index` write that rejects, if
  any. In the source, that rejection aborts the async loop. The rejected
  track has already moved, but its `__lastUpdate` is not written. Later
  tracks are untouched, `tickCounter` is not incremented, and
  `setTimeout` is never reached, so no further tick runs. `Run` stops at such
  a tick.

Behaviour of the script worth knowing:

- At the end of a path the track restarts at its origin. It does not reverse
  direction.
- There is no heading, no timestamp jitter and no omission of entities.
- Timestamps are taken per track, not once per tick.
- A failed write does not let the loop go on. It stops the tick and the
  simulation.
- A moving track whose `__lastUpdate` is undefined computes NaN, and the NaN
  fails the `<` test, so the track restarts (`UnsetUpdateTimeRestarts`). The
  invariants show this never happens after `initTrackMeta` while the clock
  does not go back and no write rejects. A write that rejects on a track's
  first tick leaves that track moving with `__lastUpdate` still undefined,
  but the simulation then stops.
- `track.id || i` can give two tracks the same `entity_id`: a feature whose
  numeric id equals the index of a feature without an id
  (`EntityIdsCanCollide`).
- The distance bound `0 <= distance <= length` is guaranteed only while the
  wall clock does not go back. `new Date()` gives no such guarantee, and
  `ClockStepBackLeavesPath` shows the distance going negative when it does.
  The invariant lemmas therefore take a non-decreasing clock as a hypothesis
  (`ClockOk`, `ClockRuns`).

## Model

| member | source | states |
|---|---|---|
| GenerateTracks.Simulation.constructor | generate_tracks.js:109 | the loaded tracks are held as given and `tickCounter` starts at 0 |
| GenerateTracks.Simulation.InitTrackMeta | generate_tracks.js:34-40 | every track gets its geometry's length, distance 0 and the reset flag; id, geometry and update time of every track are unchanged; afterwards every track is `Consistent` |
| GenerateTracks.Simulation.GenerateWaypoints | generate_tracks.js:110-162 | the in-place loop over the track array yields exactly the tracks of `TickTracks`, the documents of `Batch` and the outcome of `Outcome`; the counter grows by one exactly when no write rejects; a completed tick from consistent tracks with a non-decreasing clock leaves every track consistent |
| Tracks.Initialized | generate_tracks.js:35-39 | `initTrackMeta` on one track sets the length to its geometry's, the distance to 0 and the reset flag, and touches no other field, and whatever the loaded properties held, the track is then consistent |
| Tracks.TotalDistance | generate_tracks.js:127-130 | the candidate distance is NaN (None) exactly when `__lastUpdate` is undefined; no elapsed time adds no distance; with a clock that has not gone back it is never less than the distance travelled |
| Tracks.Advance | generate_tracks.js:122-144 | a tick's move changes only a track's distance and reset flag, and a track sent back to its origin has distance 0 |
| Tracks.ResetStep | generate_tracks.js:123-125 | a track at its origin emits `coordinates[0]`, clears the flag and keeps its distance |
| Tracks.AdvanceWithinPath | generate_tracks.js:127-135 | when `d + elapsed/3600000 * speed < length`, the distance becomes exactly that sum, the flag stays clear and the waypoint is `along(geometry, sum)` |
| Tracks.ExhaustedRestartsAtOrigin | generate_tracks.js:136-143 | when the sum reaches the length, the waypoint is `along(geometry, length)`, distance becomes 0 and the flag is set; the following tick emits `coordinates[0]` again from distance 0: a restart, not a reversal |
| Tracks.UnsetUpdateTimeRestarts | generate_tracks.js:127-141 | a moving track with undefined `__lastUpdate` (NaN total) takes the restart branch |
| Tracks.AdvanceKeepsOnPath | generate_tracks.js:127-140 | with a clock that has not gone back, a move keeps `0 <= d`, `d < length or d == 0`, and distance 0 while reset |
| Tracks.ProcessKeepsConsistent | generate_tracks.js:123-159 | processing keeps a track consistent and `0 <= d <= length`; a moving track always has an update time, so line 127 never reads an undefined value |
| Tracks.ClockStepBackLeavesPath | generate_tracks.js:119-135 | if the clock reads an hour earlier than the last update, a consistent track ends at distance -500000: the bound depends on the clock |
| Tracks.ConstantPace | generate_tracks.js:127-135 | a track updated n times every dt ms without reaching the end has travelled exactly n times the distance of one interval |
| Ticks.Truthy | generate_tracks.js:117 | a feature id is truthy exactly when it is none of the falsy values `undefined`, "" and 0 |
| Ticks.Document | generate_tracks.js:148-152 | a document carries its track's own timestamp, the feature id or the index, and the first position for a track at its origin, otherwise `along` at the distance now travelled, or at the length when the end was just reached |
| Ticks.TickTracks | generate_tracks.js:114-160 | a tick keeps the number of tracks and the id, geometry and length of each track |
| Ticks.Batch | generate_tracks.js:148-157 | a tick hands to the sink as many documents as tracks when no write rejects, and k+1 when the write of track k rejects |
| Ticks.Tick | generate_tracks.js:114-162 | one call keeps the number of tracks; the counter grows by one exactly when no write rejects, never by more, and stays as it was on a rejected write; after a completed call every track's update time is its own timestamp |
| Ticks.Run | generate_tracks.js:162-163 | over any run of ticks the number of tracks and each track's id, geometry and length are kept and the counter never decreases |
| Ticks.Initial | generate_tracks.js:34-40 | after `initTrackMeta` no tick has been counted, every track is consistent, at distance 0 with the reset flag set, and each keeps its loaded id, geometry and update time |
| Ticks.TickKeepsConsistent | generate_tracks.js:114-160 | with a non-decreasing clock, a tick keeps every track on its path; every track except a rejected one stays consistent; after a completed tick each track's update time is its own timestamp |
| Ticks.BatchInFeatureOrder | generate_tracks.js:114-157 | on a completed or a rejected tick, the i-th document handed to the sink is track i's, with `track.id || i`, that track's timestamp and its waypoint |
| Ticks.FirstTickEmitsOrigins | generate_tracks.js:34-40 | whatever the loaded properties held, every document of the first tick after `initTrackMeta` carries its track's first position (lines 123-124) |
| Ticks.EntityIdsDistinct | generate_tracks.js:117 | when truthy ids differ from each other and from the indexes of id-less features, every track gets its own `entity_id` |
| Ticks.EntityIdsCanCollide | generate_tracks.js:117 | a feature with id 1 first and an id-less feature second both get `entity_id` 1 |
| Ticks.RunKeepsConsistent | generate_tracks.js:114-163 | over any number of ticks with a non-decreasing clock every track keeps the distance invariant, and all stay consistent while no write rejects |
| Ticks.RunCountsTicks | generate_tracks.js:162-163 | `tickCounter` grows by at most one per tick, and by exactly one per tick while no write rejects |
| Ticks.RunStopsAtRejection | generate_tracks.js:154-163 | the `setTimeout` chain stops at the first rejected write: the ticks after it change nothing, and the counter holds exactly the ticks completed before it |

## Left out

- Reading and parsing `tracks.json`: the constructor takes the parsed tracks. A `__lastUpdate` already present in the file is kept as loaded when it is an integer; a loaded `"__lastUpdate": null` is not modelled, and for it line 127 would compute `now - null`, which is `now`, not NaN.
- A feature whose `properties` is `null`, which section 3.2 of RFC 7946 allows: line 36 throws a TypeError and the script stops before any tick. A `Track` always has its properties.
- Geometry that is not a LineString of two or more positions is not modelled. The source does not check it.
- The internals of `turf.length` and `turf.along`, the geodesic arc length and interpolation in miles. They are parameters; only that a length is not negative is used.
- Elasticsearch client setup, `ping`, index existence, creation, deletion and mapping, and the `readline` confirmation prompt: network and console I/O. A write's outcome is the `rejectedAt` parameter. The documents are returned instead of sent.
- `console.log` output and ISO-8601 formatting of timestamps: a timestamp is an integer number of milliseconds.
- `setTimeout` rescheduling and `async`/`await` sequencing: one tick is one method call, and `Run` composes ticks in order.
- IEEE-754 rounding: distances, elapsed hours and speed are `real`.
- `Position(lon, lat)` drops the optional third element (altitude) that section 3.1.1 of RFC 7946 allows; line 124 emits `coordinates[0]` unchanged as `location`, altitude included.
- JavaScript number ids that are not integers (and NaN ids): a numeric id is an `int`.
