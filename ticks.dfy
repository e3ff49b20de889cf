/**
 * One tick of the simulation as a value: every track processed in feature
 * order, one document per track handed to the sink, and the tick counter
 * incremented (generate_tracks.js, `generateWaypoints`).  Each track is
 * processed with its own timestamp, `nows[i]`.  Each document is written to
 * Elasticsearch before its track's update time is recorded; a write that
 * rejects ends the tick at that track: its update time is not recorded, the
 * tracks after it are untouched, the counter is not incremented and no
 * further tick is scheduled.  Which write rejects, if any, is the parameter
 * `rejectedAt`.
 */
module Ticks {
  import opened Wrappers
  import opened Turf
  import opened Tracks

  /** A telemetry document: `location`, `entity_id` and `@timestamp`. */
  datatype Doc = Doc(location: Position, entityId: FeatureId, timestamp: int)

  /** JavaScript truthiness of a feature id: it is none of the falsy values `undefined`, "" and 0. */
  predicate Truthy(id: Option<FeatureId>): (b: bool)
    ensures b <==> id !in {None, Some(Str("")), Some(Num(0))}
  {
    match id
    case None => false
    case Some(Str(s)) => s != ""
    case Some(Num(n)) => n != 0
  }

  /** `track.id || i`: the feature's id when it is truthy, its index otherwise. */
  function EntityId(id: Option<FeatureId>, i: nat): (e: FeatureId)
  {
    if Truthy(id) then id.value else Num(i)
  }

  /** Whether a tick ran to the end, or stopped at the track whose write rejected. */
  datatype TickOutcome = Completed | Rejected(index: nat)

  function Outcome(n: nat, rejectedAt: Option<nat>): (o: TickOutcome)
  {
    if rejectedAt.Some? && rejectedAt.value < n then Rejected(rejectedAt.value) else Completed
  }

  /** The number of documents a tick hands to the sink. */
  function Attempted(n: nat, rejectedAt: Option<nat>): (m: nat)
  {
    match Outcome(n, rejectedAt)
    case Completed => n
    case Rejected(k) => k + 1
  }

  /**
   * The document emitted for track `i`: stamped with that track's own time,
   * identified by its id or its index, and located at its first position if
   * it was at its origin, otherwise at the point `along` gives for the
   * distance it now has travelled, or for its length if it has just reached
   * the end.
   */
  function Document(geo: GeometryService, ts: seq<Track>, nows: seq<int>, i: nat): (d: Doc)
    requires |nows| == |ts| && i < |ts|
    ensures d.timestamp == nows[i]
    ensures Some(d.entityId) == ts[i].id || d.entityId == Num(i)
    ensures var moved := Process(geo, ts[i], nows[i]).track;
      && (ts[i].reset ==> d.location == ts[i].geometry.coordinates[0])
      && (!ts[i].reset && !moved.reset ==> d.location == geo.along(ts[i].geometry, moved.distanceTraveled))
      && (!ts[i].reset && moved.reset ==> d.location == geo.along(ts[i].geometry, ts[i].length))
  {
    Doc(Advance(geo, ts[i], nows[i]).location, EntityId(ts[i].id, i), nows[i])
  }

  /**
   * The tracks after a tick.  Track i changes only by its own processing, and
   * only its travel state (distance, flag, update time) changes.
   */
  function TickTracks(geo: GeometryService, ts: seq<Track>, nows: seq<int>, rejectedAt: Option<nat>): (r: seq<Track>)
    requires |nows| == |ts|
    ensures |r| == |ts|
    ensures forall i :: 0 <= i < |ts| ==>
      r[i].id == ts[i].id && r[i].geometry == ts[i].geometry && r[i].length == ts[i].length
  {
    seq(|ts|, i requires 0 <= i < |ts| =>
      match Outcome(|ts|, rejectedAt)
      case Rejected(k) =>
        if i < k then Process(geo, ts[i], nows[i]).track
        else if i == k then Advance(geo, ts[i], nows[i]).track
        else ts[i]
      case Completed => Process(geo, ts[i], nows[i]).track)
  }

  /** The documents a tick hands to the sink, in feature order. */
  function Batch(geo: GeometryService, ts: seq<Track>, nows: seq<int>, rejectedAt: Option<nat>): (docs: seq<Doc>)
    requires |nows| == |ts|
    ensures |docs| <= |ts|
    ensures Outcome(|ts|, rejectedAt).Completed? ==> |docs| == |ts|
    ensures Outcome(|ts|, rejectedAt).Rejected? ==> |docs| == Outcome(|ts|, rejectedAt).index + 1
  {
    seq(Attempted(|ts|, rejectedAt), i requires 0 <= i < Attempted(|ts|, rejectedAt) => Document(geo, ts, nows, i))
  }

  /** The state the simulation carries from tick to tick. */
  datatype SimState = SimState(tracks: seq<Track>, tickCounter: nat)

  /** The timestamps one tick reads, one per track, and the write that rejects, if any. */
  datatype TickInput = TickInput(nows: seq<int>, rejectedAt: Option<nat>)

  /**
   * One call of `generateWaypoints`: the counter grows by one exactly when no
   * write rejects, and then every track carries the time it was processed at.
   */
  function Tick(geo: GeometryService, s: SimState, input: TickInput): (r: SimState)
    requires |input.nows| == |s.tracks|
    ensures |r.tracks| == |s.tracks|
    ensures r.tickCounter == s.tickCounter + 1 <==> Outcome(|s.tracks|, input.rejectedAt).Completed?
    ensures r.tickCounter <= s.tickCounter + 1
    ensures Outcome(|s.tracks|, input.rejectedAt).Rejected? ==> r.tickCounter == s.tickCounter
    ensures Outcome(|s.tracks|, input.rejectedAt).Completed? ==>
      forall i :: 0 <= i < |s.tracks| ==> r.tracks[i].lastUpdate == Some(input.nows[i])
  {
    SimState(
      TickTracks(geo, s.tracks, input.nows, input.rejectedAt),
      if Outcome(|s.tracks|, input.rejectedAt).Completed? then s.tickCounter + 1 else s.tickCounter)
  }

  ghost predicate Fits(n: nat, inputs: seq<TickInput>)
  {
    forall k :: 0 <= k < |inputs| ==> |inputs[k].nows| == n
  }

  /** Ticks in order, until one of them rejects: then no further tick is scheduled. */
  function Run(geo: GeometryService, s: SimState, inputs: seq<TickInput>): (r: SimState)
    requires Fits(|s.tracks|, inputs)
    ensures |r.tracks| == |s.tracks|
    ensures s.tickCounter <= r.tickCounter
    ensures forall i :: 0 <= i < |s.tracks| ==>
      r.tracks[i].id == s.tracks[i].id && r.tracks[i].geometry == s.tracks[i].geometry && r.tracks[i].length == s.tracks[i].length
    decreases |inputs|
  {
    if inputs == [] then s
    else
      var next := Tick(geo, s, inputs[0]);
      if Outcome(|s.tracks|, inputs[0].rejectedAt).Rejected? then next
      else Run(geo, next, inputs[1..])
  }

  /** The state after loading the features and `initTrackMeta`, before the first tick. */
  function Initial(geo: GeometryService, loaded: seq<Track>): (r: SimState)
    ensures |r.tracks| == |loaded| && r.tickCounter == 0
    ensures AllConsistent(geo, r.tracks)
    ensures forall i :: 0 <= i < |loaded| ==> r.tracks[i].reset && r.tracks[i].distanceTraveled == 0.0
    ensures forall i :: 0 <= i < |loaded| ==>
      r.tracks[i].id == loaded[i].id && r.tracks[i].geometry == loaded[i].geometry && r.tracks[i].lastUpdate == loaded[i].lastUpdate
  {
    SimState(seq(|loaded|, i requires 0 <= i < |loaded| => Initialized(geo, loaded[i])), 0)
  }

  ghost predicate AllConsistent(geo: GeometryService, ts: seq<Track>)
  {
    forall i :: 0 <= i < |ts| ==> Consistent(geo, ts[i])
  }

  ghost predicate ClockOkAll(ts: seq<Track>, nows: seq<int>)
    requires |nows| == |ts|
  {
    forall i :: 0 <= i < |ts| ==> ClockOk(ts[i], nows[i])
  }

  /**
   * A tick keeps every track consistent, except that a track whose write
   * rejected may be left moving without an update time; it still satisfies
   * the distance invariant.  After a completed tick every track's update time
   * is its own timestamp.
   */
  lemma TickKeepsConsistent(geo: GeometryService, ts: seq<Track>, nows: seq<int>, rejectedAt: Option<nat>)
    requires |nows| == |ts|
    requires AllConsistent(geo, ts) && ClockOkAll(ts, nows)
    ensures var r := TickTracks(geo, ts, nows, rejectedAt);
      forall i :: 0 <= i < |ts| ==>
        && OnPath(geo, r[i])
        && (Outcome(|ts|, rejectedAt) != Rejected(i) ==> Consistent(geo, r[i]))
    ensures Outcome(|ts|, rejectedAt).Completed? ==>
      AllConsistent(geo, TickTracks(geo, ts, nows, rejectedAt))
    ensures Outcome(|ts|, rejectedAt).Completed? ==>
      forall i :: 0 <= i < |ts| ==> TickTracks(geo, ts, nows, rejectedAt)[i].lastUpdate == Some(nows[i])
  {
    var r := TickTracks(geo, ts, nows, rejectedAt);
    forall i | 0 <= i < |ts|
      ensures OnPath(geo, r[i])
      ensures Outcome(|ts|, rejectedAt) != Rejected(i) ==> Consistent(geo, r[i])
    {
      ProcessKeepsConsistent(geo, ts[i], nows[i]);
      AdvanceKeepsOnPath(geo, ts[i], nows[i]);
    }
  }

  /**
   * A tick emits one document per track it processes, in feature order, the
   * i-th for track i; a rejected tick emits them up to and including the
   * rejected track.
   */
  lemma BatchInFeatureOrder(geo: GeometryService, ts: seq<Track>, nows: seq<int>, rejectedAt: Option<nat>)
    requires |nows| == |ts|
    ensures var docs := Batch(geo, ts, nows, rejectedAt);
      forall i :: 0 <= i < |docs| ==>
        && docs[i].entityId == EntityId(ts[i].id, i)
        && docs[i].timestamp == nows[i]
        && docs[i].location == Process(geo, ts[i], nows[i]).location
  {
  }

  /**
   * After `initTrackMeta` every track is at its origin, so the first tick
   * emits each track's first position, whatever the loaded properties held.
   */
  lemma FirstTickEmitsOrigins(geo: GeometryService, loaded: seq<Track>, nows: seq<int>, rejectedAt: Option<nat>)
    requires |nows| == |loaded|
    ensures var docs := Batch(geo, Initial(geo, loaded).tracks, nows, rejectedAt);
      forall i :: 0 <= i < |docs| ==> docs[i].location == loaded[i].geometry.coordinates[0]
  {
    BatchInFeatureOrder(geo, Initial(geo, loaded).tracks, nows, rejectedAt);
  }

  /**
   * The feature ids identify the features: the truthy ids differ from one
   * another, and none of them is the index of a feature without one.
   */
  ghost predicate IdsUnambiguous(ts: seq<Track>)
  {
    && (forall i, j :: 0 <= i < j < |ts| && Truthy(ts[i].id) && Truthy(ts[j].id) ==> ts[i].id != ts[j].id)
    && (forall i, j :: 0 <= i < |ts| && 0 <= j < |ts| && Truthy(ts[i].id) && !Truthy(ts[j].id) ==> ts[i].id != Some(Num(j)))
  }

  /** With unambiguous ids, `track.id || i` gives every track its own entity id. */
  lemma EntityIdsDistinct(ts: seq<Track>)
    requires IdsUnambiguous(ts)
    ensures forall i, j :: 0 <= i < j < |ts| ==> EntityId(ts[i].id, i) != EntityId(ts[j].id, j)
  {
  }

  /** Otherwise two tracks can share one: a first feature with id 1 and a second one without an id. */
  lemma EntityIdsCanCollide(g: LineString)
    ensures var ts := [Track(Some(Num(1)), g, 0.0, 0.0, true, None), Track(None, g, 0.0, 0.0, true, None)];
      EntityId(ts[0].id, 0) == EntityId(ts[1].id, 1)
  {
  }

  /** Every write of every tick is accepted. */
  ghost predicate NoneRejected(n: nat, inputs: seq<TickInput>)
  {
    forall k :: 0 <= k < |inputs| ==> Outcome(n, inputs[k].rejectedAt).Completed?
  }

  /** Each track's timestamp in tick `b` is no earlier than in tick `a`. */
  ghost predicate NotEarlier(a: TickInput, b: TickInput)
  {
    forall i :: 0 <= i < |a.nows| && i < |b.nows| ==> a.nows[i] <= b.nows[i]
  }

  /** Successive ticks read a clock that does not go back. */
  ghost predicate Monotone(inputs: seq<TickInput>)
  {
    |inputs| <= 1 || (NotEarlier(inputs[0], inputs[1]) && Monotone(inputs[1..]))
  }

  /**
   * The clock never goes back: the first tick's timestamps are no earlier
   * than the tracks' update times, and each tick's timestamp for a track is no
   * earlier than the previous tick's.
   */
  ghost predicate ClockRuns(ts: seq<Track>, inputs: seq<TickInput>)
    requires Fits(|ts|, inputs)
  {
    (|inputs| > 0 ==> ClockOkAll(ts, inputs[0].nows)) && Monotone(inputs)
  }

  /**
   * Over any number of ticks with a clock that does not go back, every track
   * stays consistent as long as the run goes on; a rejected tick leaves only
   * the distance invariant on the track whose write failed.
   */
  lemma {:induction false} RunKeepsConsistent(geo: GeometryService, s: SimState, inputs: seq<TickInput>)
    requires Fits(|s.tracks|, inputs)
    requires AllConsistent(geo, s.tracks) && ClockRuns(s.tracks, inputs)
    ensures forall i :: 0 <= i < |s.tracks| ==> OnPath(geo, Run(geo, s, inputs).tracks[i])
    ensures NoneRejected(|s.tracks|, inputs) ==> AllConsistent(geo, Run(geo, s, inputs).tracks)
    decreases |inputs|
  {
    if inputs != [] {
      var next := Tick(geo, s, inputs[0]);
      TickKeepsConsistent(geo, s.tracks, inputs[0].nows, inputs[0].rejectedAt);
      if Outcome(|s.tracks|, inputs[0].rejectedAt).Completed? {
        var rest := inputs[1..];
        assert Fits(|next.tracks|, rest);
        assert ClockRuns(next.tracks, rest) by {
          if |rest| > 0 {
            assert NotEarlier(inputs[0], rest[0]);
          }
        }
        RunKeepsConsistent(geo, next, rest);
        if NoneRejected(|s.tracks|, inputs) {
          assert forall k :: 0 <= k < |rest| ==> rest[k] == inputs[k + 1];
        }
      }
    }
  }

  /**
   * The tick counter counts the completed ticks: it grows by one per tick
   * while no write rejects, and never by more than the number of ticks.
   */
  lemma {:induction false} RunCountsTicks(geo: GeometryService, s: SimState, inputs: seq<TickInput>)
    requires Fits(|s.tracks|, inputs)
    ensures Run(geo, s, inputs).tickCounter <= s.tickCounter + |inputs|
    ensures NoneRejected(|s.tracks|, inputs) ==> Run(geo, s, inputs).tickCounter == s.tickCounter + |inputs|
    decreases |inputs|
  {
    if inputs != [] {
      var next := Tick(geo, s, inputs[0]);
      if Outcome(|s.tracks|, inputs[0].rejectedAt).Completed? {
        var rest := inputs[1..];
        assert forall k :: 0 <= k < |rest| ==> rest[k] == inputs[k + 1];
        RunCountsTicks(geo, next, rest);
      }
    }
  }

  /**
   * A rejected write ends the run: the ticks after it never happen, and the
   * counter holds exactly the ticks completed before it.
   */
  lemma {:induction false} RunStopsAtRejection(geo: GeometryService, s: SimState, inputs: seq<TickInput>, k: nat)
    requires Fits(|s.tracks|, inputs) && k < |inputs|
    requires Outcome(|s.tracks|, inputs[k].rejectedAt).Rejected?
    requires forall j :: 0 <= j < k ==> Outcome(|s.tracks|, inputs[j].rejectedAt).Completed?
    ensures Run(geo, s, inputs) == Run(geo, s, inputs[..k + 1])
    ensures Run(geo, s, inputs).tickCounter == s.tickCounter + k
    decreases k
  {
    if k > 0 {
      var next := Tick(geo, s, inputs[0]);
      var rest := inputs[1..];
      assert forall j :: 0 <= j < |rest| ==> rest[j] == inputs[j + 1];
      assert inputs[..k + 1][1..] == rest[..k];
      RunStopsAtRejection(geo, next, rest, k - 1);
    }
  }
}
