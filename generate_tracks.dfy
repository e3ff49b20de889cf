/**
 * The simulation as the script runs it: the feature collection, whose
 * tracks carry their travel state and are updated in place, and the
 * module-level tick counter (generate_tracks.js).
 */
module GenerateTracks {
  import opened Wrappers
  import opened Turf
  import opened Tracks
  import opened Ticks

  class Simulation {
    /** `turf.length` and `turf.along` in miles. */
    const geo: GeometryService
    /** `tracksFeatureCollection.features`. */
    const tracks: array<Track>
    /** `tickCounter`: the number of ticks completed. */
    var tickCounter: nat

    ghost function State(): SimState
      reads this, tracks
    {
      SimState(tracks[..], tickCounter)
    }

    /** The tracks as read from the track file, and `tickCounter` starting at 0. */
    constructor (loaded: seq<Track>, geo: GeometryService)
      ensures this.geo == geo
      ensures fresh(tracks) && tracks[..] == loaded
      ensures tickCounter == 0
    {
      this.geo := geo;
      tracks := new Track[|loaded|](i requires 0 <= i < |loaded| => loaded[i]);
      tickCounter := 0;
    }

    /**
     * `initTrackMeta`: every track gets its geometry's length, a distance of 0
     * and the reset flag; nothing else of any track changes.
     */
    method InitTrackMeta()
      modifies tracks
      ensures forall i :: 0 <= i < tracks.Length ==> tracks[i] == Initialized(geo, old(tracks[i]))
      ensures State() == Initial(geo, old(tracks[..])).(tickCounter := tickCounter)
      ensures AllConsistent(geo, tracks[..])
    {
      var i := 0;
      while i < tracks.Length
        invariant 0 <= i <= tracks.Length
        invariant forall j :: 0 <= j < i ==> tracks[j] == Initialized(geo, old(tracks[j]))
        invariant forall j :: i <= j < tracks.Length ==> tracks[j] == old(tracks[j])
      {
        var track := tracks[i];
        tracks[i] := track.(length := geo.length(track.geometry), distanceTraveled := 0.0, reset := true);
        i := i + 1;
      }
    }

    /**
     * `generateWaypoints`: processes the tracks in feature order, the i-th
     * with timestamp `nows[i]`, and hands one document per track to the sink.
     * `rejectedAt` is the index of the write the sink rejects, if any; the
     * tick stops there.  On completion the counter is incremented.
     */
    method GenerateWaypoints(nows: seq<int>, rejectedAt: Option<nat>) returns (batch: seq<Doc>, outcome: TickOutcome)
      requires |nows| == tracks.Length
      modifies this, tracks
      ensures outcome == Outcome(tracks.Length, rejectedAt)
      ensures batch == Batch(geo, old(tracks[..]), nows, rejectedAt)
      ensures tracks[..] == TickTracks(geo, old(tracks[..]), nows, rejectedAt)
      ensures tickCounter == old(tickCounter) + (if outcome.Completed? then 1 else 0)
      ensures State() == Tick(geo, old(State()), TickInput(nows, rejectedAt))
      ensures old(AllConsistent(geo, tracks[..]) && ClockOkAll(tracks[..], nows)) && outcome.Completed? ==>
        AllConsistent(geo, tracks[..])
    {
      ghost var before := tracks[..];
      batch := [];
      var i := 0;
      while i < tracks.Length
        invariant 0 <= i <= tracks.Length
        invariant rejectedAt.Some? ==> i <= rejectedAt.value
        invariant forall j :: 0 <= j < i ==> tracks[j] == Process(geo, before[j], nows[j]).track
        invariant forall j :: i <= j < tracks.Length ==> tracks[j] == before[j]
        invariant batch == seq(i, j requires 0 <= j < i => Document(geo, before, nows, j))
        invariant tickCounter == old(tickCounter)
      {
        var track := tracks[i];
        var trackId := EntityId(track.id, i);
        var timeStamp := nows[i];

        var wayPoint: Position;
        if track.reset {
          wayPoint := track.geometry.coordinates[0];
          track := track.(reset := false);
        } else {
          var totalDistance := TotalDistance(track, timeStamp);
          var targetDistance: real;
          if totalDistance.Some? && totalDistance.value < track.length {
            targetDistance := totalDistance.value;
            track := track.(distanceTraveled := targetDistance);
          } else {
            targetDistance := track.length;
            track := track.(reset := true, distanceTraveled := 0.0);
          }
          wayPoint := geo.along(track.geometry, targetDistance);
        }
        assert Advanced(track, wayPoint) == Advance(geo, before[i], timeStamp);
        tracks[i] := track;

        batch := batch + [Doc(wayPoint, trackId, timeStamp)];
        if rejectedAt == Some(i) {
          outcome := Rejected(i);
          assert tracks[..] == TickTracks(geo, before, nows, rejectedAt);
          return;
        }

        tracks[i] := track.(lastUpdate := Some(timeStamp));
        i := i + 1;
      }
      tickCounter := tickCounter + 1;
      outcome := Completed;
      assert tracks[..] == TickTracks(geo, before, nows, rejectedAt);
      if AllConsistent(geo, before) && ClockOkAll(before, nows) {
        TickKeepsConsistent(geo, before, nows, rejectedAt);
      }
    }
  }
}
