/**
 * The dwell-time trigger behind the `/track-user-location` endpoint.
 *
 * Each user has at most one stored entry: the anchor location and the time it
 * was recorded. A report from an unseen user stores an anchor
 * (Initialized). A report within 50 metres of the anchor, at least ten minutes
 * after it, asks for a quiz (Triggered) and leaves the anchor where it is.
 * Every other report moves the anchor to the reported location and time
 * (Updated).
 *
 * The distance function and the clock are inputs: `dist` stands for geolib's
 * whole-metre getDistance, and `now` is a count of milliseconds.
 */
module LocationTracker {
  import opened Wrappers

  type UserId = string

  /** A reported position in degrees. */
  datatype Location = Location(latitude: real, longitude: real)

  /** What the store keeps per user: the anchor and when it was recorded (ms). */
  datatype Entry = Entry(lastLocation: Location, timestamp: int)

  datatype Outcome = Initialized | Updated | Triggered(location: Location)

  /** Whole-metre distance between two positions. */
  type Distance = (Location, Location) -> nat

  /** A report as the request layer hands it over, with the server time attached. */
  datatype Report = Report(userId: UserId, location: Location, now: int)

  /** "Still here" means strictly closer than this many metres. */
  const ProximityMetres: nat := 50
  /** Ten minutes in milliseconds. */
  const DwellMillis: nat := 600000

  predicate IsNearby(metres: nat) {
    metres < ProximityMetres
  }

  /** The source divides the millisecond difference by 1000 and by 60 and
      compares the minutes with 10; on exact arithmetic that is the integer test. */
  predicate DwellReached(since: int, now: int)
    ensures DwellReached(since, now) <==> ((now - since) as real) / 1000.0 / 60.0 >= 10.0
  {
    now - since >= DwellMillis
  }

  /** The outcome of a report, given what the store holds for that user. */
  function Decide(stored: Option<Entry>, location: Location, now: int, dist: Distance): (o: Outcome)
    ensures o == Initialized <==> stored.None?
    ensures o.Triggered? <==>
      stored.Some? && IsNearby(dist(stored.value.lastLocation, location)) && DwellReached(stored.value.timestamp, now)
    ensures o.Triggered? ==> o.location == location
  {
    match stored
    case None => Initialized
    case Some(e) =>
      if IsNearby(dist(e.lastLocation, location)) && DwellReached(e.timestamp, now) then Triggered(location)
      else Updated
  }

  function Lookup(store: map<UserId, Entry>, userId: UserId): Option<Entry> {
    if userId in store then Some(store[userId]) else None
  }

  /** The store after a report: unchanged on a trigger, otherwise the
      reporting user's entry becomes the report. */
  function Next(store: map<UserId, Entry>, r: Report, dist: Distance): (s: map<UserId, Entry>)
    ensures s.Keys == store.Keys + {r.userId}
    ensures forall u :: u in store && u != r.userId ==> s[u] == store[u]
    ensures Decide(Lookup(store, r.userId), r.location, r.now, dist).Triggered? ==> s == store
    ensures !Decide(Lookup(store, r.userId), r.location, r.now, dist).Triggered? ==> s[r.userId] == Entry(r.location, r.now)
  {
    if Decide(Lookup(store, r.userId), r.location, r.now, dist).Triggered? then store
    else store[r.userId := Entry(r.location, r.now)]
  }

  /** The store after a sequence of reports, handled one at a time. */
  function Replay(store: map<UserId, Entry>, reports: seq<Report>, dist: Distance): map<UserId, Entry>
    decreases |reports|
  {
    if reports == [] then store
    else Replay(Next(store, reports[0], dist), reports[1..], dist)
  }

  /** The outcomes of a sequence of reports, handled one at a time. */
  function Outcomes(store: map<UserId, Entry>, reports: seq<Report>, dist: Distance): (os: seq<Outcome>)
    ensures |os| == |reports|
    decreases |reports|
  {
    if reports == [] then []
    else
      var r := reports[0];
      [Decide(Lookup(store, r.userId), r.location, r.now, dist)] + Outcomes(Next(store, r, dist), reports[1..], dist)
  }

  /** The set of users that appear in a sequence of reports. */
  function Reporters(reports: seq<Report>): set<UserId> {
    set r | r in reports :: r.userId
  }

  /** Report `i` is decided against the store left by the reports before it. */
  lemma {:induction false} OutcomeAt(store: map<UserId, Entry>, reports: seq<Report>, dist: Distance, i: nat)
    requires i < |reports|
    ensures Outcomes(store, reports, dist)[i]
      == Decide(Lookup(Replay(store, reports[..i], dist), reports[i].userId), reports[i].location, reports[i].now, dist)
    decreases i
  {
    if i > 0 {
      var rest := reports[1..];
      OutcomeAt(Next(store, reports[0], dist), rest, dist, i - 1);
      assert reports[..i][0] == reports[0] && reports[..i][1..] == rest[..i - 1];
      assert rest[i - 1] == reports[i];
    } else {
      assert reports[..0] == [];
    }
  }

  /** Replaying reports only ever adds keys: exactly the reporting users. */
  lemma {:induction false} ReplayKeys(store: map<UserId, Entry>, reports: seq<Report>, dist: Distance)
    ensures Replay(store, reports, dist).Keys == store.Keys + Reporters(reports)
    decreases |reports|
  {
    if reports != [] {
      ReplayKeys(Next(store, reports[0], dist), reports[1..], dist);
      assert reports == [reports[0]] + reports[1..];
      assert Reporters(reports) == {reports[0].userId} + Reporters(reports[1..]);
    }
  }

  /** A user who does not report keeps the entry they had. */
  lemma {:induction false} ReplayKeepsSilentUsers(store: map<UserId, Entry>, reports: seq<Report>, dist: Distance, u: UserId)
    requires u in store
    requires forall i :: 0 <= i < |reports| ==> reports[i].userId != u
    ensures u in Replay(store, reports, dist) && Replay(store, reports, dist)[u] == store[u]
    decreases |reports|
  {
    if reports != [] {
      ReplayKeepsSilentUsers(Next(store, reports[0], dist), reports[1..], dist, u);
    }
  }

  /** Every stored anchor is either the one the user started with or the
      location and time of one of that user's reports. */
  lemma {:induction false} ReplayAnchorsComeFromReports(store: map<UserId, Entry>, reports: seq<Report>, dist: Distance, u: UserId)
    requires u in Replay(store, reports, dist)
    ensures || (u in store && Replay(store, reports, dist)[u] == store[u])
            || exists i :: 0 <= i < |reports| && reports[i].userId == u &&
                 Replay(store, reports, dist)[u] == Entry(reports[i].location, reports[i].now)
    decreases |reports|
  {
    if reports != [] {
      var r := reports[0];
      var next := Next(store, r, dist);
      ReplayKeys(next, reports[1..], dist);
      ReplayAnchorsComeFromReports(next, reports[1..], dist, u);
      var final := Replay(store, reports, dist);
      if u in next && final[u] == next[u] {
        if !(u in store && next[u] == store[u]) {
          assert r.userId == u && next[u] == Entry(r.location, r.now);
          assert reports[0].userId == u;
        }
      } else {
        var i :| 0 <= i < |reports[1..]| && reports[1..][i].userId == u &&
                 final[u] == Entry(reports[1..][i].location, reports[1..][i].now);
        assert reports[i + 1] == reports[1..][i];
      }
    }
  }

  /** The anchor does not advance on a trigger: while every report stays within
      50 metres of the anchor and at least ten minutes after it, every report
      triggers and the store never changes. */
  lemma {:induction false} TriggerKeepsAnchor(store: map<UserId, Entry>, u: UserId, reports: seq<Report>, dist: Distance)
    requires u in store
    requires forall i :: 0 <= i < |reports| ==>
      && reports[i].userId == u
      && IsNearby(dist(store[u].lastLocation, reports[i].location))
      && DwellReached(store[u].timestamp, reports[i].now)
    ensures Replay(store, reports, dist) == store
    ensures forall i :: 0 <= i < |reports| ==> Outcomes(store, reports, dist)[i] == Triggered(reports[i].location)
    decreases |reports|
  {
    if reports != [] {
      assert Next(store, reports[0], dist) == store;
      TriggerKeepsAnchor(store, u, reports[1..], dist);
      forall i | 0 < i < |reports|
        ensures Outcomes(store, reports, dist)[i] == Triggered(reports[i].location)
      {
        assert reports[1..][i - 1] == reports[i];
      }
    }
  }

  /** Because every non-triggering report moves the anchor to the report's own
      time, a user who reports more often than every ten minutes never
      triggers, however long they stay in one place. */
  lemma {:induction false} FrequentReportsNeverTrigger(store: map<UserId, Entry>, u: UserId, reports: seq<Report>, dist: Distance)
    requires u in store
    requires forall i :: 0 <= i < |reports| ==> reports[i].userId == u
    requires |reports| > 0 ==> reports[0].now - store[u].timestamp < DwellMillis
    requires forall i :: 0 < i < |reports| ==> reports[i].now - reports[i - 1].now < DwellMillis
    ensures forall i :: 0 <= i < |reports| ==> Outcomes(store, reports, dist)[i] == Updated
    decreases |reports|
  {
    if reports != [] {
      var next := Next(store, reports[0], dist);
      assert next[u] == Entry(reports[0].location, reports[0].now);
      FrequentReportsNeverTrigger(next, u, reports[1..], dist);
      forall i | 0 < i < |reports|
        ensures Outcomes(store, reports, dist)[i] == Updated
      {
        assert reports[1..][i - 1] == reports[i];
      }
    }
  }

  /** The mutable store of the endpoint: `userLocations`, keyed by user. */
  class Tracker {
    var userLocations: map<UserId, Entry>

    constructor ()
      ensures userLocations == map[]
    {
      userLocations := map[];
    }

    /** Handle one location report received at time `now`. */
    method Update(userId: UserId, location: Location, now: int, dist: Distance) returns (outcome: Outcome)
      modifies this
      ensures outcome == Decide(Lookup(old(userLocations), userId), location, now, dist)
      ensures userLocations == Next(old(userLocations), Report(userId, location, now), dist)
      // first sighting
      ensures userId !in old(userLocations) ==>
        outcome == Initialized && userLocations == old(userLocations)[userId := Entry(location, now)]
      // moved 50 metres or more: overwrite, whatever the elapsed time
      ensures userId in old(userLocations) && !IsNearby(dist(old(userLocations)[userId].lastLocation, location)) ==>
        outcome == Updated && userLocations == old(userLocations)[userId := Entry(location, now)]
      // still here, ten minutes or more: trigger, anchor unchanged
      ensures userId in old(userLocations) && IsNearby(dist(old(userLocations)[userId].lastLocation, location))
              && DwellReached(old(userLocations)[userId].timestamp, now) ==>
        outcome == Triggered(location) && userLocations == old(userLocations)
      // still here, under ten minutes: overwrite
      ensures userId in old(userLocations) && IsNearby(dist(old(userLocations)[userId].lastLocation, location))
              && !DwellReached(old(userLocations)[userId].timestamp, now) ==>
        outcome == Updated && userLocations == old(userLocations)[userId := Entry(location, now)]
      // nobody else's entry changes; keys never disappear
      ensures forall u :: u in old(userLocations) && u != userId ==> u in userLocations && userLocations[u] == old(userLocations)[u]
      ensures old(userLocations).Keys <= userLocations.Keys && userId in userLocations
    {
      if userId !in userLocations {
        userLocations := userLocations[userId := Entry(location, now)];
        return Initialized;
      }
      var anchor := userLocations[userId];
      var distance := dist(anchor.lastLocation, location);
      if IsNearby(distance) {
        if DwellReached(anchor.timestamp, now) {
          return Triggered(location);
        }
      }
      userLocations := userLocations[userId := Entry(location, now)];
      return Updated;
    }
  }
}
