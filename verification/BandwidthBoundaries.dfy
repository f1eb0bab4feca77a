/** One boundary record per router, as the handler fetches it, against one boundary sample per stream, as the
    written design asks (analytics_apis_for_mcp.md, Query Flow). */
module BandwidthBoundaries {
  import opened Wrappers
  import opened Windows
  import opened Orders
  import opened ClientMac
  import opened BandwidthSpec
  import opened BandwidthQuery

  // ---- A stream cut to an interval of time ----

  /** The rows of the interval, in some order. */
  ghost predicate CutTo(rows: set<Record>, records: seq<Record>, lo: nat, hi: nat) {
    forall r :: r in records <==> r in rows && lo <= r.timestamp <= hi
  }

  lemma ObservedAtRecordTime(r: Record, o: Observation)
    requires o in OfSsids(r, r.ssids)
    ensures o.reading.time == r.timestamp
  {
    var s :| s in r.ssids && o in OfAssocs(r, s, s.associations);
    var a :| a in s.associations && o in OfAssoc(r, s, a);
  }

  lemma ReadingsCut(rows: set<Record>, all: seq<Record>, records: seq<Record>, lo: nat, hi: nat, key: StreamKey)
    requires (forall r :: r in all <==> r in rows) && CutTo(rows, records, lo, hi)
    ensures forall x :: x in Readings(Observations(records), key) <==>
                        x in Readings(Observations(all), key) && lo <= x.time <= hi
  {
    forall o ensures o in Observations(records) <==> o in Observations(all) && lo <= o.reading.time <= hi {
      if o in Observations(records) {
        var r :| r in records && o in OfSsids(r, r.ssids);
        ObservedAtRecordTime(r, o);
        assert r in all;
      }
      if o in Observations(all) && lo <= o.reading.time <= hi {
        var r :| r in all && o in OfSsids(r, r.ssids);
        ObservedAtRecordTime(r, o);
        assert r in records;
      }
    }
    forall x ensures x in Readings(Observations(records), key) <==>
                     x in Readings(Observations(all), key) && lo <= x.time <= hi {
      assert x in Readings(Observations(records), key) <==> Observation(key, x) in Observations(records);
      assert x in Readings(Observations(all), key) <==> Observation(key, x) in Observations(all);
    }
  }

  ghost function Between(track: seq<Reading>, lo: nat, hi: nat): seq<Reading> {
    if track == [] then [] else
      var n := |track| - 1;
      Between(track[..n], lo, hi) + if lo <= track[n].time <= hi then [track[n]] else []
  }

  ghost function PointsBetween(ps: seq<Point>, lo: nat, hi: nat): seq<Point> {
    if ps == [] then [] else
      var n := |ps| - 1;
      PointsBetween(ps[..n], lo, hi) + if lo <= ps[n].time <= hi then [ps[n]] else []
  }

  lemma {:induction false} BetweenMembers(track: seq<Reading>, lo: nat, hi: nat)
    requires Ascending(Earlier, track)
    ensures Ascending(Earlier, Between(track, lo, hi))
    ensures forall x :: x in Between(track, lo, hi) <==> x in track && lo <= x.time <= hi
  {
    if track != [] {
      var n := |track| - 1;
      assert track == track[..n] + [track[n]];
      BetweenMembers(track[..n], lo, hi);
      AllEarlier(track, Between(track[..n], lo, hi));
    }
  }

  lemma AllEarlier(track: seq<Reading>, b: seq<Reading>)
    requires Ascending(Earlier, track) && track != [] && forall x | x in b :: x in track[..|track| - 1]
    ensures forall i | 0 <= i < |b| :: Earlier(b[i], track[|track| - 1])
  {
    forall i | 0 <= i < |b| ensures Earlier(b[i], track[|track| - 1]) {
      assert b[i] in b && b[i] in track[..|track| - 1];
      var k :| 0 <= k < |track| - 1 && track[k] == b[i];
    }
  }

  /** Conflicts are a matter of one timestamp, so cutting rows by time cuts every track by time. */
  lemma TrackCut(rows: set<Record>, all: seq<Record>, records: seq<Record>, lo: nat, hi: nat, key: StreamKey)
    requires (forall r :: r in all <==> r in rows) && CutTo(rows, records, lo, hi)
    ensures Track(Observations(records), key) == Between(Track(Observations(all), key), lo, hi)
  {
    var full, cut := Readings(Observations(all), key), Readings(Observations(records), key);
    ReadingsCut(rows, all, records, lo, hi, key);
    EarlierOrders(full);
    EarlierOrders(cut);
    BetweenMembers(Track(Observations(all), key), lo, hi);
    forall x ensures x in Settled(cut) <==> x in Settled(full) && lo <= x.time <= hi {
      SettledCut(full, cut, lo, hi, x);
    }
    ListsUnique(Earlier, Track(Observations(records), key), Between(Track(Observations(all), key), lo, hi),
                Settled(cut));
  }

  lemma SettledCut(full: set<Reading>, cut: set<Reading>, lo: nat, hi: nat, x: Reading)
    requires forall y :: y in cut <==> y in full && lo <= y.time <= hi
    ensures x in Settled(cut) <==> x in Settled(full) && lo <= x.time <= hi
  {}

  lemma {:induction false} PointsCut(track: seq<Reading>, c: Counter, lo: nat, hi: nat)
    ensures Points(Between(track, lo, hi), c) == PointsBetween(Points(track, c), lo, hi)
  {
    if track != [] {
      var n := |track| - 1;
      PointsCut(track[..n], c, lo, hi);
      var b, p := Between(track[..n], lo, hi), Points(track[..n], c);
      PointsAppend(b, track[n], c);
      assert b + [] == b && p + [] == p && Points(b, c) + [] == Points(b, c);
      if ValueOf(track[n], c).Some? {
        BetweenAppend(p, Point(track[n].time, ValueOf(track[n], c).value), lo, hi);
      }
    }
  }

  lemma PointsAppend(track: seq<Reading>, r: Reading, c: Counter)
    ensures Points(track + [r], c) ==
            Points(track, c) + match ValueOf(r, c) { case None => [] case Some(v) => [Point(r.time, v)] }
  {
    assert (track + [r])[..|track|] == track;
  }

  lemma BetweenAppend(ps: seq<Point>, p: Point, lo: nat, hi: nat)
    ensures PointsBetween(ps + [p], lo, hi) == PointsBetween(ps, lo, hi) + if lo <= p.time <= hi then [p] else []
  {
    assert (ps + [p])[..|ps|] == ps;
  }

  // ---- Slices of a stream ----

  ghost predicate InTime(ps: seq<Point>) { forall i, j | 0 <= i < j < |ps| :: ps[i].time < ps[j].time }

  lemma Ordered(ps: seq<Point>, a: int, b: int)
    requires InTime(ps)
    ensures 0 <= a < b <= |ps| ==> ps[a].time <= ps[b - 1].time
  {}

  /** How many values are at or before t. */
  ghost function UpTo(ps: seq<Point>, t: nat): (n: nat)
    ensures n <= |ps| && (n > 0 ==> ps[n - 1].time <= t) && (n < |ps| ==> t < ps[n].time)
  {
    if ps == [] || ps[|ps| - 1].time <= t then |ps| else UpTo(ps[..|ps| - 1], t)
  }

  /** How many values are before t. */
  ghost function Before(ps: seq<Point>, t: nat): (n: nat)
    ensures n <= |ps| && (n > 0 ==> ps[n - 1].time < t) && (n < |ps| ==> t <= ps[n].time)
  {
    if t == 0 then 0 else UpTo(ps, t - 1)
  }

  lemma BeforeIs(ps: seq<Point>, t: nat, n: nat)
    requires InTime(ps) && n <= |ps| && (n > 0 ==> ps[n - 1].time < t) && (n < |ps| ==> t <= ps[n].time)
    ensures Before(ps, t) == n
  {
    var x := Before(ps, t);
    Ordered(ps, x, n);
    Ordered(ps, n, x);
  }

  lemma UpToIs(ps: seq<Point>, t: nat, n: nat)
    requires InTime(ps) && n <= |ps| && (n > 0 ==> ps[n - 1].time <= t) && (n < |ps| ==> t < ps[n].time)
    ensures UpTo(ps, t) == n
  {
    var y := UpTo(ps, t);
    Ordered(ps, y, n);
    Ordered(ps, n, y);
  }

  /** The values of an interval stand together. */
  lemma {:induction false} BetweenIsSlice(ps: seq<Point>, lo: nat, hi: nat, x: nat, y: nat)
    requires InTime(ps) && lo <= hi && x <= y <= |ps|
    requires forall k | 0 <= k < |ps| :: x <= k < y <==> lo <= ps[k].time <= hi
    ensures PointsBetween(ps, lo, hi) == ps[x..y]
    decreases |ps|
  {
    if ps != [] {
      var n := |ps| - 1;
      var q := ps[..n];
      if x < y == |ps| {
        BetweenIsSlice(q, lo, hi, x, n);
        assert ps[x..y] == q[x..n] + [ps[n]];
      } else if y <= n {
        BetweenIsSlice(q, lo, hi, x, y);
        assert ps[x..y] == q[x..y];
      } else {
        BetweenIsSlice(q, lo, hi, n, n);
      }
    }
  }

  /** What the step from value k - 1 to value k is charged. */
  ghost function StepCharge(ps: seq<Point>, k: int, w: Window): nat {
    if 0 < k < |ps| && Counts(ps[k - 1], ps[k], w) then ps[k].value - ps[k - 1].value else 0
  }

  ghost function Charge(ps: seq<Point>, i: int, j: int, w: Window): nat
    decreases j - i
  {
    if j - i < 2 then 0 else Charge(ps, i, j - 1, w) + StepCharge(ps, j - 1, w)
  }

  lemma {:induction false} UsageOfSlice(ps: seq<Point>, i: nat, j: nat, w: Window)
    requires i <= j <= |ps|
    ensures Usage(ps[i..j], w) == Charge(ps, i, j, w)
    decreases j
  {
    if j - i >= 2 {
      assert ps[i..j][..j - i - 1] == ps[i..j - 1];
      UsageOfSlice(ps, i, j - 1, w);
    }
  }

  lemma {:induction false} FirstStepOff(ps: seq<Point>, i: nat, j: nat, w: Window)
    requires i + 2 <= j <= |ps|
    ensures Charge(ps, i, j, w) == StepCharge(ps, i + 1, w) + Charge(ps, i + 1, j, w)
    decreases j
  {
    if j > i + 2 { FirstStepOff(ps, i, j - 1, w); } else { assert Charge(ps, i, j - 1, w) == 0; }
  }

  // ---- The two charges of a stream ----

  /** From the stream's own latest value at or before the window's start to its own earliest at or after its end. */
  ghost function OwnFirst(ps: seq<Point>, w: Window): (i: nat)
    ensures i <= |ps|
  {
    if UpTo(ps, w.startTime) == 0 then 0 else UpTo(ps, w.startTime) - 1
  }

  ghost function OwnEnd(ps: seq<Point>, w: Window): (j: nat)
    ensures j <= |ps|
  {
    if Before(ps, w.endTime) == |ps| then |ps| else Before(ps, w.endTime) + 1
  }

  /** What the design charges. */
  ghost function OwnCharge(ps: seq<Point>, w: Window): nat
  {
    Charge(ps, OwnFirst(ps, w), OwnEnd(ps, w), w)
  }

  /** lo and hi are where the router's records around the window begin and end: no stream of it has a value
      between them and the window. */
  ghost predicate Around(ps: seq<Point>, w: Window, lo: nat, hi: nat) {
    && lo <= w.startTime < w.endTime <= hi
    && (forall k | 0 <= k < |ps| && ps[k].time <= w.startTime :: ps[k].time <= lo)
    && (forall k | 0 <= k < |ps| && ps[k].time >= w.endTime :: ps[k].time >= hi)
  }

  /** What the step into the window is worth when the router reported since the stream's last value before it. */
  ghost function MissedBefore(ps: seq<Point>, w: Window, lo: nat): nat
  {
    var n := UpTo(ps, w.startTime);
    if n > 0 && ps[n - 1].time < lo then StepCharge(ps, n, w) else 0
  }

  ghost function MissedAfter(ps: seq<Point>, w: Window, hi: nat): nat
  {
    var m := Before(ps, w.endTime);
    if m < |ps| && ps[m].time > hi then StepCharge(ps, m, w) else 0
  }

  lemma LowSlice(ps: seq<Point>, w: Window, lo: nat, hi: nat)
    requires InTime(ps) && Around(ps, w, lo, hi)
    ensures var n := UpTo(ps, w.startTime); Before(ps, lo) == if n > 0 && ps[n - 1].time == lo then n - 1 else n
  {
    var n := UpTo(ps, w.startTime);
    BeforeIs(ps, lo, if n > 0 && ps[n - 1].time == lo then n - 1 else n);
  }

  lemma HighSlice(ps: seq<Point>, w: Window, lo: nat, hi: nat)
    requires InTime(ps) && Around(ps, w, lo, hi)
    ensures var m := Before(ps, w.endTime); UpTo(ps, hi) == if m < |ps| && ps[m].time == hi then m + 1 else m
  {
    var m := Before(ps, w.endTime);
    UpToIs(ps, hi, if m < |ps| && ps[m].time == hi then m + 1 else m);
  }

  /** Which values the handler's records hold. */
  lemma HandlerSlice(ps: seq<Point>, lo: nat, hi: nat)
    requires InTime(ps) && lo <= hi
    ensures Before(ps, lo) <= UpTo(ps, hi) && PointsBetween(ps, lo, hi) == ps[Before(ps, lo)..UpTo(ps, hi)]
  {
    var x, y := Before(ps, lo), UpTo(ps, hi);
    Ordered(ps, y, x);
    forall k | 0 <= k < |ps| ensures x <= k < y <==> lo <= ps[k].time <= hi {
      Ordered(ps, x, k + 1);
      Ordered(ps, k, x);
      Ordered(ps, k, y);
      Ordered(ps, y, k + 1);
    }
    BetweenIsSlice(ps, lo, hi, x, y);
  }

  /** Taking a value off either end of a slice takes off its step. */
  lemma ChargeEnds(ps: seq<Point>, i: nat, j: nat, x: nat, y: nat, w: Window)
    requires i <= x <= i + 1 && y <= j <= y + 1 && j <= |ps| && i + 2 <= j
    requires x > i && y < j && j == i + 2 ==> StepCharge(ps, i + 1, w) == 0
    ensures Charge(ps, i, j, w) ==
            Charge(ps, x, y, w) + (if x > i then StepCharge(ps, i + 1, w) else 0)
            + if y < j then StepCharge(ps, j - 1, w) else 0
  {
    if x > i {
      FirstStepOff(ps, i, j, w);
      if y < j && j > i + 2 {
        assert Charge(ps, i + 1, j, w) == Charge(ps, i + 1, j - 1, w) + StepCharge(ps, j - 1, w);
      }
    }
  }

  /** The handler's charge of a stream falls short of the design's by exactly the steps it misses. */
  lemma ChargesDiffer(ps: seq<Point>, w: Window, lo: nat, hi: nat)
    requires InTime(ps) && Around(ps, w, lo, hi)
    ensures OwnCharge(ps, w) ==
            Usage(PointsBetween(ps, lo, hi), w) + MissedBefore(ps, w, lo) + MissedAfter(ps, w, hi)
  {
    LowSlice(ps, w, lo, hi);
    HighSlice(ps, w, lo, hi);
    WindowInside(ps, w, lo, hi);
    OwnLessMissed(ps, w, lo, hi, UpTo(ps, w.startTime), Before(ps, w.endTime));
    HandlerSlice(ps, lo, hi);
    UsageOfSlice(ps, Before(ps, lo), UpTo(ps, hi), w);
  }

  lemma WindowInside(ps: seq<Point>, w: Window, lo: nat, hi: nat)
    requires InTime(ps) && Around(ps, w, lo, hi)
    ensures var n, m := UpTo(ps, w.startTime), Before(ps, w.endTime);
            n <= m && (n > 0 ==> ps[n - 1].time <= lo) && (m < |ps| ==> ps[m].time >= hi)
  {
    Ordered(ps, Before(ps, w.endTime), UpTo(ps, w.startTime));
  }

  lemma OwnLessMissed(ps: seq<Point>, w: Window, lo: nat, hi: nat, n: nat, m: nat)
    requires n == UpTo(ps, w.startTime) && m == Before(ps, w.endTime) && n <= m && lo <= w.startTime < w.endTime <= hi
    requires n > 0 ==> ps[n - 1].time <= lo
    requires m < |ps| ==> ps[m].time >= hi
    requires Before(ps, lo) == if n > 0 && ps[n - 1].time == lo then n - 1 else n
    requires UpTo(ps, hi) == if m < |ps| && ps[m].time == hi then m + 1 else m
    ensures OwnCharge(ps, w) ==
            Charge(ps, Before(ps, lo), UpTo(ps, hi), w) + MissedBefore(ps, w, lo) + MissedAfter(ps, w, hi)
  {
    EndsTakenOff(ps, n, m, Before(ps, lo), UpTo(ps, hi), w, lo, hi);
  }

  /** n values up to the window's start, m before its end; the records hold those from x to y. */
  lemma EndsTakenOff(ps: seq<Point>, n: nat, m: nat, x: nat, y: nat, w: Window, lo: nat, hi: nat)
    requires n <= m <= |ps| && lo <= w.startTime < w.endTime <= hi
    requires n > 0 ==> ps[n - 1].time <= lo
    requires m < |ps| ==> ps[m].time >= hi
    requires x == if n > 0 && ps[n - 1].time == lo then n - 1 else n
    requires y == if m < |ps| && ps[m].time == hi then m + 1 else m
    ensures Charge(ps, if n == 0 then 0 else n - 1, if m == |ps| then m else m + 1, w) ==
            Charge(ps, x, y, w)
            + (if n > 0 && ps[n - 1].time < lo then StepCharge(ps, n, w) else 0)
            + if m < |ps| && ps[m].time > hi then StepCharge(ps, m, w) else 0
  {
    var i, j := if n == 0 then 0 else n - 1, if m == |ps| then m else m + 1;
    if i + 2 <= j { ChargeEnds(ps, i, j, x, y, w); }
  }

  /** What the handler is given and hands on, as BandwidthQuery.Assemble has it; rows are the router's rows within
      the retention, and no second row shares the time of a boundary row. */
  ghost predicate Fetched(rows: set<Record>, retentionStart: nat, start: Option<Record>, end: Option<Record>,
                          records: seq<Record>, w: Window) {
    && w.startTime <= w.endTime && (forall r | r in rows :: retentionStart <= r.timestamp)
    && SelectedLatest(rows, retentionStart, w.startTime, start) && SelectedEarliest(rows, w.endTime, end)
    && (forall r :: r in records <==> (r in rows && InWindow(w, r.timestamp)) || start == Some(r) || end == Some(r))
    && (start.Some? ==> forall r | r in rows && r.timestamp == start.value.timestamp < w.startTime :: r == start.value)
    && (end.Some? ==> forall r | r in rows && r.timestamp == end.value.timestamp :: r == end.value)
  }

  ghost function LowEnd(start: Option<Record>, w: Window): nat {
    if start.Some? then start.value.timestamp else w.startTime
  }

  ghost function HighEnd(end: Option<Record>, w: Window): nat {
    if end.Some? then end.value.timestamp else w.endTime
  }

  lemma FetchedIsCut(rows: set<Record>, retentionStart: nat, start: Option<Record>, end: Option<Record>,
                     records: seq<Record>, w: Window)
    requires Fetched(rows, retentionStart, start, end, records, w)
    ensures LowEnd(start, w) <= w.startTime <= w.endTime <= HighEnd(end, w)
    ensures forall r | r in rows && r.timestamp <= w.startTime :: r.timestamp <= LowEnd(start, w)
    ensures forall r | r in rows && r.timestamp >= w.endTime :: r.timestamp >= HighEnd(end, w)
    ensures w.startTime < w.endTime ==> CutTo(rows, records, LowEnd(start, w), HighEnd(end, w))
  {
    var lo, hi := LowEnd(start, w), HighEnd(end, w);
    forall r | w.startTime < w.endTime ensures r in records <==> r in rows && lo <= r.timestamp <= hi {
      if r in rows && lo <= r.timestamp <= hi && !InWindow(w, r.timestamp) {
        assert r.timestamp < w.startTime ==> r.timestamp == lo;
        assert r.timestamp >= w.endTime ==> r.timestamp == hi;
      }
    }
  }

  /** Of the records the handler assembles, a stream is charged what the design asks iff each step into or out of
      the window that the router's boundary record cuts off is worth nothing, and never more. */
  lemma HandlerMeetsDesignIff(rows: set<Record>, retentionStart: nat, start: Option<Record>, end: Option<Record>,
                              records: seq<Record>, all: seq<Record>, key: StreamKey, c: Counter, w: Window)
    requires Fetched(rows, retentionStart, start, end, records, w) && w.startTime < w.endTime
    requires forall r :: r in all <==> r in rows
    ensures var ps := Points(Track(Observations(all), key), c);
            var charged := StreamUsage(Observations(records), key, c, w);
            && InTime(ps)
            && charged <= OwnCharge(ps, w)
            && (charged == OwnCharge(ps, w) <==>
                MissedBefore(ps, w, LowEnd(start, w)) == 0 && MissedAfter(ps, w, HighEnd(end, w)) == 0)
  {
    var lo, hi := LowEnd(start, w), HighEnd(end, w);
    var ps := Points(Track(Observations(all), key), c);
    FetchedIsCut(rows, retentionStart, start, end, records, w);
    StreamCut(rows, all, records, lo, hi, key, c, w);
    StreamAround(rows, all, key, c, w, lo, hi);
    ChargesDiffer(ps, w, lo, hi);
  }

  lemma StreamAround(rows: set<Record>, all: seq<Record>, key: StreamKey, c: Counter, w: Window, lo: nat, hi: nat)
    requires (forall r :: r in all <==> r in rows) && lo <= w.startTime < w.endTime <= hi
    requires forall r | r in rows && r.timestamp <= w.startTime :: r.timestamp <= lo
    requires forall r | r in rows && r.timestamp >= w.endTime :: r.timestamp >= hi
    ensures Around(Points(Track(Observations(all), key), c), w, lo, hi)
  {
    var ps := Points(Track(Observations(all), key), c);
    forall k | 0 <= k < |ps|
      ensures ps[k].time <= w.startTime ==> ps[k].time <= lo
      ensures ps[k].time >= w.endTime ==> ps[k].time >= hi
    {
      PointComesFromRecord(all, key, c, ps[k]);
    }
  }

  lemma StreamCut(rows: set<Record>, all: seq<Record>, records: seq<Record>, lo: nat, hi: nat, key: StreamKey,
                  c: Counter, w: Window)
    requires (forall r :: r in all <==> r in rows) && CutTo(rows, records, lo, hi)
    ensures var ps := Points(Track(Observations(all), key), c);
            InTime(ps) && StreamUsage(Observations(records), key, c, w) == Usage(PointsBetween(ps, lo, hi), w)
  {
    var obs := Observations(all);
    EarlierOrders(Readings(obs, key));
    PointsFollowTrack(Track(obs, key), c);
    TrackCut(rows, all, records, lo, hi, key);
    PointsCut(Track(obs, key), c, lo, hi);
  }

  /** They do differ: a stream last seen before the router's latest record ahead of the window, and growing
      into the window, is charged nothing for that growth. */
  lemma GrowthIntoWindowMissed(w: Window, p: Point, q: Point, lo: nat, hi: nat)
    requires p.time < lo <= w.startTime < q.time < w.endTime <= hi && p.value < q.value
    ensures InTime([p, q]) && Usage(PointsBetween([p, q], lo, hi), w) == 0 && OwnCharge([p, q], w) == q.value - p.value
  {
    var ps := [p, q];
    UpToIs(ps, w.startTime, 1);
    BeforeIs(ps, w.endTime, 2);
    ChargesDiffer(ps, w, lo, hi);
    assert Charge(ps, 0, 1, w) == 0;
  }

  /** A row in which one station of one stream reports one value. */
  function Reporting(time: nat, id: string, station: string, key: StreamKey, rx: nat): Record {
    Record(time, id, [Ssid(key.bssid, key.ssid, key.band, [Assoc(station, Some(rx), None)])])
  }

  lemma ReportingObserved(time: nat, id: string, station: string, key: StreamKey, rx: nat)
    requires Normalized(station) == Some(key.mac)
    ensures var r := Reporting(time, id, station, key, rx);
            OfSsids(r, r.ssids) == {Observation(key, Reading(time, Some(rx), None))}
  {
    var r := Reporting(time, id, station, key, rx);
    var s := r.ssids[0];
    var a, o := s.associations[0], Observation(key, Reading(time, Some(rx), None));
    assert OfAssoc(r, s, a) == {o};
    assert a in s.associations && o in OfAssocs(r, s, s.associations);
    assert s in r.ssids && o in OfSsids(r, r.ssids);
  }

  /** Only b says nothing of the stream. */
  lemma ReadingsOfThree(a: Record, b: Record, c: Record, key: StreamKey, x: Reading, y: Reading)
    requires OfSsids(a, a.ssids) == {Observation(key, x)} && OfSsids(c, c.ssids) == {Observation(key, y)}
    requires forall o | o in OfSsids(b, b.ssids) :: o.key != key
    ensures Readings(Observations([a, b, c]), key) == {x, y}
  {
    var obs := Observations([a, b, c]);
    assert a in [a, b, c] && c in [a, b, c];
    assert Observation(key, x) in OfSsids(a, a.ssids) && Observation(key, y) in OfSsids(c, c.ssids);
    assert Observation(key, x) in obs && Observation(key, y) in obs;
    forall z | z in Readings(obs, key) ensures z in {x, y} {
      var o :| o in obs && o.key == key && o.reading == z;
      var r :| r in [a, b, c] && o in OfSsids(r, r.ssids);
    }
  }

  lemma TrackOfTwo(obs: set<Observation>, key: StreamKey, x: Reading, y: Reading)
    requires Readings(obs, key) == {x, y} && x.time < y.time
    ensures Track(obs, key) == [x, y]
  {
    EarlierOrders(Readings(obs, key));
    assert Settled({x, y}) == {x, y};
    ListsUnique(Earlier, Track(obs, key), [x, y], {x, y});
  }

  lemma PointsOfTwo(x: Reading, y: Reading)
    requires x.rx.Some? && y.rx.Some?
    ensures Points([x, y], Rx) == [Point(x.time, x.rx.value), Point(y.time, y.rx.value)]
  {
    PointsAppend([], x, Rx);
    PointsAppend([x], y, Rx);
    assert [] + [x] == [x] && [x] + [y] == [x, y];
  }

  /** The rows of the example: the station in a, then b, the latest ahead of the window and without it, then the
      station again in c, inside the window and with a higher value. */
  ghost predicate GrowsUnseen(w: Window, key: StreamKey, a: Record, b: Record, c: Record, station: string, v: nat,
                              x: nat) {
    && Normalized(station) == Some(key.mac) && v < x
    && a == Reporting(a.timestamp, a.id, station, key, v) && c == Reporting(c.timestamp, c.id, station, key, x)
    && (forall o | o in OfSsids(b, b.ssids) :: o.key != key)
    && a.timestamp < b.timestamp <= w.startTime < c.timestamp < w.endTime
  }

  lemma StreamOfRows(w: Window, key: StreamKey, a: Record, b: Record, c: Record, station: string, v: nat, x: nat)
    requires GrowsUnseen(w, key, a, b, c, station, v, x)
    ensures Points(Track(Observations([a, b, c]), key), Rx) == [Point(a.timestamp, v), Point(c.timestamp, x)]
  {
    var p, q := Reading(a.timestamp, Some(v), None), Reading(c.timestamp, Some(x), None);
    ReportingObserved(a.timestamp, a.id, station, key, v);
    ReportingObserved(c.timestamp, c.id, station, key, x);
    ReadingsOfThree(a, b, c, key, p, q);
    TrackOfTwo(Observations([a, b, c]), key, p, q);
    PointsOfTwo(p, q);
  }

  /** Such rows can be what the handler is given. */
  lemma RowsFetched(w: Window, a: Record, b: Record, c: Record)
    requires a.timestamp < b.timestamp <= w.startTime < c.timestamp < w.endTime
    ensures SelectedInside({a, b, c}, w, if b.timestamp == w.startTime then [c, b] else [c])
    ensures Fetched({a, b, c}, a.timestamp, Some(b), None, [c, b], w)
  {}

  /** The handler's records charge the stream nothing, the design the whole rise. */
  lemma RowsMissGrowth(w: Window, key: StreamKey, a: Record, b: Record, c: Record, station: string, v: nat, x: nat)
    requires GrowsUnseen(w, key, a, b, c, station, v, x)
    ensures SelectedInside({a, b, c}, w, if b.timestamp == w.startTime then [c, b] else [c])
    ensures Fetched({a, b, c}, a.timestamp, Some(b), None, [c, b], w)
    ensures StreamUsage(Observations([c, b]), key, Rx, w) == 0
    ensures OwnCharge(Points(Track(Observations([a, b, c]), key), Rx), w) == x - v
  {
    RowsFetched(w, a, b, c);
    FetchedIsCut({a, b, c}, a.timestamp, Some(b), None, [c, b], w);
    StreamCut({a, b, c}, [a, b, c], [c, b], b.timestamp, w.endTime, key, Rx, w);
    StreamOfRows(w, key, a, b, c, station, v, x);
    GrowthIntoWindowMissed(w, Point(a.timestamp, v), Point(c.timestamp, x), b.timestamp, w.endTime);
  }
}
