/** The usage-summary handler: rows selected from the time-point table plus up to two boundary rows
    (src/RESTAPI/RESTAPI_device_bandwidth_consumption_handler.cpp, src/storage/storage_timepoints.cpp). */
module BandwidthQuery {
  import opened Wrappers
  import opened Windows
  import opened BandwidthSpec
  import opened Bandwidth

  /** SelectRecordsBySerial: the rows of the half-open window, in some order. */
  ghost predicate SelectedInside(rows: set<Record>, w: Window, found: seq<Record>) {
    forall r :: r in found <==> r in rows && InWindow(w, r.timestamp)
  }

  /** SelectLatestRecordAtOrBeforeBySerial: a newest row in [lo, hi], if there is one. */
  ghost predicate SelectedLatest(rows: set<Record>, lo: nat, hi: nat, found: Option<Record>) {
    match found
    case None => forall r | r in rows :: !(lo <= r.timestamp <= hi)
    case Some(f) =>
      && f in rows && lo <= f.timestamp <= hi
      && forall r | r in rows && lo <= r.timestamp <= hi :: r.timestamp <= f.timestamp
  }

  /** SelectEarliestRecordAtOrAfterBySerial: an oldest row from lo on, if there is one. */
  ghost predicate SelectedEarliest(rows: set<Record>, lo: nat, found: Option<Record>) {
    match found
    case None => forall r | r in rows :: r.timestamp < lo
    case Some(f) =>
      && f in rows && lo <= f.timestamp
      && forall r | r in rows && lo <= r.timestamp :: f.timestamp <= r.timestamp
  }

  /** What the calculator is fed: rows in the window, at most one older time and at most one newer time. */
  ghost predicate Assembled(records: seq<Record>, w: Window) {
    forall r, s | r in records && s in records ::
      && (r.timestamp < w.startTime && s.timestamp < w.startTime ==> r.timestamp == s.timestamp)
      && (r.timestamp >= w.endTime && s.timestamp >= w.endTime ==> r.timestamp == s.timestamp)
  }

  method Assemble(inside: seq<Record>, start: Option<Record>, end: Option<Record>, w: Window,
                  ghost rows: set<Record>, ghost retentionStart: nat) returns (records: seq<Record>)
    requires w.startTime <= w.endTime
    requires SelectedInside(rows, w, inside) && SelectedLatest(rows, retentionStart, w.startTime, start)
    requires SelectedEarliest(rows, w.endTime, end)
    ensures Assembled(records, w)
    ensures forall r :: r in records <==> (r in rows && InWindow(w, r.timestamp)) || start == Some(r) || end == Some(r)
    // a start boundary standing exactly at the start of the window is there already
    ensures start.Some? && InWindow(w, start.value.timestamp) ==>
              forall r :: r in records <==> r in inside || end == Some(r)
  {
    records := inside;
    if start.Some? { records := records + [start.value]; }
    if end.Some? { records := records + [end.value]; }
  }

  method UsageSummary(inside: seq<Record>, start: Option<Record>, end: Option<Record>, w: Window,
                      ghost rows: set<Record>, ghost retentionStart: nat)
    returns (summary: Summary, records: seq<Record>)
    requires w.startTime <= w.endTime
    requires SelectedInside(rows, w, inside) && SelectedLatest(rows, retentionStart, w.startTime, start)
    requires SelectedEarliest(rows, w.endTime, end)
    ensures Assembled(records, w) && IsSummary(Observations(records), w, summary)
    ensures forall r :: r in records <==> (r in rows && InWindow(w, r.timestamp)) || start == Some(r) || end == Some(r)
  {
    records := Assemble(inside, start, end, w, rows, retentionStart);
    summary := CalculateBandwidthConsumptionSummary(records, w);
  }

  lemma PointComesFromRecord(records: seq<Record>, key: StreamKey, c: Counter, p: Point)
    requires p in Points(Track(Observations(records), key), c)
    ensures exists r :: r in records && r.timestamp == p.time
  {
    var obs := Observations(records);
    var track := Track(obs, key);
    EarlierOrders(Readings(obs, key));
    PointsFollowTrack(track, c);
    var m :| m in track && m.time == p.time && ValueOf(m, c) == Some(p.value);
    assert m in Settled(Readings(obs, key));
    var o :| o in obs && o.key == key && o.reading == m;
    var r :| r in records && o in OfSsids(r, r.ssids);
    var s :| s in r.ssids && o in OfAssocs(r, s, s.associations);
    var a :| a in s.associations && o in OfAssoc(r, s, a);
    assert r.timestamp == p.time;
  }

  /** In every stream of a query, only the first and the last value can lie outside the window. */
  lemma InteriorPointsInWindow(records: seq<Record>, key: StreamKey, c: Counter, w: Window, i: nat)
    requires Assembled(records, w) && w.startTime <= w.endTime
    requires 0 < i < |Points(Track(Observations(records), key), c)| - 1
    ensures InWindow(w, Points(Track(Observations(records), key), c)[i].time)
  {
    var obs := Observations(records);
    var ps := Points(Track(obs, key), c);
    EarlierOrders(Readings(obs, key));
    PointsFollowTrack(Track(obs, key), c);
    PointComesFromRecord(records, key, c, ps[i - 1]);
    PointComesFromRecord(records, key, c, ps[i]);
    PointComesFromRecord(records, key, c, ps[i + 1]);
  }

  /** For a query, any stream whose counter never falls and that has a value in the window is charged
      exactly its last value minus its first. */
  lemma QueryChargesLastMinusFirst(records: seq<Record>, key: StreamKey, c: Counter, w: Window)
    requires Assembled(records, w) && w.startTime <= w.endTime
    requires var ps := Points(Track(Observations(records), key), c);
             && (exists i :: 0 <= i < |ps| && InWindow(w, ps[i].time))
             && forall i | 0 < i < |ps| :: ps[i - 1].value <= ps[i].value
    ensures var ps := Points(Track(Observations(records), key), c);
            StreamUsage(Observations(records), key, c, w) == ps[|ps| - 1].value - ps[0].value
  {
    var ps := Points(Track(Observations(records), key), c);
    forall i | 0 < i < |ps| - 1 ensures InWindow(w, ps[i].time) { InteriorPointsInWindow(records, key, c, w, i); }
    MonotoneStreamTelescopes(ps, w);
  }
}
