/** The bandwidth calculator as the service runs it: collect samples per stream, sort, drop
    conflicting timestamps, difference the counters, saturate, rank, truncate
    (src/RESTAPI/RESTAPI_mcp_helpers.h, CalculateBandwidthConsumptionSummary). */
module Bandwidth {
  import opened Wrappers
  import opened Words
  import opened Windows
  import opened Orders
  import opened ClientMac
  import opened BandwidthSpec

  datatype Sample = Sample(timestamp: nat, rx: Option<nat>, tx: Option<nat>, id: string, inWindow: bool)
  datatype CounterSample = CounterSample(timestamp: nat, value: nat, inWindow: bool)
  datatype ClientTotals = ClientTotals(rx: nat, tx: nat, seen: bool, segment: Option<Span>)

  function SaturatingAdd(left: nat, right: nat): (r: nat)
    requires left <= MAX64
    ensures r == Min(MAX64, left + right)
  {
    if MAX64 - left < right then MAX64 else left + right
  }

  // ---- Samples ----

  predicate OptLess(a: Option<nat>, b: Option<nat>) { b.Some? && (a.None? || a.value < b.value) }

  predicate SampleLess(a: Sample, b: Sample) {
    if a.timestamp != b.timestamp then a.timestamp < b.timestamp
    else if a.id != b.id then TextLess(a.id, b.id)
    else if a.rx != b.rx then OptLess(a.rx, b.rx)
    else OptLess(a.tx, b.tx)
  }

  lemma SampleLessOrders()
    ensures StrictWeak(SampleLess)
  {
    forall a, b | SampleLess(a, b) ensures !SampleLess(b, a) { TextTrichotomy(a.id, b.id); }
    forall a, b, c | SampleLess(a, c) ensures SampleLess(a, b) || SampleLess(b, c) {
      if a.timestamp == b.timestamp == c.timestamp {
        TextTrichotomy(a.id, b.id);
        TextTrichotomy(b.id, c.id);
        if a.id != c.id { TextSplits(a.id, b.id, c.id); }
      }
    }
  }

  function AsReading(s: Sample): Reading { Reading(s.timestamp, s.rx, s.tx) }

  ghost function Trail(q: seq<Sample>): seq<Reading> {
    seq(|q|, i requires 0 <= i < |q| => AsReading(q[i]))
  }

  ghost function ReadingsOf(q: seq<Sample>): set<Reading> { set s | s in q :: AsReading(s) }

  ghost predicate Flagged(q: seq<Sample>, w: Window) {
    forall s | s in q :: s.inWindow == InWindow(w, s.timestamp)
  }

  // ---- Grouping into streams ----

  /** The streams hold exactly the observations seen so far. */
  ghost predicate Collected(streams: map<StreamKey, seq<Sample>>, seen: set<Observation>, w: Window) {
    && streams.Keys == Keys(seen)
    && forall k | k in streams :: Flagged(streams[k], w) && ReadingsOf(streams[k]) == Readings(seen, k)
  }

  lemma CollectOne(streams: map<StreamKey, seq<Sample>>, seen: set<Observation>, w: Window, key: StreamKey, s: Sample)
    requires Collected(streams, seen, w) && s.inWindow == InWindow(w, s.timestamp)
    ensures var earlier := if key in streams then streams[key] else [];
            Collected(streams[key := earlier + [s]], seen + {Observation(key, AsReading(s))}, w)
  {
    var before := if key in streams then streams[key] else [];
    var q, o := before + [s], Observation(key, AsReading(s));
    var after := seen + {o};
    forall k | k in streams && k != key ensures Readings(after, k) == Readings(seen, k) {}
    assert Readings(after, key) == Readings(seen, key) + {o.reading};
    assert ReadingsOf(q) == ReadingsOf(before) + {o.reading} by {
      forall r ensures r in ReadingsOf(q) <==> r in ReadingsOf(before) + {o.reading} {
        if r in ReadingsOf(before) { var x :| x in before && AsReading(x) == r; assert x in q; }
        assert s in q;
      }
    }
    if key !in streams { assert Readings(seen, key) == {}; }
    assert Keys(after) == Keys(seen) + {key} by {
      assert o in after && o.key == key;
      forall k | k in Keys(seen) ensures k in Keys(after) { var p :| p in seen && p.key == k; assert p in after; }
    }
  }

  lemma AssocsGrow(r: Record, s: Ssid, q: seq<Assoc>, k: nat)
    requires k < |q|
    ensures OfAssocs(r, s, q[..k + 1]) == OfAssocs(r, s, q[..k]) + OfAssoc(r, s, q[k])
  {
    assert q[..k + 1] == q[..k] + [q[k]];
  }

  lemma SsidsGrow(r: Record, q: seq<Ssid>, k: nat)
    requires k < |q|
    ensures OfSsids(r, q[..k + 1]) == OfSsids(r, q[..k]) + OfAssocs(r, q[k], q[k].associations)
  {
    assert q[..k + 1] == q[..k] + [q[k]];
  }

  lemma RecordsGrow(q: seq<Record>, k: nat)
    requires k < |q|
    ensures Observations(q[..k + 1]) == Observations(q[..k]) + OfSsids(q[k], q[k].ssids)
  {
    assert q[..k + 1] == q[..k] + [q[k]];
  }

  method CollectStreams(records: seq<Record>, w: Window) returns (streams: map<StreamKey, seq<Sample>>)
    ensures Collected(streams, Observations(records), w)
  {
    streams := map[];
    ghost var seen: set<Observation> := {};
    for i := 0 to |records|
      invariant seen == Observations(records[..i]) && Collected(streams, seen, w)
    {
      var r := records[i];
      for j := 0 to |r.ssids|
        invariant seen == Observations(records[..i]) + OfSsids(r, r.ssids[..j]) && Collected(streams, seen, w)
      {
        var s := r.ssids[j];
        for k := 0 to |s.associations|
          invariant seen == Observations(records[..i]) + OfSsids(r, r.ssids[..j]) + OfAssocs(r, s, s.associations[..k])
          invariant Collected(streams, seen, w)
        {
          var a := s.associations[k];
          AssocsGrow(r, s, s.associations, k);
          var mac := NormalizeClientMac(a.station);
          if mac == None { continue; }
          var key := StreamKey(mac.value, s.bssid, s.ssid, s.band);
          var sample := Sample(r.timestamp, a.rx, a.tx, r.id, InWindow(w, r.timestamp));
          CollectOne(streams, seen, w, key, sample);
          streams := streams[key := (if key in streams then streams[key] else []) + [sample]];
          seen := seen + {Observation(key, AsReading(sample))};
        }
        assert s.associations[..|s.associations|] == s.associations;
        SsidsGrow(r, r.ssids, j);
      }
      assert r.ssids[..|r.ssids|] == r.ssids;
      RecordsGrow(records, i);
    }
    assert records[..|records|] == records;
  }

  // ---- Dropping conflicting timestamps ----

  ghost predicate TimeOrdered(q: seq<Sample>) {
    forall i, j | 0 <= i < j < |q| :: q[i].timestamp <= q[j].timestamp
  }

  /** Progress of the pass: groups before i are decided, and i starts a group. */
  ghost predicate DedupedUpTo(q: seq<Sample>, i: nat, kept: seq<Sample>)
    requires i <= |q|
  {
    && Ascending(Earlier, Trail(kept))
    && (forall p, j | 0 <= p < i <= j < |q| :: q[p].timestamp < q[j].timestamp)
    && (forall s | s in kept :: s in q[..i] && AsReading(s) in Settled(ReadingsOf(q)))
    && (forall s | s in q[..i] && AsReading(s) in Settled(ReadingsOf(q)) :: AsReading(s) in Trail(kept))
  }

  /** [i, next) is the whole group of readings taken at one time, and conflict says whether they differ. */
  ghost predicate IsGroup(q: seq<Sample>, i: nat, next: nat, conflict: bool) {
    && i < next <= |q|
    && (forall p | 0 <= p < |q| :: i <= p < next <==> q[p].timestamp == q[i].timestamp)
    && (conflict <==> exists p :: i <= p < next && AsReading(q[p]) != AsReading(q[i]))
  }

  lemma GroupSettled(q: seq<Sample>, i: nat, next: nat, conflict: bool, p: nat)
    requires IsGroup(q, i, next, conflict) && i <= p < next
    ensures AsReading(q[p]) in Settled(ReadingsOf(q)) <==> !conflict
    ensures !conflict ==> AsReading(q[p]) == AsReading(q[i])
  {
    assert q[p] in q && q[i] in q;
    if conflict {
      var c :| i <= c < next && AsReading(q[c]) != AsReading(q[i]);
      assert q[c] in q;
    } else {
      forall r | r in ReadingsOf(q) && r.time == q[p].timestamp ensures r == AsReading(q[p]) {
        var s :| s in q && AsReading(s) == r;
        var j :| 0 <= j < |q| && q[j] == s;
      }
    }
  }

  lemma ConflictDropped(q: seq<Sample>, i: nat, next: nat, kept: seq<Sample>)
    requires IsGroup(q, i, next, true) && TimeOrdered(q) && DedupedUpTo(q, i, kept)
    ensures DedupedUpTo(q, next, kept)
  {
    forall s | s in q[..next] && AsReading(s) in Settled(ReadingsOf(q)) ensures s in q[..i] {
      var p :| 0 <= p < next && q[p] == s;
      if i <= p { GroupSettled(q, i, next, true, p); }
    }
  }

  lemma GroupKept(q: seq<Sample>, i: nat, next: nat, kept: seq<Sample>)
    requires IsGroup(q, i, next, false) && TimeOrdered(q) && DedupedUpTo(q, i, kept)
    ensures DedupedUpTo(q, next, kept + [q[i]])
  {
    var longer, settled := kept + [q[i]], Settled(ReadingsOf(q));
    GroupSettled(q, i, next, false, i);
    assert Trail(longer) == Trail(kept) + [AsReading(q[i])];
    forall k | 0 <= k < |kept| ensures Earlier(Trail(kept)[k], AsReading(q[i])) { assert kept[k] in q[..i]; }
    forall s | s in q[..next] && AsReading(s) in settled ensures AsReading(s) in Trail(longer) {
      var p :| 0 <= p < next && q[p] == s;
      if i <= p { GroupSettled(q, i, next, false, p); } else { assert q[..i][p] == s; }
    }
  }

  method Dedupe(q: seq<Sample>) returns (kept: seq<Sample>)
    requires TimeOrdered(q)
    ensures Lists(Earlier, Trail(kept), Settled(ReadingsOf(q)))
    ensures forall s | s in kept :: s in q
  {
    kept := [];
    var i := 0;
    while i < |q|
      invariant 0 <= i <= |q| && DedupedUpTo(q, i, kept)
    {
      var next := i + 1;
      var conflict := false;
      while next < |q| && q[next].timestamp == q[i].timestamp
        invariant i < next <= |q|
        invariant forall p | i <= p < next :: q[p].timestamp == q[i].timestamp
        invariant conflict <==> exists p :: i <= p < next && AsReading(q[p]) != AsReading(q[i])
      {
        if q[next].rx != q[i].rx || q[next].tx != q[i].tx { conflict := true; }
        next := next + 1;
      }
      assert IsGroup(q, i, next, conflict);
      if conflict {
        ConflictDropped(q, i, next, kept);
      } else {
        GroupKept(q, i, next, kept);
        kept := kept + [q[i]];
      }
      i := next;
    }
    AllDeduped(q, kept);
  }

  lemma AllDeduped(q: seq<Sample>, kept: seq<Sample>)
    requires DedupedUpTo(q, |q|, kept)
    ensures Lists(Earlier, Trail(kept), Settled(ReadingsOf(q)))
    ensures forall s | s in kept :: s in q
  {
    assert q[..|q|] == q;
    forall r ensures r in Trail(kept) <==> r in Settled(ReadingsOf(q)) {
      if r in Trail(kept) { var k :| 0 <= k < |kept| && AsReading(kept[k]) == r; assert kept[k] in kept; }
      if r in Settled(ReadingsOf(q)) { var s :| s in q && AsReading(s) == r; }
    }
  }

  // ---- Differencing one stream ----

  /** Stretching an observed span over another one. */
  function Widened(a: Option<Span>, b: Span): Option<Span> {
    match a
    case None => Some(b)
    case Some(h) => Some(Span(Min(h.start, b.start), if h.end >= b.end then h.end else b.end))
  }

  lemma HullOfUnion(a: Option<Span>, p: set<Span>, b: Option<Span>, q: set<Span>)
    requires IsHull(a, p) && IsHull(b, q) && b.Some?
    ensures IsHull(Widened(a, b.value), p + q)
  {
    var s, e :| s in q && s.start == b.value.start && e in q && e.end == b.value.end;
    assert s in p + q && e in p + q;
    if a.Some? {
      var first, last :| first in p && first.start == a.value.start && last in p && last.end == a.value.end;
      assert first in p + q && last in p + q;
    }
  }

  ghost predicate Remembers(previous: Option<CounterSample>, ps: seq<Point>, w: Window) {
    match previous
    case None => ps == []
    case Some(p) => ps != [] && ps[|ps| - 1] == Point(p.timestamp, p.value) && p.inWindow == InWindow(w, p.timestamp)
  }

  ghost function Appended(ps: seq<Point>, t: nat, value: Option<nat>): seq<Point> {
    ps + match value { case None => [] case Some(v) => [Point(t, v)] }
  }

  lemma UsageGrows(ps: seq<Point>, p: Point, w: Window)
    ensures ps == [] ==> Usage(ps + [p], w) == 0 && Segments(ps + [p], w) == {}
    ensures ps != [] ==>
              var last := ps[|ps| - 1];
              && Usage(ps + [p], w) == Usage(ps, w) + (if Counts(last, p, w) then p.value - last.value else 0)
              && Segments(ps + [p], w) ==
                 Segments(ps, w) + (if Counts(last, p, w) then {Span(last.time, p.time)} else {})
  {
    var qs := ps + [p];
    assert qs[..|ps|] == ps;
    forall i | 0 < i < |ps| ensures CountsAt(qs, i, w) == CountsAt(ps, i, w) {}
    if ps != [] {
      var last := ps[|ps| - 1];
      assert CountsAt(qs, |ps|, w) == Counts(last, p, w);
      forall s
        ensures s in Segments(qs, w) <==>
                s in Segments(ps, w) + (if Counts(last, p, w) then {Span(last.time, p.time)} else {})
      {
        if s in Segments(ps, w) {
          var i :| 0 < i < |ps| && CountsAt(ps, i, w) && s == Span(ps[i - 1].time, ps[i].time);
          assert CountsAt(qs, i, w);
        }
      }
    }
  }

  /** A counted segment adds its rise to the total and its stretch to the hull. */
  lemma SegmentCounted(ps: seq<Point>, p: Point, w: Window, base: nat, total: nat, segment: Option<Span>,
                       others: set<Span>)
    requires ps != [] && Counts(ps[|ps| - 1], p, w)
    requires total == Min(MAX64, base + Usage(ps, w)) && IsHull(segment, others + Segments(ps, w))
    ensures Min(MAX64, total + (p.value - ps[|ps| - 1].value)) == Min(MAX64, base + Usage(ps + [p], w))
    ensures IsHull(Widened(segment, Span(ps[|ps| - 1].time, p.time)), others + Segments(ps + [p], w))
  {
    var span := Span(ps[|ps| - 1].time, p.time);
    UsageGrows(ps, p, w);
    HullOfUnion(segment, others + Segments(ps, w), Some(span), {span});
    assert others + Segments(ps, w) + {span} == others + Segments(ps + [p], w);
  }

  /** A segment that does not count, or a first value, changes nothing. */
  lemma SegmentSkipped(ps: seq<Point>, p: Point, w: Window)
    requires ps != [] ==> !Counts(ps[|ps| - 1], p, w)
    ensures Usage(ps + [p], w) == Usage(ps, w) && Segments(ps + [p], w) == Segments(ps, w)
  {
    UsageGrows(ps, p, w);
    if ps == [] { assert Segments(ps, w) == {}; } else { assert Segments(ps, w) + {} == Segments(ps, w); }
  }

  method ApplyCounterSample(previous: Option<CounterSample>, current: Sample, value: Option<nat>, total: nat,
                            segment: Option<Span>, ghost ps: seq<Point>, ghost base: nat, ghost others: set<Span>,
                            ghost w: Window)
    returns (next: Option<CounterSample>, sum: nat, hull: Option<Span>)
    requires current.inWindow == InWindow(w, current.timestamp)
    requires Remembers(previous, ps, w) && total == Min(MAX64, base + Usage(ps, w))
    requires IsHull(segment, others + Segments(ps, w))
    ensures var grown := Appended(ps, current.timestamp, value);
            && Remembers(next, grown, w)
            && sum == Min(MAX64, base + Usage(grown, w))
            && IsHull(hull, others + Segments(grown, w))
  {
    next, sum, hull := previous, total, segment;
    if value == None {
      assert Appended(ps, current.timestamp, value) == ps;
      return;
    }
    var counter := CounterSample(current.timestamp, value.value, current.inWindow);
    ghost var p := Point(current.timestamp, value.value);
    assert Appended(ps, current.timestamp, value) == ps + [p];
    next := Some(counter);
    if previous == None {
      SegmentSkipped(ps, p, w);
      return;
    }
    var last := previous.value;
    if (last.inWindow || counter.inWindow) && counter.value >= last.value {
      SegmentCounted(ps, p, w, base, total, segment, others);
      sum := SaturatingAdd(total, counter.value - last.value);
      hull := Widened(segment, Span(last.timestamp, counter.timestamp));
    } else {
      SegmentSkipped(ps, p, w);
    }
  }

  method AnyInWindow(kept: seq<Sample>, w: Window) returns (seen: bool)
    requires Flagged(kept, w)
    ensures seen <==> exists s :: s in kept && InWindow(w, s.timestamp)
  {
    seen := false;
    for i := 0 to |kept|
      invariant seen <==> exists j :: 0 <= j < i && InWindow(w, kept[j].timestamp)
    {
      assert kept[i] in kept;
      if kept[i].inWindow { seen := true; }
    }
  }

  /** What a stream adds to a client: both sums, and the stretches they were measured over. */
  ghost predicate Added(t: ClientTotals, r: ClientTotals, rxs: seq<Point>, txs: seq<Point>, others: set<Span>,
                        w: Window) {
    && r.rx == Min(MAX64, t.rx + Usage(rxs, w))
    && r.tx == Min(MAX64, t.tx + Usage(txs, w))
    && r.seen == t.seen
    && IsHull(r.segment, others + Segments(rxs, w) + Segments(txs, w))
  }

  method ApplySample(t: ClientTotals, previousRx: Option<CounterSample>, previousTx: Option<CounterSample>,
                     current: Sample, ghost base: ClientTotals, ghost rxs: seq<Point>, ghost txs: seq<Point>,
                     ghost others: set<Span>, ghost w: Window)
    returns (r: ClientTotals, nextRx: Option<CounterSample>, nextTx: Option<CounterSample>)
    requires current.inWindow == InWindow(w, current.timestamp) && Added(base, t, rxs, txs, others, w)
    requires Remembers(previousRx, rxs, w) && Remembers(previousTx, txs, w)
    ensures var rxsNext := Appended(rxs, current.timestamp, current.rx);
            var txsNext := Appended(txs, current.timestamp, current.tx);
            && Added(base, r, rxsNext, txsNext, others, w)
            && Remembers(nextRx, rxsNext, w) && Remembers(nextTx, txsNext, w)
  {
    var total, segment;
    assert others + Segments(rxs, w) + Segments(txs, w) == others + Segments(txs, w) + Segments(rxs, w);
    nextRx, total, segment :=
      ApplyCounterSample(previousRx, current, current.rx, t.rx, t.segment, rxs, base.rx, others + Segments(txs, w), w);
    r := t.(rx := total, segment := segment);
    ghost var rxsNext := Appended(rxs, current.timestamp, current.rx);
    assert others + Segments(txs, w) + Segments(rxsNext, w) == others + Segments(rxsNext, w) + Segments(txs, w);
    nextTx, total, segment :=
      ApplyCounterSample(previousTx, current, current.tx, r.tx, r.segment, txs, base.tx,
                         others + Segments(rxsNext, w), w);
    r := r.(tx := total, segment := segment);
  }

  method ApplyStream(kept: seq<Sample>, t: ClientTotals, w: Window, ghost others: set<Span>) returns (r: ClientTotals)
    requires t.rx <= MAX64 && t.tx <= MAX64 && Flagged(kept, w) && IsHull(t.segment, others)
    ensures Added(t, r, Points(Trail(kept), Rx), Points(Trail(kept), Tx), others, w)
  {
    ghost var track := Trail(kept);
    r := t;
    assert Segments([], w) == {} && others + {} + {} == others;
    if |kept| < 2 {
      ShortTrack(track, Rx, w);
      ShortTrack(track, Tx, w);
      return;
    }
    var previousRx, previousTx: Option<CounterSample> := None, None;
    for i := 0 to |kept|
      invariant Added(t, r, Points(track[..i], Rx), Points(track[..i], Tx), others, w)
      invariant Remembers(previousRx, Points(track[..i], Rx), w) && Remembers(previousTx, Points(track[..i], Tx), w)
    {
      PointsGrow(kept, i, Rx);
      PointsGrow(kept, i, Tx);
      assert kept[i] in kept;
      r, previousRx, previousTx :=
        ApplySample(r, previousRx, previousTx, kept[i], t, Points(track[..i], Rx), Points(track[..i], Tx), others, w);
    }
    assert track[..|kept|] == track;
  }

  lemma PointsGrow(kept: seq<Sample>, i: nat, c: Counter)
    requires i < |kept|
    ensures Points(Trail(kept)[..i + 1], c) ==
            Appended(Points(Trail(kept)[..i], c), kept[i].timestamp, ValueOf(AsReading(kept[i]), c))
  {
    assert Trail(kept)[..i + 1][..i] == Trail(kept)[..i];
  }

  lemma ShortTrack(track: seq<Reading>, c: Counter, w: Window)
    requires |track| < 2
    ensures Usage(Points(track, c), w) == 0 && Segments(Points(track, c), w) == {}
  {
    if track != [] { assert track[..0] == []; }
  }

  // ---- Totals per client ----

  ghost predicate TotalsFor(t: ClientTotals, keys: set<StreamKey>, obs: set<Observation>, w: Window) {
    && t.rx == Min(MAX64, SumUsage(keys, obs, Rx, w))
    && t.tx == Min(MAX64, SumUsage(keys, obs, Tx, w))
    && (t.seen <==> exists k :: k in keys && Active(obs, k, w))
    && IsHull(t.segment, AllSegments(keys, obs, w))
  }

  ghost predicate Tallied(totals: map<string, ClientTotals>, done: set<StreamKey>, obs: set<Observation>, w: Window) {
    && (forall mac :: mac in totals <==> exists k :: k in done && k.mac == mac)
    && forall mac | mac in totals :: TotalsFor(totals[mac], KeysOf(done, mac), obs, w)
  }

  lemma AllSegmentsGrow(keys: set<StreamKey>, key: StreamKey, obs: set<Observation>, w: Window)
    ensures AllSegments(keys + {key}, obs, w) == AllSegments(keys, obs, w) + StreamSegments(obs, key, w)
  {}

  lemma ActiveGrow(keys: set<StreamKey>, key: StreamKey, obs: set<Observation>, w: Window)
    ensures (exists k :: k in keys + {key} && Active(obs, k, w)) <==>
            (exists k :: k in keys && Active(obs, k, w)) || Active(obs, key, w)
  {
    if Active(obs, key, w) { assert key in keys + {key}; }
    if k :| k in keys && Active(obs, k, w) { assert k in keys + {key}; }
  }

  lemma CappedSumGrows(keys: set<StreamKey>, key: StreamKey, obs: set<Observation>, c: Counter, w: Window, t: nat,
                       r: nat)
    requires key !in keys && t == Min(MAX64, SumUsage(keys, obs, c, w))
    requires r == Min(MAX64, t + StreamUsage(obs, key, c, w))
    ensures r == Min(MAX64, SumUsage(keys + {key}, obs, c, w))
  {
    SumUsagePick(keys + {key}, key, obs, c, w);
    assert keys + {key} - {key} == keys;
  }

  lemma TallyOne(keys: set<StreamKey>, key: StreamKey, obs: set<Observation>, w: Window, t: ClientTotals,
                 r: ClientTotals)
    requires key !in keys && TotalsFor(t, keys, obs, w)
    requires r.rx == Min(MAX64, t.rx + StreamUsage(obs, key, Rx, w))
    requires r.tx == Min(MAX64, t.tx + StreamUsage(obs, key, Tx, w))
    requires r.seen <==> t.seen || Active(obs, key, w)
    requires IsHull(r.segment, AllSegments(keys, obs, w) + StreamSegments(obs, key, w))
    ensures TotalsFor(r, keys + {key}, obs, w)
  {
    CappedSumGrows(keys, key, obs, Rx, w, t.rx, r.rx);
    CappedSumGrows(keys, key, obs, Tx, w, t.tx, r.tx);
    AllSegmentsGrow(keys, key, obs, w);
    ActiveGrow(keys, key, obs, w);
  }

  method SettledSamples(key: StreamKey, samples: seq<Sample>, w: Window, ghost obs: set<Observation>)
    returns (kept: seq<Sample>)
    requires Flagged(samples, w) && ReadingsOf(samples) == Readings(obs, key)
    ensures Flagged(kept, w) && Trail(kept) == Track(obs, key)
  {
    SampleLessOrders();
    var sorted := Sort(SampleLess, samples);
    SameElements(sorted, samples);
    assert TimeOrdered(sorted) && ReadingsOf(sorted) == ReadingsOf(samples);
    kept := Dedupe(sorted);
    EarlierOrders(Readings(obs, key));
    ListsUnique(Earlier, Trail(kept), Track(obs, key), Settled(Readings(obs, key)));
  }

  method TallyStream(key: StreamKey, samples: seq<Sample>, t: ClientTotals, w: Window,
                     ghost keys: set<StreamKey>, ghost obs: set<Observation>) returns (r: ClientTotals)
    requires Flagged(samples, w) && ReadingsOf(samples) == Readings(obs, key)
    requires key !in keys && TotalsFor(t, keys, obs, w)
    ensures TotalsFor(r, keys + {key}, obs, w)
  {
    var kept := SettledSamples(key, samples, w, obs);
    var seen := AnyInWindow(kept, w);
    SeenInTrack(kept, key, obs, w);
    r := ApplyStream(kept, t, w, AllSegments(keys, obs, w));
    if seen { r := r.(seen := true); }
    HullRegroup(r.segment, AllSegments(keys, obs, w), Segments(Points(Track(obs, key), Rx), w),
                Segments(Points(Track(obs, key), Tx), w));
    TallyOne(keys, key, obs, w, t, r);
  }

  lemma HullRegroup(h: Option<Span>, a: set<Span>, b: set<Span>, c: set<Span>)
    requires IsHull(h, a + b + c)
    ensures IsHull(h, a + (b + c))
  {
    assert a + b + c == a + (b + c);
  }

  lemma SeenInTrack(kept: seq<Sample>, key: StreamKey, obs: set<Observation>, w: Window)
    requires Trail(kept) == Track(obs, key)
    ensures (exists s :: s in kept && InWindow(w, s.timestamp)) <==> Active(obs, key, w)
  {
    EarlierOrders(Readings(obs, key));
    SeenInTrail(kept, Settled(Readings(obs, key)), w);
  }

  lemma SeenInTrail(kept: seq<Sample>, rs: set<Reading>, w: Window)
    requires forall r :: r in Trail(kept) <==> r in rs
    ensures (exists s :: s in kept && InWindow(w, s.timestamp)) <==> exists r :: r in rs && InWindow(w, r.time)
  {
    if s :| s in kept && InWindow(w, s.timestamp) {
      var i :| 0 <= i < |kept| && kept[i] == s;
      assert Trail(kept)[i] in rs;
    }
    if r :| r in rs && InWindow(w, r.time) {
      var i :| 0 <= i < |kept| && Trail(kept)[i] == r;
      assert kept[i] in kept;
    }
  }

  /** One more stream is one more of its own client's, and of no other's. */
  lemma KeysOfGrow(done: set<StreamKey>, key: StreamKey, mac: string)
    ensures KeysOf(done + {key}, mac) == if mac == key.mac then KeysOf(done, mac) + {key} else KeysOf(done, mac)
    ensures (exists k :: k in done + {key} && k.mac == mac) <==> mac == key.mac || exists k :: k in done && k.mac == mac
  {
    assert key in done + {key};
    if k :| k in done && k.mac == mac { assert k in done + {key}; }
  }

  lemma TallyStepAt(totals: map<string, ClientTotals>, done: set<StreamKey>, key: StreamKey, r: ClientTotals,
                    obs: set<Observation>, w: Window, mac: string)
    requires Tallied(totals, done, obs, w) && TotalsFor(r, KeysOf(done, key.mac) + {key}, obs, w)
    requires mac == key.mac || mac in totals
    ensures TotalsFor(if mac == key.mac then r else totals[mac], KeysOf(done + {key}, mac), obs, w)
  {
    KeysOfGrow(done, key, mac);
  }

  lemma TallyStep(totals: map<string, ClientTotals>, done: set<StreamKey>, key: StreamKey, r: ClientTotals,
                  obs: set<Observation>, w: Window)
    requires Tallied(totals, done, obs, w) && TotalsFor(r, KeysOf(done, key.mac) + {key}, obs, w)
    ensures Tallied(totals[key.mac := r], done + {key}, obs, w)
  {
    var after, more := totals[key.mac := r], done + {key};
    forall mac ensures mac in after <==> exists k :: k in more && k.mac == mac { KeysOfGrow(done, key, mac); }
    forall mac | mac in after ensures TotalsFor(after[mac], KeysOf(more, mac), obs, w) {
      TallyStepAt(totals, done, key, r, obs, w, mac);
    }
  }

  /** Streams are visited in some order; the source's is the map's, and the result is the same for all. */
  method TallyStreams(streams: map<StreamKey, seq<Sample>>, w: Window, ghost obs: set<Observation>)
    returns (totals: map<string, ClientTotals>)
    requires Collected(streams, obs, w)
    ensures Tallied(totals, Keys(obs), obs, w)
  {
    totals := map[];
    var todo := streams.Keys;
    ghost var done: set<StreamKey> := {};
    while todo != {}
      invariant done !! todo && done + todo == streams.Keys
      invariant Tallied(totals, done, obs, w)
      decreases todo
    {
      var key :| key in todo;
      ghost var keys := KeysOf(done, key.mac);
      var t := ClientTotals(0, 0, false, None);
      if key.mac in totals { t := totals[key.mac]; } else { NothingYet(keys, obs, w); }
      var r := TallyStream(key, streams[key], t, w, keys, obs);
      TallyStep(totals, done, key, r, obs, w);
      totals := totals[key.mac := r];
      done, todo := done + {key}, todo - {key};
    }
    assert done == streams.Keys;
  }

  lemma NothingYet(keys: set<StreamKey>, obs: set<Observation>, w: Window)
    requires keys == {}
    ensures TotalsFor(ClientTotals(0, 0, false, None), keys, obs, w)
  {}

  // ---- The usage list ----

  /** The items of some clients, one each. */
  ghost predicate ItemsOf(items: seq<Item>, macs: set<string>, obs: set<Observation>, w: Window) {
    && (forall x | x in items :: x.mac in macs && x == ItemFor(obs, x.mac, w))
    && (forall mac | mac in macs :: ItemFor(obs, mac, w) in items)
    && (forall i, j | 0 <= i < j < |items| :: items[i].mac != items[j].mac)
  }

  lemma ItemsGrow(items: seq<Item>, macs: set<string>, mac: string, obs: set<Observation>, w: Window)
    requires ItemsOf(items, macs, obs, w) && mac !in macs
    ensures ItemsOf(items + [ItemFor(obs, mac, w)], macs + {mac}, obs, w)
  {
    var more := items + [ItemFor(obs, mac, w)];
    forall i, j | 0 <= i < j < |more| ensures more[i].mac != more[j].mac { assert items[i] in items; }
  }

  ghost function SeenOf(totals: map<string, ClientTotals>, macs: set<string>): set<string> {
    set mac | mac in macs && mac in totals && totals[mac].seen
  }

  lemma SeenGrow(totals: map<string, ClientTotals>, done: set<string>, mac: string)
    requires mac in totals
    ensures SeenOf(totals, done + {mac}) == SeenOf(totals, done) + if totals[mac].seen then {mac} else {}
  {}

  /** One more client visited: its item joins the list iff the client was seen. */
  lemma CollectStep(totals: map<string, ClientTotals>, items: seq<Item>, done: set<string>, mac: string,
                    obs: set<Observation>, w: Window)
    requires mac in totals && mac !in done && ItemsOf(items, SeenOf(totals, done), obs, w)
    ensures var more := if totals[mac].seen then items + [ItemFor(obs, mac, w)] else items;
            ItemsOf(more, SeenOf(totals, done + {mac}), obs, w)
  {
    SeenGrow(totals, done, mac);
    if totals[mac].seen { ItemsGrow(items, SeenOf(totals, done), mac, obs, w); }
  }

  method CollectItems(totals: map<string, ClientTotals>, w: Window, ghost obs: set<Observation>)
    returns (items: seq<Item>)
    requires Tallied(totals, Keys(obs), obs, w)
    ensures ItemsOf(items, SeenOf(totals, totals.Keys), obs, w)
  {
    items := [];
    var todo := totals.Keys;
    ghost var done: set<string> := {};
    while todo != {}
      invariant done !! todo && done + todo == totals.Keys
      invariant ItemsOf(items, SeenOf(totals, done), obs, w)
      decreases todo
    {
      var mac :| mac in todo;
      var t := totals[mac];
      ItemOfTotals(t, mac, obs, w);
      CollectStep(totals, items, done, mac, obs, w);
      if t.seen { items := items + [Item(mac, t.rx, t.tx, SaturatingAdd(t.rx, t.tx))]; }
      done, todo := done + {mac}, todo - {mac};
    }
    assert done == totals.Keys;
  }

  lemma ItemOfTotals(t: ClientTotals, mac: string, obs: set<Observation>, w: Window)
    requires TotalsFor(t, KeysOf(Keys(obs), mac), obs, w)
    ensures t.rx <= MAX64 && t.tx <= MAX64 && Item(mac, t.rx, t.tx, Min(MAX64, t.rx + t.tx)) == ItemFor(obs, mac, w)
  {}

  method UsageItems(totals: map<string, ClientTotals>, w: Window, ghost obs: set<Observation>)
    returns (items: seq<Item>)
    requires Tallied(totals, Keys(obs), obs, w)
    ensures items == Ranking(obs, w)
  {
    var unsorted := CollectItems(totals, w, obs);
    SeenAreClients(totals, w, obs);
    assert SeenOf(totals, totals.Keys) == Clients(obs, w);
    OutranksOrders(obs, w);
    items := Sort(Outranks, unsorted);
    SortedItemsAscend(unsorted, items, obs, w);
    ListsUnique(Outranks, items, Ranking(obs, w), Items(obs, w));
  }

  lemma SeenAreClients(totals: map<string, ClientTotals>, w: Window, obs: set<Observation>)
    requires Tallied(totals, Keys(obs), obs, w)
    ensures forall mac :: mac in Clients(obs, w) <==> mac in totals && totals[mac].seen
  {
    forall mac ensures mac in Clients(obs, w) <==> mac in totals && totals[mac].seen {
      if mac in Clients(obs, w) {
        var k :| k in Keys(obs) && Active(obs, k, w) && k.mac == mac;
        assert mac in totals && TotalsFor(totals[mac], KeysOf(Keys(obs), mac), obs, w);
        assert k in KeysOf(Keys(obs), mac);
      }
      if mac in totals && totals[mac].seen {
        assert TotalsFor(totals[mac], KeysOf(Keys(obs), mac), obs, w);
        var k :| k in KeysOf(Keys(obs), mac) && Active(obs, k, w);
        assert k in Keys(obs);
      }
    }
  }

  lemma SortedItemsAscend(items: seq<Item>, sorted: seq<Item>, obs: set<Observation>, w: Window)
    requires multiset(sorted) == multiset(items) && Sorted(Outranks, sorted) && ItemsOf(items, Clients(obs, w), obs, w)
    ensures Lists(Outranks, sorted, Items(obs, w))
  {
    SameElements(sorted, items);
    DistinctStays(items, sorted);
    OutranksOrders(obs, w);
    forall x ensures x in sorted <==> x in Items(obs, w) {}
    forall i, j | 0 <= i < j < |sorted| ensures Outranks(sorted[i], sorted[j]) {
      assert sorted[i] in Items(obs, w) && sorted[j] in Items(obs, w) && sorted[i] != sorted[j];
    }
  }

  lemma ItemSegmentsGrow(items: seq<Item>, i: nat, obs: set<Observation>, w: Window)
    requires i < |items|
    ensures SegmentsOfItems(items[..i + 1], obs, w) ==
            SegmentsOfItems(items[..i], obs, w) + AllSegments(KeysOf(Keys(obs), items[i].mac), obs, w)
  {
    assert items[..i + 1] == items[..i] + [items[i]];
  }

  lemma UnknownClient(totals: map<string, ClientTotals>, mac: string, obs: set<Observation>, w: Window)
    requires Tallied(totals, Keys(obs), obs, w) && mac !in totals
    ensures AllSegments(KeysOf(Keys(obs), mac), obs, w) == {}
  {
    assert KeysOf(Keys(obs), mac) == {};
  }

  method ObservedWindow(items: seq<Item>, totals: map<string, ClientTotals>, w: Window, ghost obs: set<Observation>)
    returns (observed: Option<Span>)
    requires Tallied(totals, Keys(obs), obs, w)
    ensures IsHull(observed, SegmentsOfItems(items, obs, w))
  {
    observed := None;
    for i := 0 to |items|
      invariant IsHull(observed, SegmentsOfItems(items[..i], obs, w))
    {
      var mac := items[i].mac;
      ghost var own := AllSegments(KeysOf(Keys(obs), mac), obs, w);
      ItemSegmentsGrow(items, i, obs, w);
      if mac !in totals {
        UnknownClient(totals, mac, obs, w);
        continue;
      }
      assert TotalsFor(totals[mac], KeysOf(Keys(obs), mac), obs, w);
      if totals[mac].segment == None { continue; }
      HullOfUnion(observed, SegmentsOfItems(items[..i], obs, w), totals[mac].segment, own);
      observed := Widened(observed, totals[mac].segment.value);
    }
    assert items[..|items|] == items;
  }

  method TallyRecords(records: seq<Record>, w: Window) returns (totals: map<string, ClientTotals>)
    ensures Tallied(totals, Keys(Observations(records)), Observations(records), w)
  {
    var streams := CollectStreams(records, w);
    totals := TallyStreams(streams, w, Observations(records));
  }

  /** The calculator computes the summary of the observations its records carry. */
  method CalculateBandwidthConsumptionSummary(records: seq<Record>, w: Window) returns (summary: Summary)
    ensures IsSummary(Observations(records), w, summary)
  {
    var totals := TallyRecords(records, w);
    var items := UsageItems(totals, w, Observations(records));
    var totalClients := |items|;
    if |items| > MAX_ITEMS { items := items[..MAX_ITEMS]; }
    var observed := ObservedWindow(items, totals, w, Observations(records));
    summary := Summary(w, items, totalClients, totalClients > MAX_ITEMS, observed);
  }
}
