/** What the bandwidth summary means, stated over the SET of observations the records carry:
    no definition below depends on the order or the repetition of records. */
module BandwidthSpec {
  import opened Wrappers
  import opened Words
  import opened Windows
  import opened Orders
  import opened ClientMac

  const MAX_ITEMS: nat := 500

  datatype Assoc = Assoc(station: string, rx: Option<nat>, tx: Option<nat>)
  datatype Ssid = Ssid(bssid: string, ssid: string, band: nat, associations: seq<Assoc>)
  datatype Record = Record(timestamp: nat, id: string, ssids: seq<Ssid>)

  datatype StreamKey = StreamKey(mac: string, bssid: string, ssid: string, band: nat)
  datatype Reading = Reading(time: nat, rx: Option<nat>, tx: Option<nat>)
  datatype Observation = Observation(key: StreamKey, reading: Reading)
  datatype Counter = Rx | Tx
  datatype Point = Point(time: nat, value: nat)
  datatype Span = Span(start: nat, end: nat)
  datatype Item = Item(mac: string, rx: nat, tx: nat, total: nat)
  datatype Summary = Summary(requested: Window, items: seq<Item>, totalClients: nat, truncated: bool,
                             observed: Option<Span>)

  function Min(a: nat, b: nat): nat { if a <= b then a else b }

  // ---- Observations ----

  ghost function OfAssoc(r: Record, s: Ssid, a: Assoc): set<Observation> {
    match Normalized(a.station)
    case None => {}
    case Some(mac) => {Observation(StreamKey(mac, s.bssid, s.ssid, s.band), Reading(r.timestamp, a.rx, a.tx))}
  }

  ghost function OfAssocs(r: Record, s: Ssid, q: seq<Assoc>): set<Observation> {
    set a, o | a in q && o in OfAssoc(r, s, a) :: o
  }

  ghost function OfSsids(r: Record, q: seq<Ssid>): set<Observation> {
    set s, o | s in q && o in OfAssocs(r, s, s.associations) :: o
  }

  ghost function Observations(records: seq<Record>): set<Observation> {
    set r, o | r in records && o in OfSsids(r, r.ssids) :: o
  }

  ghost function Readings(obs: set<Observation>, key: StreamKey): set<Reading> {
    set o | o in obs && o.key == key :: o.reading
  }

  /** Readings whose timestamp carries no conflicting duplicate. */
  ghost function Settled(rs: set<Reading>): set<Reading> {
    set r | r in rs && forall s | s in rs && s.time == r.time :: s == r
  }

  predicate Earlier(a: Reading, b: Reading) { a.time < b.time }

  lemma EarlierOrders(rs: set<Reading>)
    ensures StrictWeak(Earlier) && TotalOn(Earlier, Settled(rs))
  {}

  /** The settled readings of one stream, oldest first. */
  ghost function Track(obs: set<Observation>, key: StreamKey): seq<Reading> {
    EarlierOrders(Readings(obs, key));
    Listing(Earlier, Settled(Readings(obs, key)))
  }

  // ---- One stream ----

  function ValueOf(r: Reading, c: Counter): Option<nat> {
    match c case Rx => r.rx case Tx => r.tx
  }

  /** The present values of one counter along a track. */
  ghost function Points(track: seq<Reading>, c: Counter): seq<Point> {
    if track == [] then [] else
      var n := |track| - 1;
      Points(track[..n], c) +
      match ValueOf(track[n], c) { case None => [] case Some(v) => [Point(track[n].time, v)] }
  }

  /** Two consecutive present values count when one of them is in the window and the counter did not fall. */
  predicate Counts(a: Point, b: Point, w: Window) {
    (InWindow(w, a.time) || InWindow(w, b.time)) && a.value <= b.value
  }

  ghost function Usage(ps: seq<Point>, w: Window): nat {
    if |ps| < 2 then 0 else
      var n := |ps| - 1;
      Usage(ps[..n], w) + if Counts(ps[n - 1], ps[n], w) then ps[n].value - ps[n - 1].value else 0
  }

  ghost predicate CountsAt(ps: seq<Point>, i: int, w: Window) {
    0 < i < |ps| && Counts(ps[i - 1], ps[i], w)
  }

  /** The stretches of time the usage of a counter was measured over. */
  ghost function Segments(ps: seq<Point>, w: Window): set<Span> {
    set i {:trigger CountsAt(ps, i, w)} | 0 < i < |ps| && CountsAt(ps, i, w) :: Span(ps[i - 1].time, ps[i].time)
  }

  ghost function StreamUsage(obs: set<Observation>, key: StreamKey, c: Counter, w: Window): nat {
    Usage(Points(Track(obs, key), c), w)
  }

  ghost function StreamSegments(obs: set<Observation>, key: StreamKey, w: Window): set<Span> {
    Segments(Points(Track(obs, key), Rx), w) + Segments(Points(Track(obs, key), Tx), w)
  }

  ghost predicate Active(obs: set<Observation>, key: StreamKey, w: Window) {
    exists r :: r in Settled(Readings(obs, key)) && InWindow(w, r.time)
  }

  // ---- One client ----

  ghost function Keys(obs: set<Observation>): set<StreamKey> { set o | o in obs :: o.key }

  ghost function KeysOf(keys: set<StreamKey>, mac: string): set<StreamKey> {
    set k | k in keys && k.mac == mac
  }

  ghost function SumUsage(keys: set<StreamKey>, obs: set<Observation>, c: Counter, w: Window): nat {
    if keys == {} then 0 else
      var k :| k in keys;
      StreamUsage(obs, k, c, w) + SumUsage(keys - {k}, obs, c, w)
  }

  ghost function AllSegments(keys: set<StreamKey>, obs: set<Observation>, w: Window): set<Span> {
    set k, s | k in keys && s in StreamSegments(obs, k, w) :: s
  }

  /** Exact sum over the client's streams, capped at the largest 64-bit value. */
  ghost function ClientUsage(obs: set<Observation>, mac: string, c: Counter, w: Window): nat {
    Min(MAX64, SumUsage(KeysOf(Keys(obs), mac), obs, c, w))
  }

  ghost function ItemFor(obs: set<Observation>, mac: string, w: Window): Item {
    var rx, tx := ClientUsage(obs, mac, Rx, w), ClientUsage(obs, mac, Tx, w);
    Item(mac, rx, tx, Min(MAX64, rx + tx))
  }

  ghost function Clients(obs: set<Observation>, w: Window): set<string> {
    set k | k in Keys(obs) && Active(obs, k, w) :: k.mac
  }

  // ---- The summary ----

  predicate Outranks(a: Item, b: Item) {
    if a.total != b.total then a.total > b.total else TextLess(a.mac, b.mac)
  }

  ghost function Items(obs: set<Observation>, w: Window): set<Item> {
    set mac | mac in Clients(obs, w) :: ItemFor(obs, mac, w)
  }

  lemma OutranksOrders(obs: set<Observation>, w: Window)
    ensures StrictWeak(Outranks) && TotalOn(Outranks, Items(obs, w))
  {
    forall a, b | Outranks(a, b) ensures !Outranks(b, a) { TextTrichotomy(a.mac, b.mac); }
    forall a, b, c | Outranks(a, c) ensures Outranks(a, b) || Outranks(b, c) {
      if a.total == b.total == c.total { TextSplits(a.mac, b.mac, c.mac); }
    }
    forall a, b | a in Items(obs, w) && b in Items(obs, w) && a != b ensures Outranks(a, b) || Outranks(b, a) {
      TextTrichotomy(a.mac, b.mac);
    }
  }

  ghost function Ranking(obs: set<Observation>, w: Window): seq<Item> {
    OutranksOrders(obs, w);
    Listing(Outranks, Items(obs, w))
  }

  /** The tightest span around a set of spans; None for the empty set. */
  ghost predicate IsHull(hull: Option<Span>, spans: set<Span>) {
    match hull
    case None => spans == {}
    case Some(h) =>
      && (exists s :: s in spans && s.start == h.start)
      && (exists s :: s in spans && s.end == h.end)
      && (forall s | s in spans :: h.start <= s.start && s.end <= h.end)
  }

  ghost function SegmentsOfItems(items: seq<Item>, obs: set<Observation>, w: Window): set<Span> {
    set it, s | it in items && s in AllSegments(KeysOf(Keys(obs), it.mac), obs, w) :: s
  }

  ghost predicate IsSummary(obs: set<Observation>, w: Window, s: Summary) {
    var ranking := Ranking(obs, w);
    && s.requested == w
    && s.totalClients == |ranking|
    && s.truncated == (|ranking| > MAX_ITEMS)
    && s.items == ranking[..Min(MAX_ITEMS, |ranking|)]
    && IsHull(s.observed, SegmentsOfItems(s.items, obs, w))
  }

  // ---- Order and repetition of records do not matter ----

  lemma HullUnique(a: Option<Span>, b: Option<Span>, spans: set<Span>)
    requires IsHull(a, spans) && IsHull(b, spans)
    ensures a == b
  {}

  lemma SameRecordsSameObservations(p: seq<Record>, q: seq<Record>)
    requires forall r :: r in p <==> r in q
    ensures Observations(p) == Observations(q)
  {}

  /** Any two record lists with the same set of records, in any order and with any repetitions,
      have one and the same summary. */
  lemma OrderAndRepetitionIrrelevant(p: seq<Record>, q: seq<Record>, w: Window, s: Summary, t: Summary)
    requires forall r :: r in p <==> r in q
    requires IsSummary(Observations(p), w, s) && IsSummary(Observations(q), w, t)
    ensures s == t
  {
    SameRecordsSameObservations(p, q);
    HullUnique(s.observed, t.observed, SegmentsOfItems(s.items, Observations(p), w));
  }

  /** The two cases the handler relies on: any permutation, and a boundary record pushed again. */
  lemma PermutationAndBoundaryIrrelevant(p: seq<Record>, q: seq<Record>, extra: Record, w: Window,
                                         s: Summary, t: Summary)
    requires multiset(p) == multiset(q) || (extra in p && q == p + [extra])
    requires IsSummary(Observations(p), w, s) && IsSummary(Observations(q), w, t)
    ensures s == t
  {
    if multiset(p) == multiset(q) { SameElements(p, q); }
    OrderAndRepetitionIrrelevant(p, q, w, s, t);
  }

  // ---- Exact totals ----

  lemma {:induction false} SumUsagePick(keys: set<StreamKey>, k: StreamKey, obs: set<Observation>, c: Counter,
                                        w: Window)
    requires k in keys
    ensures SumUsage(keys, obs, c, w) == StreamUsage(obs, k, c, w) + SumUsage(keys - {k}, obs, c, w)
    decreases keys
  {
    var j :| j in keys && SumUsage(keys, obs, c, w) == StreamUsage(obs, j, c, w) + SumUsage(keys - {j}, obs, c, w);
    if j != k {
      SumUsagePick(keys - {j}, k, obs, c, w);
      SumUsagePick(keys - {k}, j, obs, c, w);
      assert keys - {j} - {k} == keys - {k} - {j};
    }
  }

  /** A counter that never falls, seen in the window, and outside it at most by its first and
      last values, is charged exactly last minus first. */
  lemma {:induction false} MonotoneStreamTelescopes(ps: seq<Point>, w: Window)
    requires forall i | 0 < i < |ps| :: ps[i - 1].value <= ps[i].value
    requires exists i :: 0 <= i < |ps| && InWindow(w, ps[i].time)
    requires forall i | 0 < i < |ps| - 1 :: InWindow(w, ps[i].time)
    ensures Usage(ps, w) == ps[|ps| - 1].value - ps[0].value
  {
    forall i | 0 < i < |ps| ensures CountsAt(ps, i, w) {
      if |ps| == 2 {
        var j :| 0 <= j < |ps| && InWindow(w, ps[j].time);
        assert j == 0 || j == 1;
      }
    }
    Telescopes(ps, w);
  }

  lemma {:induction false} Telescopes(ps: seq<Point>, w: Window)
    requires ps != [] && forall i | 0 < i < |ps| :: CountsAt(ps, i, w)
    ensures Usage(ps, w) == ps[|ps| - 1].value - ps[0].value
  {
    if |ps| > 1 {
      var n := |ps| - 1;
      forall i | 0 < i < n ensures CountsAt(ps[..n], i, w) { assert CountsAt(ps, i, w); }
      Telescopes(ps[..n], w);
      assert CountsAt(ps, n, w);
    }
  }

  // ---- Best min(500, n) clients ----

  lemma RankedClients(obs: set<Observation>, w: Window)
    ensures |Ranking(obs, w)| == |Clients(obs, w)|
  {
    var ranking, clients := Ranking(obs, w), Clients(obs, w);
    OutranksOrders(obs, w);
    var macs := seq(|ranking|, i requires 0 <= i < |ranking| => ranking[i].mac);
    forall i, j | 0 <= i < j < |macs| ensures macs[i] != macs[j] {
      assert Outranks(ranking[i], ranking[j]) && ranking[i] in Items(obs, w) && ranking[j] in Items(obs, w);
    }
    forall mac ensures mac in macs <==> mac in clients {
      if mac in clients {
        assert ItemFor(obs, mac, w) in Items(obs, w);
        var i :| 0 <= i < |ranking| && ranking[i] == ItemFor(obs, mac, w);
        assert macs[i] == mac;
      }
      if mac in macs {
        var i :| 0 <= i < |macs| && macs[i] == mac;
        assert ranking[i] in Items(obs, w);
      }
    }
    DistinctCardinality(macs, clients);
  }

  lemma {:induction false} DistinctCardinality<T>(q: seq<T>, s: set<T>)
    requires forall i, j | 0 <= i < j < |q| :: q[i] != q[j]
    requires forall x :: x in q <==> x in s
    ensures |q| == |s|
  {
    if q == [] {
      assert s == {};
    } else {
      var n := |q| - 1;
      assert q[n] in s;
      forall x ensures x in q[..n] <==> x in s - {q[n]} {
        if x in q && x != q[n] { var i :| 0 <= i < |q| && q[i] == x; assert q[..n][i] == x; }
      }
      DistinctCardinality(q[..n], s - {q[n]});
    }
  }

  /** The list is the strictly ordered best min(500, n): every client is either kept or outranked by all kept. */
  lemma BestClientsKept(obs: set<Observation>, w: Window, s: Summary)
    requires IsSummary(obs, w, s)
    ensures s.totalClients == |Clients(obs, w)|
    ensures s.truncated <==> |Clients(obs, w)| > MAX_ITEMS
    ensures |s.items| == Min(MAX_ITEMS, |Clients(obs, w)|)
    ensures Ascending(Outranks, s.items)
    ensures forall it | it in s.items :: it.mac in Clients(obs, w) && it == ItemFor(obs, it.mac, w)
    ensures forall mac | mac in Clients(obs, w) ::
              var it := ItemFor(obs, mac, w); it in s.items || forall kept | kept in s.items :: Outranks(kept, it)
  {
    var ranking := Ranking(obs, w);
    OutranksOrders(obs, w);
    RankedClients(obs, w);
    forall it | it in s.items ensures it in Items(obs, w) { assert it in ranking; }
    forall mac | mac in Clients(obs, w)
      ensures var it := ItemFor(obs, mac, w); it in s.items || forall kept | kept in s.items :: Outranks(kept, it)
    {
      var it := ItemFor(obs, mac, w);
      assert it in Items(obs, w) && it in ranking;
      var i :| 0 <= i < |ranking| && ranking[i] == it;
      if i < |s.items| { assert s.items[i] == it; }
    }
  }

  /** More traffic, or the same and the earlier address. */
  ghost predicate Heavier(a: Item, b: Item) {
    a.total > b.total || (a.total == b.total && ComesFirst(a.mac, b.mac))
  }

  lemma OutranksIffHeavier(a: Item, b: Item)
    ensures Outranks(a, b) <==> Heavier(a, b)
  {
    TextLessIff(a.mac, b.mac);
  }

  ghost predicate LeftOut(s: Summary, mac: string) { forall k | 0 <= k < |s.items| :: s.items[k].mac != mac }

  /** The same in plain terms: heaviest first, ties by address; at most 500 are kept, and whoever is left out is
      lighter than every client kept, or as heavy with a later address. */
  lemma HeaviestClientsKept(obs: set<Observation>, w: Window, s: Summary)
    requires IsSummary(obs, w, s)
    ensures |s.items| == if |Clients(obs, w)| <= 500 then |Clients(obs, w)| else 500
    ensures s.truncated <==> |Clients(obs, w)| > 500
    ensures forall i, j | 0 <= i < j < |s.items| :: Heavier(s.items[i], s.items[j])
    ensures forall mac, i | mac in Clients(obs, w) && LeftOut(s, mac) && 0 <= i < |s.items| ::
              Heavier(s.items[i], ItemFor(obs, mac, w))
  {
    BestClientsKept(obs, w, s);
    forall i, j | 0 <= i < j < |s.items| ensures Heavier(s.items[i], s.items[j]) {
      OutranksIffHeavier(s.items[i], s.items[j]);
    }
    forall mac, i | mac in Clients(obs, w) && LeftOut(s, mac) && 0 <= i < |s.items|
      ensures Heavier(s.items[i], ItemFor(obs, mac, w))
    {
      assert s.items[i] in s.items && ItemFor(obs, mac, w) !in s.items;
      OutranksIffHeavier(s.items[i], ItemFor(obs, mac, w));
    }
  }

  /** The window is half-open: a reading at its start makes a client active, one at its end does not. */
  lemma ListedIffSeenInside(obs: set<Observation>, w: Window, mac: string)
    ensures mac in Clients(obs, w) <==>
            exists k, r ::
              k in Keys(obs) && k.mac == mac && r in Settled(Readings(obs, k)) && w.startTime <= r.time < w.endTime
  {
    if mac in Clients(obs, w) {
      var k :| k in Keys(obs) && Active(obs, k, w) && k.mac == mac;
      var r :| r in Settled(Readings(obs, k)) && InWindow(w, r.time);
    }
    if k, r :| k in Keys(obs) && k.mac == mac && r in Settled(Readings(obs, k)) && w.startTime <= r.time < w.endTime {
      assert InWindow(w, r.time) && Active(obs, k, w);
    }
  }

  lemma {:induction false} PointsFollowTrack(track: seq<Reading>, c: Counter)
    requires Ascending(Earlier, track)
    ensures forall i, j | 0 <= i < j < |Points(track, c)| :: Points(track, c)[i].time < Points(track, c)[j].time
    ensures forall p | p in Points(track, c) ::
              exists r :: r in track && r.time == p.time && ValueOf(r, c) == Some(p.value)
  {
    if track != [] {
      var n := |track| - 1;
      PointsFollowTrack(track[..n], c);
      forall p | p in Points(track[..n], c)
        ensures p.time < track[n].time && exists r :: r in track && r.time == p.time && ValueOf(r, c) == Some(p.value)
      {
        var r :| r in track[..n] && r.time == p.time && ValueOf(r, c) == Some(p.value);
      }
      assert track[n] in track;
    }
  }

  lemma SegmentShape(obs: set<Observation>, key: StreamKey, c: Counter, w: Window, s: Span)
    requires s in Segments(Points(Track(obs, key), c), w)
    ensures s.start < s.end && (InWindow(w, s.start) || InWindow(w, s.end))
  {
    EarlierOrders(Readings(obs, key));
    PointsFollowTrack(Track(obs, key), c);
  }

  /** An observed window is a proper interval that meets the requested window. */
  lemma ObservedWindowMeetsRequest(obs: set<Observation>, w: Window, s: Summary)
    requires IsSummary(obs, w, s) && s.observed.Some?
    ensures s.observed.value.start < s.observed.value.end
    ensures exists t :: s.observed.value.start <= t <= s.observed.value.end && InWindow(w, t)
  {
    var spans, h := SegmentsOfItems(s.items, obs, w), s.observed.value;
    var a :| a in spans && a.start == h.start;
    var it :| it in s.items && a in AllSegments(KeysOf(Keys(obs), it.mac), obs, w);
    var k :| k in KeysOf(Keys(obs), it.mac) && a in StreamSegments(obs, k, w);
    var c :| a in Segments(Points(Track(obs, k), c), w);
    SegmentShape(obs, k, c, w, a);
    assert InWindow(w, a.start) || InWindow(w, a.end);
  }
}
