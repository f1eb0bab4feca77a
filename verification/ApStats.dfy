/** One access point's telemetry: which messages make a time point worth keeping, the deltas taken
    against the previous state, and the offline events (src/APStats.h, src/APStats.cpp). */
module ApStats {
  import opened Wrappers
  import opened Words
  import opened ResetLaw

  datatype Ue = Ue(station: string, txBytes: nat, rxBytes: nat, txPackets: nat, rxPackets: nat, txFailed: nat,
                   txRetries: nat, txDuration: nat)
  datatype UeDelta = UeDelta(txBytes: nat, rxBytes: nat, txPackets: nat, rxPackets: nat, txFailed: nat,
                             txRetries: nat, txDuration: nat)

  /** A parsed state message: its time and the associations of each SSID. */
  datatype TimePoint = TimePoint(timestamp: nat, ssids: seq<seq<Ue>>)

  /** What goes to storage: the point, the base it was compared with, and the deltas. */
  datatype Saved = Saved(point: TimePoint, base: TimePoint, deltas: seq<seq<UeDelta>>)

  // ---- Deltas ----

  function Sub64(a: nat, b: nat): nat { (a - b) % TWO64 }

  predicate NewConnection(before: Ue, now: Ue) {
    || now.txPackets < before.txPackets || now.rxPackets < before.rxPackets
    || now.txBytes < before.txBytes || now.rxBytes < before.rxBytes || now.txFailed < before.txFailed
  }

  function Flat(ssids: seq<seq<Ue>>): seq<Ue> {
    if ssids == [] then [] else Flat(ssids[..|ssids| - 1]) + ssids[|ssids| - 1]
  }

  /** The first association of a station in a list. */
  function FirstOf(q: seq<Ue>, station: string): Option<Ue> {
    if q == [] then None
    else match FirstOf(q[..|q| - 1], station) {
      case Some(u) => Some(u)
      case None => if q[|q| - 1].station == station then Some(q[|q| - 1]) else None
    }
  }

  lemma {:induction false} FirstOfConcat(p: seq<Ue>, q: seq<Ue>, station: string)
    ensures FirstOf(p + q, station) == if FirstOf(p, station).Some? then FirstOf(p, station) else FirstOf(q, station)
  {
    if q == [] {
      assert p + q == p;
    } else {
      var n := |q| - 1;
      assert (p + q)[..|p| + n] == p + q[..n];
      FirstOfConcat(p, q[..n], station);
    }
  }

  method FindUe(station: string, ssids: seq<seq<Ue>>) returns (r: Option<Ue>)
    ensures r == FirstOf(Flat(ssids), station)
  {
    ghost var all := Flat(ssids);
    for i := 0 to |ssids|
      invariant FirstOf(Flat(ssids[..i]), station) == None
    {
      assert ssids[..i + 1][..i] == ssids[..i];
      for j := 0 to |ssids[i]|
        invariant FirstOf(ssids[i][..j], station) == None
      {
        assert ssids[i][..j + 1][..j] == ssids[i][..j];
        if ssids[i][j].station == station {
          FoundAt(ssids, i, j, station);
          return Some(ssids[i][j]);
        }
      }
      assert ssids[i][..|ssids[i]|] == ssids[i];
      FirstOfConcat(Flat(ssids[..i]), ssids[i], station);
    }
    assert ssids[..|ssids|] == ssids;
    return None;
  }

  lemma FoundAt(ssids: seq<seq<Ue>>, i: nat, j: nat, station: string)
    requires i < |ssids| && j < |ssids[i]| && ssids[i][j].station == station
    requires FirstOf(Flat(ssids[..i]), station) == None && FirstOf(ssids[i][..j], station) == None
    ensures FirstOf(Flat(ssids), station) == Some(ssids[i][j])
  {
    assert ssids[i][..j + 1][..j] == ssids[i][..j];
    FirstOfConcat(ssids[i][..j + 1], ssids[i][j + 1..], station);
    assert ssids[i] == ssids[i][..j + 1] + ssids[i][j + 1..];
    FirstOfConcat(Flat(ssids[..i]), ssids[i], station);
    assert ssids[..i + 1][..i] == ssids[..i];
    FlatPrefix(ssids, i + 1, station);
  }

  lemma {:induction false} FlatPrefix(ssids: seq<seq<Ue>>, i: nat, station: string)
    requires i <= |ssids| && FirstOf(Flat(ssids[..i]), station).Some?
    ensures FirstOf(Flat(ssids), station) == FirstOf(Flat(ssids[..i]), station)
    decreases |ssids|
  {
    if i == |ssids| {
      assert ssids[..i] == ssids;
    } else {
      var n := |ssids| - 1;
      assert ssids[..n][..i] == ssids[..i];
      FlatPrefix(ssids[..n], i, station);
      FirstOfConcat(Flat(ssids[..n]), ssids[n], station);
    }
  }

  /** The deltas of one association against the base state. */
  function DeltaOf(base: TimePoint, u: Ue): UeDelta {
    var e := FirstOf(Flat(base.ssids), u.station);
    if e.Some? && !NewConnection(e.value, u) then
      var b := e.value;
      UeDelta(Sub64(u.txBytes, b.txBytes), Sub64(u.rxBytes, b.rxBytes), Sub64(u.txPackets, b.txPackets),
              Sub64(u.rxPackets, b.rxPackets), Sub64(u.txFailed, b.txFailed), Sub64(u.txRetries, b.txRetries),
              Sub64(u.txDuration, b.txDuration))
    else UeDelta(u.txBytes, u.rxBytes, u.txPackets, u.rxPackets, u.txFailed, u.txRetries, u.txDuration)
  }

  ghost predicate DeltasOf(base: TimePoint, p: TimePoint, deltas: seq<seq<UeDelta>>) {
    && |deltas| == |p.ssids|
    && forall i | 0 <= i < |deltas| :: RowDeltas(base, p.ssids[i], deltas[i])
  }

  ghost predicate RowDeltas(base: TimePoint, row: seq<Ue>, d: seq<UeDelta>) {
    |d| == |row| && forall j | 0 <= j < |d| :: d[j] == DeltaOf(base, row[j])
  }

  // ---- What a delta is, in terms of the counters ----

  /** The first association of a station in a list, by position. */
  ghost predicate IsFirst(q: seq<Ue>, b: Ue, i: nat) {
    i < |q| && q[i] == b && forall k | 0 <= k < i :: q[k].station != b.station
  }

  lemma {:induction false} FirstOfMeaning(q: seq<Ue>, station: string)
    ensures FirstOf(q, station).None? <==> forall k | 0 <= k < |q| :: q[k].station != station
    ensures forall b, i | IsFirst(q, b, i) && b.station == station :: FirstOf(q, station) == Some(b)
  {
    if q != [] {
      var n := |q| - 1;
      FirstOfMeaning(q[..n], station);
      forall b, i: nat | IsFirst(q, b, i) && b.station == station ensures FirstOf(q, station) == Some(b) {
        if i < n { assert IsFirst(q[..n], b, i); }
      }
    }
  }

  /** Every delta is the new value. */
  ghost predicate Whole(d: UeDelta, u: Ue) {
    && d.txBytes == u.txBytes && d.rxBytes == u.rxBytes && d.txPackets == u.txPackets && d.rxPackets == u.rxPackets
    && d.txFailed == u.txFailed && d.txRetries == u.txRetries && d.txDuration == u.txDuration
  }

  /** Some one of the five guarded counters is lower than before. */
  ghost predicate Fell(before: Ue, now: Ue) {
    || now.txBytes < before.txBytes || now.rxBytes < before.rxBytes
    || now.txPackets < before.txPackets || now.rxPackets < before.rxPackets || now.txFailed < before.txFailed
  }

  /** Every delta is now minus before; of the two unguarded counters, unless they fell, when it wraps around. */
  ghost predicate Differences(d: UeDelta, before: Ue, now: Ue) {
    && d.txBytes == now.txBytes - before.txBytes && d.rxBytes == now.rxBytes - before.rxBytes
    && d.txPackets == now.txPackets - before.txPackets && d.rxPackets == now.rxPackets - before.rxPackets
    && d.txFailed == now.txFailed - before.txFailed
    && WrapsIffFallen(before.txRetries, now.txRetries, d.txRetries)
    && WrapsIffFallen(before.txDuration, now.txDuration, d.txDuration)
  }

  /** The delta of u against a base: the new values if the base does not have the station, or has it first with
      some guarded counter higher than now; the differences otherwise. */
  ghost predicate DeltaRight(base: TimePoint, u: Ue, d: UeDelta) {
    var q := Flat(base.ssids);
    && ((forall k | 0 <= k < |q| :: q[k].station != u.station) ==> Whole(d, u))
    && (forall b, i | IsFirst(q, b, i) && b.station == u.station && Fits(b) && Fits(u) ::
          if Fell(b, u) then Whole(d, u) else Differences(d, b, u))
  }

  lemma DeltaOfIsRight(base: TimePoint, u: Ue)
    ensures DeltaRight(base, u, DeltaOf(base, u))
  {
    var q := Flat(base.ssids);
    FirstOfMeaning(q, u.station);
    forall b, i: nat | IsFirst(q, b, i) && b.station == u.station && Fits(b) && Fits(u)
      ensures if Fell(b, u) then Whole(DeltaOf(base, u), u) else Differences(DeltaOf(base, u), b, u)
    {
      DeltaAgainst(base, b, u);
    }
  }

  lemma DeltaAgainst(base: TimePoint, b: Ue, u: Ue)
    requires FirstOf(Flat(base.ssids), u.station) == Some(b) && Fits(b) && Fits(u)
    ensures if Fell(b, u) then Whole(DeltaOf(base, u), u) else Differences(DeltaOf(base, u), b, u)
  {
    if !Fell(b, u) {
      Sub64Meaning(b.txBytes, u.txBytes);
      Sub64Meaning(b.rxBytes, u.rxBytes);
      Sub64Meaning(b.txPackets, u.txPackets);
      Sub64Meaning(b.rxPackets, u.rxPackets);
      Sub64Meaning(b.txFailed, u.txFailed);
      Sub64Meaning(b.txRetries, u.txRetries);
      Sub64Meaning(b.txDuration, u.txDuration);
    }
  }

  lemma Sub64Meaning(before: nat, now: nat)
    requires before < TWO64 && now < TWO64
    ensures Sub64(now, before) == if before <= now then now - before else TWO64 - (before - now)
  {}

  ghost predicate AllRight(base: TimePoint, p: TimePoint, deltas: seq<seq<UeDelta>>) {
    && |deltas| == |p.ssids|
    && forall i | 0 <= i < |deltas| :: RowRight(base, p.ssids[i], deltas[i])
  }

  ghost predicate RowRight(base: TimePoint, row: seq<Ue>, d: seq<UeDelta>) {
    |d| == |row| && forall j | 0 <= j < |d| :: DeltaRight(base, row[j], d[j])
  }

  lemma DeltasOfAreRight(base: TimePoint, p: TimePoint, deltas: seq<seq<UeDelta>>)
    requires DeltasOf(base, p, deltas)
    ensures AllRight(base, p, deltas)
  {
    forall i | 0 <= i < |deltas| ensures RowRight(base, p.ssids[i], deltas[i]) {
      assert RowDeltas(base, p.ssids[i], deltas[i]);
      forall j | 0 <= j < |deltas[i]| ensures DeltaRight(base, p.ssids[i][j], deltas[i][j]) {
        DeltaOfIsRight(base, p.ssids[i][j]);
      }
    }
  }

  method ComputeDeltas(base: TimePoint, p: TimePoint) returns (deltas: seq<seq<UeDelta>>)
    ensures DeltasOf(base, p, deltas) && AllRight(base, p, deltas)
  {
    deltas := [];
    for i := 0 to |p.ssids|
      invariant |deltas| == i && forall k | 0 <= k < i :: RowDeltas(base, p.ssids[k], deltas[k])
    {
      var row: seq<UeDelta> := [];
      for j := 0 to |p.ssids[i]|
        invariant RowDeltas(base, p.ssids[i][..j], row)
      {
        var u := p.ssids[i][j];
        var e := FindUe(u.station, base.ssids);
        var d;
        if e.Some? && !NewConnection(e.value, u) {
          d := UeDelta(Sub64(u.txBytes, e.value.txBytes), Sub64(u.rxBytes, e.value.rxBytes),
                       Sub64(u.txPackets, e.value.txPackets), Sub64(u.rxPackets, e.value.rxPackets),
                       Sub64(u.txFailed, e.value.txFailed), Sub64(u.txRetries, e.value.txRetries),
                       Sub64(u.txDuration, e.value.txDuration));
        } else {
          d := UeDelta(u.txBytes, u.rxBytes, u.txPackets, u.rxPackets, u.txFailed, u.txRetries, u.txDuration);
        }
        row := row + [d];
      }
      assert p.ssids[i][..|p.ssids[i]|] == p.ssids[i];
      deltas := deltas + [row];
    }
    DeltasOfAreRight(base, p, deltas);
  }

  /** The five counters whose fall marks a new association. */
  datatype Guarded = TxBytes | RxBytes | TxPackets | RxPackets | TxFailed

  function CounterOf(u: Ue, c: Guarded): nat {
    match c
    case TxBytes => u.txBytes case RxBytes => u.rxBytes case TxPackets => u.txPackets
    case RxPackets => u.rxPackets case TxFailed => u.txFailed
  }

  function DeltaCounter(d: UeDelta, c: Guarded): nat {
    match c
    case TxBytes => d.txBytes case RxBytes => d.rxBytes case TxPackets => d.txPackets
    case RxPackets => d.rxPackets case TxFailed => d.txFailed
  }

  ghost predicate Fits(u: Ue) {
    && u.txBytes < TWO64 && u.rxBytes < TWO64 && u.txPackets < TWO64 && u.rxPackets < TWO64 && u.txFailed < TWO64
    && u.txRetries < TWO64 && u.txDuration < TWO64
  }

  /** u is the only association of its station in p. */
  ghost predicate OnlyOne(p: TimePoint, u: Ue) {
    var q := Flat(p.ssids);
    u in q && forall v | v in q && v.station == u.station :: v == u
  }

  lemma {:induction false} FirstOfOnly(q: seq<Ue>, u: Ue)
    requires u in q && forall v | v in q && v.station == u.station :: v == u
    ensures FirstOf(q, u.station) == Some(u)
  {
    var n := |q| - 1;
    assert q == q[..n] + [q[n]];
    if u in q[..n] { FirstOfOnly(q[..n], u); } else { NoneOf(q[..n], u.station, u); }
  }

  lemma {:induction false} NoneOf(q: seq<Ue>, station: string, u: Ue)
    requires u !in q && forall v | v in q && v.station == station :: v == u
    ensures FirstOf(q, station) == None
  {
    if q != [] {
      var n := |q| - 1;
      assert q == q[..n] + [q[n]];
      assert q[n] in q;
      NoneOf(q[..n], station, u);
    }
  }

  /** A station's associations along consecutive states. */
  ghost predicate Follows(points: seq<TimePoint>, us: seq<Ue>) {
    && |points| == |us| >= 1
    && (forall i | 0 <= i < |us| :: us[i].station == us[0].station && Fits(us[i]) && OnlyOne(points[i], us[i]))
  }

  ghost function Series(us: seq<Ue>, c: Guarded): (s: seq<nat>)
    ensures |s| == |us|
  {
    seq(|us|, i requires 0 <= i < |us| => CounterOf(us[i], c))
  }

  ghost function Resets(us: seq<Ue>): (s: seq<bool>)
    ensures |s| == |us|
  {
    seq(|us|, i requires 0 <= i < |us| => i > 0 && Fell(us[i - 1], us[i]))
  }

  lemma PairDelta(base: TimePoint, b: Ue, u: Ue, c: Guarded)
    requires FirstOf(Flat(base.ssids), u.station) == Some(b) && Fits(b) && Fits(u)
    ensures DeltaCounter(DeltaOf(base, u), c) == CounterOf(u, c) - if Fell(b, u) then 0 else CounterOf(b, c)
    ensures Fell(b, u) || CounterOf(b, c) <= CounterOf(u, c)
  {}

  /** Each stored delta of a guarded counter is the exact, never wrapping, difference. */
  lemma GuardedDeltaExact(points: seq<TimePoint>, us: seq<Ue>, c: Guarded, i: nat)
    requires Follows(points, us) && 1 <= i < |us|
    ensures DeltaCounter(DeltaOf(points[i - 1], us[i]), c) == DeltaAt(Series(us, c), Resets(us), i)
    ensures FallsOnlyAt(Series(us, c), Resets(us), i)
  {
    FirstOfOnly(Flat(points[i - 1].ssids), us[i - 1]);
    assert us[i].station == us[0].station == us[i - 1].station && Fits(us[i]) && Fits(us[i - 1]);
    PairDelta(points[i - 1], us[i - 1], us[i], c);
  }

  ghost function DeltaSum(points: seq<TimePoint>, us: seq<Ue>, c: Guarded): nat
    requires |points| == |us|
  {
    if |us| < 2 then 0
    else var n := |us| - 1;
      DeltaSum(points[..n], us[..n], c) + DeltaCounter(DeltaOf(points[n - 1], us[n]), c)
  }

  lemma SeriesPrefix(us: seq<Ue>, c: Guarded, n: nat)
    requires n <= |us|
    ensures Series(us[..n], c) == Series(us, c)[..n] && Resets(us[..n]) == Resets(us)[..n]
  {}

  lemma FollowsPrefix(points: seq<TimePoint>, us: seq<Ue>, n: nat)
    requires Follows(points, us) && 1 <= n <= |us|
    ensures Follows(points[..n], us[..n])
  {}

  lemma {:induction false} DeltaSumIsTotal(points: seq<TimePoint>, us: seq<Ue>, c: Guarded)
    requires Follows(points, us)
    ensures DeltaSum(points, us, c) == Total(Series(us, c), Resets(us))
  {
    if |us| > 1 {
      var n := |us| - 1;
      FollowsPrefix(points, us, n);
      DeltaSumIsTotal(points[..n], us[..n], c);
      SeriesPrefix(us, c, n);
      GuardedDeltaExact(points, us, c, n);
    }
  }

  lemma {:induction false} NothingLost(vs: seq<nat>, restarts: seq<bool>)
    requires |vs| == |restarts| && forall i | 0 <= i < |restarts| :: !restarts[i]
    ensures Lost(vs, restarts) == 0
  {
    if |vs| >= 2 { NothingLost(vs[..|vs| - 1], restarts[..|vs| - 1]); }
  }

  /** Over any run of states a station's deltas add up to last minus first plus the values held just before
      each state in which some guarded counter fell. */
  lemma StationDeltasAddUp(points: seq<TimePoint>, us: seq<Ue>, c: Guarded)
    requires Follows(points, us)
    ensures DeltaSum(points, us, c) ==
            CounterOf(us[|us| - 1], c) - CounterOf(us[0], c) + Lost(Series(us, c), Resets(us))
  {
    DeltaSumIsTotal(points, us, c);
    forall i | 1 <= i < |us| ensures FallsOnlyAt(Series(us, c), Resets(us), i) { GuardedDeltaExact(points, us, c, i); }
    DeltasAddUp(Series(us, c), Resets(us));
  }

  ghost predicate NeverFalls(us: seq<Ue>) { forall i | 0 < i < |us| :: !Fell(us[i - 1], us[i]) }

  /** For a station whose guarded counters never fall, they add up to just last minus first. */
  lemma SteadyDeltasAddUp(points: seq<TimePoint>, us: seq<Ue>, c: Guarded)
    requires Follows(points, us) && NeverFalls(us)
    ensures DeltaSum(points, us, c) == CounterOf(us[|us| - 1], c) - CounterOf(us[0], c)
  {
    StationDeltasAddUp(points, us, c);
    NothingLost(Series(us, c), Resets(us));
  }

  /** Retries and airtime are not watched for falls. A new association is charged in full; otherwise the stored
      delta is the true difference iff the counter did not fall, and wraps around if it did. */
  lemma UnguardedDeltas(base: TimePoint, before: Ue, u: Ue)
    requires OnlyOne(base, before) && before.station == u.station && Fits(before) && Fits(u)
    ensures Fell(before, u) ==>
              DeltaOf(base, u).txRetries == u.txRetries && DeltaOf(base, u).txDuration == u.txDuration
    ensures !Fell(before, u) ==>
              && WrapsIffFallen(before.txRetries, u.txRetries, DeltaOf(base, u).txRetries)
              && WrapsIffFallen(before.txDuration, u.txDuration, DeltaOf(base, u).txDuration)
  {
    FirstOfOnly(Flat(base.ssids), before);
  }

  ghost predicate WrapsIffFallen(before: nat, now: nat, delta: nat) {
    && (delta == now - before <==> before <= now)
    && (now < before ==> delta == TWO64 - (before - now))
  }

  // ---- The state machine ----

  /** A JSON number field as GetJSON meets it. */
  datatype Field = Missing | Number(n: nat) | IllTyped

  datatype Message =
    | State(point: TimePoint)
    | Ping
    | Disconnection(timestamp: Field, uuid: string)
    | Capabilities
    | OtherConnection
    | Health

  datatype OfflineEvent = OfflineEvent(time: nat, uuid: string)
  datatype ApState = ApState(connected: bool, gotHealth: bool, gotConnection: bool, gotBase: bool, base: TimePoint)

  const FRESH := ApState(false, false, false, false, TimePoint(0, []))

  /** A disconnection takes effect only if its timestamp can be read. */
  predicate Disconnects(m: Message) { m.Disconnection? && !m.timestamp.IllTyped? }

  predicate Contacts(m: Message) { m.State? || m.Ping? || m.Capabilities? }

  function Next(s: ApState, m: Message): ApState {
    match m
    case State(p) => s.(connected := true, gotBase := true, base := p)
    case Ping => s.(connected := true, gotConnection := true)
    case Capabilities => s.(connected := true, gotConnection := true)
    case Health => s.(gotHealth := true)
    case Disconnection(ts, _) =>
      if ts.IllTyped? then s else ApState(false, false, false, false, s.base)
    case OtherConnection => s
  }

  predicate Saves(s: ApState, m: Message) { m.State? && s.gotBase && s.gotConnection && s.gotHealth }

  predicate Offers(s: ApState, m: Message) {
    m.Disconnection? && s.connected && m.timestamp.Number? && m.timestamp.n != 0
  }

  class AP {
    var connected: bool
    var gotHealth: bool
    var gotConnection: bool
    var gotBase: bool
    var base: TimePoint

    ghost function Abs(): ApState
      reads this
    {
      ApState(connected, gotHealth, gotConnection, gotBase, base)
    }

    constructor ()
      ensures Abs() == FRESH
    {
      connected, gotHealth, gotConnection, gotBase, base := false, false, false, false, TimePoint(0, []);
    }

    /** saved is what is written to the time-point table, if anything. */
    method UpdateStats(point: TimePoint) returns (saved: Option<Saved>)
      modifies this
      ensures Abs() == Next(old(Abs()), State(point))
      ensures saved.Some? <==> Saves(old(Abs()), State(point))
      ensures saved.Some? ==>
                && saved.value.point == point && saved.value.base == old(base)
                && DeltasOf(old(base), point, saved.value.deltas) && AllRight(old(base), point, saved.value.deltas)
    {
      saved := None;
      connected := true;
      if gotBase {
        var deltas := ComputeDeltas(base, point);
        if gotConnection && gotHealth {
          saved := Some(Saved(point, base, deltas));
        }
        base := point;
      } else {
        base := point;
        gotBase := true;
      }
    }

    /** offline is the event offered to the availability table, if any. */
    method UpdateConnection(m: Message) returns (offline: Option<OfflineEvent>)
      requires m.Ping? || m.Disconnection? || m.Capabilities? || m.OtherConnection?
      modifies this
      ensures Abs() == Next(old(Abs()), m)
      ensures offline.Some? <==> Offers(old(Abs()), m)
      ensures offline.Some? ==> offline.value == OfflineEvent(m.timestamp.n, m.uuid)
    {
      offline := None;
      if m.Ping? {
        gotConnection := true;
        connected := true;
      } else if m.Disconnection? {
        if m.timestamp.IllTyped? { return; }
        if connected {
          var time := if m.timestamp.Number? then m.timestamp.n else 0;
          if time != 0 { offline := Some(OfflineEvent(time, m.uuid)); }
        }
        gotBase, gotHealth, gotConnection := false, false, false;
        connected := false;
      } else if m.Capabilities? {
        gotConnection := true;
        connected := true;
      }
    }

    method UpdateHealth()
      modifies this
      ensures Abs() == Next(old(Abs()), Health)
    {
      gotHealth := true;
    }
  }

  // ---- Whole runs ----

  ghost function After(ms: seq<Message>): ApState {
    if ms == [] then FRESH else Next(After(ms[..|ms| - 1]), ms[|ms| - 1])
  }

  /** Message j lies in the connected period that is open when message i arrives. */
  ghost predicate SamePeriod(ms: seq<Message>, j: int, i: nat) {
    0 <= j < i <= |ms| && forall k | j < k < i :: !Disconnects(ms[k])
  }

  ghost predicate StateSince(ms: seq<Message>, i: nat) { exists j :: SamePeriod(ms, j, i) && ms[j].State? }
  ghost predicate ConnectionSince(ms: seq<Message>, i: nat) {
    exists j :: SamePeriod(ms, j, i) && (ms[j].Ping? || ms[j].Capabilities?)
  }
  ghost predicate HealthSince(ms: seq<Message>, i: nat) { exists j :: SamePeriod(ms, j, i) && ms[j].Health? }
  ghost predicate ContactSince(ms: seq<Message>, i: nat) { exists j :: SamePeriod(ms, j, i) && Contacts(ms[j]) }

  /** The flags are exactly the history of the open period. */
  lemma {:induction false} FlagsAreHistory(ms: seq<Message>, i: nat)
    requires i <= |ms|
    ensures After(ms[..i]).gotBase <==> StateSince(ms, i)
    ensures After(ms[..i]).gotConnection <==> ConnectionSince(ms, i)
    ensures After(ms[..i]).gotHealth <==> HealthSince(ms, i)
    ensures After(ms[..i]).connected <==> ContactSince(ms, i)
  {
    if i > 0 {
      FlagsAreHistory(ms, i - 1);
      assert ms[..i][..i - 1] == ms[..i - 1] && ms[..i][i - 1] == ms[i - 1];
      forall j ensures SamePeriod(ms, j, i) <==> j == i - 1 || (SamePeriod(ms, j, i - 1) && !Disconnects(ms[i - 1])) {
        if SamePeriod(ms, j, i) && j != i - 1 { assert !Disconnects(ms[i - 1]); }
      }
      assert SamePeriod(ms, i - 1, i);
    }
  }

  /** The base is the immediately preceding state message of the same period. */
  lemma {:induction false} BaseIsPreviousState(ms: seq<Message>, i: nat) returns (j: nat)
    requires i <= |ms| && After(ms[..i]).gotBase
    ensures SamePeriod(ms, j, i) && ms[j].State? && After(ms[..i]).base == ms[j].point
    ensures forall k | j < k < i :: !ms[k].State?
  {
    assert ms[..i][..i - 1] == ms[..i - 1] && ms[..i][i - 1] == ms[i - 1];
    if ms[i - 1].State? { j := i - 1; } else { j := BaseIsPreviousState(ms, i - 1); }
  }

  /** A state message is persisted iff an earlier state, a ping or capabilities, and a health message
      were seen since the last disconnection (or creation). */
  lemma PersistedIff(ms: seq<Message>, i: nat)
    requires i < |ms| && ms[i].State?
    ensures Saves(After(ms[..i]), ms[i]) <==> StateSince(ms, i) && ConnectionSince(ms, i) && HealthSince(ms, i)
  {
    FlagsAreHistory(ms, i);
  }

  /** An offline event is offered for recording iff a dated disconnection follows a contact of the same period. */
  lemma OfflineIff(ms: seq<Message>, i: nat)
    requires i < |ms|
    ensures Offers(After(ms[..i]), ms[i]) <==>
            ms[i].Disconnection? && ms[i].timestamp.Number? && ms[i].timestamp.n != 0 && ContactSince(ms, i)
  {
    FlagsAreHistory(ms, i);
  }

  /** Between two offered offline events there is a state, ping or capabilities message. */
  lemma ContactBetweenOfflineEvents(ms: seq<Message>, i: nat, j: nat) returns (k: nat)
    requires i < j < |ms| && Offers(After(ms[..i]), ms[i]) && Offers(After(ms[..j]), ms[j])
    ensures i < k < j && Contacts(ms[k])
  {
    OfflineIff(ms, j);
    k :| SamePeriod(ms, k, j) && Contacts(ms[k]);
  }

  /** Once a state is persisted, so is every later one of the same period. */
  lemma PersistingContinues(ms: seq<Message>, i: nat, j: nat)
    requires i < j < |ms| && ms[i].State? && ms[j].State? && forall k | i < k < j :: !Disconnects(ms[k])
    requires Saves(After(ms[..i]), ms[i])
    ensures Saves(After(ms[..j]), ms[j])
  {
    PersistedIff(ms, i);
    assert forall k :: SamePeriod(ms, k, i) ==> SamePeriod(ms, k, j) by {
      forall k | SamePeriod(ms, k, i) ensures SamePeriod(ms, k, j) { assert !Disconnects(ms[i]); }
    }
    PersistedIff(ms, j);
  }

  // ---- The deltas of one connected period ----

  /** ks are the positions of consecutive state messages of one period. */
  ghost predicate StatesInPeriod(ms: seq<Message>, ks: seq<nat>) {
    && (forall a | 0 <= a < |ks| :: ks[a] < |ms| && ms[ks[a]].State?)
    && (forall a | 0 < a < |ks| :: Consecutive(ms, ks[a - 1], ks[a]))
  }

  ghost predicate Consecutive(ms: seq<Message>, i: nat, j: nat) {
    i < j <= |ms| && forall k | i < k < j :: !ms[k].State? && !Disconnects(ms[k])
  }

  ghost function PointsAt(ms: seq<Message>, ks: seq<nat>): (points: seq<TimePoint>)
    requires StatesInPeriod(ms, ks)
    ensures |points| == |ks|
  {
    seq(|ks|, a requires 0 <= a < |ks| => ms[ks[a]].point)
  }

  /** What was written for state k, with the base it was compared with. */
  ghost predicate WrittenFor(ms: seq<Message>, k: nat, s: Saved) {
    && k < |ms| && ms[k].State? && s.point == ms[k].point && s.base == After(ms[..k]).base
    && DeltasOf(s.base, s.point, s.deltas)
  }

  /** Association u stands at place at of a written point. */
  ghost predicate StandsAt(s: Saved, at: (nat, nat), u: Ue) {
    at.0 < |s.point.ssids| && at.1 < |s.point.ssids[at.0]| && s.point.ssids[at.0][at.1] == u
  }

  ghost function DeltaIn(s: Saved, at: (nat, nat), c: Guarded): nat
    requires at.0 < |s.deltas| && at.1 < |s.deltas[at.0]|
  {
    DeltaCounter(s.deltas[at.0][at.1], c)
  }

  lemma BaseIsPreviousOf(ms: seq<Message>, i: nat, j: nat)
    requires Consecutive(ms, i, j) && j < |ms| && ms[i].State?
    ensures After(ms[..j]).base == ms[i].point
  {
    FlagsAreHistory(ms, j);
    assert SamePeriod(ms, i, j);
    var k := BaseIsPreviousState(ms, j);
    assert k == i;
  }

  /** The deltas stored for a station over the persisted points of a period: saved[a] was written for the state
      at ks[a + 1], and at[a] is where the station stands in it. */
  ghost predicate StoredDeltas(ms: seq<Message>, ks: seq<nat>, us: seq<Ue>, saved: seq<Saved>, at: seq<(nat, nat)>) {
    && StatesInPeriod(ms, ks) && Follows(PointsAt(ms, ks), us) && |saved| == |at| == |ks| - 1
    && forall a | 0 <= a < |saved| :: WrittenFor(ms, ks[a + 1], saved[a]) && StandsAt(saved[a], at[a], us[a + 1])
  }

  ghost function StoredSum(saved: seq<Saved>, at: seq<(nat, nat)>, c: Guarded): nat
    requires |saved| == |at|
    requires forall a | 0 <= a < |saved| :: at[a].0 < |saved[a].deltas| && at[a].1 < |saved[a].deltas[at[a].0]|
  {
    if saved == [] then 0
    else var n := |saved| - 1; StoredSum(saved[..n], at[..n], c) + DeltaIn(saved[n], at[n], c)
  }

  lemma StoredDelta(ms: seq<Message>, ks: seq<nat>, us: seq<Ue>, saved: seq<Saved>, at: seq<(nat, nat)>, a: nat)
    requires StoredDeltas(ms, ks, us, saved, at) && a < |saved|
    ensures at[a].0 < |saved[a].deltas| && at[a].1 < |saved[a].deltas[at[a].0]|
    ensures saved[a].deltas[at[a].0][at[a].1] == DeltaOf(PointsAt(ms, ks)[a], us[a + 1])
  {
    assert Consecutive(ms, ks[a], ks[a + 1]) by { assert ks[a] == ks[a + 1 - 1]; }
    BaseIsPreviousOf(ms, ks[a], ks[a + 1]);
    assert WrittenFor(ms, ks[a + 1], saved[a]) && StandsAt(saved[a], at[a], us[a + 1]);
    assert RowDeltas(saved[a].base, saved[a].point.ssids[at[a].0], saved[a].deltas[at[a].0]);
  }

  lemma {:induction false} StoredSumIsDeltaSum(saved: seq<Saved>, at: seq<(nat, nat)>, points: seq<TimePoint>,
                                               us: seq<Ue>, c: Guarded)
    requires |saved| == |at| == |points| - 1 == |us| - 1
    requires forall a | 0 <= a < |saved| ::
               && at[a].0 < |saved[a].deltas| && at[a].1 < |saved[a].deltas[at[a].0]|
               && saved[a].deltas[at[a].0][at[a].1] == DeltaOf(points[a], us[a + 1])
    ensures StoredSum(saved, at, c) == DeltaSum(points, us, c)
  {
    var n := |saved|;
    if n > 0 {
      StoredSumIsDeltaSum(saved[..n - 1], at[..n - 1], points[..n], us[..n], c);
    }
  }

  /** Over any run of messages, what is stored for a station in one connected period adds up to its last value
      minus the one in the base of the first stored point, plus what was on the counter before each fall of a
      guarded counter. Every state from the first persisted one on is persisted. */
  lemma PeriodDeltasAddUp(ms: seq<Message>, ks: seq<nat>, us: seq<Ue>, saved: seq<Saved>, at: seq<(nat, nat)>,
                          c: Guarded)
    requires StoredDeltas(ms, ks, us, saved, at) && |ks| > 1 && Saves(After(ms[..ks[1]]), ms[ks[1]])
    ensures forall a | 1 <= a < |ks| :: Saves(After(ms[..ks[a]]), ms[ks[a]])
    ensures forall a | 0 <= a < |saved| :: at[a].0 < |saved[a].deltas| && at[a].1 < |saved[a].deltas[at[a].0]|
    ensures StoredSum(saved, at, c) ==
            CounterOf(us[|us| - 1], c) - CounterOf(us[0], c) + Lost(Series(us, c), Resets(us))
    ensures NeverFalls(us) ==> StoredSum(saved, at, c) == CounterOf(us[|us| - 1], c) - CounterOf(us[0], c)
  {
    forall a | 1 <= a < |ks| ensures Saves(After(ms[..ks[a]]), ms[ks[a]]) { PeriodPersists(ms, ks, a); }
    var points := PointsAt(ms, ks);
    forall a | 0 <= a < |saved|
      ensures at[a].0 < |saved[a].deltas| && at[a].1 < |saved[a].deltas[at[a].0]|
      ensures saved[a].deltas[at[a].0][at[a].1] == DeltaOf(points[a], us[a + 1])
    {
      StoredDelta(ms, ks, us, saved, at, a);
    }
    StoredSumIsDeltaSum(saved, at, points, us, c);
    StationDeltasAddUp(points, us, c);
    if NeverFalls(us) { SteadyDeltasAddUp(points, us, c); }
  }

  lemma {:induction false} PeriodPersists(ms: seq<Message>, ks: seq<nat>, a: nat)
    requires StatesInPeriod(ms, ks) && 1 <= a < |ks| && Saves(After(ms[..ks[1]]), ms[ks[1]])
    ensures Saves(After(ms[..ks[a]]), ms[ks[a]])
  {
    if a > 1 {
      PeriodPersists(ms, ks, a - 1);
      assert Consecutive(ms, ks[a - 1], ks[a]);
      PersistingContinues(ms, ks[a - 1], ks[a]);
    }
  }
}
