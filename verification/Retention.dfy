/** Query windows, retention and cleanup: what a validated query may ask for and what the periodic cleanup
    removes (src/RESTAPI/RESTAPI_mcp_helpers.h, src/StorageService.cpp). */
module Retention {
  import opened Wrappers
  import opened Words
  import opened Windows
  import opened Timestamps

  const MAX_LOOKBACK_HOURS: nat := 87600
  const BATCH: nat := 100

  // ---- Decimal numbers ----

  ghost predicate AllDigits(s: string) { forall i | 0 <= i < |s| :: IsDigit(s[i]) }

  lemma {:induction false} NumberPrefix(s: string, i: nat)
    requires i <= |s| && AllDigits(s)
    ensures 0 <= Number(s[..i]) <= Number(s)
    decreases |s|
  {
    if s != [] {
      var n := |s| - 1;
      if i < |s| { assert s[..n][..i] == s[..i]; NumberPrefix(s[..n], i); }
      else { assert s[..i] == s; NumberPrefix(s[..n], n); assert s[..n][..n] == s[..n]; }
    }
  }

  /** Accepts exactly the non-empty digit texts whose value fits 64 bits, and returns the value. */
  method ParseDecimalUint64(value: string) returns (r: Option<nat>)
    ensures r.Some? <==> value != "" && AllDigits(value) && Number(value) <= MAX64
    ensures r.Some? ==> r.value == Number(value)
  {
    if value == "" { return None; }
    var parsed: nat := 0;
    for i := 0 to |value|
      invariant AllDigits(value[..i]) && parsed == Number(value[..i]) && parsed <= MAX64
    {
      if !IsDigit(value[i]) { return None; }
      assert value[..i + 1][..i] == value[..i];
      assert value[..i + 1] == value[..i] + [value[i]];
      var digit := DigitValue(value[i]);
      if parsed > (MAX64 - digit) / 10 {
        assert Number(value[..i + 1]) > MAX64;
        if AllDigits(value) { NumberPrefix(value, i + 1); }
        return None;
      }
      parsed := parsed * 10 + digit;
    }
    assert value[..|value|] == value;
    return Some(parsed);
  }

  // ---- ValidateWindowQuery ----

  datatype Refusal = UnsupportedParameter | InvalidTimestamp | InvalidLookback
  datatype Validated = Accepted(w: Window) | Refused(why: Refusal)

  ghost function ValuesOf(params: seq<(string, string)>, name: string): seq<string> {
    if params == [] then [] else
      var n := |params| - 1;
      ValuesOf(params[..n], name) + if params[n].0 == name then [params[n].1] else []
  }

  ghost predicate OnlyKnown(params: seq<(string, string)>) {
    forall i | 0 <= i < |params| :: params[i].0 == "timestampTill" || params[i].0 == "lookbackHours"
  }

  /** The window a query denotes: one timestamp and one hour count, ending no later than the skewed clock and
      starting no earlier than the epoch. */
  ghost predicate Denotes(params: seq<(string, string)>, now: nat, skew: nat, w: Window) {
    var ts, hs := ValuesOf(params, "timestampTill"), ValuesOf(params, "lookbackHours");
    && OnlyKnown(params) && |ts| == 1 && |hs| == 1
    && Parsed(ts[0]) == Some(w.endTime) && w.endTime <= now + skew
    && hs[0] != "" && AllDigits(hs[0]) && Number(hs[0]) == w.lookbackHours && 1 <= w.lookbackHours <= 87600
    && w.startTime + w.lookbackHours * 3600 == w.endTime
  }

  /** The timestamp half of the same. */
  ghost predicate TimestampFits(params: seq<(string, string)>, now: nat, skew: nat) {
    var ts := ValuesOf(params, "timestampTill");
    |ts| == 1 && Parsed(ts[0]).Some? && Parsed(ts[0]).value <= now + skew
  }

  method ValidateWindowQuery(params: seq<(string, string)>, now: nat, skew: nat) returns (r: Validated)
    ensures r.Accepted? ==> Denotes(params, now, skew, r.w)
    ensures r.Accepted? ==> 1 <= r.w.lookbackHours <= 87600 && r.w.startTime + r.w.lookbackHours * 3600 == r.w.endTime
    ensures r.Refused? ==> forall w :: !Denotes(params, now, skew, w)
    ensures r == Refused(UnsupportedParameter) <==> !OnlyKnown(params)
    ensures r == Refused(InvalidTimestamp) <==> OnlyKnown(params) && !TimestampFits(params, now, skew)
  {
    var timestamps, lookbacks := 0, 0;
    var timestamp, lookback := "", "";
    for i := 0 to |params|
      invariant forall j | 0 <= j < i :: params[j].0 == "timestampTill" || params[j].0 == "lookbackHours"
      invariant Collected(params[..i], "timestampTill", timestamps, timestamp)
      invariant Collected(params[..i], "lookbackHours", lookbacks, lookback)
    {
      assert params[..i + 1][..i] == params[..i];
      var (name, value) := params[i];
      if name != "timestampTill" && name != "lookbackHours" { return Refused(UnsupportedParameter); }
      if name == "timestampTill" {
        timestamps, timestamp := timestamps + 1, value;
      } else {
        lookbacks, lookback := lookbacks + 1, value;
      }
    }
    assert params[..|params|] == params;
    if timestamps != 1 { return Refused(InvalidTimestamp); }
    var end := ParseTimestampTill(timestamp);
    if end == None { return Refused(InvalidTimestamp); }
    if end.value > now && end.value - now > skew { return Refused(InvalidTimestamp); }
    if lookbacks != 1 { return Refused(InvalidLookback); }
    var hours := ParseDecimalUint64(lookback);
    if hours == None || hours.value == 0 { return Refused(InvalidLookback); }
    if hours.value > MAX_LOOKBACK_HOURS { return Refused(InvalidLookback); }
    if hours.value * 3600 > end.value { return Refused(InvalidLookback); }
    return Accepted(Window(end.value - hours.value * 3600, end.value, hours.value));
  }

  ghost predicate Collected(params: seq<(string, string)>, name: string, count: nat, last: string) {
    var vs := ValuesOf(params, name);
    |vs| == count && (count > 0 ==> vs[count - 1] == last)
  }

  // ---- ValidateRetention ----

  function RetentionStart(now: nat, retention: nat): nat { if now > retention then now - retention else 0 }

  function EndLimit(now: nat, skew: nat): nat { if now + skew <= MAX64 then now + skew else MAX64 }

  predicate WithinRetention(w: Window, retention: nat, now: nat, skew: nat) {
    && retention / 3600 != 0 && w.lookbackHours <= retention / 3600
    && RetentionStart(now, retention) <= w.startTime && w.endTime <= EndLimit(now, skew)
  }

  datatype RetentionAnswer = Allowed | LookbackTooLong | OutsideRetention

  /** Refused for its length first; then for starting before the retention does or ending past the skewed clock. */
  method ValidateRetention(w: Window, retention: nat, now: nat, skew: nat) returns (r: RetentionAnswer)
    requires now <= MAX64 && w.endTime <= MAX64
    ensures r == Allowed <==> WithinRetention(w, retention, now, skew)
    ensures r == LookbackTooLong <==> retention < 3600 || w.lookbackHours * 3600 > retention
    ensures r == Allowed <==>
            && 3600 <= retention && w.lookbackHours * 3600 <= retention
            && now <= w.startTime + retention && w.endTime <= now + skew
  {
    var maxHours := retention / 3600;
    if maxHours == 0 || w.lookbackHours > maxHours { return LookbackTooLong; }
    var limit := now;
    if MAX64 - limit >= skew { limit := limit + skew; } else { limit := MAX64; }
    var start := if now > retention then now - retention else 0;
    if w.startTime < start || w.endTime > limit { return OutsideRetention; }
    return Allowed;
  }

  // ---- Cleanup ----

  datatype BoardRow = BoardRow(id: string, retentions: seq<nat>)
  datatype Stored = Stored(board: string, time: nat)

  ghost predicate IsMax(q: seq<nat>, m: nat) {
    (forall i | 0 <= i < |q| :: q[i] <= m) && (m > 0 ==> m in q)
  }

  ghost function Effective(b: BoardRow): nat { MaxOf(b.retentions) }

  ghost function MaxOf(q: seq<nat>): (m: nat)
    ensures IsMax(q, m)
  {
    if q == [] then 0 else
      var m := MaxOf(q[..|q| - 1]);
      if q[|q| - 1] > m then q[|q| - 1] else m
  }

  method EffectiveBoardRetention(b: BoardRow) returns (retention: nat)
    ensures retention == Effective(b) && IsMax(b.retentions, retention)
  {
    retention := 0;
    for i := 0 to |b.retentions|
      invariant retention == MaxOf(b.retentions[..i])
    {
      assert b.retentions[..i + 1][..i] == b.retentions[..i];
      if b.retentions[i] > retention { retention := b.retentions[i]; }
    }
    assert b.retentions[..|b.retentions|] == b.retentions;
  }

  function RetentionCutoff(now: nat, retention: nat): nat {
    if retention == 0 || retention >= now then 0 else now - retention
  }

  /** A board seen when the clock reads now expires p. */
  ghost predicate Expires(b: BoardRow, now: nat, p: Stored) {
    Effective(b) > 0 && p.board == b.id && p.time < RetentionCutoff(now, Effective(b))
  }

  /** A row expires iff it is the board's, which has a retention, and is older than that. */
  lemma ExpiresIff(b: BoardRow, now: nat, p: Stored)
    ensures Expires(b, now, p) <==>
            && p.board == b.id && (exists v :: v in b.retentions && v > 0)
            && forall v | v in b.retentions :: p.time + v < now
  {
    assert Effective(b) > 0 ==> Effective(b) in b.retentions;
  }

  /** The two tables that are cleaned. */
  datatype Kind = Points | Events

  /** One board of one run: what the clock read, and whether the deletions fail. */
  datatype Visit = Visit(board: BoardRow, now: nat, pointsFail: bool, eventsFail: bool)

  function Fails(v: Visit, kind: Kind): bool { if kind == Points then v.pointsFail else v.eventsFail }

  ghost predicate Removes(visits: seq<Visit>, kind: Kind, p: Stored) {
    exists i :: 0 <= i < |visits| && !Fails(visits[i], kind) && Expires(visits[i].board, visits[i].now, p)
  }

  /** What some visits leave of a table. */
  ghost function Remaining(rows: set<Stored>, visits: seq<Visit>, kind: Kind): set<Stored> {
    set p | p in rows && !Removes(visits, kind, p)
  }

  /** What a run meets: the board table as it stands at each batch, whether it can be read then, the clock, and
      which deletions fail, by position. */
  datatype World = World(table: nat -> seq<BoardRow>, readable: nat -> bool, clock: nat -> nat,
                         fails: (nat, Kind) -> bool)

  ghost predicate Bounded(w: World, limit: nat) { forall n :: |w.table(n)| <= limit }

  /** The n-th batch of a hundred, taken from the table as it is by then. */
  function Page(w: World, n: nat): (page: seq<BoardRow>)
    ensures |page| <= BATCH && (page != [] ==> n * BATCH + |page| <= |w.table(n)|)
  {
    var t, start := w.table(n), n * BATCH;
    if start >= |t| then [] else if start + BATCH <= |t| then t[start..start + BATCH] else t[start..]
  }

  function VisitAt(w: World, n: nat, i: nat): Visit
    requires i < |Page(w, n)|
  {
    Visit(Page(w, n)[i], w.clock(n), w.fails(n * BATCH + i, Points), w.fails(n * BATCH + i, Events))
  }

  function PageVisits(w: World, n: nat): (visits: seq<Visit>)
    ensures |visits| == |Page(w, n)|
  {
    seq(|Page(w, n)|, i requires 0 <= i < |Page(w, n)| => VisitAt(w, n, i))
  }

  /** The visits of a run from its n-th batch on: it goes on after a full batch. */
  ghost function VisitsFrom(w: World, n: nat, limit: nat): seq<Visit>
    requires Bounded(w, limit)
    decreases limit - n * BATCH
  {
    if !w.readable(n) then [] else PageVisits(w, n) + if |Page(w, n)| < BATCH then [] else VisitsFrom(w, n + 1, limit)
  }

  /** How one more batch changes what is left to visit. */
  lemma NextBatch(w: World, n: nat, limit: nat, done: seq<Visit>, all: seq<Visit>)
    requires Bounded(w, limit) && all == done + VisitsFrom(w, n, limit)
    ensures !w.readable(n) ==> all == done
    ensures w.readable(n) && |Page(w, n)| < BATCH ==> all == done + PageVisits(w, n)
    ensures w.readable(n) && |Page(w, n)| >= BATCH ==>
              all == done + PageVisits(w, n) + VisitsFrom(w, n + 1, limit) && (n + 1) * BATCH <= limit
  {}

  /** 64-bit arithmetic throughout. */
  predicate TooOld(h: Stored, maxDays: nat, now: nat) { h.time < (now - maxDays * 86400) % TWO64 }

  /** Too old is older than that many days; but a limit of more days than the clock has counted wraps around, and
      then everything is too old. */
  lemma TooOldIff(h: Stored, maxDays: nat, now: nat)
    requires now < TWO64 && maxDays * 86400 < TWO63 && h.time < TWO63
    ensures TooOld(h, maxDays, now) <==> h.time + maxDays * 86400 < now || now < maxDays * 86400
  {}

  class Storage {
    var points: set<Stored>
    var events: set<Stored>
    var history: set<Stored>  // of clients, by venue

    /** A run removes exactly what its visits expire, failed deletions aside, and then the client history older
        than an age limit. The clock is read once more for that. */
    method OnTimer(w: World, maxDays: nat, now: nat, historyFails: bool, ghost limit: nat)
      requires Bounded(w, limit)
      modifies this
      ensures points == Remaining(old(points), VisitsFrom(w, 0, limit), Points)
      ensures events == Remaining(old(events), VisitsFrom(w, 0, limit), Events)
      ensures history == if historyFails then old(history) else set h | h in old(history) && !TooOld(h, maxDays, now)
    {
      CleanBoards(w, limit);
      if !historyFails { history := set h | h in history && !TooOld(h, maxDays, now); }
    }

    method CleanBoards(w: World, ghost limit: nat)
      requires Bounded(w, limit)
      modifies this`points, this`events
      ensures points == Remaining(old(points), VisitsFrom(w, 0, limit), Points)
      ensures events == Remaining(old(events), VisitsFrom(w, 0, limit), Events)
    {
      var n := 0;
      ghost var done: seq<Visit> := [];
      while true
        invariant VisitsFrom(w, 0, limit) == done + VisitsFrom(w, n, limit)
        invariant points == Remaining(old(points), done, Points) && events == Remaining(old(events), done, Events)
        decreases limit - n * BATCH
      {
        NextBatch(w, n, limit, done, VisitsFrom(w, 0, limit));
        if !w.readable(n) { break; }
        var page := Page(w, n);
        CleanBatch(w, n, done, old(points), old(events));
        done := done + PageVisits(w, n);
        if |page| < BATCH { break; }
        n := n + 1;
      }
    }

    method CleanBatch(w: World, n: nat, ghost done: seq<Visit>, ghost points0: set<Stored>, ghost events0: set<Stored>)
      requires points == Remaining(points0, done, Points) && events == Remaining(events0, done, Events)
      modifies this`points, this`events
      ensures points == Remaining(points0, done + PageVisits(w, n), Points)
      ensures events == Remaining(events0, done + PageVisits(w, n), Events)
    {
      var page, now := Page(w, n), w.clock(n);
      ghost var visits := PageVisits(w, n);
      assert done + visits[..0] == done;
      for i := 0 to |page|
        invariant points == Remaining(points0, done + visits[..i], Points)
        invariant events == Remaining(events0, done + visits[..i], Events)
      {
        var v := VisitAt(w, n, i);
        assert done + visits[..i + 1] == done + visits[..i] + [v];
        RemainingStep(points0, done + visits[..i], v, Points);
        RemainingStep(events0, done + visits[..i], v, Events);
        var retention := EffectiveBoardRetention(page[i]);
        if retention == 0 { continue; }
        var cutoff := RetentionCutoff(now, retention);
        if !v.pointsFail { points := set p | p in points && !(p.board == page[i].id && p.time < cutoff); }
        if !v.eventsFail { events := set p | p in events && !(p.board == page[i].id && p.time < cutoff); }
      }
      assert visits[..|page|] == visits;
    }
  }

  lemma RemainingStep(rows: set<Stored>, visits: seq<Visit>, v: Visit, kind: Kind)
    ensures Remaining(rows, visits + [v], kind) ==
            set p | p in Remaining(rows, visits, kind) && (Fails(v, kind) || !Expires(v.board, v.now, p))
  {
    var more := visits + [v];
    forall p
      ensures Removes(more, kind, p) <==>
              Removes(visits, kind, p) || (!Fails(v, kind) && Expires(v.board, v.now, p))
    {
      if Removes(visits, kind, p) {
        var k :| 0 <= k < |visits| && !Fails(visits[k], kind) && Expires(visits[k].board, visits[k].now, p);
        assert more[k] == visits[k];
      }
      assert more[|visits|] == v;
    }
  }

  // ---- Which boards a run visits ----

  ghost function BoardsOf(visits: seq<Visit>): (bs: seq<BoardRow>)
    ensures |bs| == |visits|
  {
    seq(|visits|, i requires 0 <= i < |visits| => visits[i].board)
  }

  /** A run over a table that stays as it is and can be read visits every board once, in order. */
  lemma {:induction false} FixedTableVisitsAll(w: World, boards: seq<BoardRow>, n: nat, limit: nat)
    requires Bounded(w, limit) && (forall k :: w.readable(k) && w.table(k) == boards) && n * BATCH <= |boards|
    ensures BoardsOf(VisitsFrom(w, n, limit)) == boards[n * BATCH..]
    decreases |boards| - n * BATCH
  {
    assert w.readable(n) && w.table(n) == boards;
    assert BoardsOf(PageVisits(w, n)) == Page(w, n);
    if |Page(w, n)| == BATCH {
      FixedTableVisitsAll(w, boards, n + 1, limit);
      BoardsOfConcat(PageVisits(w, n), VisitsFrom(w, n + 1, limit));
      assert boards[n * BATCH..] == Page(w, n) + boards[(n + 1) * BATCH..];
    } else {
      assert boards[n * BATCH..] == Page(w, n);
      assert VisitsFrom(w, n, limit) == PageVisits(w, n);
    }
  }

  lemma BoardsOfConcat(a: seq<Visit>, b: seq<Visit>)
    ensures BoardsOf(a + b) == BoardsOf(a) + BoardsOf(b)
  {}

  /** The board is visited, as whatever row it has by then. */
  ghost predicate Visited(visits: seq<Visit>, id: string) {
    exists i :: 0 <= i < |visits| && visits[i].board.id == id
  }

  /** A run that is at batch n gets to batch m: each can be read, and each before m is full. */
  ghost predicate ReachedFrom(w: World, n: nat, m: nat) {
    n <= m && w.readable(m) && forall k | n <= k < m :: Passed(w, k)
  }

  ghost predicate Passed(w: World, k: nat) { w.readable(k) && (k + 1) * BATCH <= |w.table(k)| }

  /** The board stands in the m-th hundred of the table as it is at batch m. */
  ghost predicate StandsIn(w: World, m: nat, id: string) {
    exists i :: m * BATCH <= i < (m + 1) * BATCH && i < |w.table(m)| && w.table(m)[i].id == id
  }

  lemma PageHolds(w: World, n: nat, id: string)
    ensures Visited(PageVisits(w, n), id) <==> StandsIn(w, n, id)
  {
    var page, visits := Page(w, n), PageVisits(w, n);
    assert forall i | 0 <= i < |page| :: visits[i].board == page[i] && page[i] == w.table(n)[n * BATCH + i];
    if StandsIn(w, n, id) {
      var i :| n * BATCH <= i < (n + 1) * BATCH && i < |w.table(n)| && w.table(n)[i].id == id;
      assert visits[i - n * BATCH].board.id == id;
    }
  }

  lemma VisitedConcat(a: seq<Visit>, b: seq<Visit>, id: string)
    ensures Visited(a + b, id) <==> Visited(a, id) || Visited(b, id)
  {
    if Visited(a, id) { var i :| 0 <= i < |a| && a[i].board.id == id; assert (a + b)[i].board.id == id; }
    if Visited(b, id) { var i :| 0 <= i < |b| && b[i].board.id == id; assert (a + b)[|a| + i].board.id == id; }
  }

  lemma ReachedNext(w: World, n: nat, m: nat)
    ensures ReachedFrom(w, n, m) <==> (m == n && w.readable(n)) || (Passed(w, n) && ReachedFrom(w, n + 1, m))
  {}

  /** Over any table, however it changes from batch to batch, a run visits a board iff it gets to a batch at
      which the board stands in the hundred that batch takes. */
  lemma {:induction false} VisitedIff(w: World, n: nat, id: string, limit: nat)
    requires Bounded(w, limit)
    ensures Visited(VisitsFrom(w, n, limit), id) <==> exists m :: ReachedFrom(w, n, m) && StandsIn(w, m, id)
    decreases limit - n * BATCH
  {
    PageHolds(w, n, id);
    if Passed(w, n) {
      VisitedIff(w, n + 1, id, limit);
      VisitedConcat(PageVisits(w, n), VisitsFrom(w, n + 1, limit), id);
    }
    VisitedHere(w, n, id, limit);
    forall m ensures ReachedFrom(w, n, m) <==> (m == n && w.readable(n)) || (Passed(w, n) && ReachedFrom(w, n + 1, m)) {
      ReachedNext(w, n, m);
    }
  }

  /** One batch of the same. */
  lemma VisitedHere(w: World, n: nat, id: string, limit: nat)
    requires Bounded(w, limit)
    ensures Visited(VisitsFrom(w, n, limit), id) <==>
            && w.readable(n)
            && (Visited(PageVisits(w, n), id) || (Passed(w, n) && Visited(VisitsFrom(w, n + 1, limit), id)))
  {
    if Passed(w, n) {
      VisitedConcat(PageVisits(w, n), VisitsFrom(w, n + 1, limit), id);
    } else if w.readable(n) {
      assert VisitsFrom(w, n, limit) == PageVisits(w, n);
    }
  }

  /** The board is in the table throughout the run, at position at(k) when batch k is read. */
  ghost predicate Stays(w: World, id: string, at: nat -> nat) {
    forall k :: at(k) < |w.table(k)| && forall i | 0 <= i < |w.table(k)| :: w.table(k)[i].id == id <==> i == at(k)
  }

  /** Other boards are deleted in the meantime, but none is put in front of it. */
  ghost predicate OnlyMovesUp(at: nat -> nat) { forall j, k | j <= k :: at(k) <= at(j) }

  /** After batch k the board moves up across the point where the next batch begins. */
  ghost predicate Crosses(at: nat -> nat, k: nat) { at(k + 1) < (k + 1) * BATCH <= at(k) }

  /** A board that stays while others are deleted is visited iff it never moves up past the next batch. */
  lemma VisitedIffNeverCrosses(w: World, id: string, at: nat -> nat, limit: nat)
    requires Bounded(w, limit) && (forall k :: w.readable(k)) && Stays(w, id, at) && OnlyMovesUp(at)
    ensures Visited(VisitsFrom(w, 0, limit), id) <==> forall k :: !Crosses(at, k)
  {
    VisitedIff(w, 0, id, limit);
    if m :| ReachedFrom(w, 0, m) && StandsIn(w, m, id) {
      StandsAt(w, id, at, m);
      forall k ensures !Crosses(at, k) { OnceInPlace(at, m, k); }
    }
    if forall k :: !Crosses(at, k) {
      var m := Found(w, id, at, 0, limit);
      StandsAt(w, id, at, m);
    }
  }

  lemma StandsAt(w: World, id: string, at: nat -> nat, m: nat)
    requires Stays(w, id, at)
    ensures StandsIn(w, m, id) <==> m * BATCH <= at(m) < (m + 1) * BATCH
  {
    assert at(m) < |w.table(m)| && w.table(m)[at(m)].id == id;
  }

  lemma OnceInPlace(at: nat -> nat, m: nat, k: nat)
    requires OnlyMovesUp(at) && m * BATCH <= at(m) < (m + 1) * BATCH
    ensures !Crosses(at, k)
  {
    if k < m { assert at(m) <= at(k + 1); } else { assert at(k) <= at(m); }
  }

  /** Where a board that is still ahead at batch n, and never crosses, is met. */
  lemma {:induction false} Found(w: World, id: string, at: nat -> nat, n: nat, limit: nat) returns (m: nat)
    requires Bounded(w, limit) && (forall k :: w.readable(k)) && Stays(w, id, at) && (forall k :: !Crosses(at, k))
    requires n * BATCH <= at(n)
    ensures ReachedFrom(w, n, m) && m * BATCH <= at(m) < (m + 1) * BATCH
    decreases limit - n * BATCH
  {
    assert at(n) < |w.table(n)| <= limit;
    if at(n) < (n + 1) * BATCH {
      m := n;
    } else {
      assert !Crosses(at, n);
      m := Found(w, id, at, n + 1, limit);
      ReachedNext(w, n, m);
    }
  }

  ghost predicate DistinctIds(boards: seq<BoardRow>) {
    forall i, j | 0 <= i < j < |boards| :: boards[i].id != boards[j].id
  }

  /** So in a table that stays as it is every board is visited ... */
  lemma FixedTableVisits(w: World, boards: seq<BoardRow>, i: nat, limit: nat)
    requires Bounded(w, limit) && (forall k :: w.readable(k) && w.table(k) == boards)
    requires DistinctIds(boards) && i < |boards|
    ensures Visited(VisitsFrom(w, 0, limit), boards[i].id)
  {
    VisitedIffNeverCrosses(w, boards[i].id, _ => i, limit);
  }

  /** ... and if d boards are deleted in front of another after batch k is read, the other, within d of the next
      batch, is not visited by that run. */
  lemma LiveTableSkipsBoard(w: World, id: string, at: nat -> nat, k: nat, d: nat, limit: nat)
    requires Bounded(w, limit) && (forall n :: w.readable(n)) && Stays(w, id, at) && OnlyMovesUp(at)
    requires at(k + 1) == at(k) - d && (k + 1) * BATCH <= at(k) < (k + 1) * BATCH + d
    ensures !Visited(VisitsFrom(w, 0, limit), id)
  {
    VisitedIffNeverCrosses(w, id, at, limit);
    assert Crosses(at, k);
  }

  /** For example the last of a hundred and one boards, when another goes after the first batch. */
  lemma LastOfAHundredAndOne(w: World, boards: seq<BoardRow>, gone: nat, limit: nat)
    requires Bounded(w, limit) && |boards| == 101 && gone < 100 && DistinctIds(boards)
    requires forall k :: w.readable(k) && w.table(k) == if k == 0 then boards else boards[..gone] + boards[gone + 1..]
    ensures boards[100] in w.table(1) && !Visited(VisitsFrom(w, 0, limit), boards[100].id)
  {
    var at := (k: nat) => if k == 0 then BATCH else BATCH - 1;
    var later := boards[..gone] + boards[gone + 1..];
    assert forall i | 0 <= i < BATCH :: later[i] == boards[if i < gone then i else i + 1];
    assert Stays(w, boards[BATCH].id, at) by {
      forall k: nat
        ensures at(k) < |w.table(k)|
        ensures forall i | 0 <= i < |w.table(k)| :: w.table(k)[i].id == boards[BATCH].id <==> i == at(k)
      {
        assert w.table(k) == if k == 0 then boards else later;
      }
    }
    assert w.table(1) == later && later[BATCH - 1] == boards[BATCH];
    LiveTableSkipsBoard(w, boards[BATCH].id, at, 0, 1, limit);
  }

  // ---- Cleanup against queries ----

  ghost function AfterRuns(rows: set<Stored>, runs: seq<seq<Visit>>, kind: Kind): set<Stored> {
    if runs == [] then rows
    else Remaining(AfterRuns(rows, runs[..|runs| - 1], kind), runs[|runs| - 1], kind)
  }

  /** The visit, if of board id, was before now and saw no retention or at least this one. */
  ghost predicate Sparing(v: Visit, id: string, retention: nat, now: nat) {
    v.board.id == id ==> v.now <= now && (Effective(v.board) == 0 || retention <= Effective(v.board))
  }

  ghost predicate RunsBefore(runs: seq<seq<Visit>>, id: string, retention: nat, now: nat) {
    forall k, i | 0 <= k < |runs| && 0 <= i < |runs[k]| :: Sparing(runs[k][i], id, retention, now)
  }

  /** No history of cleanups up to now, over whatever boards they got to see, has removed anything a query
      accepted now may ask for, provided the retention was not raised since: the resolved retention is at most
      what each visit went by. */
  lemma {:induction false} AcceptedQueriesLoseNothing(rows: set<Stored>, runs: seq<seq<Visit>>, kind: Kind, p: Stored,
                                                      w: Window, retention: nat, now: nat, skew: nat)
    requires RunsBefore(runs, p.board, retention, now) && WithinRetention(w, retention, now, skew)
    requires p in rows && w.startTime <= p.time
    ensures p in AfterRuns(rows, runs, kind)
  {
    if runs != [] {
      var n := |runs| - 1;
      AcceptedQueriesLoseNothing(rows, runs[..n], kind, p, w, retention, now, skew);
      forall i | 0 <= i < |runs[n]| ensures !Expires(runs[n][i].board, runs[n][i].now, p) {
        assert Sparing(runs[n][i], p.board, retention, now);
      }
    }
  }

  /** A resolved retention that is one of the board's own is never more than the one the cleanup goes by. */
  lemma ResolvedRetentionCovered(b: BoardRow, retention: nat)
    requires retention in b.retentions
    ensures retention <= Effective(b)
  {}

  /** A window some accepted query denotes, as ValidateWindowQuery builds it. */
  ghost predicate Askable(w: Window, retention: nat, now: nat, skew: nat) {
    && 1 <= w.lookbackHours && w.startTime + w.lookbackHours * 3600 == w.endTime
    && WithinRetention(w, retention, now, skew)
  }

  /** The condition is exact: a cleanup at the very moment of the query spares everything an accepted query may
      ask for iff it keeps everything, or goes by at least the resolved retention, or no query is accepted. */
  lemma CleanupSafeIff(b: BoardRow, retention: nat, now: nat, skew: nat)
    requires now <= MAX64
    ensures (forall w, t | Askable(w, retention, now, skew) && w.startTime <= t < w.endTime ::
               !Expires(b, now, Stored(b.id, t)))
            <==> Effective(b) == 0 || Effective(b) >= now || Effective(b) >= retention
                 || retention < 3600 || EndLimit(now, skew) < 3600
  {
    var e := Effective(b);
    if 0 < e < now && e < retention && 3600 <= retention && 3600 <= EndLimit(now, skew) {
      var start := RetentionStart(now, retention);
      var w := Window(start, start + 3600, 1);
      assert Askable(w, retention, now, skew) && Expires(b, now, Stored(b.id, w.startTime));
    }
  }
}
