/** The board table under the REST handlers, and the resolver that reads it
    (src/RESTAPI/RESTAPI_board_handler.cpp, src/RouterIdResolver.h, src/storage/storage_boards.cpp). A row keeps
    one venue. */
module Boards {
  import opened Wrappers

  datatype Venue = Venue(id: string, retention: nat, interval: nat, monitorSubVenues: bool)
  type Table = map<string, Venue>

  predicate HasExactlyOneVenue(venues: seq<Venue>) { |venues| == 1 && venues[0].id != "" }

  /** FindBoardsByVenue. */
  function BoardsOf(t: Table, venue: string): set<string> { set id | id in t && t[id].id == venue }

  datatype Status = Ok | BadRequest | NotFound | InternalError

  /** Which storage call of a request fails, if any. */
  datatype Fault = NoFault | LookupFails | WriteFails

  // ---- The handlers as steps on the table ----

  function Posted(t: Table, id: string, venues: seq<Venue>, fault: Fault): (Table, Status) {
    if !HasExactlyOneVenue(venues) then (t, BadRequest)
    else if fault == LookupFails then (t, InternalError)
    else if BoardsOf(t, venues[0].id) != {} then (t, BadRequest)
    else if id in t || fault == WriteFails then (t, InternalError)
    else (t[id := venues[0]], Ok)
  }

  /** The checks a PUT makes of its body, if that has a venue list, against the venue it read earlier. */
  predicate Passes(existing: Venue, body: Option<seq<Venue>>) {
    body.Some? ==> HasExactlyOneVenue(body.value) && body.value[0].id == existing.id
  }

  /** The second half of a PUT, working from the venue it read earlier. */
  function Written(t: Table, id: string, existing: Venue, body: Option<seq<Venue>>, fault: Fault): (Table, Status) {
    if !Passes(existing, body) then (t, BadRequest)
    else if fault == WriteFails then (t, InternalError)
    else (if id in t then t[id := if body.Some? then body.value[0] else existing] else t, Ok)
  }

  function PutAt(t: Table, id: string, body: Option<seq<Venue>>, fault: Fault): (Table, Status) {
    if id in t && fault != LookupFails then Written(t, id, t[id], body, fault) else (t, NotFound)
  }

  // ---- When each answer is given ----

  /** One venue, with an id. */
  ghost predicate NamesOneVenue(venues: seq<Venue>) { exists v :: venues == [v] && v.id != "" }

  ghost predicate Taken(t: Table, venue: string) { exists j :: j in t && t[j].id == venue }

  ghost function PostStatus(t: Table, id: string, venues: seq<Venue>, fault: Fault): Status {
    if !NamesOneVenue(venues) then BadRequest
    else if fault == LookupFails then InternalError
    else if Taken(t, venues[0].id) then BadRequest
    else if id in t || fault == WriteFails then InternalError
    else Ok
  }

  ghost function PutStatus(t: Table, id: string, body: Option<seq<Venue>>, fault: Fault): Status {
    if id !in t || fault == LookupFails then NotFound
    else if body.Some? && !(NamesOneVenue(body.value) && body.value[0].id == t[id].id) then BadRequest
    else if fault == WriteFails then InternalError
    else Ok
  }

  lemma OneVenue(venues: seq<Venue>)
    ensures HasExactlyOneVenue(venues) <==> NamesOneVenue(venues)
  {
    if HasExactlyOneVenue(venues) { assert venues == [venues[0]]; }
  }

  lemma TakenIff(t: Table, venue: string)
    ensures BoardsOf(t, venue) != {} <==> Taken(t, venue)
  {
    if Taken(t, venue) { var j :| j in t && t[j].id == venue; assert j in BoardsOf(t, venue); }
  }

  /** What the second half of a PUT stores: with a venue list, that; without, the venue read earlier; on any answer
      but Ok nothing; and never in any other row, nor in a row that is gone. */
  lemma WrittenMeaning(t: Table, id: string, existing: Venue, body: Option<seq<Venue>>, fault: Fault)
    ensures var (after, status) := Written(t, id, existing, body, fault);
            && status == (if body.Some? && !(NamesOneVenue(body.value) && body.value[0].id == existing.id)
                          then BadRequest else if fault == WriteFails then InternalError else Ok)
            && after.Keys == t.Keys && (forall j | j in t && j != id :: after[j] == t[j])
            && (status == Ok && id in t ==> after[id] == if body.Some? then body.value[0] else existing)
            && (status != Ok ==> after == t)
  {
    if body.Some? { OneVenue(body.value); }
  }

  class BoardHandler {
    var table: Table

    /** id is the identifier the new object ends up with: a fresh one, or, for a body without a name, the
        one in the body. */
    method DoPost(id: string, venues: seq<Venue>, fault: Fault) returns (status: Status)
      modifies this
      ensures (table, status) == Posted(old(table), id, venues, fault)
      ensures status == PostStatus(old(table), id, venues, fault)
      ensures status == Ok ==> table == old(table)[id := venues[0]]
      ensures status != Ok ==> table == old(table)
      ensures old(OnePerVenue(table)) ==> OnePerVenue(table)
    {
      OneVenue(venues);
      if !HasExactlyOneVenue(venues) { return BadRequest; }
      TakenIff(table, venues[0].id);
      if fault == LookupFails { return InternalError; }
      var existing := BoardsOf(table, venues[0].id);
      if existing != {} { return BadRequest; }
      if id in table || fault == WriteFails { return InternalError; }
      if OnePerVenue(table) { PostKeeps(table, id, venues, fault); }
      table := table[id := venues[0]];
      return Ok;
    }

    method DoPut(id: string, body: Option<seq<Venue>>, fault: Fault) returns (status: Status)
      modifies this
      ensures (table, status) == PutAt(old(table), id, body, fault)
      ensures status == PutStatus(old(table), id, body, fault)
      ensures status == Ok && body.Some? ==> id in table && table[id] == body.value[0]
      ensures status == Ok && body.None? ==> table == old(table)
      ensures table.Keys == old(table).Keys && forall j | j in table && j != id :: table[j] == old(table)[j]
      ensures status != Ok ==> table == old(table)
      ensures old(OnePerVenue(table)) ==> OnePerVenue(table)
    {
      if body.Some? { OneVenue(body.value); }
      if id !in table || fault == LookupFails { return NotFound; }
      var existing := table[id];
      if body.Some? {
        if !HasExactlyOneVenue(body.value) { return BadRequest; }
        if body.value[0].id != existing.id { return BadRequest; }
        existing := body.value[0];
      }
      if fault == WriteFails { return InternalError; }
      table := table[id := existing];
      return Ok;
    }

    /** Deletion by a handler and retirement by the coordinator have one effect here. */
    method DoDelete(id: string) returns (status: Status)
      modifies this
      ensures table == old(table) - {id} && status == if id in old(table) then Ok else NotFound
      ensures old(OnePerVenue(table)) ==> OnePerVenue(table)
    {
      if id !in table {
        assert table - {id} == table;
        return NotFound;
      }
      table := table - {id};
      return Ok;
    }
  }

  // ---- One board per venue ----

  /** Every row has a real venue, and no two rows have the same one. */
  ghost predicate OnePerVenue(t: Table) {
    && (forall id | id in t :: t[id].id != "")
    && (forall a, b | a in t && b in t && a != b :: t[a].id != t[b].id)
  }

  lemma PostKeeps(t: Table, id: string, venues: seq<Venue>, fault: Fault)
    requires OnePerVenue(t)
    ensures OnePerVenue(Posted(t, id, venues, fault).0)
  {
    if HasExactlyOneVenue(venues) && BoardsOf(t, venues[0].id) == {} {
      forall a | a in t ensures t[a].id != venues[0].id { assert a !in BoardsOf(t, venues[0].id); }
    }
  }

  /** The write goes through, over a row that is still there, while another board has the venue read. */
  ghost predicate Collides(t: Table, id: string, existing: Venue, body: Option<seq<Venue>>, fault: Fault) {
    && id in t && Passes(existing, body) && fault != WriteFails
    && exists other :: other in t && other != id && t[other].id == existing.id
  }

  /** A write of a real venue keeps one board per venue iff it does not collide. */
  lemma WriteKeepsIff(t: Table, id: string, existing: Venue, body: Option<seq<Venue>>, fault: Fault)
    requires OnePerVenue(t) && existing.id != ""
    ensures OnePerVenue(Written(t, id, existing, body, fault).0) <==> !Collides(t, id, existing, body, fault)
  {
    var after := Written(t, id, existing, body, fault).0;
    if Collides(t, id, existing, body, fault) {
      var other :| other in t && other != id && t[other].id == existing.id;
      assert id in after && after[id].id == existing.id && after[other] == t[other];
    }
  }

  datatype Event =
    | Post(id: string, venues: seq<Venue>, fault: Fault)
    | Put(id: string, body: Option<seq<Venue>>, fault: Fault)
    | Delete(id: string)
    | PutRead(id: string)                              // first half of a PUT that is then overtaken by others
    | PutWrite(id: string, existing: Venue, body: Option<seq<Venue>>, fault: Fault)

  /** The table, every id ever posted, and the PUTs that have read but not yet written. */
  datatype State = State(table: Table, used: set<string>, pending: set<(string, Venue)>)

  const EMPTY := State(map[], {}, {})

  predicate Atomic(e: Event) { e.Post? || e.Put? || e.Delete? }

  /** A write completes a PUT that has read. */
  ghost predicate Enabled(s: State, e: Event) { e.PutWrite? ==> (e.id, e.existing) in s.pending }

  function Step(s: State, e: Event): State {
    match e
    case Post(id, venues, fault) => s.(table := Posted(s.table, id, venues, fault).0, used := s.used + {id})
    case Put(id, body, fault) => s.(table := PutAt(s.table, id, body, fault).0)
    case Delete(id) => s.(table := s.table - {id})
    case PutRead(id) => if id in s.table then s.(pending := s.pending + {(id, s.table[id])}) else s
    case PutWrite(id, existing, body, fault) => s.(table := Written(s.table, id, existing, body, fault).0)
  }

  ghost predicate Run(trace: seq<State>, events: seq<Event>) {
    && |trace| == |events| + 1 && trace[0] == EMPTY
    && forall i | 0 <= i < |events| :: Enabled(trace[i], events[i]) && trace[i + 1] == Step(trace[i], events[i])
  }

  /** The event is a write that collides. */
  ghost predicate Breaks(s: State, e: Event) {
    e.PutWrite? && Collides(s.table, e.id, e.existing, e.body, e.fault)
  }

  /** Every pending read found a real venue. */
  ghost predicate ReadsReal(s: State) { forall r | r in s.pending :: r.1.id != "" }

  /** From a good state every event but a colliding write leads to a good state. */
  lemma StepKeepsIff(s: State, e: Event)
    requires OnePerVenue(s.table) && ReadsReal(s) && Enabled(s, e)
    ensures ReadsReal(Step(s, e))
    ensures OnePerVenue(Step(s, e).table) <==> !Breaks(s, e)
  {
    match e
    case Post(id, venues, fault) => PostKeeps(s.table, id, venues, fault);
    case Put(_, _, _) =>
    case Delete(_) =>
    case PutRead(_) =>
    case PutWrite(id, existing, body, fault) => WriteKeepsIff(s.table, id, existing, body, fault);
  }

  lemma {:induction false} GoodBeforeBreak(trace: seq<State>, events: seq<Event>, i: nat)
    requires Run(trace, events) && i < |trace| && forall k | 0 <= k < i :: !Breaks(trace[k], events[k])
    ensures OnePerVenue(trace[i].table) && ReadsReal(trace[i])
  {
    if i > 0 {
      GoodBeforeBreak(trace, events, i - 1);
      assert Enabled(trace[i - 1], events[i - 1]) && trace[i] == Step(trace[i - 1], events[i - 1]);
      StepKeepsIff(trace[i - 1], events[i - 1]);
    }
  }

  lemma {:induction false} GoodHasNoBreak(trace: seq<State>, events: seq<Event>, i: nat)
    requires Run(trace, events) && i < |trace| && forall k | 0 <= k <= i :: OnePerVenue(trace[k].table)
    ensures ReadsReal(trace[i]) && forall k | 0 <= k < i :: !Breaks(trace[k], events[k])
  {
    if i > 0 {
      GoodHasNoBreak(trace, events, i - 1);
      assert Enabled(trace[i - 1], events[i - 1]) && trace[i] == Step(trace[i - 1], events[i - 1]);
      assert OnePerVenue(trace[i - 1].table);
      StepKeepsIff(trace[i - 1], events[i - 1]);
    }
  }

  /** Up to any point of any run, PUTs cut in two by other requests included, each venue has had at most one
      board all along iff no write has collided. */
  lemma RunsKeepOnePerVenueIff(trace: seq<State>, events: seq<Event>, i: nat)
    requires Run(trace, events) && i < |trace|
    ensures (forall k | 0 <= k <= i :: OnePerVenue(trace[k].table)) <==>
              forall k | 0 <= k < i :: !Breaks(trace[k], events[k])
  {
    if forall k | 0 <= k <= i :: OnePerVenue(trace[k].table) { GoodHasNoBreak(trace, events, i); }
    if forall k | 0 <= k < i :: !Breaks(trace[k], events[k]) {
      forall k | 0 <= k <= i ensures OnePerVenue(trace[k].table) { GoodBeforeBreak(trace, events, k); }
    }
  }

  /** In every table reachable by atomic steps each venue has at most one board. */
  lemma AtomicRunsKeepOnePerVenue(trace: seq<State>, events: seq<Event>, i: nat)
    requires Run(trace, events) && (forall e | e in events :: Atomic(e)) && i < |trace|
    ensures OnePerVenue(trace[i].table)
  {
    forall k | 0 <= k < i ensures !Breaks(trace[k], events[k]) { assert events[k] in events; }
    GoodBeforeBreak(trace, events, i);
  }

  /** No post takes an id that was used before, even by a board since deleted. */
  ghost predicate FreshIds(trace: seq<State>, events: seq<Event>)
    requires Run(trace, events)
  {
    forall i | 0 <= i < |events| && events[i].Post? :: events[i].id !in trace[i].used
  }

  /** A pending read agrees with the row it was taken from, for as long as there is one. */
  ghost predicate ReadsCurrent(s: State) {
    && (forall id | id in s.table :: id in s.used)
    && (forall r | r in s.pending :: r.0 in s.used && (r.0 in s.table ==> s.table[r.0].id == r.1.id))
  }

  lemma StepKeepsReads(s: State, e: Event)
    requires ReadsCurrent(s) && Enabled(s, e) && (e.Post? ==> e.id !in s.used)
    ensures ReadsCurrent(Step(s, e))
  {}

  lemma CurrentNeverBreaks(s: State, e: Event)
    requires OnePerVenue(s.table) && ReadsCurrent(s) && Enabled(s, e)
    ensures !Breaks(s, e)
  {}

  /** In particular no write ever collides as long as ids are not reused ... */
  lemma {:induction false} FreshIdsNeverCollide(trace: seq<State>, events: seq<Event>, i: nat)
    requires Run(trace, events) && FreshIds(trace, events) && i < |trace|
    ensures ReadsCurrent(trace[i]) && forall k | 0 <= k < i :: !Breaks(trace[k], events[k])
  {
    if i > 0 {
      var s, e := trace[i - 1], events[i - 1];
      FreshIdsNeverCollide(trace, events, i - 1);
      GoodBeforeBreak(trace, events, i - 1);
      assert Enabled(s, e) && trace[i] == Step(s, e);
      CurrentNeverBreaks(s, e);
      StepKeepsReads(s, e);
    }
  }

  lemma OverlappingRunsKeepOnePerVenue(trace: seq<State>, events: seq<Event>, i: nat)
    requires Run(trace, events) && FreshIds(trace, events) && i < |trace|
    ensures OnePerVenue(trace[i].table)
  {
    FreshIdsNeverCollide(trace, events, i);
    GoodBeforeBreak(trace, events, i);
  }

  /** ... and a reused id can make one collide: board x is read by a PUT, deleted, its venue taken by y, and x
      posted again for another venue before the PUT writes the old venue back. */
  lemma ReusedIdBreaksOnePerVenue(x: string, y: string, v: Venue, w: Venue)
    returns (trace: seq<State>, events: seq<Event>)
    requires x != y && v.id != "" && w.id != "" && v.id != w.id
    ensures Run(trace, events) && !OnePerVenue(trace[|trace| - 1].table)
  {
    events := [Post(x, [v], NoFault), PutRead(x), Delete(x), Post(y, [v], NoFault), Post(x, [w], NoFault),
               PutWrite(x, v, None, NoFault)];
    var s1 := Step(EMPTY, events[0]);
    assert BoardsOf(EMPTY.table, v.id) == {} && s1.table == map[x := v];
    var s2 := Step(s1, events[1]);
    var s3 := Step(s2, events[2]);
    assert s3.table == map[];
    var s4 := Step(s3, events[3]);
    assert BoardsOf(s3.table, v.id) == {} && s4.table == map[y := v];
    var s5 := Step(s4, events[4]);
    assert BoardsOf(s4.table, w.id) == {} && s5.table == map[y := v, x := w];
    var s6 := Step(s5, events[5]);
    assert s6.table[x] == v && s6.table[y] == v;
    trace := [EMPTY, s1, s2, s3, s4, s5, s6];
  }

  // ---- The resolver ----

  datatype VenueRecord = VenueRecord(boardId: string, venueId: string, retention: nat, interval: nat,
                                     monitorSubVenues: bool)
  datatype Resolution = Unknown | Conflict | Resolved(record: VenueRecord)

  ghost function Matching(records: seq<VenueRecord>, venue: string): seq<VenueRecord> {
    if records == [] then [] else
      var n := |records| - 1;
      Matching(records[..n], venue) +
      if records[n].venueId != "" && records[n].venueId == venue then [records[n]] else []
  }

  method ResolveBoardForVenue(venue: string, records: seq<VenueRecord>) returns (r: Resolution)
    ensures r.Unknown? <==> Matching(records, venue) == []
    ensures r.Conflict? <==> |Matching(records, venue)| > 1
    ensures r.Resolved? ==> [r.record] == Matching(records, venue)
  {
    var matching: seq<VenueRecord> := [];
    for i := 0 to |records|
      invariant matching == Matching(records[..i], venue)
    {
      assert records[..i + 1][..i] == records[..i];
      if records[i].venueId != "" && records[i].venueId == venue { matching := matching + [records[i]]; }
    }
    assert records[..|records|] == records;
    if matching == [] { return Unknown; }
    if |matching| > 1 { return Conflict; }
    return Resolved(matching[0]);
  }

  function RecordOf(t: Table, id: string): VenueRecord
    requires id in t
  {
    VenueRecord(id, t[id].id, t[id].retention, t[id].interval, t[id].monitorSubVenues)
  }

  /** FindBoardVenueRecordsByVenue: the rows of a venue in some order, none twice. */
  ghost predicate Selected(t: Table, venue: string, records: seq<VenueRecord>) {
    && (forall r :: r in records <==> exists id :: id in t && t[id].id == venue && r == RecordOf(t, id))
    && (forall i, j | 0 <= i < j < |records| :: records[i] != records[j])
  }

  lemma {:induction false} AllMatch(records: seq<VenueRecord>, venue: string)
    requires venue != "" && forall r | r in records :: r.venueId == venue
    ensures Matching(records, venue) == records
  {
    if records != [] {
      var n := |records| - 1;
      assert records == records[..n] + [records[n]];
      assert records[n] in records;
      AllMatch(records[..n], venue);
    }
  }

  lemma SameRow(t: Table, venue: string, records: seq<VenueRecord>, i: nat, j: nat)
    requires OnePerVenue(t) && Selected(t, venue, records) && i < |records| && j < |records|
    ensures records[i] == records[j]
  {
    assert records[i] in records && records[j] in records;
    var a :| a in t && t[a].id == venue && records[i] == RecordOf(t, a);
    var b :| b in t && t[b].id == venue && records[j] == RecordOf(t, b);
  }

  lemma OneRow(t: Table, venue: string, records: seq<VenueRecord>)
    requires OnePerVenue(t) && Selected(t, venue, records)
    ensures |records| <= 1
  {
    if |records| > 1 { SameRow(t, venue, records, 0, 1); }
  }

  /** Over a table with one board per venue the conflict answer is impossible, and a board is found exactly
      when the venue has one, and it is that board. */
  method Resolve(t: Table, venue: string, records: seq<VenueRecord>) returns (r: Resolution)
    requires OnePerVenue(t) && venue != "" && Selected(t, venue, records)
    ensures !r.Conflict?
    ensures r.Resolved? ==>
              && r.record.boardId in t && t[r.record.boardId].id == venue
              && r.record == RecordOf(t, r.record.boardId)
    ensures r.Resolved? <==> exists id :: id in t && t[id].id == venue
  {
    AllMatch(records, venue);
    OneRow(t, venue, records);
    if id :| id in t && t[id].id == venue { assert RecordOf(t, id) in records; }
    r := ResolveBoardForVenue(venue, records);
    if r.Resolved? { assert r.record in records; }
  }
}
