/** Boards and their watchers (src/VenueCoordinator.cpp). What the provisioning service answers is a
    parameter of each step. */
module Coordinator {
  import opened Wrappers
  import opened Orders
  import opened Registries
  import opened Watchers
  import Retention

  datatype Board = Board(id: string, venues: seq<string>)

  /** The tables a retirement touches: boards, time points, availability events. */
  datatype Tables = Tables(boards: map<string, Board>, points: set<Retention.Stored>, events: set<Retention.Stored>)

  function Erased(t: Tables, id: string): Tables {
    Tables(t.boards - {id}, set r | r in t.points && r.board != id, set r | r in t.events && r.board != id)
  }

  lemma EraseTwice(t: Tables, id: string)
    ensures Erased(Erased(t, id), id) == Erased(t, id)
  {}

  // ---- What the provisioning service says ----

  /** An HTTP response: 200 with a device list that can or cannot be read, 404, or any other status. */
  datatype Response = Found(devices: Option<seq<nat>>) | Missing | Failed

  /** What a call for a venue's devices returns: whether it succeeded, the devices, and whether the venue exists. */
  datatype Answer = Answer(success: bool, serials: seq<nat>, venueExists: bool)

  /** SDK::Prov::Venue::GetDevices. A missing venue is a success without devices. */
  function GetDevices(r: Response): Answer {
    match r
    case Found(Some(serials)) => Answer(true, serials, true)
    case Found(None) => Answer(false, [], true)
    case Missing => Answer(true, [], false)
    case Failed => Answer(false, [], true)
  }

  /** SDK::Prov::Venue::Exists: whether the call succeeded, and whether the venue exists. */
  function Exists(r: Response): (bool, bool) {
    match r
    case Found(_) => (true, true)
    case Missing => (true, false)
    case Failed => (false, false)
  }

  /** What makes starting or updating a board retire it. */
  predicate AsksToRetire(a: Answer) { !a.success && !a.venueExists }

  /** No answer does: a failure is always one of a venue taken to exist. A missing venue is a success, and the only
      success for one. */
  lemma NoAnswerAsksToRetire(r: Response)
    ensures !AsksToRetire(GetDevices(r))
    ensures !GetDevices(r).venueExists <==> r.Missing?
    ensures r.Missing? ==> GetDevices(r).success && GetDevices(r).serials == []
    // a readable list is handed on as it is; whatever else came is a failure
    ensures forall devices :: r == Found(Some(devices)) ==> GetDevices(r).success && GetDevices(r).serials == devices
    ensures GetDevices(r).success <==> r.Missing? || (r.Found? && r.devices.Some?)
    ensures Exists(r) == (true, false) <==> r.Missing?
    ensures Exists(r) == (true, true) <==> r.Found?
  {}

  lemma NoElements(q: seq<nat>)
    ensures Elements(q) == {} ==> q == []
  {
    if q != [] { assert q[0] in Elements(q); }
  }

  lemma ValuesWithout(m: map<string, VenueWatcher>, k: string)
    requires k in m && forall i | i in m :: m[i].boardId == i
    ensures (m - {k}).Values == m.Values - {m[k]}
  {
    forall v: VenueWatcher | v in m.Values - {m[k]} ensures v in (m - {k}).Values {
      var i :| i in m && m[i] == v;
      assert i in m - {k} && (m - {k})[i] == v;
    }
  }

  lemma ValuesWith<K, V>(m: map<K, V>, k: K, v: V)
    requires k !in m
    ensures m[k := v].Values == m.Values + {v}
  {
    assert m[k := v][k] == v;
    forall u | u in m.Values ensures u in m[k := v].Values { var i :| i in m && m[i] == u; assert m[k := v][i] == u; }
  }

  datatype Event =
    | Visit(b: Board, devices: Response, venue: Response)
    | Update(id: string, devices: Response)
    | Delete(id: string)
    | Retire(b: Board)
    | Store(b: Board)

  class VenueCoordinator {
    const states: StateReceiver
    const status: PerWatcherReceiver
    const health: PerWatcherReceiver
    var watchers: map<string, VenueWatcher>
    var existingBoards: map<string, seq<nat>>
    var tables: Tables
    ghost var started: seq<string>  // board ids in the order they were given a watcher

    /** Each watcher is filed under its own board, and the receivers agree with all of them. */
    ghost predicate Wired()
      reads this`watchers, states, status, health, watchers.Values
    {
      && status != health
      && (forall id | id in watchers :: watchers[id].boardId == id)
      && Agree(states, status, health, watchers.Values)
    }

    /** Every live watcher's serial list is the one on record, sorted and without duplicates. */
    ghost predicate Recorded()
      reads this`watchers, this`existingBoards, watchers.Values
    {
      && (forall id | id in watchers :: id in existingBoards && watchers[id].serialNumbers == existingBoards[id])
      && (forall id | id in existingBoards :: Increasing(existingBoards[id]))
    }

    /** No board id was given a watcher twice. */
    ghost predicate StartedOnce()
      reads this`existingBoards, this`started
    {
      && (forall id :: id in started <==> id in existingBoards)
      && (forall i, j | 0 <= i < j < |started| :: started[i] != started[j])
    }

    ghost predicate Valid()
      reads this`watchers, this`existingBoards, this`started, states, status, health, watchers.Values
    {
      Wired() && Recorded() && StartedOnce()
    }

    constructor (tables: Tables)
      ensures Valid() && watchers == map[] && existingBoards == map[] && this.tables == tables && started == []
    {
      states := new StateReceiver();
      status := new PerWatcherReceiver();
      health := new PerWatcherReceiver();
      watchers, existingBoards, started := map[], map[], [];
      this.tables := tables;
      new;
      assert forall s: nat :: Owners(Serials({}), s) == {};
    }

    predicate Watching(id: string)
      reads this
    {
      id in existingBoards
    }

    method StopBoard(id: string)
      requires Valid()
      modifies this`watchers, states, status, health
      ensures Valid() && watchers == old(watchers) - {id}
    {
      if id !in watchers {
        assert watchers - {id} == watchers;
        return;
      }
      Detach(id);
    }

    method Detach(id: string)
      requires Wired() && id in watchers
      modifies this`watchers, states, status, health
      ensures Wired() && watchers == old(watchers) - {id}
    {
      var w := watchers[id];
      assert w in watchers.Values;
      w.Stop(states, status, health, watchers.Values);
      ValuesWithout(watchers, id);
      watchers := watchers - {id};
    }

    /** The board keeps its place among the existing boards, so it is never started again. */
    method RetireBoard(b: Board)
      requires Valid()
      modifies this`watchers, this`tables, states, status, health
      ensures Valid() && watchers == old(watchers) - {b.id} && tables == Erased(old(tables), b.id)
      // of this board nothing is left, of every other board everything, and nothing is added
      ensures forall j :: j in tables.boards <==> j in old(tables.boards) && j != b.id
      ensures forall j | j in tables.boards :: tables.boards[j] == old(tables.boards)[j]
      ensures forall r :: r in tables.points <==> r in old(tables.points) && r.board != b.id
      ensures forall r :: r in tables.events <==> r in old(tables.events) && r.board != b.id
    {
      StopBoard(b.id);
      DeleteRows(b.id);
    }

    /** The three deletions, one after the other. */
    method DeleteRows(id: string)
      modifies this`tables
      ensures tables == Erased(old(tables), id)
    {
      tables := tables.(boards := tables.boards - {id});
      tables := tables.(points := set r | r in tables.points && r.board != id);
      tables := tables.(events := set r | r in tables.events && r.board != id);
    }

    /** A DELETE request: the watcher stops, and the row, the points and the events go. */
    method DeleteBoard(id: string) returns (found: bool)
      requires Valid()
      modifies this`watchers, this`tables, states, status, health
      ensures Valid() && found == (id in old(tables.boards))
      ensures watchers == if found then old(watchers) - {id} else old(watchers)
      ensures tables == if found then Erased(old(tables), id) else old(tables)
      ensures found ==> forall j :: j in tables.boards <==> j in old(tables.boards) && j != id
      ensures forall j | j in tables.boards :: tables.boards[j] == old(tables.boards)[j]
      ensures found ==> forall r :: r in tables.points <==> r in old(tables.points) && r.board != id
      ensures found ==> forall r :: r in tables.events <==> r in old(tables.events) && r.board != id
    {
      if id !in tables.boards { return false; }
      StopBoard(id);
      DeleteRows(id);
      return true;
    }

    method GetDevicesForBoard(b: Board, answer: Answer) returns (ok: bool, devices: seq<nat>, venueExists: bool)
      requires Valid()
      modifies this`watchers, this`tables, states, status, health
      ensures Valid()
      ensures ok == answer.success && venueExists == answer.venueExists
      ensures ok ==> Increasing(devices) && Elements(devices) == Elements(answer.serials)
      ensures watchers == if AsksToRetire(answer) then old(watchers) - {b.id} else old(watchers)
      ensures tables == if AsksToRetire(answer) then Erased(old(tables), b.id) else old(tables)
    {
      ok, devices, venueExists := answer.success, [], answer.venueExists;
      if ok {
        devices := SortUnique(answer.serials);
        return;
      }
      if !venueExists { RetireBoard(b); }
    }

    /** Called for a board that is not on record, with any answer at all. */
    method StartBoard(b: Board, answer: Answer) returns (r: bool)
      requires Valid() && !Watching(b.id)
      modifies this, states, status, health
      ensures Valid() && r == (b.venues == [] || answer.success)
      ensures b.venues == [] || !answer.success ==> existingBoards == old(existingBoards) && started == old(started)
      ensures b.venues != [] && AsksToRetire(answer) ==>
                watchers == old(watchers) - {b.id} && tables == Erased(old(tables), b.id)
      ensures b.venues == [] || (!answer.success && answer.venueExists) ==>
                watchers == old(watchers) && tables == old(tables)
      ensures b.venues != [] && answer.success ==>
                && started == old(started) + [b.id] && tables == old(tables)
                && b.id in watchers && fresh(watchers[b.id]) && watchers == old(watchers)[b.id := watchers[b.id]]
                && existingBoards == old(existingBoards)[b.id := watchers[b.id].serialNumbers]
                && Elements(watchers[b.id].serialNumbers) == Elements(answer.serials)
    {
      if b.venues == [] { return true; }
      var ok, devices, venueExists := GetDevicesForBoard(b, answer);
      if ok {
        Watch(b.id, devices);
        return true;
      }
      if !venueExists { RetireAgain(b, old(tables)); }
      return false;
    }

    /** The second retirement of a board whose venue has gone changes nothing. */
    method RetireAgain(b: Board, ghost before: Tables)
      requires Valid() && b.id !in watchers && tables == Erased(before, b.id)
      modifies this`watchers, this`tables, states, status, health
      ensures Valid() && watchers == old(watchers) && tables == old(tables)
    {
      EraseTwice(before, b.id);
      RetireBoard(b);
      assert old(watchers) - {b.id} == old(watchers);
    }

    method Watch(id: string, devices: seq<nat>)
      requires Valid() && !Watching(id) && Increasing(devices)
      modifies this`existingBoards, this`watchers, this`started, states, status, health
      ensures Valid() && started == old(started) + [id] && existingBoards == old(existingBoards)[id := devices]
      ensures id in watchers && fresh(watchers[id]) && watchers[id].serialNumbers == devices
      ensures watchers == old(watchers)[id := watchers[id]]
    {
      Attach(id, devices);
      existingBoards, started := existingBoards[id := devices], started + [id];
    }

    method Attach(id: string, devices: seq<nat>)
      requires Wired() && id !in watchers && Increasing(devices)
      modifies this`watchers, states, status, health
      ensures Wired() && id in watchers && fresh(watchers[id]) && watchers[id].serialNumbers == devices
      ensures watchers == old(watchers)[id := watchers[id]]
    {
      var w := new VenueWatcher(id, devices);
      IncreasingUnique(w.serialNumbers, devices) by {
        assert forall x: nat :: x in w.serialNumbers <==> x in Elements(w.serialNumbers);
        assert forall x: nat :: x in devices <==> x in Elements(devices);
      }
      w.Start(states, status, health, watchers.Values);
      ValuesWith(watchers, id, w);
      watchers := watchers[id := w];
    }

    /** Reconciling one board with any answer at all. */
    method UpdateBoard(id: string, answer: Answer)
      requires Valid()
      modifies this`existingBoards, this`watchers, this`tables, states, status, health, watchers.Values
      ensures Valid() && started == old(started)
      ensures id !in old(tables.boards) ==>
                watchers == old(watchers) && existingBoards == old(existingBoards) && tables == old(tables)
      ensures id in old(tables.boards) && AsksToRetire(answer) ==>
                var b := old(tables.boards)[id].id; watchers == old(watchers) - {b} && tables == Erased(old(tables), b)
      ensures id in old(tables.boards) && answer.success && id in old(watchers) ==>
                && watchers == old(watchers) && Elements(watchers[id].serialNumbers) == Elements(answer.serials)
      // the record of the board follows, watched or not; no other record changes
      ensures existingBoards.Keys == old(existingBoards).Keys
      ensures id in old(tables.boards) && answer.success && id in existingBoards ==>
                Elements(existingBoards[id]) == Elements(answer.serials)
      ensures forall j | j in existingBoards && (j != id || !answer.success) ::
                existingBoards[j] == old(existingBoards)[j]
      ensures !AsksToRetire(answer) ==> watchers == old(watchers) && tables == old(tables)
      ensures forall j | j in watchers :: j in old(watchers) && watchers[j] == old(watchers)[j]
      ensures forall j | j in watchers && j != id :: watchers[j].serialNumbers == old(watchers[j].serialNumbers)
    {
      if id !in tables.boards { return; }
      var b := tables.boards[id];
      var ok, devices, venueExists := GetDevicesForBoard(b, answer);
      if ok {
        Reconcile(id, devices);
        return;
      }
      if !venueExists { RetireAgain(b, old(tables)); }
    }

    method Reconcile(id: string, devices: seq<nat>)
      requires Valid() && Increasing(devices)
      modifies this`existingBoards, states, status, health, watchers.Values
      ensures Valid() && (id in watchers ==> watchers[id].serialNumbers == devices)
      ensures existingBoards ==
              if id in old(existingBoards) then old(existingBoards)[id := devices] else old(existingBoards)
      ensures forall j | j in watchers && j != id :: watchers[j].serialNumbers == old(watchers[j].serialNumbers)
    {
      if id in existingBoards {
        if existingBoards[id] != devices {
          if id in watchers { Rewatch(id, devices); }
          existingBoards := existingBoards[id := devices];
        }
      }
    }

    method Rewatch(id: string, devices: seq<nat>)
      requires Wired() && id in watchers && Increasing(devices)
      modifies states, status, health, watchers[id]
      ensures Wired() && watchers[id].serialNumbers == devices
      ensures forall j | j in watchers && j != id :: watchers[j].serialNumbers == old(watchers[j].serialNumbers)
    {
      var w := watchers[id];
      assert forall j | j in watchers && j != id :: watchers[j] != w;
      assert w in watchers.Values;
      w.ModifySerialNumbers(devices, states, status, health, watchers.Values);
    }

    /** Updating a board from what the service responds never retires it. A missing venue leaves its watcher, and
        its record, without devices. */
    method UpdateFrom(id: string, devices: Response)
      requires Valid()
      modifies this`existingBoards, this`watchers, this`tables, states, status, health, watchers.Values
      ensures Valid() && started == old(started) && watchers == old(watchers) && tables == old(tables)
      ensures existingBoards.Keys == old(existingBoards).Keys
      ensures forall j | j in existingBoards && j != id :: existingBoards[j] == old(existingBoards)[j]
      ensures id in existingBoards ==>
                if id in tables.boards && GetDevices(devices).success
                then Elements(existingBoards[id]) == Elements(GetDevices(devices).serials)
                else existingBoards[id] == old(existingBoards)[id]
      ensures id in tables.boards && id in watchers && devices.Missing? ==>
                watchers[id].serialNumbers == [] && watchers[id].aps == map[]
    {
      NoAnswerAsksToRetire(devices);
      UpdateBoard(id, GetDevices(devices));
      if id in watchers && id in existingBoards && id in tables.boards && devices.Missing? {
        assert watchers[id] in watchers.Values;
        NoElements(existingBoards[id]);
      }
    }

    /** A round retires the board: it is on record, and the venue lookup succeeds and says gone. */
    predicate Retires(b: Board, venue: Response)
      reads this
    {
      Watching(b.id) && Exists(venue) == (true, false)
    }

    /** One board of one round of the coordinator thread. A board not on record is started, for a missing venue
        with a watcher that has no devices; one on record is retired iff its venue is gone. */
    method VisitBoard(b: Board, devices: Response, venue: Response)
      requires Valid()
      modifies this, states, status, health
      ensures Valid() && old(started) <= started
      ensures forall id | id in watchers :: fresh(watchers[id]) || watchers[id] in old(watchers.Values)
      ensures old(Watching(b.id)) ==> started == old(started) && existingBoards == old(existingBoards)
      ensures old(Watching(b.id)) ==>
                watchers == if old(Retires(b, venue)) then old(watchers) - {b.id} else old(watchers)
      ensures tables == if old(Retires(b, venue)) then Erased(old(tables), b.id) else old(tables)
      ensures old(!Watching(b.id)) && b.venues != [] && GetDevices(devices).success ==>
                && started == old(started) + [b.id] && b.id in watchers && fresh(watchers[b.id])
                && watchers == old(watchers)[b.id := watchers[b.id]]
                && existingBoards == old(existingBoards)[b.id := watchers[b.id].serialNumbers]
                && Elements(watchers[b.id].serialNumbers) == Elements(GetDevices(devices).serials)
      ensures old(!Watching(b.id)) && !(b.venues != [] && GetDevices(devices).success) ==>
                started == old(started) && existingBoards == old(existingBoards) && watchers == old(watchers)
    {
      NoAnswerAsksToRetire(devices);
      if !Watching(b.id) {
        var r := StartBoard(b, GetDevices(devices));
      } else {
        var (answered, known) := Exists(venue);
        if answered && !known { RetireBoard(b); }
      }
    }

    /** A venue that is missing from the first: one round starts a watcher without devices, the next retires the
        board, and no later round gives it a watcher again. */
    method MissingVenueLastsTwoRounds(b: Board, devices: Response, venue: Response)
      requires Valid() && !Watching(b.id) && b.venues != []
      modifies this, states, status, health
      ensures Valid() && Watching(b.id) && b.id !in watchers && existingBoards[b.id] == []
      ensures tables == Erased(old(tables), b.id) && started == old(started) + [b.id]
    {
      VisitBoard(b, Missing, venue);
      NoElements(existingBoards[b.id]);
      VisitBoard(b, devices, Missing);
    }

    method Handle(e: Event)
      requires Valid()
      modifies this, states, status, health, watchers.Values
      ensures Valid() && old(started) <= started
      ensures forall id | id in watchers :: fresh(watchers[id]) || watchers[id] in old(watchers.Values)
      // of rounds and updates, exactly those rounds retire that meet a recorded board whose venue is gone
      ensures e.Visit? ==> tables == if old(Retires(e.b, e.venue)) then Erased(old(tables), e.b.id) else old(tables)
      ensures e.Update? ==> tables == old(tables)
      ensures e.Visit? || e.Update? ==>
                forall id | id in old(watchers) ::
                  id !in watchers <==> e.Visit? && e.b.id == id && old(Retires(e.b, e.venue))
    {
      match e
      case Visit(b, devices, venue) => VisitBoard(b, devices, venue);
      case Update(id, devices) => UpdateFrom(id, devices);
      case Delete(id) => { var found := DeleteBoard(id); }
      case Retire(b) => RetireBoard(b);
      case Store(b) => tables := tables.(boards := tables.boards[b.id := b]);
    }

    /** Any history of the coordinator: rounds of its thread, deletions, updates, retirements, with board rows
        stored or edited in between, under ids old or new. The conjuncts of Valid hold after every step, so no
        board id is ever given a second watcher. */
    method Drive(events: seq<Event>)
      requires Valid()
      modifies this, states, status, health, watchers.Values
      ensures Valid() && old(started) <= started
    {
      for i := 0 to |events|
        invariant Valid() && old(started) <= started
        invariant forall id | id in watchers :: fresh(watchers[id]) || watchers[id] in old(watchers.Values)
      {
        Handle(events[i]);
      }
    }

    /** Retiring a board twice is the same as retiring it once. */
    method RetireTwice(b: Board)
      requires Valid()
      modifies this`watchers, this`tables, states, status, health
      ensures Valid() && watchers == old(watchers) - {b.id} && tables == Erased(old(tables), b.id)
    {
      EraseTwice(tables, b.id);
      RetireBoard(b);
      RetireBoard(b);
    }
  }
}
