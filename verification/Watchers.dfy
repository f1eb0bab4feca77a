/** Watchers and receivers as the objects the service runs (src/VenueWatcher.h, src/VenueWatcher.cpp,
    src/StateReceiver.cpp, src/DeviceStatusReceiver.cpp, src/HealthReceiver.cpp). Each method that holds
    a lock is one atomic step. */
module Watchers {
  import opened Wrappers
  import opened Orders
  import opened Registries
  import opened ApStats

  /** A queued VenueMessage: the device it is about and what it says. */
  datatype Posted = Posted(serial: nat, payload: Message)

  /** std::sort, std::unique and erase. */
  method SortUnique(s: seq<nat>) returns (q: seq<nat>)
    ensures Increasing(q) && Elements(q) == Elements(s)
  {
    NatLessTotal({});
    var sorted := Sort(NatLess, s);
    SameElements(sorted, s);
    q := [];
    for i := 0 to |sorted|
      invariant Increasing(q) && forall x :: x in q <==> x in sorted[..i]
      invariant q != [] ==> i > 0 && q[|q| - 1] == sorted[i - 1]
      invariant q == [] ==> i == 0
    {
      assert sorted[..i + 1] == sorted[..i] + [sorted[i]];
      if q == [] || q[|q| - 1] != sorted[i] {
        assert forall j | 0 <= j < |q| :: q[j] <= q[|q| - 1];
        assert i > 0 ==> !NatLess(sorted[i], sorted[i - 1]);
        q := q + [sorted[i]];
      }
    }
    assert sorted[..|sorted|] == sorted;
  }

  class StateReceiver {
    var notifiers: map<nat, seq<VenueWatcher>>

    constructor ()
      ensures notifiers == map[]
    {
      notifiers := map[];
    }

    method Register(serial: nat, w: VenueWatcher)
      modifies this
      ensures notifiers == Registries.Register(old(notifiers), serial, w)
    {
      if serial !in notifiers {
        assert Enrolled(notifiers, serial) + [w] == [w];
        notifiers := notifiers[serial := [w]];
      } else {
        notifiers := notifiers[serial := notifiers[serial] + [w]];
      }
    }

    method DeRegister(serial: nat, w: VenueWatcher)
      modifies this
      ensures notifiers == Registries.DeRegister(old(notifiers), serial, w)
    {
      if serial !in notifiers { return; }
      var q := notifiers[serial];
      for i := 0 to |q|
        invariant notifiers == old(notifiers) && RemoveFirst(q, w) == q[..i] + RemoveFirst(q[i..], w)
      {
        assert q[i..] == [q[i]] + q[i + 1..];
        if q[i] == w {
          notifiers := notifiers[serial := q[..i] + q[i + 1..]];
          return;
        }
        assert q[..i + 1] == q[..i] + [q[i]];
      }
      assert q[..|q|] == q && RemoveFirst(q, w) == q;
      assert notifiers == notifiers[serial := q];
    }

    /** The fan-out of one state message to everybody enrolled under its serial. */
    method Publish(serial: nat, payload: Message)
      modifies (set v | v in Enrolled(notifiers, serial))`queue
      ensures forall v | v in Enrolled(notifiers, serial) ::
                v.queue == old(v.queue) + Copies(Posted(serial, payload), multiset(Enrolled(notifiers, serial))[v])
    {
      if serial !in notifiers { return; }
      var q := notifiers[serial];
      for i := 0 to |q|
        invariant forall v | v in q :: v.queue == old(v.queue) + Copies(Posted(serial, payload), multiset(q[..i])[v])
      {
        assert q[..i + 1] == q[..i] + [q[i]];
        q[i].Post(serial, payload);
      }
      assert q[..|q|] == q;
    }
  }

  function Copies(p: Posted, n: nat): seq<Posted> {
    if n == 0 then [] else Copies(p, n - 1) + [p]
  }

  /** DeviceStatusReceiver and HealthReceiver have this one shape: a set of serials per watcher. */
  class PerWatcherReceiver {
    var notifiers: map<VenueWatcher, set<nat>>

    constructor ()
      ensures notifiers == map[]
    {
      notifiers := map[];
    }

    method Register(serials: seq<nat>, w: VenueWatcher)
      modifies this
      ensures notifiers == old(notifiers)[w := Elements(serials)]
    {
      notifiers := notifiers[w := set x | x in serials];
    }

    method DeRegister(w: VenueWatcher)
      modifies this
      ensures notifiers == old(notifiers) - {w}
    {
      notifiers := notifiers - {w};
    }

    /** First match in the map's order, whatever that order is: at most one watcher is told, and only one
        that registered the device; somebody is told iff somebody registered it. */
    method Deliver(serial: nat, payload: Message) returns (told: Option<VenueWatcher>)
      modifies notifiers.Keys`queue
      ensures told.Some? <==> exists v :: v in notifiers && serial in notifiers[v]
      ensures told.Some? ==> told.value in notifiers && serial in notifiers[told.value]
      ensures forall v | v in notifiers ::
                v.queue == old(v.queue) + if told == Some(v) then [Posted(serial, payload)] else []
    {
      var todo := notifiers.Keys;
      while todo != {}
        invariant todo <= notifiers.Keys
        invariant forall v | v in notifiers.Keys - todo :: serial !in notifiers[v]
        invariant forall v | v in notifiers :: v.queue == old(v.queue)
        decreases todo
      {
        var v :| v in todo;
        if serial in notifiers[v] {
          v.Post(serial, payload);
          return Some(v);
        }
        todo := todo - {v};
      }
      return None;
    }
  }

  class VenueWatcher {
    const boardId: string
    var serialNumbers: seq<nat>
    var aps: map<nat, AP>
    var queue: seq<Posted>

    constructor (boardId: string, serials: seq<nat>)
      ensures this.boardId == boardId && Increasing(serialNumbers) && Elements(serialNumbers) == Elements(serials)
      ensures aps == map[] && queue == []
    {
      var q := SortUnique(serials);
      this.boardId := boardId;
      serialNumbers, aps, queue := q, map[], [];
    }

    method Post(serial: nat, payload: Message)
      modifies this`queue
      ensures queue == old(queue) + [Posted(serial, payload)]
    {
      queue := queue + [Posted(serial, payload)];
    }

    method Start(states: StateReceiver, status: PerWatcherReceiver, health: PerWatcherReceiver,
                 ghost live: set<VenueWatcher>)
      requires status != health && Agree(states, status, health, live) && this !in live && Increasing(serialNumbers)
      requires aps == map[]
      modifies this, states, status, health
      ensures Agree(states, status, health, live + {this})
      ensures serialNumbers == old(serialNumbers) && queue == old(queue)
      ensures forall s | s in aps :: fresh(aps[s]) && aps[s].Abs() == FRESH
      ensures Hub(states.notifiers, status.notifiers, health.notifiers)
           == StartHub(old(Hub(states.notifiers, status.notifiers, health.notifiers)), this, serialNumbers)
    {
      ghost var hub := Hub(states.notifiers, status.notifiers, health.notifiers);
      ghost var serials := Serials(live);
      Subscribe(states, status, health);
      assert Serials(live + {this}) == serials[this := serialNumbers];
      StartKeeps(hub, serials, this, serialNumbers);
    }

    method Subscribe(states: StateReceiver, status: PerWatcherReceiver, health: PerWatcherReceiver)
      requires status != health && aps == map[]
      modifies this`aps, states, status, health
      ensures aps.Keys == Elements(serialNumbers) && DistinctAps()
      ensures forall s | s in aps :: fresh(aps[s]) && aps[s].Abs() == FRESH
      ensures Hub(states.notifiers, status.notifiers, health.notifiers)
           == StartHub(old(Hub(states.notifiers, status.notifiers, health.notifiers)), this, serialNumbers)
    {
      CreateAps();
      RegisterSerials(states);
      status.Register(serialNumbers, this);
      health.Register(serialNumbers, this);
    }

    method CreateAps()
      requires aps == map[]
      modifies this`aps
      ensures aps.Keys == Elements(serialNumbers) && DistinctAps()
      ensures forall s | s in aps :: fresh(aps[s]) && aps[s].Abs() == FRESH
    {
      for i := 0 to |serialNumbers|
        invariant aps.Keys == Elements(serialNumbers[..i]) && DistinctAps()
        invariant forall s | s in aps :: fresh(aps[s]) && aps[s].Abs() == FRESH
      {
        var ap := new AP();
        assert serialNumbers[..i + 1] == serialNumbers[..i] + [serialNumbers[i]];
        aps := aps[serialNumbers[i] := ap];
      }
      assert serialNumbers[..|serialNumbers|] == serialNumbers;
    }

    method RegisterSerials(states: StateReceiver)
      modifies states
      ensures states.notifiers == RegisterAll(old(states.notifiers), serialNumbers, this)
    {
      for i := 0 to |serialNumbers|
        invariant states.notifiers == RegisterAll(old(states.notifiers), serialNumbers[..i], this)
      {
        assert serialNumbers[..i + 1][..i] == serialNumbers[..i];
        states.Register(serialNumbers[i], this);
      }
      assert serialNumbers[..|serialNumbers|] == serialNumbers;
    }

    method DeRegisterSerials(states: StateReceiver)
      modifies states
      ensures states.notifiers == DeRegisterAll(old(states.notifiers), serialNumbers, this)
    {
      for i := 0 to |serialNumbers|
        invariant states.notifiers == DeRegisterAll(old(states.notifiers), serialNumbers[..i], this)
      {
        assert serialNumbers[..i + 1][..i] == serialNumbers[..i];
        states.DeRegister(serialNumbers[i], this);
      }
      assert serialNumbers[..|serialNumbers|] == serialNumbers;
    }

    method Stop(states: StateReceiver, status: PerWatcherReceiver, health: PerWatcherReceiver,
                ghost live: set<VenueWatcher>)
      requires status != health && Agree(states, status, health, live) && this in live
      modifies states, status, health
      ensures Agree(states, status, health, live - {this})
      ensures Hub(states.notifiers, status.notifiers, health.notifiers)
           == StopHub(old(Hub(states.notifiers, status.notifiers, health.notifiers)), this, serialNumbers)
    {
      ghost var hub := Hub(states.notifiers, status.notifiers, health.notifiers);
      ghost var serials := Serials(live);
      DeRegisterSerials(states);
      status.DeRegister(this);
      health.DeRegister(this);
      StopKeeps(hub, serials, this);
      assert Serials(live - {this}) == serials - {this};
    }

    /** Kept serials keep their AP object; new ones get a fresh AP. */
    method ModifySerialNumbers(serials: seq<nat>, states: StateReceiver, status: PerWatcherReceiver,
                               health: PerWatcherReceiver, ghost live: set<VenueWatcher>)
      requires status != health && Agree(states, status, health, live) && this in live && Increasing(serials)
      modifies this, states, status, health
      ensures Agree(states, status, health, live)
      ensures serialNumbers == serials && queue == old(queue)
      ensures forall s | s in serials :: s in aps &&
                if s in old(serialNumbers) then aps[s] == old(aps[s]) else fresh(aps[s]) && aps[s].Abs() == FRESH
      ensures Hub(states.notifiers, status.notifiers, health.notifiers)
           == ModifyHub(old(Hub(states.notifiers, status.notifiers, health.notifiers)), this,
                        old(serialNumbers), serials)
    {
      ghost var hub := Hub(states.notifiers, status.notifiers, health.notifiers);
      ghost var before := Serials(live);
      assert Increasing(before[this]);
      Resubscribe(serials, states, status, health);
      assert Serials(live) == before[this := serials];
      ModifyKeeps(hub, before, this, serials);
    }

    method Resubscribe(serials: seq<nat>, states: StateReceiver, status: PerWatcherReceiver, health: PerWatcherReceiver)
      requires status != health && Increasing(serialNumbers) && Increasing(serials)
      requires DistinctAps() && aps.Keys == Elements(serialNumbers)
      modifies this`aps, this`serialNumbers, states, status, health
      ensures serialNumbers == serials && aps.Keys == Elements(serials) && DistinctAps()
      ensures forall s | s in serials ::
                if s in old(serialNumbers) then aps[s] == old(aps[s]) else fresh(aps[s]) && aps[s].Abs() == FRESH
      ensures Hub(states.notifiers, status.notifiers, health.notifiers)
           == ModifyHub(old(Hub(states.notifiers, status.notifiers, health.notifiers)), this,
                        old(serialNumbers), serials)
    {
      ReplaceDevices(serials, states);
      health.Register(serials, this);
      status.Register(serials, this);
      serialNumbers := serials;
    }

    method ReplaceDevices(serials: seq<nat>, states: StateReceiver)
      requires Increasing(serialNumbers) && Increasing(serials) && DistinctAps() && aps.Keys == Elements(serialNumbers)
      modifies this`aps, states
      ensures var left := DeRegisterAll(old(states.notifiers), ToRemove(serialNumbers, serials), this);
              states.notifiers == RegisterAll(left, ToAdd(serialNumbers, serials), this)
      ensures aps.Keys == Elements(serials) && DistinctAps()
      ensures forall s | s in serials ::
                if s in serialNumbers then aps[s] == old(aps[s]) else fresh(aps[s]) && aps[s].Abs() == FRESH
    {
      var diff := SetSymmetricDifference(serialNumbers, serials);
      var toRemove := SetIntersection(serialNumbers, diff);
      var toAdd := SetIntersection(serials, diff);
      ModifyDiff(serialNumbers, serials);
      RemoveDevices(toRemove, states);
      AddDevices(toAdd, states);
    }

    method RemoveDevices(toRemove: seq<nat>, states: StateReceiver)
      requires DistinctAps()
      modifies this`aps, states
      ensures states.notifiers == DeRegisterAll(old(states.notifiers), toRemove, this)
      ensures aps == old(aps) - Elements(toRemove) && DistinctAps()
    {
      for i := 0 to |toRemove|
        invariant states.notifiers == DeRegisterAll(old(states.notifiers), toRemove[..i], this)
        invariant aps == old(aps) - Elements(toRemove[..i]) && DistinctAps()
      {
        assert toRemove[..i + 1][..i] == toRemove[..i];
        assert toRemove[..i + 1] == toRemove[..i] + [toRemove[i]];
        states.DeRegister(toRemove[i], this);
        aps := aps - {toRemove[i]};
      }
      assert toRemove[..|toRemove|] == toRemove;
    }

    method AddDevices(toAdd: seq<nat>, states: StateReceiver)
      requires DistinctAps()
      modifies this`aps, states
      ensures states.notifiers == RegisterAll(old(states.notifiers), toAdd, this)
      ensures aps.Keys == old(aps).Keys + Elements(toAdd) && DistinctAps()
      ensures forall s | s in aps ::
                if s in toAdd then fresh(aps[s]) && aps[s].Abs() == FRESH else s in old(aps) && aps[s] == old(aps)[s]
    {
      for i := 0 to |toAdd|
        invariant states.notifiers == RegisterAll(old(states.notifiers), toAdd[..i], this)
        invariant aps.Keys == old(aps).Keys + Elements(toAdd[..i]) && DistinctAps()
        invariant forall s | s in aps ::
                    if s in toAdd[..i] then fresh(aps[s]) && aps[s].Abs() == FRESH
                    else s in old(aps) && aps[s] == old(aps)[s]
      {
        assert toAdd[..i + 1][..i] == toAdd[..i];
        assert toAdd[..i + 1] == toAdd[..i] + [toAdd[i]];
        states.Register(toAdd[i], this);
        var ap := new AP();
        aps := aps[toAdd[i] := ap];
      }
      assert toAdd[..|toAdd|] == toAdd;
    }

    /** One round of the worker loop: the head of the queue reaches its AP, and only that AP, if the
        device is still watched; otherwise it is dropped. */
    method DispatchOne() returns (saved: Option<Saved>, offline: Option<OfflineEvent>)
      requires queue != [] && DistinctAps()
      modifies this`queue, aps.Values
      ensures queue == old(queue)[1..] && aps == old(aps)
      ensures forall s | s in aps :: aps[s].Abs() ==
                if s == old(queue)[0].serial then Next(old(aps[s].Abs()), old(queue)[0].payload) else old(aps[s].Abs())
      ensures var Posted(s, m) := old(queue)[0];
              saved.Some? <==> s in aps && Saves(old(aps[queue[0].serial].Abs()), m)
      ensures saved.Some? ==>
                var Posted(s, m) := old(queue)[0];
                && saved.value.point == m.point && saved.value.base == old(aps[queue[0].serial].base)
                && DeltasOf(saved.value.base, m.point, saved.value.deltas)
      ensures var Posted(s, m) := old(queue)[0];
              offline.Some? <==> s in aps && Offers(old(aps[queue[0].serial].Abs()), m)
      ensures offline.Some? ==>
                var Posted(s, m) := old(queue)[0]; offline.value == OfflineEvent(m.timestamp.n, m.uuid)
    {
      saved, offline := None, None;
      var msg := queue[0];
      queue := queue[1..];
      if msg.serial in aps {
        var ap := aps[msg.serial];
        assert ap in aps.Values;
        match msg.payload
        case State(p) => saved := ap.UpdateStats(p);
        case Health => ap.UpdateHealth();
        case _ => offline := ap.UpdateConnection(msg.payload);
      }
    }

    ghost predicate DistinctAps()
      reads this
    {
      forall s, t | s in aps && t in aps && s != t :: aps[s] != aps[t]
    }
  }

  ghost function Serials(live: set<VenueWatcher>): map<VenueWatcher, seq<nat>>
    reads live
  {
    map w | w in live :: w.serialNumbers
  }

  /** The registries, the watchers' serial lists and their AP tables all say the same thing. */
  ghost predicate Agree(states: StateReceiver, status: PerWatcherReceiver, health: PerWatcherReceiver,
                        live: set<VenueWatcher>)
    reads states, status, health, live
  {
    && Consistent(Hub(states.notifiers, status.notifiers, health.notifiers), Serials(live))
    && forall w | w in live :: w.aps.Keys == Elements(w.serialNumbers) && w.DistinctAps()
  }

  lemma OwnersEnrolledOnce(states: StateReceiver, status: PerWatcherReceiver, health: PerWatcherReceiver,
                           live: set<VenueWatcher>, serial: nat)
    requires Agree(states, status, health, live)
    ensures forall w: VenueWatcher | w in live ::
              multiset(Enrolled(states.notifiers, serial))[w] == if serial in w.serialNumbers then 1 else 0
  {
    forall w: VenueWatcher | w in live
      ensures multiset(Enrolled(states.notifiers, serial))[w] == if serial in w.serialNumbers then 1 else 0
    {
      EnrolledOnce(Hub(states.notifiers, status.notifiers, health.notifiers), Serials(live), serial, w);
    }
  }

  /** When everything agrees, a state message reaches every owner of the device exactly once and nobody else. */
  method PublishToOwners(serial: nat, payload: Message, states: StateReceiver, status: PerWatcherReceiver,
                         health: PerWatcherReceiver, ghost live: set<VenueWatcher>)
    requires Agree(states, status, health, live)
    modifies (set v | v in Enrolled(states.notifiers, serial))`queue
    ensures Agree(states, status, health, live)
    ensures forall w | w in live ::
              w.queue == old(w.queue) + if serial in w.serialNumbers then [Posted(serial, payload)] else []
  {
    ghost var list := Enrolled(states.notifiers, serial);
    OwnersEnrolledOnce(states, status, health, live, serial);
    CopiesOne(Posted(serial, payload));
    states.Publish(serial, payload);
    assert Serials(live) == old(Serials(live));
    forall w: VenueWatcher | w in live
      ensures w.queue == old(w.queue) + if serial in w.serialNumbers then [Posted(serial, payload)] else []
    {
      assert w in list <==> w in multiset(list);
    }
  }

  lemma CopiesOne(p: Posted)
    ensures Copies(p, 1) == [p]
  {}
}
