/** The three subscription registries as values: who is told about which device
    (src/StateReceiver.cpp, src/DeviceStatusReceiver.cpp, src/HealthReceiver.cpp), and what starting,
    modifying and stopping a watcher does to them (src/VenueWatcher.cpp). */
module Registries {
  import opened Orders

  // ---- The sorted-range algorithms of the standard library ----

  function SetSymmetricDifference(a: seq<nat>, b: seq<nat>): seq<nat>
    decreases |a| + |b|
  {
    if a == [] then b
    else if b == [] then a
    else if a[0] < b[0] then [a[0]] + SetSymmetricDifference(a[1..], b)
    else if b[0] < a[0] then [b[0]] + SetSymmetricDifference(a, b[1..])
    else SetSymmetricDifference(a[1..], b[1..])
  }

  function SetIntersection(a: seq<nat>, b: seq<nat>): seq<nat>
    decreases |a| + |b|
  {
    if a == [] || b == [] then []
    else if a[0] < b[0] then SetIntersection(a[1..], b)
    else if b[0] < a[0] then SetIntersection(a, b[1..])
    else [a[0]] + SetIntersection(a[1..], b[1..])
  }

  lemma Head(a: seq<nat>)
    requires Increasing(a) && a != []
    ensures Increasing(a[1..]) && forall x :: x in a[1..] <==> x in a && x != a[0]
    ensures forall x | x in a[1..] :: a[0] < x
  {
    forall x ensures x in a[1..] <==> x in a && x != a[0] {
      if x in a && x != a[0] { var i :| 0 <= i < |a| && a[i] == x; assert a[1..][i - 1] == x; }
    }
  }

  lemma PrependIncreasing(x: nat, q: seq<nat>)
    requires Increasing(q) && forall y | y in q :: x < y
    ensures Increasing([x] + q)
  {
    forall i, j | 0 <= i < j < |q| + 1 ensures ([x] + q)[i] < ([x] + q)[j] {
      assert ([x] + q)[j] == q[j - 1] && q[j - 1] in q;
    }
  }

  lemma {:induction false} SymmetricDifferenceMeaning(a: seq<nat>, b: seq<nat>)
    requires Increasing(a) && Increasing(b)
    ensures Increasing(SetSymmetricDifference(a, b))
    ensures forall x :: x in SetSymmetricDifference(a, b) <==> ((x in a) != (x in b))
    decreases |a| + |b|
  {
    if a != [] && b != [] {
      Head(a);
      Head(b);
      if a[0] < b[0] {
        SymmetricDifferenceMeaning(a[1..], b);
        PrependIncreasing(a[0], SetSymmetricDifference(a[1..], b));
      } else if b[0] < a[0] {
        SymmetricDifferenceMeaning(a, b[1..]);
        PrependIncreasing(b[0], SetSymmetricDifference(a, b[1..]));
      } else {
        SymmetricDifferenceMeaning(a[1..], b[1..]);
      }
    }
  }

  lemma {:induction false} IntersectionMeaning(a: seq<nat>, b: seq<nat>)
    requires Increasing(a) && Increasing(b)
    ensures Increasing(SetIntersection(a, b))
    ensures forall x :: x in SetIntersection(a, b) <==> x in a && x in b
    decreases |a| + |b|
  {
    if a != [] && b != [] {
      Head(a);
      Head(b);
      if a[0] < b[0] {
        IntersectionMeaning(a[1..], b);
      } else if b[0] < a[0] {
        IntersectionMeaning(a, b[1..]);
      } else {
        IntersectionMeaning(a[1..], b[1..]);
        PrependIncreasing(a[0], SetIntersection(a[1..], b[1..]));
      }
    }
  }

  function ToRemove(before: seq<nat>, after: seq<nat>): seq<nat> {
    SetIntersection(before, SetSymmetricDifference(before, after))
  }

  function ToAdd(before: seq<nat>, after: seq<nat>): seq<nat> {
    SetIntersection(after, SetSymmetricDifference(before, after))
  }

  /** The modify step removes exactly the departed serials and adds exactly the new ones. */
  lemma ModifyDiff(before: seq<nat>, after: seq<nat>)
    requires Increasing(before) && Increasing(after)
    ensures Increasing(ToRemove(before, after)) && Increasing(ToAdd(before, after))
    ensures forall x :: x in ToRemove(before, after) <==> x in before && x !in after
    ensures forall x :: x in ToAdd(before, after) <==> x in after && x !in before
  {
    SymmetricDifferenceMeaning(before, after);
    IntersectionMeaning(before, SetSymmetricDifference(before, after));
    IntersectionMeaning(after, SetSymmetricDifference(before, after));
  }

  // ---- StateReceiver's lists ----

  function Enrolled<W>(n: map<nat, seq<W>>, serial: nat): seq<W> {
    if serial in n then n[serial] else []
  }

  function Register<W>(n: map<nat, seq<W>>, serial: nat, w: W): map<nat, seq<W>> {
    n[serial := Enrolled(n, serial) + [w]]
  }

  function DeRegister<W(==)>(n: map<nat, seq<W>>, serial: nat, w: W): map<nat, seq<W>> {
    if serial in n then n[serial := RemoveFirst(n[serial], w)] else n
  }

  function RegisterAll<W>(n: map<nat, seq<W>>, serials: seq<nat>, w: W): map<nat, seq<W>> {
    if serials == [] then n
    else Register(RegisterAll(n, serials[..|serials| - 1], w), serials[|serials| - 1], w)
  }

  function DeRegisterAll<W(==)>(n: map<nat, seq<W>>, serials: seq<nat>, w: W): map<nat, seq<W>> {
    if serials == [] then n
    else DeRegister(DeRegisterAll(n, serials[..|serials| - 1], w), serials[|serials| - 1], w)
  }

  lemma {:induction false} RegisterAllMeaning<W>(n: map<nat, seq<W>>, serials: seq<nat>, w: W, s: nat)
    requires Increasing(serials)
    ensures Enrolled(RegisterAll(n, serials, w), s) == Enrolled(n, s) + if s in serials then [w] else []
  {
    if serials != [] {
      var k := |serials| - 1;
      assert serials == serials[..k] + [serials[k]];
      RegisterAllMeaning(n, serials[..k], w, s);
    }
  }

  lemma {:induction false} DeRegisterAllMeaning<W>(n: map<nat, seq<W>>, serials: seq<nat>, w: W, s: nat)
    requires Increasing(serials)
    ensures Enrolled(DeRegisterAll(n, serials, w), s) ==
            if s in serials then RemoveFirst(Enrolled(n, s), w) else Enrolled(n, s)
  {
    if serials != [] {
      var k := |serials| - 1;
      assert serials == serials[..k] + [serials[k]];
      DeRegisterAllMeaning(n, serials[..k], w, s);
    }
  }

  // ---- The hub: all three registries ----

  datatype Hub<W> = Hub(state: map<nat, seq<W>>, status: map<W, set<nat>>, health: map<W, set<nat>>)

  ghost function StartHub<W>(h: Hub<W>, w: W, serials: seq<nat>): Hub<W> {
    Hub(RegisterAll(h.state, serials, w), h.status[w := Elements(serials)], h.health[w := Elements(serials)])
  }

  ghost function ModifyHub<W>(h: Hub<W>, w: W, before: seq<nat>, after: seq<nat>): Hub<W> {
    Hub(RegisterAll(DeRegisterAll(h.state, ToRemove(before, after), w), ToAdd(before, after), w),
        h.status[w := Elements(after)], h.health[w := Elements(after)])
  }

  ghost function StopHub<W>(h: Hub<W>, w: W, serials: seq<nat>): Hub<W> {
    Hub(DeRegisterAll(h.state, serials, w), h.status - {w}, h.health - {w})
  }

  ghost function Owners<W>(live: map<W, seq<nat>>, s: nat): set<W> {
    set w | w in live && s in live[w]
  }

  /** Every live watcher is enrolled exactly once under each serial it owns and nowhere else, and its
      entries in the other two registries are its serials; nobody else is anywhere. */
  ghost predicate Consistent<W>(h: Hub<W>, live: map<W, seq<nat>>) {
    && (forall w | w in live :: Increasing(live[w]))
    && (forall s: nat :: multiset(Enrolled(h.state, s)) == multiset(Owners(live, s)))
    && h.status == (map w | w in live :: Elements(live[w]))
    && h.health == (map w | w in live :: Elements(live[w]))
  }

  /** One watcher's serials replaced; every other watcher as before. */
  lemma OwnersChange<W>(live: map<W, seq<nat>>, w: W, serials: seq<nat>, s: nat)
    ensures Owners(live[w := serials], s) == Owners(live, s) - {w} + if s in serials then {w} else {}
    ensures Owners(live - {w}, s) == Owners(live, s) - {w}
    ensures w !in live ==> w !in Owners(live, s)
    ensures w in live ==> (w in Owners(live, s) <==> s in live[w])
  {}

  lemma MultisetOfSet<W>(a: set<W>, w: W)
    ensures multiset(a - {w}) == multiset(a) - multiset{w}
    ensures multiset(a - {w} + {w}) == multiset(a) - multiset{w} + multiset{w}
  {}

  lemma StartAt<W>(n: map<nat, seq<W>>, live: map<W, seq<nat>>, w: W, serials: seq<nat>, s: nat)
    requires w !in live && Increasing(serials) && multiset(Enrolled(n, s)) == multiset(Owners(live, s))
    ensures multiset(Enrolled(RegisterAll(n, serials, w), s)) == multiset(Owners(live[w := serials], s))
  {
    RegisterAllMeaning(n, serials, w, s);
    OwnersChange(live, w, serials, s);
    MultisetOfSet(Owners(live, s), w);
  }

  lemma StopAt<W>(n: map<nat, seq<W>>, live: map<W, seq<nat>>, w: W, s: nat)
    requires w in live && Increasing(live[w]) && multiset(Enrolled(n, s)) == multiset(Owners(live, s))
    ensures multiset(Enrolled(DeRegisterAll(n, live[w], w), s)) == multiset(Owners(live - {w}, s))
  {
    DeRegisterAllMeaning(n, live[w], w, s);
    RemoveFirstMeaning(Enrolled(n, s), w);
    OwnersChange(live, w, [], s);
    MultisetOfSet(Owners(live, s), w);
  }

  lemma ModifyAt<W>(n: map<nat, seq<W>>, live: map<W, seq<nat>>, w: W, serials: seq<nat>, s: nat)
    requires w in live && Increasing(live[w]) && Increasing(serials)
    requires multiset(Enrolled(n, s)) == multiset(Owners(live, s))
    ensures var left := DeRegisterAll(n, ToRemove(live[w], serials), w);
            multiset(Enrolled(RegisterAll(left, ToAdd(live[w], serials), w), s))
            == multiset(Owners(live[w := serials], s))
  {
    var mid := DeRegisterAll(n, ToRemove(live[w], serials), w);
    ModifyDiff(live[w], serials);
    DeRegisterAllMeaning(n, ToRemove(live[w], serials), w, s);
    RemoveFirstMeaning(Enrolled(n, s), w);
    RegisterAllMeaning(mid, ToAdd(live[w], serials), w, s);
    OwnersChange(live, w, serials, s);
    MultisetOfSet(Owners(live, s), w);
  }

  lemma StartKeeps<W>(h: Hub<W>, live: map<W, seq<nat>>, w: W, serials: seq<nat>)
    requires Consistent(h, live) && w !in live && Increasing(serials)
    ensures Consistent(StartHub(h, w, serials), live[w := serials])
  {
    forall s: nat
      ensures multiset(Enrolled(StartHub(h, w, serials).state, s)) == multiset(Owners(live[w := serials], s))
    {
      StartAt(h.state, live, w, serials, s);
    }
  }

  lemma StopKeeps<W>(h: Hub<W>, live: map<W, seq<nat>>, w: W)
    requires Consistent(h, live) && w in live
    ensures Consistent(StopHub(h, w, live[w]), live - {w})
  {
    forall s: nat ensures multiset(Enrolled(StopHub(h, w, live[w]).state, s)) == multiset(Owners(live - {w}, s)) {
      StopAt(h.state, live, w, s);
    }
  }

  lemma ModifyKeeps<W>(h: Hub<W>, live: map<W, seq<nat>>, w: W, serials: seq<nat>)
    requires Consistent(h, live) && w in live && Increasing(serials)
    ensures Consistent(ModifyHub(h, w, live[w], serials), live[w := serials])
  {
    forall s: nat
      ensures multiset(Enrolled(ModifyHub(h, w, live[w], serials).state, s)) == multiset(Owners(live[w := serials], s))
    {
      ModifyAt(h.state, live, w, serials, s);
    }
  }

  // ---- Whole runs ----

  datatype Event<W> = Start(w: W, serials: seq<nat>) | Modify(w: W, serials: seq<nat>) | Stop(w: W)
  datatype System<W> = System(hub: Hub<W>, live: map<W, seq<nat>>)

  /** Start a watcher that is not running; modify or stop one that is. */
  ghost predicate Legal<W>(s: System<W>, e: Event<W>) {
    match e
    case Start(w, serials) => w !in s.live && Increasing(serials)
    case Modify(w, serials) => w in s.live && Increasing(serials)
    case Stop(w) => w in s.live
  }

  ghost function Step<W>(s: System<W>, e: Event<W>): System<W>
    requires Legal(s, e)
  {
    match e
    case Start(w, serials) => System(StartHub(s.hub, w, serials), s.live[w := serials])
    case Modify(w, serials) => System(ModifyHub(s.hub, w, s.live[w], serials), s.live[w := serials])
    case Stop(w) => System(StopHub(s.hub, w, s.live[w]), s.live - {w})
  }

  ghost predicate Run<W>(trace: seq<System<W>>, events: seq<Event<W>>) {
    && |trace| == |events| + 1
    && trace[0] == System(Hub(map[], map[], map[]), map[])
    && forall i | 0 <= i < |events| :: Legal(trace[i], events[i]) && trace[i + 1] == Step(trace[i], events[i])
  }

  /** After every sequence of starts, modifications and stops over any number of watchers the three
      registries agree with the watchers' own serial lists. */
  lemma {:induction false} RunsStayConsistent<W>(trace: seq<System<W>>, events: seq<Event<W>>, i: nat)
    requires Run(trace, events) && i < |trace|
    ensures Consistent(trace[i].hub, trace[i].live)
  {
    if i == 0 {
      forall s: nat ensures Owners(trace[0].live, s) == {} {}
    } else {
      RunsStayConsistent(trace, events, i - 1);
      var s, e := trace[i - 1], events[i - 1];
      assert Legal(s, e) && trace[i] == Step(s, e);
      match e
      case Start(w, serials) => StartKeeps(s.hub, s.live, w, serials);
      case Modify(w, serials) => ModifyKeeps(s.hub, s.live, w, serials);
      case Stop(w) => StopKeeps(s.hub, s.live, w);
    }
  }

  /** In a consistent hub the list for a serial holds each owner once and only owners. */
  lemma EnrolledOnce<W>(h: Hub<W>, live: map<W, seq<nat>>, s: nat, w: W)
    requires Consistent(h, live)
    ensures multiset(Enrolled(h.state, s))[w] == if w in live && s in live[w] then 1 else 0
    ensures w in h.status <==> w in live
    ensures w in live ==> h.status[w] == h.health[w] == Elements(live[w])
  {
    assert w in Owners(live, s) <==> w in live && s in live[w];
  }
}
