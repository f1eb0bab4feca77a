/** Offline events: their idempotency keys and the table that keeps one row per key (src/APStats.cpp,
    src/storage/storage_device_availability_events.cpp). */
module Availability {
  import opened Wrappers
  import opened Hex
  import opened ApStats

  // ---- Idempotency keys ----

  function Decimal(n: nat): string {
    if n < 10 then [(n + '0' as int) as char] else Decimal(n / 10) + [(n % 10 + '0' as int) as char]
  }

  lemma {:induction false} DecimalInjective(m: nat, n: nat)
    requires Decimal(m) == Decimal(n)
    ensures m == n
  {
    var a, b := Decimal(m), Decimal(n);
    DecimalLast(m); DecimalLast(n);
    if m >= 10 && n >= 10 {
      assert a[..|a| - 1] == Decimal(m / 10) && b[..|b| - 1] == Decimal(n / 10);
      DecimalInjective(m / 10, n / 10);
    }
  }

  lemma DecimalLast(n: nat)
    ensures |Decimal(n)| >= 1 && Decimal(n)[|Decimal(n)| - 1] as int == n % 10 + '0' as int
    ensures n >= 10 ==> |Decimal(n)| >= 2
  {}

  function KeyTail(e: OfflineEvent): string {
    if e.uuid != "" then "offline:uuid:" + e.uuid else "offline:timestamp:" + Decimal(e.time)
  }

  function IdempotencyKey(serial: string, e: OfflineEvent): string { "availability:" + (serial + ":" + KeyTail(e)) }

  lemma KeyText(serial: string, e: OfflineEvent)
    ensures e.uuid != "" ==> IdempotencyKey(serial, e) == "availability:" + serial + ":offline:uuid:" + e.uuid
    ensures e.uuid == "" ==>
              IdempotencyKey(serial, e) == "availability:" + serial + ":offline:timestamp:" + Decimal(e.time)
  {
    Regrouped("availability:", serial, "offline:uuid:", e.uuid);
    Regrouped("availability:", serial, "offline:timestamp:", Decimal(e.time));
    assert ":" + "offline:uuid:" == ":offline:uuid:" && ":" + "offline:timestamp:" == ":offline:timestamp:";
  }

  lemma Regrouped(a: string, b: string, d: string, e: string)
    ensures a + (b + ":" + (d + e)) == a + b + (":" + d) + e
  {}

  lemma {:induction false} ColonSplits(a: string, x: string, b: string, y: string)
    requires ':' !in a && ':' !in b && a + ":" + x == b + ":" + y
    ensures a == b && x == y
    decreases |a|
  {
    var p, q := a + ":" + x, b + ":" + y;
    if a == [] || b == [] {
      assert p[0] == q[0];
      assert a == b;
      assert p[1..] == x && q[1..] == y;
    } else {
      assert a[0] == p[0] == q[0] == b[0];
      assert p[1..] == a[1..] + ":" + x && q[1..] == b[1..] + ":" + y;
      ColonSplits(a[1..], x, b[1..], y);
      assert a == [a[0]] + a[1..] && b == [b[0]] + b[1..];
    }
  }

  lemma TailInjective(d: OfflineEvent, e: OfflineEvent)
    requires KeyTail(d) == KeyTail(e)
    ensures d.uuid == e.uuid && (d.uuid == "" ==> d.time == e.time)
  {
    assert KeyTail(d)[8] == if d.uuid != "" then 'u' else 't';
    assert KeyTail(e)[8] == if e.uuid != "" then 'u' else 't';
    if d.uuid != "" {
      assert KeyTail(d)[13..] == d.uuid && KeyTail(e)[13..] == e.uuid;
    } else {
      assert KeyTail(d)[18..] == Decimal(d.time) && KeyTail(e)[18..] == Decimal(e.time);
      DecimalInjective(d.time, e.time);
    }
  }

  lemma SamePrefix(p: string, x: string, y: string)
    requires p + x == p + y
    ensures x == y
  {
    assert (p + x)[|p|..] == x && (p + y)[|p|..] == y;
  }

  /** Keys of colon-free serials collide only for the same serial, the same kind and the same identifier. */
  lemma KeysCollideOnlyWhenEqual(s: string, d: OfflineEvent, t: string, e: OfflineEvent)
    requires ':' !in s && ':' !in t && IdempotencyKey(s, d) == IdempotencyKey(t, e)
    ensures s == t && d.uuid == e.uuid && (d.uuid == "" ==> d.time == e.time)
  {
    SamePrefix("availability:", s + ":" + KeyTail(d), t + ":" + KeyTail(e));
    ColonSplits(s, KeyTail(d), t, KeyTail(e));
    TailInjective(d, e);
  }

  /** So events of the service's devices share a key only if device, kind and identifier are the same. */
  lemma DeviceKeysCollideOnlyWhenEqual(m: nat, d: OfflineEvent, n: nat, e: OfflineEvent)
    requires m < Pow16(12) && n < Pow16(12) && IdempotencyKey(SerialText(m), d) == IdempotencyKey(SerialText(n), e)
    ensures m == n && d.uuid == e.uuid && (d.uuid == "" ==> d.time == e.time)
  {
    SerialHasNoColon(m);
    SerialHasNoColon(n);
    KeysCollideOnlyWhenEqual(SerialText(m), d, SerialText(n), e);
    SerialTextParses(m);
    SerialTextParses(n);
  }

  lemma SerialHasNoColon(n: nat)
    ensures ':' !in SerialText(n)
  {
    assert forall i | 0 <= i < 12 :: IsLowerHex(SerialText(n)[i]);
  }

  // ---- The table ----

  datatype Row = Row(board: string, serial: string, event: OfflineEvent)

  /** Rows by idempotency key, which a unique index covers. */
  type Rows = map<string, Row>

  function KeyOf(r: Row): string { IdempotencyKey(r.serial, r.event) }

  /** Same device, same kind of identifier, same identifier. */
  predicate SameEvent(a: Row, b: Row) {
    a.serial == b.serial && a.event.uuid == b.event.uuid && (a.event.uuid == "" ==> a.event.time == b.event.time)
  }

  lemma SameKeyIffSameEvent(a: Row, b: Row)
    requires ':' !in a.serial && ':' !in b.serial
    ensures KeyOf(a) == KeyOf(b) <==> SameEvent(a, b)
  {
    if KeyOf(a) == KeyOf(b) { KeysCollideOnlyWhenEqual(a.serial, a.event, b.serial, b.event); }
  }

  /** The new table, and what is reported. */
  function CreatedIfAbsent(rows: Rows, r: Row, fails: bool): (Rows, bool) {
    if KeyOf(r) in rows then (rows, true) else if fails then (rows, false) else (rows[KeyOf(r) := r], true)
  }

  /** A deletion by board, of everything or of what happened before a cutoff, takes the row. */
  predicate Takes(board: string, cutoff: Option<nat>, r: Row) {
    r.board == board && (cutoff.Some? ==> r.event.time < cutoff.value)
  }

  function Without(rows: Rows, board: string, cutoff: Option<nat>): Rows {
    map k | k in rows && !Takes(board, cutoff, rows[k]) :: rows[k]
  }

  /** Deleting for one board, all or before a cutoff, leaves every event of another board and, with a cutoff, every
      event of its own from the cutoff on; nothing changes in what is left, and nothing is added. */
  lemma DeletionTakesOnlyItsOwn(rows: Rows, board: string, cutoff: Option<nat>, key: string)
    ensures key in Without(rows, board, cutoff) <==>
            key in rows && (rows[key].board != board || (cutoff.Some? && cutoff.value <= rows[key].event.time))
    ensures key in Without(rows, board, cutoff) ==> Without(rows, board, cutoff)[key] == rows[key]
  {}

  class DeviceAvailabilityEvents {
    var rows: Rows

    method CreateEventIfAbsent(r: Row, fails: bool) returns (ok: bool)
      modifies this
      ensures (rows, ok) == CreatedIfAbsent(old(rows), r, fails)
    {
      var key := KeyOf(r);
      if key in rows { return true; }
      if !fails {
        rows := rows[key := r];
        return true;
      }
      return key in rows;
    }

    method DeleteExpiredEventsForBoard(board: string, cutoff: nat)
      modifies this
      ensures rows == Without(old(rows), board, Some(cutoff))
    {
      rows := map k | k in rows && !(rows[k].board == board && rows[k].event.time < cutoff) :: rows[k];
    }

    method DeleteEventsForBoard(board: string)
      modifies this
      ensures rows == Without(old(rows), board, None)
    {
      rows := map k | k in rows && rows[k].board != board :: rows[k];
    }

    /** A connection message reaches an access point, and its offline event, if any, the table. */
    method Connection(ap: AP, board: string, serial: string, m: Message, fails: bool)
      requires m.Ping? || m.Disconnection? || m.Capabilities? || m.OtherConnection?
      modifies this, ap
      ensures ap.Abs() == Next(old(ap.Abs()), m)
      ensures Offers(old(ap.Abs()), m) ==>
                rows == CreatedIfAbsent(old(rows), Row(board, serial, EventOf(m)), fails).0
      ensures !Offers(old(ap.Abs()), m) ==> rows == old(rows)
    {
      var offline := ap.UpdateConnection(m);
      if offline.Some? { var ok := CreateEventIfAbsent(Row(board, serial, offline.value), fails); }
    }
  }

  function EventOf(m: Message): OfflineEvent
    requires m.Disconnection? && m.timestamp.Number?
  {
    OfflineEvent(m.timestamp.n, m.uuid)
  }

  // ---- Whole runs of all access points ----

  /** A watcher creates an access point, one gets a message (fails: the insertion would not succeed), or events
      are deleted. */
  datatype Step =
    | Started(board: string, serial: string)
    | Told(board: string, serial: string, message: Message, fails: bool)
    | Deleted(board: string, cutoff: Option<nat>)

  /** The messages an access point has had since it was created. */
  ghost function Heard(steps: seq<Step>, board: string, serial: string): seq<Message> {
    if steps == [] then [] else
      var n := |steps| - 1;
      var before := Heard(steps[..n], board, serial);
      match steps[n]
      case Started(b, s) => if b == board && s == serial then [] else before
      case Told(b, s, m, _) => if b == board && s == serial then before + [m] else before
      case Deleted(_, _) => before
  }

  /** The row step i offers to the table, if any. */
  ghost function Offered(steps: seq<Step>, i: nat): Option<Row>
    requires i < |steps|
  {
    match steps[i]
    case Told(b, s, m, _) =>
      if Offers(After(Heard(steps[..i], b, s)), m) then Some(Row(b, s, EventOf(m))) else None
    case _ => None
  }

  ghost function RowsAfter(steps: seq<Step>): Rows {
    if steps == [] then map[] else
      var n := |steps| - 1;
      var rows := RowsAfter(steps[..n]);
      match steps[n]
      case Started(_, _) => rows
      case Told(_, _, _, fails) =>
        var r := Offered(steps, n);
        if r.Some? then CreatedIfAbsent(rows, r.value, fails).0 else rows
      case Deleted(b, cutoff) => Without(rows, b, cutoff)
  }

  /** Step i adds a row. */
  ghost predicate Records(steps: seq<Step>, i: nat)
    requires i < |steps|
  {
    exists key :: key in RowsAfter(steps[..i + 1]) && key !in RowsAfter(steps[..i])
  }

  lemma OfferedPrefix(steps: seq<Step>, i: nat, n: nat)
    requires i < n <= |steps|
    ensures Offered(steps[..n], i) == Offered(steps, i)
  {
    assert steps[..n][..i] == steps[..i];
  }

  /** An event is offered iff a dated disconnection follows a contact of the access point's open period. */
  lemma OfferedIff(steps: seq<Step>, i: nat)
    requires i < |steps|
    ensures Offered(steps, i).Some? <==>
            && steps[i].Told? && steps[i].message.Disconnection?
            && steps[i].message.timestamp.Number? && steps[i].message.timestamp.n != 0
            && var ms := Heard(steps[..i], steps[i].board, steps[i].serial);
               ContactSince(ms, |ms|)
  {
    if steps[i].Told? {
      var ms := Heard(steps[..i], steps[i].board, steps[i].serial);
      assert ms[..|ms|] == ms;
      FlagsAreHistory(ms, |ms|);
    }
  }

  /** One step of the table. */
  lemma RowsStep(steps: seq<Step>, i: nat)
    requires i < |steps|
    ensures RowsAfter(steps[..i + 1]) ==
            match steps[i]
            case Started(_, _) => RowsAfter(steps[..i])
            case Told(_, _, _, fails) =>
              if Offered(steps, i).Some? then CreatedIfAbsent(RowsAfter(steps[..i]), Offered(steps, i).value, fails).0
              else RowsAfter(steps[..i])
            case Deleted(b, cutoff) => Without(RowsAfter(steps[..i]), b, cutoff)
  {
    assert steps[..i + 1][..i] == steps[..i];
    OfferedPrefix(steps, i, i + 1);
  }

  /** A row is added iff an event is offered whose key is new, and the insertion succeeds. */
  lemma RecordsIffKeyNew(steps: seq<Step>, i: nat)
    requires i < |steps|
    ensures Records(steps, i) <==>
            Offered(steps, i).Some? && !steps[i].fails && KeyOf(Offered(steps, i).value) !in RowsAfter(steps[..i])
  {
    RowsStep(steps, i);
  }

  /** Step k added row r and no deletion before step n has taken it. */
  ghost predicate Survives(steps: seq<Step>, k: nat, n: nat) {
    && k < n <= |steps| && Offered(steps, k).Some? && Records(steps, k)
    && forall j | k < j < n && steps[j].Deleted? :: !Takes(steps[j].board, steps[j].cutoff, Offered(steps, k).value)
  }

  /** A row stays as it is until a deletion takes it. */
  lemma RowStays(steps: seq<Step>, i: nat, key: string)
    requires i < |steps| && key in RowsAfter(steps[..i])
    ensures var r := RowsAfter(steps[..i])[key];
            if steps[i].Deleted? && Takes(steps[i].board, steps[i].cutoff, r) then key !in RowsAfter(steps[..i + 1])
            else key in RowsAfter(steps[..i + 1]) && RowsAfter(steps[..i + 1])[key] == r
  {
    RowsStep(steps, i);
  }

  /** A new key is that of the event offered. */
  lemma RowArrives(steps: seq<Step>, i: nat, key: string)
    requires i < |steps| && key in RowsAfter(steps[..i + 1]) && key !in RowsAfter(steps[..i])
    ensures Records(steps, i) && Offered(steps, i).Some? && KeyOf(Offered(steps, i).value) == key
    ensures RowsAfter(steps[..i + 1])[key] == Offered(steps, i).value
  {
    RowsStep(steps, i);
  }

  lemma RecordedArrives(steps: seq<Step>, i: nat)
    requires i < |steps| && Offered(steps, i).Some? && Records(steps, i)
    ensures var r := Offered(steps, i).value;
            KeyOf(r) in RowsAfter(steps[..i + 1]) && RowsAfter(steps[..i + 1])[KeyOf(r)] == r
  {
    var key :| key in RowsAfter(steps[..i + 1]) && key !in RowsAfter(steps[..i]);
    RowArrives(steps, i, key);
  }

  lemma SurvivesLonger(steps: seq<Step>, k: nat, n: nat)
    requires k < n - 1 < |steps|
    ensures Survives(steps, k, n) <==>
            && Survives(steps, k, n - 1)
            && !(steps[n - 1].Deleted? && Takes(steps[n - 1].board, steps[n - 1].cutoff, Offered(steps, k).value))
  {}

  lemma HeldOn(steps: seq<Step>, k: nat, n: nat, key: string)
    requires k < n - 1 && Survives(steps, k, n - 1) && n <= |steps|
    requires key in RowsAfter(steps[..n - 1]) && RowsAfter(steps[..n - 1])[key] == Offered(steps, k).value
    requires key in RowsAfter(steps[..n])
    ensures Survives(steps, k, n) && RowsAfter(steps[..n])[key] == Offered(steps, k).value
  {
    RowStays(steps, n - 1, key);
    SurvivesLonger(steps, k, n);
  }

  /** Every row of the table was added by a step and has not been deleted since. */
  lemma {:induction false} HeldWasRecorded(steps: seq<Step>, n: nat, key: string) returns (k: nat)
    requires n <= |steps| && key in RowsAfter(steps[..n])
    ensures Survives(steps, k, n) && Offered(steps, k).value == RowsAfter(steps[..n])[key]
    ensures KeyOf(RowsAfter(steps[..n])[key]) == key
  {
    assert n > 0;
    if key in RowsAfter(steps[..n - 1]) {
      k := HeldWasRecorded(steps, n - 1, key);
      HeldOn(steps, k, n, key);
    } else {
      k := n - 1;
      RowArrives(steps, k, key);
    }
  }

  lemma SurvivorStays(steps: seq<Step>, k: nat, n: nat)
    requires k < n - 1 && Survives(steps, k, n)
    requires var r := Offered(steps, k).value;
             KeyOf(r) in RowsAfter(steps[..n - 1]) && RowsAfter(steps[..n - 1])[KeyOf(r)] == r
    ensures var r := Offered(steps, k).value;
            KeyOf(r) in RowsAfter(steps[..n]) && RowsAfter(steps[..n])[KeyOf(r)] == r
  {
    RowStays(steps, n - 1, KeyOf(Offered(steps, k).value));
  }

  /** Every row added and not deleted since is in the table, under its key. */
  lemma {:induction false} RecordedIsHeld(steps: seq<Step>, k: nat, n: nat)
    requires Survives(steps, k, n)
    ensures KeyOf(Offered(steps, k).value) in RowsAfter(steps[..n])
    ensures RowsAfter(steps[..n])[KeyOf(Offered(steps, k).value)] == Offered(steps, k).value
  {
    if k == n - 1 {
      RecordedArrives(steps, k);
    } else {
      SurvivesLonger(steps, k, n);
      RecordedIsHeld(steps, k, n - 1);
      SurvivorStays(steps, k, n);
    }
  }

  /** Device serials have no colon. */
  ghost predicate PlainSerials(steps: seq<Step>) {
    forall i | 0 <= i < |steps| && steps[i].Told? :: ':' !in steps[i].serial
  }

  /** Over every run of all access points and all deletions: an offered event is recorded iff the insertion
      succeeds and no event of the same device, kind and identifier is still on record. */
  lemma RecordedIffNew(steps: seq<Step>, i: nat)
    requires i < |steps| && PlainSerials(steps) && Offered(steps, i).Some?
    ensures Records(steps, i) <==>
            && !steps[i].fails
            && forall k | Survives(steps, k, i) :: !SameEvent(Offered(steps, k).value, Offered(steps, i).value)
  {
    var r := Offered(steps, i).value;
    RecordsIffKeyNew(steps, i);
    if KeyOf(r) in RowsAfter(steps[..i]) {
      var k := HeldWasRecorded(steps, i, KeyOf(r));
      SameKeyIffSameEvent(Offered(steps, k).value, r);
    }
    forall k | Survives(steps, k, i) && SameEvent(Offered(steps, k).value, r)
      ensures KeyOf(r) in RowsAfter(steps[..i])
    {
      RecordedIsHeld(steps, k, i);
      SameKeyIffSameEvent(Offered(steps, k).value, r);
    }
  }

  /** The table never holds two rows for one event. */
  lemma OneRowPerEvent(steps: seq<Step>, n: nat, a: string, b: string)
    requires n <= |steps| && PlainSerials(steps) && a in RowsAfter(steps[..n]) && b in RowsAfter(steps[..n])
    ensures a == b <==> SameEvent(RowsAfter(steps[..n])[a], RowsAfter(steps[..n])[b])
  {
    var j := HeldWasRecorded(steps, n, a);
    var k := HeldWasRecorded(steps, n, b);
    SameKeyIffSameEvent(RowsAfter(steps[..n])[a], RowsAfter(steps[..n])[b]);
  }

  /** With nothing deleted and no failed insertion, an event is recorded iff it is the first of its device, kind
      and identifier to be offered. */
  lemma RecordedIffFirst(steps: seq<Step>, i: nat)
    requires i < |steps| && PlainSerials(steps) && Offered(steps, i).Some?
    requires forall j | 0 <= j <= i :: !steps[j].Deleted? && (steps[j].Told? ==> !steps[j].fails)
    ensures Records(steps, i) <==>
            forall j | 0 <= j < i && Offered(steps, j).Some? ::
              !SameEvent(Offered(steps, j).value, Offered(steps, i).value)
  {
    RecordedIffNew(steps, i);
    forall j | 0 <= j < i && Offered(steps, j).Some? && SameEvent(Offered(steps, j).value, Offered(steps, i).value)
      ensures !Records(steps, i)
    {
      var k := FirstOffer(steps, j);
      assert Survives(steps, k, i);
    }
  }

  lemma {:induction false} FirstOffer(steps: seq<Step>, j: nat) returns (k: nat)
    requires j < |steps| && PlainSerials(steps) && Offered(steps, j).Some?
    requires forall i | 0 <= i <= j :: !steps[i].Deleted? && (steps[i].Told? ==> !steps[i].fails)
    ensures k <= j && Offered(steps, k).Some? && Records(steps, k)
    ensures SameEvent(Offered(steps, k).value, Offered(steps, j).value)
  {
    RecordedIffNew(steps, j);
    if Records(steps, j) { k := j; } else {
      k :| Survives(steps, k, j) && SameEvent(Offered(steps, k).value, Offered(steps, j).value);
    }
  }

  lemma NothingDeletedBetween(steps: seq<Step>, k: nat, j: nat, i: nat)
    requires Survives(steps, k, j) && j <= i <= |steps| && forall l | j <= l < i :: !steps[l].Deleted?
    ensures Survives(steps, k, i)
  {}

  /** An event offered again, with no deletion in between, is not recorded again. */
  lemma RepeatIsDropped(steps: seq<Step>, j: nat, i: nat)
    requires j < i < |steps| && PlainSerials(steps) && Offered(steps, j).Some? && Offered(steps, i).Some?
    requires SameEvent(Offered(steps, j).value, Offered(steps, i).value) && !steps[j].fails
    requires forall l | j <= l < i :: !steps[l].Deleted?
    ensures !Records(steps, i)
  {
    RecordedIffNew(steps, i);
    RecordedIffNew(steps, j);
    if Records(steps, j) {
      assert Survives(steps, j, j + 1);
      NothingDeletedBetween(steps, j, j + 1, i);
    } else {
      var k :| Survives(steps, k, j) && SameEvent(Offered(steps, k).value, Offered(steps, j).value);
      NothingDeletedBetween(steps, k, j, i);
    }
  }

  /** So a disconnection that repeats the uuid of an event on record is offered after any contact, but adds
      nothing. */
  lemma RepeatedUuidIsDropped(steps: seq<Step>, board: string, serial: string, uuid: string, t: nat, u: nat)
    requires PlainSerials(steps) && ':' !in serial && uuid != "" && t != 0 && u != 0
    ensures var again := Repeated(steps, board, serial, uuid, t, u);
            Offered(again, |steps| + 1).Some? && Offered(again, |steps| + 3).Some? && !Records(again, |steps| + 3)
  {
    var again, n := Repeated(steps, board, serial, uuid, t, u), |steps|;
    PingThenOff(again, n);
    PingThenOff(again, n + 2);
    RepeatIsDropped(again, n + 1, n + 3);
  }

  /** A ping, a disconnection at t, another ping, and a disconnection at u under the same uuid. */
  ghost function Repeated(steps: seq<Step>, board: string, serial: string, uuid: string, t: nat, u: nat): seq<Step> {
    steps + [Told(board, serial, Ping, false), Told(board, serial, Disconnection(Number(t), uuid), false),
             Told(board, serial, Ping, false), Told(board, serial, Disconnection(Number(u), uuid), false)]
  }

  lemma PingThenOff(steps: seq<Step>, i: nat)
    requires i + 1 < |steps| && steps[i].Told? && steps[i + 1].Told?
    requires steps[i].board == steps[i + 1].board && steps[i].serial == steps[i + 1].serial && steps[i].message.Ping?
    requires steps[i + 1].message.Disconnection?
    requires steps[i + 1].message.timestamp.Number? && steps[i + 1].message.timestamp.n != 0
    ensures Offered(steps, i + 1) == Some(Row(steps[i].board, steps[i].serial, EventOf(steps[i + 1].message)))
  {
    var b, s := steps[i].board, steps[i].serial;
    assert steps[..i + 1][..i] == steps[..i];
    var ms := Heard(steps[..i + 1], b, s);
    assert ms == Heard(steps[..i], b, s) + [Ping];
    assert SamePeriod(ms, |ms| - 1, |ms|);
    OfferedIff(steps, i + 1);
  }
}
