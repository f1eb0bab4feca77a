/** Splitting a board's points into time slots (src/RESTAPI/RESTAPI_board_timepoint_handler.cpp, NewSort). */
module TimeSlots {
  import opened Orders
  import opened Words

  /** A stored point: the serial of its row, the serial inside its device info, its time, its identity. */
  datatype Point = Point(serial: string, deviceSerial: string, timestamp: nat, id: nat)
  datatype Slot = Slot(first: nat, last: nat)

  predicate PointLess(a: Point, b: Point) {
    if a.deviceSerial != b.deviceSerial then TextLess(a.deviceSerial, b.deviceSerial) else a.timestamp < b.timestamp
  }

  lemma PointLessOrders()
    ensures StrictWeak(PointLess)
  {
    forall a, b | PointLess(a, b) ensures !PointLess(b, a) { TextTrichotomy(a.deviceSerial, b.deviceSerial); }
    forall a, b, c | PointLess(a, c) ensures PointLess(a, b) || PointLess(b, c) {
      TextTrichotomy(a.deviceSerial, b.deviceSerial);
      TextTrichotomy(b.deviceSerial, c.deviceSerial);
      if a.deviceSerial != c.deviceSerial { TextSplits(a.deviceSerial, b.deviceSerial, c.deviceSerial); }
    }
  }

  predicate Covers(s: Slot, t: nat) { s.first <= t <= s.last }

  /** The serial of a row is copied from its device info when it is stored, and times are stored as signed
      64-bit numbers. */
  ghost predicate Stored(q: seq<Point>) {
    forall i | 0 <= i < |q| :: q[i].serial == q[i].deviceSerial && q[i].timestamp < TWO63
  }

  /** Named devices, and no device with two points at one time. */
  ghost predicate Proper(q: seq<Point>) {
    && Stored(q)
    && (forall i | 0 <= i < |q| :: q[i].serial != "")
    && (forall i, j | 0 <= i < j < |q| && q[i].serial == q[j].serial :: q[i].timestamp != q[j].timestamp)
  }

  // ---- Interval discovery ----

  ghost predicate GapAt(q: seq<Point>, i: int) { 0 < i < |q| && q[i - 1].serial == q[i].serial }

  ghost function Gap(q: seq<Point>, i: int): int
    requires GapAt(q, i)
  {
    q[i].timestamp - q[i - 1].timestamp
  }

  /** g is the smallest step between consecutive points of one device among the first n; 0 if there is none. */
  ghost predicate SmallestStep(q: seq<Point>, n: nat, g: nat) {
    && (forall i | GapAt(q, i) && i < n :: g <= Gap(q, i))
    && (g == 0 ==> forall i | 0 < i < n :: !GapAt(q, i))
    && (g > 0 ==> exists i :: GapAt(q, i) && i < n && Gap(q, i) == g)
  }

  /** Where the scan stands after i points. */
  ghost predicate Scanned(q: seq<Point>, i: nat, current: string, start: nat, first: nat, last: nat)
    requires i <= |q|
  {
    && first == FirstOf(q, i) && last == LastOf(q, i)
    && current == (if i == 0 then "" else q[i - 1].serial)
    && (i > 0 ==> start == q[i - 1].timestamp)
  }

  /** The n-th point opens the range: nothing named stands just before it. */
  ghost predicate Opens(q: seq<Point>, n: nat)
    requires 0 < n <= |q|
  {
    n == 1 || q[n - 2].serial == ""
  }

  /** The start of the range after n points. */
  ghost function FirstOf(q: seq<Point>, n: nat): nat
    requires n <= |q|
  {
    if n == 0 then 0 else if Opens(q, n) then q[n - 1].timestamp else FirstOf(q, n - 1)
  }

  /** The end of the range after n points; a point that opens the range does not move it. */
  ghost function LastOf(q: seq<Point>, n: nat): nat
    requires n <= |q|
  {
    if n == 0 then 0 else if Opens(q, n) then LastOf(q, n - 1) else q[n - 1].timestamp
  }

  lemma {:induction false} RangeFits(q: seq<Point>, n: nat)
    requires n <= |q| && Stored(q)
    ensures FirstOf(q, n) < TWO63 && LastOf(q, n) < TWO63
  {
    if n > 0 { RangeFits(q, n - 1); }
  }

  /** Among named devices the range runs from the first point in serial order to the last. */
  lemma {:induction false} RangeOfNamed(q: seq<Point>, n: nat)
    requires 0 < n <= |q| && forall i | 0 <= i < |q| :: q[i].serial != ""
    ensures FirstOf(q, n) == q[0].timestamp && LastOf(q, n) == if n == 1 then 0 else q[n - 1].timestamp
  {
    if n > 1 { RangeOfNamed(q, n - 1); } else { assert LastOf(q, 0) == 0; }
  }

  /** The interval after n points: the running minimum, restarted by a zero step. */
  ghost function IntervalOf(q: seq<Point>, n: nat): nat
    requires n <= |q|
  {
    if n == 0 then 0 else
      var g := IntervalOf(q, n - 1);
      if !GapAt(q, n - 1) || q[n - 1].serial == "" then g else
        var d := (q[n - 1].timestamp - q[n - 2].timestamp) % TWO64;
        if g != 0 && g <= d then g else d
  }

  lemma {:induction false} IntervalFits(q: seq<Point>, n: nat)
    requires n <= |q| && Stored(q) && Sorted(PointLess, q)
    ensures IntervalOf(q, n) < TWO63
  {
    if n > 0 {
      IntervalFits(q, n - 1);
      if GapAt(q, n - 1) { assert !PointLess(q[n - 1], q[n - 2]); }
    }
  }

  lemma {:induction false} IntervalIsSmallestStep(q: seq<Point>, n: nat)
    requires n <= |q| && Proper(q) && Sorted(PointLess, q)
    ensures SmallestStep(q, n, IntervalOf(q, n))
  {
    if n > 0 {
      IntervalIsSmallestStep(q, n - 1);
      NextStep(q, n, IntervalOf(q, n - 1));
      IntervalUnfolds(q, n);
    }
  }

  lemma IntervalUnfolds(q: seq<Point>, n: nat)
    requires 0 < n <= |q| && Proper(q) && Sorted(PointLess, q)
    ensures IntervalOf(q, n) == Smaller(q, n - 1, IntervalOf(q, n - 1))
  {
    if GapAt(q, n - 1) { StepsForward(q, n - 1); }
  }

  method FindInterval(q: seq<Point>) returns (interval: nat, first: nat, last: nat)
    ensures interval == IntervalOf(q, |q|) && first == FirstOf(q, |q|) && last == LastOf(q, |q|)
  {
    var current, start := "", 0;
    interval, first, last := 0, 0, 0;
    for i := 0 to |q|
      invariant interval == IntervalOf(q, i) && Scanned(q, i, current, start, first, last)
    {
      if current == "" {
        start, current, first := q[i].timestamp, q[i].serial, q[i].timestamp;
        continue;
      }
      if current == q[i].serial {
        var step := (q[i].timestamp - start) % TWO64;
        if interval != 0 {
          if step < interval { interval := step; }
        } else {
          interval := step;
        }
        start := q[i].timestamp;
      } else {
        current, start := q[i].serial, q[i].timestamp;
      }
      last := q[i].timestamp;
    }
  }

  lemma StepKept(q: seq<Point>, i: nat, g: nat)
    requires i < |q| && SmallestStep(q, i, g) && !GapAt(q, i)
    ensures SmallestStep(q, i + 1, g)
  {
    if g > 0 { var k :| GapAt(q, k) && k < i && Gap(q, k) == g; }
  }

  lemma StepFound(q: seq<Point>, i: nat, g: nat)
    requires i < |q| && SmallestStep(q, i, g) && GapAt(q, i) && Gap(q, i) > 0
    ensures SmallestStep(q, i + 1, if g != 0 && g <= Gap(q, i) then g else Gap(q, i))
  {
    var h := if g != 0 && g <= Gap(q, i) then g else Gap(q, i);
    if h == g { var k :| GapAt(q, k) && k < i && Gap(q, k) == g; }
  }

  lemma StepsForward(q: seq<Point>, i: nat)
    requires Proper(q) && Sorted(PointLess, q) && GapAt(q, i)
    ensures 0 < Gap(q, i) == (q[i].timestamp - q[i - 1].timestamp) % TWO64
  {
    assert !PointLess(q[i], q[i - 1]);
    assert q[i].timestamp < TWO63;
  }

  /** The smaller of a step so far and the one at i. */
  ghost function Smaller(q: seq<Point>, i: int, g: nat): int {
    if !GapAt(q, i) || (g != 0 && g <= Gap(q, i)) then g else Gap(q, i)
  }

  /** How one more point changes the smallest step. */
  lemma NextStep(q: seq<Point>, n: nat, g: nat)
    requires 0 < n <= |q| && Proper(q) && Sorted(PointLess, q) && SmallestStep(q, n - 1, g)
    ensures Smaller(q, n - 1, g) >= 0 && SmallestStep(q, n, Smaller(q, n - 1, g))
  {
    if GapAt(q, n - 1) { StepsForward(q, n - 1); StepFound(q, n - 1, g); } else { StepKept(q, n - 1, g); }
  }

  /** Sorting keeps each device together, in time order. */
  lemma DeviceRun(q: seq<Point>, a: nat, b: nat)
    requires Proper(q) && Sorted(PointLess, q) && a < b < |q| && q[a].serial == q[b].serial
    ensures q[a + 1].serial == q[a].serial && q[a].timestamp < q[a + 1].timestamp <= q[b].timestamp
  {
    TextTrichotomy(q[a].deviceSerial, q[a + 1].deviceSerial);
    assert !PointLess(q[a + 1], q[a]);
    if a + 1 < b { assert !PointLess(q[b], q[a + 1]); }
  }

  /** The interval is the smallest distance between any two points of one device. */
  lemma IntervalIsSmallestDistance(q: seq<Point>, g: nat, a: nat, b: nat)
    requires Proper(q) && Sorted(PointLess, q) && SmallestStep(q, |q|, g)
    requires a < b < |q| && q[a].serial == q[b].serial
    ensures 0 < g <= q[b].timestamp - q[a].timestamp
  {
    DeviceRun(q, a, b);
    assert GapAt(q, a + 1);
  }

  // ---- Slots ----

  /** Consecutive slots of one width, the first starting at `first`. */
  ghost predicate Laid(slots: seq<Slot>, first: nat, width: nat) {
    && (forall i | 0 <= i < |slots| :: slots[i].last == slots[i].first + width - 1)
    && (slots != [] ==> slots[0].first == first)
    && (forall i | 0 < i < |slots| :: Adjoins(slots, i))
  }

  ghost predicate Adjoins(slots: seq<Slot>, i: int)
    requires 0 < i < |slots|
  {
    slots[i].first == slots[i - 1].last + 1
  }

  /** The slot loop ends, and its last slot reaches `last`. */
  method LaySlots(first: nat, last: nat, width: nat) returns (slots: seq<Slot>)
    requires 0 < width && first + width <= TWO64 && last + width <= TWO64
    ensures Laid(slots, first, width)
    ensures slots == [] <==> last == 0
    ensures slots != [] ==> last <= slots[|slots| - 1].last
    ensures forall i | 0 <= i < |slots| - 1 :: slots[i].last < last
  {
    slots := [];
    var start, end := first, 0;
    while end < last
      invariant Laid(slots, first, width)
      invariant slots == [] ==> start == first && end == 0
      invariant slots != [] ==> last > 0
      invariant slots != [] ==> end == slots[|slots| - 1].last && start == end + 1
      invariant forall i | 0 <= i < |slots| - 1 :: slots[i].last < last
      decreases slots == [], last - end
    {
      ghost var before := slots;
      var slot := Slot(start, (start + width - 1) % TWO64);
      assert slot.last == start + width - 1;
      start, end := slot.last + 1, slot.last;
      slots := slots + [slot];
      forall i | 0 < i < |slots| ensures Adjoins(slots, i) { if i < |before| { assert Adjoins(before, i); } }
    }
  }

  lemma {:induction false} SlotsAscend(slots: seq<Slot>, first: nat, width: nat, i: nat, j: nat)
    requires Laid(slots, first, width) && width > 0 && i < j < |slots|
    ensures slots[i].last < slots[j].first
    decreases j
  {
    assert Adjoins(slots, j);
    if i < j - 1 { SlotsAscend(slots, first, width, i, j - 1); }
  }

  lemma {:induction false} SlotFound(slots: seq<Slot>, first: nat, width: nat, t: nat) returns (i: nat)
    requires Laid(slots, first, width) && width > 0 && slots != [] && first <= t <= slots[|slots| - 1].last
    ensures i < |slots| && Covers(slots[i], t)
    decreases |slots|
  {
    var n := |slots| - 1;
    if slots[n].first <= t {
      i := n;
    } else {
      assert Adjoins(slots, n);
      forall k | 0 < k < n ensures Adjoins(slots[..n], k) { assert Adjoins(slots, k); }
      i := SlotFound(slots[..n], first, width, t);
    }
  }

  // ---- Buckets ----

  ghost function In(q: seq<Point>, s: Slot): seq<Point> {
    if q == [] then [] else
      var n := |q| - 1;
      In(q[..n], s) + if Covers(s, q[n].timestamp) then [q[n]] else []
  }

  method FillBuckets(q: seq<Point>, slots: seq<Slot>) returns (buckets: seq<seq<Point>>)
    ensures |buckets| == |slots| && forall i | 0 <= i < |slots| :: buckets[i] == In(q, slots[i])
  {
    buckets := seq(|slots|, _ => []);
    for i := 0 to |q|
      invariant |buckets| == |slots| && forall k | 0 <= k < |slots| :: buckets[k] == In(q[..i], slots[k])
    {
      assert q[..i + 1][..i] == q[..i];
      for k := 0 to |slots|
        invariant |buckets| == |slots|
        invariant forall m | 0 <= m < |slots| :: buckets[m] == In(q[..if m < k then i + 1 else i], slots[m])
      {
        if Covers(slots[k], q[i].timestamp) { buckets := buckets[k := buckets[k] + [q[i]]]; }
      }
    }
    assert q[..|q|] == q;
  }

  /** Membership in a bucket is position by position. */
  lemma {:induction false} InMembers(q: seq<Point>, s: Slot)
    ensures forall p :: p in In(q, s) <==> p in q && Covers(s, p.timestamp)
    ensures |In(q, s)| <= |q|
  {
    if q != [] {
      var n := |q| - 1;
      assert q == q[..n] + [q[n]];
      InMembers(q[..n], s);
    }
  }

  /** Two positions of a bucket come from two positions of the list. */
  lemma {:induction false} InPositions(q: seq<Point>, s: Slot, a: nat, b: nat) returns (i: nat, j: nat)
    requires a < b < |In(q, s)|
    ensures i < j < |q| && q[i] == In(q, s)[a] && q[j] == In(q, s)[b]
  {
    var n := |q| - 1;
    InMembers(q[..n], s);
    if b < |In(q[..n], s)| {
      i, j := InPositions(q[..n], s, a, b);
    } else {
      InMembers(q[..n], s);
      assert In(q, s)[a] in In(q[..n], s);
      i :| 0 <= i < n && q[..n][i] == In(q, s)[a];
      j := n;
    }
  }

  // ---- The whole split ----

  /** The sorted points, the interval, the first and last times it was measured between, slots, buckets. */
  datatype Split = Split(q: seq<Point>, interval: nat, first: nat, last: nat, slots: seq<Slot>,
                         buckets: seq<seq<Point>>)

  ghost predicate IsSplit(points: seq<Point>, s: Split) {
    && multiset(s.q) == multiset(points) && Sorted(PointLess, s.q)
    && s.interval == IntervalOf(s.q, |s.q|) && s.first == FirstOf(s.q, |s.q|) && s.last == LastOf(s.q, |s.q|)
    && (s.interval == 0 ==> s.slots == [] && s.buckets == [s.q])
    && (s.interval > 0 ==>
          && Laid(s.slots, s.first, s.interval)
          && |s.buckets| == |s.slots| && (forall i | 0 <= i < |s.slots| :: s.buckets[i] == In(s.q, s.slots[i]))
          && (s.slots == [] <==> s.last == 0)
          && (s.slots != [] ==> s.last <= s.slots[|s.slots| - 1].last)
          && (forall i | 0 <= i < |s.slots| - 1 :: s.slots[i].last < s.last))
  }

  /** For proper points the interval is the smallest step of any device, measured from the first point in
      serial order to the last. */
  ghost predicate Measured(s: Split) {
    && Proper(s.q) && SmallestStep(s.q, |s.q|, s.interval)
    && (s.interval > 0 ==> |s.q| > 1 && s.first == s.q[0].timestamp && s.last == s.q[|s.q| - 1].timestamp)
  }

  // ---- The split in plain terms ----

  /** x does not come after y: the earlier serial in dictionary order, or the same and no later time. */
  ghost predicate NotAfter(x: Point, y: Point) {
    ComesFirst(x.deviceSerial, y.deviceSerial) || (x.deviceSerial == y.deviceSerial && x.timestamp <= y.timestamp)
  }

  lemma NotLessIffNotAfter(x: Point, y: Point)
    ensures !PointLess(y, x) <==> NotAfter(x, y)
  {
    TextLessIff(x.deviceSerial, y.deviceSerial);
    TextLessIff(y.deviceSerial, x.deviceSerial);
    TextTrichotomy(x.deviceSerial, y.deviceSerial);
  }

  ghost predicate InSerialOrder(q: seq<Point>) { forall i, j | 0 <= i < j < |q| :: NotAfter(q[i], q[j]) }

  /** t is the earliest time of the device with the least serial. */
  ghost predicate EarliestOfLeast(points: seq<Point>, t: nat) {
    exists p :: p in points && p.timestamp == t && forall r | r in points :: NotAfter(p, r)
  }

  /** t is the latest time of the device with the greatest serial. */
  ghost predicate LatestOfGreatest(points: seq<Point>, t: nat) {
    exists p :: p in points && p.timestamp == t && forall r | r in points :: NotAfter(r, p)
  }

  /** g is the distance of two points of one device, and no two points of one device are closer. */
  ghost predicate ClosestPair(points: seq<Point>, g: nat) {
    && (exists x, y :: x in points && y in points && x.serial == y.serial && y.timestamp - x.timestamp == g)
    && forall x, y | x in points && y in points && x.serial == y.serial && x.timestamp < y.timestamp ::
         g <= y.timestamp - x.timestamp
  }

  /** The order of the points; and for proper points, an interval of zero iff no device has two, and otherwise the
      smallest distance within a device, measured from the first time of the first device to the last of the last. */
  ghost predicate InPlainTerms(points: seq<Point>, s: Split) {
    && InSerialOrder(s.q)
    && (Proper(points) ==>
          if s.interval == 0 then forall x, y | x in points && y in points && x.serial == y.serial :: x == y
          else EarliestOfLeast(points, s.first) && LatestOfGreatest(points, s.last) && ClosestPair(points, s.interval))
  }

  lemma SplitInPlainTerms(points: seq<Point>, s: Split)
    requires IsSplit(points, s) && (Proper(points) ==> Measured(s))
    ensures InPlainTerms(points, s)
  {
    forall i, j | 0 <= i < j < |s.q| ensures NotAfter(s.q[i], s.q[j]) { NotLessIffNotAfter(s.q[i], s.q[j]); }
    SameElements(s.q, points);
    if Proper(points) {
      if s.interval == 0 { NoDeviceTwice(points, s); } else { RangeEnds(points, s); IntervalIsClosestPair(points, s); }
    }
  }

  lemma RangeEnds(points: seq<Point>, s: Split)
    requires InSerialOrder(s.q) && (forall p :: p in s.q <==> p in points) && Measured(s) && s.interval > 0
    ensures EarliestOfLeast(points, s.first) && LatestOfGreatest(points, s.last)
  {
    var q, n := s.q, |s.q| - 1;
    forall r | r in points ensures NotAfter(q[0], r) && NotAfter(r, q[n]) {
      var k :| 0 <= k < |q| && q[k] == r;
      assert (k > 0 ==> NotAfter(q[0], q[k])) && (k < n ==> NotAfter(q[k], q[n]));
    }
    assert q[0] in q && q[n] in q;
  }

  /** Two points of one device stand in the order of their times. */
  lemma PairInOrder(q: seq<Point>, x: Point, y: Point) returns (a: nat, b: nat)
    requires Proper(q) && Sorted(PointLess, q) && x in q && y in q && x.serial == y.serial && x.timestamp < y.timestamp
    ensures a < b < |q| && q[a] == x && q[b] == y
  {
    a :| 0 <= a < |q| && q[a] == x;
    b :| 0 <= b < |q| && q[b] == y;
    if b < a { DeviceOrder(q, b, a); }
  }

  lemma IntervalIsClosestPair(points: seq<Point>, s: Split)
    requires Sorted(PointLess, s.q) && (forall p :: p in s.q <==> p in points) && Measured(s) && s.interval > 0
    ensures ClosestPair(points, s.interval)
  {
    var i :| GapAt(s.q, i) && Gap(s.q, i) == s.interval;
    assert s.q[i - 1] in s.q && s.q[i] in s.q;
    forall x, y | x in points && y in points && x.serial == y.serial && x.timestamp < y.timestamp
      ensures s.interval <= y.timestamp - x.timestamp
    {
      var a, b := PairInOrder(s.q, x, y);
      IntervalIsSmallestDistance(s.q, s.interval, a, b);
    }
  }

  lemma NoDeviceTwice(points: seq<Point>, s: Split)
    requires Sorted(PointLess, s.q) && (forall p :: p in s.q <==> p in points) && Measured(s) && s.interval == 0
    ensures forall x, y | x in points && y in points && x.serial == y.serial :: x == y
  {
    forall x, y | x in points && y in points && x.serial == y.serial ensures x == y {
      var a :| 0 <= a < |s.q| && s.q[a] == x;
      var b :| 0 <= b < |s.q| && s.q[b] == y;
      if a < b { IntervalIsSmallestDistance(s.q, 0, a, b); }
      if b < a { IntervalIsSmallestDistance(s.q, 0, b, a); }
    }
  }

  /** The source hands its caller the buckets alone; the other parts of the split are its locals. */
  method NewSort(points: seq<Point>) returns (s: Split)
    requires Stored(points)
    ensures IsSplit(points, s)
    ensures Proper(points) ==> Measured(s)
    ensures InPlainTerms(points, s)
  {
    PointLessOrders();
    var q := Sort(PointLess, points);
    StoredStays(points, q);
    var interval, first, last := FindInterval(q);
    IntervalFits(q, |q|);
    RangeFits(q, |q|);
    if Proper(q) { IntervalIsSmallestStep(q, |q|); }
    if Proper(q) && interval > 0 { StepHasTwoEnds(q, interval); RangeOfNamed(q, |q|); }
    if interval == 0 {
      s := Split(q, 0, first, last, [], [q]);
    } else {
      var slots := LaySlots(first, last, interval);
      var buckets := FillBuckets(q, slots);
      s := Split(q, interval, first, last, slots, buckets);
    }
    StoredStays(q, points);
    SplitInPlainTerms(points, s);
  }

  lemma StepHasTwoEnds(q: seq<Point>, g: nat)
    requires SmallestStep(q, |q|, g) && g > 0
    ensures |q| > 1
  {
    var i :| GapAt(q, i) && Gap(q, i) == g;
  }

  lemma StoredStays(p: seq<Point>, q: seq<Point>)
    requires Stored(p) && multiset(p) == multiset(q)
    ensures Stored(q) && (Proper(p) ==> Proper(q))
  {
    SameElements(p, q);
    forall i | 0 <= i < |q| ensures q[i].serial == q[i].deviceSerial && q[i].timestamp < TWO63 { assert q[i] in p; }
    if Proper(p) { ProperStays(p, q); }
  }

  lemma ProperStays(p: seq<Point>, q: seq<Point>)
    requires Proper(p) && multiset(p) == multiset(q) && Stored(q)
    ensures Proper(q)
  {
    SameElements(p, q);
    DistinctStays(p, q);
    forall i | 0 <= i < |q| ensures q[i].serial != "" { assert q[i] in p; }
    forall i, j | 0 <= i < j < |q| && q[i].serial == q[j].serial ensures q[i].timestamp != q[j].timestamp {
      assert q[i] in p && q[j] in p;
      var a :| 0 <= a < |p| && p[a] == q[i];
      var b :| 0 <= b < |p| && p[b] == q[j];
      assert a != b;
    }
  }

  /** No bucket holds two points of one device. */
  lemma OnePointPerDevice(points: seq<Point>, s: Split, k: nat, a: nat, b: nat)
    requires IsSplit(points, s) && Measured(s) && s.interval > 0 && k < |s.buckets| && a < b < |s.buckets[k]|
    ensures s.buckets[k][a].serial != s.buckets[k][b].serial
  {
    var slot := s.slots[k];
    var i, j := InPositions(s.q, slot, a, b);
    InMembers(s.q, slot);
    assert s.buckets[k][a] in In(s.q, slot) && s.buckets[k][b] in In(s.q, slot);
    if s.q[i].serial == s.q[j].serial { IntervalIsSmallestDistance(s.q, s.interval, i, j); }
  }

  /** How many whole intervals fit into a span of time. */
  function Steps(span: nat, width: nat): nat
    requires width > 0
  {
    if span < width then 0 else 1 + Steps(span - width, width)
  }

  ghost predicate InRange(s: Split, t: nat) { s.slots != [] && s.first <= t <= s.slots[|s.slots| - 1].last }

  /** The k-th slot covers the times that are k whole intervals after the first. */
  lemma {:induction false} CoversSteps(slots: seq<Slot>, first: nat, width: nat, k: nat, t: nat)
    requires Laid(slots, first, width) && width > 0 && k < |slots|
    ensures slots[k].first >= first && (Covers(slots[k], t) <==> first <= t && Steps(t - first, width) == k)
    decreases k
  {
    if k > 0 {
      assert Adjoins(slots, k);
      CoversSteps(slots, first, width, k - 1, if t >= width then t - width else 0);
    }
  }

  /** Of the range, it covers exactly those. */
  lemma CoversIff(points: seq<Point>, s: Split, k: nat, t: nat)
    requires IsSplit(points, s) && s.interval > 0 && k < |s.slots|
    ensures Covers(s.slots[k], t) <==> InRange(s, t) && Steps(t - s.first, s.interval) == k
  {
    CoversSteps(s.slots, s.first, s.interval, k, t);
    if k < |s.slots| - 1 { SlotsAscend(s.slots, s.first, s.interval, k, |s.slots| - 1); }
  }

  lemma {:induction false} InPlaces(q: seq<Point>, s: Slot, i: nat, j: nat) returns (a: nat, b: nat)
    requires i < j < |q| && Covers(s, q[i].timestamp) && Covers(s, q[j].timestamp)
    ensures a < b < |In(q, s)| && In(q, s)[a] == q[i] && In(q, s)[b] == q[j]
  {
    var n := |q| - 1;
    if j < n {
      a, b := InPlaces(q[..n], s, i, j);
    } else {
      InMembers(q[..n], s);
      assert q[..n][i] in In(q[..n], s);
      a :| 0 <= a < |In(q[..n], s)| && In(q[..n], s)[a] == q[i];
      b := |In(q[..n], s)|;
    }
  }

  /** Some bucket holds two points of one device. */
  ghost predicate Doubled(s: Split) {
    exists k, a, b :: 0 <= k < |s.buckets| && 0 <= a < b < |s.buckets[k]| && SameDevice(s.buckets[k], a, b)
  }

  ghost predicate SameDevice(q: seq<Point>, a: int, b: int) {
    0 <= a < |q| && 0 <= b < |q| && q[a].serial == q[b].serial
  }

  /** Two points of one device in the range fall into one slot. */
  predicate Clash(first: nat, last: nat, interval: nat, x: Point, y: Point) {
    && interval > 0 && x.serial == y.serial && first <= x.timestamp <= last && first <= y.timestamp <= last
    && Steps(x.timestamp - first, interval) == Steps(y.timestamp - first, interval)
  }

  /** For any points, proper or not: no bucket holds two points of one device iff no two points of a device in the
      range are so close that the interval, counted from the first time, puts them together. */
  lemma OnePointPerDeviceIff(points: seq<Point>, s: Split)
    requires IsSplit(points, s) && s.interval > 0 && s.slots != []
    ensures var last := s.slots[|s.slots| - 1].last;
            Doubled(s) <==>
            exists i, j :: 0 <= i < j < |points| && Clash(s.first, last, s.interval, points[i], points[j])
  {
    var last := s.slots[|s.slots| - 1].last;
    var clash := (x, y) => Clash(s.first, last, s.interval, x, y);
    if Doubled(s) {
      var i, j := DoubledClashes(points, s);
      if forall i, j | 0 <= i < j < |points| :: !clash(points[i], points[j]) {
        PairsStay(clash, points, s.q);
        assert false;
      }
    }
    if i, j :| 0 <= i < j < |points| && Clash(s.first, last, s.interval, points[i], points[j]) {
      if forall i, j | 0 <= i < j < |s.q| :: !clash(s.q[i], s.q[j]) {
        PairsStay(clash, s.q, points);
        assert false;
      }
      var a, b :| 0 <= a < b < |s.q| && clash(s.q[a], s.q[b]);
      ClashDoubles(points, s, a, b);
    }
  }

  lemma DoubledClashes(points: seq<Point>, s: Split) returns (i: nat, j: nat)
    requires IsSplit(points, s) && s.interval > 0 && s.slots != [] && Doubled(s)
    ensures i < j < |s.q| && Clash(s.first, s.slots[|s.slots| - 1].last, s.interval, s.q[i], s.q[j])
  {
    var k, a, b :| 0 <= k < |s.buckets| && 0 <= a < b < |s.buckets[k]| && SameDevice(s.buckets[k], a, b);
    i, j := BucketPair(points, s, k, a, b);
    BucketPoint(points, s, k, a);
    BucketPoint(points, s, k, b);
  }

  lemma BucketPair(points: seq<Point>, s: Split, k: nat, a: nat, b: nat) returns (i: nat, j: nat)
    requires IsSplit(points, s) && s.interval > 0 && k < |s.buckets| && a < b < |s.buckets[k]|
    ensures i < j < |s.q| && s.q[i] == s.buckets[k][a] && s.q[j] == s.buckets[k][b]
  {
    i, j := InPositions(s.q, s.slots[k], a, b);
  }

  /** Every point of a bucket is in the range and falls into its slot. */
  lemma BucketPoint(points: seq<Point>, s: Split, k: nat, a: nat)
    requires IsSplit(points, s) && s.interval > 0 && k < |s.buckets| && a < |s.buckets[k]|
    ensures var t := s.buckets[k][a].timestamp; InRange(s, t) && Steps(t - s.first, s.interval) == k
  {
    InMembers(s.q, s.slots[k]);
    assert s.buckets[k][a] in In(s.q, s.slots[k]);
    CoversIff(points, s, k, s.buckets[k][a].timestamp);
  }

  lemma ClashDoubles(points: seq<Point>, s: Split, i: nat, j: nat)
    requires IsSplit(points, s) && s.interval > 0 && s.slots != [] && i < j < |s.q|
    requires Clash(s.first, s.slots[|s.slots| - 1].last, s.interval, s.q[i], s.q[j])
    ensures Doubled(s)
  {
    var k := SlotFound(s.slots, s.first, s.interval, s.q[i].timestamp);
    CoversIff(points, s, k, s.q[i].timestamp);
    CoversIff(points, s, k, s.q[j].timestamp);
    var a, b := InPlaces(s.q, s.slots[k], i, j);
    assert SameDevice(s.buckets[k], a, b);
  }

  /** In particular two points taken at one time always share their bucket, so the previous result needs a
      device never to report the same time twice. */
  lemma SameTimeSameBucket(points: seq<Point>, s: Split, x: Point, y: Point, k: nat)
    requires IsSplit(points, s) && s.interval > 0 && k < |s.buckets|
    requires x in points && y in points && x.timestamp == y.timestamp
    ensures x in s.buckets[k] <==> y in s.buckets[k]
  {
    SameElements(s.q, points);
    InMembers(s.q, s.slots[k]);
  }

  /** No point is in two buckets. */
  lemma AtMostOneBucket(points: seq<Point>, s: Split, p: Point, i: nat, j: nat)
    requires IsSplit(points, s) && s.interval > 0 && i < j < |s.buckets| && p in s.buckets[i]
    ensures p !in s.buckets[j]
  {
    InMembers(s.q, s.slots[i]);
    InMembers(s.q, s.slots[j]);
    SlotsAscend(s.slots, s.first, s.interval, i, j);
  }

  /** A point is in some bucket iff its time lies between the first slot's start and the last slot's end. */
  lemma BucketedIffInRange(points: seq<Point>, s: Split, p: Point)
    requires IsSplit(points, s) && s.interval > 0 && p in points
    ensures (exists i :: 0 <= i < |s.buckets| && p in s.buckets[i]) <==>
            s.slots != [] && s.slots[0].first <= p.timestamp <= s.slots[|s.slots| - 1].last
  {
    SameElements(s.q, points);
    if s.slots != [] && s.slots[0].first <= p.timestamp <= s.slots[|s.slots| - 1].last {
      var i := SlotFound(s.slots, s.first, s.interval, p.timestamp);
      InMembers(s.q, s.slots[i]);
      assert p in s.buckets[i];
    }
    if i :| 0 <= i < |s.buckets| && p in s.buckets[i] {
      InMembers(s.q, s.slots[i]);
      if i > 0 { SlotsAscend(s.slots, s.first, s.interval, 0, i); }
      if i < |s.slots| - 1 { SlotsAscend(s.slots, s.first, s.interval, i, |s.slots| - 1); }
    }
  }

  /** With one device every point is in a bucket. */
  lemma OneDeviceLosesNothing(points: seq<Point>, s: Split, p: Point)
    requires IsSplit(points, s) && Measured(s) && s.interval > 0 && p in points
    requires forall x, y | x in points && y in points :: x.serial == y.serial
    ensures exists i :: 0 <= i < |s.buckets| && p in s.buckets[i]
  {
    SameElements(s.q, points);
    var q, n := s.q, |s.q| - 1;
    var k :| 0 <= k < |q| && q[k] == p;
    assert q[0] in points && q[n] in points;
    if k > 0 { DeviceOrder(q, 0, k); }
    if k < n { DeviceOrder(q, k, n); }
    DeviceOrder(q, 0, n);
    BucketedIffInRange(points, s, p);
  }

  lemma DeviceOrder(q: seq<Point>, a: nat, b: nat)
    requires Proper(q) && Sorted(PointLess, q) && a < b < |q| && q[a].serial == q[b].serial
    ensures q[a].timestamp < q[b].timestamp
  {
    DeviceRun(q, a, b);
  }
}
