/** The gateway memory summary (src/RESTAPI/RESTAPI_mcp_helpers.h, CalculateMemorySummary), with the
    long double sum taken as exact. */
module MemorySummary {
  import opened Wrappers
  import opened Words
  import opened Orders

  type uint64 = n: int | 0 <= n <= MAX64

  datatype Record = Record(timestamp: uint64, id: string, free: Option<uint64>, total: Option<uint64>)
  datatype Sample = Sample(timestamp: uint64, id: string, free: uint64)
  datatype Stats = Stats(min: uint64, max: uint64, latest: uint64, average: uint64, start: uint64, end: uint64)

  predicate Usable(r: Record) { r.free.Some? && (r.total.None? || r.free.value <= r.total.value) }

  function AsSample(r: Record): Sample
    requires Usable(r)
  {
    Sample(r.timestamp, r.id, r.free.value)
  }

  /** The samples that count, in the order of the records. */
  ghost function Samples(records: seq<Record>): seq<Sample> {
    if records == [] then [] else
      var n := |records| - 1;
      Samples(records[..n]) + if Usable(records[n]) then [AsSample(records[n])] else []
  }

  /** Later time, then greater id, then (both ids empty) greater value. */
  predicate Newer(a: Sample, b: Sample) {
    || a.timestamp > b.timestamp
    || (a.timestamp == b.timestamp && (TextLess(b.id, a.id) || (a.id == "" && b.id == "" && a.free > b.free)))
  }

  lemma NewerOrders()
    ensures StrictWeak(Newer)
  {
    forall a, b | Newer(a, b) ensures !Newer(b, a) { TextTrichotomy(a.id, b.id); }
    forall a, b, c | Newer(a, c) ensures Newer(a, b) || Newer(b, c) {
      if a.timestamp == b.timestamp == c.timestamp {
        TextTrichotomy(a.id, b.id);
        TextTrichotomy(b.id, c.id);
        if TextLess(c.id, a.id) { TextSplits(c.id, b.id, a.id); }
      }
    }
  }

  // ---- The quantities ----

  function Last<T>(q: seq<T>): T
    requires q != []
  {
    q[|q| - 1]
  }

  ghost function Newest(q: seq<Sample>): Sample
    requires q != []
  {
    if |q| == 1 then q[0]
    else var m := Newest(q[..|q| - 1]); if Newer(Last(q), m) then Last(q) else m
  }

  ghost function Sum(q: seq<Sample>): nat {
    if q == [] then 0 else Sum(q[..|q| - 1]) + Last(q).free
  }

  ghost predicate Bounds(q: seq<Sample>, s: Stats) {
    && (exists x :: x in q && x.free == s.min) && (exists x :: x in q && x.free == s.max)
    && (exists x :: x in q && x.timestamp == s.start) && (exists x :: x in q && x.timestamp == s.end)
    && (forall x | x in q :: s.min <= x.free <= s.max && s.start <= x.timestamp <= s.end)
  }

  /** Nearest whole number to sum / count, halves rounded up. */
  ghost function Rounded(sum: nat, count: nat): nat
    requires count > 0
  {
    (2 * sum + count) / (2 * count)
  }

  ghost predicate IsSummary(records: seq<Record>, s: Option<Stats>) {
    var q := Samples(records);
    match s
    case None => q == []
    case Some(t) => q != [] && Bounds(q, t) && t.latest == Newest(q).free && t.average == Rounded(Sum(q), |q|)
  }

  // ---- What they mean ----

  lemma {:induction false} NewestMeaning(q: seq<Sample>)
    requires q != []
    ensures Newest(q) in q && forall x | x in q :: !Newer(x, Newest(q))
  {
    NewerOrders();
    var n := |q| - 1;
    assert q == q[..n] + [q[n]];
    if n > 0 { NewestMeaning(q[..n]); }
  }

  /** Of several equally new samples the first one stands. */
  lemma {:induction false} NewestIsFirst(q: seq<Sample>, n: nat)
    requires 0 < n <= |q| && forall x | x in q :: !Newer(x, q[0])
    ensures Newest(q[..n]) == q[0]
  {
    if n > 1 {
      assert q[..n][..n - 1] == q[..n - 1];
      NewestIsFirst(q, n - 1);
      assert q[n - 1] in q;
    }
  }

  lemma {:induction false} SumBounds(q: seq<Sample>, lo: nat, hi: nat)
    requires forall x | x in q :: lo <= x.free <= hi
    ensures |q| * lo <= Sum(q) <= |q| * hi
  {
    if q != [] {
      var n := |q| - 1;
      assert q == q[..n] + [q[n]];
      SumBounds(q[..n], lo, hi);
      OneMore(n, lo);
      OneMore(n, hi);
    }
  }

  lemma OneMore(n: nat, x: nat)
    ensures (n + 1) * x == n * x + x
  {}

  lemma MulLess(x: int, y: int, d: nat)
    requires x * d < y * d
    ensures x < y
  {
    if y <= x { MulMonotone(y, x, d); }
  }

  lemma MulMonotone(x: int, y: int, d: nat)
    requires x <= y
    ensures x * d <= y * d
  {}

  lemma RoundedBetween(sum: nat, n: nat, lo: nat, hi: nat)
    requires n > 0 && n * lo <= sum <= n * hi
    ensures lo <= Rounded(sum, n) <= hi
  {
    var r, d := Rounded(sum, n), 2 * n;
    DivBounds(2 * sum + n, d);
    assert lo * d == 2 * (n * lo) && (hi + 1) * d == 2 * (n * hi) + d;
    MulLess(lo, r + 1, d);
    MulLess(r, hi + 1, d);
  }

  /** Nearest: off by at most a half, and up at exactly a half. */
  lemma RoundedIsNearest(sum: nat, n: nat)
    requires n > 0
    ensures 2 * sum - n < 2 * (n * Rounded(sum, n)) <= 2 * sum + n
  {
    var r, d := Rounded(sum, n), 2 * n;
    DivBounds(2 * sum + n, d);
    assert r * d == 2 * (n * r) && (r + 1) * d == 2 * (n * r) + 2 * n;
  }

  lemma DivBounds(a: nat, d: nat)
    requires d > 0
    ensures a / d * d <= a < (a / d + 1) * d
  {
    assert a == a / d * d + a % d;
    assert (a / d + 1) * d == a / d * d + d;
  }

  /** The average lies between minimum and maximum, so it is never cut off. */
  lemma AverageBetween(q: seq<Sample>, s: Stats)
    requires q != [] && Bounds(q, s)
    ensures s.min <= Rounded(Sum(q), |q|) <= s.max
  {
    SumBounds(q, s.min, s.max);
    RoundedBetween(Sum(q), |q|, s.min, s.max);
  }

  // ---- The calculator ----

  /** The running values after some samples. */
  ghost predicate Running(q: seq<Sample>, count: nat, sum: nat, s: Stats, newest: Sample) {
    count == |q| && sum == Sum(q) && (q != [] ==> Bounds(q, s) && newest == Newest(q) && s.latest == newest.free)
  }

  lemma BoundsGrow(q: seq<Sample>, x: Sample, s: Stats)
    requires q != [] && Bounds(q, s)
    ensures Bounds(q + [x], Widened(s, x))
  {
    var r := q + [x];
    assert x in r;
    var a, b :| a in q && a.free == s.min && b in q && b.free == s.max;
    var c, d :| c in q && c.timestamp == s.start && d in q && d.timestamp == s.end;
    assert a in r && b in r && c in r && d in r;
  }

  function Widened(s: Stats, x: Sample): Stats {
    s.(min := if x.free < s.min then x.free else s.min, max := if x.free > s.max then x.free else s.max,
       start := if x.timestamp < s.start then x.timestamp else s.start,
       end := if x.timestamp > s.end then x.timestamp else s.end)
  }

  /** One usable record. */
  method Absorb(x: Sample, count: nat, sum: nat, s: Stats, newest: Sample, ghost q: seq<Sample>)
    returns (count': nat, sum': nat, s': Stats, newest': Sample)
    requires Running(q, count, sum, s, newest)
    ensures Running(q + [x], count', sum', s', newest')
  {
    assert (q + [x])[..|q|] == q && x in q + [x];
    s', newest' := s, newest;
    if count == 0 {
      s' := Stats(x.free, x.free, x.free, 0, x.timestamp, x.timestamp);
      newest' := x;
      assert q + [x] == [x];
    } else {
      BoundsGrow(q, x, s);
      s' := Widened(s, x);
      if Newer(x, newest) {
        s' := s'.(latest := x.free);
        newest' := x;
      }
    }
    sum' := sum + x.free;
    count' := count + 1;
  }

  lemma SamplesStep(records: seq<Record>, i: nat)
    requires i < |records|
    ensures Samples(records[..i + 1]) ==
            Samples(records[..i]) + if Usable(records[i]) then [AsSample(records[i])] else []
    ensures !Usable(records[i]) ==> Samples(records[..i + 1]) == Samples(records[..i])
  {
    assert records[..i + 1][..i] == records[..i];
  }

  method CalculateMemorySummary(records: seq<Record>) returns (s: Option<Stats>)
    ensures IsSummary(records, s)
  {
    var count: nat, sum: nat := 0, 0;
    var stats, newest := Stats(0, 0, 0, 0, 0, 0), Sample(0, "", 0);
    for i := 0 to |records|
      invariant Running(Samples(records[..i]), count, sum, stats, newest)
    {
      SamplesStep(records, i);
      var r := records[i];
      if r.free == None { continue; }
      if r.total.Some? && r.free.value > r.total.value { continue; }
      count, sum, stats, newest := Absorb(AsSample(r), count, sum, stats, newest, Samples(records[..i]));
    }
    assert records[..|records|] == records;
    if count == 0 { return None; }
    AverageBetween(Samples(records), stats);
    var average := (2 * sum + count) / (2 * count);
    if average > MAX64 { average := MAX64; }
    return Some(stats.(average := average));
  }

  // ---- Order of records ----

  lemma {:induction false} SumInsert(p: seq<Sample>, x: Sample, r: seq<Sample>)
    ensures Sum(p + [x] + r) == Sum(p + r) + x.free
  {
    if r == [] {
      assert p + [x] + r == p + [x] && p + r == p && (p + [x])[..|p|] == p;
    } else {
      var n := |r| - 1;
      assert (p + [x] + r)[..|p| + 1 + n] == p + [x] + r[..n] && (p + r)[..|p| + n] == p + r[..n];
      SumInsert(p, x, r[..n]);
    }
  }

  lemma {:induction false} SumPermutes(p: seq<Sample>, q: seq<Sample>)
    requires multiset(p) == multiset(q)
    ensures Sum(p) == Sum(q)
  {
    SameElements(p, q);
    if p != [] {
      var k := TakeOutLast(p, q);
      SumPermutes(p[..|p| - 1], q[..k] + q[k + 1..]);
      SumInsert(q[..k], q[k], q[k + 1..]);
    }
  }

  lemma {:induction false} SamplesConcat(p: seq<Record>, r: seq<Record>)
    ensures Samples(p + r) == Samples(p) + Samples(r)
  {
    if r == [] {
      assert p + r == p;
    } else {
      var n := |r| - 1;
      assert (p + r)[..|p| + n] == p + r[..n];
      SamplesConcat(p, r[..n]);
    }
  }

  lemma SamplesOfOne(x: Record)
    ensures Samples([x]) == if Usable(x) then [AsSample(x)] else []
  {
    assert [x][..0] == [];
  }

  lemma SamplesInsert(p: seq<Record>, x: Record, r: seq<Record>)
    ensures multiset(Samples(p + [x] + r)) == multiset(Samples(p + r)) + multiset(Samples([x]))
  {
    SamplesConcat(p, r);
    SamplesConcat(p + [x], r);
    SamplesConcat(p, [x]);
  }

  lemma SamplesSplit(q: seq<Record>, p: seq<Record>, x: Record, r: seq<Record>, rest: seq<Record>)
    requires q == p + [x] + r && rest == p + r
    ensures multiset(Samples(q)) == multiset(Samples(rest)) + multiset(Samples([x]))
  {
    SamplesInsert(p, x, r);
  }

  lemma LastSplits(p: seq<Record>)
    requires p != []
    ensures var n := |p| - 1; p == p[..n] + [p[n]] + [] && p[..n] == p[..n] + []
  {}

  lemma {:induction false} SamplesPermute(p: seq<Record>, q: seq<Record>)
    requires multiset(p) == multiset(q)
    ensures multiset(Samples(p)) == multiset(Samples(q))
  {
    if p == [] {
      SameElements(p, q);
    } else {
      var n := |p| - 1;
      var k := TakeOutLast(p, q);
      var rest := q[..k] + q[k + 1..];
      SamplesPermute(p[..n], rest);
      SamplesSplit(q, q[..k], q[k], q[k + 1..], rest);
      LastSplits(p);
      SamplesSplit(p, p[..n], p[n], [], p[..n]);
    }
  }

  ghost predicate Top(q: seq<Sample>, x: Sample) { x in q && forall y | y in q :: !Newer(y, x) }

  /** Two newest samples disagree on the value. */
  ghost predicate Ambiguous(q: seq<Sample>) {
    exists x, y :: Top(q, x) && Top(q, y) && x.free != y.free
  }

  /** Only samples with one time and one non-empty id can make a list ambiguous. */
  lemma AmbiguityShape(q: seq<Sample>, x: Sample, y: Sample)
    requires Top(q, x) && Top(q, y) && x.free != y.free
    ensures x.timestamp == y.timestamp && x.id == y.id != ""
  {
    TextTrichotomy(x.id, y.id);
  }

  lemma BoundsUnique(p: seq<Sample>, q: seq<Sample>, s: Stats, t: Stats)
    requires (forall x :: x in p <==> x in q) && Bounds(p, s) && Bounds(q, t)
    ensures s.min == t.min && s.max == t.max && s.start == t.start && s.end == t.end
  {}

  /** Unless the newest samples disagree, every order of the records gives one summary. */
  lemma OrderIrrelevant(p: seq<Record>, q: seq<Record>, s: Option<Stats>, t: Option<Stats>)
    requires multiset(p) == multiset(q) && !Ambiguous(Samples(p)) && IsSummary(p, s) && IsSummary(q, t)
    ensures s == t
  {
    var a, b := Samples(p), Samples(q);
    SamplesPermute(p, q);
    SameElements(a, b);
    SumPermutes(a, b);
    if a != [] {
      NewestMeaning(a);
      NewestMeaning(b);
      assert Top(a, Newest(a)) && Top(a, Newest(b));
      BoundsUnique(a, b, s.value, t.value);
    }
  }

  lemma {:induction false} SampleHasRecord(p: seq<Record>, x: Sample) returns (k: nat)
    requires x in Samples(p)
    ensures k < |p| && Usable(p[k]) && AsSample(p[k]) == x
  {
    var n := |p| - 1;
    if x in Samples(p[..n]) { k := SampleHasRecord(p[..n], x); } else { k := n; }
  }

  ghost function ToFront(p: seq<Record>, k: nat): (q: seq<Record>)
    requires k < |p|
    ensures multiset(q) == multiset(p) && q == [p[k]] + (p[..k] + p[k + 1..])
  {
    assert p == p[..k] + [p[k]] + p[k + 1..];
    [p[k]] + (p[..k] + p[k + 1..])
  }

  /** A record brought to the front whose sample is among the newest decides the latest value. */
  lemma FrontDecides(p: seq<Record>, x: Sample) returns (q: seq<Record>)
    requires Top(Samples(p), x)
    ensures multiset(q) == multiset(p) && Samples(q) != [] && Newest(Samples(q)) == x
  {
    var k := SampleHasRecord(p, x);
    q := ToFront(p, k);
    SamplesPermute(p, q);
    SameElements(Samples(p), Samples(q));
    FirstSample(p[k], p[..k] + p[k + 1..]);
    TopFirstIsNewest(Samples(q), x);
  }

  lemma FirstSample(r: Record, rest: seq<Record>)
    requires Usable(r)
    ensures Samples([r] + rest) != [] && Samples([r] + rest)[0] == AsSample(r)
  {
    SamplesConcat([r], rest);
    SamplesOfOne(r);
  }

  lemma TopFirstIsNewest(q: seq<Sample>, x: Sample)
    requires q != [] && q[0] == x && Top(q, x)
    ensures Newest(q) == x
  {
    NewestIsFirst(q, |q|);
    assert q[..|q|] == q;
  }

  /** And if they do disagree, two orders give two different summaries. */
  lemma AmbiguousDependsOnOrder(p: seq<Record>) returns (q: seq<Record>, r: seq<Record>)
    requires Ambiguous(Samples(p))
    ensures multiset(q) == multiset(p) == multiset(r)
    ensures forall s, t | IsSummary(q, s) && IsSummary(r, t) :: s != t
  {
    var x, y :| Top(Samples(p), x) && Top(Samples(p), y) && x.free != y.free;
    q := FrontDecides(p, x);
    r := FrontDecides(p, y);
  }

  /** The latest value belongs to a lexicographically greatest (time, id, value) sample. */
  lemma LatestIsGreatest(p: seq<Record>, s: Stats)
    requires IsSummary(p, Some(s))
    ensures exists x :: Top(Samples(p), x) && x.free == s.latest && x.timestamp == s.end
    ensures s.min <= s.latest <= s.max && s.min <= s.average <= s.max
  {
    var q := Samples(p);
    NewestMeaning(q);
    AverageBetween(q, s);
    var e :| e in q && e.timestamp == s.end;
    assert Top(q, Newest(q)) && !Newer(e, Newest(q));
  }

  /** x is not behind y: a later time; at one time an id not smaller; without ids a value not smaller. */
  ghost predicate NotBehind(x: Sample, y: Sample) {
    || x.timestamp > y.timestamp
    || (x.timestamp == y.timestamp && ComesFirst(y.id, x.id))
    || (x.timestamp == y.timestamp && x.id == y.id && (x.id == "" ==> x.free >= y.free))
  }

  lemma NotNewerIffNotBehind(x: Sample, y: Sample)
    ensures !Newer(y, x) <==> NotBehind(x, y)
  {
    TextLessIff(x.id, y.id);
    TextLessIff(y.id, x.id);
    TextTrichotomy(x.id, y.id);
  }

  /** The same in plain terms, with the average: the latest value is that of a usable record that no other is
      ahead of, and the average is the nearest whole number to the mean, halves up. */
  lemma SummaryInPlainTerms(p: seq<Record>, s: Stats)
    requires IsSummary(p, Some(s))
    ensures exists k :: 0 <= k < |p| && Usable(p[k]) && p[k].free.value == s.latest &&
                        forall y | y in Samples(p) :: NotBehind(AsSample(p[k]), y)
    ensures var q := Samples(p); 2 * Sum(q) - |q| < 2 * (|q| * s.average) <= 2 * Sum(q) + |q|
  {
    var q := Samples(p);
    NewestMeaning(q);
    var k := SampleHasRecord(p, Newest(q));
    forall y | y in q ensures NotBehind(AsSample(p[k]), y) { NotNewerIffNotBehind(Newest(q), y); }
    RoundedIsNearest(Sum(q), |q|);
  }

  /** Which records count: those with a free amount that is not more than the total, when there is one. */
  lemma {:induction false} SamplesAreUsable(p: seq<Record>, x: Sample)
    ensures x in Samples(p) <==>
            exists k :: 0 <= k < |p| && p[k].free == Some(x.free) && p[k].timestamp == x.timestamp && p[k].id == x.id &&
                        (p[k].total.Some? ==> x.free <= p[k].total.value)
  {
    if x in Samples(p) { var k := SampleHasRecord(p, x); }
    if p != [] {
      var n := |p| - 1;
      SamplesAreUsable(p[..n], x);
      if k :| 0 <= k < |p| && p[k].free == Some(x.free) && p[k].timestamp == x.timestamp && p[k].id == x.id &&
                        (p[k].total.Some? ==> x.free <= p[k].total.value) {
        if k < n { assert p[..n][k] == p[k]; }
      }
    }
  }
}
