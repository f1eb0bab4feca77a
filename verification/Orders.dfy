/** Orders, sorting and the sorted listing of a set: the vocabulary in which every
    order-independence result of this project is stated. */
module Orders {

  /** What std::sort demands of a comparator. */
  ghost predicate StrictWeak<T(!new)>(less: (T, T) -> bool) {
    && (forall x, y :: less(x, y) ==> !less(y, x))
    && (forall x, y, z :: less(x, z) ==> less(x, y) || less(y, z))
  }

  ghost predicate TotalOn<T>(less: (T, T) -> bool, s: set<T>) {
    forall x, y | x in s && y in s && x != y :: less(x, y) || less(y, x)
  }

  /** No element comes before one it should follow. */
  ghost predicate Sorted<T>(less: (T, T) -> bool, q: seq<T>) {
    forall i, j | 0 <= i < j < |q| :: !less(q[j], q[i])
  }

  ghost predicate Ascending<T>(less: (T, T) -> bool, q: seq<T>) {
    forall i, j | 0 <= i < j < |q| :: less(q[i], q[j])
  }

  /** q holds exactly the elements of s, each once, in order. */
  ghost predicate Lists<T(!new)>(less: (T, T) -> bool, q: seq<T>, s: set<T>) {
    && Ascending(less, q)
    && (forall x :: x in q <==> x in s)
  }

  lemma {:induction false} ListsUnique<T(!new)>(less: (T, T) -> bool, p: seq<T>, q: seq<T>, s: set<T>)
    requires StrictWeak(less) && Lists(less, p, s) && Lists(less, q, s)
    ensures p == q
    decreases |p|
  {
    if p == [] {
      assert forall i | 0 <= i < |q| :: q[i] in s;
    } else {
      assert p[0] in p && p[0] in q && q[0] in q && q[0] in p;
      var i :| 0 <= i < |q| && q[i] == p[0];
      var j :| 0 <= j < |p| && p[j] == q[0];
      assert p[0] == q[0];
      forall x ensures x in p[1..] <==> x in s - {p[0]} { TailMembers(less, p, x); }
      forall x ensures x in q[1..] <==> x in s - {p[0]} { TailMembers(less, q, x); }
      ListsUnique(less, p[1..], q[1..], s - {p[0]});
      assert p == [p[0]] + p[1..] && q == [q[0]] + q[1..];
    }
  }

  lemma TailMembers<T(!new)>(less: (T, T) -> bool, p: seq<T>, x: T)
    requires StrictWeak(less) && Ascending(less, p) && p != []
    ensures x in p[1..] <==> x in p && x != p[0]
  {
    if x in p[1..] {
      var i :| 0 <= i < |p[1..]| && p[1..][i] == x;
      assert less(p[0], p[i + 1]);
    }
    if x in p && x != p[0] {
      var i :| 0 <= i < |p| && p[i] == x;
      assert p[1..][i - 1] == x;
    }
  }

  /** Where x belongs in a sorted sequence: after everything it does not precede. */
  function InsertAt<T>(less: (T, T) -> bool, q: seq<T>, x: T): (k: nat)
    ensures k <= |q|
    ensures forall i | 0 <= i < k :: !less(x, q[i])
    ensures k < |q| ==> less(x, q[k])
  {
    if q == [] || less(x, q[0]) then 0 else 1 + InsertAt(less, q[1..], x)
  }

  function Insert<T>(less: (T, T) -> bool, q: seq<T>, x: T): (r: seq<T>) {
    var k := InsertAt(less, q, x); q[..k] + [x] + q[k..]
  }

  /** The i-th element after an insertion is x or an element of q, in q's order. */
  lemma InsertIndex<T>(less: (T, T) -> bool, q: seq<T>, x: T, i: nat)
    requires i <= |q|
    ensures |Insert(less, q, x)| == |q| + 1
    ensures var k := InsertAt(less, q, x);
            Insert(less, q, x)[i] == if i < k then q[i] else if i == k then x else q[i - 1]
  {}

  lemma InsertPoint<T(!new)>(less: (T, T) -> bool, q: seq<T>, x: T)
    requires StrictWeak(less) && Sorted(less, q)
    ensures forall i | InsertAt(less, q, x) <= i < |q| :: less(x, q[i]) && !less(q[i], x)
  {
    var k := InsertAt(less, q, x);
    forall i | k <= i < |q| ensures less(x, q[i]) && !less(q[i], x) {
      if i != k { assert !less(q[i], q[k]); }
    }
  }

  lemma InsertKeeps<T(!new)>(less: (T, T) -> bool, q: seq<T>, x: T)
    requires StrictWeak(less) && Sorted(less, q)
    ensures Sorted(less, Insert(less, q, x))
    ensures multiset(Insert(less, q, x)) == multiset(q) + multiset{x}
  {
    var k, r := InsertAt(less, q, x), Insert(less, q, x);
    assert multiset(r) == multiset(q) + multiset{x} by { assert q == q[..k] + q[k..]; }
    InsertPoint(less, q, x);
    forall i, j | 0 <= i < j < |r| ensures !less(r[j], r[i]) {
      InsertIndex(less, q, x, i); InsertIndex(less, q, x, j);
    }
  }

  lemma InsertMembers<T(!new)>(less: (T, T) -> bool, q: seq<T>, x: T)
    ensures forall y :: y in Insert(less, q, x) <==> y == x || y in q
  {
    var k := InsertAt(less, q, x);
    assert q == q[..k] + q[k..];
  }

  lemma InsertAscends<T(!new)>(less: (T, T) -> bool, q: seq<T>, x: T)
    requires StrictWeak(less) && Ascending(less, q) && forall y | y in q :: less(x, y) || less(y, x)
    ensures Ascending(less, Insert(less, q, x))
    ensures forall y :: y in Insert(less, q, x) <==> y == x || y in q
  {
    var k, r := InsertAt(less, q, x), Insert(less, q, x);
    InsertMembers(less, q, x);
    InsertPoint(less, q, x);
    assert forall i | 0 <= i < k :: q[i] in q && less(q[i], x);
    forall i, j | 0 <= i < j < |r| ensures less(r[i], r[j]) { InsertIndex(less, q, x, i); InsertIndex(less, q, x, j); }
  }

  /** std::sort, specified by what it guarantees. */
  method Sort<T(!new)>(less: (T, T) -> bool, s: seq<T>) returns (q: seq<T>)
    requires StrictWeak(less)
    ensures Sorted(less, q) && multiset(q) == multiset(s)
  {
    q := [];
    for i := 0 to |s|
      invariant Sorted(less, q) && multiset(q) == multiset(s[..i])
    {
      InsertKeeps(less, q, s[i]);
      q := Insert(less, q, s[i]);
      assert s[..i + 1] == s[..i] + [s[i]];
    }
    assert s[..|s|] == s;
  }

  /** The elements of s in order. */
  ghost function Listing<T(!new)>(less: (T, T) -> bool, s: set<T>): (q: seq<T>)
    requires StrictWeak(less) && TotalOn(less, s)
    ensures Lists(less, q, s)
  {
    if s == {} then [] else
      var x :| x in s;
      var rest := Listing(less, s - {x});
      InsertAscends(less, rest, x);
      Insert(less, rest, x)
  }

  lemma SameElements<T(!new)>(p: seq<T>, q: seq<T>)
    requires multiset(p) == multiset(q)
    ensures |p| == |q| && forall x :: x in p <==> x in q
  {
    forall x ensures x in p <==> x in q {
      assert x in p <==> x in multiset(p);
      assert x in q <==> x in multiset(q);
    }
    assert |multiset(p)| == |p| && |multiset(q)| == |q|;
  }

  lemma DistinctStays<T>(p: seq<T>, q: seq<T>)
    requires multiset(p) == multiset(q) && forall i, j | 0 <= i < j < |p| :: p[i] != p[j]
    ensures forall i, j | 0 <= i < j < |q| :: q[i] != q[j]
  {
    forall i, j | 0 <= i < j < |q| ensures q[i] != q[j] {
      OnceCounted(p, q[i]);
      if q[i] == q[j] { TwiceCounted(q, i, j); }
    }
  }

  lemma {:induction false} OnceCounted<T>(p: seq<T>, x: T)
    requires forall i, j | 0 <= i < j < |p| :: p[i] != p[j]
    ensures multiset(p)[x] <= 1
  {
    if p != [] {
      var n := |p| - 1;
      assert p == p[..n] + [p[n]];
      OnceCounted(p[..n], x);
      if x == p[n] { assert x !in p[..n]; }
    }
  }

  lemma TwiceCounted<T>(q: seq<T>, i: nat, j: nat)
    requires i < j < |q| && q[i] == q[j]
    ensures multiset(q)[q[i]] >= 2
  {
    assert q == q[..j] + [q[j]] + q[j + 1..];
    assert q[..j][i] == q[i] && q[i] in multiset(q[..j]);
  }

  lemma {:induction false} TwoPlaces<T>(p: seq<T>, x: T) returns (a: nat, b: nat)
    requires multiset(p)[x] >= 2
    ensures a < b < |p| && p[a] == p[b] == x
  {
    var n := |p| - 1;
    assert p == p[..n] + [p[n]];
    if multiset(p[..n])[x] >= 2 {
      a, b := TwoPlaces(p[..n], x);
    } else {
      assert x in p[..n];
      a :| 0 <= a < n && p[..n][a] == x;
      b := n;
    }
  }

  /** A symmetric relation that holds of no two places of a list holds of no two places of a permutation. */
  lemma PairsStay<T(!new)>(bad: (T, T) -> bool, p: seq<T>, q: seq<T>)
    requires multiset(p) == multiset(q) && (forall x, y :: bad(x, y) ==> bad(y, x))
    requires forall i, j | 0 <= i < j < |p| :: !bad(p[i], p[j])
    ensures forall i, j | 0 <= i < j < |q| :: !bad(q[i], q[j])
  {
    SameElements(p, q);
    forall i, j | 0 <= i < j < |q| ensures !bad(q[i], q[j]) {
      if q[i] == q[j] {
        TwiceCounted(q, i, j);
        var a, b := TwoPlaces(p, q[i]);
      } else {
        assert q[i] in p && q[j] in p;
        var a :| 0 <= a < |p| && p[a] == q[i];
        var b :| 0 <= b < |p| && p[b] == q[j];
      }
    }
  }

  /** Permutations agree after one occurrence of the last element is taken out of each. */
  lemma TakeOutLast<T(!new)>(p: seq<T>, q: seq<T>) returns (k: nat)
    requires multiset(p) == multiset(q) && p != []
    ensures k < |q| && q[k] == p[|p| - 1] && multiset(p[..|p| - 1]) == multiset(q[..k] + q[k + 1..])
    ensures q == q[..k] + [q[k]] + q[k + 1..]
  {
    var n := |p| - 1;
    SameElements(p, q);
    assert p[n] in p;
    k :| 0 <= k < |q| && q[k] == p[n];
    assert p == p[..n] + [p[n]];
    assert q == q[..k] + [q[k]] + q[k + 1..];
    assert multiset(p[..n]) == multiset(p) - multiset{p[n]};
    assert multiset(q[..k] + q[k + 1..]) == multiset(q) - multiset{q[k]};
  }

  // ---- Removal ----

  function RemoveFirst<T(==)>(q: seq<T>, x: T): seq<T> {
    if q == [] then [] else if q[0] == x then q[1..] else [q[0]] + RemoveFirst(q[1..], x)
  }

  lemma {:induction false} RemoveFirstMeaning<T>(q: seq<T>, x: T)
    ensures multiset(RemoveFirst(q, x)) == multiset(q) - multiset{x}
  {
    if q != [] {
      assert q == [q[0]] + q[1..];
      RemoveFirstMeaning(q[1..], x);
    }
  }

  // ---- Numbers ----

  predicate NatLess(a: nat, b: nat) { a < b }

  predicate NatLeq(a: nat, b: nat) { a <= b }

  ghost function Elements(q: seq<nat>): set<nat> { set x | x in q }

  ghost predicate Increasing(q: seq<nat>) {
    forall i, j | 0 <= i < j < |q| :: q[i] < q[j]
  }

  lemma NatLessTotal(s: set<nat>)
    ensures StrictWeak(NatLess) && TotalOn(NatLess, s)
  {}

  lemma IncreasingUnique(p: seq<nat>, q: seq<nat>)
    requires Increasing(p) && Increasing(q) && forall x: nat :: x in p <==> x in q
    ensures p == q
  {
    var s := set x | x in p;
    ListsUnique(NatLess, p, q, s);
  }

  lemma {:induction false} RemoveFromIncreasing(q: seq<nat>, x: nat)
    requires Increasing(q)
    ensures Increasing(RemoveFirst(q, x)) && forall y: nat :: y in RemoveFirst(q, x) <==> y in q && y != x
  {
    if q != [] {
      assert q == [q[0]] + q[1..];
      if q[0] != x {
        RemoveFromIncreasing(q[1..], x);
        var r := RemoveFirst(q[1..], x);
        forall i | 0 <= i < |r| ensures q[0] < r[i] { assert r[i] in q[1..]; }
      }
    }
  }

  // ---- Text, compared as std::string compares it ----

  predicate TextLess(a: string, b: string) {
    b != [] && (a == [] || a[0] < b[0] || (a[0] == b[0] && TextLess(a[1..], b[1..])))
  }

  /** a and b agree up to place k, where a ends or has the smaller character. */
  ghost predicate DiffersAt(a: string, b: string, k: nat) {
    k <= |a| && k < |b| && a[..k] == b[..k] && (k == |a| || a[k] < b[k])
  }

  /** Dictionary order: a is a proper prefix of b, or has the smaller character where they first differ. */
  ghost predicate ComesFirst(a: string, b: string) { exists k :: DiffersAt(a, b, k) }

  lemma DiffersFurther(a: string, b: string, k: nat)
    requires a != [] && b != [] && a[0] == b[0]
    ensures DiffersAt(a[1..], b[1..], k) <==> DiffersAt(a, b, k + 1)
  {
    if k < |a| && k + 1 < |b| {
      assert a[..k + 1] == [a[0]] + a[1..][..k] && b[..k + 1] == [b[0]] + b[1..][..k];
      assert a[1..][..k] == a[..k + 1][1..] && b[1..][..k] == b[..k + 1][1..];
    }
  }

  lemma SameStart(a: string, b: string, k: nat)
    requires DiffersAt(a, b, k)
    ensures k > 0 ==> a[0] == b[0]
  {
    if k > 0 { assert a[0] == a[..k][0] && b[0] == b[..k][0]; }
  }

  lemma {:induction false} TextLessIff(a: string, b: string)
    ensures TextLess(a, b) <==> ComesFirst(a, b)
    decreases |a|
  {
    if a == [] || b == [] || a[0] != b[0] {
      if TextLess(a, b) { assert DiffersAt(a, b, 0); }
      if k: nat :| DiffersAt(a, b, k) { SameStart(a, b, k); }
    } else {
      TextLessIff(a[1..], b[1..]);
      if k: nat :| DiffersAt(a[1..], b[1..], k) { DiffersFurther(a, b, k); }
      if k: nat :| DiffersAt(a, b, k) {
        assert k > 0;
        DiffersFurther(a, b, k - 1);
      }
    }
  }

  lemma {:induction false} TextTrichotomy(a: string, b: string)
    ensures TextLess(a, b) ==> !TextLess(b, a)
    ensures a != b ==> TextLess(a, b) || TextLess(b, a)
    ensures !TextLess(a, a)
    decreases |a|
  {
    if a != [] && b != [] && a[0] == b[0] {
      TextTrichotomy(a[1..], b[1..]);
      assert a == [a[0]] + a[1..] && b == [b[0]] + b[1..];
    }
    if a != [] { TextTrichotomy(a[1..], a[1..]); }
  }

  lemma {:induction false} TextSplits(a: string, b: string, c: string)
    requires TextLess(a, c)
    ensures TextLess(a, b) || TextLess(b, c)
    decreases |a|
  {
    if a != [] && b != [] && a[0] == b[0] == c[0] {
      TextSplits(a[1..], b[1..], c[1..]);
    }
  }
}
