/** The per-venue index of client MACs: a sorted list and a sorted list of nibble-reversed numbers,
    searched by prefix and by suffix (src/WifiClientCache.h, src/WifiClientCache.cpp). */
module ClientIndex {
  import opened Wrappers
  import opened Words
  import opened Orders
  import opened Hex

  // ---- std::stoull(s, nullptr, 16) ----

  predicate IsSpace(c: char) { c == ' ' || '\t' <= c <= '\r' }

  function SkipSpaces(s: string): string {
    if s != [] && IsSpace(s[0]) then SkipSpaces(s[1..]) else s
  }

  function HexRun(s: string): (k: nat)
    ensures k <= |s| && IsHexText(s[..k]) && (k < |s| ==> !IsHex(s[k]))
  {
    if s == [] || !IsHex(s[0]) then 0 else
      var k := HexRun(s[1..]);
      assert forall i | 0 <= i < k :: s[1..][..k][i] == s[i + 1];
      1 + k
  }

  /** None is the exception. */
  function Stoull(s: string): (r: Option<nat>)
    ensures r.Some? ==> r.value < TWO64
  {
    var t := SkipSpaces(s);
    var negative := t != [] && t[0] == '-';
    var u := if t != [] && (t[0] == '-' || t[0] == '+') then t[1..] else t;
    var body := if |u| >= 3 && u[0] == '0' && (u[1] == 'x' || u[1] == 'X') && IsHex(u[2]) then u[2..] else u;
    var k := HexRun(body);
    if k == 0 then None else
      var v := ParseHex(body[..k]);
      if v >= TWO64 then None else Some(if negative && v != 0 then TWO64 - v else v)
  }

  lemma {:induction false} HexRunFull(s: string)
    requires IsHexText(s)
    ensures HexRun(s) == |s|
  {
    if s != [] { HexRunFull(s[1..]); }
  }

  lemma HexFits(s: string)
    requires |s| <= 16 && IsHexText(s)
    ensures ParseHex(s) < TWO64
  {
    ValueBound(DigitsOf(s));
    PowMonotone(|s|, 16);
    Pow16Values();
  }

  /** Hex digits alone are read as their number, unless that needs more than 64 bits. */
  lemma StoullOfDigits(s: string)
    requires s != [] && IsHexText(s)
    ensures Stoull(s) == if ParseHex(s) < TWO64 then Some(ParseHex(s)) else None
  {
    assert IsHex(s[0]) && SkipSpaces(s) == s;
    assert |s| >= 2 ==> IsHex(s[1]);
    HexRunFull(s);
    assert s[..|s|] == s;
  }

  lemma StoullOfHex(s: string)
    requires 1 <= |s| <= 16 && IsHexText(s)
    ensures Stoull(s) == Some(ParseHex(s))
  {
    StoullOfDigits(s);
    HexFits(s);
  }

  /** Space, tab, line feed, vertical tab, form feed and carriage return are skipped in front. */
  lemma StoullSkipsSpace(c: char, s: string)
    requires c as int in {9, 10, 11, 12, 13, 32}
    ensures Stoull([c] + s) == Stoull(s)
  {
    assert ([c] + s)[1..] == s;
  }

  /** A sign may come first; a minus negates in 64 bits. */
  lemma StoullOfSigned(s: string)
    requires s != [] && IsHexText(s)
    ensures Stoull("+" + s) == Stoull(s)
    ensures Stoull("-" + s) == if Stoull(s).None? then None else Some((TWO64 - Stoull(s).value) % TWO64)
  {
    StoullOfDigits(s);
    assert SkipSpaces("+" + s) == "+" + s && SkipSpaces("-" + s) == "-" + s;
    assert ("+" + s)[1..] == s && ("-" + s)[1..] == s;
    assert |s| >= 2 ==> IsHex(s[1]);
    HexRunFull(s);
    assert s[..|s|] == s;
  }

  /** So may the prefix 0x or 0X. */
  lemma StoullOfPrefixed(s: string, x: char)
    requires s != [] && IsHexText(s) && (x == 'x' || x == 'X')
    ensures Stoull(['0', x] + s) == Stoull(s)
  {
    var t := ['0', x] + s;
    StoullOfDigits(s);
    assert SkipSpaces(t) == t && t[2..] == s && IsHex(s[0]);
    HexRunFull(s);
    assert s[..|s|] == s;
  }

  /** Anything else in front, or nothing at all, throws. */
  lemma StoullRefuses(s: string)
    requires s == [] || !(s[0] as int in {9, 10, 11, 12, 13, 32} || IsHex(s[0]) || s[0] == '+' || s[0] == '-')
    ensures Stoull(s) == None
  {}

  lemma {:induction false} PowMonotone(a: nat, b: nat)
    requires a <= b
    ensures Pow16(a) <= Pow16(b)
    decreases b
  {
    if a < b { PowMonotone(a, b - 1); }
  }

  lemma Pow16Values()
    ensures Pow16(4) == 65536 && Pow16(12) == 0x1_0000_0000_0000 && Pow16(16) == TWO64
  {
    assert Pow16(4) == 65536;
    assert Pow16(8) == 0x1_0000_0000;
    assert Pow16(12) == 0x1_0000_0000_0000;
  }

  // ---- Nibble reversal ----

  /** The twelve digits of n in the opposite order. */
  ghost function Mirror(n: nat): nat { Value(Low(n, 12)) }

  /** Reversal is an involution on 48-bit numbers. */
  lemma MirrorInvolution(n: nat)
    requires n < Pow16(12)
    ensures Mirror(n) < Pow16(12) && Mirror(Mirror(n)) == n
  {
    ValueBound(Low(n, 12));
    DigitsOfValue(Low(n, 12));
    ValueOfDigits(n, 12);
  }

  /** Reversal agrees with parsing the reversed text. */
  lemma MirrorParses(s: string)
    requires |s| == 12 && IsHexText(s)
    ensures IsHexText(Rev(s)) && ParseHex(s) < Pow16(12) && ParseHex(Rev(s)) == Mirror(ParseHex(s))
  {
    DigitsBackwards(s);
  }

  /** Parsing a text backwards is reading its number's digits from the low end. */
  lemma DigitsBackwards(s: string)
    requires IsHexText(s)
    ensures IsHexText(Rev(s)) && ParseHex(s) < Pow16(|s|) && ParseHex(Rev(s)) == Value(Low(ParseHex(s), |s|))
  {
    ValueBound(DigitsOf(s));
    DigitsOfValue(DigitsOf(s));
    assert DigitsOf(Rev(s)) == Rev(DigitsOf(s));
  }

  lemma MirrorText(n: nat)
    ensures SerialText(Mirror(n)) == Rev(SerialText(n))
  {
    DigitsOfValue(Low(n, 12));
    forall i | 0 <= i < 12 ensures SerialText(Mirror(n))[i] == Rev(SerialText(n))[i] {
      assert Low(Mirror(n), 12)[11 - i] == Low(n, 12)[i];
      assert SerialText(n)[11 - i] == HexChar(Low(n, 12)[i]);
    }
  }

  /** Sixteen nibbles shifted out of a 64-bit word, then 16 bits dropped: that leaves the twelve low ones. */
  method Reverse(n: nat) returns (r: nat)
    requires n < TWO64
    ensures r == Mirror(n)
  {
    r := 0;
    var rest := n;
    for i := 0 to 16
      invariant rest == Shift(n, i) && r == Value(Low(n, i))
    {
      ReverseStep(n, i);
      r := (r * 16 + rest % 16) % TWO64;
      rest := rest / 16;
    }
    HighNibblesDropped(n);
    r := r / 65536;
  }

  lemma ReverseStep(n: nat, i: nat)
    requires i < 16
    ensures Value(Low(n, i + 1)) == Value(Low(n, i)) * 16 + Shift(n, i) % 16 < TWO64
  {
    ValueBound(Low(n, i + 1));
    PowMonotone(i + 1, 16);
    Pow16Values();
    assert Low(n, i + 1)[..i] == Low(n, i);
  }

  lemma HighNibblesDropped(n: nat)
    ensures Value(Low(n, 16)) / 65536 == Mirror(n)
  {
    var d := Low(n, 16);
    LowPrefix(n, 12, 16);
    assert d == Low(n, 12) + d[12..];
    ValueOfConcat(Low(n, 12), d[12..]);
    ValueBound(d[12..]);
    Pow16Values();
  }

  lemma {:induction false} LowAppendsZeros(n: nat, k: nat, z: seq<nat>)
    requires Shift(n, k) == 0 && forall i | 0 <= i < |z| :: z[i] == 0
    ensures Low(n, k + |z|) == Low(n, k) + z && Shift(n, k + |z|) == 0
  {
    if z == [] {
      assert Low(n, k) + z == Low(n, k);
    } else {
      var m := |z| - 1;
      LowAppendsZeros(n, k, z[..m]);
      assert z == z[..m] + [0];
    }
  }

  // ---- Sorted vectors ----

  /** std::lower_bound on a sorted vector. */
  function LowerBound(q: seq<nat>, x: nat): (k: nat)
    ensures k <= |q| && (forall i | 0 <= i < k :: q[i] < x) && (k < |q| ==> x <= q[k])
  {
    InsertAt(NatLeq, q, x)
  }

  function Inserted(q: seq<nat>, x: nat): seq<nat> { Insert(NatLeq, q, x) }

  lemma InsertedMembers(q: seq<nat>, x: nat)
    ensures Elements(Inserted(q, x)) == Elements(q) + {x}
  {
    InsertMembers(NatLeq, q, x);
  }

  lemma InsertedMeaning(q: seq<nat>, x: nat)
    requires Increasing(q) && x !in q
    ensures Increasing(Inserted(q, x)) && Elements(Inserted(q, x)) == Elements(q) + {x}
  {
    var k, r := LowerBound(q, x), Inserted(q, x);
    InsertedMembers(q, x);
    assert k < |q| ==> x < q[k];
    forall i, j | 0 <= i < j < |r| ensures r[i] < r[j] { InsertIndex(NatLeq, q, x, i); InsertIndex(NatLeq, q, x, j); }
  }

  /** What lower_bound needs of a vector of 64-bit numbers. */
  ghost predicate Ordered(q: seq<nat>) {
    (forall i, j | 0 <= i < j < |q| :: q[i] <= q[j]) && forall i | 0 <= i < |q| :: q[i] < TWO64
  }

  lemma InsertedOrdered(q: seq<nat>, x: nat)
    requires Ordered(q) && x < TWO64
    ensures Ordered(Inserted(q, x))
  {
    var k, r := LowerBound(q, x), Inserted(q, x);
    forall i | 0 <= i < |r| ensures r[i] < TWO64 { InsertIndex(NatLeq, q, x, i); }
    forall i, j | 0 <= i < j < |r| ensures r[i] <= r[j] { InsertIndex(NatLeq, q, x, i); InsertIndex(NatLeq, q, x, j); }
  }

  lemma {:induction false} ErasedOrdered(q: seq<nat>, x: nat)
    requires Ordered(q)
    ensures Ordered(RemoveFirst(q, x)) && forall y: nat | y in RemoveFirst(q, x) :: y in q
  {
    if q != [] {
      assert q == [q[0]] + q[1..];
      if q[0] != x {
        ErasedOrdered(q[1..], x);
        var r := RemoveFirst(q[1..], x);
        forall i | 0 <= i < |r| ensures q[0] <= r[i] { assert r[i] in q[1..]; }
      }
    }
  }

  /** std::find and vector::erase. */
  method EraseValue(q: seq<nat>, x: nat) returns (r: seq<nat>)
    ensures r == RemoveFirst(q, x)
  {
    for i := 0 to |q|
      invariant RemoveFirst(q, x) == q[..i] + RemoveFirst(q[i..], x)
    {
      assert q[i..] == [q[i]] + q[i + 1..];
      if q[i] == x { return q[..i] + q[i + 1..]; }
      assert q[..i + 1] == q[..i] + [q[i]];
    }
    assert q[..|q|] == q && RemoveFirst(q, x) == q;
    return q;
  }

  // ---- The cache ----

  datatype Cache = Cache(sns: seq<nat>, reversed: seq<nat>)

  ghost function Mirrored(s: set<nat>): set<nat> { set n | n in s :: Mirror(n) }

  ghost predicate Small(q: seq<nat>) { forall n | n in q :: n < Pow16(12) }

  /** Both lists strictly increasing, the second exactly the mirror image of the first. */
  ghost predicate IsIndex(c: Cache) {
    Increasing(c.sns) && Increasing(c.reversed) && Small(c.sns) && Elements(c.reversed) == Mirrored(Elements(c.sns))
  }

  /** What holds of the lists whatever texts they were built from. */
  ghost predicate Sound(c: Cache) { Increasing(c.sns) && Ordered(c.sns) && Ordered(c.reversed) }

  lemma IndexIsSound(c: Cache)
    requires IsIndex(c)
    ensures Sound(c)
  {
    MirroredSmall(c);
    Pow16Values();
    assert forall i | 0 <= i < |c.sns| :: c.sns[i] in c.sns;
    assert forall i | 0 <= i < |c.reversed| :: c.reversed[i] in c.reversed;
  }

  lemma MirroredSmall(c: Cache)
    requires IsIndex(c)
    ensures Small(c.reversed)
  {
    forall m | m in c.reversed ensures m < Pow16(12) {
      assert m in Elements(c.reversed);
      var n :| n in Elements(c.sns) && m == Mirror(n);
      MirrorInvolution(n);
    }
  }

  ghost predicate IsMac(s: string) { |s| == 12 && IsHexText(s) }

  ghost function MacNumber(s: string): nat { if IsHexText(s) then ParseHex(s) else 0 }

  /** What std::stoull makes of a MAC and of its reversal. */
  lemma MacParses(s: string)
    requires IsMac(s)
    ensures Stoull(s) == Some(MacNumber(s)) && Stoull(Rev(s)) == Some(Mirror(MacNumber(s))) && MacNumber(s) < Pow16(12)
  {
    StoullOfHex(s);
    MirrorParses(s);
    StoullOfHex(Rev(s));
  }

  /** An index is determined by its set of MACs. */
  lemma IndexUnique(c: Cache, d: Cache)
    requires IsIndex(c) && IsIndex(d) && Elements(c.sns) == Elements(d.sns)
    ensures c == d
  {
    SameMembers(c.sns, d.sns);
    SameMembers(c.reversed, d.reversed);
  }

  lemma SameMembers(p: seq<nat>, q: seq<nat>)
    requires Increasing(p) && Increasing(q) && Elements(p) == Elements(q)
    ensures p == q
  {
    forall x: nat ensures x in p <==> x in q { assert x in Elements(p) <==> x in Elements(q); }
    IncreasingUnique(p, q);
  }

  lemma MirrorFresh(s: set<nat>, n: nat)
    requires n < Pow16(12) && (forall x | x in s :: x < Pow16(12)) && n !in s
    ensures Mirror(n) !in Mirrored(s) && Mirrored(s + {n}) == Mirrored(s) + {Mirror(n)}
  {
    if Mirror(n) in Mirrored(s) {
      var x :| x in s && Mirror(x) == Mirror(n);
      MirrorInvolution(x);
      MirrorInvolution(n);
    }
  }

  ghost function WithMac(c: Cache, n: nat): Cache {
    if n in c.sns then c else Cache(Inserted(c.sns, n), Inserted(c.reversed, Mirror(n)))
  }

  lemma WithMacMeaning(c: Cache, n: nat)
    requires IsIndex(c) && n < Pow16(12)
    ensures IsIndex(WithMac(c, n)) && Elements(WithMac(c, n).sns) == Elements(c.sns) + {n}
  {
    if n !in c.sns {
      MirrorFresh(Elements(c.sns), n);
      assert Mirror(n) !in Elements(c.reversed);
      InsertedMeaning(c.sns, n);
      InsertedMeaning(c.reversed, Mirror(n));
      forall x | x in Inserted(c.sns, n) ensures x < Pow16(12) { assert x in Elements(Inserted(c.sns, n)); }
    } else {
      assert Elements(c.sns) + {n} == Elements(c.sns);
    }
  }

  lemma IndexRemoves(c: Cache, n: nat, sns: seq<nat>, reversed: seq<nat>)
    requires IsIndex(c) && n in c.sns && Increasing(sns) && Increasing(reversed)
    requires Elements(sns) == Elements(c.sns) - {n} && Elements(reversed) == Elements(c.reversed) - {Mirror(n)}
    ensures IsIndex(Cache(sns, reversed))
  {
    var rest := Elements(c.sns) - {n};
    forall x | x in sns ensures x < Pow16(12) { assert x in Elements(sns); }
    assert rest + {n} == Elements(c.sns);
    MirrorFresh(rest, n);
    assert Mirrored(rest) + {Mirror(n)} - {Mirror(n)} == Mirrored(rest);
  }

  // ---- Search, stated as a plain filter ----

  ghost predicate StartsWith(n: nat, p: string) { |p| <= 12 && SerialText(n)[..|p|] == p }

  ghost predicate EndsWith(n: nat, p: string) { |p| <= 12 && SerialText(n)[12 - |p|..] == p }

  /** The elements of q, in order, whose serial text starts with p. */
  ghost function Starting(q: seq<nat>, p: string): seq<nat> {
    if q == [] then [] else
      var n := |q| - 1;
      Starting(q[..n], p) + if StartsWith(q[n], p) then [q[n]] else []
  }

  ghost function Ending(q: seq<nat>, p: string): seq<nat> {
    if q == [] then [] else
      var n := |q| - 1;
      Ending(q[..n], p) + if EndsWith(Mirror(q[n]), p) then [Mirror(q[n])] else []
  }

  function Take(q: seq<nat>, k: nat): seq<nat> { if k <= |q| then q[..k] else q }

  function Padded(p: string): string
    requires |p| < 12
  {
    p + seq(12 - |p|, _ => '0')
  }

  /** The number the first k digits of a serial text spell. */
  ghost function Leading(n: nat, k: nat): nat
    requires k <= 12
  {
    Value(DigitsOf(SerialText(n))[..k])
  }

  lemma LeadingSplits(n: nat, k: nat) returns (rest: nat)
    requires n < Pow16(12) && k <= 12
    ensures n == Leading(n, k) * Pow16(12 - k) + rest && rest < Pow16(12 - k)
  {
    var d := DigitsOf(SerialText(n));
    SerialTextParses(n);
    assert d == d[..k] + d[k..];
    ValueOfConcat(d[..k], d[k..]);
    ValueBound(d[k..]);
    rest := Value(d[k..]);
  }

  lemma SameValueSameDigits(a: seq<nat>, b: seq<nat>)
    requires |a| == |b| && Nibbles(a) && Nibbles(b) && Value(a) == Value(b)
    ensures a == b
  {
    DigitsOfValue(a);
    DigitsOfValue(b);
    RevRev(a);
    RevRev(b);
  }

  lemma StartsIffLeading(n: nat, p: string)
    requires |p| <= 12 && IsLowerHexText(p) && IsHexText(p)
    ensures StartsWith(n, p) <==> Leading(n, |p|) == ParseHex(p)
  {
    var t, k := SerialText(n), |p|;
    var d := DigitsOf(t)[..k];
    if StartsWith(n, p) {
      assert forall i | 0 <= i < k :: t[i] == t[..k][i] == p[i];
      assert d == DigitsOf(p);
    }
    if Value(d) == ParseHex(p) {
      SameValueSameDigits(d, DigitsOf(p));
      forall i | 0 <= i < k ensures t[i] == p[i] {
        assert HexValue(t[i]) == d[i] == DigitsOf(p)[i] == HexValue(p[i]);
        LowerHexByValue(t[i], p[i]);
      }
      assert t[..k] == p;
    }
  }

  /** The numbers whose first digits spell b and whose size further digits are free. */
  ghost predicate InBlock(n: nat, b: nat, size: nat) { b * Pow16(size) <= n < (b + 1) * Pow16(size) }

  /** A MAC starts with a lowercase pattern iff it lies in the block the pattern opens. */
  lemma PrefixBlock(n: nat, p: string)
    requires n < Pow16(12) && |p| <= 12 && IsLowerHexText(p) && IsHexText(p)
    ensures StartsWith(n, p) <==> InBlock(n, ParseHex(p), 12 - |p|)
  {
    LeadingBlock(n, |p|, ParseHex(p));
    StartsIffLeading(n, p);
  }

  lemma LeadingBlock(n: nat, k: nat, b: nat)
    requires n < Pow16(12) && k <= 12
    ensures Leading(n, k) == b <==> InBlock(n, b, 12 - k)
  {
    var rest := LeadingSplits(n, k);
    BlockArithmetic(n, Leading(n, k), b, rest, Pow16(12 - k));
  }

  lemma BlockArithmetic(n: nat, a: nat, b: nat, r: nat, p: nat)
    requires n == a * p + r && r < p
    ensures a == b <==> b * p <= n < (b + 1) * p
  {
    if a < b { assert (a + 1) * p <= b * p; }
    if a > b { assert (b + 1) * p <= a * p; }
  }

  /** Padding with zeros gives the first number of the block. */
  lemma PaddedValue(p: string)
    requires 1 <= |p| < 12 && IsHexText(p)
    ensures Stoull(Padded(p)) == Some(ParseHex(p) * Pow16(12 - |p|))
  {
    PaddedDigits(p);
    StoullOfHex(Padded(p));
  }

  lemma DigitsOfConcat(p: string, r: string)
    requires IsHexText(p) && IsHexText(r)
    ensures IsHexText(p + r) && DigitsOf(p + r) == DigitsOf(p) + DigitsOf(r)
  {}

  lemma PaddedDigits(p: string)
    requires |p| < 12 && IsHexText(p)
    ensures IsHexText(Padded(p)) && ParseHex(Padded(p)) == ParseHex(p) * Pow16(12 - |p|)
  {
    var zeros := seq(12 - |p|, _ => '0');
    ZerosText(zeros);
    DigitsOfConcat(p, zeros);
    ValueOfConcat(DigitsOf(p), DigitsOf(zeros));
    assert |DigitsOf(zeros)| == 12 - |p|;
    assert ParseHex(p) * Pow16(|DigitsOf(zeros)|) == ParseHex(p) * Pow16(12 - |p|);
  }

  lemma ZerosText(zeros: string)
    requires forall i | 0 <= i < |zeros| :: zeros[i] == '0'
    ensures IsHexText(zeros) && Value(DigitsOf(zeros)) == 0
  {
    ZerosValue(DigitsOf(zeros));
  }

  lemma {:induction false} ZerosValue(z: seq<nat>)
    requires forall i | 0 <= i < |z| :: z[i] == 0
    ensures Value(z) == 0
  {
    if z != [] { ZerosValue(z[..|z| - 1]); }
  }

  /** v is where the block of a proper pattern starts; for any other text it is anything. */
  ghost predicate OpensAt(p: string, v: nat) {
    1 <= |p| < 12 && (IsHexText(p) && IsLowerHexText(p) ==> v == ParseHex(p) * Pow16(12 - |p|))
  }

  /** From the lower bound on, matches are contiguous; before it there are none. */
  lemma MatchesContiguous(q: seq<nat>, p: string, v: nat, i: nat, j: nat)
    requires Increasing(q) && Small(q) && OpensAt(p, v) && i <= j < |q| && StartsWith(q[j], p)
    ensures LowerBound(q, v) <= j
    ensures LowerBound(q, v) <= i ==> StartsWith(q[i], p)
  {
    assert q[i] in q && q[j] in q;
    assert p == SerialText(q[j])[..|p|];
    assert IsLowerHexText(p) && IsHexText(p);
    PrefixBlock(q[j], p);
    PrefixBlock(q[i], p);
    var k := LowerBound(q, v);
    if k <= i && k < |q| { assert q[k] <= q[i] && (i < j ==> q[i] < q[j]); }
  }

  lemma {:induction false} NothingStarts(q: seq<nat>, p: string)
    requires forall i | 0 <= i < |q| :: !StartsWith(q[i], p)
    ensures Starting(q, p) == []
  {
    if q != [] { NothingStarts(q[..|q| - 1], p); }
  }

  lemma {:induction false} StartingConcat(a: seq<nat>, b: seq<nat>, p: string)
    ensures Starting(a + b, p) == Starting(a, p) + Starting(b, p)
  {
    if b == [] {
      assert a + b == a;
    } else {
      var n := |b| - 1;
      assert (a + b)[..|a| + n] == a + b[..n];
      StartingConcat(a, b[..n], p);
    }
  }

  lemma {:induction false} AllStart(q: seq<nat>, p: string)
    requires forall i | 0 <= i < |q| :: StartsWith(q[i], p)
    ensures Starting(q, p) == q
  {
    if q != [] { AllStart(q[..|q| - 1], p); assert q == q[..|q| - 1] + [q[|q| - 1]]; }
  }

  lemma SliceStarts(q: seq<nat>, p: string, k: nat, j: nat)
    requires k <= j <= |q| && forall i | k <= i < j :: StartsWith(q[i], p)
    ensures Starting(q[k..j], p) == q[k..j]
  {
    AllStart(q[k..j], p);
  }

  lemma SliceMisses(q: seq<nat>, p: string, k: nat, j: nat)
    requires k <= j <= |q| && forall i | k <= i < j :: !StartsWith(q[i], p)
    ensures Starting(q[k..j], p) == []
  {
    NothingStarts(q[k..j], p);
  }

  /** If the matches in q are exactly the positions [k, j), the filter is that slice. */
  lemma StartingIsSlice(q: seq<nat>, p: string, k: nat, j: nat)
    requires k <= j <= |q| && forall i | 0 <= i < |q| :: StartsWith(q[i], p) <==> k <= i < j
    ensures Starting(q, p) == q[k..j]
  {
    var a, b, c := q[0..k], q[k..j], q[j..|q|];
    assert q == a + b + c;
    StartingConcat(a + b, c, p);
    StartingConcat(a, b, p);
    SliceMisses(q, p, 0, k);
    SliceStarts(q, p, k, j);
    SliceMisses(q, p, j, |q|);
  }

  ghost predicate MatchRun(q: seq<nat>, p: string, k: nat, j: nat)
    requires k <= j <= |q|
  {
    forall i | k <= i < j :: StartsWith(q[i], p)
  }

  lemma MatchRunGrows(q: seq<nat>, p: string, k: nat, j: nat)
    requires k <= j < |q| && MatchRun(q, p, k, j) && StartsWith(q[j], p)
    ensures MatchRun(q, p, k, j + 1)
  {}

  /** Where the matches end. */
  ghost function RunEnd(q: seq<nat>, p: string, j: nat): (e: nat)
    requires j <= |q|
    ensures j <= e <= |q| && (forall i | j <= i < e :: StartsWith(q[i], p)) && (e < |q| ==> !StartsWith(q[e], p))
    decreases |q| - j
  {
    if j < |q| && StartsWith(q[j], p) then RunEnd(q, p, j + 1) else j
  }

  lemma MatchInRun(q: seq<nat>, p: string, v: nat, j: nat, i: nat)
    requires Increasing(q) && Small(q) && OpensAt(p, v)
    requires LowerBound(q, v) <= j <= |q| && i < |q| && StartsWith(q[i], p)
    ensures LowerBound(q, v) <= i < RunEnd(q, p, j)
  {
    var e := RunEnd(q, p, j);
    MatchesContiguous(q, p, v, i, i);
    if e <= i { MatchesContiguous(q, p, v, e, i); }
  }

  /** The matches that follow one another from the first number not below v. */
  ghost function RunAt(q: seq<nat>, p: string, v: nat): seq<nat> {
    q[LowerBound(q, v)..RunEnd(q, p, LowerBound(q, v))]
  }

  /** In an index, that run is all the matches there are. */
  lemma ScanFindsAll(q: seq<nat>, p: string, v: nat)
    requires Increasing(q) && Small(q) && OpensAt(p, v)
    ensures RunAt(q, p, v) == Starting(q, p)
  {
    var k := LowerBound(q, v);
    MatchesAreRun(q, p, v, k);
    StartingIsSlice(q, p, k, RunEnd(q, p, k));
  }

  lemma {:induction false} RunEndFrom(q: seq<nat>, p: string, k: nat, j: nat)
    requires k <= j <= |q| && MatchRun(q, p, k, j)
    ensures RunEnd(q, p, k) == RunEnd(q, p, j)
    decreases j - k
  {
    if k < j { RunEndFrom(q, p, k + 1, j); }
  }

  lemma MatchesAreRun(q: seq<nat>, p: string, v: nat, j: nat)
    requires Increasing(q) && Small(q) && OpensAt(p, v)
    requires LowerBound(q, v) <= j <= |q| && MatchRun(q, p, LowerBound(q, v), j)
    ensures forall i | 0 <= i < |q| :: StartsWith(q[i], p) <==> LowerBound(q, v) <= i < RunEnd(q, p, j)
  {
    forall i | 0 <= i < |q| ensures StartsWith(q[i], p) <==> LowerBound(q, v) <= i < RunEnd(q, p, j) {
      if StartsWith(q[i], p) { MatchInRun(q, p, v, j, i); }
    }
  }

  lemma TakeOfSlice(q: seq<nat>, k: nat, j: nat, e: nat, wanted: nat)
    requires k <= j <= e <= |q| && j - k <= wanted && (j == e || j - k == wanted)
    ensures q[k..j] == Take(q[k..e], wanted)
  {}

  lemma TailOfReversal(t: string, p: string)
    requires |p| <= |t|
    ensures Rev(t)[|t| - |p|..] == p <==> t[..|p|] == Rev(p)
  {
    var u := t[..|p|];
    var a, b := Rev(t)[|t| - |p|..], Rev(u);
    assert |a| == |b| == |p|;
    forall i | 0 <= i < |p| ensures a[i] == b[i] {
      assert a[i] == Rev(t)[|t| - |p| + i] == t[|p| - 1 - i] == u[|p| - 1 - i];
    }
    assert a == b;
    RevRev(p);
    RevRev(u);
  }

  /** Suffix matches are prefix matches of the mirror image. */
  lemma SuffixIsMirroredPrefix(m: nat, p: string)
    requires m < Pow16(12)
    ensures EndsWith(Mirror(m), p) <==> StartsWith(m, Rev(p))
  {
    MirrorText(m);
    if |p| <= 12 { TailOfReversal(SerialText(m), p); }
  }

  lemma {:induction false} EndingIsMirroredStarting(q: seq<nat>, p: string)
    requires Small(q)
    ensures |Ending(q, p)| == |Starting(q, Rev(p))|
    ensures forall i | 0 <= i < |Ending(q, p)| :: Ending(q, p)[i] == Mirror(Starting(q, Rev(p))[i])
  {
    if q != [] {
      var n := |q| - 1;
      assert forall m | m in q[..n] :: m in q;
      EndingIsMirroredStarting(q[..n], p);
      assert q[n] in q;
      SuffixIsMirroredPrefix(q[n], p);
    }
  }

  lemma FullMatch(n: nat, p: string)
    requires n < Pow16(12) && |p| == 12 && IsLowerHexText(p) && IsHexText(p)
    ensures StartsWith(n, p) <==> n == ParseHex(p)
  {
    PrefixBlock(n, p);
    assert Pow16(0) == 1;
  }

  /** A full-length lowercase pattern matches exactly the MAC it spells. */
  lemma FullPattern(q: seq<nat>, p: string)
    requires Increasing(q) && Small(q) && |p| == 12 && IsLowerHexText(p) && IsHexText(p)
    ensures Starting(q, p) == if ParseHex(p) in q then [ParseHex(p)] else []
  {
    var v := ParseHex(p);
    forall n | n in q ensures StartsWith(n, p) <==> n == v { FullMatch(n, p); }
    if v in q {
      var k :| 0 <= k < |q| && q[k] == v;
      forall i | 0 <= i < |q| ensures StartsWith(q[i], p) <==> k <= i < k + 1 { assert q[i] in q; }
      StartingIsSlice(q, p, k, k + 1);
    } else {
      forall i | 0 <= i < |q| ensures !StartsWith(q[i], p) { assert q[i] in q; }
      NothingStarts(q, p);
    }
  }

  /** The answer as reported: the matches themselves, or their mirror images. */
  ghost predicate IsImage(a: seq<nat>, q: seq<nat>, mirrored: bool) {
    |a| == |q| && forall i | 0 <= i < |a| :: a[i] == if mirrored then Mirror(q[i]) else q[i]
  }

  lemma ImageGrows(a: seq<nat>, q: seq<nat>, k: nat, j: nat, found: nat, mirrored: bool)
    requires k <= j < |q| && IsImage(a, q[k..j], mirrored) && found == if mirrored then Mirror(q[j]) else q[j]
    ensures IsImage(a + [found], q[k..j + 1], mirrored)
  {}

  /** The text comparison of one scan step; what would be reported, and whether it matches. */
  method Inspect(m: nat, p: string, reverseResult: bool) returns (found: nat, matches: bool)
    requires m < TWO64 && |p| <= 12
    ensures found == if reverseResult then Mirror(m) else m
    ensures matches <==> StartsWith(m, p)
  {
    if reverseResult {
      found := Reverse(m);
      MirrorText(m);
      RevRev(SerialText(m));
      var text := IntToSerialNumber(found);
      matches := p == Rev(text)[..|p|];
    } else {
      found := m;
      var text := IntToSerialNumber(m);
      matches := p == text[..|p|];
    }
  }

  method ScanMatches(p: string, v: nat, howMany: nat, q: seq<nat>, reverseResult: bool) returns (a: seq<nat>)
    requires Ordered(q) && |p| < 12
    ensures IsImage(a, Take(RunAt(q, p, v), howMany), reverseResult)
  {
    a := [];
    var k := LowerBound(q, v);
    var j := k;
    while j < |q| && j - k < howMany
      invariant k <= j <= |q| && j - k <= howMany && MatchRun(q, p, k, j)
      invariant IsImage(a, q[k..j], reverseResult)
    {
      var found, matches := Inspect(q[j], p, reverseResult);
      if !matches { break; }
      MatchRunGrows(q, p, k, j);
      ImageGrows(a, q, k, j, found, reverseResult);
      a := a + [found];
      j := j + 1;
    }
    RunEndFrom(q, p, k, j);
    TakeOfSlice(q, k, j, RunEnd(q, p, k), howMany);
  }

  /** Read as one number, a full-length pattern stands for the MAC it spells, in whatever case. */
  lemma FullPatternAnyCase(q: seq<nat>, p: string)
    requires Increasing(q) && Small(q) && |p| == 12 && IsHexText(p)
    ensures Stoull(p) == Some(ParseHex(p)) && Starting(q, SerialText(ParseHex(p))) == Only(q, ParseHex(p))
    ensures IsLowerHexText(p) ==> SerialText(ParseHex(p)) == p
  {
    StoullOfHex(p);
    ValueBound(DigitsOf(p));
    SerialTextParses(ParseHex(p));
    FullPattern(q, SerialText(ParseHex(p)));
    if IsLowerHexText(p) { ParsedTextPrints(p); }
  }

  /** A shorter pattern has to be in lowercase to find anything. */
  lemma OtherCharactersFindNothing(q: seq<nat>, p: string)
    requires !IsLowerHexText(p)
    ensures Starting(q, p) == []
  {
    forall n: nat ensures !StartsWith(n, p) { assert |p| <= 12 ==> IsLowerHexText(SerialText(n)[..|p|]); }
    NothingStarts(q, p);
  }

  /** The number a pattern is searched by; None when std::stoull throws. */
  function PatternNumber(p: string): Option<nat> {
    if |p| < 12 then Stoull(Padded(p)) else Stoull(p)
  }

  function Only(q: seq<nat>, v: nat): seq<nat> { if v in q then [v] else [] }

  /** The whole outcome of a search of q, for any text and any count: a pattern of twelve characters is looked
      up as a number, a shorter one gives the run of matches from where it opens, a longer one finds nothing. */
  ghost predicate Found(ok: bool, a: seq<nat>, q: seq<nat>, p: string, howMany: nat, mirrored: bool) {
    && (ok <==> |p| > 12 || PatternNumber(p).Some?)
    && IsImage(a, if !ok || |p| > 12 then []
                  else if |p| == 12 then Only(q, PatternNumber(p).value)
                  else Take(RunAt(q, p, PatternNumber(p).value), howMany), mirrored)
  }

  /** The search over one sorted vector. ok is false when std::stoull throws. */
  method ReturnNumbers(p: string, howMany: nat, q: seq<nat>, reverseResult: bool) returns (ok: bool, a: seq<nat>)
    requires Ordered(q) && p != []
    ensures Found(ok, a, q, p, howMany, reverseResult)
  {
    if |p| == 12 {
      var sn := Stoull(p);
      if sn == None { return false, []; }
      if sn.value !in q { return true, []; }
      var found := sn.value;
      if reverseResult { found := Reverse(found); }
      return true, [found];
    }
    if |p| > 12 { return true, []; }
    var sn := Stoull(Padded(p));
    if sn == None { return false, []; }
    a := ScanMatches(p, sn.value, howMany, q, reverseResult);
    return true, a;
  }

  /** For a proper pattern of any length the outcome is the plain filter, cut to howMany. */
  lemma FoundIsFilter(ok: bool, a: seq<nat>, q: seq<nat>, p: string, howMany: nat, mirrored: bool)
    requires Increasing(q) && Small(q) && Found(ok, a, q, p, howMany, mirrored)
    requires 1 <= |p| <= 12 && IsLowerHexText(p) && howMany >= 1
    ensures ok && IsImage(a, Take(Starting(q, p), howMany), mirrored)
  {
    assert IsHexText(p);
    if |p| == 12 {
      FullPatternAnyCase(q, p);
    } else {
      PaddedValue(p);
      ScanFindsAll(q, p, PatternNumber(p).value);
    }
  }

  lemma PlainImage(a: seq<nat>, q: seq<nat>)
    requires IsImage(a, q, false)
    ensures a == q
  {}

  lemma TakeEnding(a: seq<nat>, q: seq<nat>, p: string, howMany: nat)
    requires Small(q) && IsImage(a, Take(Starting(q, Rev(p)), howMany), true)
    ensures a == Take(Ending(q, p), howMany)
  {
    EndingIsMirroredStarting(q, p);
  }

  /** For a proper pattern and count, the answer is the plain filter, in the order of the index. */
  ghost predicate FiltersByPrefix(ok: bool, a: seq<nat>, q: seq<nat>, pattern: string, howMany: nat) {
    1 <= |pattern| <= 12 && IsLowerHexText(pattern) && howMany >= 1 ==> ok && a == Take(Starting(q, pattern), howMany)
  }

  ghost predicate FiltersBySuffix(ok: bool, a: seq<nat>, q: seq<nat>, pattern: string, howMany: nat) {
    1 <= |pattern| <= 12 && IsLowerHexText(pattern) && howMany >= 1 ==> ok && a == Take(Ending(q, pattern), howMany)
  }

  lemma FoundIsPrefixFilter(ok: bool, a: seq<nat>, q: seq<nat>, pattern: string, howMany: nat)
    requires Increasing(q) && Small(q) && Found(ok, a, q, pattern, howMany, false)
    ensures FiltersByPrefix(ok, a, q, pattern, howMany)
  {
    if 1 <= |pattern| <= 12 && IsLowerHexText(pattern) && howMany >= 1 {
      FoundIsFilter(ok, a, q, pattern, howMany, false);
      PlainImage(a, Take(Starting(q, pattern), howMany));
    }
  }

  lemma FoundIsSuffixFilter(ok: bool, a: seq<nat>, q: seq<nat>, pattern: string, howMany: nat)
    requires Increasing(q) && Small(q) && Found(ok, a, q, Rev(pattern), howMany, true)
    ensures FiltersBySuffix(ok, a, q, pattern, howMany)
  {
    if 1 <= |pattern| <= 12 && IsLowerHexText(pattern) && howMany >= 1 {
      FoundIsFilter(ok, a, q, Rev(pattern), howMany, true);
      TakeEnding(a, q, pattern, howMany);
    }
  }

  /** Prefix search; of an index it gives the first howMany MACs, in its order, that start with the pattern. */
  method SearchPrefix(q: seq<nat>, pattern: string, howMany: nat) returns (ok: bool, a: seq<nat>)
    requires Ordered(q) && pattern != []
    ensures Found(ok, a, q, pattern, howMany, false)
    ensures Increasing(q) && Small(q) ==> FiltersByPrefix(ok, a, q, pattern, howMany)
  {
    ok, a := ReturnNumbers(pattern, howMany, q, false);
    if Increasing(q) && Small(q) { FoundIsPrefixFilter(ok, a, q, pattern, howMany); }
  }

  /** Suffix search; of a reversed index it gives the first howMany MACs, in its order, that end with the pattern. */
  method SearchSuffix(q: seq<nat>, pattern: string, howMany: nat) returns (ok: bool, a: seq<nat>)
    requires Ordered(q)
    ensures pattern == [] ==> ok && a == []
    ensures pattern != [] ==> Found(ok, a, q, Rev(pattern), howMany, true)
    ensures pattern != [] && Increasing(q) && Small(q) ==> FiltersBySuffix(ok, a, q, pattern, howMany)
  {
    var r := Rev(pattern);
    if r == [] { return true, []; }
    ok, a := ReturnNumbers(r, howMany, q, true);
    if Increasing(q) && Small(q) { FoundIsSuffixFilter(ok, a, q, pattern, howMany); }
  }

  /** Adding any text at all: the new pair of lists, and whether std::stoull never threw. A throw on the
      reversed text leaves the first list already changed. */
  function AddText(c: Cache, s: string): (Cache, bool) {
    match Stoull(s)
    case None => (c, false)
    case Some(sn) =>
      if sn in c.sns then (c, true) else
        match Stoull(Rev(s))
        case None => (Cache(Inserted(c.sns, sn), c.reversed), false)
        case Some(rsn) => (Cache(Inserted(c.sns, sn), Inserted(c.reversed, rsn)), true)
  }

  lemma AddTextOfMac(c: Cache, s: string)
    requires IsMac(s)
    ensures AddText(c, s) == (WithMac(c, MacNumber(s)), true)
  {
    MacParses(s);
  }

  /** The text is refused, or already known, or spells a 48-bit number and backwards its mirror image. */
  ghost predicate AddsCleanly(c: Cache, s: string) {
    match Stoull(s)
    case None => true
    case Some(n) => n in c.sns || (n < Pow16(12) && Stoull(Rev(s)) == Some(Mirror(n)))
  }

  /** Adding a text keeps the two lists in step iff it adds cleanly. */
  lemma AddKeepsIndexIff(c: Cache, s: string)
    requires IsIndex(c)
    ensures IsIndex(AddText(c, s).0) <==> AddsCleanly(c, s)
  {
    var r := AddText(c, s).0;
    if Stoull(s).Some? && Stoull(s).value !in c.sns {
      var n := Stoull(s).value;
      InsertedMembers(c.sns, n);
      assert n in Elements(r.sns);
      if n >= Pow16(12) {
        assert n in r.sns;
      } else if Stoull(Rev(s)) == Some(Mirror(n)) {
        WithMacMeaning(c, n);
      } else {
        MirrorMissing(c, s, n);
      }
    }
  }

  lemma AddTextMeaning(c: Cache, s: string)
    requires IsIndex(c)
    ensures IsIndex(AddText(c, s).0) <==> AddsCleanly(c, s)
    ensures IsMac(s) ==>
              && AddsCleanly(c, s) && AddText(c, s).1
              && Elements(AddText(c, s).0.sns) == Elements(c.sns) + {MacNumber(s)}
  {
    AddKeepsIndexIff(c, s);
    if IsMac(s) {
      AddTextOfMac(c, s);
      MacParses(s);
      WithMacMeaning(c, MacNumber(s));
    }
  }

  /** The mirror image of a new number does not get into the second list by itself. */
  lemma MirrorMissing(c: Cache, s: string, n: nat)
    requires IsIndex(c) && Stoull(s) == Some(n) && n !in c.sns && n < Pow16(12) && Stoull(Rev(s)) != Some(Mirror(n))
    ensures !IsIndex(AddText(c, s).0)
  {
    var r := AddText(c, s).0;
    MirrorFresh(Elements(c.sns), n);
    InsertedMembers(c.sns, n);
    assert Mirror(n) in Mirrored(Elements(r.sns));
    if Stoull(Rev(s)).Some? { InsertedMembers(c.reversed, Stoull(Rev(s)).value); }
    assert Mirror(n) !in Elements(r.reversed);
  }

  /** What goes wrong with a short station id: fewer than twelve hex digits spell, backwards, too small a
      number, unless they are all zeros. Nothing throws. */
  lemma ShortTextAddsCleanlyIff(c: Cache, s: string)
    requires 1 <= |s| < 12 && IsHexText(s) && ParseHex(s) !in c.sns
    ensures AddText(c, s).1
    ensures AddsCleanly(c, s) <==> ParseHex(s) == 0
  {
    ShortParses(s);
    DigitsBackwards(s);
    ShortMirrorDiffers(ParseHex(s), |s|, ParseHex(Rev(s)));
  }

  lemma ShortParses(s: string)
    requires 1 <= |s| < 12 && IsHexText(s)
    ensures Stoull(s) == Some(ParseHex(s)) && Stoull(Rev(s)) == Some(ParseHex(Rev(s))) && ParseHex(s) < Pow16(12)
  {
    StoullOfHex(s);
    StoullOfHex(Rev(s));
    ValueBound(DigitsOf(s));
    PowMonotone(|s|, 12);
  }

  lemma ShortMirrorDiffers(n: nat, k: nat, back: nat)
    requires k < 12 && n < Pow16(k) && back == Value(Low(n, k))
    ensures Mirror(n) == back <==> n == 0
  {
    PowMonotone(k, 12);
    MirrorOfShort(n, k, 12 - k, back);
    ScaledDiffers(n, back, 12 - k);
  }

  lemma ScaledDiffers(n: nat, back: nat, k: nat)
    requires n < Pow16(12) && Mirror(n) == back * Pow16(k) && k > 0
    ensures Mirror(n) == back <==> n == 0
  {
    ZeroMirror();
    MirrorInvolution(n);
    if back > 0 { GrowsStrictly(back, k); }
  }

  lemma GrowsStrictly(b: nat, k: nat)
    requires b > 0 && k > 0
    ensures b < b * Pow16(k)
  {
    PowMonotone(1, k);
    assert Pow16(1) == 16;
    assert b * Pow16(k) >= b * 16;
  }

  lemma ZeroMirror()
    ensures Mirror(0) == 0
  {
    var z := seq(12, _ => 0);
    LowAppendsZeros(0, 0, z);
    assert Low(0, 12) == z;
    ZerosValue(z);
  }

  /** The mirror image of a short number is its digits backwards, followed by zeros. */
  lemma MirrorOfShort(n: nat, k: nat, m: nat, back: nat)
    requires k + m == 12 && n < Pow16(k) && back == Value(Low(n, k))
    ensures Mirror(n) == back * Pow16(m)
  {
    ShiftBound(n, k);
    var z := seq(m, _ => 0);
    LowAppendsZeros(n, k, z);
    ValueOfConcat(Low(n, k), z);
    ZerosValue(z);
  }

  /** The other way to break the index: the reversed parse throws after the first list has changed. */
  lemma MalformedStationBreaksIndex()
    ensures IsIndex(Cache([], [])) && AddText(Cache([], []), "1g") == (Cache([1], []), false)
    ensures !IsIndex(Cache([1], []))
  {
    StoullOfOneG();
    StoullOfGOne();
    assert Rev("1g") == "g1";
    AddKeepsIndexIff(Cache([], []), "1g");
    assert Inserted([], 1) == [1];
  }

  lemma StoullOfOneG()
    ensures Stoull("1g") == Some(1)
  {
    assert SkipSpaces("1g") == "1g" && HexRun("1g") == 1;
    assert "1g"[..1] == "1" && DigitsOf("1") == [1];
    assert Value([1]) == 1 by { assert [1][..0] == []; }
  }

  lemma StoullOfGOne()
    ensures Stoull("g1") == None
  {
    assert SkipSpaces("g1") == "g1" && HexRun("g1") == 0;
  }

  /** Deleting any text at all, likewise. */
  function DeleteText(c: Cache, s: string): (Cache, bool) {
    match Stoull(s)
    case None => (c, false)
    case Some(sn) =>
      if sn !in c.sns then (c, true) else
        match Stoull(Rev(s))
        case None => (Cache(RemoveFirst(c.sns, sn), c.reversed), false)
        case Some(rsn) => (Cache(RemoveFirst(c.sns, sn), RemoveFirst(c.reversed, rsn)), true)
  }

  ghost predicate DeletesCleanly(c: Cache, s: string) {
    match Stoull(s)
    case None => true
    case Some(n) => n !in c.sns || Stoull(Rev(s)) == Some(Mirror(n))
  }

  /** Deleting a text keeps the two lists in step iff it deletes cleanly. */
  lemma DeleteKeepsIndexIff(c: Cache, s: string)
    requires IsIndex(c)
    ensures IsIndex(DeleteText(c, s).0) <==> DeletesCleanly(c, s)
    ensures DeletesCleanly(c, s) && Stoull(s).Some? ==>
              Elements(DeleteText(c, s).0.sns) == Elements(c.sns) - {Stoull(s).value}
  {
    if Stoull(s).Some? && Stoull(s).value in c.sns {
      var n, r := Stoull(s).value, DeleteText(c, s).0;
      ErasedElements(c.sns, n);
      if Stoull(Rev(s)) == Some(Mirror(n)) {
        ErasedElements(c.reversed, Mirror(n));
        IndexRemoves(c, n, r.sns, r.reversed);
      } else {
        MirrorLeft(c, s, n);
      }
    }
  }

  lemma DeleteTextMeaning(c: Cache, s: string)
    requires IsIndex(c)
    ensures IsIndex(DeleteText(c, s).0) <==> DeletesCleanly(c, s)
    ensures IsMac(s) ==>
              && DeletesCleanly(c, s) && DeleteText(c, s).1 && Stoull(s).Some?
              && Elements(DeleteText(c, s).0.sns) == Elements(c.sns) - {MacNumber(s)}
  {
    DeleteKeepsIndexIff(c, s);
    if IsMac(s) { MacParses(s); }
  }

  lemma NothingToDelete(s: string)
    ensures DeletesCleanly(Cache([], []), s) && DeleteText(Cache([], []), s).0 == Cache([], [])
  {}

  lemma ErasedElements(q: seq<nat>, x: nat)
    requires Increasing(q)
    ensures Increasing(RemoveFirst(q, x)) && Elements(RemoveFirst(q, x)) == Elements(q) - {x}
  {
    RemoveFromIncreasing(q, x);
  }

  lemma MirrorLeft(c: Cache, s: string, n: nat)
    requires IsIndex(c) && Stoull(s) == Some(n) && n in c.sns && Stoull(Rev(s)) != Some(Mirror(n))
    ensures !IsIndex(DeleteText(c, s).0)
  {
    var r := DeleteText(c, s).0;
    ErasedElements(c.sns, n);
    if Stoull(Rev(s)).Some? { ErasedElements(c.reversed, Stoull(Rev(s)).value); }
    assert n in Elements(c.sns) && Mirror(n) in Mirrored(Elements(c.sns));
    assert Mirror(n) in Elements(r.reversed);
    var rest := Elements(c.sns) - {n};
    forall x | x in rest ensures x < Pow16(12) { assert x in c.sns; }
    MirrorFresh(rest, n);
  }

  /** Whatever is added or deleted, the lists stay fit for searching. */
  lemma TextsKeepSound(c: Cache, s: string)
    requires Sound(c)
    ensures Sound(AddText(c, s).0) && Sound(DeleteText(c, s).0)
  {
    if Stoull(s).Some? {
      var n := Stoull(s).value;
      if n !in c.sns { InsertedMeaning(c.sns, n); }
      InsertedOrdered(c.sns, n);
      ErasedElements(c.sns, n);
      ErasedOrdered(c.sns, n);
      if Stoull(Rev(s)).Some? {
        InsertedOrdered(c.reversed, Stoull(Rev(s)).value);
        ErasedOrdered(c.reversed, Stoull(Rev(s)).value);
      }
    }
  }

  method AddNumber(c: Cache, s: string) returns (r: Cache, ok: bool)
    ensures (r, ok) == AddText(c, s)
  {
    r := c;
    var sn := Stoull(s);
    if sn == None { return r, false; }
    if sn.value !in r.sns {
      r := r.(sns := Inserted(r.sns, sn.value));
      var rsn := Stoull(Rev(s));
      if rsn == None { return r, false; }
      r := r.(reversed := Inserted(r.reversed, rsn.value));
    }
    return r, true;
  }

  method DeleteNumber(c: Cache, s: string, sn: nat) returns (r: Cache, ok: bool)
    requires Stoull(s) == Some(sn)
    ensures (r, ok) == DeleteText(c, s)
  {
    r := c;
    if sn in r.sns {
      var sns := EraseValue(r.sns, sn);
      r := r.(sns := sns);
      var rsn := Stoull(Rev(s));
      if rsn == None { return r, false; }
      var reversed := EraseValue(r.reversed, rsn.value);
      r := r.(reversed := reversed);
    }
    return r, true;
  }

  function At(cache: map<string, Cache>, venue: string): Cache {
    if venue in cache then cache[venue] else Cache([], [])
  }

  class WifiClientCache {
    var cache: map<string, Cache>

    ghost predicate Valid()
      reads this
    {
      forall v | v in cache :: IsIndex(cache[v])
    }

    ghost predicate Searchable()
      reads this
    {
      forall v | v in cache :: Sound(cache[v])
    }

    /** The MACs known for a venue. */
    ghost function Contents(venue: string): set<nat>
      reads this
    {
      Elements(At(cache, venue).sns)
    }

    constructor ()
      ensures Valid() && Searchable() && cache == map[]
    {
      cache := map[];
    }

    /** For any text: the venue appears, the lists change as AddText says, and they stay in step iff the text
        adds cleanly, as every MAC does. */
    method AddSerialNumber(venue: string, s: string) returns (ok: bool)
      modifies this
      ensures cache == old(cache)[venue := AddText(At(old(cache), venue), s).0]
      ensures ok == AddText(At(old(cache), venue), s).1
      ensures old(Searchable()) ==> Searchable()
      ensures old(Valid()) ==> (Valid() <==> AddsCleanly(At(old(cache), venue), s))
      ensures old(Valid()) && IsMac(s) ==> ok && Valid() && Contents(venue) == old(Contents(venue)) + {MacNumber(s)}
    {
      var c := At(cache, venue);
      if IsIndex(c) { AddTextMeaning(c, s); }
      ok := AddLocked(venue, s);
      assert cache[venue] == AddText(c, s).0;
    }

    /** The overload for a caller that holds the lock. */
    method AddLocked(venue: string, s: string) returns (ok: bool)
      modifies this
      ensures cache == old(cache)[venue := AddText(At(old(cache), venue), s).0]
      ensures ok == AddText(At(old(cache), venue), s).1
      ensures old(Searchable()) ==> Searchable()
    {
      var c;
      if Sound(At(cache, venue)) { TextsKeepSound(At(cache, venue), s); }
      c, ok := AddNumber(At(cache, venue), s);
      cache := cache[venue := c];
    }

    /** For any text; a venue that is not there does not appear. */
    method DeleteSerialNumber(venue: string, s: string) returns (ok: bool)
      modifies this
      ensures venue !in old(cache) ==> cache == old(cache) && ok == Stoull(s).Some?
      ensures venue in old(cache) ==>
                var (c, deleted) := DeleteText(old(cache)[venue], s); cache == old(cache)[venue := c] && ok == deleted
      ensures old(Searchable()) ==> Searchable()
      ensures old(Valid()) ==> (Valid() <==> DeletesCleanly(At(old(cache), venue), s))
      ensures old(Valid()) && IsMac(s) ==> ok && Valid() && Contents(venue) == old(Contents(venue)) - {MacNumber(s)}
    {
      var c := At(cache, venue);
      if Sound(c) { TextsKeepSound(c, s); }
      if IsIndex(c) { DeleteTextMeaning(c, s); }
      if venue !in cache { NothingToDelete(s); }
      ok := DeleteLocked(venue, s);
      assert venue in cache ==> cache[venue] == DeleteText(c, s).0;
    }

    method DeleteLocked(venue: string, s: string) returns (ok: bool)
      modifies this
      ensures venue !in old(cache) ==> cache == old(cache) && ok == Stoull(s).Some?
      ensures venue in old(cache) ==>
                var (c, deleted) := DeleteText(old(cache)[venue], s); cache == old(cache)[venue := c] && ok == deleted
    {
      var sn := Stoull(s);
      if sn == None {
        assert venue in cache ==> cache == cache[venue := cache[venue]];
        return false;
      }
      if venue !in cache { return true; }
      var c;
      c, ok := DeleteNumber(cache[venue], s, sn.value);
      cache := cache[venue := c];
    }

    /** The timer's rebuild from the rows (station, venue) of the history table, if they can be read. */
    method OnTimer(answer: Option<seq<(string, string)>>) returns (ok: bool)
      modifies this
      ensures answer.None? ==> ok && cache == old(cache)
      ensures answer.Some? ==> (cache, ok) == Rebuild(answer.value) && Searchable()
      ensures answer.Some? && (forall r | r in answer.value :: IsMac(r.0)) ==> ok && Valid()
    {
      if answer.None? { return true; }
      var rows := answer.value;
      RebuildSearchable(rows);
      if forall r | r in rows :: IsMac(r.0) { RebuildOfMacs(rows); }
      cache, ok := map[], true;
      for i := 0 to |rows|
        invariant ok && (cache, true) == Rebuild(rows[..i])
      {
        RebuildNext(rows, i);
        ok := AddLocked(rows[i].1, rows[i].0);
        if !ok {
          RebuildStops(rows, i + 1);
          return;
        }
      }
      assert rows[..|rows|] == rows;
    }

    /** Prefix search, "*suffix" search, or a slice for the empty pattern; HowMany is cut to 32 bits on the
        way to the index search. ok is false when std::stoull throws. */
    method FindNumbers(venue: string, pattern: string, offset: nat, howMany: nat) returns (ok: bool, a: seq<nat>)
      requires Searchable()
      ensures venue !in cache || pattern == "*" ==> ok && a == []
      ensures venue in cache && pattern == "" ==>
                var q := cache[venue].sns;
                && ok && a == From(q, offset, howMany)
                && |a| == (if offset >= |q| then 0 else if |q| - offset <= howMany then |q| - offset else howMany)
                && forall i | 0 <= i < |a| :: a[i] == q[offset + i]
      ensures venue in cache && pattern != "" && pattern[0] != '*' ==>
                var q, n := cache[venue].sns, howMany % TWO32;
                Found(ok, a, q, pattern, n, false) && (IsIndex(cache[venue]) ==> FiltersByPrefix(ok, a, q, pattern, n))
      ensures venue in cache && |pattern| > 1 && pattern[0] == '*' ==>
                var q, p, n := cache[venue].reversed, pattern[1..], howMany % TWO32;
                Found(ok, a, q, Rev(p), n, true) && (IsIndex(cache[venue]) ==> FiltersBySuffix(ok, a, q, p, n))
    {
      if venue !in cache { return true, []; }
      var c := cache[venue];
      if pattern == "" {
        a := Slice(c.sns, offset, howMany);
        return true, a;
      }
      if pattern[0] == '*' {
        if IsIndex(c) { MirroredSmall(c); }
        ok, a := SearchSuffix(c.reversed, pattern[1..], howMany % TWO32);
      } else {
        ok, a := SearchPrefix(c.sns, pattern, howMany % TWO32);
      }
    }
  }

  /** At most howMany elements, from an offset on. */
  function From(q: seq<nat>, offset: nat, howMany: nat): seq<nat> {
    if offset <= |q| then Take(q[offset..], howMany) else []
  }

  method Slice(q: seq<nat>, offset: nat, howMany: nat) returns (a: seq<nat>)
    ensures a == From(q, offset, howMany)
    ensures |a| == if offset >= |q| then 0 else if |q| - offset <= howMany then |q| - offset else howMany
    ensures forall i | 0 <= i < |a| :: a[i] == q[offset + i]
  {
    a := [];
    var i, left := 0, howMany;
    while left > 0 && i < |q|
      invariant 0 <= i <= |q| && left == howMany - |a|
      invariant a == if i <= offset then [] else q[offset..i]
    {
      if i >= offset {
        a := a + [q[i]];
        left := left - 1;
      }
      i := i + 1;
    }
  }

  // ---- Rebuild ----

  ghost function MacsOf(rows: seq<(string, string)>, venue: string): set<nat> {
    set r | r in rows && r.1 == venue :: MacNumber(r.0)
  }

  ghost function VenuesOf(rows: seq<(string, string)>): set<string> { set r | r in rows :: r.1 }

  /** The cache holds exactly the venues and MACs of the rows. */
  ghost predicate IsRebuilt(cache: map<string, Cache>, rows: seq<(string, string)>) {
    && cache.Keys == VenuesOf(rows)
    && (forall v | v in cache :: IsIndex(cache[v]) && Elements(cache[v].sns) == MacsOf(rows, v))
  }

  lemma RowsGrow(rows: seq<(string, string)>, i: nat, v: string)
    requires i < |rows|
    ensures VenuesOf(rows[..i + 1]) == VenuesOf(rows[..i]) + {rows[i].1}
    ensures MacsOf(rows[..i + 1], v) == MacsOf(rows[..i], v) + if rows[i].1 == v then {MacNumber(rows[i].0)} else {}
    ensures v !in VenuesOf(rows[..i]) ==> MacsOf(rows[..i], v) == {}
  {
    assert rows[..i + 1] == rows[..i] + [rows[i]];
  }

  lemma RebuiltAt(c: Cache, rows: seq<(string, string)>, i: nat)
    requires i < |rows| && IsMac(rows[i].0) && IsIndex(c) && Elements(c.sns) == MacsOf(rows[..i], rows[i].1)
    ensures var d := WithMac(c, MacNumber(rows[i].0)); IsIndex(d) && Elements(d.sns) == MacsOf(rows[..i + 1], rows[i].1)
  {
    MacParses(rows[i].0);
    WithMacMeaning(c, MacNumber(rows[i].0));
    RowsGrow(rows, i, rows[i].1);
  }

  lemma RebuildGrows(cache: map<string, Cache>, rows: seq<(string, string)>, i: nat)
    requires i < |rows| && IsMac(rows[i].0) && IsRebuilt(cache, rows[..i])
    ensures IsRebuilt(cache[rows[i].1 := WithMac(At(cache, rows[i].1), MacNumber(rows[i].0))], rows[..i + 1])
  {
    var v := rows[i].1;
    var after := cache[v := WithMac(At(cache, v), MacNumber(rows[i].0))];
    RowsGrow(rows, i, v);
    RebuiltAt(At(cache, v), rows, i);
    forall u | u in after ensures IsIndex(after[u]) && Elements(after[u].sns) == MacsOf(rows[..i + 1], u) {
      if u != v {
        RowsGrow(rows, i, u);
        assert after[u] == cache[u] && MacsOf(rows[..i + 1], u) == MacsOf(rows[..i], u) + {};
      }
    }
  }

  /** The rebuild from any rows: it stops where std::stoull throws. */
  function Rebuild(rows: seq<(string, string)>): (map<string, Cache>, bool) {
    if rows == [] then (map[], true) else
      var n := |rows| - 1;
      var (cache, ok) := Rebuild(rows[..n]);
      if !ok then (cache, false) else
        var (c, added) := AddText(At(cache, rows[n].1), rows[n].0);
        (cache[rows[n].1 := c], added)
  }

  lemma RebuildNext(rows: seq<(string, string)>, i: nat)
    requires i < |rows| && Rebuild(rows[..i]).1
    ensures var cache, (s, v) := Rebuild(rows[..i]).0, rows[i];
            Rebuild(rows[..i + 1]) == (cache[v := AddText(At(cache, v), s).0], AddText(At(cache, v), s).1)
  {
    assert rows[..i + 1][..i] == rows[..i];
  }

  lemma {:induction false} RebuildStops(rows: seq<(string, string)>, i: nat)
    requires i <= |rows| && !Rebuild(rows[..i]).1
    ensures Rebuild(rows) == Rebuild(rows[..i])
    decreases |rows|
  {
    if i == |rows| {
      assert rows[..i] == rows;
    } else {
      var n := |rows| - 1;
      assert rows[..n][..i] == rows[..i];
      RebuildStops(rows[..n], i);
    }
  }

  lemma {:induction false} RebuildSearchable(rows: seq<(string, string)>)
    ensures forall v | v in Rebuild(rows).0 :: Sound(Rebuild(rows).0[v])
  {
    if rows != [] {
      var n := |rows| - 1;
      RebuildSearchable(rows[..n]);
      TextsKeepSound(At(Rebuild(rows[..n]).0, rows[n].1), rows[n].0);
    }
  }

  ghost predicate AllIndexes(cache: map<string, Cache>) { forall v | v in cache :: IsIndex(cache[v]) }

  /** Row i does no harm where the rebuild meets it. */
  ghost predicate RowAddsCleanly(rows: seq<(string, string)>, i: nat)
    requires i < |rows|
  {
    var (cache, ok) := Rebuild(rows[..i]);
    ok ==> AddsCleanly(At(cache, rows[i].1), rows[i].0)
  }

  lemma RebuildStep(rows: seq<(string, string)>, i: nat)
    requires i < |rows| && AllIndexes(Rebuild(rows[..i]).0)
    ensures AllIndexes(Rebuild(rows[..i + 1]).0) <==> RowAddsCleanly(rows, i)
  {
    assert rows[..i + 1][..i] == rows[..i];
    var (cache, ok) := Rebuild(rows[..i]);
    var v := rows[i].1;
    AddKeepsIndexIff(At(cache, v), rows[i].0);
    if ok { assert Rebuild(rows[..i + 1]).0[v] == AddText(At(cache, v), rows[i].0).0; }
  }

  ghost predicate InStepUpTo(rows: seq<(string, string)>, n: nat)
    requires n <= |rows|
  {
    forall i | 0 <= i <= n :: AllIndexes(Rebuild(rows[..i]).0)
  }

  ghost predicate CleanUpTo(rows: seq<(string, string)>, n: nat)
    requires n <= |rows|
  {
    forall i | 0 <= i < n :: RowAddsCleanly(rows, i)
  }

  /** The lists of every venue are in step all through a rebuild iff every row met adds cleanly. */
  lemma {:induction false} RebuildKeepsIndexesIff(rows: seq<(string, string)>, n: nat)
    requires n <= |rows|
    ensures InStepUpTo(rows, n) <==> CleanUpTo(rows, n)
  {
    if n > 0 {
      RebuildKeepsIndexesIff(rows, n - 1);
      assert InStepUpTo(rows, n) <==> InStepUpTo(rows, n - 1) && AllIndexes(Rebuild(rows[..n]).0);
      assert CleanUpTo(rows, n) <==> CleanUpTo(rows, n - 1) && RowAddsCleanly(rows, n - 1);
      if InStepUpTo(rows, n - 1) { RebuildStep(rows, n - 1); }
    }
  }

  /** A rebuild from MACs succeeds and holds exactly the venues and MACs of the rows. */
  lemma {:induction false} RebuildOfMacs(rows: seq<(string, string)>)
    requires forall r | r in rows :: IsMac(r.0)
    ensures Rebuild(rows).1 && IsRebuilt(Rebuild(rows).0, rows)
  {
    if rows != [] {
      var n := |rows| - 1;
      assert rows[n] in rows && rows[..n + 1] == rows;
      RebuildOfMacs(rows[..n]);
      RebuildGrows(Rebuild(rows[..n]).0, rows, n);
      AddTextOfMac(At(Rebuild(rows[..n]).0, rows[n].1), rows[n].0);
    }
  }

  lemma RebuiltUnique(p: seq<(string, string)>, q: seq<(string, string)>, c: map<string, Cache>, d: map<string, Cache>)
    requires (forall r :: r in p <==> r in q) && IsRebuilt(c, p) && IsRebuilt(d, q)
    ensures c == d
  {
    assert VenuesOf(p) == VenuesOf(q);
    forall v | v in c ensures c[v] == d[v] {
      assert MacsOf(p, v) == MacsOf(q, v);
      IndexUnique(c[v], d[v]);
    }
  }

  /** A rebuild gives the same cache for any order and any repetition of the rows. */
  lemma RebuildOrderIrrelevant(p: seq<(string, string)>, q: seq<(string, string)>)
    requires (forall r :: r in p <==> r in q) && forall r | r in p :: IsMac(r.0)
    ensures Rebuild(p) == Rebuild(q)
  {
    RebuildOfMacs(p);
    RebuildOfMacs(q);
    RebuiltUnique(p, q, Rebuild(p).0, Rebuild(q).0);
  }

  // ---- Whole runs ----

  /** A station is added to or deleted from a venue, or the timer rebuilds everything. */
  datatype Op =
    | Add(venue: string, station: string)
    | Delete(venue: string, station: string)
    | Reload(rows: seq<(string, string)>)

  ghost predicate FromMacs(op: Op) {
    match op
    case Add(_, s) => IsMac(s)
    case Delete(_, s) => IsMac(s)
    case Reload(rows) => forall r | r in rows :: IsMac(r.0)
  }

  ghost function Apply(cache: map<string, Cache>, op: Op): map<string, Cache> {
    match op
    case Add(v, s) => cache[v := AddText(At(cache, v), s).0]
    case Delete(v, s) => if v in cache then cache[v := DeleteText(cache[v], s).0] else cache
    case Reload(rows) => Rebuild(rows).0
  }

  ghost function CacheAfter(ops: seq<Op>): map<string, Cache> {
    if ops == [] then map[] else Apply(CacheAfter(ops[..|ops| - 1]), ops[|ops| - 1])
  }

  /** The MACs a venue should have after some operations: a plain set. */
  ghost function MacsAfter(ops: seq<Op>, venue: string): set<nat> {
    if ops == [] then {} else
      var before := MacsAfter(ops[..|ops| - 1], venue);
      match ops[|ops| - 1]
      case Add(v, s) => if v == venue then before + {MacNumber(s)} else before
      case Delete(v, s) => if v == venue then before - {MacNumber(s)} else before
      case Reload(rows) => MacsOf(rows, venue)
  }

  lemma DeleteOfMac(c: Cache, s: string)
    requires IsIndex(c) && IsMac(s)
    ensures IsIndex(DeleteText(c, s).0) && Elements(DeleteText(c, s).0.sns) == Elements(c.sns) - {MacNumber(s)}
  {
    DeleteTextMeaning(c, s);
  }

  /** In every state reached by additions, deletions and rebuilds of MACs, each venue's lists are strictly
      increasing, the second the mirror image of the first, and hold exactly the MACs of a plain set. */
  lemma {:induction false} ReachedFromMacs(ops: seq<Op>, venue: string)
    requires forall op | op in ops :: FromMacs(op)
    ensures IsIndex(At(CacheAfter(ops), venue)) && Elements(At(CacheAfter(ops), venue).sns) == MacsAfter(ops, venue)
  {
    if ops != [] {
      var n := |ops| - 1;
      assert ops[n] in ops;
      ReachedFromMacs(ops[..n], venue);
      var c := At(CacheAfter(ops[..n]), venue);
      match ops[n]
      case Add(_, s) => AddTextMeaning(c, s);
      case Delete(_, s) => DeleteOfMac(c, s);
      case Reload(rows) =>
        RebuildOfMacs(rows);
        assert venue !in VenuesOf(rows) ==> MacsOf(rows, venue) == {};
    }
  }
}
