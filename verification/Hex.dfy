/** Hexadecimal digits as the service reads and writes them. */
module Hex {
  predicate IsHex(c: char) { '0' <= c <= '9' || 'a' <= c <= 'f' || 'A' <= c <= 'F' }

  predicate IsLowerHex(c: char) { '0' <= c <= '9' || 'a' <= c <= 'f' }

  function HexValue(c: char): (v: nat)
    requires IsHex(c)
    ensures v < 16
  {
    if c <= '9' then c as int - '0' as int
    else if c <= 'F' then c as int - 'A' as int + 10
    else c as int - 'a' as int + 10
  }

  function LowerHex(c: char): (r: char)
    requires IsHex(c)
    ensures IsLowerHex(r) && HexValue(r) == HexValue(c)
  {
    if 'A' <= c <= 'F' then (c as int + 32) as char else c
  }

  lemma LowerHexByValue(a: char, b: char)
    requires IsHex(a) && IsHex(b)
    ensures LowerHex(a) == LowerHex(b) <==> HexValue(a) == HexValue(b)
  {}

  /** The digits and what they stand for, written out. */
  lemma HexTable(c: char)
    ensures IsHex(c) <==> c in "0123456789abcdefABCDEF"
    ensures IsLowerHex(c) <==> c in "0123456789abcdef"
    ensures IsHex(c) ==> "0123456789abcdef"[HexValue(c)] == LowerHex(c)
    ensures forall i | 0 <= i < 6 :: "ABCDEF"[i] == c ==> HexValue(c) == 10 + i && LowerHex(c) == "abcdef"[i]
  {}

  function HexChar(v: nat): (c: char)
    requires v < 16
    ensures IsLowerHex(c) && HexValue(c) == v
  {
    (v + if v < 10 then '0' as int else 'a' as int - 10) as char
  }

  // ---- Digit sequences ----

  ghost predicate Nibbles(d: seq<nat>) { forall i | 0 <= i < |d| :: d[i] < 16 }

  function Pow16(k: nat): (p: nat)
    ensures p >= 1
  {
    if k == 0 then 1 else 16 * Pow16(k - 1)
  }

  /** The number a digit sequence denotes, most significant digit first. */
  function Value(d: seq<nat>): nat {
    if d == [] then 0 else Value(d[..|d| - 1]) * 16 + d[|d| - 1]
  }

  function Shift(n: nat, k: nat): nat { if k == 0 then n else Shift(n, k - 1) / 16 }

  /** The k low digits of n, least significant first. */
  function Low(n: nat, k: nat): (d: seq<nat>)
    ensures |d| == k && forall i | 0 <= i < k :: d[i] < 16
  {
    if k == 0 then [] else Low(n, k - 1) + [Shift(n, k - 1) % 16]
  }

  function Rev<T>(q: seq<T>): (r: seq<T>)
    ensures |r| == |q| && forall i | 0 <= i < |q| :: r[i] == q[|q| - 1 - i]
  {
    seq(|q|, i requires 0 <= i < |q| => q[|q| - 1 - i])
  }

  lemma RevRev<T>(q: seq<T>)
    ensures Rev(Rev(q)) == q
  {}

  lemma {:induction false} ValueOfConcat(a: seq<nat>, b: seq<nat>)
    ensures Value(a + b) == Value(a) * Pow16(|b|) + Value(b)
  {
    if b == [] {
      assert a + b == a;
    } else {
      var n := |b| - 1;
      assert (a + b)[..|a| + n] == a + b[..n];
      ValueOfConcat(a, b[..n]);
      ShiftDigit(Value(a), Pow16(n), Value(b[..n]), b[n]);
    }
  }

  lemma ShiftDigit(x: nat, p: nat, v: nat, d: nat)
    ensures (x * p + v) * 16 + d == x * (16 * p) + (v * 16 + d)
  {
    assert x * (16 * p) == 16 * (x * p);
  }

  lemma {:induction false} ValueBound(d: seq<nat>)
    requires Nibbles(d)
    ensures Value(d) < Pow16(|d|)
  {
    if d != [] { ValueBound(d[..|d| - 1]); }
  }

  lemma Regroup(n: nat, t: nat, s: nat, d: nat, p: nat, q: nat, v: nat)
    requires t == 16 * s + d && n == t * p + v && q == 16 * p
    ensures n == s * q + (d * p + v)
  {
    assert (16 * s + d) * p == 16 * s * p + d * p;
    assert 16 * s * p == s * (16 * p);
  }

  lemma ValueOfPrepend(d: nat, q: seq<nat>)
    ensures Value([d] + q) == d * Pow16(|q|) + Value(q)
  {
    ValueOfConcat([d], q);
    assert Value([d]) == d by { assert [d][..0] == []; }
  }

  lemma {:induction false} LowSplits(n: nat, k: nat)
    ensures n == Shift(n, k) * Pow16(k) + Value(Rev(Low(n, k)))
  {
    if k == 0 {
      assert Rev(Low(n, 0)) == [] && Shift(n, 0) * Pow16(0) == n;
    } else {
      LowSplits(n, k - 1);
      var d := Shift(n, k - 1) % 16;
      HighDigit(n, k);
      Regroup(n, Shift(n, k - 1), Shift(n, k), d, Pow16(k - 1), Pow16(k), Value(Rev(Low(n, k - 1))));
    }
  }

  lemma HighDigit(n: nat, k: nat)
    requires k > 0
    ensures Value(Rev(Low(n, k))) == (Shift(n, k - 1) % 16) * Pow16(k - 1) + Value(Rev(Low(n, k - 1)))
  {
    var d, r := Shift(n, k - 1) % 16, Rev(Low(n, k - 1));
    assert |r| == k - 1;
    assert Rev(Low(n, k)) == [d] + r;
    ValueOfPrepend(d, r);
    assert d * Pow16(|r|) == d * Pow16(k - 1);
  }

  lemma ShiftBound(n: nat, k: nat)
    ensures n < Pow16(k) ==> Shift(n, k) == 0
  {
    LowSplits(n, k);
    if Shift(n, k) >= 1 { AtLeastOnce(Shift(n, k), Pow16(k)); }
  }

  lemma AtLeastOnce(a: nat, b: nat)
    requires a >= 1
    ensures a * b >= b
  {
    assert a * b == (a - 1) * b + b;
  }

  /** Digits of a number below 16^k, read back. */
  lemma ValueOfDigits(n: nat, k: nat)
    requires n < Pow16(k)
    ensures Value(Rev(Low(n, k))) == n
  {
    LowSplits(n, k);
    ShiftBound(n, k);
  }

  lemma {:induction false} ShiftOfQuotient(n: nat, k: nat)
    ensures Shift(n / 16, k) == Shift(n, k + 1)
  {
    if k > 0 { ShiftOfQuotient(n, k - 1); }
  }

  lemma {:induction false} LowFront(n: nat, k: nat)
    ensures Low(n, k + 1) == [n % 16] + Low(n / 16, k)
  {
    if k > 0 { LowFront(n, k - 1); ShiftOfQuotient(n, k - 1); }
  }

  /** A digit sequence, read as a number and taken apart again. */
  lemma {:induction false} DigitsOfValue(d: seq<nat>)
    requires Nibbles(d)
    ensures Low(Value(d), |d|) == Rev(d)
  {
    if d != [] {
      var n := |d| - 1;
      DigitsOfValue(d[..n]);
      LowFront(Value(d), n);
      assert Value(d) / 16 == Value(d[..n]) && Value(d) % 16 == d[n];
    }
  }

  // ---- Text ----

  predicate IsHexText(s: string) { forall i | 0 <= i < |s| :: IsHex(s[i]) }

  ghost predicate IsLowerHexText(s: string) { forall i | 0 <= i < |s| :: IsLowerHex(s[i]) }

  function DigitsOf(s: string): (d: seq<nat>)
    requires IsHexText(s)
    ensures |d| == |s| && Nibbles(d)
  {
    seq(|s|, i requires 0 <= i < |s| => HexValue(s[i]))
  }

  function ParseHex(s: string): nat
    requires IsHexText(s)
  {
    Value(DigitsOf(s))
  }

  /** Utils::IntToSerialNumber: the twelve low digits, lowercase. */
  ghost function SerialText(n: nat): (s: string)
    ensures |s| == 12 && IsLowerHexText(s) && IsHexText(s)
  {
    seq(12, i requires 0 <= i < 12 => HexChar(Low(n, 12)[11 - i]))
  }

  lemma SerialTextDigits(n: nat)
    ensures DigitsOf(SerialText(n)) == Rev(Low(n, 12))
  {
    forall i | 0 <= i < 12 ensures DigitsOf(SerialText(n))[i] == Rev(Low(n, 12))[i] {
      assert SerialText(n)[i] == HexChar(Low(n, 12)[11 - i]);
    }
  }

  method IntToSerialNumber(n: nat) returns (s: string)
    ensures s == SerialText(n)
  {
    var rest := n;
    s := [];
    for i := 0 to 12
      invariant rest == Shift(n, i) && |s| == i
      invariant forall j | 0 <= j < i :: s[j] == HexChar(Low(n, 12)[i - 1 - j])
    {
      LowPrefix(n, i + 1, 12);
      s := [HexChar(rest % 16)] + s;
      rest := rest / 16;
    }
  }

  lemma {:induction false} LowPrefix(n: nat, k: nat, m: nat)
    requires k <= m
    ensures Low(n, k) == Low(n, m)[..k]
    decreases m
  {
    if k < m { LowPrefix(n, k, m - 1); }
  }

  /** Serial text and number are inverse below 2^48. */
  lemma SerialTextParses(n: nat)
    requires n < Pow16(12)
    ensures ParseHex(SerialText(n)) == n
  {
    SerialTextDigits(n);
    ValueOfDigits(n, 12);
  }

  lemma ParsedTextPrints(s: string)
    requires |s| == 12 && IsLowerHexText(s) && IsHexText(s)
    ensures ParseHex(s) < Pow16(12) && SerialText(ParseHex(s)) == s
  {
    ValueBound(DigitsOf(s));
    DigitsOfValue(DigitsOf(s));
    forall i | 0 <= i < 12 ensures SerialText(ParseHex(s))[i] == s[i] {
      LowerHexByValue(HexChar(HexValue(s[i])), s[i]);
    }
  }
}
