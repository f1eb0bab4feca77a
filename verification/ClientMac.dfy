/** Station addresses: three accepted layouts, one canonical text
    (src/RESTAPI/RESTAPI_mcp_helpers.h, NormalizeClientMac). */
module ClientMac {
  import opened Wrappers
  import opened Hex

  /** aa:bb:..., aa-bb-..., aabb.ccdd.eeff, aabbccddeeff. */
  datatype Layout = Pairs | Quads | Bare

  function LayoutOf(raw: string): Option<Layout> {
    if |raw| == 17 && (raw[2] == ':' || raw[2] == '-') then Some(Pairs)
    else if |raw| == 14 && raw[4] == '.' && raw[9] == '.' then Some(Quads)
    else if |raw| == 12 then Some(Bare)
    else None
  }

  /** Where the k-th of the twelve hex digits stands. */
  function Place(layout: Layout, k: nat): nat {
    match layout case Pairs => k + k / 2 case Quads => k + k / 4 case Bare => k
  }

  ghost predicate Accepted(raw: string) {
    && LayoutOf(raw).Some?
    && var layout := LayoutOf(raw).value;
    && (forall k | 0 <= k < 12 :: IsHex(raw[Place(layout, k)]))
    && (layout == Pairs ==> forall i | 0 <= i < 17 && i % 3 == 2 :: raw[i] == raw[2])
  }

  /** Groups of a size, joined by a separator. */
  ghost function Joined(d: string, size: nat, sep: char): string
    requires size > 0
  {
    if |d| <= size then d else d[..size] + [sep] + Joined(d[size..], size, sep)
  }

  lemma JoinedPairs(d: string, sep: char)
    requires |d| == 12
    ensures |Joined(d, 2, sep)| == 17
    ensures forall i | 0 <= i < 17 :: Joined(d, 2, sep)[i] == if i % 3 == 2 then sep else d[i - i / 3]
  {
    PairsFrom(d, sep, 6);
  }

  lemma {:induction false} PairsFrom(d: string, sep: char, n: nat)
    requires n > 0 && |d| == 2 * n
    ensures |Joined(d, 2, sep)| == 3 * n - 1
    ensures forall i | 0 <= i < 3 * n - 1 :: Joined(d, 2, sep)[i] == if i % 3 == 2 then sep else d[i - i / 3]
  {
    if n > 1 {
      PairsFrom(d[2..], sep, n - 1);
      var rest := Joined(d[2..], 2, sep);
      forall i | 3 <= i < 3 * n - 1 ensures rest[i - 3] == if i % 3 == 2 then sep else d[i - i / 3] {
        GroupBefore(i);
        assert i % 3 != 2 ==> d[2..][i - 3 - (i - 3) / 3] == d[i - i / 3];
      }
    }
  }

  lemma GroupBefore(i: nat)
    requires i >= 3
    ensures (i - 3) % 3 == i % 3 && (i - 3) / 3 == i / 3 - 1 && i - i / 3 >= 2
  {}

  lemma JoinedQuads(d: string)
    requires |d| == 12
    ensures Joined(d, 4, '.') == d[..4] + "." + d[4..8] + "." + d[8..]
  {
    assert d[4..][..4] == d[4..8] && d[4..][4..] == d[8..];
    assert Joined(d[8..], 4, '.') == d[8..];
  }

  /** The accepted texts, spelled out: twelve hex digits as they are, in pairs joined by ':' or by '-', or in
      quads joined by '.'. */
  ghost predicate Spells(raw: string, d: string) {
    && |d| == 12 && IsHexText(d)
    && (raw == d || raw == Joined(d, 2, ':') || raw == Joined(d, 2, '-') || raw == Joined(d, 4, '.'))
  }

  lemma SpelledAccepted(raw: string, d: string)
    requires Spells(raw, d)
    ensures Accepted(raw) && forall k | 0 <= k < 12 :: Digits(raw)[k] == LowerHex(d[k])
  {
    JoinedPairs(d, ':');
    JoinedPairs(d, '-');
    JoinedQuads(d);
  }

  lemma AcceptedSpells(raw: string) returns (d: string)
    requires Accepted(raw)
    ensures Spells(raw, d)
  {
    var layout := LayoutOf(raw).value;
    d := seq(12, k requires 0 <= k < 12 => raw[Place(layout, k)]);
    JoinedPairs(d, raw[2]);
    JoinedQuads(d);
    match layout
    case Pairs => assert raw == Joined(d, 2, raw[2]);
    case Quads => assert raw == d[..4] + "." + d[4..8] + "." + d[8..];
    case Bare => assert raw == d;
  }

  /** A text is accepted iff it spells twelve hex digits in one of the layouts. */
  lemma AcceptedIffSpelled(raw: string)
    ensures Accepted(raw) <==> exists d :: Spells(raw, d)
  {
    if Accepted(raw) { var d := AcceptedSpells(raw); }
    if d :| Spells(raw, d) { SpelledAccepted(raw, d); }
  }

  ghost function Digits(raw: string): (d: string)
    requires Accepted(raw)
    ensures |d| == 12 && forall k | 0 <= k < 12 :: IsLowerHex(d[k])
  {
    seq(12, k requires 0 <= k < 12 => LowerHex(raw[Place(LayoutOf(raw).value, k)]))
  }

  /** Six lowercase pairs joined by ':'. */
  ghost predicate IsCanonical(mac: string) {
    |mac| == 17 && forall i | 0 <= i < 17 :: if i % 3 == 2 then mac[i] == ':' else IsLowerHex(mac[i])
  }

  ghost function Canonical(d: string): (mac: string)
    requires |d| == 12
  {
    seq(17, i requires 0 <= i < 17 => if i % 3 == 2 then ':' else d[i - i / 3])
  }

  ghost function Normalized(raw: string): Option<string> {
    if Accepted(raw) then Some(Canonical(Digits(raw))) else None
  }

  method FormatPairs(clean: string) returns (formatted: string)
    requires |clean| == 12
    ensures formatted == Canonical(clean)
  {
    formatted := [];
    var i := 0;
    while i < |clean|
      invariant 0 <= i <= 12 && i % 2 == 0
      invariant |formatted| == if i == 0 then 0 else 3 * (i / 2) - 1
      invariant formatted == Canonical(clean)[..|formatted|]
    {
      if formatted != [] { formatted := formatted + [':']; }
      formatted := formatted + clean[i..i + 2];
      i := i + 2;
    }
  }

  method NormalizeClientMac(raw: string) returns (r: Option<string>)
    ensures r == Normalized(raw)
  {
    var clean: string := [];
    if |raw| == 17 && (raw[2] == ':' || raw[2] == '-') {
      for i := 0 to |raw|
        invariant |clean| == i - i / 3
        invariant forall k | 0 <= k < |clean| :: IsHex(raw[k + k / 2]) && clean[k] == LowerHex(raw[k + k / 2])
        invariant forall j | 0 <= j < i && j % 3 == 2 :: raw[j] == raw[2]
      {
        if (i + 1) % 3 == 0 {
          if raw[i] != raw[2] { return None; }
        } else if IsHex(raw[i]) {
          clean := clean + [LowerHex(raw[i])];
        } else {
          assert Place(Pairs, i - i / 3) == i;
          return None;
        }
      }
      assert clean == Digits(raw);
      var text := FormatPairs(clean);
      return Some(text);
    }
    if |raw| == 14 && raw[4] == '.' && raw[9] == '.' {
      for i := 0 to |raw|
        invariant |clean| == i - i / 5
        invariant forall k | 0 <= k < |clean| :: IsHex(raw[k + k / 4]) && clean[k] == LowerHex(raw[k + k / 4])
      {
        if i == 4 || i == 9 { continue; }
        if !IsHex(raw[i]) {
          assert Place(Quads, i - i / 5) == i;
          return None;
        }
        clean := clean + [LowerHex(raw[i])];
      }
      assert clean == Digits(raw);
      var text := FormatPairs(clean);
      return Some(text);
    }
    if |raw| == 12 {
      for i := 0 to |raw|
        invariant |clean| == i && forall k | 0 <= k < i :: IsHex(raw[k]) && clean[k] == LowerHex(raw[k])
      {
        if !IsHex(raw[i]) {
          assert Place(Bare, i) == i;
          return None;
        }
        clean := clean + [LowerHex(raw[i])];
      }
      assert clean == Digits(raw);
      var text := FormatPairs(clean);
      return Some(text);
    }
    return None;
  }

  /** The canonical text is accepted and carries the same digits. */
  lemma CanonicalAccepted(d: string)
    requires |d| == 12 && forall k | 0 <= k < 12 :: IsLowerHex(d[k])
    ensures IsCanonical(Canonical(d)) && Accepted(Canonical(d)) && Digits(Canonical(d)) == d
  {
    var mac := Canonical(d);
    forall i | 0 <= i < 17 && i % 3 != 2 ensures IsLowerHex(mac[i]) { assert mac[i] == d[i - i / 3]; }
    assert mac[2] == ':' && LayoutOf(mac) == Some(Pairs);
    forall k | 0 <= k < 12 ensures mac[Place(Pairs, k)] == d[k] && IsHex(d[k]) {
      assert (k + k / 2) % 3 != 2;
    }
  }

  /** Normalising is idempotent and always gives six lowercase pairs. */
  lemma NormalizeIdempotent(raw: string)
    requires Normalized(raw).Some?
    ensures IsCanonical(Normalized(raw).value)
    ensures Normalized(Normalized(raw).value) == Normalized(raw)
  {
    CanonicalAccepted(Digits(raw));
  }

  /** Two accepted inputs, in any layouts, are the same client iff their twelve hex digits agree
      ignoring case. */
  lemma SameClientIffSameDigits(a: string, b: string)
    requires Accepted(a) && Accepted(b)
    ensures Normalized(a) == Normalized(b) <==>
            forall k | 0 <= k < 12 ::
              HexValue(a[Place(LayoutOf(a).value, k)]) == HexValue(b[Place(LayoutOf(b).value, k)])
  {
    CanonicalAccepted(Digits(a));
    CanonicalAccepted(Digits(b));
    forall k | 0 <= k < 12
      ensures Digits(a)[k] == Digits(b)[k] <==>
              HexValue(a[Place(LayoutOf(a).value, k)]) == HexValue(b[Place(LayoutOf(b).value, k)])
    {
      LowerHexByValue(a[Place(LayoutOf(a).value, k)], b[Place(LayoutOf(b).value, k)]);
    }
    assert Digits(a) == Digits(b) <==> forall k | 0 <= k < 12 :: Digits(a)[k] == Digits(b)[k];
  }
}
