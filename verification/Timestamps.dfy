/** Timestamp text, the profile of section 5.6 of RFC 3339 that the service speaks
    (src/RESTAPI/RESTAPI_mcp_helpers.h, ParseTimestampTill to FormatTimestamp). */
module Timestamps {
  import opened Wrappers
  import opened Calendar

  // ---- Text ----

  predicate IsDigit(c: char) { '0' <= c <= '9' }

  function DigitValue(c: char): int { c as int - '0' as int }

  lemma DigitTable(c: char)
    ensures IsDigit(c) <==> c in "0123456789"
    ensures IsDigit(c) ==> "0123456789"[DigitValue(c)] == c
  {}

  function Digit(n: int): char { (n % 10 + '0' as int) as char }

  function Two(n: int): string { [Digit(n / 10), Digit(n)] }

  function Four(n: int): string { Two(n / 100) + Two(n % 100) }

  function DayText(tm: Tm): string { Four(tm.year) + "-" + Two(tm.month) + "-" + Two(tm.day) }

  function ClockText(tm: Tm): string { Two(tm.hour) + ":" + Two(tm.minute) + ":" + Two(tm.second) }

  function DateText(tm: Tm): string { DayText(tm) + "T" + ClockText(tm) }

  /** Beyond year 9999 the service's 21-byte buffer cannot hold the text. */
  function FormatTimestamp(t: nat): string
    requires t < LIMIT
  {
    DateText(Gmtime(t)) + "Z"
  }

  ghost function Number(q: string): int {
    if q == [] then 0 else Number(q[..|q| - 1]) * 10 + DigitValue(q[|q| - 1])
  }

  lemma NumberGrows(q: string, c: char)
    ensures Number(q + [c]) == Number(q) * 10 + DigitValue(c)
  {
    assert (q + [c])[..|q|] == q;
  }

  lemma NumberStep(s: string, offset: nat, i: nat)
    requires offset <= i < |s|
    ensures Number(s[offset..i + 1]) == Number(s[offset..i]) * 10 + DigitValue(s[i])
  {
    assert s[offset..i + 1] == s[offset..i] + [s[i]];
    NumberGrows(s[offset..i], s[i]);
  }

  lemma NumberOfTwo(q: string)
    requires |q| == 2
    ensures Number(q) == DigitValue(q[0]) * 10 + DigitValue(q[1])
  {
    assert Number(q[..1]) == DigitValue(q[0]) by { assert q[..1][..0] == []; }
  }

  lemma NumberOfFour(q: string)
    requires |q| == 4
    ensures Number(q) == Number(q[..2]) * 100 + Number(q[2..])
  {
    NumberOfTwo(q[..2]);
    NumberOfTwo(q[2..]);
    assert q[..3][..2] == q[..2];
  }

  ghost predicate DigitRun(value: string, offset: nat, count: nat) {
    |value| >= offset + count && forall i | offset <= i < offset + count :: IsDigit(value[i])
  }

  /** Positions 0..18: YYYY-MM-DDTHH:mm:ss. */
  ghost predicate DateShape(s: string) {
    && |s| >= 19 && s[4] == '-' && s[7] == '-' && s[10] == 'T' && s[13] == ':' && s[16] == ':'
    && DigitRun(s, 0, 4) && DigitRun(s, 5, 2) && DigitRun(s, 8, 2)
    && DigitRun(s, 11, 2) && DigitRun(s, 14, 2) && DigitRun(s, 17, 2)
  }

  ghost function Fields(s: string): Tm
    requires |s| >= 19
  {
    Tm(Number(s[0..4]), Number(s[5..7]), Number(s[8..10]), Number(s[11..13]), Number(s[14..16]), Number(s[17..19]))
  }

  /** The meaning of a UTC timestamp text: a real date from 1970 on. */
  ghost function Parsed(s: string): Option<nat> {
    if |s| == 20 && DateShape(s) && s[19] == 'Z' && ValidDate(Fields(s)) && Fields(s).year >= 1970
    then DatesBeforeEpoch(Fields(s)); Some(Timegm(Fields(s))) else None
  }

  method DigitsAt(value: string, offset: nat, count: nat) returns (ok: bool)
    ensures ok <==> DigitRun(value, offset, count)
  {
    if |value| < offset + count { return false; }
    for i := offset to offset + count
      invariant forall j | offset <= j < i :: IsDigit(value[j])
    {
      if !IsDigit(value[i]) { return false; }
    }
    return true;
  }

  method ToInt(value: string, offset: nat, count: nat) returns (parsed: int)
    requires offset + count <= |value|
    ensures parsed == Number(value[offset..offset + count])
  {
    parsed := 0;
    for i := offset to offset + count
      invariant parsed == Number(value[offset..i])
    {
      NumberStep(value, offset, i);
      parsed := parsed * 10 + DigitValue(value[i]);
    }
  }

  method HasDateShape(value: string) returns (ok: bool)
    requires |value| >= 20
    ensures ok <==> DateShape(value)
  {
    if value[4] != '-' || value[7] != '-' || value[10] != 'T' || value[13] != ':' || value[16] != ':' { return false; }
    var a := DigitsAt(value, 0, 4);
    var b := DigitsAt(value, 5, 2);
    var c := DigitsAt(value, 8, 2);
    var d := DigitsAt(value, 11, 2);
    var e := DigitsAt(value, 14, 2);
    var f := DigitsAt(value, 17, 2);
    return a && b && c && d && e && f;
  }

  method ReadFields(value: string) returns (tm: Tm)
    requires |value| >= 19
    ensures tm == Fields(value)
  {
    var year := ToInt(value, 0, 4);
    var month := ToInt(value, 5, 2);
    var day := ToInt(value, 8, 2);
    var hour := ToInt(value, 11, 2);
    var minute := ToInt(value, 14, 2);
    var second := ToInt(value, 17, 2);
    return Tm(year, month, day, hour, minute, second);
  }

  lemma FieldRanges(s: string)
    requires DateShape(s)
    ensures var tm := Fields(s);
            && 0 <= tm.year <= 9999 && 0 <= tm.month && 0 <= tm.day && 0 <= tm.hour
            && 0 <= tm.minute && 0 <= tm.second
  {
    NumberOfFour(s[0..4]);
    NumberOfTwo(s[0..4][..2]); NumberOfTwo(s[0..4][2..]);
    NumberOfTwo(s[5..7]); NumberOfTwo(s[8..10]); NumberOfTwo(s[11..13]); NumberOfTwo(s[14..16]); NumberOfTwo(s[17..19]);
  }

  /** The result is the meaning of the text; in particular the gmtime_r comparison never rejects anything
      the field checks let through. */
  method ParseTimestampTill(value: string) returns (r: Option<nat>)
    ensures r == Parsed(value)
  {
    if |value| != 20 || value[19] != 'Z' { return None; }
    var shape := HasDateShape(value);
    if !shape { return None; }
    var tm := ReadFields(value);
    FieldRanges(value);
    if tm.month < 1 || tm.month > 12 || tm.day < 1 || tm.day > DaysInMonth(tm.year, tm.month)
       || tm.hour > 23 || tm.minute > 59 || tm.second > 59 { return None; }
    DatesBeforeEpoch(tm);
    var epoch := Timegm(tm);
    if epoch < 0 { return None; }
    TimegmThenGmtime(tm);
    if Gmtime(epoch) != tm { return None; }
    return Some(epoch);
  }

  // ---- RFC 3339 with an offset ----

  /** The offset text at 19..24 in seconds, when it is one. */
  ghost function Offset(s: string): Option<int>
    requires |s| == 25
  {
    if (s[19] == '+' || s[19] == '-') && s[22] == ':' && DigitRun(s, 20, 2) && DigitRun(s, 23, 2)
       && Number(s[20..22]) <= 23 && Number(s[23..25]) <= 59
    then var o := Number(s[20..22]) * 3600 + Number(s[23..25]) * 60; Some(if s[19] == '-' then -o else o)
    else None
  }

  /** A text with an offset means the UTC reading of its first 19 characters, less the offset. */
  ghost function ParsedRFC3339(s: string): Option<nat> {
    if |s| == 20 then Parsed(s)
    else if |s| == 25 && Offset(s).Some? && Parsed(s[..19] + "Z").Some?
            && Parsed(s[..19] + "Z").value >= Offset(s).value
    then Some(Parsed(s[..19] + "Z").value - Offset(s).value)
    else None
  }

  lemma SameLocalDate(s: string)
    requires |s| == 25
    ensures var z := s[..19] + "Z";
            && |z| == 20 && z[19] == 'Z' && (DateShape(z) <==> DateShape(s))
            && Fields(z) == Fields(s)
  {
    var z := s[..19] + "Z";
    assert forall i | 0 <= i < 19 :: z[i] == s[i];
    assert z[0..4] == s[0..4] && z[5..7] == s[5..7] && z[8..10] == s[8..10];
    assert z[11..13] == s[11..13] && z[14..16] == s[14..16] && z[17..19] == s[17..19];
  }

  method ReadOffset(value: string) returns (r: Option<int>)
    requires |value| == 25
    ensures r == Offset(value)
  {
    if (value[19] != '+' && value[19] != '-') || value[22] != ':' { return None; }
    var h := DigitsAt(value, 20, 2);
    var m := DigitsAt(value, 23, 2);
    if !h || !m { return None; }
    var hours := ToInt(value, 20, 2);
    var minutes := ToInt(value, 23, 2);
    if hours > 23 || minutes > 59 { return None; }
    var seconds := hours * 3600 + minutes * 60;
    return Some(if value[19] == '-' then -seconds else seconds);
  }

  method ParseRFC3339Timestamp(value: string) returns (r: Option<nat>)
    ensures r == ParsedRFC3339(value)
  {
    if |value| != 20 && |value| != 25 { return None; }
    if |value| == 25 { SameLocalDate(value); }
    var shape := HasDateShape(value);
    if !shape { return None; }
    var offset := 0;
    if |value| == 20 {
      if value[19] != 'Z' { return None; }
    } else {
      var o := ReadOffset(value);
      if o == None { return None; }
      offset := o.value;
    }
    var tm := ReadFields(value);
    FieldRanges(value);
    if tm.month < 1 || tm.month > 12 || tm.day < 1 || tm.day > DaysInMonth(tm.year, tm.month)
       || tm.hour > 23 || tm.minute > 59 || tm.second > 59 { return None; }
    DatesBeforeEpoch(tm);
    var local := Timegm(tm);
    if local < 0 { return None; }
    if local - offset < 0 { return None; }
    return Some(local - offset);
  }

  // ---- Round trips ----

  lemma TwoReadsBack(n: int)
    requires 0 <= n <= 99
    ensures |Two(n)| == 2 && IsDigit(Two(n)[0]) && IsDigit(Two(n)[1]) && Number(Two(n)) == n
  {
    NumberOfTwo(Two(n));
  }

  lemma TwoWritesBack(q: string)
    requires |q| == 2 && IsDigit(q[0]) && IsDigit(q[1])
    ensures 0 <= Number(q) <= 99 && Two(Number(q)) == q
  {
    NumberOfTwo(q);
  }

  lemma PairAt(s: string, i: nat, n: int)
    requires i + 2 <= |s| && s[i] == Two(n)[0] && s[i + 1] == Two(n)[1]
    ensures s[i..i + 2] == Two(n)
  {}

  lemma DateTextSlices(tm: Tm)
    ensures LaidOut(DateText(tm), tm)
  {
    var s, day, clock := DateText(tm), DayText(tm), ClockText(tm);
    DayTextSlices(tm);
    ClockTextSlices(tm);
    assert s[0..2] == day[0..2] && s[2..4] == day[2..4] && s[5..7] == day[5..7] && s[8..10] == day[8..10];
    assert s[11..13] == clock[0..2] && s[14..16] == clock[3..5] && s[17..19] == clock[6..8];
  }

  lemma DayTextSlices(tm: Tm)
    ensures var s := DayText(tm);
            && |s| == 10 && s[4] == '-' && s[7] == '-'
            && s[0..2] == Two(tm.year / 100) && s[2..4] == Two(tm.year % 100)
            && s[5..7] == Two(tm.month) && s[8..10] == Two(tm.day)
  {
    var s := DayText(tm);
    PairAt(s, 0, tm.year / 100);
    PairAt(s, 2, tm.year % 100);
    PairAt(s, 5, tm.month);
    PairAt(s, 8, tm.day);
  }

  lemma ClockTextSlices(tm: Tm)
    ensures var s := ClockText(tm);
            && |s| == 8 && s[2] == ':' && s[5] == ':'
            && s[0..2] == Two(tm.hour) && s[3..5] == Two(tm.minute) && s[6..8] == Two(tm.second)
  {
    var s := ClockText(tm);
    PairAt(s, 0, tm.hour);
    PairAt(s, 3, tm.minute);
    PairAt(s, 6, tm.second);
  }

  lemma TextSlice(d: string, tail: string, i: nat, n: int)
    requires i + 2 <= |d| && d[i..i + 2] == Two(n) && 0 <= n <= 99
    ensures var s := d + tail; DigitRun(s, i, 2) && s[i..i + 2] == Two(n) && Number(s[i..i + 2]) == n
  {
    var s := d + tail;
    TwoReadsBack(n);
    assert s[i..i + 2] == d[i..i + 2];
    SliceDigits(s, i);
  }

  /** Writing a date and reading the fields gives the date. */
  lemma FieldsOfText(tm: Tm, tail: string)
    requires ValidDate(tm) && 0 <= tm.year <= 9999
    ensures var s := DateText(tm) + tail; DateShape(s) && Fields(s) == tm
  {
    var d, s := DateText(tm), DateText(tm) + tail;
    DateTextSlices(tm);
    TextSlice(d, tail, 0, tm.year / 100); TextSlice(d, tail, 2, tm.year % 100);
    TextSlice(d, tail, 5, tm.month); TextSlice(d, tail, 8, tm.day);
    TextSlice(d, tail, 11, tm.hour); TextSlice(d, tail, 14, tm.minute); TextSlice(d, tail, 17, tm.second);
    YearRead(s, tm.year);
  }

  lemma YearRead(s: string, year: int)
    requires |s| >= 4 && Number(s[0..2]) == year / 100 && Number(s[2..4]) == year % 100
    ensures Number(s[0..4]) == year
  {
    NumberOfFour(s[0..4]);
    assert s[0..4][..2] == s[0..2] && s[0..4][2..] == s[2..4];
  }

  lemma SliceDigits(s: string, i: nat)
    requires i + 2 <= |s|
    ensures DigitRun(s, i, 2) <==> IsDigit(s[i..i + 2][0]) && IsDigit(s[i..i + 2][1])
  {
    assert s[i..i + 2][0] == s[i] && s[i..i + 2][1] == s[i + 1];
  }

  /** Nineteen characters laid out as a date text, from their slices. */
  ghost predicate LaidOut(s: string, tm: Tm) {
    && |s| == 19 && s[4] == '-' && s[7] == '-' && s[10] == 'T' && s[13] == ':' && s[16] == ':'
    && s[0..2] == Two(tm.year / 100) && s[2..4] == Two(tm.year % 100) && s[5..7] == Two(tm.month)
    && s[8..10] == Two(tm.day)
    && s[11..13] == Two(tm.hour) && s[14..16] == Two(tm.minute) && s[17..19] == Two(tm.second)
  }

  lemma LaidOutUnique(a: string, b: string, tm: Tm)
    requires LaidOut(a, tm) && LaidOut(b, tm)
    ensures a == b
  {
    SamePair(a, b, 0); SamePair(a, b, 2); SamePair(a, b, 5); SamePair(a, b, 8);
    SamePair(a, b, 11); SamePair(a, b, 14); SamePair(a, b, 17);
    assert forall i | 0 <= i < 19 :: a[i] == b[i];
  }

  lemma SamePair(a: string, b: string, i: nat)
    requires i + 2 <= |a| && i + 2 <= |b| && a[i..i + 2] == b[i..i + 2]
    ensures a[i] == b[i] && a[i + 1] == b[i + 1]
  {
    assert a[i] == a[i..i + 2][0] && a[i + 1] == a[i..i + 2][1];
    assert b[i] == b[i..i + 2][0] && b[i + 1] == b[i..i + 2][1];
  }

  lemma SliceWritesBack(s: string, i: nat)
    requires i + 2 <= 19 <= |s| && DigitRun(s, i, 2)
    ensures s[..19][i..i + 2] == s[i..i + 2] == Two(Number(s[i..i + 2])) && 0 <= Number(s[i..i + 2]) <= 99
  {
    TwoWritesBack(s[i..i + 2]);
  }

  lemma YearSplit(s: string)
    requires |s| >= 19 && DigitRun(s, 0, 4)
    ensures Number(s[0..4]) / 100 == Number(s[0..2]) && Number(s[0..4]) % 100 == Number(s[2..4])
  {
    NumberOfFour(s[0..4]);
    assert s[0..4][..2] == s[0..2] && s[0..4][2..] == s[2..4];
    SliceWritesBack(s, 0);
    SliceWritesBack(s, 2);
  }

  lemma PairFits(s: string, i: nat, n: int)
    requires i + 2 <= 19 <= |s| && DigitRun(s, i, 2) && n == Number(s[i..i + 2])
    ensures s[..19][i..i + 2] == Two(n)
  {
    SliceWritesBack(s, i);
  }

  lemma PrefixLaidOut(s: string, tm: Tm)
    requires DateShape(s) && tm == Fields(s)
    ensures LaidOut(s[..19], tm)
  {
    YearSplit(s);
    PairFits(s, 0, tm.year / 100);
    PairFits(s, 2, tm.year % 100);
    PairFits(s, 5, tm.month);
    PairFits(s, 8, tm.day);
    PairFits(s, 11, tm.hour);
    PairFits(s, 14, tm.minute);
    PairFits(s, 17, tm.second);
  }

  /** Reading the fields of a date text and writing them gives the text. */
  lemma TextOfFields(s: string)
    requires DateShape(s)
    ensures DateText(Fields(s)) == s[..19]
  {
    var tm := Fields(s);
    PrefixLaidOut(s, tm);
    DateTextSlices(tm);
    LaidOutUnique(DateText(tm), s[..19], tm);
  }

  /** Every instant before the year 10000 is printed as a text that is read back to it. */
  lemma PrintThenParse(t: nat)
    requires t < LIMIT
    ensures Parsed(FormatTimestamp(t)) == Some(t)
  {
    GmtimeThenTimegm(t);
    FourDigitYears(t);
    DateTextSlices(Gmtime(t));
    FieldsOfText(Gmtime(t), "Z");
  }

  /** Every accepted text is exactly the print of the instant it denotes. */
  lemma ParseThenPrint(s: string)
    requires Parsed(s).Some?
    ensures Parsed(s).value < LIMIT && FormatTimestamp(Parsed(s).value) == s
  {
    var tm := Fields(s);
    FieldRanges(s);
    TimegmThenGmtime(tm);
    FourDigitYears(Timegm(tm));
    TextOfFields(s);
    assert s == s[..19] + "Z";
  }

  /** An instant after the epoch is refused exactly when its local date text lies before 1970. */
  lemma OffsetInstantRefused(s: string)
    requires |s| == 25 && DateShape(s) && ValidDate(Fields(s)) && Offset(s).Some?
    requires Timegm(Fields(s)) >= Offset(s).value
    ensures ParsedRFC3339(s) == None <==> Fields(s).year < 1970
    ensures ParsedRFC3339(s).Some? ==> ParsedRFC3339(s).value == Timegm(Fields(s)) - Offset(s).value
  {
    SameLocalDate(s);
    DatesBeforeEpoch(Fields(s));
  }

  /** The instant 1800, written one hour west of Greenwich as 1969-12-31T23:30:00-01:00. */
  lemma HalfPastMidnightRefused()
    ensures var s := DateText(Tm(1969, 12, 31, 23, 30, 0)) + "-01:00";
            && |s| == 25 && DateShape(s) && ValidDate(Fields(s)) && Offset(s).Some?
            && Timegm(Fields(s)) - Offset(s).value == 1800 && ParsedRFC3339(s) == None
  {
    var tm := Tm(1969, 12, 31, 23, 30, 0);
    var s := DateText(tm) + "-01:00";
    DateTextSlices(tm);
    FieldsOfText(tm, "-01:00");
    LastHalfHour(tm);
    OneHourWest(s);
    OffsetInstantRefused(s);
  }

  lemma LastHalfHour(tm: Tm)
    requires tm == Tm(1969, 12, 31, 23, 30, 0)
    ensures Timegm(tm) == -1800
  {
    WholeYear(1969);
    assert DaysBeforeMonth(1969, 13) == DaysBeforeMonth(1969, 12) + 31;
    assert DaysBeforeYear(1969) == -365;
  }

  lemma OneHourWest(s: string)
    requires |s| == 25 && s[19..] == "-01:00"
    ensures Offset(s) == Some(-3600)
  {
    assert s[19] == s[19..][0] && s[20] == s[19..][1] && s[21] == s[19..][2] && s[22] == s[19..][3];
    assert s[23] == s[19..][4] && s[24] == s[19..][5];
    NumberOfTwo(s[20..22]);
    NumberOfTwo(s[23..25]);
  }
}
