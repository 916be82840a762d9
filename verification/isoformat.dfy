/** Calendar dates and date-times as Python's `datetime` module represents
    them, and the ISO 8601 text that `date.isoformat()` and
    `datetime.isoformat(sep=" ", timespec="seconds")` produce, together with a
    parser that inverts both. Only the year range 1..9999 exists, so the year
    always takes exactly four digits. A time-zone offset is a whole number of
    minutes east of UTC. */
module IsoFormat {
  import opened Wrappers

  datatype DateParts = DateParts(year: int, month: int, day: int)

  datatype DateTimeParts = DateTimeParts(
    date: DateParts, hour: int, minute: int, second: int, microsecond: int,
    offset: Option<int>)

  predicate IsLeapYear(y: int) {
    y % 4 == 0 && (y % 100 != 0 || y % 400 == 0)
  }

  function DaysInMonth(y: int, m: int): int
    requires 1 <= m <= 12
  {
    if m == 2 then (if IsLeapYear(y) then 29 else 28)
    else if m == 4 || m == 6 || m == 9 || m == 11 then 30
    else 31
  }

  predicate ValidDate(d: DateParts) {
    && 1 <= d.year <= 9999
    && 1 <= d.month <= 12
    && 1 <= d.day <= DaysInMonth(d.year, d.month)
  }

  /** A UTC offset Python accepts, restricted to whole minutes. */
  predicate ValidOffset(o: Option<int>) {
    o.Some? ==> -1440 < o.value < 1440
  }

  predicate ValidDateTime(t: DateTimeParts) {
    && ValidDate(t.date)
    && 0 <= t.hour < 24 && 0 <= t.minute < 60 && 0 <= t.second < 60
    && 0 <= t.microsecond < 1000000
    && ValidOffset(t.offset)
  }

  /** A `datetime.date` value. */
  type Date = d: DateParts | ValidDate(d) witness DateParts(1, 1, 1)

  /** A `datetime.datetime` value, naive (`offset == None`) or aware. */
  type DateTime = t: DateTimeParts | ValidDateTime(t)
    witness DateTimeParts(DateParts(1, 1, 1), 0, 0, 0, 0, None)

  // ---------------------------------------------------------------------
  // Fixed-width decimal digits

  function Pow10(k: nat): nat {
    if k == 0 then 1 else 10 * Pow10(k - 1)
  }

  predicate IsDigit(c: char) {
    '0' <= c <= '9'
  }

  predicate AllDigits(s: string) {
    forall i :: 0 <= i < |s| ==> IsDigit(s[i])
  }

  /** `n` written in decimal with leading zeros to exactly `width` digits. */
  function Pad(n: nat, width: nat): (s: string)
    requires n < Pow10(width)
    ensures |s| == width && AllDigits(s)
  {
    if width == 0 then ""
    else Pad(n / 10, width - 1) + [('0' as int + n % 10) as char]
  }

  /** The number a string of decimal digits denotes. */
  function DigitsValue(s: string): nat
    requires AllDigits(s)
  {
    if |s| == 0 then 0
    else DigitsValue(s[..|s| - 1]) * 10 + (s[|s| - 1] as int - '0' as int)
  }

  lemma {:induction false} DigitsValueOfPad(n: nat, width: nat)
    requires n < Pow10(width)
    ensures DigitsValue(Pad(n, width)) == n
  {
    if width > 0 {
      var s := Pad(n, width);
      assert s[..|s| - 1] == Pad(n / 10, width - 1);
      DigitsValueOfPad(n / 10, width - 1);
    }
  }

  lemma {:induction false} PadOfDigitsValue(s: string)
    requires AllDigits(s)
    ensures DigitsValue(s) < Pow10(|s|)
    ensures Pad(DigitsValue(s), |s|) == s
  {
    if |s| > 0 {
      var init := s[..|s| - 1];
      PadOfDigitsValue(init);
      var n := DigitsValue(s);
      assert n / 10 == DigitsValue(init);
      assert s == init + [s[|s| - 1]];
    }
  }

  // ---------------------------------------------------------------------
  // Rendering

  /** `date.isoformat()`: `YYYY-MM-DD`. */
  function IsoDate(d: Date): (s: string)
    ensures |s| == 10
  {
    Pad(d.year, 4) + "-" + Pad(d.month, 2) + "-" + Pad(d.day, 2)
  }

  /** The `+HH:MM` / `-HH:MM` suffix of an aware datetime; empty when naive. */
  function OffsetSuffix(o: Option<int>): (s: string)
    requires ValidOffset(o)
    ensures o.None? ==> s == ""
    ensures o.Some? ==> |s| == 6
  {
    match o
    case None => ""
    case Some(m) =>
      var a := if m < 0 then -m else m;
      (if m < 0 then "-" else "+") + Pad(a / 60, 2) + ":" + Pad(a % 60, 2)
  }

  /** `datetime.isoformat(sep=" ", timespec="seconds")`: the date, a space,
      `HH:MM:SS`, then the UTC offset of an aware value. Microseconds are
      dropped by the `seconds` time spec. */
  function IsoDateTime(t: DateTime): (s: string)
    ensures |s| == (if t.offset.None? then 19 else 25)
  {
    IsoDate(t.date) + " " + Pad(t.hour, 2) + ":" + Pad(t.minute, 2) + ":" + Pad(t.second, 2)
      + OffsetSuffix(t.offset)
  }

  // ---------------------------------------------------------------------
  // Parsing: the partner of rendering

  function ParseIsoDate(s: string): (r: Option<Date>)
  {
    if |s| == 10 && s[4] == '-' && s[7] == '-'
       && AllDigits(s[..4]) && AllDigits(s[5..7]) && AllDigits(s[8..])
    then
      var d := DateParts(DigitsValue(s[..4]), DigitsValue(s[5..7]), DigitsValue(s[8..]));
      if ValidDate(d) then Some(d) else None
    else None
  }

  function ParseOffset(s: string): (r: Option<Option<int>>)
    ensures r.Some? ==> ValidOffset(r.value)
  {
    if |s| == 0 then Some(None)
    else if |s| == 6 && s[3] == ':' then ParseHoursMinutes(s[0], s[1..3], s[4..])
    else None
  }

  /** The offset a sign followed by hour digits and minute digits denotes. */
  function ParseHoursMinutes(sign: char, hh: string, mm: string): (r: Option<Option<int>>)
    ensures r.Some? ==> ValidOffset(r.value)
  {
    if (sign == '+' || sign == '-') && AllDigits(hh) && AllDigits(mm) then
      var h := DigitsValue(hh);
      var m := DigitsValue(mm);
      var a := h * 60 + m;
      if h < 24 && m < 60 && (sign == '+' || a > 0)
      then Some(Some(if sign == '-' then -a else a))
      else None
    else None
  }

  function ParseIsoDateTime(s: string): (r: Option<DateTime>)
  {
    if |s| >= 19 && s[10] == ' ' && s[13] == ':' && s[16] == ':'
       && AllDigits(s[11..13]) && AllDigits(s[14..16]) && AllDigits(s[17..19])
    then
      match (ParseIsoDate(s[..10]), ParseOffset(s[19..]))
      case (Some(d), Some(o)) =>
        var t := DateTimeParts(d, DigitsValue(s[11..13]), DigitsValue(s[14..16]),
                               DigitsValue(s[17..19]), 0, o);
        if ValidDateTime(t) then Some(t) else None
      case _ => None
    else None
  }

  // ---------------------------------------------------------------------
  // Round trips

  lemma ParseIsoDateOfIsoDate(d: Date)
    ensures ParseIsoDate(IsoDate(d)) == Some(d)
  {
    var s := IsoDate(d);
    assert s[..4] == Pad(d.year, 4);
    assert s[5..7] == Pad(d.month, 2);
    assert s[8..] == Pad(d.day, 2);
    DigitsValueOfPad(d.year, 4);
    DigitsValueOfPad(d.month, 2);
    DigitsValueOfPad(d.day, 2);
  }

  lemma IsoDateOfParseIsoDate(s: string)
    requires ParseIsoDate(s).Some?
    ensures IsoDate(ParseIsoDate(s).value) == s
  {
    PadOfDigitsValue(s[..4]);
    PadOfDigitsValue(s[5..7]);
    PadOfDigitsValue(s[8..]);
    assert s == s[..4] + "-" + s[5..7] + "-" + s[8..];
  }

  lemma ParseOffsetOfOffsetSuffix(o: Option<int>)
    requires ValidOffset(o)
    ensures ParseOffset(OffsetSuffix(o)) == Some(o)
  {
    if o.Some? {
      var m := o.value;
      var a := if m < 0 then -m else m;
      var c := if m < 0 then '-' else '+';
      SplitMinutes(a);
      OffsetSuffixOfParts(m < 0, a / 60, a % 60);
      assert (if m < 0 then "-" else "+") == [c];
      ParseOffsetOfParts(c, Pad(a / 60, 2), Pad(a % 60, 2));
      ParseHoursMinutesOfPads(c, a / 60, a % 60);
    }
  }

  /** Whole minutes below a day split into hours below 24 and minutes below 60. */
  lemma SplitMinutes(a: nat)
    requires a < 1440
    ensures a / 60 < 24 && a % 60 < 60 && a == a / 60 * 60 + a % 60
  {
  }

  /** A six-character offset is parsed from its sign, hour and minute parts. */
  lemma ParseOffsetOfParts(c: char, hh: string, mm: string)
    requires |hh| == 2 && |mm| == 2
    ensures ParseOffset([c] + hh + ":" + mm) == ParseHoursMinutes(c, hh, mm)
  {
    var s := [c] + hh + ":" + mm;
    assert s[1..3] == hh && s[4..] == mm;
  }

  /** Padded hours and minutes parse back to the signed offset they make. */
  lemma ParseHoursMinutesOfPads(c: char, h: nat, m: nat)
    requires (c == '+' || c == '-') && h < 24 && m < 60
    requires c == '-' ==> h * 60 + m > 0
    ensures ParseHoursMinutes(c, Pad(h, 2), Pad(m, 2))
         == Some(Some(if c == '-' then -(h * 60 + m) else h * 60 + m))
  {
    DigitsValueOfPad(h, 2);
    DigitsValueOfPad(m, 2);
  }

  lemma OffsetSuffixOfParseOffset(s: string)
    requires ParseOffset(s).Some?
    ensures OffsetSuffix(ParseOffset(s).value) == s
  {
    if |s| > 0 {
      var neg, h, m := ParsedOffsetParts(s);
      OffsetSuffixOfParts(neg, h, m);
      PadOfDigitsValue(s[1..3]);
      PadOfDigitsValue(s[4..]);
      SplitSixCharOffset(s);
      assert (if neg then "-" else "+") == [s[0]];
    }
  }

  lemma SplitSixCharOffset(s: string)
    requires |s| == 6 && s[3] == ':'
    ensures s == [s[0]] + s[1..3] + ":" + s[4..]
  {
  }

  /** The sign, hours and minutes of an offset the parser accepts. */
  lemma ParsedOffsetParts(s: string) returns (neg: bool, h: nat, m: nat)
    requires ParseOffset(s).Some? && |s| > 0
    ensures |s| == 6 && s[3] == ':' && (s[0] == '-' <==> neg) && (s[0] == '+' || neg)
    ensures AllDigits(s[1..3]) && AllDigits(s[4..])
    ensures h == DigitsValue(s[1..3]) && m == DigitsValue(s[4..])
    ensures h < 24 && m < 60 && (neg ==> h * 60 + m > 0)
    ensures ParseOffset(s).value == Some(if neg then -(h * 60 + m) else h * 60 + m)
  {
    assert ParseOffset(s) == ParseHoursMinutes(s[0], s[1..3], s[4..]);
    neg, h, m := s[0] == '-', DigitsValue(s[1..3]), DigitsValue(s[4..]);
  }

  /** The suffix of an offset given by its sign, hours and minutes. */
  lemma OffsetSuffixOfParts(neg: bool, h: nat, m: nat)
    requires h < 24 && m < 60 && (neg ==> h * 60 + m > 0)
    ensures OffsetSuffix(Some(if neg then -(h * 60 + m) else h * 60 + m))
         == (if neg then "-" else "+") + Pad(h, 2) + ":" + Pad(m, 2)
  {
    var a := h * 60 + m;
    var o: int := if neg then -a else a;
    assert (if o < 0 then -o else o) == a;
    HoursAndMinutes(h, m);
    assert (if o < 0 then "-" else "+") == (if neg then "-" else "+");
  }

  /** Minutes split back into hours and minutes. */
  lemma HoursAndMinutes(h: nat, m: nat)
    requires m < 60
    ensures (h * 60 + m) / 60 == h && (h * 60 + m) % 60 == m
  {
  }

  /** Rendering then parsing gives back the datetime with its microseconds
      cleared, the only information the `seconds` time spec loses. */
  lemma ParseIsoDateTimeOfIsoDateTime(t: DateTime)
    ensures ParseIsoDateTime(IsoDateTime(t)) == Some(t.(microsecond := 0))
  {
    IsoDateTimeSlices(IsoDate(t.date), Pad(t.hour, 2), Pad(t.minute, 2), Pad(t.second, 2),
                      OffsetSuffix(t.offset));
    ParseIsoDateOfIsoDate(t.date);
    ParseOffsetOfOffsetSuffix(t.offset);
    DigitsValueOfPad(t.hour, 2);
    DigitsValueOfPad(t.minute, 2);
    DigitsValueOfPad(t.second, 2);
  }

  /** Every string the parser accepts is exactly the rendering of what it
      parses to, so the rendering is the only accepted spelling. */
  lemma IsoDateTimeOfParseIsoDateTime(s: string)
    requires ParseIsoDateTime(s).Some?
    ensures IsoDateTime(ParseIsoDateTime(s).value) == s
    ensures ParseIsoDateTime(s).value.microsecond == 0
  {
    IsoDateOfParseIsoDate(s[..10]);
    OffsetSuffixOfParseOffset(s[19..]);
    PadOfDigitsValue(s[11..13]);
    PadOfDigitsValue(s[14..16]);
    PadOfDigitsValue(s[17..19]);
    IsoDateTimeSlices(s[..10], s[11..13], s[14..16], s[17..19], s[19..]);
    SplitIsoDateTime(s);
  }

  /** Where the parts of a rendered datetime sit in its text. */
  lemma IsoDateTimeSlices(d: string, hh: string, mm: string, ss: string, o: string)
    requires |d| == 10 && |hh| == 2 && |mm| == 2 && |ss| == 2
    ensures var s := d + " " + hh + ":" + mm + ":" + ss + o;
      && |s| >= 19 && s[10] == ' ' && s[13] == ':' && s[16] == ':'
      && s[..10] == d && s[11..13] == hh && s[14..16] == mm && s[17..19] == ss && s[19..] == o
  {
  }

  lemma SplitIsoDateTime(s: string)
    requires |s| >= 19 && s[10] == ' ' && s[13] == ':' && s[16] == ':'
    ensures s == s[..10] + " " + s[11..13] + ":" + s[14..16] + ":" + s[17..19] + s[19..]
  {
  }
}
