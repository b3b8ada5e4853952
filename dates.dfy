/** `parse_date`: the timestamp text one of the tools gave is tried against
    four `datetime.strptime` formats in a fixed order, and the first that
    matches gives the date-time. Every field is read as a fixed-width run of
    digits (strptime also takes one-digit fields; see README). */
module Dates {
  import opened Wrappers
  import opened Text

  /** A `datetime`: the calendar fields, microseconds, and the UTC offset in
      minutes when the format carried one (an aware datetime). */
  datatype DateTime = DateTime(
    year: int, month: int, day: int,
    hour: int, minute: int, second: int,
    microsecond: int,
    utcOffset: Option<int>)

  predicate IsLeapYear(y: int)
  {
    y % 4 == 0 && (y % 100 != 0 || y % 400 == 0)
  }

  function DaysInMonth(y: int, m: int): int
    requires 1 <= m <= 12
  {
    if m == 2 then (if IsLeapYear(y) then 29 else 28)
    else if m == 4 || m == 6 || m == 9 || m == 11 then 30
    else 31
  }

  /** What the `datetime` constructor accepts: years 1 to 9999, a day that
      exists in its month, a time of day to the second, and an offset
      strictly within a day. */
  predicate ValidDateTime(d: DateTime)
  {
    && 1 <= d.year <= 9999
    && 1 <= d.month <= 12
    && 1 <= d.day <= DaysInMonth(d.year, d.month)
    && 0 <= d.hour < 24 && 0 <= d.minute < 60 && 0 <= d.second < 60
    && 0 <= d.microsecond < 1000000
    && (d.utcOffset.Some? ==> -1440 < d.utcOffset.value < 1440)
  }

  /** The four formats, in the order they are tried. */
  datatype Format =
    | ColonDate         // '%Y:%m:%d %H:%M:%S'
    | DashDateOffset    // '%Y-%m-%d %H:%M:%S %z'
    | IsoUtc            // '%Y-%m-%dT%H:%M:%S.%fZ'
    | ColonDateOffset   // '%Y:%m:%d %H:%M:%S%z'

  const FORMATS: seq<Format> := [ColonDate, DashDateOffset, IsoUtc, ColonDateOffset]

  predicate DigitsAt(s: string, i: int, n: nat)
  {
    0 <= i && i + n <= |s| && AllDigits(s[i..i + n])
  }

  function FieldAt(s: string, i: int, n: nat): nat
    requires DigitsAt(s, i, n)
  {
    DigitsValue(s[i..i + n])
  }

  /** `s` is `YYYY?MM?DD?HH:MM:SS` with `dateSep` between the date fields and,
      between date and time, a space or (when `isoT`) the letter T, which
      strptime matches in either case. */
  predicate StampShape(s: string, dateSep: char, isoT: bool)
  {
    && |s| == 19
    && DigitsAt(s, 0, 4) && s[4] == dateSep && DigitsAt(s, 5, 2) && s[7] == dateSep && DigitsAt(s, 8, 2)
    && (if isoT then s[10] == 'T' || s[10] == 't' else s[10] == ' ')
    && DigitsAt(s, 11, 2) && s[13] == ':' && DigitsAt(s, 14, 2) && s[16] == ':' && DigitsAt(s, 17, 2)
  }

  /** The date-time `s` spells out, when it has the shape and its fields are
      in range; `microsecond` and `offset` come from the rest of the text. */
  function ParseStamp(s: string, dateSep: char, isoT: bool, microsecond: int, offset: Option<int>): Option<DateTime>
  {
    if StampShape(s, dateSep, isoT) then
      var d := DateTime(FieldAt(s, 0, 4), FieldAt(s, 5, 2), FieldAt(s, 8, 2),
                        FieldAt(s, 11, 2), FieldAt(s, 14, 2), FieldAt(s, 17, 2),
                        microsecond, offset);
      if ValidDateTime(d) then Some(d) else None
    else None
  }

  function SignedOffset(sign: char, hours: nat, minutes: nat): Option<int>
  {
    if hours < 24 && minutes < 60 then
      var m := hours * 60 + minutes;
      Some(if sign == '-' then -m else m)
    else None
  }

  /** `%z`: the letter Z (offset zero), or a sign followed by HHMM or HH:MM,
      as a signed number of minutes. The minutes must be below 60 and the
      whole offset below a day. */
  function ParseUtcOffset(t: string): Option<int>
  {
    if t == "Z" then Some(0)
    else if |t| == 5 && (t[0] == '+' || t[0] == '-') && DigitsAt(t, 1, 2) && DigitsAt(t, 3, 2) then
      SignedOffset(t[0], FieldAt(t, 1, 2), FieldAt(t, 3, 2))
    else if |t| == 6 && (t[0] == '+' || t[0] == '-') && DigitsAt(t, 1, 2) && t[3] == ':' && DigitsAt(t, 4, 2) then
      SignedOffset(t[0], FieldAt(t, 1, 2), FieldAt(t, 4, 2))
    else None
  }

  /** `%f`: one to six digits, read as the leading digits of a microsecond
      count. */
  function Fraction(f: string): nat
    requires 1 <= |f| <= 6 && AllDigits(f)
  {
    DigitsValue(f) * Pow10(6 - |f|)
  }

  /** `datetime.strptime(s, fmt)`: the date-time, or None for the ValueError. */
  function Strptime(s: string, f: Format): Option<DateTime>
  {
    match f
    case ColonDate =>
      ParseStamp(s, ':', false, 0, None)
    case DashDateOffset =>
      if |s| > 20 && s[19] == ' ' then
        match ParseUtcOffset(s[20..])
        case Some(o) => ParseStamp(s[..19], '-', false, 0, Some(o))
        case None => None
      else None
    case IsoUtc =>
      if 22 <= |s| <= 27 && s[19] == '.' && DigitsAt(s, 20, |s| - 21)
         && (s[|s| - 1] == 'Z' || s[|s| - 1] == 'z')
      then ParseStamp(s[..19], '-', true, Fraction(s[20..|s| - 1]), None)
      else None
    case ColonDateOffset =>
      if |s| > 19 then
        match ParseUtcOffset(s[19..])
        case Some(o) => ParseStamp(s[..19], ':', false, 0, Some(o))
        case None => None
      else None
  }

  /** The result of the first of `formats` that matches `s`. */
  function FirstMatch(s: string, formats: seq<Format>): Option<DateTime>
  {
    if formats == [] then None
    else if Strptime(s, formats[0]).Some? then Strptime(s, formats[0])
    else FirstMatch(s, formats[1..])
  }

  /** `parse_date(s)`: a date-time, or None where the source raises
      `ValueError("Date format not recognized: ...")`. */
  function ParsedDate(s: string): (r: Option<DateTime>)
    ensures r.Some? ==> ValidDateTime(r.value) && |s| >= 19
  {
    FirstMatchValid(s, FORMATS);
    FirstMatch(s, FORMATS)
  }

  lemma {:induction false} FirstMatchValid(s: string, formats: seq<Format>)
    ensures FirstMatch(s, formats).Some? ==> ValidDateTime(FirstMatch(s, formats).value) && |s| >= 19
  {
    if formats != [] && Strptime(s, formats[0]).None? {
      FirstMatchValid(s, formats[1..]);
    }
  }

  /** Format `i` is the first of `formats` that matches `s`. */
  predicate FirstMatchingFormat(s: string, formats: seq<Format>, i: int)
  {
    0 <= i < |formats| && Strptime(s, formats[i]).Some?
    && forall j :: 0 <= j < i ==> Strptime(s, formats[j]).None?
  }

  /** Trying formats in order fails exactly when none matches, and otherwise
      returns what the first matching one returns. */
  lemma {:induction false} FirstMatchSpec(s: string, formats: seq<Format>)
    ensures FirstMatch(s, formats).None? <==>
      forall i :: 0 <= i < |formats| ==> Strptime(s, formats[i]).None?
    ensures forall i :: FirstMatchingFormat(s, formats, i) ==>
      FirstMatch(s, formats) == Strptime(s, formats[i])
  {
    if formats != [] && Strptime(s, formats[0]).None? {
      var rest := formats[1..];
      FirstMatchSpec(s, rest);
      forall i | FirstMatchingFormat(s, formats, i)
        ensures FirstMatch(s, formats) == Strptime(s, formats[i])
      {
        assert FirstMatchingFormat(s, rest, i - 1);
      }
      if forall i :: 0 <= i < |rest| ==> Strptime(s, rest[i]).None? {
        forall i | 0 <= i < |formats| ensures Strptime(s, formats[i]).None? {
          if i > 0 { assert formats[i] == rest[i - 1]; }
        }
      }
    } else if formats != [] {
      assert FirstMatchingFormat(s, formats, 0);
    }
  }

  /** `parse_date` itself: the loop over the four formats that returns the
      first successful `strptime` and raises when all four fail. */
  method ParseDate(text: string) returns (r: Option<DateTime>)
    ensures r == ParsedDate(text)
  {
    for i := 0 to |FORMATS|
      invariant FirstMatch(text, FORMATS[i..]) == ParsedDate(text)
    {
      assert FORMATS[i..][1..] == FORMATS[i + 1..];
      var parsed := Strptime(text, FORMATS[i]);
      if parsed.Some? {
        return parsed;
      }
    }
    return None;
  }

  // ---------------------------------------------------------------------
  // What a successful parse says about the text
  // ---------------------------------------------------------------------

  /** The four formats never match the same text, so the order in which they
      are tried never changes the result. */
  lemma AtMostOneFormat(s: string, i: int, j: int)
    requires 0 <= i < j < |FORMATS|
    ensures Strptime(s, FORMATS[i]).None? || Strptime(s, FORMATS[j]).None?
  {
  }

  /** The fields of a stamp are the digits at its fixed positions. */
  predicate FieldsAt(s: string, d: DateTime)
  {
    && DigitsAt(s, 0, 4) && d.year == FieldAt(s, 0, 4)
    && DigitsAt(s, 5, 2) && d.month == FieldAt(s, 5, 2)
    && DigitsAt(s, 8, 2) && d.day == FieldAt(s, 8, 2)
    && DigitsAt(s, 11, 2) && d.hour == FieldAt(s, 11, 2)
    && DigitsAt(s, 14, 2) && d.minute == FieldAt(s, 14, 2)
    && DigitsAt(s, 17, 2) && d.second == FieldAt(s, 17, 2)
  }

  lemma PrefixFields(s: string, d: DateTime)
    requires |s| >= 19 && FieldsAt(s[..19], d)
    ensures FieldsAt(s, d)
  {
    var p := s[..19];
    assert p[0..4] == s[0..4] && p[5..7] == s[5..7] && p[8..10] == s[8..10];
    assert p[11..13] == s[11..13] && p[14..16] == s[14..16] && p[17..19] == s[17..19];
  }

  lemma {:induction false} StrptimeFields(s: string, f: Format)
    requires Strptime(s, f).Some?
    ensures FieldsAt(s, Strptime(s, f).value)
  {
    var d := Strptime(s, f).value;
    if f != ColonDate {
      PrefixFields(s, d);
    }
  }

  /** `parse_date` returns what the first matching format gives. */
  lemma ParsedDateCases(s: string)
    ensures ParsedDate(s) ==
      if Strptime(s, ColonDate).Some? then Strptime(s, ColonDate)
      else if Strptime(s, DashDateOffset).Some? then Strptime(s, DashDateOffset)
      else if Strptime(s, IsoUtc).Some? then Strptime(s, IsoUtc)
      else Strptime(s, ColonDateOffset)
  {
    var f1 := FORMATS[1..];
    var f2 := f1[1..];
    var f3 := f2[1..];
    assert f1 == [DashDateOffset, IsoUtc, ColonDateOffset];
    assert f2 == [IsoUtc, ColonDateOffset];
    assert f3 == [ColonDateOffset] && f3[1..] == [];
    assert FirstMatch(s, f3) == if Strptime(s, ColonDateOffset).Some? then Strptime(s, ColonDateOffset) else None;
    assert FirstMatch(s, f2) == if Strptime(s, IsoUtc).Some? then Strptime(s, IsoUtc) else FirstMatch(s, f3);
    assert FirstMatch(s, f1) == if Strptime(s, DashDateOffset).Some? then Strptime(s, DashDateOffset) else FirstMatch(s, f2);
    assert ParsedDate(s) == if Strptime(s, ColonDate).Some? then Strptime(s, ColonDate) else FirstMatch(s, f1);
  }

  /** The six calendar fields of a parsed date are the digits at the fixed
      positions of the text, whichever format matched. */
  lemma {:induction false} ParsedFields(s: string)
    requires ParsedDate(s).Some?
    ensures FieldsAt(s, ParsedDate(s).value)
  {
    ParsedDateCases(s);
    if Strptime(s, ColonDate).Some? {
      StrptimeFields(s, ColonDate);
    } else if Strptime(s, DashDateOffset).Some? {
      StrptimeFields(s, DashDateOffset);
    } else if Strptime(s, IsoUtc).Some? {
      StrptimeFields(s, IsoUtc);
    } else {
      StrptimeFields(s, ColonDateOffset);
    }
  }

  /** Only the two `%z` formats give an aware date-time; the other two give a
      naive one. */
  lemma {:induction false} OffsetOnlyFromZoneFormats(s: string)
    requires ParsedDate(s).Some?
    ensures ParsedDate(s).value.utcOffset.Some? <==>
      Strptime(s, DashDateOffset).Some? || Strptime(s, ColonDateOffset).Some?
  {
    ParsedDateCases(s);
    AtMostOneFormat(s, 0, 1);
    AtMostOneFormat(s, 0, 3);
    AtMostOneFormat(s, 2, 3);
  }

  // ---------------------------------------------------------------------
  // One text per format
  // ---------------------------------------------------------------------

  /** The fields of a stamp whose digit positions hold digits, digit by digit. */
  lemma StampDigits(s: string)
    requires |s| >= 19
    requires IsDigit(s[0]) && IsDigit(s[1]) && IsDigit(s[2]) && IsDigit(s[3])
    requires IsDigit(s[5]) && IsDigit(s[6]) && IsDigit(s[8]) && IsDigit(s[9])
    requires IsDigit(s[11]) && IsDigit(s[12]) && IsDigit(s[14]) && IsDigit(s[15])
    requires IsDigit(s[17]) && IsDigit(s[18])
    ensures DigitsAt(s, 0, 4) && DigitsAt(s, 5, 2) && DigitsAt(s, 8, 2)
    ensures DigitsAt(s, 11, 2) && DigitsAt(s, 14, 2) && DigitsAt(s, 17, 2)
    ensures FieldAt(s, 0, 4) == 1000 * Val(s[0]) + 100 * Val(s[1]) + 10 * Val(s[2]) + Val(s[3])
    ensures FieldAt(s, 5, 2) == 10 * Val(s[5]) + Val(s[6])
    ensures FieldAt(s, 8, 2) == 10 * Val(s[8]) + Val(s[9])
    ensures FieldAt(s, 11, 2) == 10 * Val(s[11]) + Val(s[12])
    ensures FieldAt(s, 14, 2) == 10 * Val(s[14]) + Val(s[15])
    ensures FieldAt(s, 17, 2) == 10 * Val(s[17]) + Val(s[18])
  {
    assert AllDigits(s[0..4]) && AllDigits(s[5..7]) && AllDigits(s[8..10]);
    assert AllDigits(s[11..13]) && AllDigits(s[14..16]) && AllDigits(s[17..19]);
    DigitsValue4(s[0..4]);
    DigitsValue2(s[5..7]);
    DigitsValue2(s[8..10]);
    DigitsValue2(s[11..13]);
    DigitsValue2(s[14..16]);
    DigitsValue2(s[17..19]);
  }

  /** An exiftool `Date/Time Original` value matches the first format. */
  lemma ParsesColonDate()
    ensures ParsedDate("2023:05:01 10:15:22") == Some(DateTime(2023, 5, 1, 10, 15, 22, 0, None))
  {
    var s := "2023:05:01 10:15:22";
    ParsedDateCases(s);
    ExampleStampSpelled();
    ExampleStampParses(':', false, 0, None);
  }

  lemma OffsetPlus0200()
    ensures ParseUtcOffset("+0200") == Some(120)
  {
    var t := "+0200";
    DigitsValue2(t[1..3]);
    DigitsValue2(t[3..5]);
  }

  /** The example stamp `2023?05?01?10:15:22`, with `dateSep` between the
      date fields and a `T` (when `isoT`) or a space before the time. */
  function ExampleStamp(dateSep: char, isoT: bool): string
  {
    "2023" + [dateSep] + "05" + [dateSep] + "01" + [if isoT then 'T' else ' '] + "10:15:22"
  }

  lemma ExampleStampSpelled()
    ensures ExampleStamp('-', false) == "2023-05-01 10:15:22"
    ensures ExampleStamp('-', true) == "2023-05-01T10:15:22"
    ensures ExampleStamp(':', false) == "2023:05:01 10:15:22"
  {
  }

  lemma ExampleStampParses(dateSep: char, isoT: bool, microsecond: int, offset: Option<int>)
    requires dateSep == '-' || dateSep == ':'
    requires 0 <= microsecond < 1000000
    requires offset.Some? ==> -1440 < offset.value < 1440
    ensures ParseStamp(ExampleStamp(dateSep, isoT), dateSep, isoT, microsecond, offset)
      == Some(DateTime(2023, 5, 1, 10, 15, 22, microsecond, offset))
  {
    StampDigits(ExampleStamp(dateSep, isoT));
  }

  /** An mdls creation date matches the second format; `+0200` is 120 minutes
      east of UTC. */
  lemma ParsesDashDateOffset()
    ensures ParsedDate("2023-05-01 10:15:22 +0200") == Some(DateTime(2023, 5, 1, 10, 15, 22, 0, Some(120)))
  {
    var s := "2023-05-01 10:15:22 +0200";
    assert Strptime(s, DashDateOffset) == Some(DateTime(2023, 5, 1, 10, 15, 22, 0, Some(120))) by {
      assert s[..19] == "2023-05-01 10:15:22" && s[20..] == "+0200";
      OffsetPlus0200();
      ExampleStampSpelled();
      ExampleStampParses('-', false, 0, Some(120));
    }
    ParsedDateCases(s);
  }

  lemma Fraction123456()
    ensures AllDigits("123456") && Fraction("123456") == 123456
  {
    assert "123456" == "1234" + "56";
    DigitsValue4("1234");
    DigitsValue2("56");
    DigitsValueConcat("1234", "56");
  }

  /** An ffprobe creation time matches the third format, microseconds and all. */
  lemma ParsesIsoUtc()
    ensures ParsedDate("2023-05-01T10:15:22.123456Z") == Some(DateTime(2023, 5, 1, 10, 15, 22, 123456, None))
  {
    var s := "2023-05-01T10:15:22.123456Z";
    assert Strptime(s, IsoUtc) == Some(DateTime(2023, 5, 1, 10, 15, 22, 123456, None)) by {
      assert s[..19] == "2023-05-01T10:15:22" && s[20..|s| - 1] == "123456";
      Fraction123456();
      ExampleStampSpelled();
      ExampleStampParses('-', true, 123456, None);
    }
    ParsedDateCases(s);
  }

  /** A colon-separated date with an offset straight after the seconds
      matches the fourth format. */
  lemma ParsesColonDateOffset()
    ensures ParsedDate("2023:05:01 10:15:22+0200") == Some(DateTime(2023, 5, 1, 10, 15, 22, 0, Some(120)))
  {
    var s := "2023:05:01 10:15:22+0200";
    assert Strptime(s, ColonDateOffset) == Some(DateTime(2023, 5, 1, 10, 15, 22, 0, Some(120))) by {
      assert s[..19] == "2023:05:01 10:15:22" && s[19..] == "+0200";
      OffsetPlus0200();
      ExampleStampSpelled();
      ExampleStampParses(':', false, 0, Some(120));
    }
    ParsedDateCases(s);
  }

  /** Text that fits no format is rejected. */
  lemma RejectsNonDate()
    ensures ParsedDate("not-a-date") == None
  {
    var s := "not-a-date";
    ParsedDateCases(s);
    assert |s| == 10;
  }
}
