/** The Date field type of field.c: four bytes holding the day, the month
    (1 to 12) and the year little-endian, printed as `dd/Mon/yyyy`. */
module FieldDate {
  import opened Common
  import opened FieldTypes

  /** The `months` table of field.c:322-323. */
  const Months: seq<string> := ["Jan", "Feb", "Mar", "Apr", "May", "Jun",
                                "Jul", "Aug", "Sep", "Oct", "Nov", "Dec"]

  /** The three letters of a month name as one number. */
  function NameKey(s: string): int
    requires |s| == 3
  {
    s[0] as int * 0x1_0000 + s[1] as int * 0x100 + s[2] as int
  }

  /** No two months share a name, so a name determines its month. */
  lemma MonthsDistinct()
    ensures |Months| == 12
    ensures forall i, j :: 0 <= i < j < 12 ==> Months[i] != Months[j]
  {
    var keys := seq(12, i requires 0 <= i < 12 => NameKey(Months[i]));
    assert keys == [NameKey("Jan"), NameKey("Feb"), NameKey("Mar"), NameKey("Apr"),
                    NameKey("May"), NameKey("Jun"), NameKey("Jul"), NameKey("Aug"),
                    NameKey("Sep"), NameKey("Oct"), NameKey("Nov"), NameKey("Dec")];
    assert forall i, j :: 0 <= i < j < 12 ==> keys[i] != keys[j];
  }

  // ---------------------------------------------------------------------
  // Printing (`print_date`, field.c:335-346)

  /** The month part of the print: the name, or "BAD" for a byte outside 1..12. */
  function MonthName(m: byte): (s: string)
    ensures |s| == 3
    ensures 1 <= m <= 12 ==> s == Months[m - 1]
    ensures !(1 <= m <= 12) ==> s == "BAD"
  {
    if 1 <= m <= 12 then Months[m - 1] else "BAD"
  }

  /** The year a date field holds: byte 2 is the low byte. */
  function YearOf(w: seq<byte>): (y: nat)
    requires |w| == 4
    ensures y < 0x1_0000
  {
    w[3] as int * 256 + w[2] as int
  }

  /** The text `%02d/%s/%d` of a day, a month name and a year. */
  function DateString(day: nat, name: string, year: nat): string
  {
    Pad2(day) + ("/" + (name + ("/" + Dec(year))))
  }

  /** `print_date(field)`. */
  function DateText(w: seq<byte>): string
    requires |w| == 4
  {
    DateString(w[0], MonthName(w[1]), YearOf(w))
  }

  // ---------------------------------------------------------------------
  // Calendar (`validate_date`, field.c:348-391)

  /** The Gregorian leap rule `validate_date` applies to February. */
  predicate IsLeap(year: int)
  {
    year % 4 == 0 && (year % 100 != 0 || year % 400 == 0)
  }

  /** Days per month, January first, in a common year. */
  const DaysInMonth: seq<nat> := [31, 28, 31, 30, 31, 30, 31, 31, 30, 31, 30, 31]

  /** The number of days of 0-based month `m` of `year`. */
  function MonthLength(m: nat, year: int): (d: nat)
    requires m < 12
    ensures 28 <= d <= 31
  {
    if m == 1 && IsLeap(year) then 29 else DaysInMonth[m]
  }

  /** `validate_date(day, month, year) == 0`: the 0-based month is a month
      and the day is at most as many days as it has. The day is an
      `unsigned char` and the year an `unsigned int` in the source. */
  predicate ValidDate(day: byte, month: int, year: nat)
  {
    if month in {0, 2, 4, 6, 7, 9, 11} then day <= 31
    else if month in {3, 5, 8, 10} then day <= 30
    else if month == 1 then
      var daysInFebruary :=
        if year % 4 == 0 && year % 100 != 0 then 29
        else if year % 4 == 0 && year % 400 == 0 then 29
        else 28;
      day <= daysInFebruary
    else false
  }

  /** `validate_date` accepts exactly the days of the month's calendar. */
  lemma ValidDateCalendar(day: byte, month: int, year: nat)
    ensures ValidDate(day, month, year) <==> 0 <= month < 12 && day <= MonthLength(month, year)
  {
  }

  /** The examples of the leap rule: 2016 and 2000 are leap years, 2014 and
      1900 are not. */
  lemma LeapExamples()
    ensures ValidDate(29, 1, 2016) && ValidDate(29, 1, 2000)
    ensures !ValidDate(29, 1, 2014) && !ValidDate(29, 1, 1900)
    ensures ValidDate(31, 0, 2014) && !ValidDate(31, 3, 2014) && !ValidDate(1, 12, 2014)
  {
  }

  // ---------------------------------------------------------------------
  // Update (`update_date`, field.c:409-463)

  /** The number of the first month `m >= from` whose name starts `date`,
      13 when there is none: where the month loop of `update_date` stops. */
  function FirstMonth(date: string, from: nat): (m: nat)
    requires |date| >= 3 && 1 <= from <= 13
    ensures from <= m <= 13
    ensures m <= 12 ==> date[..3] == Months[m - 1]
    ensures forall k :: from - 1 <= k < m - 1 && k < 12 ==> date[..3] != Months[k]
    decreases 13 - from
  {
    if from == 13 then 13
    else if date[..3] == Months[from - 1] then from
    else FirstMonth(date, from + 1)
  }

  /** A text starting with the name of month `m` is found as month `m`. */
  lemma FirstMonthOfName(date: string, m: nat)
    requires 1 <= m <= 12 && |date| >= 3 && date[..3] == Months[m - 1]
    ensures FirstMonth(date, 1) == m
  {
    MonthsDistinct();
    var r := FirstMonth(date, 1);
    if r <= 12 {
      assert Months[r - 1] == Months[m - 1];
    }
  }

  /** The bytes `update_date` writes (field.c:457-460). */
  function DateBytes(day: int, month: byte, year: nat): (w: seq<byte>)
    requires year < 0x1_0000
    ensures |w| == 4
    ensures w[0] as int == day % 256 && w[1] == month && YearOf(w) == year
  {
    [day % 256, month, year % 256, year / 256]
  }

  /** What `update_date` does to a field: `day/Mon/year` with a decimal day
      and year, checked in the order of the source; the field is written
      only when every check passes. The day is truncated to a byte, as the
      `unsigned char` parameter of `validate_date` and the store do, and a
      negative year reaches `validate_date` as its `unsigned int` value. */
  function DateEffect(window: seq<byte>, value: string): (e: Effect)
    requires |window| == 4
    ensures |e.window| == 4
    ensures e.status != Done ==> e.window == window
  {
    var p := StrToI(value);
    if !(Continues(p) && p.rest[0] == '/') then Effect(Failed(SyntaxError), window)
    else if p.value == 0 then Effect(Failed(InvalidDay), window)
    else
      var date := p.rest[1..];
      if |date| < 4 || date[3] != '/' then Effect(Failed(SyntaxError), window)
      else
        var month := FirstMonth(date, 1);
        if month > 12 then Effect(Failed(InvalidMonth), window)
        else
          var q := StrToI(date[4..]);
          if !Ended(q) then Effect(Failed(SyntaxError), window)
          else if !ValidDate(p.value % 256, month - 1, q.value % 0x1_0000_0000) then
            Effect(Failed(InvalidDate), window)
          else if q.value < 0 || q.value >= 0x1_0000 then Effect(Failed(YearOverflow), window)
          else Effect(Done, DateBytes(p.value, month, q.value))
  }

  /** The record state `update_date` leaves: status `st`, and `cur` is `s`
      with the window at `off` replaced as `DateEffect` says. */
  predicate DateUpdated(s: seq<byte>, cur: seq<byte>, off: nat, value: string, st: Status)
    requires off + 4 <= |s|
  {
    var e := DateEffect(s[off..off + 4], value);
    st == e.status && cur == Splice(s, off, e.window)
  }

  /** The month loop of `update_date` (field.c:432-434): the first month
      whose name `strncmp` finds at the start of the text, or 13. */
  method FindMonth(date: string) returns (month: nat)
    requires |date| >= 4
    ensures month == FirstMonth(date, 1)
  {
    month := 1;
    while month <= 12
      invariant 1 <= month <= 13
      invariant FirstMonth(date, month) == FirstMonth(date, 1)
    {
      if date[..3] == Months[month - 1] {
        break;
      }
      month := month + 1;
    }
  }

  /** `update_date(field, value)`. */
  method UpdateDate(buf: array<byte>, f: Field, value: string) returns (st: Status)
    requires f.desc.size == 4 && f.End() <= buf.Length
    modifies buf
    ensures DateUpdated(old(buf[..]), buf[..], f.offset, value, st)
  {
    ghost var before := buf[..];
    SpliceSame(before, f.offset, 4);
    var p := StrToI(value);
    if !Continues(p) || p.rest[0] != '/' {
      return Failed(SyntaxError);
    }
    var day := p.value;
    if day == 0 {
      return Failed(InvalidDay);
    }
    var date := p.rest[1..];
    if |date| < 4 || date[3] != '/' {
      return Failed(SyntaxError);
    }
    var month := FindMonth(date);
    if month > 12 {
      return Failed(InvalidMonth);
    }
    var q := StrToI(date[4..]);
    if !Ended(q) {
      return Failed(SyntaxError);
    }
    var year := q.value;
    if !ValidDate(day % 256, month - 1, year % 0x1_0000_0000) {
      return Failed(InvalidDate);
    }
    if year < 0 || year >= 0x1_0000 {
      return Failed(YearOverflow);
    }
    Store(buf, f.offset, DateBytes(day, month, year));
    return Done;
  }

  // ---------------------------------------------------------------------
  // Round trips and examples

  /** The bytes of a date `update_date` can write: a non-zero day, a month
      in 1..12 and a day the month has. */
  predicate IsDateWindow(w: seq<byte>)
    requires |w| == 4
  {
    w[0] != 0 && 1 <= w[1] <= 12 && ValidDate(w[0], w[1] - 1, YearOf(w))
  }

  /** The text `day/name/year` splits where `update_date` splits it. */
  lemma ParseDateString(day: nat, name: string, year: nat)
    requires |name| == 3
    ensures var p := StrToI(DateString(day, name, year));
      && Continues(p) && p.value == day && p.rest[0] == '/'
      && p.rest[1..] == name + ("/" + Dec(year))
      && StrToI(p.rest[1..][4..]) == Number(year, [])
  {
    var date := name + ("/" + Dec(year));
    ParseDigits(Pad2(day), "/" + date, 10);
    assert ("/" + date)[1..] == date;
    assert date[4..] == Dec(year) + [];
    ParseDigits(Dec(year), [], 10);
  }

  /** `value` reads as day `day`, month `month` and year `year` in the
      steps of `update_date`, before the date is checked. */
  predicate DateParses(value: string, day: int, month: nat, year: int)
  {
    var p := StrToI(value);
    && Continues(p) && p.value == day && p.rest[0] == '/'
    && var date := p.rest[1..];
    && |date| >= 4 && date[3] == '/' && FirstMonth(date, 1) == month
    && StrToI(date[4..]) == Number(year, [])
  }

  /** A text whose day, month and year parse as a valid date is accepted. */
  lemma DateAccepted(window: seq<byte>, value: string, day: int, b: byte, month: byte, year: nat)
    requires |window| == 4 && day != 0 && 1 <= month <= 12 && year < 0x1_0000
    requires b as int == day % 256 && ValidDate(b, month - 1, year)
    requires DateParses(value, day, month as nat, year)
    ensures DateEffect(window, value) == Effect(Done, DateBytes(day, month, year))
  {
  }

  /** The converse of `DateAccepted`: the field is written only when the
      text parsed as day/Mon/year and passed every check, and then it holds
      the bytes of that date (field.c:400-401). The day is an `int`, since
      `strtoi` reads a sign and the store keeps its low byte. */
  lemma DateEffectDone(window: seq<byte>, value: string)
    requires |window| == 4 && DateEffect(window, value).status == Done
    ensures exists day: int, month: nat, year: nat ::
      && DateParses(value, day, month, year) && day != 0 && 1 <= month <= 12
      && year < 0x1_0000 && ValidDate(day % 256, month - 1, year)
      && DateEffect(window, value).window == DateBytes(day, month as byte, year)
  {
    var p := StrToI(value);
    var date := p.rest[1..];
    var q := StrToI(date[4..]);
    assert DateParses(value, p.value, FirstMonth(date, 1), q.value);
  }

  /** A text that parses as a day the month does not have is refused. */
  lemma DateInvalid(window: seq<byte>, value: string, day: nat, b: byte, month: byte, year: nat)
    requires |window| == 4 && day != 0 && 1 <= month <= 12
    requires b as int == day % 256 && year < 0x1_0000_0000 && !ValidDate(b, month - 1, year)
    requires DateParses(value, day, month as nat, year)
    ensures DateEffect(window, value) == Effect(Failed(InvalidDate), window)
  {
  }

  /** The text of a day, the name of month `m` and a year reads as them. */
  lemma ParseMonthDate(day: nat, m: nat, year: nat)
    requires 1 <= m <= 12
    ensures DateParses(DateString(day, Months[m - 1], year), day, m, year)
  {
    var name := Months[m - 1];
    ParseDateString(day, name, year);
    var date := StrToI(DateString(day, name, year)).rest[1..];
    assert date[..3] == name;
    FirstMonthOfName(date, m);
  }

  /** The printed form of a valid date is accepted. */
  lemma DateStringAccepted(window: seq<byte>, day: byte, m: byte, year: nat)
    requires |window| == 4 && day != 0 && 1 <= m <= 12 && year < 0x1_0000
    requires ValidDate(day, m - 1, year)
    ensures DateEffect(window, DateString(day, Months[m - 1], year)) == Effect(Done, DateBytes(day, m, year))
  {
    ParseMonthDate(day, m, year);
    DateAccepted(window, DateString(day, Months[m - 1], year), day, day, m, year);
  }

  /** Updating a date field with its printed form restores the bytes. */
  lemma DatePrintUpdateRoundTrip(window: seq<byte>, w: seq<byte>)
    requires |window| == 4 && |w| == 4 && IsDateWindow(w)
    ensures DateEffect(window, DateText(w)) == Effect(Done, w)
  {
    DateStringAccepted(window, w[0], w[1], YearOf(w));
    DateBytesOf(w);
  }

  /** A date field is the bytes of its own day, month and year. */
  lemma DateBytesOf(w: seq<byte>)
    requires |w| == 4
    ensures DateBytes(w[0], w[1], YearOf(w)) == w
  {
    var y := YearOf(w);
    assert y % 256 == w[2] as int && y / 256 == w[3] as int;
  }

  /** A date text in the form the print produces, naming a valid date, is
      accepted and printed back unchanged. */
  lemma DateUpdatePrintRoundTrip(window: seq<byte>, day: byte, m: byte, year: nat)
    requires |window| == 4 && day != 0 && 1 <= m <= 12 && year < 0x1_0000
    requires ValidDate(day, m - 1, year)
    ensures var e := DateEffect(window, DateString(day, Months[m - 1], year));
      e.status == Done && DateText(e.window) == DateString(day, Months[m - 1], year)
  {
    DateStringAccepted(window, day, m, year);
    DateTextOfBytes(day, m, year);
  }

  /** The bytes of a date print as its text. */
  lemma DateTextOfBytes(day: byte, m: byte, year: nat)
    requires 1 <= m <= 12 && year < 0x1_0000
    ensures DateText(DateBytes(day, m, year)) == DateString(day, Months[m - 1], year)
  {
    var w := DateBytes(day, m, year);
    assert w[0] == day && w[1] == m && YearOf(w) == year;
  }

  /** `Dec(2014)` is "2014". */
  lemma Dec2014()
    ensures Dec(2014) == "2014" && Dec(2016) == "2016"
  {
    assert Dec(2) == "2" && Dec(20) == "20" && Dec(201) == "201";
  }

  /** The example of field.c:329: "07/Feb/2014" is stored as 7, 2, 0xde, 0x07. */
  lemma DateExample(window: seq<byte>)
    requires |window| == 4
    ensures DateString(7, "Feb", 2014) == "07/Feb/2014"
    ensures DateEffect(window, DateString(7, "Feb", 2014)) == Effect(Done, [7, 2, 0xde, 0x07])
  {
    Dec2014();
    assert Months[1] == "Feb";
    DateStringAccepted(window, 7, 2, 2014);
    assert DateBytes(7, 2, 2014) == [7, 2, 0xde, 0x07];
  }

  /** February 29th exists in 2016, a leap year. */
  lemma LeapDayExample(window: seq<byte>)
    requires |window| == 4
    ensures DateEffect(window, DateString(29, "Feb", 2016)) == Effect(Done, [29, 2, 0xe0, 0x07])
  {
    assert Months[1] == "Feb";
    DateStringAccepted(window, 29, 2, 2016);
    assert DateBytes(29, 2, 2016) == [29, 2, 0xe0, 0x07];
  }

  /** February 29th does not exist in 2014: the field is left unchanged. */
  lemma NoLeapDayExample(window: seq<byte>)
    requires |window| == 4
    ensures DateEffect(window, DateString(29, "Feb", 2014)) == Effect(Failed(InvalidDate), window)
  {
    assert Months[1] == "Feb";
    ParseMonthDate(29, 2, 2014);
    DateInvalid(window, DateString(29, Months[1], 2014), 29, 29, 2, 2014);
  }

  /** The day is truncated to a byte after the zero check: day 256 passes
      it and is stored as 0, which the day check was to keep out. */
  lemma DayTruncationExample(window: seq<byte>)
    requires |window| == 4
    ensures DateEffect(window, DateString(256, "Jan", 2014)) == Effect(Done, [0, 1, 0xde, 0x07])
  {
    ParseMonthDate(256, 1, 2014);
    DateAccepted(window, DateString(256, Months[0], 2014), 256, 0, 1, 2014);
  }

  /** "-255/Jan/2014" reads as day -255, January and 2014. */
  lemma NegativeDayParses()
    ensures DateParses("-255/Jan/2014", -255, 1, 2014)
  {
    assert "-255/Jan/2014" == "-" + ("255" + "/Jan/2014");
    ParseDigits("255", "/Jan/2014", 10);
    DigitsValue3('2', '5', '5', 10);
    var date := "Jan/2014";
    assert date[..3] == Months[0];
    FirstMonthOfName(date, 1);
    ParseDigits("2014", [], 10);
    assert date[4..] == "2014" + [];
  }

  /** A negative day passes the `day == 0` check, and its low byte is what
      `validate_date` sees and what is stored: "-255" is day 1. */
  lemma NegativeDayExample(window: seq<byte>)
    requires |window| == 4
    ensures DateEffect(window, "-255/Jan/2014") == Effect(Done, [1, 1, 0xde, 0x07])
  {
    NegativeDayParses();
    DateAccepted(window, "-255/Jan/2014", -255, 1, 1, 2014);
  }

  /** An unknown month name is refused with the field unchanged. */
  lemma UnknownMonthExample(window: seq<byte>)
    requires |window| == 4
    ensures DateEffect(window, DateString(7, "Foo", 2014)) == Effect(Failed(InvalidMonth), window)
  {
    ParseDateString(7, "Foo", 2014);
    var date := "Foo" + ("/" + Dec(2014));
    assert date[..3] == "Foo";
    assert FirstMonth(date, 1) == 13;
  }
}
