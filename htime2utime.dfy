/** htime2utime.c: reads one argument of the shape "YYYY-MM-DD HH:MM:SS",
    interprets it as local time and reports the Unix timestamp `mktime`
    gives for it. */
module Htime2utime {
  import opened Libc
  import opened Scanf

  /** The six integers of a date and time, as the user wrote them. */
  datatype DateTime = DateTime(year: int, month: int, day: int, hour: int, minute: int, second: int)

  /** The range check of `parse_datetime`. The day is compared with 31 only,
      whatever the month and the year. */
  predicate InRange(d: DateTime) {
    && 1900 <= d.year <= 2099
    && 1 <= d.month <= 12
    && 1 <= d.day <= 31
    && 0 <= d.hour <= 23
    && 0 <= d.minute <= 59
    && 0 <= d.second <= 59
  }

  /** The six values `sscanf` assigns, in the order of the format. */
  function FieldsOf(v: seq<int>): DateTime
    requires |v| == 6
  {
    DateTime(v[0], v[1], v[2], v[3], v[4], v[5])
  }

  /** What `parse_datetime` accepts: the six values `sscanf` assigned for
      `"%d-%d-%d %d:%d:%d"`, provided it assigned all six and they pass the
      range check. */
  function Parse(text: string): (r: Option<DateTime>)
    ensures r.Some? ==> InRange(r.value)
    ensures Returned(Scan(DatetimeFormat(), text, 0)) != 6 ==> r.None?
    ensures var scanned := Scan(DatetimeFormat(), text, 0);
            r.Some? ==> Returned(scanned) == 6 && r.value == FieldsOf(scanned.values)
    ensures var scanned := Scan(DatetimeFormat(), text, 0);
            Returned(scanned) == 6 && InRange(FieldsOf(scanned.values)) ==> r == Some(FieldsOf(scanned.values))
  {
    var scanned := Scan(DatetimeFormat(), text, 0);
    if Returned(scanned) != 6 then None
    else
      var d := FieldsOf(scanned.values);
      if InRange(d) then Some(d) else None
  }

  /** The date and time a `struct tm` stands for: `tm_year` counts years
      since 1900 and `tm_mon` months since January. */
  function Denoted(tm: TmValue): DateTime {
    DateTime(tm.year + 1900, tm.mon + 1, tm.mday, tm.hour, tm.min, tm.sec)
  }

  /** The record `parse_datetime` fills in after a successful check. */
  function ToTm(d: DateTime): (tm: TmValue)
    requires InRange(d)
    ensures Denoted(tm) == d
    ensures 0 <= tm.year <= 199 && 0 <= tm.mon <= 11
    ensures tm.isdst == -1 && tm.wday == 0 && tm.yday == 0
  {
    TmValue(d.second, d.minute, d.hour, d.day, d.month - 1, d.year - 1900, 0, 0, -1)
  }

  /** `parse_datetime`: clears the caller's record, scans the text, and fills
      the record only when all six fields were read and are in range; it
      returns 0 then and -1 otherwise, leaving the record all zero. */
  method ParseDatetime(text: string, tm: Tm) returns (status: int)
    modifies tm
    ensures status == (if Parse(text).Some? then 0 else -1)
    ensures Parse(text).Some? ==> tm.Value() == ToTm(Parse(text).value)
    ensures Parse(text).None? ==> tm.Value() == ZeroTm
  {
    tm.Clear();
    var scanned := Scan(DatetimeFormat(), text, 0);
    var parsed := Returned(scanned);
    if parsed != 6 {
      return -1;
    }
    var v := scanned.values;
    var d := DateTime(v[0], v[1], v[2], v[3], v[4], v[5]);
    if !InRange(d) {
      return -1;
    }
    tm.year := d.year - 1900;
    tm.mon := d.month - 1;
    tm.mday := d.day;
    tm.hour := d.hour;
    tm.min := d.minute;
    tm.sec := d.second;
    tm.isdst := -1;
    return 0;
  }

  /** How one field is written: `blanks` blanks, then `-` for a negative
      value or `+` when `plus` is set, then the magnitude in `width` digits,
      zero-padded on the left. */
  datatype Field = Field(blanks: nat, plus: bool, width: nat)

  /** A field written with neither blanks nor sign, in `width` digits. */
  function Digits(width: nat): Field {
    Field(0, false, width)
  }

  /** How each of the six fields is written. */
  datatype Layout = Layout(year: Field, month: Field, day: Field, hour: Field, minute: Field, second: Field)

  /** The layout of `strftime` with `"%Y-%m-%d %H:%M:%S"` for four-digit years. */
  const Padded: Layout := Layout(Digits(4), Digits(2), Digits(2), Digits(2), Digits(2), Digits(2))

  function Magnitude(v: int): nat {
    if v < 0 then -v else v
  }

  function SignOf(v: int, f: Field): Sign {
    if v < 0 then Minus else if f.plus then Plus else Unsigned
  }

  /** Field `f` has room for the digits of `v`. */
  predicate FitsField(v: int, f: Field) {
    1 <= f.width && Magnitude(v) < Pow10(f.width)
  }

  predicate Fits(d: DateTime, l: Layout) {
    && FitsField(d.year, l.year) && FitsField(d.month, l.month) && FitsField(d.day, l.day)
    && FitsField(d.hour, l.hour) && FitsField(d.minute, l.minute) && FitsField(d.second, l.second)
  }

  /** `v` written as field `f`. */
  function FieldText(v: int, f: Field): string
    requires FitsField(v, f)
  {
    Spaces(f.blanks) + SignText(SignOf(v, f)) + Numeral(Magnitude(v), f.width)
  }

  /** The time of day of `d` written as "hour:minute:second". */
  function ClockText(d: DateTime, l: Layout): string
    requires Fits(d, l)
  {
    FieldText(d.hour, l.hour) + (":" + (FieldText(d.minute, l.minute) + (":" + FieldText(d.second, l.second))))
  }

  /** `d` written as "year-month-day hour:minute:second" in layout `l`. */
  function Text(d: DateTime, l: Layout): string
    requires Fits(d, l)
  {
    FieldText(d.year, l.year) + ("-" + (FieldText(d.month, l.month) + ("-" + (FieldText(d.day, l.day) + (" " + ClockText(d, l))))))
  }

  /** The directives of the format from the blank on: `" %d:%d:%d"`. */
  function ClockFormat(): (f: Format)
    ensures f == DatetimeFormat().more.more.more.more.more
  {
    Then(Blank, Then(Decimal, Then(Literal(':'), Then(Decimal, Then(Literal(':'), Then(Decimal, End))))))
  }

  /** The blank and time-of-day part of the format reads a written time of
      day back. */
  lemma {:induction false} ScanClockText(d: DateTime, l: Layout)
    requires Fits(d, l)
    ensures var r := Scan(ClockFormat(), " " + ClockText(d, l), 0);
            r.stop.Completed? && |r.values| == 3 &&
            r.values[0] == d.hour && r.values[1] == d.minute && r.values[2] == d.second
  {
    var f := ClockFormat();
    var t5, t6 := FieldText(d.minute, l.minute), FieldText(d.second, l.second);
    FieldAt(f.more.more.more.more.more, d.second, l.second, []);
    assert t6 + [] == t6;
    SeparatorAt(f.more.more.more.more, ':', t6);
    FieldAt(f.more.more.more, d.minute, l.minute, ":" + t6);
    SeparatorAt(f.more.more, ':', t5 + (":" + t6));
    BlankFieldAt(f, d.hour, l.hour, ":" + (t5 + (":" + t6)));
  }

  /** The format from the day on reads a written day and time of day back. */
  lemma {:induction false} ScanDayText(d: DateTime, l: Layout)
    requires Fits(d, l)
    ensures var r := Scan(DatetimeFormat().more.more.more.more, FieldText(d.day, l.day) + (" " + ClockText(d, l)), 0);
            r.stop.Completed? && |r.values| == 4 &&
            r.values[0] == d.day && r.values[1] == d.hour && r.values[2] == d.minute && r.values[3] == d.second
  {
    ScanClockText(d, l);
    FieldAt(DatetimeFormat().more.more.more.more, d.day, l.day, " " + ClockText(d, l));
  }

  /** Scanning a date and time written out field by field reads every field
      back, whatever its sign, its leading blanks and its number of digits. */
  lemma {:induction false} ScanText(d: DateTime, l: Layout)
    requires Fits(d, l)
    ensures var r := Scan(DatetimeFormat(), Text(d, l), 0);
            r.stop.Completed? && |r.values| == 6 && FieldsOf(r.values) == d
  {
    var f := DatetimeFormat();
    var t4 := FieldText(d.day, l.day) + (" " + ClockText(d, l));
    var t3 := "-" + t4;
    var t2 := FieldText(d.month, l.month) + t3;
    var t1 := "-" + t2;
    assert Text(d, l) == FieldText(d.year, l.year) + t1;
    ScanDayText(d, l);
    SeparatorAt(f.more.more.more, '-', t4);
    FieldAt(f.more.more, d.month, l.month, t3);
    SeparatorAt(f.more, '-', t2);
    FieldAt(f, d.year, l.year, t1);
  }

  /** A `%d` first in the format reads the field at the front of the input
      and leaves the rest of the format to the rest of the input. */
  lemma {:induction false} FieldAt(fmt: Format, v: int, f: Field, rest: string)
    requires fmt.Then? && fmt.first.Decimal?
    requires FitsField(v, f)
    requires rest == [] || !IsDigit(rest[0])
    ensures Scan(fmt, FieldText(v, f) + rest, 0).stop == Scan(fmt.more, rest, 0).stop
    ensures Scan(fmt, FieldText(v, f) + rest, 0).values == [v] + Scan(fmt.more, rest, 0).values
  {
    var sign := SignOf(v, f);
    var t := FieldText(v, f);
    DecimalOnSignedNumeral(f.blanks, sign, Magnitude(v), f.width, rest);
    assert Signed(sign, Magnitude(v)) == v;
    ScanShift(fmt.more, t, rest, 0);
    assert |t| + 0 == f.blanks + |SignText(sign)| + f.width;
  }

  /** A blank and a `%d` first in the format read one blank and the field
      after it. */
  lemma {:induction false} BlankFieldAt(fmt: Format, v: int, f: Field, rest: string)
    requires fmt.Then? && fmt.first.Blank? && fmt.more.Then? && fmt.more.first.Decimal?
    requires FitsField(v, f)
    requires rest == [] || !IsDigit(rest[0])
    ensures Scan(fmt, " " + (FieldText(v, f) + rest), 0).stop == Scan(fmt.more.more, rest, 0).stop
    ensures Scan(fmt, " " + (FieldText(v, f) + rest), 0).values == [v] + Scan(fmt.more.more, rest, 0).values
  {
    BlankThenDecimal(fmt, FieldText(v, f) + rest);
    FieldAt(fmt.more, v, f, rest);
  }

  /** An ordinary character first in the format matches the same character
      at the front of the input. */
  lemma {:induction false} SeparatorAt(fmt: Format, c: char, rest: string)
    requires fmt.Then? && fmt.first == Literal(c)
    ensures Scan(fmt, [c] + rest, 0) == Scan(fmt.more, rest, 0)
  {
    ScanShift(fmt.more, [c], rest, 0);
  }

  /** A date and time written out field by field is accepted exactly when
      its fields pass the range check, and then gives back those fields. */
  lemma {:induction false} ParseText(d: DateTime, l: Layout)
    requires Fits(d, l)
    ensures Parse(Text(d, l)) == if InRange(d) then Some(d) else None
  {
    ScanText(d, l);
  }

  /** Round trip: what `strftime("%Y-%m-%d %H:%M:%S")` prints for a record in
      range reads back as the same date and time. */
  lemma {:induction false} ParsePadded(d: DateTime)
    requires InRange(d)
    ensures Fits(d, Padded) && Parse(Text(d, Padded)) == Some(d)
  {
    ParseText(d, Padded);
  }

  /** What follows the seconds field is ignored when it does not begin with a
      digit. */
  lemma {:induction false} ParseIgnoresTrailing(text: string, tail: string)
    requires Scan(DatetimeFormat(), text, 0).stop.Completed?
    requires tail == [] || !IsDigit(tail[0])
    ensures Parse(text + tail) == Parse(text)
  {
    ScanAppend(DatetimeFormat(), text, tail, 0);
  }

  /** How the tool ends. */
  datatype Outcome =
    | Usage(status: int)         // the usage text, with this exit status
    | InvalidDatetime            // "Invalid datetime format", exit status 1
    | ConversionFailed           // `mktime` returned -1, exit status 1
    | Converted(timestamp: int)  // the result block, exit status 0

  function ExitStatus(o: Outcome): int {
    match o
    case Usage(status) => status
    case Converted(_) => 0
    case _ => 1
  }

  predicate IsHelp(arg: string) {
    arg == "-h" || arg == "--help"
  }

  /** The decisions of `main`, in the order it takes them. `argv` includes the
      program name, so `|argv|` is `argc`; `mktime` is the C library's, with
      -1 for a time it cannot represent. */
  function Decide(argv: seq<string>, mktime: TmValue -> int): (o: Outcome)
    ensures |argv| != 2 ==> o == Usage(1)
    ensures o == Usage(0) <==> |argv| == 2 && IsHelp(argv[1])
    ensures o == InvalidDatetime <==> |argv| == 2 && !IsHelp(argv[1]) && Parse(argv[1]).None?
    ensures o == ConversionFailed <==>
              |argv| == 2 && !IsHelp(argv[1]) && Parse(argv[1]).Some? && mktime(ToTm(Parse(argv[1]).value)) == -1
    ensures o.Converted? ==>
              |argv| == 2 && Parse(argv[1]).Some? && o.timestamp == mktime(ToTm(Parse(argv[1]).value)) != -1
    ensures |argv| == 2 && !IsHelp(argv[1]) && Parse(argv[1]).Some? && mktime(ToTm(Parse(argv[1]).value)) != -1 ==>
              o == Converted(mktime(ToTm(Parse(argv[1]).value)))
    ensures ExitStatus(o) == 0 <==>
              |argv| == 2 && (IsHelp(argv[1]) || (Parse(argv[1]).Some? && mktime(ToTm(Parse(argv[1]).value)) != -1))
  {
    if |argv| != 2 then Usage(1)
    else if IsHelp(argv[1]) then Usage(0)
    else
      match Parse(argv[1])
      case None => InvalidDatetime
      case Some(d) =>
        var t := mktime(ToTm(d));
        if t == -1 then ConversionFailed else Converted(t)
  }

  /** `main`, step by step: the record lives on the stack and is filled by
      `parse_datetime` before `mktime` reads it. */
  method Run(argv: seq<string>, mktime: TmValue -> int) returns (o: Outcome)
    ensures o == Decide(argv, mktime)
  {
    if |argv| != 2 {
      return Usage(1);
    }
    if argv[1] == "-h" || argv[1] == "--help" {
      return Usage(0);
    }
    var tm := new Tm();
    var status := ParseDatetime(argv[1], tm);
    if status != 0 {
      return InvalidDatetime;
    }
    var unixTime := mktime(tm.Value());
    if unixTime == -1 {
      return ConversionFailed;
    }
    return Converted(unixTime);
  }

  /** An empty argument makes `sscanf` return `EOF`, and one that does not
      start with a number makes it return 0; both are invalid. */
  lemma {:induction false} NothingScanned()
    ensures Returned(Scan(DatetimeFormat(), "", 0)) == EOF && Parse("").None?
    ensures Returned(Scan(DatetimeFormat(), "now", 0)) == 0 && Parse("now").None?
  {
  }

  /** The range check rejects month 13 and hour 24, and a year before 1900,
      but lets February 30 through. */
  lemma {:induction false} RangeExamples()
    ensures Parse(Text(DateTime(2024, 13, 1, 0, 0, 0), Padded)).None?
    ensures Parse(Text(DateTime(2024, 5, 24, 24, 0, 0), Padded)).None?
    ensures Parse(Text(DateTime(1899, 12, 31, 23, 59, 59), Padded)).None?
    ensures Parse(Text(DateTime(2024, 2, 30, 0, 0, 0), Padded)) == Some(DateTime(2024, 2, 30, 0, 0, 0))
  {
    ParseText(DateTime(2024, 13, 1, 0, 0, 0), Padded);
    ParseText(DateTime(2024, 5, 24, 24, 0, 0), Padded);
    ParseText(DateTime(1899, 12, 31, 23, 59, 59), Padded);
    ParseText(DateTime(2024, 2, 30, 0, 0, 0), Padded);
  }

  /** Leading zeros are not required: `%d` reads `2024-5-4 1:2:3` too. */
  lemma {:induction false} UnpaddedExample()
    ensures Parse(Text(DateTime(2024, 5, 4, 1, 2, 3), Layout(Digits(4), Digits(1), Digits(1), Digits(1), Digits(1), Digits(1)))) == Some(DateTime(2024, 5, 4, 1, 2, 3))
  {
    ParseText(DateTime(2024, 5, 4, 1, 2, 3), Layout(Digits(4), Digits(1), Digits(1), Digits(1), Digits(1), Digits(1)));
  }

  /** Text after the seconds that does not start with a digit, such as
      `"xyz"` or `" UTC"`, does not change what is parsed. */
  lemma {:induction false} TrailingTextIgnored(d: DateTime, tail: string)
    requires InRange(d)
    requires tail == [] || !IsDigit(tail[0])
    ensures Parse(Text(d, Padded) + tail) == Some(d)
  {
    ParsePadded(d);
    ScanText(d, Padded);
    ParseIgnoresTrailing(Text(d, Padded), tail);
  }

  /** `%d` reads signs and leading blanks too: a blank before the year and
      a `+` before the month are accepted. */
  lemma {:induction false} SignedExample()
    ensures var d := DateTime(2024, 5, 24, 15, 30, 45);
            Parse(Text(d, Layout(Field(1, false, 4), Field(0, true, 2), Digits(2), Digits(2), Digits(2), Digits(2)))) == Some(d)
  {
    ParseText(DateTime(2024, 5, 24, 15, 30, 45), Layout(Field(1, false, 4), Field(0, true, 2), Digits(2), Digits(2), Digits(2), Digits(2)));
  }

  /** A negative field is read as such and fails the range check: an hour
      of -1 is rejected. */
  lemma {:induction false} NegativeHourRejected()
    ensures Parse(Text(DateTime(2024, 5, 24, -1, 0, 0), Padded)).None?
  {
    ParseText(DateTime(2024, 5, 24, -1, 0, 0), Padded);
  }

  /** The year must be followed by `-`: any other character that cannot
      continue its digits stops `sscanf` after one value, and the text is
      rejected. */
  lemma {:induction false} DashRequired(year: int, f: Field, c: char, rest: string)
    requires FitsField(year, f) && c != '-' && !IsDigit(c)
    ensures Returned(Scan(DatetimeFormat(), FieldText(year, f) + ([c] + rest), 0)) == 1
    ensures Parse(FieldText(year, f) + ([c] + rest)).None?
  {
    FieldAt(DatetimeFormat(), year, f, [c] + rest);
  }
}
