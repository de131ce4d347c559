/** utime2htime.c: reads a Unix timestamp, and an optional `--utc`, and
    reports the calendar time `localtime` (or `gmtime`) gives for it. */
module Utime2htime {
  import opened Libc
  import opened Stdlib

  /** The timestamp check of `main`: `strtol` with `errno` cleared first; the
      argument is rejected when `errno` was set, when `*endptr` is not the
      terminating NUL (something follows the digits), or when `endptr` is
      still the start of the argument (nothing was converted). */
  function ParseTimestamp(arg: string): (r: Option<int>)
    ensures r.Some? ==> LongMin <= r.value <= LongMax
    ensures r.Some? ==> StrtolSpec(arg) == Conversion(r.value, |arg|, false)
    ensures r.None? <==> StrtolSpec(arg).rangeError || StrtolSpec(arg).end != |arg| || StrtolSpec(arg).end == 0
  {
    var c := StrtolSpec(arg);
    if c.rangeError || c.end != |arg| || c.end == 0 then None else Some(c.value)
  }

  /** A numeral, with any number of leading blanks and an optional sign, is
      accepted exactly when its value fits in a `long`, and then gives that
      value; leading zeros are allowed. */
  lemma {:induction false} ParseTimestampNumeral(blanks: nat, sign: Sign, n: nat, w: nat)
    requires 1 <= w && n < Pow10(w)
    ensures var arg := Spaces(blanks) + SignText(sign) + Numeral(n, w);
            ParseTimestamp(arg) == if LongMin <= Signed(sign, n) <= LongMax then Some(Signed(sign, n)) else None
  {
    var arg := Spaces(blanks) + SignText(sign) + Numeral(n, w);
    LexNumeral(blanks, sign, n, w, []);
    assert arg + [] == arg;
  }

  /** The whole argument must be consumed: anything that cannot extend the
      digits, appended to an accepted timestamp, makes it invalid. */
  lemma {:induction false} TrailingRejected(arg: string, tail: string)
    requires ParseTimestamp(arg).Some?
    requires tail != [] && !IsDigit(tail[0])
    ensures ParseTimestamp(arg + tail).None?
  {
    var x := LexInteger(arg, 0);
    assert x.digitsEnd == |arg| && x.start < |arg|;
    LexIntegerAppend(arg, tail, 0);
  }

  /** At least one digit must be present: an argument without digits is
      invalid (the empty string among them). */
  lemma {:induction false} NoDigitRejected(arg: string)
    requires forall k :: 0 <= k < |arg| ==> !IsDigit(arg[k])
    ensures ParseTimestamp(arg).None?
  {
  }

  /** How the tool ends. */
  datatype Outcome =
    | Usage(status: int)                               // the usage text, with this exit status
    | InvalidTimestamp                                 // "Invalid Unix timestamp", exit status 1
    | NegativeTimestamp                                // "cannot be negative", exit status 1
    | UnknownOption                                    // "Unknown option", exit status 1
    | ConversionFailed                                 // `gmtime`/`localtime` returned NULL, exit status 1
    | Shown(timestamp: int, utc: bool, time: TmValue)  // the result block, exit status 0

  function ExitStatus(o: Outcome): int {
    match o
    case Usage(status) => status
    case Shown(_, _, _) => 0
    case _ => 1
  }

  predicate IsHelp(arg: string) {
    arg == "-h" || arg == "--help"
  }

  /** The decisions of `main`, in the order it takes them. `argv` includes the
      program name, so `|argv|` is `argc`; `gmtime` and `localtime` are the C
      library's, with `None` for a NULL result. */
  function Decide(argv: seq<string>, gmtime: int -> Option<TmValue>, localtime: int -> Option<TmValue>): (o: Outcome)
    ensures !(2 <= |argv| <= 3) ==> o == Usage(1)
    ensures o == Usage(0) <==> 2 <= |argv| <= 3 && IsHelp(argv[1])
    ensures o == InvalidTimestamp <==> 2 <= |argv| <= 3 && !IsHelp(argv[1]) && ParseTimestamp(argv[1]).None?
    ensures o == NegativeTimestamp <==>
              2 <= |argv| <= 3 && !IsHelp(argv[1]) && ParseTimestamp(argv[1]).Some? && ParseTimestamp(argv[1]).value < 0
    ensures o == UnknownOption <==>
              |argv| == 3 && !IsHelp(argv[1]) && ParseTimestamp(argv[1]).Some? && ParseTimestamp(argv[1]).value >= 0 &&
              argv[2] != "--utc"
    ensures o == ConversionFailed <==>
              2 <= |argv| <= 3 && !IsHelp(argv[1]) && ParseTimestamp(argv[1]).Some? && ParseTimestamp(argv[1]).value >= 0 &&
              (|argv| == 2 || argv[2] == "--utc") &&
              (if |argv| == 3 then gmtime(ParseTimestamp(argv[1]).value) else localtime(ParseTimestamp(argv[1]).value)).None?
    ensures o.Shown? ==>
              && ParseTimestamp(argv[1]) == Some(o.timestamp) && o.timestamp >= 0
              && o.utc == (|argv| == 3)
              && (if o.utc then gmtime(o.timestamp) else localtime(o.timestamp)) == Some(o.time)
    ensures 2 <= |argv| <= 3 && !IsHelp(argv[1]) && ParseTimestamp(argv[1]).Some? && ParseTimestamp(argv[1]).value >= 0 &&
            (|argv| == 2 || argv[2] == "--utc") &&
            (if |argv| == 3 then gmtime(ParseTimestamp(argv[1]).value) else localtime(ParseTimestamp(argv[1]).value)).Some? ==>
              o == Shown(ParseTimestamp(argv[1]).value, |argv| == 3,
                         (if |argv| == 3 then gmtime(ParseTimestamp(argv[1]).value) else localtime(ParseTimestamp(argv[1]).value)).value)
    ensures ExitStatus(o) == 0 <==>
              2 <= |argv| <= 3 &&
              (IsHelp(argv[1]) ||
               (ParseTimestamp(argv[1]).Some? && ParseTimestamp(argv[1]).value >= 0 && (|argv| == 2 || argv[2] == "--utc") &&
                (if |argv| == 3 then gmtime(ParseTimestamp(argv[1]).value) else localtime(ParseTimestamp(argv[1]).value)).Some?))
  {
    if !(2 <= |argv| <= 3) then Usage(1)
    else if IsHelp(argv[1]) then Usage(0)
    else
      match ParseTimestamp(argv[1])
      case None => InvalidTimestamp
      case Some(t) =>
        if t < 0 then NegativeTimestamp
        else if |argv| == 3 && argv[2] != "--utc" then UnknownOption
        else
          var utc := |argv| == 3;
          match (if utc then gmtime(t) else localtime(t))
          case None => ConversionFailed
          case Some(tm) => Shown(t, utc, tm)
  }

  /** `main`, step by step, with the `use_utc` flag and the `strtol` call. */
  method Run(argv: seq<string>, gmtime: int -> Option<TmValue>, localtime: int -> Option<TmValue>) returns (o: Outcome)
    ensures o == Decide(argv, gmtime, localtime)
  {
    if |argv| < 2 || |argv| > 3 {
      return Usage(1);
    }
    if argv[1] == "-h" || argv[1] == "--help" {
      return Usage(0);
    }
    var unixTimestamp, endptr, rangeError := Strtol(argv[1]);
    if rangeError || endptr != |argv[1]| || endptr == 0 {
      return InvalidTimestamp;
    }
    if unixTimestamp < 0 {
      return NegativeTimestamp;
    }
    var useUtc := false;
    if |argv| == 3 {
      if argv[2] == "--utc" {
        useUtc := true;
      } else {
        return UnknownOption;
      }
    }
    var tmInfo: Option<TmValue>;
    if useUtc {
      tmInfo := gmtime(unixTimestamp);
    } else {
      tmInfo := localtime(unixTimestamp);
    }
    if tmInfo.None? {
      return ConversionFailed;
    }
    return Shown(unixTimestamp, useUtc, tmInfo.value);
  }

  /** The help flag is looked at before anything else, so `-h --utc` shows
      the usage text with exit status 0. */
  lemma {:induction false} HelpBeforeOption(gmtime: int -> Option<TmValue>, localtime: int -> Option<TmValue>)
    ensures Decide(["utime2htime", "-h", "--utc"], gmtime, localtime) == Usage(0)
  {
  }

  /** The integer is checked before the option, so `abc --foo` reports an
      invalid timestamp rather than an unknown option. */
  lemma {:induction false} IntegerBeforeOption(gmtime: int -> Option<TmValue>, localtime: int -> Option<TmValue>)
    ensures Decide(["utime2htime", "abc", "--foo"], gmtime, localtime) == InvalidTimestamp
  {
  }

  /** `123abc` is an invalid timestamp: something follows the digits. */
  lemma {:induction false} TrailingLetters(gmtime: int -> Option<TmValue>, localtime: int -> Option<TmValue>)
    ensures Decide(["utime2htime", "123abc"], gmtime, localtime) == InvalidTimestamp
  {
  }

  /** `-5` converts, and is then refused as negative. */
  lemma {:induction false} MinusFive(gmtime: int -> Option<TmValue>, localtime: int -> Option<TmValue>)
    ensures Decide(["utime2htime", "-5"], gmtime, localtime) == NegativeTimestamp
  {
  }

  /** `-0` is the timestamp 0, which is not negative. */
  lemma {:induction false} MinusZero(gmtime: int -> Option<TmValue>, localtime: int -> Option<TmValue>)
    ensures ParseTimestamp("-0") == Some(0)
    ensures Decide(["utime2htime", "-0", "--utc"], gmtime, localtime) ==
            if gmtime(0).Some? then Shown(0, true, gmtime(0).value) else ConversionFailed
  {
  }
}
