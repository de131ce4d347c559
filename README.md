# utime — a Dafny model of the two converters

The repository has two command-line tools:

- `htime2utime` reads a date and time such as `"2024-05-24 15:30:45"` and prints the Unix timestamp `mktime` gives for it, read as local time.
- `utime2htime` reads a Unix timestamp, and an optional `--utc`. It prints the calendar time that `localtime` (or `gmtime`) gives for it.

Almost all of their work is done by the C library. What the tools decide for themselves is modelled here:

- **The datetime reader** (`parse_datetime`). `sscanf` with `"%d-%d-%d %d:%d:%d"` is modelled as a scanner that reads directive by directive (module `Scanf`). It sits on a lexer shared with `strtol` (module `Libc`). After the scan come the count check and the range check, then the clearing and filling of the caller's `struct tm`. That record is modelled as a class whose fields the method updates in place.
- **The timestamp reader** of `utime2htime`. This is `strtol` in base 10 (module `Stdlib`): an imperative loop, proved against a specification function. Around it come the three checks on `errno` and `endptr`.
- **The `main` of each tool.** It is a pure function from `argv` to an outcome, in the order the checks are made. A `Run` method follows `main` statement by statement and is proved equal to that function.

Conventions:

- `long` and `time_t` are 64 bits (LP64), so `LONG_MIN`/`LONG_MAX` are -2^63 and 2^63-1.
- Character classes are those of the "C" locale, since neither tool calls `setlocale`.
- A C string is modelled as the characters before its terminating NUL.
- `mktime`, `gmtime` and `localtime` are parameters of the model.
  - `mktime` maps a record to a number, with -1 as its failure value.
  - `gmtime` and `localtime` map a timestamp to `Some` record, or to `None` for a NULL result.
- `mktime` may return -1 for the valid time one second before the epoch. The tool reports that time as a failure, and so does the model.
- The datetime tool prints one message and exits with status 1 both for a malformed argument and for one whose fields are out of range. The model has one outcome for both, `InvalidDatetime`.

## Model

| member | source | states |
|---|---|---|
| Libc.Tm.Clear | src/htime2utime.c:83 | after `memset` every field of the record is zero |
| Libc.SkipSpaceSkips | src/htime2utime.c:86-87 | every character that white-space skipping passes over is white space (the skip also stops at a non-space or at the end) |
| Libc.LexInteger | src/utime2htime.c:110 | splits the input from a position into white space, then an optional `+` or `-`, then the longest run of digits. It states that these parts are in order within the input and that the last part is all digits |
| Libc.LexedValue | src/htime2utime.c:86-87 | the integer's value is the value of its digits, negated exactly when the sign is `-` |
| Libc.LexIntegerAppend | src/utime2htime.c:110 | the white space, sign and digits read from `s`, and their value, do not change when text that cannot extend the digits is appended |
| Libc.LexIntegerShift | src/htime2utime.c:86-87 | reading an integer does not depend on what precedes the point where reading starts |
| Libc.LexNumeralAt | src/utime2htime.c:110 | at the position where blanks, then a sign and then a numeral stand, ending at a non-digit, the integer lexed has exactly those parts and their signed value |
| Libc.LexNumeral | src/utime2htime.c:110 | any number of blanks, an optional sign and a zero-padded numeral, followed by text not starting with a digit, lex as that signed number |
| Libc.NumeralValue | src/htime2utime.c:86-87 | a zero-padded decimal numeral reads back as the number it was written from |
| Scanf.DatetimeFormat | src/htime2utime.c:86 | the format `"%d-%d-%d %d:%d:%d"`, directive by directive: six conversions, the last directive a conversion |
| Scanf.StepOn | src/htime2utime.c:86-87 | one directive either matches and moves forward within the input (giving a value exactly when it is `%d`), or fails. A format blank always matches and skips exactly the white space there. An ordinary character is an input failure exactly at the end of the input, and otherwise matches exactly that character and moves one place. `%d` behaves as `ConvertDecimal` |
| Scanf.ConvertDecimal | src/htime2utime.c:86-87 | `%d` is an input failure exactly when only white space is left, and it matches exactly when a digit follows the white space and the optional sign. A match gives the signed value of the digits and continues right after them, having consumed at least one character |
| Scanf.DecimalOnSignedNumeral | src/htime2utime.c:86-87 | `%d` on blanks, an optional sign and a numeral, followed by a non-digit, gives the signed number and continues right after its last digit |
| Scanf.DecimalAfterSpace | src/htime2utime.c:86-87 | starting `%d` after the white space instead of before it changes nothing |
| Scanf.BlankBeforeDecimal | src/htime2utime.c:86-87 | the format's blank between the day and the hour makes no difference, since `%d` skips white space itself |
| Scanf.BlankThenDecimal | src/htime2utime.c:86-87 | a blank then a `%d` read a leading space as if it were not there |
| Scanf.Scan | src/htime2utime.c:86-87 | never more values than the format has conversions, and exactly that many when every directive matched |
| Scanf.Returned | src/htime2utime.c:86-89 | `sscanf` returns `EOF` exactly when the input ended before any value was assigned, and otherwise the number of values assigned |
| Scanf.CompletedNeedsInput | src/htime2utime.c:86-87 | a format ending in `%d` cannot complete on exhausted input |
| Scanf.ScanAppend | src/htime2utime.c:86-87 | text after a completed scan is ignored unless it starts with a digit |
| Scanf.ScanShift | src/htime2utime.c:86-87 | a scan reads the same values whatever precedes its starting point |
| Scanf.DecimalOnNumeral | src/htime2utime.c:86-87 | `%d` reads a written numeral back and stops right after it |
| Htime2utime.InRange | src/htime2utime.c:94-101 | the range check: year 1900..2099, month 1..12, day 1..31, hour 0..23, minute 0..59, second 0..59 |
| Htime2utime.Parse | src/htime2utime.c:86-101 | accepted exactly when `sscanf` assigns six values and they pass the range check, and then the result is those six values in format order. Fewer than six assigned values means rejection |
| Htime2utime.ToTm | src/htime2utime.c:103-109 | the record stands for the parsed datetime (`tm_year` is the year minus 1900, in 0..199; `tm_mon` is the month minus 1, in 0..11), with `tm_isdst` -1 and the other fields zero |
| Htime2utime.ParseDatetime | src/htime2utime.c:82-112 | returns 0 exactly when the text parses, and then the record holds the converted fields. Otherwise it returns -1 and the record is entirely zero |
| Htime2utime.FieldAt | src/htime2utime.c:86-87 | a `%d` reads a field written with any blanks, sign and width, and passes on the rest of the input |
| Htime2utime.BlankFieldAt | src/htime2utime.c:86-87 | the blank and the `%d` for the hour read a space followed by a written field |
| Htime2utime.ScanText | src/htime2utime.c:86-87 | a datetime with any integer fields, each written with any leading blanks, optional sign and number of digits, completes the scan with its six fields in order |
| Htime2utime.ParseText | src/htime2utime.c:86-101 | a written datetime, with any integer fields (negative ones included) in any layout, is accepted exactly when its fields are in range, and then parses back to those fields |
| Htime2utime.ParsePadded | src/htime2utime.c:86-101 | round trip: for a datetime in range, the `"%Y-%m-%d %H:%M:%S"` rendering parses back to that datetime |
| Htime2utime.ParseIgnoresTrailing | src/htime2utime.c:86-87 | after a completed scan, appended text that does not start with a digit does not change the result |
| Htime2utime.NothingScanned | src/htime2utime.c:86-91 | `""` makes `sscanf` return `EOF` and `"now"` makes it return 0. Both are rejected |
| Htime2utime.RangeExamples | src/htime2utime.c:94-101 | month 13, hour 24 and year 1899 are rejected. February 30 passes, because the day is checked only against 31 |
| Htime2utime.UnpaddedExample | src/htime2utime.c:86-87 | `2024-5-4 1:2:3` parses without zero padding |
| Htime2utime.TrailingTextIgnored | src/htime2utime.c:86-87 | a datetime in range followed by text not starting with a digit (as in `...15:30:45xyz`) parses to that datetime |
| Htime2utime.SignedExample | src/htime2utime.c:86-87 | a blank before the year and a `+` before the month are accepted |
| Htime2utime.NegativeHourRejected | src/htime2utime.c:97 | an hour written as `-01` is read as -1 and rejected by the range check |
| Htime2utime.DashRequired | src/htime2utime.c:86-89 | when the year is followed by a character that is neither `-` nor a digit, `sscanf` returns 1 and the text is rejected |
| Htime2utime.IsHelp | src/htime2utime.c:121 | the argument is `-h` or `--help` |
| Htime2utime.Decide | src/htime2utime.c:114-141 | argc other than 2 gives usage with exit 1, and a help flag gives usage with exit 0 before any parsing. A parse failure gives an invalid-datetime error, and `mktime` returning -1 gives a conversion error. Otherwise the result is `Converted` with `mktime`'s value. Usage with exit 0 exactly for a lone help flag, and exit 0 exactly for help or for a parsed argument that `mktime` converts |
| Htime2utime.Run | src/htime2utime.c:114-141 | `main` with the record on the stack filled by `ParseDatetime` gives the outcome `Decide` describes |
| Stdlib.StrtolSpec | src/utime2htime.c:110 | the value is always a `long`. The end is 0 exactly when there is no digit, and then the value is 0 with no error; otherwise the end is just after the digits. `ERANGE` is set exactly when the mathematical value is outside `long`, and then the value is clamped to `LONG_MIN`/`LONG_MAX`; otherwise it is that mathematical value |
| Stdlib.Strtol | src/utime2htime.c:109-110 | the accumulating loop returns the value, end and error that `StrtolSpec` gives |
| Utime2htime.ParseTimestamp | src/utime2htime.c:108-116 | the argument is accepted exactly when `strtol` set no error, consumed the whole argument and converted at least one digit. The accepted value is a `long` |
| Utime2htime.ParseTimestampNumeral | src/utime2htime.c:108-116 | blanks, then an optional sign, then digits: accepted exactly when the value fits in a `long`, and then giving that value |
| Utime2htime.TrailingRejected | src/utime2htime.c:112 | an accepted argument followed by a non-digit is rejected |
| Utime2htime.NoDigitRejected | src/utime2htime.c:112 | an argument without any digit (including `""` and `"abc"`) is rejected |
| Utime2htime.IsHelp | src/utime2htime.c:102 | the argument is `-h` or `--help` |
| Utime2htime.Decide | src/utime2htime.c:95-156 | the checks come in order: count, help, integer, sign, option, then conversion, each with its outcome. UTC mode holds exactly when a second argument was given, and it is `--utc`. `gmtime` or `localtime` is chosen accordingly, and a `None` result is a conversion failure. When every check passes and the conversion gives a record, the result shows that timestamp, mode and record. Usage with exit 0 exactly for a help flag, and exit 0 exactly for help or for that success path |
| Utime2htime.Run | src/utime2htime.c:95-156 | `main` with the `strtol` loop, the `use_utc` flag and the conversion gives the outcome `Decide` describes |
| Utime2htime.HelpBeforeOption | src/utime2htime.c:102-105 | `-h --utc` shows the usage text with exit 0 |
| Utime2htime.IntegerBeforeOption | src/utime2htime.c:112-134 | `abc --foo` is an invalid timestamp, not an unknown option |
| Utime2htime.TrailingLetters | src/utime2htime.c:108-116 | `123abc` is an invalid timestamp |
| Utime2htime.MinusFive | src/utime2htime.c:119-122 | `-5` is rejected as negative |
| Utime2htime.MinusZero | src/utime2htime.c:119-122 | `-0` is the timestamp 0, and with `--utc` it goes to `gmtime(0)` |

## Left out

- The `print_*` functions, the usage text and the ANSI colour output: terminal presentation only. The model records which message is shown, as an outcome.
- The calendar arithmetic of `mktime`, `gmtime`, `localtime` and `strftime`: foreign library code that depends on the host's time zone data. These are parameters of the model.
- `mktime` normalises the record it is given and writes it back. Only the return value is used afterwards, so the model passes the record by value.
- `struct tm` fields beyond the nine POSIX names (such as `tm_gmtoff`): they are zeroed by `memset` and never used.
- Scanf.ConvertDecimal: a `%d` whose value does not fit in an `int` is undefined behaviour in C. The model takes the mathematical value, which the range check then rejects.
- `errno` and other global C library state: only the `ERANGE` flag of the one `strtol` call is modelled.
- `argv[0]` is only passed to the usage printer, so the model does not look at it.
