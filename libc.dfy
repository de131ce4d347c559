/** The parts of the C library that both tools lean on and whose behaviour is
    visible in what they accept: the character classes of the "C" locale, the
    lexical shape of a decimal integer shared by `strtol` and the `%d`
    conversion of `sscanf`, the range of `long` on an LP64 platform, and the
    record `struct tm`. */
module Libc {

  datatype Option<+T> = None | Some(value: T)

  /** The range of `long` (and of `time_t`) on an LP64 platform. */
  const LongMin: int := -0x8000_0000_0000_0000
  const LongMax: int := 0x7FFF_FFFF_FFFF_FFFF

  /** `isspace` in the "C" locale; neither tool calls `setlocale`. */
  predicate IsSpace(c: char) {
    c == ' ' || c == '\t' || c == '\n' || c == '\U{000B}' || c == '\U{000C}' || c == '\r'
  }

  predicate IsDigit(c: char) {
    '0' <= c <= '9'
  }

  /** Every character of `s` from index `i` up to `j` is a digit. */
  predicate DigitsIn(s: string, i: nat, j: nat)
    requires i <= j <= |s|
  {
    forall k :: i <= k < j ==> IsDigit(s[k])
  }

  function DigitValue(c: char): (d: nat)
    requires IsDigit(c)
    ensures d < 10
  {
    c as int - '0' as int
  }

  function DigitChar(d: nat): (c: char)
    requires d < 10
    ensures IsDigit(c) && DigitValue(c) == d
  {
    ('0' as int + d) as char
  }

  /** The index of the first character at or after `i` that is not white
      space (`|s|` when there is none). */
  function SkipSpace(s: string, i: nat): (j: nat)
    requires i <= |s|
    ensures i <= j <= |s|
    ensures j == |s| || !IsSpace(s[j])
    decreases |s| - i
  {
    if i < |s| && IsSpace(s[i]) then SkipSpace(s, i + 1) else i
  }

  /** The index of the first character at or after `i` that is not a digit. */
  function SkipDigits(s: string, i: nat): (j: nat)
    requires i <= |s|
    ensures i <= j <= |s|
    ensures DigitsIn(s, i, j)
    ensures j == |s| || !IsDigit(s[j])
    decreases |s| - i
  {
    if i < |s| && IsDigit(s[i]) then SkipDigits(s, i + 1) else i
  }

  /** The number the digits of `s` from `i` up to `j` denote, most
      significant first. */
  function DigitsValue(s: string, i: nat, j: nat): nat
    requires i <= j <= |s| && DigitsIn(s, i, j)
    decreases j - i
  {
    if j == i then 0 else DigitsValue(s, i, j - 1) * 10 + DigitValue(s[j - 1])
  }

  function Pow10(w: nat): (p: nat)
    ensures p >= 1
  {
    if w == 0 then 1 else 10 * Pow10(w - 1)
  }

  /** `n` written in decimal with exactly `w` digits, zero-padded on the left
      (the shape that `strftime` gives `%Y` for the years handled here, and
      `%m`, `%d`, `%H`, `%M`, `%S`, when `w` is 4 or 2). */
  function Numeral(n: nat, w: nat): (r: string)
    ensures |r| == w
    ensures forall k :: 0 <= k < w ==> IsDigit(r[k])
  {
    if w == 0 then [] else Numeral(n / 10, w - 1) + [DigitChar(n % 10)]
  }

  /** Reading a numeral back, wherever it stands in a string, gives the
      number it was written from. */
  lemma {:induction false} NumeralValue(s: string, i: nat, n: nat, w: nat)
    requires n < Pow10(w)
    requires i + w <= |s| && s[i..i + w] == Numeral(n, w)
    ensures DigitsIn(s, i, i + w)
    ensures DigitsValue(s, i, i + w) == n
  {
    var r := Numeral(n, w);
    forall k | i <= k < i + w
      ensures IsDigit(s[k])
    {
      assert s[k] == s[i..i + w][k - i] == r[k - i];
    }
    if w > 0 {
      var q, d := n / 10, n % 10;
      assert n == q * 10 + d;
      assert q < Pow10(w - 1);
      assert r == Numeral(q, w - 1) + [DigitChar(d)];
      assert r[..w - 1] == Numeral(q, w - 1);
      forall k | 0 <= k < w - 1
        ensures s[i + k] == r[k]
      {
        assert s[i + k] == s[i..i + w][k];
      }
      assert s[i..i + (w - 1)] == r[..w - 1] == Numeral(q, w - 1);
      NumeralValue(s, i, q, w - 1);
      assert s[i + w - 1] == r[w - 1] == DigitChar(d);
    }
  }

  /** Everything `SkipSpace` skips is white space. */
  lemma {:induction false} SkipSpaceSkips(s: string, i: nat)
    requires i <= |s|
    ensures forall k :: i <= k < SkipSpace(s, i) ==> IsSpace(s[k])
    decreases |s| - i
  {
    if i < |s| && IsSpace(s[i]) {
      SkipSpaceSkips(s, i + 1);
    }
  }

  /** A run of white space that ends at another character is the whole run
      `SkipSpace` finds. */
  lemma {:induction false} SkipSpaceTo(s: string, i: nat, j: nat)
    requires i <= j <= |s| && forall k :: i <= k < j ==> IsSpace(s[k])
    requires j == |s| || !IsSpace(s[j])
    ensures SkipSpace(s, i) == j
    decreases j - i
  {
    if i < j {
      SkipSpaceTo(s, i + 1, j);
    }
  }

  /** A run of digits that ends at a non-digit is the whole run `SkipDigits`
      finds. */
  lemma {:induction false} SkipDigitsTo(s: string, i: nat, j: nat)
    requires i <= j <= |s| && DigitsIn(s, i, j)
    requires j == |s| || !IsDigit(s[j])
    ensures SkipDigits(s, i) == j
  {
  }

  /** Appending to `s` changes no white-space skipping that stops inside `s`
      or that cannot continue into what was appended. */
  lemma {:induction false} SkipSpaceAppend(s: string, t: string, i: nat)
    requires i <= |s|
    requires SkipSpace(s, i) < |s| || t == [] || !IsSpace(t[0])
    ensures SkipSpace(s + t, i) == SkipSpace(s, i)
    decreases |s| - i
  {
    if i < |s| {
      assert (s + t)[i] == s[i];
      if IsSpace(s[i]) {
        SkipSpaceAppend(s, t, i + 1);
      }
    } else if t != [] {
      assert (s + t)[i] == t[0];
    }
  }

  lemma {:induction false} SkipDigitsAppend(s: string, t: string, i: nat)
    requires i <= |s|
    requires SkipDigits(s, i) < |s| || t == [] || !IsDigit(t[0])
    ensures SkipDigits(s + t, i) == SkipDigits(s, i)
    decreases |s| - i
  {
    if i < |s| {
      assert (s + t)[i] == s[i];
      if IsDigit(s[i]) {
        SkipDigitsAppend(s, t, i + 1);
      }
    } else if t != [] {
      assert (s + t)[i] == t[0];
    }
  }

  lemma {:induction false} DigitsValueAppend(s: string, t: string, i: nat, j: nat)
    requires i <= j <= |s| && DigitsIn(s, i, j)
    ensures DigitsIn(s + t, i, j)
    ensures DigitsValue(s + t, i, j) == DigitsValue(s, i, j)
    decreases j - i
  {
    assert forall k :: i <= k < j ==> (s + t)[k] == s[k];
    if i < j {
      DigitsValueAppend(s, t, i, j - 1);
    }
  }

  /** What comes before index `|a|` does not change white-space skipping
      from there on. */
  lemma {:induction false} SkipSpaceShift(a: string, b: string, i: nat)
    requires i <= |b|
    ensures SkipSpace(a + b, |a| + i) == |a| + SkipSpace(b, i)
    decreases |b| - i
  {
    if i < |b| {
      assert (a + b)[|a| + i] == b[i];
      if IsSpace(b[i]) {
        SkipSpaceShift(a, b, i + 1);
      }
    }
  }

  lemma {:induction false} SkipDigitsShift(a: string, b: string, i: nat)
    requires i <= |b|
    ensures SkipDigits(a + b, |a| + i) == |a| + SkipDigits(b, i)
    decreases |b| - i
  {
    if i < |b| {
      assert (a + b)[|a| + i] == b[i];
      if IsDigit(b[i]) {
        SkipDigitsShift(a, b, i + 1);
      }
    }
  }

  lemma {:induction false} DigitsValueShift(a: string, b: string, i: nat, j: nat)
    requires i <= j <= |b| && DigitsIn(b, i, j)
    ensures DigitsIn(a + b, |a| + i, |a| + j)
    ensures DigitsValue(a + b, |a| + i, |a| + j) == DigitsValue(b, i, j)
    decreases j - i
  {
    assert forall k :: i <= k < j ==> (a + b)[|a| + k] == b[k];
    assert forall k :: |a| + i <= k < |a| + j ==> (a + b)[k] == b[k - |a|];
    if i < j {
      DigitsValueShift(a, b, i, j - 1);
    }
  }

  /** How `strtol` in base 10 and the `%d` conversion split the input from
      index `i` on: white space up to `start`, then an optional sign (which
      makes the number negative when it is `-`), then the digits from
      `digitsAt` up to `digitsEnd`. No conversion is possible when there is
      no digit. */
  datatype Lexeme = Lexeme(start: nat, negative: bool, digitsAt: nat, digitsEnd: nat)

  function LexInteger(s: string, i: nat): (x: Lexeme)
    requires i <= |s|
    ensures i <= x.start <= x.digitsAt <= x.digitsEnd <= |s|
    ensures DigitsIn(s, x.digitsAt, x.digitsEnd)
  {
    var k := SkipSpace(s, i);
    var signed := k < |s| && (s[k] == '+' || s[k] == '-');
    var p := if signed then k + 1 else k;
    Lexeme(k, signed && s[k] == '-', p, SkipDigits(s, p))
  }

  /** The mathematical value of the integer `LexInteger` finds. */
  function LexedValue(s: string, i: nat): (v: int)
    requires i <= |s|
    ensures var x := LexInteger(s, i);
            v == (if x.negative then -1 else 1) * DigitsValue(s, x.digitsAt, x.digitsEnd)
  {
    var x := LexInteger(s, i);
    var m: int := DigitsValue(s, x.digitsAt, x.digitsEnd);
    if x.negative then -m else m
  }

  /** The split of an integer whose digits stop inside `s`, or cannot
      continue into what is appended, is the same on `s + t`, and so is its
      value. */
  lemma {:induction false} LexIntegerAppend(s: string, t: string, i: nat)
    requires i <= |s| && LexInteger(s, i).start < |s|
    requires LexInteger(s, i).digitsEnd < |s| || t == [] || !IsDigit(t[0])
    ensures LexInteger(s + t, i) == LexInteger(s, i)
    ensures LexedValue(s + t, i) == LexedValue(s, i)
  {
    var x := LexInteger(s, i);
    SkipSpaceAppend(s, t, i);
    assert (s + t)[x.start] == s[x.start];
    SkipDigitsAppend(s, t, x.digitsAt);
    DigitsValueAppend(s, t, x.digitsAt, x.digitsEnd);
  }

  /** An integer is split and valued the same whatever precedes it. */
  lemma {:induction false} LexIntegerShift(a: string, b: string, i: nat)
    requires i <= |b|
    ensures var x := LexInteger(b, i);
            LexInteger(a + b, |a| + i) == Lexeme(|a| + x.start, x.negative, |a| + x.digitsAt, |a| + x.digitsEnd)
    ensures LexedValue(a + b, |a| + i) == LexedValue(b, i)
  {
    var x := LexInteger(b, i);
    SkipSpaceShift(a, b, i);
    if x.start < |b| {
      assert (a + b)[|a| + x.start] == b[x.start];
    }
    SkipDigitsShift(a, b, x.digitsAt);
    DigitsValueShift(a, b, x.digitsAt, x.digitsEnd);
  }

  /** `n` spaces. */
  function Spaces(n: nat): (r: string)
    ensures |r| == n && forall k :: 0 <= k < n ==> r[k] == ' '
  {
    if n == 0 then [] else Spaces(n - 1) + " "
  }

  /** The sign written before the digits, if any. */
  datatype Sign = Unsigned | Plus | Minus

  function SignText(sign: Sign): string {
    match sign
    case Unsigned => ""
    case Plus => "+"
    case Minus => "-"
  }

  /** The number `sign` and the digits of `n` denote. */
  function Signed(sign: Sign, n: nat): int {
    if sign == Minus then -(n as int) else n
  }

  /** The integer lexed at the start of `s` when `s` holds `blanks` blanks,
      then the sign's text, then the numeral of `n` in `w` digits ending at a
      non-digit. */
  lemma {:induction false} LexNumeralAt(s: string, blanks: nat, sign: Sign, n: nat, w: nat)
    requires 1 <= w && n < Pow10(w)
    requires blanks + |SignText(sign)| + w <= |s|
    requires forall k :: 0 <= k < blanks ==> s[k] == ' '
    requires sign != Unsigned ==> s[blanks] == SignText(sign)[0]
    requires var p := blanks + |SignText(sign)|; s[p..p + w] == Numeral(n, w)
    requires var p := blanks + |SignText(sign)|; p + w == |s| || !IsDigit(s[p + w])
    ensures var p := blanks + |SignText(sign)|;
            && LexInteger(s, 0) == Lexeme(blanks, sign == Minus, p, p + w)
            && LexedValue(s, 0) == Signed(sign, n)
  {
    var p := blanks + |SignText(sign)|;
    SkipSpaceTo(s, 0, blanks);
    NumeralValue(s, p, n, w);
    SkipDigitsTo(s, p, p + w);
  }

  /** Blanks, an optional sign and a numeral, followed by anything that is
      not a digit, are read as the signed number with its digits where the
      numeral stands. */
  lemma {:induction false} LexNumeral(blanks: nat, sign: Sign, n: nat, w: nat, rest: string)
    requires 1 <= w && n < Pow10(w)
    requires rest == [] || !IsDigit(rest[0])
    ensures var s := Spaces(blanks) + SignText(sign) + Numeral(n, w) + rest;
            var p := blanks + |SignText(sign)|;
            && LexInteger(s, 0) == Lexeme(blanks, sign == Minus, p, p + w)
            && LexedValue(s, 0) == Signed(sign, n)
  {
    var pre := Spaces(blanks) + SignText(sign);
    var num := Numeral(n, w);
    var s := pre + num + rest;
    var p := |pre|;
    assert forall k :: 0 <= k < blanks ==> s[k] == pre[k] == ' ';
    if sign != Unsigned {
      assert s[blanks] == pre[blanks] == SignText(sign)[0];
    }
    assert s[p..p + w] == num;
    if rest != [] {
      assert s[p + w] == rest[0];
    }
    LexNumeralAt(s, blanks, sign, n, w);
  }

  /** The fields of `struct tm` that POSIX names, as a value. */
  datatype TmValue = TmValue(
    sec: int, min: int, hour: int, mday: int, mon: int, year: int,
    wday: int, yday: int, isdst: int)

  /** A `struct tm` after `memset(tm, 0, sizeof(struct tm))`. */
  const ZeroTm: TmValue := TmValue(0, 0, 0, 0, 0, 0, 0, 0, 0)

  /** A `struct tm` in memory, whose fields the caller fills in place. */
  class Tm {
    var sec: int
    var min: int
    var hour: int
    var mday: int
    var mon: int
    var year: int
    var wday: int
    var yday: int
    var isdst: int

    /** An uninitialised `struct tm` on the stack. */
    constructor ()
    {
    }

    function Value(): TmValue
      reads this
    {
      TmValue(sec, min, hour, mday, mon, year, wday, yday, isdst)
    }

    /** `memset(tm, 0, sizeof(struct tm))`. */
    method Clear()
      modifies this
      ensures Value() == ZeroTm
    {
      sec, min, hour, mday, mon, year, wday, yday, isdst := 0, 0, 0, 0, 0, 0, 0, 0, 0;
    }
  }
}
