/** The part of `sscanf` that htime2utime.c uses: a format made of `%d`
    conversions, ordinary characters and white space, read left to right
    against the input. The scanner works on what is left of the input after
    each directive, and records the values of the conversions that matched
    and why it stopped. */
module Scanf {
  import opened Libc

  /** One directive of a format string. */
  datatype Directive =
    | Decimal           // `%d`: skips white space, then an optional sign and one or more digits
    | Literal(c: char)  // an ordinary character, which must be the next input character
    | Blank             // a white-space character, which skips any white space, also none

  /** A format string, directive by directive. */
  datatype Format = End | Then(first: Directive, more: Format)

  /** The format `"%d-%d-%d %d:%d:%d"` of `parse_datetime`. */
  function DatetimeFormat(): (f: Format)
    ensures Conversions(f) == 6 && EndsInDecimal(f)
  {
    Then(Decimal, Then(Literal('-'), Then(Decimal, Then(Literal('-'), Then(Decimal, Then(Blank,
    Then(Decimal, Then(Literal(':'), Then(Decimal, Then(Literal(':'), Then(Decimal, End)))))))))))
  }

  /** The value `sscanf` returns when the input ends before the first conversion. */
  const EOF: int := -1

  /** The number of conversions in a format. */
  function Conversions(fmt: Format): nat
  {
    match fmt
    case End => 0
    case Then(d, more) => (if d.Decimal? then 1 else 0) + Conversions(more)
  }

  /** The last directive of a format is a `%d`. */
  predicate EndsInDecimal(fmt: Format) {
    fmt.Then? && (if fmt.more.End? then fmt.first.Decimal? else EndsInDecimal(fmt.more))
  }

  /** What one directive does at index `i` of the input: it matches (with
      the converted value for `%d`) and the scan goes on at index `next`, or
      it fails because the character is not the one wanted (a matching
      failure) or because the input ended first (an input failure). */
  datatype Step = Matched(value: Option<int>, next: nat) | MatchingFailure | InputFailure

  function StepOn(d: Directive, s: string, i: nat): (r: Step)
    requires i <= |s|
    ensures r.Matched? ==> i <= r.next <= |s|
    ensures r.Matched? ==> (r.value.Some? <==> d.Decimal?)
    ensures d.Blank? ==> r.Matched? && (r.next == |s| || !IsSpace(s[r.next]))
    ensures d.Blank? ==> forall k :: i <= k < r.next ==> IsSpace(s[k])
    ensures d.Literal? ==> (r.InputFailure? <==> i == |s|)
    ensures d.Literal? ==> (r.Matched? <==> i < |s| && s[i] == d.c)
    ensures d.Literal? && r.Matched? ==> r.next == i + 1
    ensures d.Decimal? ==> r == ConvertDecimal(s, i)
  {
    match d
    case Blank =>
      SkipSpaceSkips(s, i);
      Matched(None, SkipSpace(s, i))
    case Literal(c) =>
      if i == |s| then InputFailure
      else if s[i] == c then Matched(None, i + 1)
      else MatchingFailure
    case Decimal =>
      ConvertDecimal(s, i)
  }

  /** `%d`: an input failure when only white space is left, a matching failure
      when no digit follows the white space and the optional sign, and
      otherwise the signed value of the digits, going on after them. */
  function ConvertDecimal(s: string, i: nat): (r: Step)
    requires i <= |s|
    ensures r.Matched? ==> r.value.Some? && i < r.next <= |s|
    ensures r.InputFailure? <==> LexInteger(s, i).start == |s|
    ensures r.Matched? <==> LexInteger(s, i).digitsAt < LexInteger(s, i).digitsEnd
    ensures r.Matched? ==> r.value == Some(LexedValue(s, i)) && r.next == LexInteger(s, i).digitsEnd
  {
    var x := LexInteger(s, i);
    if x.start == |s| then InputFailure
    else if x.digitsAt == x.digitsEnd then MatchingFailure
    else Matched(Some(LexedValue(s, i)), x.digitsEnd)
  }

  /** Why a scan stopped: every directive matched, or one of them failed. */
  datatype Stop = Completed | Mismatch | EndOfInput

  datatype Scanned = Scanned(values: seq<int>, stop: Stop)

  /** Runs the directives of `fmt` in order over `s` from index `i`,
      collecting the values of the conversions, until one fails or the format
      is used up. */
  function Scan(fmt: Format, s: string, i: nat): (r: Scanned)
    requires i <= |s|
    ensures |r.values| <= Conversions(fmt)
    ensures r.stop.Completed? ==> |r.values| == Conversions(fmt)
  {
    match fmt
    case End => Scanned([], Completed)
    case Then(d, more) =>
      match StepOn(d, s, i)
      case MatchingFailure => Scanned([], Mismatch)
      case InputFailure => Scanned([], EndOfInput)
      case Matched(v, next) =>
        var r := Scan(more, s, next);
        Scanned((if v.Some? then [v.value] else []) + r.values, r.stop)
  }

  /** The value `sscanf` returns: `EOF` when the input ended before the first
      conversion, otherwise the number of conversions assigned. */
  function Returned(r: Scanned): (n: int)
    ensures n == EOF || n == |r.values|
    ensures n == EOF <==> r.stop.EndOfInput? && r.values == []
  {
    if r.stop.EndOfInput? && r.values == [] then EOF else |r.values|
  }

  /** A format whose last directive is a conversion cannot complete at the
      end of the input: each `%d` needs at least one character. */
  lemma {:induction false} CompletedNeedsInput(fmt: Format, s: string, i: nat)
    requires i <= |s|
    requires EndsInDecimal(fmt)
    requires Scan(fmt, s, i).stop.Completed?
    ensures i < |s|
  {
    if i == |s| {
      var step := StepOn(fmt.first, s, i);
      assert step.Matched? && fmt.first.Blank? && step.next == i;
      CompletedNeedsInput(fmt.more, s, i);
    }
  }

  /** A directive that matched and stopped inside `s`, or that cannot reach
      into `t`, does the same on `s + t`. */
  lemma {:induction false} StepAppend(d: Directive, s: string, t: string, i: nat)
    requires i <= |s| && StepOn(d, s, i).Matched?
    requires StepOn(d, s, i).next < |s| || t == [] ||
             ((!d.Decimal? || !IsDigit(t[0])) && (!d.Blank? || !IsSpace(t[0])))
    ensures StepOn(d, s + t, i) == StepOn(d, s, i)
  {
    match d
    case Blank =>
      SkipSpaceAppend(s, t, i);
    case Literal(c) =>
      assert (s + t)[i] == s[i];
    case Decimal =>
      LexIntegerAppend(s, t, i);
  }

  /** Characters after the last conversion of a completed scan are never
      looked at, unless they could extend that conversion's digits. */
  lemma {:induction false} ScanAppend(fmt: Format, s: string, t: string, i: nat)
    requires i <= |s|
    requires EndsInDecimal(fmt)
    requires Scan(fmt, s, i).stop.Completed?
    requires t == [] || !IsDigit(t[0])
    ensures Scan(fmt, s + t, i) == Scan(fmt, s, i)
  {
    var step := StepOn(fmt.first, s, i);
    if fmt.more.Then? {
      CompletedNeedsInput(fmt.more, s, step.next);
      StepAppend(fmt.first, s, t, i);
      ScanAppend(fmt.more, s, t, step.next);
    } else {
      StepAppend(fmt.first, s, t, i);
    }
  }

  /** A step's result with its position moved `k` characters on. */
  function Shifted(r: Step, k: nat): Step {
    if r.Matched? then Matched(r.value, k + r.next) else r
  }

  /** A directive does the same whatever precedes the point it starts at. */
  lemma {:induction false} StepShift(d: Directive, a: string, b: string, i: nat)
    requires i <= |b|
    ensures StepOn(d, a + b, |a| + i) == Shifted(StepOn(d, b, i), |a|)
  {
    match d
    case Blank =>
      SkipSpaceShift(a, b, i);
    case Literal(c) =>
      if i < |b| {
        assert (a + b)[|a| + i] == b[i];
      }
    case Decimal =>
      LexIntegerShift(a, b, i);
  }

  /** A scan reads the same values whatever precedes the point it starts at. */
  lemma {:induction false} ScanShift(fmt: Format, a: string, b: string, i: nat)
    requires i <= |b|
    ensures Scan(fmt, a + b, |a| + i) == Scan(fmt, b, i)
  {
    if fmt.Then? {
      StepShift(fmt.first, a, b, i);
      var step := StepOn(fmt.first, b, i);
      if step.Matched? {
        ScanShift(fmt.more, a, b, step.next);
      }
    }
  }

  /** `%d` reads a zero-padded numeral back as the number it was written
      from, and stops at the first character that is not a digit. */
  lemma {:induction false} DecimalOnNumeral(s: string, i: nat, n: nat, w: nat)
    requires 1 <= w && n < Pow10(w)
    requires i + w <= |s| && s[i..i + w] == Numeral(n, w)
    requires i + w == |s| || !IsDigit(s[i + w])
    ensures StepOn(Decimal, s, i) == Matched(Some(n), i + w)
  {
    NumeralValue(s, i, n, w);
    assert IsDigit(s[i]);
    SkipDigitsTo(s, i, i + w);
  }

  /** `%d` skips leading blanks, takes an optional sign, and reads the
      digits after it as a signed number, stopping at the first character
      that is not a digit. */
  lemma {:induction false} DecimalOnSignedNumeral(blanks: nat, sign: Sign, n: nat, w: nat, rest: string)
    requires 1 <= w && n < Pow10(w)
    requires rest == [] || !IsDigit(rest[0])
    ensures var s := Spaces(blanks) + SignText(sign) + Numeral(n, w) + rest;
            StepOn(Decimal, s, 0) == Matched(Some(Signed(sign, n)), blanks + |SignText(sign)| + w)
  {
    LexNumeral(blanks, sign, n, w, rest);
  }

  /** `%d` skips white space itself, so starting it after the white space
      changes nothing. */
  lemma {:induction false} DecimalAfterSpace(fmt: Format, s: string, i: nat)
    requires i <= |s| && fmt.Then? && fmt.first.Decimal?
    ensures Scan(fmt, s, SkipSpace(s, i)) == Scan(fmt, s, i)
  {
  }

  /** A white-space directive just before a `%d` makes no difference. */
  lemma {:induction false} BlankBeforeDecimal(fmt: Format, s: string, i: nat)
    requires i <= |s| && fmt.Then? && fmt.first.Blank? && fmt.more.Then? && fmt.more.first.Decimal?
    ensures Scan(fmt, s, i) == Scan(fmt.more, s, i)
  {
  }

  /** A blank and a `%d` first in the format read a space in front of the
      input as if it were not there. */
  lemma {:induction false} BlankThenDecimal(fmt: Format, t: string)
    requires fmt.Then? && fmt.first.Blank? && fmt.more.Then? && fmt.more.first.Decimal?
    ensures Scan(fmt, " " + t, 0) == Scan(fmt.more, t, 0)
  {
    var s := " " + t;
    BlankBeforeDecimal(fmt, s, 0);
    DecimalAfterSpace(fmt.more, s, 0);
    DecimalAfterSpace(fmt.more, s, 1);
    assert SkipSpace(s, 0) == SkipSpace(s, 1);
    ScanShift(fmt.more, " ", t, 0);
  }
}
