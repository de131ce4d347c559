/** `strtol(nptr, &endptr, 10)` on an LP64 platform, as utime2htime.c calls
    it: the conversion skips white space, takes an optional sign and the
    longest run of digits, clamps a value outside the range of `long` to
    `LONG_MIN` or `LONG_MAX` with `errno` set to `ERANGE`, and reports where
    it stopped. With no digit at all it converts nothing and `endptr` is
    left at the start of the string. */
module Stdlib {
  import opened Libc

  /** What one call hands back: the value, the index `endptr` is left at,
      and whether `errno` was set to `ERANGE`. */
  datatype Conversion = Conversion(value: int, end: nat, rangeError: bool)

  /** The result `strtol` gives for `s`, defined by the lexical split of the
      input and the mathematical value of its digits. */
  function StrtolSpec(s: string): (c: Conversion)
    ensures LongMin <= c.value <= LongMax
    ensures c.end <= |s|
    ensures c.end == 0 <==> LexInteger(s, 0).digitsAt == LexInteger(s, 0).digitsEnd
    ensures c.end == 0 ==> c.value == 0 && !c.rangeError
    ensures c.end > 0 ==> c.end == LexInteger(s, 0).digitsEnd
    ensures c.rangeError <==> c.end > 0 && !(LongMin <= LexedValue(s, 0) <= LongMax)
    ensures c.rangeError ==> c.value == (if LexedValue(s, 0) < 0 then LongMin else LongMax)
    ensures c.end > 0 && !c.rangeError ==> c.value == LexedValue(s, 0)
  {
    var x := LexInteger(s, 0);
    if x.digitsAt == x.digitsEnd then Conversion(0, 0, false)
    else
      var v := LexedValue(s, 0);
      if v > LongMax then Conversion(LongMax, x.digitsEnd, true)
      else if v < LongMin then Conversion(LongMin, x.digitsEnd, true)
      else Conversion(v, x.digitsEnd, false)
  }

  /** The conversion loop: skip white space, read the sign, then accumulate
      digits into the magnitude until it would pass the limit for that sign,
      after which further digits are still consumed but no longer added. */
  method Strtol(s: string) returns (value: int, end: nat, rangeError: bool)
    ensures Conversion(value, end, rangeError) == StrtolSpec(s)
  {
    var i := 0;
    while i < |s| && IsSpace(s[i])
      invariant i <= |s|
      invariant SkipSpace(s, i) == SkipSpace(s, 0)
      decreases |s| - i
    {
      i := i + 1;
    }
    var negative := false;
    if i < |s| && (s[i] == '+' || s[i] == '-') {
      negative := s[i] == '-';
      i := i + 1;
    }
    var start := i;
    var limit := if negative then -LongMin else LongMax;
    var acc := 0;
    var overflow := false;
    while i < |s| && IsDigit(s[i])
      invariant start <= i <= |s|
      invariant SkipDigits(s, i) == SkipDigits(s, start)
      invariant DigitsIn(s, start, i)
      invariant !overflow ==> acc == DigitsValue(s, start, i) <= limit
      invariant overflow ==> DigitsValue(s, start, i) > limit
      decreases |s| - i
    {
      var d := DigitValue(s[i]);
      assert DigitsValue(s, start, i + 1) == DigitsValue(s, start, i) * 10 + d;
      if !overflow {
        if acc * 10 + d > limit {
          overflow := true;
        } else {
          acc := acc * 10 + d;
        }
      }
      i := i + 1;
    }
    if i == start {
      return 0, 0, false;
    }
    if overflow {
      return if negative then LongMin else LongMax, i, true;
    }
    return if negative then -acc else acc, i, false;
  }
}
