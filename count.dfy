/** `parse_count`, which head and tail both use to read the argument of
    `-n` and `-c`. The two copies differ only in the cast on the stored value,
    which cannot matter because a stored value lies in 1..INT_MAX. */
module CountParse {
  import opened Sys
  import opened LibC

  datatype Code = CountOk | CountInvalid | CountRange

  /** The result code, and the value of the caller's `*out` afterwards. */
  datatype Parsed = Parsed(code: Code, out: nat)

  /** `out` is the caller's variable before the call. The range check comes
      before the sign check, so a hugely negative number is a range error. */
  function ParseCount(s: string, out: nat): (r: Parsed)
    ensures r.code != CountOk ==> r.out == out
    ensures r.code == CountOk ==> 1 <= r.out <= INT_MAX
    ensures s == [] ==> r.code == CountInvalid
    ensures Strtol(s).end == 0 || Strtol(s).end < |s| ==> r.code == CountInvalid
    ensures |s| > 0 && !IsDigit(s[|s| - 1]) ==> r.code == CountInvalid
    ensures r.code == CountOk ==> Strtol(s) == Conversion(r.out, |s|, false)
  {
    var c := Strtol(s);
    if c.end == 0 || c.end != |s| then Parsed(CountInvalid, out)
    else if c.erange || c.value > INT_MAX then Parsed(CountRange, out)
    else if c.value <= 0 then Parsed(CountInvalid, out)
    else Parsed(CountOk, c.value)
  }

  /** The caller's previous value only shows through on failure. */
  lemma ParseCountOut(s: string, out: nat, out': nat)
    ensures ParseCount(s, out).code == ParseCount(s, out').code
    ensures ParseCount(s, out).code == CountOk ==> ParseCount(s, out).out == ParseCount(s, out').out
  {
  }

  /** The outcome for a digit string `ds` of value `v`, after optional white
      space and an optional sign, followed by a `rest` that does not start
      with a digit. Anything left over makes it invalid, whatever the value.
      Otherwise it is OK exactly for 1..INT_MAX, a range error above INT_MAX
      or below LONG_MIN, and invalid for every other value at most zero.
      Leading zeros and a '+' are accepted. */
  lemma {:induction false} ParseCountNumeral(ws: string, sign: string, ds: string, rest: string, v: nat, out: nat)
    requires AllSpaces(ws) && ds != [] && AllDigits(ds) && DigitsValue(ds) == v
    requires sign == "" || sign == "+" || sign == "-"
    requires rest == [] || !IsDigit(rest[0])
    ensures var signed: int := if sign == "-" then -(v as int) else v;
            ParseCount(ws + sign + ds + rest, out) ==
              if rest != [] then Parsed(CountInvalid, out)
              else if signed > INT_MAX || signed < LONG_MIN then Parsed(CountRange, out)
              else if signed <= 0 then Parsed(CountInvalid, out)
              else Parsed(CountOk, signed)
  {
    var s := ws + sign + ds + rest;
    StrtolNumeral(s, ws, sign, ds, rest, v);
  }

  /** Every count head and tail accept has a spelling that parses back to it. */
  lemma {:induction false} ParseCountRoundTrip(v: nat, out: nat)
    requires 1 <= v <= INT_MAX
    ensures ParseCount(Decimal(v), out) == Parsed(CountOk, v)
  {
    DecimalValue(v);
    ParseCountNumeral("", "", Decimal(v), "", v, out);
    assert "" + "" + Decimal(v) + "" == Decimal(v);
  }

  /** A negative numeral beyond the range of `long` is reported as too large,
      not as invalid, because ERANGE is tested before the sign. */
  lemma {:induction false} HugeNegativeIsRange(v: nat, out: nat)
    requires v > -LONG_MIN
    ensures ParseCount("-" + Decimal(v), out).code == CountRange
  {
    DecimalValue(v);
    ParseCountNumeral("", "-", Decimal(v), "", v, out);
    assert "" + "-" + Decimal(v) + "" == "-" + Decimal(v);
  }

  /** A negative numeral that still fits in a `long` is invalid. */
  lemma {:induction false} NegativeIsInvalid(v: nat, out: nat)
    requires v <= -LONG_MIN
    ensures ParseCount("-" + Decimal(v), out).code == CountInvalid
  {
    DecimalValue(v);
    ParseCountNumeral("", "-", Decimal(v), "", v, out);
    assert "" + "-" + Decimal(v) + "" == "-" + Decimal(v);
  }
}
