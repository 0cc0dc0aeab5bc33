/** The C library's `strtol(s, &end, 10)`, specified abstractly: optional
    leading white space, an optional sign, then decimal digits. A value outside
    the range of a 64-bit `long` is clamped and flagged with ERANGE. When no
    digit follows, nothing is consumed (`end == s`). */
module LibC {
  import opened Sys

  /** `isspace` in the C locale: ' ', '\t', '\n', '\v', '\f', '\r'. */
  predicate IsSpace(c: char)
  {
    c == ' ' || '\t' <= c <= '\r'
  }

  predicate IsDigit(c: char)
  {
    '0' <= c <= '9'
  }

  predicate AllDigits(s: string)
  {
    forall i :: 0 <= i < |s| ==> IsDigit(s[i])
  }

  predicate AllSpaces(s: string)
  {
    forall i :: 0 <= i < |s| ==> IsSpace(s[i])
  }

  function DigitValue(c: char): nat
    requires IsDigit(c)
  {
    c as int - '0' as int
  }

  /** Length of the longest prefix of white space. */
  function SpaceRun(s: string): (k: nat)
    ensures k <= |s| && AllSpaces(s[..k])
    ensures k == |s| || !IsSpace(s[k])
  {
    if |s| > 0 && IsSpace(s[0]) then
      var k' := SpaceRun(s[1..]);
      assert s[..1 + k'] == [s[0]] + s[1..][..k'];
      1 + k'
    else 0
  }

  /** Length of the longest prefix of decimal digits. */
  function DigitRun(s: string): (k: nat)
    ensures k <= |s| && AllDigits(s[..k])
    ensures k == |s| || !IsDigit(s[k])
  {
    if |s| > 0 && IsDigit(s[0]) then
      var k' := DigitRun(s[1..]);
      assert s[..1 + k'] == [s[0]] + s[1..][..k'];
      1 + k'
    else 0
  }

  /** Value of a string of decimal digits, most significant digit first. */
  function DigitsValue(ds: string): nat
    requires AllDigits(ds)
  {
    if ds == [] then 0 else DigitsValue(ds[..|ds| - 1]) * 10 + DigitValue(ds[|ds| - 1])
  }

  /** What strtol yields: the value, the index `end` points at, and whether errno became ERANGE. */
  datatype Conversion = Conversion(value: int, end: nat, erange: bool)

  function Strtol(s: string): (r: Conversion)
    ensures r.end <= |s|
    ensures r.end > 0 ==> IsDigit(s[r.end - 1]) && (r.end == |s| || !IsDigit(s[r.end]))
    ensures r.end == 0 ==> r.value == 0 && !r.erange
    ensures LONG_MIN <= r.value <= LONG_MAX
    ensures r.erange ==> r.value == LONG_MAX || r.value == LONG_MIN
  {
    var i := SpaceRun(s);
    if i < |s| && (s[i] == '-' || s[i] == '+') then Digits(s, i + 1, s[i] == '-')
    else Digits(s, i, false)
  }

  /** The conversion of the digit run of `s` that starts at `j`, negated when
      a minus sign preceded it. Without any digit nothing is consumed. */
  function Digits(s: string, j: nat, negative: bool): (r: Conversion)
    requires j <= |s|
    ensures r.end == 0 || j < r.end <= |s|
    ensures r.end > 0 ==> IsDigit(s[r.end - 1]) && (r.end == |s| || !IsDigit(s[r.end]))
    ensures r.end == 0 ==> r.value == 0 && !r.erange
    ensures LONG_MIN <= r.value <= LONG_MAX
    ensures r.erange ==> r.value == LONG_MAX || r.value == LONG_MIN
  {
    var k := DigitRun(s[j..]);
    if k == 0 then Conversion(0, 0, false)
    else
      var magnitude: int := DigitsValue(s[j..][..k]);
      Clamp(if negative then -magnitude else magnitude, j + k)
  }

  /** The result for a converted value `v` ending at `end`: out-of-range values
      saturate and set ERANGE. */
  function Clamp(v: int, end: nat): (r: Conversion)
    ensures LONG_MIN <= r.value <= LONG_MAX && r.end == end
    ensures r.erange ==> r.value == LONG_MAX || r.value == LONG_MIN
  {
    if v > LONG_MAX then Conversion(LONG_MAX, end, true)
    else if v < LONG_MIN then Conversion(LONG_MIN, end, true)
    else Conversion(v, end, false)
  }

  function DigitChar(d: nat): (c: char)
    requires d < 10
    ensures IsDigit(c) && DigitValue(c) == d
  {
    ('0' as int + d) as char
  }

  /** The canonical decimal spelling of `v` (no sign, no leading zeros). */
  function Decimal(v: nat): (ds: string)
    ensures |ds| > 0 && AllDigits(ds)
  {
    if v < 10 then [DigitChar(v)] else Decimal(v / 10) + [DigitChar(v % 10)]
  }

  lemma {:induction false} DecimalValue(v: nat)
    ensures DigitsValue(Decimal(v)) == v
  {
    if v >= 10 {
      DecimalValue(v / 10);
      var ds := Decimal(v);
      assert ds[..|ds| - 1] == Decimal(v / 10);
    }
  }

  /** strtol after optional white space and an optional sign: it reads the
      digit string `ds`, of value `v`, and stops where the digits stop, so a
      `rest` that does not start with a digit is left unconsumed. Out-of-range
      values are clamped. */
  lemma {:induction false} StrtolNumeral(s: string, ws: string, sign: string, ds: string, rest: string, v: nat)
    requires s == ws + sign + ds + rest
    requires AllSpaces(ws) && ds != [] && AllDigits(ds) && DigitsValue(ds) == v
    requires sign == "" || sign == "+" || sign == "-"
    requires rest == [] || !IsDigit(rest[0])
    ensures Strtol(s) == Clamp(if sign == "-" then -(v as int) else v, |ws| + |sign| + |ds|)
  {
    var j := |ws| + |sign|;
    assert j <= |s| && s[j..] == ds + rest && Strtol(s) == Digits(s, j, sign == "-") by {
      SignedLayout(ws, sign, ds, rest);
      StrtolOfParts(s, |ws|, j, sign == "-");
    }
    DigitsThen(s, j, sign == "-", ds, rest, v);
  }

  /** Where the parts of `ws + sign + ds + rest` lie, when `ds` starts with a digit. */
  lemma {:induction false} SignedLayout(ws: string, sign: string, ds: string, rest: string)
    requires AllSpaces(ws) && |ds| > 0 && IsDigit(ds[0])
    requires sign == "" || sign == "+" || sign == "-"
    ensures var s := ws + sign + ds + rest;
            && SpaceRun(s) == |ws| < |s|
            && (s[|ws|] == '-') == (sign == "-")
            && (s[|ws|] == '-' || s[|ws|] == '+') == (sign != "")
            && s[|ws| + |sign|..] == ds + rest
  {
    var s := ws + sign + ds + rest;
    var t := sign + (ds + rest);
    assert s == ws + t;
    var i := |ws|;
    assert SpaceRun(s) == i by {
      assert t[0] == if sign == "" then ds[0] else sign[0];
      SpaceRunPrefix(ws, t);
    }
    if sign == "" {
      assert s[i] == ds[0];
    } else {
      assert s[i] == sign[0];
    }
  }

  /** Strtol, once the white space run and the sign of `s` are known. */
  lemma StrtolOfParts(s: string, i: nat, j: nat, negative: bool)
    requires SpaceRun(s) == i < |s|
    requires j == if s[i] == '-' || s[i] == '+' then i + 1 else i
    requires negative == (s[i] == '-')
    ensures Strtol(s) == Digits(s, j, negative)
  {
  }

  /** Digits, when the text from `j` on is the digit string `ds` followed by
      something that does not start with a digit, and `v` is its value. */
  lemma {:induction false} DigitsThen(s: string, j: nat, negative: bool, ds: string, rest: string, v: nat)
    requires j <= |s| && s[j..] == ds + rest
    requires ds != [] && AllDigits(ds) && DigitsValue(ds) == v
    requires rest == [] || !IsDigit(rest[0])
    ensures Digits(s, j, negative) == Clamp(if negative then -(v as int) else v, j + |ds|)
  {
    DigitRunPrefix(ds, rest);
    assert s[j..][..|ds|] == ds;
  }

  lemma {:induction false} SpaceRunPrefix(ws: string, rest: string)
    requires AllSpaces(ws)
    requires rest == [] || !IsSpace(rest[0])
    ensures SpaceRun(ws + rest) == |ws|
  {
    if ws != [] {
      assert (ws + rest)[1..] == ws[1..] + rest;
      SpaceRunPrefix(ws[1..], rest);
    } else {
      assert ws + rest == rest;
    }
  }

  lemma {:induction false} DigitRunPrefix(ds: string, rest: string)
    requires AllDigits(ds)
    requires rest == [] || !IsDigit(rest[0])
    ensures DigitRun(ds + rest) == |ds|
  {
    if ds != [] {
      assert (ds + rest)[1..] == ds[1..] + rest;
      DigitRunPrefix(ds[1..], rest);
    } else {
      assert ds + rest == rest;
    }
  }
}
