/** touch's `-t` argument, `[[CC]YY]MMDDhhmm[.SS]`, as parse_time reads it
    into the broken-down local time. The current local time is a parameter. */
module Touch {
  import opened Sys
  import opened LibC

  /** The fields of `struct tm` that parse_time reads or writes: seconds,
      minutes, hours, day of the month, months since January and years
      since 1900. */
  datatype Tm = Tm(sec: int, min: int, hour: int, mday: int, mon: int, year: int)

  /** What parse_time leaves behind: its return value, the argument string as
      C sees it afterwards (cut at the dot when the seconds were taken), the
      broken-down time, and `ts->tv_sec`. */
  datatype TimeParse = TimeParse(rc: int, arg: string, tm: Tm, tvSec: int)

  /** `c - '0'`: no check that `c` is a digit. */
  function Digit(c: char): int
  {
    c as int - '0' as int
  }

  /** The two-character field at `i`, `(s[i] - '0') * 10 + (s[i + 1] - '0')`. */
  function Two(s: string, i: nat): int
    requires i + 2 <= |s|
  {
    Digit(s[i]) * 10 + Digit(s[i + 1])
  }

  /** strchr(s, '.'): the index of the first dot. */
  function FirstDot(s: string): (r: Option<nat>)
    ensures r.Some? ==> r.value < |s| && s[r.value] == '.' && '.' !in s[..r.value]
    ensures r.None? ==> '.' !in s
  {
    if s == [] then None
    else if s[0] == '.' then Some(0)
    else match FirstDot(s[1..])
      case None => None
      case Some(d) =>
        assert s[..d + 1] == [s[0]] + s[1..][..d];
        Some(d + 1)
  }

  /** parse_time with `now` the current local time and `tvSec` the caller's
      `ts->tv_sec`. */
  function ParseTime(s: string, now: Tm, tvSec: int): (r: TimeParse)
    ensures r.rc == 0 || r.rc == -1
    ensures '.' !in s ==> (r.rc == 0 <==> |s| == 8 || |s| == 10 || |s| == 12)
    ensures '.' !in s ==> r.tvSec == 0 && r.tm.sec == now.sec && r.arg == s
    ensures '.' in s ==> r.tvSec == tvSec
    ensures FirstDot(s).Some? && |s| - FirstDot(s).value != 3 ==> r == TimeParse(-1, s, now, tvSec)
    ensures FirstDot(s).Some? && r.rc == 0 ==> r.arg == s[..FirstDot(s).value] && r.tm.sec == Two(s, |s| - 2)
    ensures FirstDot(s).Some? && |s| - FirstDot(s).value == 3 ==>
              (r.rc == 0 <==> FirstDot(s).value == 8 || FirstDot(s).value == 10 || FirstDot(s).value == 12)
    ensures r.rc == 0 && |r.arg| == 8 ==> r.tm.year == now.year
  {
    match FirstDot(s)
    case None => Fields(s, now, 0)
    case Some(d) =>
      if |s| - d != 3 then TimeParse(-1, s, now, tvSec)
      else Fields(s[..d], now.(sec := Two(s, d + 1)), tvSec)
  }

  /** The switch on the length of what precedes the dot. */
  function Fields(s: string, t: Tm, tvSec: int): (r: TimeParse)
    ensures r.rc == 0 <==> |s| == 8 || |s| == 10 || |s| == 12
    ensures r.arg == s && r.tvSec == tvSec && r.tm.sec == t.sec
    ensures |s| == 8 ==> r.tm.year == t.year
  {
    if |s| == 12 then
      var year := (Digit(s[0]) * 1000 + Digit(s[1]) * 100 + Digit(s[2]) * 10 + Digit(s[3])) - 1900;
      TimeParse(0, s, t.(year := year, mon := Two(s, 4) - 1, mday := Two(s, 6), hour := Two(s, 8), min := Two(s, 10)), tvSec)
    else if |s| == 10 then
      var y := Two(s, 0);
      var y' := if y < 69 then y + 2000 else y + 1900;
      TimeParse(0, s, t.(year := y' - 1900, mon := Two(s, 2) - 1, mday := Two(s, 4), hour := Two(s, 6), min := Two(s, 8)), tvSec)
    else if |s| == 8 then
      TimeParse(0, s, t.(mon := Two(s, 0) - 1, mday := Two(s, 2), hour := Two(s, 4), min := Two(s, 6)), tvSec)
    else TimeParse(-1, s, t, tvSec)
  }

  // ---------------------------------------------------------------------
  // Spelling a time the way `-t` expects it

  /** Two decimal digits for 0 <= v < 100. */
  function Pad2(v: nat): (s: string)
    requires v < 100
    ensures |s| == 2 && Two(s, 0) == v && '.' !in s
  {
    [DigitChar(v / 10), DigitChar(v % 10)]
  }

  /** `MMDDhhmm` for the given month (1-12 on the clock face), day, hour and minute. */
  function Stamp8(mm: nat, dd: nat, hh: nat, mi: nat): (s: string)
    requires mm < 100 && dd < 100 && hh < 100 && mi < 100
    ensures |s| == 8 && '.' !in s
    ensures Two(s, 0) == mm && Two(s, 2) == dd && Two(s, 4) == hh && Two(s, 6) == mi
  {
    var s := Pad2(mm) + Pad2(dd) + Pad2(hh) + Pad2(mi);
    assert s[0..2] == Pad2(mm) && s[2..4] == Pad2(dd) && s[4..6] == Pad2(hh) && s[6..8] == Pad2(mi);
    s
  }

  /** The date and time fields a spelling leaves in `struct tm`. */
  predicate Clock(t: Tm, mm: nat, dd: nat, hh: nat, mi: nat)
  {
    t.mon == mm - 1 && t.mday == dd && t.hour == hh && t.min == mi
  }

  /** `CCYYMMDDhhmm.SS` reads back as written: the year less 1900, the month
      less one, and the seconds. */
  lemma FullRoundTrip(y: nat, mm: nat, dd: nat, hh: nat, mi: nat, ss: nat, now: Tm, tvSec: int)
    requires y < 10000 && mm < 100 && dd < 100 && hh < 100 && mi < 100 && ss < 100
    ensures var s := Pad2(y / 100) + Pad2(y % 100) + Stamp8(mm, dd, hh, mi) + "." + Pad2(ss);
            var r := ParseTime(s, now, tvSec);
            && r.rc == 0 && r.tvSec == tvSec && r.arg == s[..12]
            && r.tm == Tm(ss, mi, hh, dd, mm - 1, y - 1900)
  {
    var head := Pad2(y / 100) + Pad2(y % 100) + Stamp8(mm, dd, hh, mi);
    var s := head + "." + Pad2(ss);
    assert |head| == 12;
    assert FirstDot(s) == Some(12) by {
      assert s[..12] == head;
    }
    assert s[..12] == head && s[13..15] == Pad2(ss);
    assert Two(s, 13) == ss;
    var cy := Pad2(y / 100);
    assert head[0..2] == cy && head[2..4] == Pad2(y % 100) && head[4..] == Stamp8(mm, dd, hh, mi);
    assert Two(head, 4) == mm && Two(head, 6) == dd && Two(head, 8) == hh && Two(head, 10) == mi;
    assert Digit(head[0]) * 1000 + Digit(head[1]) * 100 + Digit(head[2]) * 10 + Digit(head[3])
           == 100 * Two(head, 0) + Two(head, 2);
  }

  /** `YYMMDDhhmm`: years 69 to 99 are 1969 to 1999, years 00 to 68 are 2000
      to 2068. Without a dot the seconds stay as they are now and
      `ts->tv_sec` becomes 0. */
  lemma CenturyPivot(yy: nat, mm: nat, dd: nat, hh: nat, mi: nat, now: Tm, tvSec: int)
    requires yy < 100 && mm < 100 && dd < 100 && hh < 100 && mi < 100
    ensures var s := Pad2(yy) + Stamp8(mm, dd, hh, mi);
            var r := ParseTime(s, now, tvSec);
            && r.rc == 0 && r.tvSec == 0 && r.tm.sec == now.sec
            && r.tm.year + 1900 == (if yy < 69 then 2000 + yy else 1900 + yy)
            && Clock(r.tm, mm, dd, hh, mi)
  {
    var s := Pad2(yy) + Stamp8(mm, dd, hh, mi);
    assert s[0..2] == Pad2(yy) && s[2..] == Stamp8(mm, dd, hh, mi);
    assert '.' !in s;
    assert Two(s, 2) == mm && Two(s, 4) == dd && Two(s, 6) == hh && Two(s, 8) == mi;
  }

  /** `MMDDhhmm.SS`: the year stays the current one. */
  lemma ShortRoundTrip(mm: nat, dd: nat, hh: nat, mi: nat, ss: nat, now: Tm, tvSec: int)
    requires mm < 100 && dd < 100 && hh < 100 && mi < 100 && ss < 100
    ensures var s := Stamp8(mm, dd, hh, mi) + "." + Pad2(ss);
            var r := ParseTime(s, now, tvSec);
            && r.rc == 0 && r.tvSec == tvSec
            && r.tm == Tm(ss, mi, hh, dd, mm - 1, now.year)
  {
    var head := Stamp8(mm, dd, hh, mi);
    var s := head + "." + Pad2(ss);
    assert FirstDot(s) == Some(8) by {
      assert s[..8] == head;
    }
    assert s[..8] == head && s[9..11] == Pad2(ss);
    assert Two(s, 9) == ss;
  }
}
