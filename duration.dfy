/**
 * Track durations: `ParsingTimeToNumber` reads `m:s`, `h:m:s` or `d:h:m:s`
 * text as a number of seconds, and `ParsingTimeToString` renders a number of
 * seconds as zero-padded colon-separated fields.
 */
module Duration {
  import opened Wrappers
  import opened JsText

  const SecondsPerDay: nat := (60 * 60) * 24

  /** The text the model reads: decimal digits and colons. */
  predicate IsTimeText(s: string) {
    forall i :: 0 <= i < |s| ==> IsDigit(s[i]) || s[i] == ':'
  }

  lemma TimePartsAreDigits(s: string)
    requires IsTimeText(s)
    ensures forall i :: 0 <= i < |SplitChar(s, ':')| ==> IsDigits(SplitChar(s, ':')[i])
  {
    SplitCharPieces(s, ':');
    SplitCharJoin(s, ':');
    forall i, k | 0 <= i < |SplitChar(s, ':')| && 0 <= k < |SplitChar(s, ':')[i]|
      ensures IsDigit(SplitChar(s, ':')[i][k])
    {
      var x := SplitChar(s, ':')[i][k];
      assert x in SplitChar(s, ':')[i];
    }
  }

  const SecondsPerHour: nat := 60 * 60

  // The converters of `ParsingTimeToNumber`; `Number(part)` of a digit string is its value.
  function Days(part: string): nat requires IsDigits(part) { DigitsValue(part) * SecondsPerDay }
  function Hours(part: string, secondsPerHour: nat): nat requires IsDigits(part) { DigitsValue(part) * secondsPerHour }
  function Minutes(part: string): nat requires IsDigits(part) { DigitsValue(part) * 60 }
  function Seconds(part: string): nat requires IsDigits(part) { DigitsValue(part) }

  /**
   * `ParsingTimeToNumber(duration)` as written, with `None` for the undefined
   * of a part count that no case matches: the hours converter multiplies by
   * the seconds of a day.
   */
  function ParsingTimeToNumber(duration: string): Option<nat>
    requires IsTimeText(duration)
  {
    TimePartsAreDigits(duration);
    ByPartCount(SplitChar(duration, ':'), SecondsPerDay)
  }

  /** The reading evidently intended: an hour is 3600 seconds. */
  function ParsingTimeToNumberCorrected(duration: string): Option<nat>
    requires IsTimeText(duration)
  {
    TimePartsAreDigits(duration);
    ByPartCount(SplitChar(duration, ':'), SecondsPerHour)
  }

  /** The `switch (Splitter.length)`, for a given length of an hour. */
  function ByPartCount(splitter: seq<string>, secondsPerHour: nat): Option<nat>
    requires forall i :: 0 <= i < |splitter| ==> IsDigits(splitter[i])
  {
    if |splitter| == 4 then Some(Days(splitter[0]) + Hours(splitter[1], secondsPerHour) + Minutes(splitter[2]) + Seconds(splitter[3]))
    else if |splitter| == 3 then Some(Hours(splitter[0], secondsPerHour) + Minutes(splitter[1]) + Seconds(splitter[2]))
    else if |splitter| == 2 then Some(Minutes(splitter[0]) + Seconds(splitter[1]))
    else None
  }

  /** `toFixed0(n)` as it is rendered: a `"0"` in front of a one-digit number. */
  function ToFixed0(n: nat): (r: string)
    ensures |r| >= 2 && IsDigits(r) && DigitsValue(r) == n
    ensures n < 100 ==> |r| == 2
    ensures ':' !in r
  {
    var digits := DecimalString(n);
    if n < 10 then
      LeadingZero(digits);
      "0" + digits
    else
      assert |digits| >= 2 by {
        DecimalLength(n);
      }
      digits
  }

  lemma {:induction false} LeadingZero(s: string)
    requires IsDigits(s)
    ensures IsDigits("0" + s) && DigitsValue("0" + s) == DigitsValue(s)
    decreases |s|
  {
    if s != [] {
      var init := s[..|s| - 1];
      LeadingZero(init);
      assert ("0" + s)[..|"0" + s| - 1] == "0" + init;
    }
  }

  lemma DecimalLength(n: nat)
    ensures n >= 10 ==> |DecimalString(n)| >= 2
    ensures n < 100 ==> |DecimalString(n)| <= 2
  {
    if n >= 10 {
      DecimalLength(n / 10);
    }
  }

  /**
   * The four fields of a natural number of seconds. `parseInt` of the
   * floating-point quotient is the integer quotient for natural numbers, and
   * the day count is taken modulo 24 as the code does.
   */
  function DaysField(d: nat): nat { (d / SecondsPerDay) % 24 }
  function HoursField(d: nat): nat { (d / SecondsPerHour) % 24 }
  function MinutesField(d: nat): nat { (d / 60) % 60 }
  function SecondsField(d: nat): nat { d % 60 }

  /** `ParsingTimeToString(duration)` */
  function ParsingTimeToString(duration: nat): string {
    var days, hours, minutes, seconds := DaysField(duration), HoursField(duration), MinutesField(duration), SecondsField(duration);
    (if days > 0 then ToFixed0(days) + ":" else "")
    + (if hours > 0 || days > 0 then ToFixed0(hours) + ":" else "")
    + (if minutes > 0 then ToFixed0(minutes) + ":" else "00:")
    + (if seconds > 0 then ToFixed0(seconds) else "00")
  }


  // Properties of the parser.

  lemma NoColon(s: string)
    requires IsDigits(s)
    ensures ':' !in s
  {
    forall k | 0 <= k < |s| ensures s[k] != ':' {
      assert IsDigit(s[k]);
    }
  }

  /** Time text joined by a colon is time text. */
  lemma JoinedTimeText(a: string, b: string)
    requires IsTimeText(a) && IsTimeText(b)
    ensures IsTimeText(a + ":" + b)
  {
    var t := a + ":" + b;
    forall k | 0 <= k < |t| ensures IsDigit(t[k]) || t[k] == ':' {
      if k < |a| {
        assert t[k] == a[k];
      } else if k > |a| {
        assert t[k] == b[k - |a| - 1];
      }
    }
  }

  /** Digit strings joined by colons are time text that `split(":")` takes back apart. */
  lemma {:induction false} JoinedFields(parts: seq<string>)
    requires parts != [] && forall i :: 0 <= i < |parts| ==> IsDigits(parts[i])
    ensures IsTimeText(Join(parts, ":"))
    ensures SplitChar(Join(parts, ":"), ':') == parts
    decreases |parts|
  {
    forall i | 0 <= i < |parts| ensures ':' !in parts[i] {
      NoColon(parts[i]);
    }
    SplitJoined(parts, ':');
    if |parts| > 1 {
      JoinedFields(parts[1..]);
      JoinedTimeText(parts[0], Join(parts[1..], ":"));
    }
  }

  /** Joining two fields. */
  lemma JoinTwo(a: string, b: string)
    ensures Join([a, b], ":") == a + ":" + b
  {
    assert [a, b][1..] == [b];
  }

  /** Joining three fields. */
  lemma JoinThree(a: string, b: string, c: string)
    ensures Join([a, b, c], ":") == a + ":" + b + ":" + c
  {
    assert [a, b, c][1..] == [b, c];
    JoinTwo(b, c);
  }

  /** Joining four fields. */
  lemma JoinFour(a: string, b: string, c: string, d: string)
    ensures Join([a, b, c, d], ":") == a + ":" + b + ":" + c + ":" + d
  {
    assert [a, b, c, d][1..] == [b, c, d];
    JoinThree(b, c, d);
  }

  /** Both readings take the case for the number of pieces `split(":")` gives. */
  lemma ReadParts(duration: string, parts: seq<string>)
    requires IsTimeText(duration) && SplitChar(duration, ':') == parts
    ensures forall i :: 0 <= i < |parts| ==> IsDigits(parts[i])
    ensures ParsingTimeToNumber(duration) == ByPartCount(parts, SecondsPerDay)
    ensures ParsingTimeToNumberCorrected(duration) == ByPartCount(parts, SecondsPerHour)
  {
    TimePartsAreDigits(duration);
  }

  /** The two-piece case. */
  lemma CaseTwo(m: string, s: string, secondsPerHour: nat)
    requires IsDigits(m) && IsDigits(s)
    ensures ByPartCount([m, s], secondsPerHour) == Some(DigitsValue(m) * 60 + DigitsValue(s))
  {
    var parts := [m, s];
    assert parts[0] == m && parts[1] == s;
  }

  /** The three-piece case. */
  lemma CaseThree(h: string, m: string, s: string, secondsPerHour: nat)
    requires IsDigits(h) && IsDigits(m) && IsDigits(s)
    ensures ByPartCount([h, m, s], secondsPerHour) == Some(DigitsValue(h) * secondsPerHour + DigitsValue(m) * 60 + DigitsValue(s))
  {
    var parts := [h, m, s];
    assert parts[0] == h && parts[1] == m && parts[2] == s;
    assert Hours(parts[0], secondsPerHour) == DigitsValue(h) * secondsPerHour;
  }

  /** The four-piece case. */
  lemma CaseFour(d: string, h: string, m: string, s: string, secondsPerHour: nat)
    requires IsDigits(d) && IsDigits(h) && IsDigits(m) && IsDigits(s)
    ensures ByPartCount([d, h, m, s], secondsPerHour)
      == Some(DigitsValue(d) * SecondsPerDay + DigitsValue(h) * secondsPerHour + DigitsValue(m) * 60 + DigitsValue(s))
  {
    var parts := [d, h, m, s];
    assert parts[0] == d && parts[1] == h && parts[2] == m && parts[3] == s;
    assert Days(parts[0]) == DigitsValue(d) * SecondsPerDay;
    assert Hours(parts[1], secondsPerHour) == DigitsValue(h) * secondsPerHour;
  }

  /** Digit fields joined by colons are time text, and both readings take the case for their number. */
  lemma ReadJoined(parts: seq<string>)
    requires parts != [] && forall i :: 0 <= i < |parts| ==> IsDigits(parts[i])
    ensures IsTimeText(Join(parts, ":"))
    ensures ParsingTimeToNumber(Join(parts, ":")) == ByPartCount(parts, SecondsPerDay)
    ensures ParsingTimeToNumberCorrected(Join(parts, ":")) == ByPartCount(parts, SecondsPerHour)
  {
    JoinedFields(parts);
    ReadParts(Join(parts, ":"), parts);
  }

  /** `m:s` is m*60 + s seconds. */
  lemma TwoParts(m: string, s: string)
    requires IsDigits(m) && IsDigits(s)
    ensures IsTimeText(Join([m, s], ":"))
    ensures ParsingTimeToNumber(Join([m, s], ":")) == Some(DigitsValue(m) * 60 + DigitsValue(s))
    ensures ParsingTimeToNumberCorrected(Join([m, s], ":")) == Some(DigitsValue(m) * 60 + DigitsValue(s))
  {
    ReadJoined([m, s]);
    CaseTwo(m, s, SecondsPerDay);
    CaseTwo(m, s, SecondsPerHour);
  }

  /** `h:m:s` is h*SecondsPerDay + m*60 + s seconds as written: hours are read with the factor of days. */
  lemma ThreeParts(h: string, m: string, s: string)
    requires IsDigits(h) && IsDigits(m) && IsDigits(s)
    ensures IsTimeText(Join([h, m, s], ":"))
    ensures ParsingTimeToNumber(Join([h, m, s], ":")) == Some(DigitsValue(h) * SecondsPerDay + DigitsValue(m) * 60 + DigitsValue(s))
  {
    ReadJoined([h, m, s]);
    CaseThree(h, m, s, SecondsPerDay);
  }

  /** Read as intended, `h:m:s` is h*3600 + m*60 + s seconds. */
  lemma ThreePartsCorrected(h: string, m: string, s: string)
    requires IsDigits(h) && IsDigits(m) && IsDigits(s)
    ensures IsTimeText(Join([h, m, s], ":"))
    ensures ParsingTimeToNumberCorrected(Join([h, m, s], ":")) == Some(DigitsValue(h) * SecondsPerHour + DigitsValue(m) * 60 + DigitsValue(s))
  {
    ReadJoined([h, m, s]);
    CaseThree(h, m, s, SecondsPerHour);
  }

  /** Four digit fields joined by colons, read by the case of four pieces. */
  lemma ReadFour(d: string, h: string, m: string, s: string)
    requires IsDigits(d) && IsDigits(h) && IsDigits(m) && IsDigits(s)
    ensures IsTimeText(Join([d, h, m, s], ":"))
    ensures ParsingTimeToNumber(Join([d, h, m, s], ":")) == ByPartCount([d, h, m, s], SecondsPerDay)
    ensures ParsingTimeToNumberCorrected(Join([d, h, m, s], ":")) == ByPartCount([d, h, m, s], SecondsPerHour)
  {
    ReadJoined([d, h, m, s]);
  }

  /** `d:h:m:s` is d*SecondsPerDay + h*SecondsPerDay + m*60 + s seconds as written. */
  lemma FourParts(d: string, h: string, m: string, s: string)
    requires IsDigits(d) && IsDigits(h) && IsDigits(m) && IsDigits(s)
    ensures IsTimeText(Join([d, h, m, s], ":"))
    ensures ParsingTimeToNumber(Join([d, h, m, s], ":"))
      == Some(DigitsValue(d) * SecondsPerDay + DigitsValue(h) * SecondsPerDay + DigitsValue(m) * 60 + DigitsValue(s))
  {
    ReadFour(d, h, m, s);
    CaseFour(d, h, m, s, SecondsPerDay);
  }

  /** Read as intended, `d:h:m:s` is d*SecondsPerDay + h*3600 + m*60 + s seconds. */
  lemma FourPartsCorrected(d: string, h: string, m: string, s: string)
    requires IsDigits(d) && IsDigits(h) && IsDigits(m) && IsDigits(s)
    ensures IsTimeText(Join([d, h, m, s], ":"))
    ensures ParsingTimeToNumberCorrected(Join([d, h, m, s], ":"))
      == Some(DigitsValue(d) * SecondsPerDay + DigitsValue(h) * SecondsPerHour + DigitsValue(m) * 60 + DigitsValue(s))
  {
    ReadFour(d, h, m, s);
    CaseFour(d, h, m, s, SecondsPerHour);
  }

  /** One piece, or five and more, match no case; `split` never gives zero pieces. */
  lemma PartCount(duration: string)
    requires IsTimeText(duration)
    ensures |SplitChar(duration, ':')| >= 1
    ensures ParsingTimeToNumber(duration).None? <==> |SplitChar(duration, ':')| == 1 || |SplitChar(duration, ':')| >= 5
    ensures ParsingTimeToNumberCorrected(duration).None? <==> ParsingTimeToNumber(duration).None?
    ensures ':' !in duration ==> ParsingTimeToNumber(duration).None?
  {
    ReadParts(duration, SplitChar(duration, ':'));
    if ':' !in duration {
      SplitCharNone(duration, ':');
    }
  }

  /** As written, days and hours are interchangeable in four-part text. */
  lemma DaysAndHoursInterchangeable(d: string, h: string, m: string, s: string)
    requires IsDigits(d) && IsDigits(h) && IsDigits(m) && IsDigits(s)
    ensures IsTimeText(Join([d, h, m, s], ":")) && IsTimeText(Join([h, d, m, s], ":"))
    ensures ParsingTimeToNumber(Join([d, h, m, s], ":")) == ParsingTimeToNumber(Join([h, d, m, s], ":"))
  {
    FourParts(d, h, m, s);
    FourParts(h, d, m, s);
  }

  // Properties of the renderer.

  /** The fields shown: days only when above 0, hours when hours or days are above 0, minutes and seconds always. */
  function Shown(d: nat): seq<string> {
    (if DaysField(d) > 0 then [ToFixed0(DaysField(d))] else [])
    + (if HoursField(d) > 0 || DaysField(d) > 0 then [ToFixed0(HoursField(d))] else [])
    + [ToFixed0(MinutesField(d)), ToFixed0(SecondsField(d))]
  }

  lemma ZeroField()
    ensures ToFixed0(0) == "00"
  {
  }

  /** Each shown field has two digits: days and hours are below 24, minutes and seconds below 60. */
  lemma ShownFields(d: nat)
    ensures 2 <= |Shown(d)| <= 4
    ensures forall i :: 0 <= i < |Shown(d)| ==> |Shown(d)[i]| == 2 && IsDigits(Shown(d)[i])
  {
  }

  /** Minutes and seconds are always shown; a zero field is `00`. */
  lemma RenderedTail(d: nat)
    ensures (if MinutesField(d) > 0 then ToFixed0(MinutesField(d)) + ":" else "00:") + (if SecondsField(d) > 0 then ToFixed0(SecondsField(d)) else "00")
      == Join([ToFixed0(MinutesField(d)), ToFixed0(SecondsField(d))], ":")
  {
    ZeroField();
    JoinTwo(ToFixed0(MinutesField(d)), ToFixed0(SecondsField(d)));
  }

  /** The rendering is the shown fields joined by `:`. */
  lemma Rendering(d: nat)
    ensures ParsingTimeToString(d) == Join(Shown(d), ":")
  {
    var tail := [ToFixed0(MinutesField(d)), ToFixed0(SecondsField(d))];
    RenderedTail(d);
    if DaysField(d) > 0 {
      RenderingWithDays(d);
    } else if HoursField(d) > 0 {
      RenderingWithHours(d);
    } else {
      assert Shown(d) == tail;
    }
  }

  lemma RenderingWithDays(d: nat)
    requires DaysField(d) > 0
    ensures ParsingTimeToString(d) == Join(Shown(d), ":")
  {
    var ds, hs := ToFixed0(DaysField(d)), ToFixed0(HoursField(d));
    var tail := [ToFixed0(MinutesField(d)), ToFixed0(SecondsField(d))];
    RenderedTail(d);
    assert Shown(d) == [ds] + ([hs] + tail);
    JoinCons(hs, tail, ":");
    JoinCons(ds, [hs] + tail, ":");
  }

  lemma RenderingWithHours(d: nat)
    requires DaysField(d) == 0 && HoursField(d) > 0
    ensures ParsingTimeToString(d) == Join(Shown(d), ":")
  {
    var hs := ToFixed0(HoursField(d));
    var tail := [ToFixed0(MinutesField(d)), ToFixed0(SecondsField(d))];
    RenderedTail(d);
    assert Shown(d) == [hs] + tail;
    JoinCons(hs, tail, ":");
  }

  /** The rendering is time text that `split(":")` takes apart into the shown fields. */
  lemma Layout(d: nat)
    ensures IsTimeText(ParsingTimeToString(d))
    ensures SplitChar(ParsingTimeToString(d), ':') == Shown(d)
  {
    ShownFields(d);
    Rendering(d);
    JoinedFields(Shown(d));
  }

  /** The shown fields, case by case. */
  lemma ShownCases(d: nat)
    ensures DaysField(d) > 0 ==> Shown(d) == [ToFixed0(DaysField(d)), ToFixed0(HoursField(d)), ToFixed0(MinutesField(d)), ToFixed0(SecondsField(d))]
    ensures DaysField(d) == 0 && HoursField(d) > 0 ==> Shown(d) == [ToFixed0(HoursField(d)), ToFixed0(MinutesField(d)), ToFixed0(SecondsField(d))]
    ensures DaysField(d) == 0 && HoursField(d) == 0 ==> Shown(d) == [ToFixed0(MinutesField(d)), ToFixed0(SecondsField(d))]
  {
  }

  /** Both readings of the rendering take the case for the number of shown fields. */
  lemma ReadShown(d: nat)
    ensures IsTimeText(ParsingTimeToString(d))
    ensures forall i :: 0 <= i < |Shown(d)| ==> IsDigits(Shown(d)[i])
    ensures ParsingTimeToNumber(ParsingTimeToString(d)) == ByPartCount(Shown(d), SecondsPerDay)
    ensures ParsingTimeToNumberCorrected(ParsingTimeToString(d)) == ByPartCount(Shown(d), SecondsPerHour)
  {
    Layout(d);
    ShownFields(d);
    ReadParts(ParsingTimeToString(d), Shown(d));
  }

  /** The value either reading finds in the shown fields, case by case. */
  lemma ShownValue(d: nat, secondsPerHour: nat)
    ensures forall i :: 0 <= i < |Shown(d)| ==> IsDigits(Shown(d)[i])
    ensures DaysField(d) > 0 ==>
      ByPartCount(Shown(d), secondsPerHour) == Some(DaysField(d) * SecondsPerDay + HoursField(d) * secondsPerHour + MinutesField(d) * 60 + SecondsField(d))
    ensures DaysField(d) == 0 && HoursField(d) > 0 ==>
      ByPartCount(Shown(d), secondsPerHour) == Some(HoursField(d) * secondsPerHour + MinutesField(d) * 60 + SecondsField(d))
    ensures DaysField(d) == 0 && HoursField(d) == 0 ==>
      ByPartCount(Shown(d), secondsPerHour) == Some(MinutesField(d) * 60 + SecondsField(d))
  {
    ShownFields(d);
    ShownCases(d);
    var ds, hs, ms, ss := ToFixed0(DaysField(d)), ToFixed0(HoursField(d)), ToFixed0(MinutesField(d)), ToFixed0(SecondsField(d));
    if DaysField(d) > 0 {
      CaseFour(ds, hs, ms, ss, secondsPerHour);
    } else if HoursField(d) > 0 {
      CaseThree(hs, ms, ss, secondsPerHour);
    } else {
      CaseTwo(ms, ss, secondsPerHour);
    }
  }

  /** A number of seconds is its shown fields weighed by their length, below 24 days. */
  lemma FieldsAddUp(d: nat)
    requires d < 24 * SecondsPerDay
    ensures d == DaysField(d) * SecondsPerDay + HoursField(d) * SecondsPerHour + MinutesField(d) * 60 + SecondsField(d)
  {
    var q1 := d / 60;
    assert d == q1 * 60 + d % 60;
    var q2 := q1 / 60;
    assert q1 == q2 * 60 + q1 % 60;
    DivDiv(d, 60, 60);
    assert q2 == d / SecondsPerHour;
    var q3 := q2 / 24;
    assert q2 == q3 * 24 + q2 % 24;
    DivDiv(d, SecondsPerHour, 24);
    assert q3 == d / SecondsPerDay;
    assert q3 < 24;
  }

  /** Dividing twice is dividing by the product. */
  lemma DivDiv(n: nat, a: nat, b: nat)
    requires a > 0 && b > 0
    ensures n / a / b == n / (a * b)
  {
    var q, r := n / a, n % a;
    var q2, r2 := q / b, q % b;
    Regroup(a, b, q2, r2, r);
    BelowProduct(a, b, r2, r);
    DivUnique(n, a * b, q2, a * r2 + r);
  }

  lemma Regroup(a: int, b: int, q: int, r2: int, r: int)
    ensures a * (b * q + r2) + r == (a * b) * q + (a * r2 + r)
  {
  }

  lemma BelowProduct(a: int, b: int, r2: int, r: int)
    requires 0 <= r < a && 0 <= r2 < b
    ensures a * r2 + r < a * b
  {
    assert a * b == a * (b - 1) + a;
    assert a * r2 <= a * (b - 1);
  }

  /** The quotient is the one multiple that leaves a remainder below the divisor. */
  lemma DivUnique(n: int, k: int, q: int, r: int)
    requires k > 0 && 0 <= r < k && n == k * q + r
    ensures n / k == q
  {
    var q', r' := n / k, n % k;
    assert k * q' + r' == k * q + r;
    if q' < q {
      assert k * (q - q') == r' - r;
      AtLeastOnce(k, q - q');
    } else if q' > q {
      assert k * (q' - q) == r - r';
      AtLeastOnce(k, q' - q);
    }
  }

  lemma AtLeastOnce(k: int, x: int)
    requires k > 0 && x >= 1
    ensures k * x >= k
  {
    assert k * x == k * (x - 1) + k;
  }

  /** 0 seconds render as `00:00`. */
  lemma RenderedZero()
    ensures ParsingTimeToString(0) == "00:00"
  {
    ShownZero();
    Rendering(0);
    JoinTwo("00", "00");
  }

  lemma ShownZero()
    ensures Shown(0) == ["00", "00"]
  {
    ZeroField();
    ShownCases(0);
  }

  lemma SmallFields()
    ensures ToFixed0(1) == "01" && ToFixed0(5) == "05"
  {
  }

  /** 65 seconds render as `01:05`. */
  lemma RenderedMinuteAndFive()
    ensures ParsingTimeToString(65) == "01:05"
  {
    ShownMinuteAndFive();
    Rendering(65);
    JoinTwo("01", "05");
  }

  lemma ShownMinuteAndFive()
    ensures Shown(65) == ["01", "05"]
  {
    assert DaysField(65) == 0 && HoursField(65) == 0 && MinutesField(65) == 1 && SecondsField(65) == 5;
    SmallFields();
    ShownCases(65);
  }

  /** 3600 seconds render as `01:00:00`. */
  lemma RenderedHour()
    ensures ParsingTimeToString(3600) == "01:00:00"
  {
    ShownHour();
    Rendering(3600);
    JoinThree("01", "00", "00");
  }

  lemma ShownHour()
    ensures Shown(3600) == ["01", "00", "00"]
  {
    assert DaysField(3600) == 0 && HoursField(3600) == 1 && MinutesField(3600) == 0 && SecondsField(3600) == 0;
    SmallFields();
    ZeroField();
    ShownCases(3600);
  }

  /** Below an hour only minutes and seconds are shown, and they add up to the number. */
  lemma ShownBelowAnHour(d: nat)
    requires d < SecondsPerHour
    ensures DaysField(d) == 0 && HoursField(d) == 0
    ensures ByPartCount(Shown(d), SecondsPerDay) == Some(d)
  {
    assert DaysField(d) == 0 && HoursField(d) == 0;
    ShownValue(d, SecondsPerDay);
    FieldsAddUp(d);
  }

  /** Between an hour and a day the hours are shown, and weighed as days they add up to more. */
  lemma ShownHoursAsDays(d: nat)
    requires SecondsPerHour <= d < SecondsPerDay
    ensures DaysField(d) == 0 && HoursField(d) > 0
    ensures ByPartCount(Shown(d), SecondsPerDay) == Some(d + HoursField(d) * (SecondsPerDay - SecondsPerHour))
  {
    HoursOnly(d);
    ShownValue(d, SecondsPerDay);
    FieldsAddUp(d);
    HoursAsDays(HoursField(d));
  }

  lemma HoursOnly(d: nat)
    requires SecondsPerHour <= d < SecondsPerDay
    ensures DaysField(d) == 0 && 0 < HoursField(d) < 24
  {
    var h := d / SecondsPerHour;
    assert 1 <= h < 24;
  }

  lemma HoursAsDays(h: nat)
    ensures h * SecondsPerDay == h * SecondsPerHour + h * (SecondsPerDay - SecondsPerHour)
  {
  }

  /** Weighed as intended, the shown fields add up to the number below 24 days. */
  lemma ShownAddsUp(d: nat)
    requires d < 24 * SecondsPerDay
    ensures ByPartCount(Shown(d), SecondsPerHour) == Some(d)
  {
    ShownValue(d, SecondsPerHour);
    FieldsAddUp(d);
  }

  /** Below an hour, reading the rendering gives the number back. */
  lemma RoundTripBelowAnHour(d: nat)
    requires d < SecondsPerHour
    ensures IsTimeText(ParsingTimeToString(d))
    ensures ParsingTimeToNumber(ParsingTimeToString(d)) == Some(d)
  {
    ReadShown(d);
    ShownBelowAnHour(d);
  }

  /**
   * From an hour on, the rendering reads back as more than it was: each hour
   * shown comes back as a day. For example, 3600 renders as `01:00:00`, which
   * reads as 86400.
   */
  lemma HoursReadAsDays(d: nat)
    requires SecondsPerHour <= d < SecondsPerDay
    ensures IsTimeText(ParsingTimeToString(d))
    ensures ParsingTimeToNumber(ParsingTimeToString(d)) == Some(d + HoursField(d) * (SecondsPerDay - SecondsPerHour))
    ensures ParsingTimeToNumber(ParsingTimeToString(d)) != Some(d)
  {
    ReadShown(d);
    ShownHoursAsDays(d);
  }

  /** An hour, rendered as `01:00:00` (`RenderedHour`), reads back as a day. */
  lemma HourReadAsDay()
    ensures IsTimeText(ParsingTimeToString(SecondsPerHour))
    ensures ParsingTimeToNumber(ParsingTimeToString(SecondsPerHour)) == Some(SecondsPerDay)
  {
    assert HoursField(SecondsPerHour) == 1;
    HoursReadAsDays(SecondsPerHour);
  }

  /** Read as intended, the rendering of anything below 24 days reads back as it was. */
  lemma RoundTripCorrected(d: nat)
    requires d < 24 * SecondsPerDay
    ensures IsTimeText(ParsingTimeToString(d))
    ensures ParsingTimeToNumberCorrected(ParsingTimeToString(d)) == Some(d)
  {
    ReadShown(d);
    ShownAddsUp(d);
  }
}
