/** Turning an entry's start and end texts ("HH:MM") into the whole hours
    between them.  The calculator parses the two parts by hand so that "24:00"
    is accepted, places both times on one fixed calendar day without
    daylight-saving shifts, and treats an end hour of 24 or more as midnight of
    the next day.  Instants are minutes since midnight of that day. */
module TimeSpan {
  import opened Wrappers

  const MinutesPerHour: nat := 60
  const MinutesPerDay: nat := 1440
  /** Largest value of Rust's `u32`. */
  const U32Max: nat := 0xFFFF_FFFF

  /** Why resolving a start/end pair fails.  The first two are the `expect`
      panics on a missing ':', the third the `?` on a failed `u32` parse, the
      last two the `unwrap` on a clock time that does not exist. */
  datatype TimeError =
    | NoColonInStart
    | NoColonInEnd
    | InvalidNumber
    | InvalidStartTime
    | InvalidEndTime

  /** Start and end instant, in minutes since midnight of the fixed day. */
  datatype Span = Span(start: nat, end: nat)

  // ----- str::split_once -----

  /** Splits `s` at the first occurrence of `sep`; `None` when `sep` does not
      occur. */
  function SplitOnce(s: string, sep: char): (r: Option<(string, string)>)
    ensures r.None? <==> sep !in s
    ensures r.Some? ==> s == r.value.0 + [sep] + r.value.1 && sep !in r.value.0
    decreases |s|
  {
    if s == [] then None
    else if s[0] == sep then Some(([], s[1..]))
    else
      match SplitOnce(s[1..], sep)
      case None => None
      case Some((before, after)) => Some(([s[0]] + before, after))
  }

  /** The split is at the FIRST separator: whatever follows it, separators
      included, ends up in the second part. */
  lemma {:induction false} SplitOnceAt(before: string, after: string, sep: char)
    requires sep !in before
    ensures SplitOnce(before + [sep] + after, sep) == Some((before, after))
    decreases |before|
  {
    var s := before + [sep] + after;
    if before == [] {
      assert s[0] == sep && s[1..] == after;
    } else {
      assert s[0] == before[0] != sep;
      assert s[1..] == before[1..] + [sep] + after;
      SplitOnceAt(before[1..], after, sep);
      assert [before[0]] + before[1..] == before;
    }
  }

  // ----- <u32 as FromStr>::from_str -----

  predicate IsDigit(c: char) {
    '0' <= c <= '9'
  }

  predicate AllDigits(s: string) {
    forall i :: 0 <= i < |s| ==> IsDigit(s[i])
  }

  function DigitValue(c: char): nat
    requires IsDigit(c)
  {
    c as int - '0' as int
  }

  function DigitChar(d: nat): (c: char)
    requires d < 10
    ensures IsDigit(c) && DigitValue(c) == d
  {
    ('0' as int + d) as char
  }

  /** The value of a string of decimal digits, most significant first. */
  function DigitsValue(s: string): nat
    requires AllDigits(s)
    decreases |s|
  {
    if s == [] then 0 else DigitsValue(s[..|s| - 1]) * 10 + DigitValue(s[|s| - 1])
  }

  /** Rust's `str::parse::<u32>()`: an optional leading '+', then at least one
      ASCII digit, and a value that fits in 32 bits.  Anything else (the empty
      string, a sign alone, a '-', any other character, an overflow) fails. */
  function ParseU32(s: string): (r: Option<nat>)
    ensures r.Some? ==> r.value <= U32Max
    ensures s == [] || s == "+" ==> r.None?
    ensures ':' in s ==> r.None?
    ensures (exists i :: 0 <= i < |s| && !IsDigit(s[i]) && !(i == 0 && s[i] == '+')) ==> r.None?
    ensures s != [] && AllDigits(s) ==> r == (if DigitsValue(s) <= U32Max then Some(DigitsValue(s)) else None)
    ensures |s| > 1 && s[0] == '+' && AllDigits(s[1..]) ==>
      r == (if DigitsValue(s[1..]) <= U32Max then Some(DigitsValue(s[1..])) else None)
  {
    var digits := if |s| > 0 && s[0] == '+' then s[1..] else s;
    if digits != [] && AllDigits(digits) && DigitsValue(digits) <= U32Max
    then Some(DigitsValue(digits))
    else None
  }

  /** The shortest decimal text of `n`. */
  function Decimal(n: nat): (s: string)
    ensures s != [] && AllDigits(s) && ':' !in s
    decreases n
  {
    if n < 10 then [DigitChar(n)] else Decimal(n / 10) + [DigitChar(n % 10)]
  }

  lemma {:induction false} DecimalValue(n: nat)
    ensures DigitsValue(Decimal(n)) == n
    decreases n
  {
    if n >= 10 {
      DecimalValue(n / 10);
      var s := Decimal(n);
      assert s[..|s| - 1] == Decimal(n / 10);
    }
  }

  /** Leading zeros do not change the value ("08" is 8). */
  lemma {:induction false} LeadingZero(s: string)
    requires AllDigits(s)
    ensures AllDigits("0" + s) && DigitsValue("0" + s) == DigitsValue(s)
    decreases |s|
  {
    var t := "0" + s;
    if s != [] {
      LeadingZero(s[..|s| - 1]);
      assert t[..|t| - 1] == "0" + s[..|s| - 1];
    }
  }

  /** Parsing undoes printing, for every value a `u32` can hold, with or
      without a leading '+'. */
  lemma ParseDecimal(n: nat)
    requires n <= U32Max
    ensures ParseU32(Decimal(n)) == Some(n)
    ensures ParseU32("+" + Decimal(n)) == Some(n)
  {
    DecimalValue(n);
    assert ("+" + Decimal(n))[1..] == Decimal(n);
  }

  /** Two-digit, zero-padded text of `n` as written in "HH:MM". */
  function Pad2(n: nat): (s: string)
    ensures s != [] && AllDigits(s) && ':' !in s
  {
    if n < 10 then "0" + Decimal(n) else Decimal(n)
  }

  lemma ParsePad2(n: nat)
    requires n <= U32Max
    ensures ParseU32(Pad2(n)) == Some(n)
  {
    DecimalValue(n);
    if n < 10 {
      LeadingZero(Decimal(n));
    }
  }

  /** The text "HH:MM" of hour `h` and minute `m`. */
  function ClockText(h: nat, m: nat): string {
    Pad2(h) + ":" + Pad2(m)
  }

  // ----- NaiveDate::and_hms_opt on the fixed day -----

  /** The instant `hour`:`minute`:00 on the fixed day; `None` when that clock
      time does not exist. */
  function ClockMinutes(hour: nat, minute: nat): (r: Option<nat>)
    ensures r.Some? <==> hour < 24 && minute < 60
    ensures r.Some? ==> r.value < MinutesPerDay
    ensures r.Some? ==> r.value / MinutesPerHour == hour && r.value % MinutesPerHour == minute
  {
    if hour < 24 && minute < 60 then Some(hour * MinutesPerHour + minute) else None
  }

  // ----- resolving an entry's two times -----

  /** The hour and minute parts of a time, both parsed as `u32`. */
  function ParseParts(hour: string, minute: string): (r: Option<(nat, nat)>)
    ensures r.Some? <==> ParseU32(hour).Some? && ParseU32(minute).Some?
    ensures r.Some? ==> r.value == (ParseU32(hour).value, ParseU32(minute).value)
  {
    var h := ParseU32(hour);
    var m := ParseU32(minute);
    if h.Some? && m.Some? then Some((h.value, m.value)) else None
  }

  /** The start and end instant from the parsed numbers: the start must be a
      clock time of the day; an end hour of 24 or more is midnight of the next
      day whatever its minute part, any other end must be a clock time. */
  function Instants(startHour: nat, startMinute: nat, endHour: nat, endMinute: nat): (r: Result<Span, TimeError>)
    ensures r.Success? <==> startHour < 24 && startMinute < 60 && (endHour < 24 ==> endMinute < 60)
    ensures r.Success? ==> r.value.start == startHour * MinutesPerHour + startMinute
    ensures r.Success? && endHour >= 24 ==> r.value.end == MinutesPerDay
    ensures r.Success? && endHour < 24 ==> r.value.end == endHour * MinutesPerHour + endMinute
    ensures r.Failure? ==> r.error == (if startHour < 24 && startMinute < 60 then InvalidEndTime else InvalidStartTime)
  {
    match ClockMinutes(startHour, startMinute)
    case None => Failure(InvalidStartTime)
    case Some(start) =>
      if endHour >= 24 then Success(Span(start, MinutesPerDay))
      else
        match ClockMinutes(endHour, endMinute)
        case None => Failure(InvalidEndTime)
        case Some(end) => Success(Span(start, end))
  }

  /** The start and end instant of an entry, failing exactly where the
      calculator fails, and with the error of the first check that fails, in
      the calculator's order: the ':' of the start, the ':' of the end, the
      four numbers, the start clock time, the end clock time. */
  function Resolve(startText: string, endText: string): (r: Result<Span, TimeError>)
    ensures r.Success? ==> r.value.start < MinutesPerDay && r.value.end <= MinutesPerDay
    ensures ':' !in startText ==> r == Failure(NoColonInStart)
    ensures ':' in startText && ':' !in endText ==> r == Failure(NoColonInEnd)
    ensures var sp := SplitOnce(startText, ':'); var ep := SplitOnce(endText, ':');
      sp.Some? && ep.Some? && (ParseParts(sp.value.0, sp.value.1).None? || ParseParts(ep.value.0, ep.value.1).None?)
      ==> r == Failure(InvalidNumber)
  {
    match SplitOnce(startText, ':')
    case None => Failure(NoColonInStart)
    case Some((startHour, startMinute)) =>
      match SplitOnce(endText, ':')
      case None => Failure(NoColonInEnd)
      case Some((endHour, endMinute)) =>
        var startParts := ParseParts(startHour, startMinute);
        var endParts := ParseParts(endHour, endMinute);
        if startParts.None? || endParts.None? then Failure(InvalidNumber)
        else Instants(startParts.value.0, startParts.value.1, endParts.value.0, endParts.value.1)
  }

  /** Well-formed "HH:MM" texts resolve to the instants they name; an end hour
      of 24 or more resolves to the end of the day, whatever its minutes. */
  lemma ResolveClockTexts(sh: nat, sm: nat, eh: nat, em: nat)
    requires sh < 24 && sm < 60
    requires eh <= U32Max && em <= U32Max
    requires eh < 24 ==> em < 60
    ensures Resolve(ClockText(sh, sm), ClockText(eh, em))
         == Success(Span(sh * MinutesPerHour + sm,
                         if eh >= 24 then MinutesPerDay else eh * MinutesPerHour + em))
  {
    ClockTextParts(sh, sm);
    ClockTextParts(eh, em);
    ResolveFromParts(ClockText(sh, sm), ClockText(eh, em), sh, sm, eh, em);
    ValidInstants(sh, sm, eh, em);
  }

  /** Valid numbers give the instants they name. */
  lemma ValidInstants(sh: nat, sm: nat, eh: nat, em: nat)
    requires sh < 24 && sm < 60
    requires eh < 24 ==> em < 60
    ensures Instants(sh, sm, eh, em)
         == Success(Span(sh * MinutesPerHour + sm,
                         if eh >= 24 then MinutesPerDay else eh * MinutesPerHour + em))
  {
  }

  /** "HH:MM" splits at its ':' into two parts that parse back to the
      numbers. */
  lemma ClockTextParts(h: nat, m: nat)
    requires h <= U32Max && m <= U32Max
    ensures SplitOnce(ClockText(h, m), ':') == Some((Pad2(h), Pad2(m)))
    ensures ParseParts(Pad2(h), Pad2(m)) == Some((h, m))
  {
    SplitOnceAt(Pad2(h), Pad2(m), ':');
    ParsePad2(h);
    ParsePad2(m);
  }

  /** Once both texts split and their parts parse, the span is decided by the
      numbers alone. */
  lemma ResolveFromParts(startText: string, endText: string, sh: nat, sm: nat, eh: nat, em: nat)
    requires var sp := SplitOnce(startText, ':'); sp.Some? && ParseParts(sp.value.0, sp.value.1) == Some((sh, sm))
    requires var ep := SplitOnce(endText, ':'); ep.Some? && ParseParts(ep.value.0, ep.value.1) == Some((eh, em))
    ensures Resolve(startText, endText) == Instants(sh, sm, eh, em)
  {
  }

  /** A time with seconds, "HH:MM:SS", is rejected: the minute part after the
      first ':' still holds a ':' and is not a number. */
  lemma TimeWithSecondsFails(startText: string, hour: string, rest: string, endText: string)
    requires ':' !in hour && ':' in rest
    requires startText == hour + ":" + rest
    requires ':' in endText
    ensures Resolve(startText, endText) == Failure(InvalidNumber)
  {
    SplitOnceAt(hour, rest, ':');
  }

  /** A negative hour is not a `u32`: "-5:00" is rejected, not read as 05:00. */
  lemma NegativeHourFails(endText: string)
    requires ':' in endText
    ensures Resolve("-5:00", endText) == Failure(InvalidNumber)
  {
    assert "-5:00" == "-5" + [':'] + "00";
    SplitOnceAt("-5", "00", ':');
    assert !IsDigit("-5"[0]);
  }

  /** The defaults "00:00" and "24:00" span the whole day. */
  lemma DefaultTimesSpanWholeDay()
    ensures Resolve("00:00", "24:00") == Success(Span(0, MinutesPerDay))
  {
    DefaultTimesParts();
    ResolveFromParts("00:00", "24:00", 0, 0, 24, 0);
    ValidInstants(0, 0, 24, 0);
  }

  lemma DefaultTimesParts()
    ensures SplitOnce("00:00", ':') == Some(("00", "00"))
    ensures SplitOnce("24:00", ':') == Some(("24", "00"))
    ensures ParseParts("00", "00") == Some((0, 0))
    ensures ParseParts("24", "00") == Some((24, 0))
  {
    assert "00:00" == "00" + [':'] + "00";
    assert "24:00" == "24" + [':'] + "00";
    SplitOnceAt("00", "00", ':');
    SplitOnceAt("24", "00", ':');
    ParseDefaultNumbers();
  }

  lemma ParseDefaultNumbers()
    ensures ParseU32("00") == Some(0)
    ensures ParseU32("24") == Some(24)
  {
    assert "0"[..0] == [] && "00"[..1] == "0";
    assert DigitsValue("00") == 0;
    assert "2"[..0] == [] && "24"[..1] == "2";
    assert DigitsValue("24") == 24;
  }

  // ----- (end - start).num_hours().unsigned_abs() -----

  function Abs(x: int): nat {
    if x < 0 then -x else x
  }

  /** Rust's `/` on signed integers: the quotient rounded toward zero. */
  function TruncDiv(a: int, b: nat): (q: int)
    requires b > 0
    ensures Abs(q) * b <= Abs(a) < (Abs(q) + 1) * b
    ensures a >= 0 ==> q >= 0
    ensures a <= 0 ==> q <= 0
  {
    if a >= 0 then DivBounds(a, b); a / b
    else DivBounds(-a, b); -((-a) / b)
  }

  /** The quotient of a natural number brackets it between two multiples. */
  lemma DivBounds(n: nat, b: nat)
    requires b > 0
    ensures (n / b) * b <= n < (n / b) * b + b
  {
    assert n == (n / b) * b + n % b;
  }

  /** Whole hours between the two instants: the signed difference divided
      toward zero, then its magnitude. */
  function WholeHours(span: Span): (hours: nat)
    ensures hours * MinutesPerHour <= Abs(span.end - span.start) < (hours + 1) * MinutesPerHour
  {
    Abs(TruncDiv(span.end - span.start, MinutesPerHour))
  }

  /** The whole hours are the truncated absolute difference. */
  lemma WholeHoursIsAbsDifference(span: Span)
    ensures WholeHours(span) == Abs(span.end - span.start) / MinutesPerHour
  {
    var d := Abs(span.end - span.start);
    var h := WholeHours(span);
    assert h * 60 <= d < h * 60 + 60;
  }

  /** Swapping start and end does not change the whole hours. */
  lemma WholeHoursSymmetric(a: nat, b: nat)
    ensures WholeHours(Span(a, b)) == WholeHours(Span(b, a))
  {
    WholeHoursIsAbsDifference(Span(a, b));
    WholeHoursIsAbsDifference(Span(b, a));
  }

  /** Within one day the span is at most 24 hours, and exactly 24 only from
      midnight to the end of the day. */
  lemma WholeHoursWithinDay(span: Span)
    requires span.start < MinutesPerDay && span.end <= MinutesPerDay
    ensures WholeHours(span) <= 24
    ensures WholeHours(span) == 24 <==> span.start == 0 && span.end == MinutesPerDay
  {
    var h := WholeHours(span);
    var d := Abs(span.end - span.start);
    assert d <= MinutesPerDay;
  }
}
