/**
 * The xsd:duration text of a Go duration (duration.go): an int64 count of nanoseconds is printed, and a text is
 * parsed by two regular expressions, integer fields and one binary64 number of seconds.
 */
module Durations {
  import opened Wrappers
  import opened Decimal
  import opened Binary64
  import opened Powers

  const SECOND := 1_000_000_000
  const MINUTE := 60 * SECOND
  const HOUR := 60 * MINUTE
  const DAY := 24 * HOUR
  const MONTH := 30 * DAY
  const YEAR := 365 * DAY

  const MAX := 0x7FFF_FFFF_FFFF_FFFF
  const MIN := -0x8000_0000_0000_0000

  predicate IsInt64(x: int) {
    MIN <= x <= MAX
  }

  /** Two numbers that have the same lowest 64 bits. */
  predicate SameInt64(a: int, b: int) {
    (a - b) % 18446744073709551616 == 0
  }

  lemma WrapsAround(x: int)
    ensures SameInt64((x - MIN) % 0x1_0000_0000_0000_0000 + MIN, x)
  {
    var n := 18446744073709551616;
    var q := (x - MIN) / n;
    assert (x - MIN) % n + MIN - x == -q * n;
  }

  lemma SameSum(a: int, b: int, c: int, d: int)
    requires SameInt64(a, b) && SameInt64(c, d)
    ensures SameInt64(a + c, b + d) && SameInt64(-a, -b)
  {
    var n := 18446744073709551616;
    var p, q := (a - b) / n, (c - d) / n;
    assert a - b == p * n && c - d == q * n;
    assert (a + c) - (b + d) == (p + q) * n;
    assert -a - -b == (-p) * n;
  }

  lemma SameTwice(a: int, b: int, c: int)
    requires SameInt64(a, b) && SameInt64(b, c)
    ensures SameInt64(a, c)
  {
    SameSum(a, b, b, c);
    assert a + b - (b + c) == a - c;
  }

  /** The int64 that a computation leaves when it overflows. */
  function Wrap(x: int): (w: int)
    ensures IsInt64(w)
    ensures IsInt64(x) ==> w == x
    ensures SameInt64(w, x)
  {
    WrapsAround(x);
    (x - MIN) % 0x1_0000_0000_0000_0000 + MIN
  }

  /** Go's division and remainder, which truncate towards zero. */
  function Quotient(a: int, b: int): int
    requires b > 0
  {
    if a >= 0 then a / b else -(-a / b)
  }

  function Remainder(a: int, b: int): int
    requires b > 0
  {
    a - b * Quotient(a, b)
  }

  // ---- printing ----------------------------------------------------------------------------

  /** A field of the text: absent, or digits and the letter of their unit. */
  function Opt(digits: string, unit: char): string {
    if digits == "" then "" else digits + [unit]
  }

  lemma TimeOnly(sign: string, t: TimeMatch)
    requires TimeText(t) != ""
    ensures DurationText(DurationMatch(sign, "", "", "", TimeText(t))) == sign + "PT" + TimeText(t)
  {
  }

  /** A number is printed if it is positive. */
  function Positive(n: int): (digits: string)
    ensures AllDigits(digits)
  {
    if n > 0 then Digits(n) else ""
  }

  /** The digits after the point for a number of nanoseconds below one second. */
  function Fraction(ns: nat): (digits: string)
    requires ns < SECOND
    ensures AllDigits(digits)
    ensures digits == "" <==> ns == 0
    ensures DecimalValue("", digits) == ns as real / SECOND as real
  {
    FractionValue(ns);
    if ns > 0 then TrimZeros(Fixed(ns, 9)) else ""
  }

  lemma FractionValue(ns: nat)
    requires ns < SECOND
    ensures var digits := TrimZeros(Fixed(ns, 9));
            AllDigits(digits) && (ns > 0 ==> digits != "") && DecimalValue("", digits) == ns as real / SECOND as real
  {
    assert Power10(9) == SECOND;
    ValueFixed(ns, 9);
    TrimKeepsFraction(Fixed(ns, 9));
  }

  /** The text of a duration, None for the nil slice. */
  function Marshalled(d: int): Option<string>
    requires IsInt64(d)
  {
    if d == 0 then None
    else
      var a := if d < 0 then Wrap(-d) else d;
      if a < 0 then Some("-PT")
      else Some(DurationText(DurationMatch(if d < 0 then "-" else "", "", "", "", TimeText(TimeOf(a)))))
  }

  /** Hours, minutes, seconds and nanoseconds of a duration that is not negative. */
  function TimeOf(a: nat): (t: TimeMatch)
    ensures TimeShape(t)
    ensures a > 0 ==> TimeText(t) != ""
  {
    var s, ns := a % MINUTE / SECOND, a % SECOND;
    assert a > 0 && a / HOUR == 0 && a % HOUR / MINUTE == 0 && s == 0 ==> ns > 0;
    TimeMatch(
      Positive(a / HOUR), Positive(a % HOUR / MINUTE), if s > 0 || ns > 0 then Digits(s) else "", Fraction(ns))
  }

  /** The fields that the text of a shows, none for the one int64 that cannot be negated. */
  ghost function Shown(a: int): TimeMatch {
    if a > 0 then TimeOf(a) else TimeMatch("", "", "", "")
  }

  lemma ShownFields(a: int, h: int, m: int, s: int, ns: int)
    requires a > 0 || a == MIN
    requires h == Quotient(a, HOUR) && m == Quotient(Remainder(a, HOUR), MINUTE)
    requires s == Quotient(Remainder(a, MINUTE), SECOND) && ns == Remainder(a, SECOND)
    ensures ns < SECOND && (s > 0 || ns > 0 ==> s >= 0)
    ensures Opt(Shown(a).hours, 'H') == if h > 0 then Digits(h) + "H" else ""
    ensures Opt(Shown(a).minutes, 'M') == if m > 0 then Digits(m) + "M" else ""
    ensures SecondsText(Shown(a)) ==
            if ns > 0 then Digits(s) + TrimZeros("." + Fixed(ns, 9)) + "S" else if s > 0 then Digits(s) + "S" else ""
  {
    Clock(a, h, m, s, ns);
    hide Digits, Fixed, TrimZeros, Quotient, Remainder, SecondsText;
    if a > 0 {
      ShownSeconds(s, ns, TimeOf(a));
    } else {
      assert SecondsText(TimeMatch("", "", "", "")) == "" by {
        NoSeconds();
      }
    }
  }

  lemma NoSeconds()
    ensures SecondsText(TimeMatch("", "", "", "")) == ""
  {
  }

  lemma ShownSeconds(s: nat, ns: nat, t: TimeMatch)
    requires ns < SECOND
    requires t.whole == (if s > 0 || ns > 0 then Digits(s) else "") && t.fraction == Fraction(ns)
    ensures SecondsText(t) ==
            if ns > 0 then Digits(s) + TrimZeros("." + Fixed(ns, 9)) + "S" else if s > 0 then Digits(s) + "S" else ""
  {
    hide Digits, Fixed, TrimZeros;
    TrimAfter('.', Fixed(ns, 9));
    if ns > 0 {
      assert TrimZeros("." + Fixed(ns, 9)) == "." + t.fraction;
    } else {
      assert t.fraction == "";
      assert Digits(s) + "" == Digits(s);
    }
  }

  lemma Clock(a: int, h: int, m: int, s: int, ns: int)
    requires a > 0 || a == MIN
    requires h == Quotient(a, HOUR) && m == Quotient(Remainder(a, HOUR), MINUTE)
    requires s == Quotient(Remainder(a, MINUTE), SECOND) && ns == Remainder(a, SECOND)
    ensures a == MIN ==> h <= 0 && m <= 0 && s <= 0 && ns <= 0
    ensures a > 0 ==> h == a / HOUR && m == a % HOUR / MINUTE && s == a % MINUTE / SECOND && ns == a % SECOND
  {
  }

  method MarshalText(d: int) returns (text: Option<string>)
    requires IsInt64(d)
    ensures text == Marshalled(d)
  {
    hide Quotient, Remainder, Digits, Fixed, TrimZeros, Opt, SecondsText, Wrap, Shown, DurationText, TimeOf, AllDigits;
    if d == 0 {
      return None;
    }
    var out, a := "PT", d;
    if d < 0 {
      a := Wrap(a * -1);
      out := "-" + out;
    }
    ghost var prefix := out;
    MarshalledText(d, a, prefix);
    var h := Quotient(a, HOUR);
    var m := Quotient(Remainder(a, HOUR), MINUTE);
    var s := Quotient(Remainder(a, MINUTE), SECOND);
    var ns := Remainder(a, SECOND);
    ShownFields(a, h, m, s, ns);
    ghost var t := Shown(a);
    ghost var hours, minutes, seconds := Opt(t.hours, 'H'), Opt(t.minutes, 'M'), SecondsText(t);
    if h > 0 {
      Assoc(out, Digits(h), "H");
      out := out + Digits(h) + "H";
    }
    assert out == prefix + hours;
    if m > 0 {
      Assoc(out, Digits(m), "M");
      out := out + Digits(m) + "M";
    }
    ghost var clock := out;
    assert clock == prefix + hours + minutes;
    if s > 0 || ns > 0 {
      out := out + Digits(s);
      if ns > 0 {
        Assoc(clock, Digits(s), TrimZeros("." + Fixed(ns, 9)));
        out := out + TrimZeros("." + Fixed(ns, 9));
      }
      Assoc(clock, if ns > 0 then Digits(s) + TrimZeros("." + Fixed(ns, 9)) else Digits(s), "S");
      out := out + "S";
    }
    assert out == clock + seconds;
    Assoc(prefix + hours, minutes, seconds);
    Assoc(prefix, hours, minutes + seconds);
    text := Some(out);
  }

  lemma Assoc(a: string, b: string, c: string)
    ensures a + b + c == a + (b + c)
  {
  }

  lemma MarshalledText(d: int, a: int, prefix: string)
    requires IsInt64(d) && d != 0 && a == (if d < 0 then Wrap(-d) else d)
    requires prefix == (if d < 0 then "-" else "") + "PT"
    ensures a > 0 || a == MIN
    ensures Marshalled(d) == Some(prefix + TimeText(Shown(a)))
  {
    hide DurationText, TimeOf;
    if a > 0 {
      TimeOnly(if d < 0 then "-" else "", TimeOf(a));
    } else {
      assert a == MIN && prefix == "-PT";
      assert prefix + TimeText(Shown(a)) == "-PT";
    }
  }

  // ---- the two regular expressions ---------------------------------------------------------

  /** The groups of `^(-?)P(?:(\d+)Y)?(?:(\d+)M)?(?:(\d+)D)?(?:T(.+))?$`. */
  datatype DurationMatch = DurationMatch(sign: string, years: string, months: string, days: string, time: string)

  predicate DurationShape(m: DurationMatch) {
    && (m.sign == "" || m.sign == "-")
    && AllDigits(m.years) && AllDigits(m.months) && AllDigits(m.days)
    && '\n' !in m.time
  }

  function DurationText(m: DurationMatch): string {
    m.sign + "P" + FieldsText(m)
  }

  function FieldsText(m: DurationMatch): string {
    Opt(m.years, 'Y') + (Opt(m.months, 'M') + (Opt(m.days, 'D') + (if m.time == "" then "" else "T" + m.time)))
  }

  /** The groups of `^(?:(\d+)H)?(?:(\d+)M)?(?:(\d+(?:\.\d+)?)S)?$`, the last one split at its point. */
  datatype TimeMatch = TimeMatch(hours: string, minutes: string, whole: string, fraction: string)

  predicate TimeShape(t: TimeMatch) {
    && AllDigits(t.hours) && AllDigits(t.minutes) && AllDigits(t.whole) && AllDigits(t.fraction)
    && (t.whole == "" ==> t.fraction == "")
  }

  function SecondsText(t: TimeMatch): string {
    if t.whole == "" then "" else t.whole + (if t.fraction == "" then "" else "." + t.fraction) + "S"
  }

  function TimeText(t: TimeMatch): string {
    Opt(t.hours, 'H') + (Opt(t.minutes, 'M') + SecondsText(t))
  }

  /** How many digits the text starts with. */
  function DigitRun(s: string): (k: nat)
    ensures k <= |s| && AllDigits(s[..k]) && (k < |s| ==> !IsDigit(s[k]))
  {
    if s == "" || !IsDigit(s[0]) then 0 else 1 + DigitRun(s[1..])
  }

  /** One optional field, and the text after it. */
  function Field(s: string, unit: char): (r: (string, string))
    ensures AllDigits(r.0) && s == Opt(r.0, unit) + r.1
  {
    var k := DigitRun(s);
    if 0 < k < |s| && s[k] == unit then (s[..k], s[k + 1..]) else ("", s)
  }

  function MatchDuration(text: string): Option<DurationMatch> {
    if |text| > 0 && text[0] == 'P' then MatchFields("", text[1..])
    else if |text| > 1 && text[..2] == "-P" then MatchFields("-", text[2..])
    else None
  }

  function MatchFields(sign: string, s: string): Option<DurationMatch> {
    var years := Field(s, 'Y');
    var months := Field(years.1, 'M');
    var days := Field(months.1, 'D');
    match MatchTail(days.1)
    case None => None
    case Some(time) => Some(DurationMatch(sign, years.0, months.0, days.0, time))
  }

  /** `(?:T(.+))?$` */
  function MatchTail(s: string): Option<string> {
    if s == "" then Some("")
    else if s[0] == 'T' && |s| > 1 && '\n' !in s[1..] then Some(s[1..])
    else None
  }

  function MatchSeconds(s: string): Option<(string, string)> {
    if s == "" then Some(("", ""))
    else
      var k := DigitRun(s);
      var rest := s[k..];
      if k == 0 || rest == "" then None
      else if rest == "S" then Some((s[..k], ""))
      else if rest[0] != '.' then None
      else
        var j := DigitRun(rest[1..]);
        if j > 0 && rest[1 + j..] == "S" then Some((s[..k], rest[1..1 + j])) else None
  }

  function MatchTime(s: string): Option<TimeMatch> {
    var hours := Field(s, 'H');
    var minutes := Field(hours.1, 'M');
    match MatchSeconds(minutes.1)
    case None => None
    case Some(seconds) => Some(TimeMatch(hours.0, minutes.0, seconds.0, seconds.1))
  }

  /** A field does not start the text, unless it is the field of the unit. */
  predicate NoField(s: string, unit: char) {
    var k := DigitRun(s);
    k == 0 || (k < |s| && s[k] != unit) || k == |s|
  }

  lemma {:induction false} RunOf(digits: string, rest: string)
    requires AllDigits(digits) && (rest != "" ==> !IsDigit(rest[0]))
    ensures DigitRun(digits + rest) == |digits|
  {
    if digits == "" {
      assert digits + rest == rest;
    } else {
      assert (digits + rest)[1..] == digits[1..] + rest;
      RunOf(digits[1..], rest);
    }
  }

  lemma FieldOf(digits: string, unit: char, rest: string)
    requires AllDigits(digits) && !IsDigit(unit) && NoField(rest, unit)
    ensures Field(Opt(digits, unit) + rest, unit) == (digits, rest)
  {
    if digits == "" {
      assert Opt(digits, unit) + rest == rest;
    } else {
      RunOf(digits, [unit] + rest);
      assert Opt(digits, unit) + rest == digits + ([unit] + rest);
    }
  }

  lemma NoFieldBefore(digits: string, other: char, unit: char, rest: string)
    requires AllDigits(digits) && !IsDigit(other) && other != unit && NoField(rest, unit)
    ensures NoField(Opt(digits, other) + rest, unit)
  {
    if digits == "" {
      assert Opt(digits, other) + rest == rest;
    } else {
      RunOf(digits, [other] + rest);
      assert Opt(digits, other) + rest == digits + ([other] + rest);
    }
  }

  /** The deterministic parse is the match of the regular expression: it finds the groups of a text exactly when
      the text is made of these groups. So no text has two matches, and none is missed. */
  lemma DurationRegexp(text: string, m: DurationMatch)
    ensures MatchDuration(text) == Some(m) <==> DurationShape(m) && text == DurationText(m)
  {
    if DurationShape(m) && text == DurationText(m) {
      DurationMatched(m);
    }
    if MatchDuration(text) == Some(m) {
      DurationParsed(text, m);
    }
  }

  lemma DurationMatched(m: DurationMatch)
    requires DurationShape(m)
    ensures MatchDuration(DurationText(m)) == Some(m)
  {
    hide MatchFields, FieldsText, AllDigits, DigitRun, NoField, MatchTail;
    FieldsMatched(m);
    var text, fields := DurationText(m), FieldsText(m);
    if m.sign == "" {
      assert text == ['P'] + fields;
      assert text[1..] == fields;
    } else {
      assert text == ['-', 'P'] + fields;
      assert text[..2] == "-P" && text[2..] == fields;
    }
  }

  lemma FieldsMatched(m: DurationMatch)
    requires DurationShape(m)
    ensures MatchFields(m.sign, FieldsText(m)) == Some(m)
  {
    var tail := if m.time == "" then "" else "T" + m.time;
    assert NoField(tail, 'D') && NoField(tail, 'M') && NoField(tail, 'Y');
    assert MatchTail(tail) == Some(m.time) by {
      assert tail != "" ==> tail[1..] == m.time;
    }
    hide NoField, Opt, Field, MatchTail;
    var afterMonths := Opt(m.days, 'D') + tail;
    var afterYears := Opt(m.months, 'M') + afterMonths;
    FieldOf(m.days, 'D', tail);
    NoFieldBefore(m.days, 'D', 'M', tail);
    FieldOf(m.months, 'M', afterMonths);
    NoFieldBefore(m.days, 'D', 'Y', tail);
    NoFieldBefore(m.months, 'M', 'Y', afterMonths);
    FieldOf(m.years, 'Y', afterYears);
  }

  lemma DurationParsed(text: string, m: DurationMatch)
    requires MatchDuration(text) == Some(m)
    ensures DurationShape(m) && text == DurationText(m)
  {
    hide FieldsText, MatchFields;
    if text[0] == 'P' {
      FieldsParsed("", text[1..], m);
      assert text == "" + "P" + text[1..];
    } else {
      FieldsParsed("-", text[2..], m);
      assert text == text[..2] + text[2..];
      assert "-P" == "-" + "P";
    }
  }

  lemma FieldsParsed(sign: string, s: string, m: DurationMatch)
    requires MatchFields(sign, s) == Some(m)
    ensures m.sign == sign && AllDigits(m.years) && AllDigits(m.months) && AllDigits(m.days) && '\n' !in m.time
    ensures s == FieldsText(m)
  {
    hide Field, Opt;
    var days := Field(Field(Field(s, 'Y').1, 'M').1, 'D');
    assert days.1 == (if m.time == "" then "" else "T" + m.time);
  }

  lemma TimeRegexp(text: string, t: TimeMatch)
    ensures MatchTime(text) == Some(t) <==> TimeShape(t) && text == TimeText(t)
  {
    if TimeShape(t) && text == TimeText(t) {
      TimeMatched(t);
    }
    if MatchTime(text) == Some(t) {
      SecondsParsed(Field(Field(text, 'H').1, 'M').1, t.whole, t.fraction);
    }
  }

  lemma TimeMatched(t: TimeMatch)
    requires TimeShape(t)
    ensures MatchTime(TimeText(t)) == Some(t)
  {
    hide NoField, Opt, Field, MatchSeconds, SecondsText;
    var seconds := SecondsText(t);
    SecondsMatched(t);
    FieldOf(t.minutes, 'M', seconds);
    NoFieldBefore(t.minutes, 'M', 'H', seconds);
    FieldOf(t.hours, 'H', Opt(t.minutes, 'M') + seconds);
  }

  lemma SecondsMatched(t: TimeMatch)
    requires TimeShape(t)
    ensures MatchSeconds(SecondsText(t)) == Some((t.whole, t.fraction))
    ensures NoField(SecondsText(t), 'H') && NoField(SecondsText(t), 'M')
  {
    if t.whole != "" {
      var rest := (if t.fraction == "" then "" else "." + t.fraction) + "S";
      RunOf(t.whole, rest);
      assert SecondsText(t) == t.whole + rest;
      assert (t.whole + rest)[|t.whole|..] == rest;
      if t.fraction != "" {
        FractionMatched(t.fraction);
        hide DigitRun;
        assert rest == "." + t.fraction + "S";
      }
    }
  }

  lemma FractionMatched(fraction: string)
    requires AllDigits(fraction) && fraction != ""
    ensures var rest := "." + fraction + "S";
            rest != "S" && rest[0] == '.' && DigitRun(rest[1..]) == |fraction| && rest[1 + |fraction|..] == "S"
            && rest[1..1 + |fraction|] == fraction
  {
    var rest := "." + fraction + "S";
    RunOf(fraction, "S");
    assert rest[1..] == fraction + "S";
  }

  lemma SecondsParsed(s: string, whole: string, fraction: string)
    requires MatchSeconds(s) == Some((whole, fraction))
    ensures TimeShape(TimeMatch("", "", whole, fraction)) && s == SecondsText(TimeMatch("", "", whole, fraction))
  {
    if s != "" {
      var k := DigitRun(s);
      var rest := s[k..];
      assert s == s[..k] + rest;
      if rest != "S" {
        var j := DigitRun(rest[1..]);
        assert rest[1..][..j] == rest[1..1 + j];
        assert rest == "." + rest[1..1 + j] + "S";
      }
    }
  }

  // ---- parsing -----------------------------------------------------------------------------

  datatype Error = Invalid | BadYears | BadMonths | BadDays | BadHours | BadMinutes | BadSeconds

  /** `strconv.Atoi` on digits, and the product with a unit. An absent field adds nothing. */
  function Times(digits: string, unit: int, error: Error): Result<int, Error>
    requires AllDigits(digits)
  {
    if digits == "" then Ok(0)
    else if Value(digits) > MAX then Err(error)
    else Ok(Wrap(Value(digits) * unit))
  }

  lemma {:induction false} NearestNonNegative(x: real)
    requires x >= 0.0
    ensures Nearest(x) >= 0.0
    decreases x.Floor
  {
    if x < TWO_53 {
      SmallNonNegative(x, 1074);
    } else {
      NearestNonNegative(x / 2.0);
    }
  }

  lemma {:induction false} SmallNonNegative(x: real, doublings: nat)
    requires 0.0 <= x < TWO_53
    ensures Small(x, doublings) >= 0.0
    decreases doublings
  {
    if x < TWO_52 && doublings > 0 {
      SmallNonNegative(2.0 * x, doublings - 1);
    }
  }

  /** `strconv.ParseFloat`: the nearest binary64 number. */
  function ParseFloat(whole: string, fraction: string): (r: Result<real, Error>)
    requires AllDigits(whole) && AllDigits(fraction)
    ensures r.Ok? ==> r.value >= 0.0
  {
    var x := DecimalValue(whole, fraction);
    NearestNonNegative(x);
    if Overflows(Nearest(x)) then Err(BadSeconds) else Ok(Nearest(x))
  }

  /** `time.Duration(s * float64(time.Second))`. What the conversion gives for a product beyond int64 depends
      on the implementation. */
  function ToNanoseconds(s: real, beyond: real -> int): int
    requires s >= 0.0
  {
    var product := Nearest(s * 1000000000.0);
    if product < 9223372036854775808.0 then product.Floor else Wrap(beyond(product))
  }

  function Seconds(whole: string, fraction: string, beyond: real -> int): Result<int, Error>
    requires AllDigits(whole) && AllDigits(fraction)
  {
    if whole == "" then Ok(0)
    else
      var s :- ParseFloat(whole, fraction);
      Ok(ToNanoseconds(s, beyond))
  }

  function DatePart(m: DurationMatch): Result<int, Error>
    requires DurationShape(m)
  {
    var y :- Times(m.years, YEAR, BadYears);
    var mo :- Times(m.months, MONTH, BadMonths);
    var d :- Times(m.days, DAY, BadDays);
    Ok(y + mo + d)
  }

  function TimePart(text: string, beyond: real -> int): Result<int, Error> {
    if text == "" then Ok(0)
    else
      match MatchTime(text)
      case None => Err(Invalid)
      case Some(t) =>
        TimeRegexp(text, t);
        var h :- Times(t.hours, HOUR, BadHours);
        var m :- Times(t.minutes, MINUTE, BadMinutes);
        var s :- Seconds(t.whole, t.fraction, beyond);
        Ok(h + m + s)
  }

  /** The duration that a text denotes. None is the nil slice. */
  function Unmarshalled(text: Option<string>, beyond: real -> int): Result<int, Error> {
    if text.None? then Ok(0)
    else
      match MatchDuration(text.value)
      case None => Err(Invalid)
      case Some(m) =>
        DurationRegexp(text.value, m);
        if m.years + m.months + m.days + m.time == "" then Err(Invalid)
        else
          var date :- DatePart(m);
          var time :- TimePart(m.time, beyond);
          Ok(Wrap((if m.sign == "-" then -1 else 1) * Wrap(date + time)))
  }

  lemma AddWrapped(a: int, b: int)
    ensures Wrap(Wrap(a) + b) == Wrap(a + b)
  {
  }

  /** The sum so far and one more part, or the error of that part. */
  function Plus(out: int, part: Result<int, Error>): Result<int, Error> {
    if part.Err? then part else Ok(Wrap(out + part.value))
  }

  /** A field that is present is added to the sum. */
  method AddField(out: int, digits: string, unit: int, error: Error) returns (r: Result<int, Error>)
    requires AllDigits(digits) && IsInt64(out)
    ensures r == Plus(out, Times(digits, unit, error))
    ensures r.Ok? ==> IsInt64(r.value)
  {
    if digits != "" {
      if Value(digits) > MAX {
        return Err(error);
      }
      return Ok(Wrap(out + Wrap(Value(digits) * unit)));
    }
    return Ok(out);
  }

  method AddDate(out: int, m: DurationMatch) returns (r: Result<int, Error>)
    requires DurationShape(m) && IsInt64(out)
    ensures r == Plus(out, DatePart(m))
    ensures r.Ok? ==> IsInt64(r.value)
  {
    hide Times, Wrap, AllDigits;
    var y :- AddField(out, m.years, YEAR, BadYears);
    var mo :- AddField(y, m.months, MONTH, BadMonths);
    PlusTwice(out, Times(m.years, YEAR, BadYears), Times(m.months, MONTH, BadMonths));
    ghost var sum := Times(m.years, YEAR, BadYears).value + Times(m.months, MONTH, BadMonths).value;
    var d :- AddField(mo, m.days, DAY, BadDays);
    PlusTwice(out, Ok(sum), Times(m.days, DAY, BadDays));
    return Ok(d);
  }

  lemma PlusTwice(out: int, a: Result<int, Error>, b: Result<int, Error>)
    requires a.Ok? && b.Ok?
    ensures Plus(Plus(out, a).value, b) == Plus(out, Ok(a.value + b.value))
  {
    AddWrapped(out + a.value, b.value);
  }

  method AddTime(out: int, text: string, beyond: real -> int) returns (r: Result<int, Error>)
    requires IsInt64(out)
    ensures r == Plus(out, TimePart(text, beyond))
    ensures r.Ok? ==> IsInt64(r.value)
  {
    hide Times, Wrap, ParseFloat, ToNanoseconds, MatchTime, TimeText, AllDigits, DigitRun, Field;
    if text == "" {
      return Ok(out);
    }
    var matched := MatchTime(text);
    if matched == None {
      return Err(Invalid);
    }
    var t := matched.value;
    TimeRegexp(text, t);
    var h :- AddField(out, t.hours, HOUR, BadHours);
    var m :- AddField(h, t.minutes, MINUTE, BadMinutes);
    PlusTwice(out, Times(t.hours, HOUR, BadHours), Times(t.minutes, MINUTE, BadMinutes));
    ghost var sum := Times(t.hours, HOUR, BadHours).value + Times(t.minutes, MINUTE, BadMinutes).value;
    if t.whole == "" {
      return Ok(m);
    }
    var s :- ParseFloat(t.whole, t.fraction);
    AddWrapped(out + sum, ToNanoseconds(s, beyond));
    return Ok(Wrap(m + ToNanoseconds(s, beyond)));
  }

  /** The receiver that `UnmarshalText` writes through. */
  class Duration {
    var nanoseconds: int

    constructor (d: int)
      ensures nanoseconds == d
    {
      nanoseconds := d;
    }

    method UnmarshalText(text: Option<string>, beyond: real -> int) returns (error: Option<Error>)
      modifies this
      ensures var r := Unmarshalled(text, beyond);
              if r.Ok? then error == None && nanoseconds == r.value
              else error == Some(r.error) && nanoseconds == old(nanoseconds)
    {
      hide DatePart, TimePart, Wrap, DurationText, MatchDuration, MatchFields, MatchTail, AllDigits, DigitRun, Field;
      if text == None {
        nanoseconds := 0;
        return None;
      }
      var out, sign := 0, 1;
      var match1 := MatchDuration(text.value);
      if match1 == None {
        return Some(Invalid);
      }
      var m := match1.value;
      DurationRegexp(text.value, m);
      if m.years + m.months + m.days + m.time == "" {
        return Some(Invalid);
      }
      if m.sign == "-" {
        sign := -1;
      }
      var date := AddDate(out, m);
      if date.Err? {
        return Some(date.error);
      }
      var all := AddTime(date.value, m.time, beyond);
      if all.Err? {
        return Some(all.error);
      }
      AddWrapped(DatePart(m).value, TimePart(m.time, beyond).value);
      nanoseconds := Wrap(sign * all.value);
      return None;
    }
  }

  // ---- what the fields mean ----------------------------------------------------------------

  /**
   * A text denotes the int64 that has the lowest 64 bits of the sum of its fields, with its sign: years of 365 days,
   * months of 30 days, days, hours, minutes and the nanoseconds that its seconds come to.
   */
  lemma Denotes(m: DurationMatch, t: TimeMatch, beyond: real -> int)
    requires DurationShape(m) && TimeShape(t) && m.time == TimeText(t) && m.years + m.months + m.days + m.time != ""
    requires Value(m.years) <= MAX && Value(m.months) <= MAX && Value(m.days) <= MAX
    requires Value(t.hours) <= MAX && Value(t.minutes) <= MAX && Seconds(t.whole, t.fraction, beyond).Ok?
    ensures var r := Unmarshalled(Some(DurationText(m)), beyond);
            var all := 31_536_000_000_000_000 * Value(m.years) + 2_592_000_000_000_000 * Value(m.months)
                       + 86_400_000_000_000 * Value(m.days) + 3_600_000_000_000 * Value(t.hours)
                       + 60_000_000_000 * Value(t.minutes) + Seconds(t.whole, t.fraction, beyond).value;
            r.Ok? && IsInt64(r.value) && SameInt64(r.value, if m.sign == "-" then -all else all)
  {
    hide Value, Wrap, DurationText, TimeText, MatchDuration, MatchTime, Seconds, AllDigits, SameInt64;
    DurationRegexp(DurationText(m), m);
    DateSum(m);
    TimeSum(t, beyond);
    var date, time := DatePart(m).value, TimePart(TimeText(t), beyond).value;
    var sum := Wrap(date + time);
    var days := 31_536_000_000_000_000 * Value(m.years) + 2_592_000_000_000_000 * Value(m.months) + 86_400_000_000_000 * Value(m.days);
    var clock := 3_600_000_000_000 * Value(t.hours) + 60_000_000_000 * Value(t.minutes) + Seconds(t.whole, t.fraction, beyond).value;
    SameSum(date, days, time, clock);
    SameTwice(sum, date + time, days + clock);
    SameSum(sum, days + clock, sum, days + clock);
    SameTwice(Wrap(sum), sum, days + clock);
    SameTwice(Wrap(-sum), -sum, -(days + clock));
  }

  /** The same for a text that is spelled out. */
  lemma SpelledDenotes(
      sign: string, y: string, mo: string, d: string, h: string, mi: string, whole: string, fraction: string,
      time: string, text: string, beyond: real -> int)
    requires (sign == "" || sign == "-") && y + mo + d + time != "" && (fraction != "" ==> whole != "")
    requires AllDigits(y) && AllDigits(mo) && AllDigits(d) && AllDigits(h) && AllDigits(mi) && AllDigits(whole) && AllDigits(fraction)
    requires Value(y) <= MAX && Value(mo) <= MAX && Value(d) <= MAX && Value(h) <= MAX && Value(mi) <= MAX
    requires Seconds(whole, fraction, beyond).Ok?
    requires time == (if h == "" then "" else h + "H") + ((if mi == "" then "" else mi + "M")
                     + (if whole == "" then "" else whole + (if fraction == "" then "" else "." + fraction) + "S"))
    requires text == sign + "P" + ((if y == "" then "" else y + "Y") + ((if mo == "" then "" else mo + "M")
                     + ((if d == "" then "" else d + "D") + (if time == "" then "" else "T" + time))))
    ensures var r := Unmarshalled(Some(text), beyond);
            var all := 31_536_000_000_000_000 * Value(y) + 2_592_000_000_000_000 * Value(mo) + 86_400_000_000_000 * Value(d)
                       + 3_600_000_000_000 * Value(h) + 60_000_000_000 * Value(mi) + Seconds(whole, fraction, beyond).value;
            r.Ok? && IsInt64(r.value) && SameInt64(r.value, if sign == "-" then -all else all)
  {
    hide Value, AllDigits, Seconds, Unmarshalled, SameInt64;
    var t := TimeMatch(h, mi, whole, fraction);
    var m := DurationMatch(sign, y, mo, d, time);
    NoNewline(t);
    assert time == TimeText(t) && text == DurationText(m);
    Denotes(m, t, beyond);
  }

  /** A text is accepted if and only if it is made of such fields, not all of them absent, with no number beyond int64. */
  lemma AcceptsExactly(text: string, beyond: real -> int)
    ensures Unmarshalled(Some(text), beyond).Ok? <==>
              exists m, t ::
                && DurationShape(m) && TimeShape(t) && text == DurationText(m) && m.time == TimeText(t)
                && m.years + m.months + m.days + m.time != ""
                && Value(m.years) <= MAX && Value(m.months) <= MAX && Value(m.days) <= MAX
                && Value(t.hours) <= MAX && Value(t.minutes) <= MAX && Seconds(t.whole, t.fraction, beyond).Ok?
  {
    hide Value, Wrap, DurationText, TimeText, MatchDuration, MatchTime, Seconds, AllDigits, DigitRun, Field;
    if m, t :| && DurationShape(m) && TimeShape(t) && text == DurationText(m) && m.time == TimeText(t)
               && m.years + m.months + m.days + m.time != ""
               && Value(m.years) <= MAX && Value(m.months) <= MAX && Value(m.days) <= MAX
               && Value(t.hours) <= MAX && Value(t.minutes) <= MAX && Seconds(t.whole, t.fraction, beyond).Ok? {
      Denotes(m, t, beyond);
    }
    if Unmarshalled(Some(text), beyond).Ok? {
      var m := MatchDuration(text).value;
      DurationRegexp(text, m);
      ValueOfNone();
      var t := if m.time == "" then TimeMatch("", "", "", "") else MatchTime(m.time).value;
      if m.time == "" {
        EmptyTime(beyond);
      } else {
        TimeRegexp(m.time, t);
      }
      assert text == DurationText(m) && m.time == TimeText(t);
    }
  }

  lemma EmptyTime(beyond: real -> int)
    ensures TimeText(TimeMatch("", "", "", "")) == "" && TimeShape(TimeMatch("", "", "", ""))
    ensures Seconds("", "", beyond) == Ok(0)
  {
  }

  lemma TimesIs(digits: string, unit: int, error: Error)
    requires AllDigits(digits) && Value(digits) <= MAX
    ensures Times(digits, unit, error).Ok? && SameInt64(Times(digits, unit, error).value, unit * Value(digits))
  {
    hide Wrap, SameInt64;
    if digits == "" {
      ValueOfNone();
      assert SameInt64(0, 0) by { SameZero(); }
    } else {
      assert Value(digits) * unit == unit * Value(digits);
    }
  }

  lemma SameZero()
    ensures SameInt64(0, 0)
  {
  }

  lemma DateSum(m: DurationMatch)
    requires DurationShape(m) && Value(m.years) <= MAX && Value(m.months) <= MAX && Value(m.days) <= MAX
    ensures DatePart(m).Ok?
    ensures SameInt64(DatePart(m).value,
                      31_536_000_000_000_000 * Value(m.years) + 2_592_000_000_000_000 * Value(m.months)
                      + 86_400_000_000_000 * Value(m.days))
  {
    hide Value, Times, SameInt64, AllDigits;
    TimesIs(m.years, YEAR, BadYears);
    TimesIs(m.months, MONTH, BadMonths);
    TimesIs(m.days, DAY, BadDays);
    var y, mo, d := Times(m.years, YEAR, BadYears).value, Times(m.months, MONTH, BadMonths).value, Times(m.days, DAY, BadDays).value;
    SameSum(y, YEAR * Value(m.years), mo, MONTH * Value(m.months));
    SameSum(y + mo, YEAR * Value(m.years) + MONTH * Value(m.months), d, DAY * Value(m.days));
  }

  lemma TimeSum(t: TimeMatch, beyond: real -> int)
    requires TimeShape(t) && Value(t.hours) <= MAX && Value(t.minutes) <= MAX && Seconds(t.whole, t.fraction, beyond).Ok?
    ensures TimePart(TimeText(t), beyond).Ok?
    ensures SameInt64(TimePart(TimeText(t), beyond).value,
                      3_600_000_000_000 * Value(t.hours) + 60_000_000_000 * Value(t.minutes)
                      + Seconds(t.whole, t.fraction, beyond).value)
  {
    hide Value, Times, Seconds, MatchTime, SameInt64, AllDigits;
    if TimeText(t) == "" {
      NoTime(t, beyond);
      SameZero();
    } else {
      TimeRegexp(TimeText(t), t);
      TimesIs(t.hours, HOUR, BadHours);
      TimesIs(t.minutes, MINUTE, BadMinutes);
      var h, m := Times(t.hours, HOUR, BadHours).value, Times(t.minutes, MINUTE, BadMinutes).value;
      var s := Seconds(t.whole, t.fraction, beyond).value;
      SameSum(h, HOUR * Value(t.hours), m, MINUTE * Value(t.minutes));
      assert SameInt64(s, s) by { SameSelf(s); }
      SameSum(h + m, HOUR * Value(t.hours) + MINUTE * Value(t.minutes), s, s);
    }
  }

  lemma SameSelf(a: int)
    ensures SameInt64(a, a)
  {
  }

  lemma NoTime(t: TimeMatch, beyond: real -> int)
    requires TimeShape(t) && TimeText(t) == ""
    ensures Value(t.hours) == 0 && Value(t.minutes) == 0 && Seconds(t.whole, t.fraction, beyond) == Ok(0)
  {
    assert t.hours == "" && t.minutes == "" && t.whole == "";
  }

  /** Seconds come to the doubled rounding of their decimal value times 10^9, without what is below one nanosecond, if
      that is an int64. */
  lemma SecondsWithin(whole: string, fraction: string, beyond: real -> int)
    requires AllDigits(whole) && AllDigits(fraction) && whole != "" && Seconds(whole, fraction, beyond).Ok?
    ensures var x := Value(whole) as real + Value(fraction) as real / Power10(|fraction|) as real;
            x >= 0.0 && Nearest(x) >= 0.0 && var product := Nearest(Nearest(x) * 1000000000.0);
            var n := Seconds(whole, fraction, beyond).value;
            product < 9223372036854775808.0 ==> n as real <= product && product < n as real + 1.0
  {
    hide Nearest, Value, Power10, AllDigits;
  }

  /** Whole seconds come to their nanoseconds as long as those are below 2^53. */
  lemma WholeSeconds(whole: string, beyond: real -> int)
    requires AllDigits(whole) && Value(whole) <= 9_007_199
    ensures Seconds(whole, "", beyond) == Ok(1_000_000_000 * Value(whole))
  {
    hide Nearest, AllDigits;
    if whole == "" {
      ValueOfNone();
    } else {
      var n := Value(whole);
      ValueOfNone();
      WholeValue(whole);
      hide Value, DecimalValue;
      IntegerExact(n);
      IntegerExact(1_000_000_000 * n);
      assert n as real * 1000000000.0 == (1_000_000_000 * n) as real;
      BelowTop();
    }
  }

  lemma WholeValue(whole: string)
    requires AllDigits(whole)
    ensures DecimalValue(whole, "") == Value(whole) as real
  {
    assert Value("") == 0;
  }

  lemma BelowTop()
    ensures Power2(1024) as real > 9007200.0
  {
    LargePower();
    PowersGrow(82, 1024);
  }

  // ---- the round trip ----------------------------------------------------------------------

  /** The product that the parser computes for n nanoseconds written as a decimal number of seconds. */
  function Product(n: nat): (product: real)
    ensures product >= 0.0
  {
    hide Nearest;
    NearestNonNegative(n as real / 1000000000.0);
    NearestNonNegative(Nearest(n as real / 1000000000.0) * 1000000000.0);
    Nearest(Nearest(n as real / 1000000000.0) * 1000000000.0)
  }

  /** One 512th of a second. Its multiples, whole seconds among them, are exact binary fractions. */
  const STEP := 1_953_125

  /** Rounding never takes the product as far as a neighbouring integer, and it is exact for the multiples of one
      512th of a second. */
  lemma ProductBounds(n: nat)
    requires n < MINUTE
    ensures n as real - 1.0 < Product(n) < n as real + 1.0
    ensures n % STEP == 0 ==> Product(n) == n as real
  {
    hide Nearest, Power2;
    var v := n as real / 1000000000.0;
    if n % STEP == 0 {
      var m := n / STEP;
      assert v * 512.0 == m as real;
      Scale512();
      DyadicExact(v, m, 9);
      IntegerExact(n);
      assert v * 1000000000.0 == n as real;
    } else {
      RelativeError(v);
      RelativeError(Nearest(v) * 1000000000.0);
    }
  }

  lemma Scale512()
    ensures Power2(9) == 512
  {
  }

  lemma SecondsParse(s: nat, ns: nat, beyond: real -> int)
    requires s < 60 && ns < SECOND
    ensures var n := s * SECOND + ns;
            Seconds(Digits(s), Fraction(ns), beyond) == Ok(if n as real <= Product(n) then n else n - 1)
  {
    hide DecimalValue, Product, ToNanoseconds, AllDigits, Digits, Fraction, Nearest, Overflows;
    var n := s * SECOND + ns;
    DecimalSeconds(s, ns);
    Representable(n);
    ProductFloor(n, beyond);
  }

  lemma ProductFloor(n: nat, beyond: real -> int)
    requires n < MINUTE && Nearest(n as real / 1000000000.0) >= 0.0
    ensures ToNanoseconds(Nearest(n as real / 1000000000.0), beyond) == if n as real <= Product(n) then n else n - 1
  {
    ProductBounds(n);
    hide Nearest;
  }

  lemma DecimalSeconds(s: nat, ns: nat)
    requires ns < SECOND
    ensures DecimalValue(Digits(s), Fraction(ns)) == (s * SECOND + ns) as real / 1000000000.0
  {
    ValueDigits(s);
    hide Digits, Fraction;
    assert Value("") == 0;
  }

  lemma Representable(n: nat)
    requires n < MINUTE
    ensures var s := Nearest(n as real / 1000000000.0);
            s >= 0.0 && !Overflows(s)
  {
    hide Nearest, Power2;
    var v := n as real / 1000000000.0;
    if n == 0 {
      IntegerExact(0);
    } else {
      RelativeError(v);
    }
    assert Nearest(v) < 64.0;
    BelowOverflow();
  }

  lemma TimesPositive(n: nat, unit: int, error: Error)
    requires 0 < unit && n * unit <= MAX
    ensures Times(Positive(n), unit, error) == Ok(n * unit)
  {
    hide Digits, Value, Wrap, AllDigits;
    ValueDigits(n);
    AtLeast(n, unit);
    ValueOfNone();
  }

  lemma AtLeast(n: nat, unit: int)
    requires 0 < unit
    ensures n <= n * unit
  {
    assert n * unit == n + n * (unit - 1);
  }

  lemma ValueOfNone()
    ensures Value("") == 0
  {
  }

  /** The time part of a printed duration, parsed again: the seconds may lose one nanosecond. */
  lemma TimeParse(a: nat, beyond: real -> int)
    requires 0 < a <= MAX
    ensures var n := a % MINUTE;
            TimePart(TimeText(TimeOf(a)), beyond) == Ok(if n as real <= Product(n) then a else a - 1)
  {
    hide TimeText, MatchTime, Times, Product, Digits, Fraction, Positive, Seconds, AllDigits, DigitRun, Field;
    var t, n := TimeOf(a), a % MINUTE;
    TimeRegexp(TimeText(t), t);
    var h, m, s, ns := a / HOUR, a % HOUR / MINUTE, n / SECOND, a % SECOND;
    ClockSum(a);
    TimesPositive(h, HOUR, BadHours);
    TimesPositive(m, MINUTE, BadMinutes);
    if n > 0 {
      SecondsParse(s, ns, beyond);
    } else {
      ProductBounds(0);
      NoSecondsParse(beyond);
    }
  }

  lemma ClockSum(a: nat)
    ensures a / HOUR * HOUR + a % HOUR / MINUTE * MINUTE + a % MINUTE == a
    ensures a % MINUTE == a % MINUTE / SECOND * SECOND + a % SECOND && a % MINUTE / SECOND < 60
  {
    var h, x := a / HOUR, a % HOUR;
    var m, y := x / MINUTE, x % MINUTE;
    var s, z := y / SECOND, y % SECOND;
    assert a == h * HOUR + x && x == m * MINUTE + y && y == s * SECOND + z && s < 60;
    InMinute(60 * h + m, y, a);
    InSecond(3600 * h + 60 * m + s, z, a);
  }

  lemma InMinute(q: nat, r: nat, a: nat)
    requires r < MINUTE && a == q * MINUTE + r
    ensures a % MINUTE == r
  {
  }

  lemma InSecond(q: nat, r: nat, a: nat)
    requires r < SECOND && a == q * SECOND + r
    ensures a % SECOND == r
  {
  }

  lemma NoSecondsParse(beyond: real -> int)
    ensures Seconds("", "", beyond) == Ok(0)
  {
  }

  /** What is printed has no newline, which the first regular expression would refuse. */
  lemma NoNewline(t: TimeMatch)
    requires TimeShape(t)
    ensures '\n' !in TimeText(t)
  {
    assert '\n' !in Opt(t.hours, 'H') && '\n' !in Opt(t.minutes, 'M') && '\n' !in SecondsText(t);
  }

  /** What a printed duration denotes. One int64 has no text of its own: "-PT" is refused. */
  lemma UnmarshalMarshalled(d: int, beyond: real -> int)
    requires IsInt64(d)
    ensures d == MIN ==> Unmarshalled(Marshalled(d), beyond) == Err(Invalid)
    ensures d != MIN ==>
              var a := if d < 0 then -d else d;
              var n := a % MINUTE;
              var b := if n as real <= Product(n) then a else a - 1;
              Unmarshalled(Marshalled(d), beyond) == Ok(if d < 0 then -b else b)
  {
    hide Product, TimeOf, TimePart, DurationText, TimeText, MatchDuration;
    if d == 0 {
      ProductBounds(0);
    } else if d == MIN {
      OnlyPrefix();
    } else {
      var a := if d < 0 then -d else d;
      var m := DurationMatch(if d < 0 then "-" else "", "", "", "", TimeText(TimeOf(a)));
      NoNewline(TimeOf(a));
      DurationRegexp(DurationText(m), m);
      TimeParse(a, beyond);
    }
  }

  lemma OnlyPrefix()
    ensures MatchDuration("-PT") == None
  {
    assert "-PT"[..2] == "-P" && "-PT"[2..] == "T";
    assert Field("T", 'Y') == ("", "T") && Field("T", 'M') == ("", "T") && Field("T", 'D') == ("", "T");
  }

  /** The powers of two that the next two computations scale with. */
  lemma Scales()
    ensures Power2(23) == 8388608 && Power2(52) == 4503599627370496 && Power2(82) == 4835703278458516698824704
  {
    LargePower();
    SmallPower();
    hide Power2;
    PowerDouble(13, 8192);
    PowerDouble(26, 67108864);
    Power2Sum(13, 10);
  }

  lemma SmallPower()
    ensures Power2(10) == 1024 && Power2(13) == 8192
  {
  }

  lemma OneNanosecond()
    ensures Product(1) == 1.0
  {
    Scales();
    hide Power2, Nearest;
    var p := 4835703278458516698824704.0;
    NearestAt(1.0 / 1000000000.0, 82, p, p / 1000000000.0, 4835703278458517);
    var s := 4835703278458517.0 / p;
    NearestAt(s * 1000000000.0, 52, 4503599627370496.0, s * 1000000000.0 * 4503599627370496.0, 4503599627370496);
  }

  /** One duration that loses a nanosecond: "PT1.001S" is read as 1.000999999 seconds. */
  lemma LosesOne(beyond: real -> int)
    ensures Marshalled(1_001_000_000) == Some("PT1.001S")
    ensures Unmarshalled(Some("PT1.001S"), beyond) == Ok(1_000_999_999)
  {
    hide Product, Marshalled, Unmarshalled;
    LosesOneText();
    LosesOneProduct();
    UnmarshalMarshalled(1_001_000_000, beyond);
  }

  lemma LosesOneProduct()
    ensures Product(1_001_000_000) < 1001000000.0
  {
    Scales();
    hide Power2, Nearest;
    var p := 4503599627370496.0;
    NearestAt(1001000000.0 / 1000000000.0, 52, p, 1.001 * p, 4508103226997866);
    var s := 4508103226997866.0 / p;
    NearestAt(s * 1000000000.0, 23, 8388608.0, s * 1000000000.0 * 8388608.0, 8396996607999999);
  }

  lemma LosesOneText()
    ensures Marshalled(1_001_000_000) == Some("PT1.001S")
  {
    hide Digits, Fixed, TrimZeros, TimeText, DurationText, AllDigits, DecimalValue;
    Trimmed();
    OneDigit();
    var t := TimeOf(1_001_000_000);
    assert t == TimeMatch("", "", "1", "001");
    OneSecondText();
    TimeOnly("", t);
    assert "" + "PT" + "1.001S" == "PT1.001S";
  }

  lemma OneDigit()
    ensures Digits(1) == "1"
  {
  }

  lemma OneSecondText()
    ensures TimeText(TimeMatch("", "", "1", "001")) == "1.001S"
  {
  }

  lemma Trimmed()
    ensures TrimZeros(Fixed(1_000_000, 9)) == "001"
  {
    FixedOne();
    hide Fixed, TrimZeros;
    TrimTen(1, 3);
    TrimTen(10, 4);
    TrimTen(100, 5);
    TrimTen(1000, 6);
    TrimTen(10000, 7);
    TrimTen(100000, 8);
  }

  lemma FixedOne()
    ensures TrimZeros(Fixed(1, 3)) == "001"
  {
    assert Fixed(0, 1) == "0" && Fixed(0, 2) == "00" && Fixed(1, 3) == "001";
  }

  lemma TrimTen(n: nat, width: nat)
    ensures TrimZeros(Fixed(10 * n, width + 1)) == TrimZeros(Fixed(n, width))
  {
    var t := Fixed(10 * n, width + 1);
    assert Digit(0) == '0';
    assert t == Fixed(n, width) + ['0'];
    hide Fixed;
    assert t[..width] == Fixed(n, width);
  }

  // ---- when a nanosecond is lost ----------------------------------------------------------

  const LEAST_SIGNIFICAND := 4503599627370496
  const GREATEST_SIGNIFICAND := 9007199254740992

  /** How often n is doubled until it reaches the bound. */
  function Doublings(n: nat, bound: nat): (k: nat)
    requires n > 0
    ensures bound <= n * Power2(k)
    ensures k > 0 ==> n * Power2(k - 1) < bound
    decreases bound - n
  {
    if n >= bound then 0
    else
      var k := Doublings(2 * n, bound);
      MoreDoublings(n, k);
      k + 1
  }

  lemma MoreDoublings(n: nat, k: nat)
    ensures 2 * n * Power2(k) == n * Power2(k + 1)
    ensures k > 0 ==> 2 * n * Power2(k - 1) == n * Power2(k)
  {
    if k > 0 {
      assert Power2(k) == 2 * Power2(k - 1);
    }
  }

  /**
   * In integers: whether the last nanosecond of n is lost. The seconds n / 10^9 have a double with the unit 2^-e, and
   * r / 10^9 of such a unit is cut off if that is less than half of one. Seen from n nanoseconds, that is r / 2^e of
   * one, and it is lost if that is more than half of 2^-k, the spacing of the doubles below n.
   */
  predicate Loses(n: nat) {
    && n > 0
    && var e, k := Doublings(n, LEAST_SIGNIFICAND * SECOND), Doublings(n, LEAST_SIGNIFICAND + 1);
    && var r := n * Power2(e) % SECOND;
    && 2 * r < SECOND && 2 * (r * Power2(k)) > Power2(e)
  }

  lemma {:induction false} PowersGrow(a: nat, b: nat)
    requires a <= b
    ensures Power2(a) <= Power2(b)
  {
    Power2Sum(a, b - a);
    AtLeast(Power2(a), Power2(b - a));
  }

  /** Both numbers of doublings are well within those that a double allows. */
  lemma FewDoublings(n: nat, bound: nat)
    requires 0 < n <= bound <= LEAST_SIGNIFICAND * SECOND
    ensures Doublings(n, bound) <= 1074
  {
    var k := Doublings(n, bound);
    if k > 1074 {
      LargePower();
      PowersGrow(82, k - 1);
      AtLeast(Power2(k - 1), n);
      assert false;
    }
  }

  /** How far two integers, that are doubled, can be apart. */
  lemma SmallShare(c: nat, n: nat, p: nat, q: nat)
    requires 0 < p && 0 < q && 2 * c < SECOND && LEAST_SIGNIFICAND * SECOND <= n * p && n * q <= GREATEST_SIGNIFICAND
    ensures c * q < p
  {
    var a, b := 2 * c * LEAST_SIGNIFICAND, n * p;
    assert a < b;
    assert a * q < b * q by { Larger(a, b, q); }
    assert b * q == (n * q) * p;
    assert (n * q) * p <= GREATEST_SIGNIFICAND * p by { LargerOrSame(n * q, GREATEST_SIGNIFICAND, p); }
    assert a * q == GREATEST_SIGNIFICAND * (c * q);
    assert GREATEST_SIGNIFICAND * (c * q) < GREATEST_SIGNIFICAND * p;
  }

  lemma Larger(a: int, b: int, q: nat)
    requires a < b && 0 < q
    ensures a * q < b * q
  {
  }

  lemma LargerOrSame(a: int, b: int, q: nat)
    requires a <= b
    ensures a * q <= b * q
  {
  }

  /** The double of n / 10^9 seconds, from the remainder that its unit leaves. No remainder is half a unit. */
  lemma SecondsRounded(n: nat, e: nat) returns (m: nat, over: int)
    requires 0 < n < MINUTE && e == Doublings(n, LEAST_SIGNIFICAND * SECOND)
    ensures Nearest(n as real / 1000000000.0) == m as real / Power2(e) as real
    ensures m * SECOND == n * Power2(e) + over && -SECOND < 2 * over < SECOND
    ensures var r := n * Power2(e) % SECOND; if 2 * r < SECOND then over == -r else over > 0
  {
    hide Nearest, Power2, Doublings;
    var p := Power2(e);
    var x := n as real / 1000000000.0;
    FewDoublings(n, LEAST_SIGNIFICAND * SECOND);
    EnoughDoublings(n, e);
    NotHalf(n, e);
    var all := n * p;
    m, over := Remaining(all);
    RealProduct(n, p);
    NearestAt(x, e, p as real, all as real / 1000000000.0, m);
  }

  lemma Remaining(all: nat) returns (m: nat, over: int)
    requires 2 * (all % SECOND) != SECOND
    ensures m * SECOND == all + over && -SECOND < 2 * over < SECOND
    ensures if 2 * (all % SECOND) < SECOND then over == -(all % SECOND) else over > 0
    ensures -0.5 < all as real / 1000000000.0 - m as real < 0.5
  {
    var q, r := all / SECOND, all % SECOND;
    assert all == q * SECOND + r;
    if 2 * r < SECOND {
      m, over := q, -r;
    } else {
      m, over := q + 1, SECOND - r;
    }
    assert all as real == m as real * 1000000000.0 - over as real;
  }

  lemma RealProduct(n: nat, p: nat)
    ensures (n * p) as real == n as real * p as real
    ensures n as real / 1000000000.0 * p as real == (n * p) as real / 1000000000.0
  {
  }

  lemma EnoughDoublings(n: nat, e: nat)
    requires 0 < n < MINUTE && e == Doublings(n, LEAST_SIGNIFICAND * SECOND)
    ensures LEAST_SIGNIFICAND * SECOND <= n * Power2(e) < GREATEST_SIGNIFICAND * SECOND && e >= 9
  {
    hide Power2, Doublings;
    if e < 9 {
      TooFew(n, e);
      assert false;
    }
    MoreDoublings(n, e - 1);
  }

  lemma TooFew(n: nat, e: nat)
    requires n < MINUTE && e < 9
    ensures n * Power2(e) <= 512 * MINUTE
  {
    PowersGrow(e, 9);
    Scale512();
    hide Power2;
    LargerOrSame(n, MINUTE, Power2(e));
    assert MINUTE * Power2(e) <= MINUTE * 512;
  }

  lemma NotHalf(n: nat, e: nat)
    requires e >= 9
    ensures 2 * (n * Power2(e) % SECOND) != SECOND
  {
    SplitPower(n, e);
    hide Power2;
    OddPart(n * Power2(e - 9));
  }

  lemma SplitPower(n: nat, e: nat)
    requires e >= 9
    ensures n * Power2(e) == 512 * (n * Power2(e - 9))
  {
    Power2Sum(9, e - 9);
    Scale512();
    hide Power2;
    var p := Power2(e - 9);
    assert Power2(e) == 512 * p;
    assert n * (512 * p) == 512 * (n * p);
  }

  lemma OddPart(w: nat)
    ensures 2 * (512 * w % SECOND) != SECOND
  {
    var q, r := 512 * w / SECOND, 512 * w % SECOND;
    assert 512 * w == q * SECOND + r;
    assert 2 * r == SECOND ==> 2 * w == 2 * (q * STEP + 976562) + 1;
  }

  /** Just below an even integer, rounding to an integer stays there up to half. */
  lemma RoundsBelow(big: int, t: real)
    requires big % 2 == 0 && 0.0 <= t < 1.0
    ensures NearestInteger(big as real - t) < big <==> t > 0.5
  {
  }

  lemma RoundsAbove(big: int, t: real)
    requires 0.0 <= t
    ensures NearestInteger(big as real + t) >= big
  {
  }

  /** The product of a double of seconds and 10^9, before it is rounded, times a power of two. */
  lemma ScaledProduct(n: nat, p: nat, q: nat, m: nat, over: int)
    requires p > 0 && m * SECOND == n * p + over
    ensures m as real / p as real * 1000000000.0 * q as real == (n * q) as real + (over * q) as real / p as real
  {
    var s := m as real / p as real;
    assert s * p as real == m as real;
    assert s * 1000000000.0 * p as real == (m * SECOND) as real;
    RealProduct(n, p);
    RealProduct(n, q);
    var d := over as real / p as real;
    assert d * p as real == over as real;
    Cancel(s * 1000000000.0, n as real + d, p as real);
    SplitProduct(n as real, d, q as real);
    QuotientProduct(over, q, p);
  }

  lemma Cancel(a: real, b: real, p: real)
    requires p > 0.0 && a * p == b * p
    ensures a == b
  {
  }

  lemma SplitProduct(a: real, b: real, c: real)
    ensures (a + b) * c == a * c + b * c
  {
  }

  lemma QuotientProduct(a: int, b: nat, p: nat)
    requires p > 0
    ensures a as real / p as real * b as real == (a * b) as real / p as real
  {
    assert (a * b) as real == a as real * b as real;
  }

  /** Without a remainder, or with one that is rounded up, nothing is lost. */
  lemma NothingLost(n: nat, m: nat, p: nat, over: nat)
    requires 0 < n < MINUTE && p > 0 && m * SECOND == n * p + over && 2 * over < SECOND
    requires LEAST_SIGNIFICAND * SECOND <= n * p
    ensures n as real <= Nearest(m as real / p as real * 1000000000.0)
  {
    hide Power2, Nearest, Doublings, NearestInteger;
    var k := Doublings(n, LEAST_SIGNIFICAND);
    var q := Power2(k);
    FewDoublings(n, LEAST_SIGNIFICAND);
    BelowGreatest(n, LEAST_SIGNIFICAND);
    SmallShare(over, n, p, q);
    SmallShare(over, n, p, 1);
    var x, big, t := Scaled(n, m, p, over, q);
    RoundsAbove(big, t);
    InRange(big, t);
    NearestScaled(x, k, q, big, t, n);
  }

  /** Cut off, a remainder is lost if it shows in the spacing of the doubles below n. */
  lemma CutOff(n: nat, m: nat, p: nat, r: nat)
    requires 0 < n < MINUTE && p > 0 && m * SECOND == n * p - r && 0 < 2 * r < SECOND
    requires LEAST_SIGNIFICAND * SECOND <= n * p
    ensures var q := Power2(Doublings(n, LEAST_SIGNIFICAND + 1));
            Nearest(m as real / p as real * 1000000000.0) < n as real <==> 2 * (r * q) > p
  {
    hide Power2, Nearest, Doublings, NearestInteger;
    var k := Doublings(n, LEAST_SIGNIFICAND + 1);
    var q := Power2(k);
    FewDoublings(n, LEAST_SIGNIFICAND + 1);
    BelowGreatest(n, LEAST_SIGNIFICAND + 1);
    EvenPower(k, n);
    SmallShare(r, n, p, q);
    SmallShare(r, n, p, 1);
    var x, big, t := ScaledDown(n, m, p, r, q);
    RoundsBelow(big, t);
    InRange(big - 1, 1.0 - t);
    NearestScaled(x, k, q, big, -t, n);
  }

  /** The product before it is rounded, scaled: an integer and a share of one. */
  lemma Scaled(n: nat, m: nat, p: nat, over: nat, q: nat) returns (x: real, big: int, t: real)
    requires 0 < n < MINUTE && p > 0 && m * SECOND == n * p + over && over < p && over * q < p
    ensures x == m as real / p as real * 1000000000.0 && 0.0 <= x < TWO_52
    ensures big == n * q && x * q as real == big as real + t && 0.0 <= t < 1.0
  {
    NearInteger(n, m, p, q, over);
    Share(over * q, p);
    x, big, t := m as real / p as real * 1000000000.0, n * q, (over * q) as real / p as real;
  }

  lemma ScaledDown(n: nat, m: nat, p: nat, r: nat, q: nat) returns (x: real, big: int, t: real)
    requires 0 < n < MINUTE && p > 0 && m * SECOND == n * p - r && 0 < r < p && q > 0 && r * q < p
    ensures x == m as real / p as real * 1000000000.0 && 0.0 <= x < TWO_52
    ensures big == n * q && x * q as real == big as real - t && 0.0 < t < 1.0
    ensures t > 0.5 <==> 2 * (r * q) > p
  {
    var minus: int := -(r as int);
    NearInteger(n, m, p, q, minus);
    Opposite(r, q, p);
    PositiveProduct(r, q);
    Share(r * q, p);
    x, big, t := m as real / p as real * 1000000000.0, n * q, (r * q) as real / p as real;
  }

  lemma PositiveProduct(r: nat, q: nat)
    requires r > 0 && q > 0
    ensures r * q > 0
  {
  }

  lemma InRange(big: int, t: real)
    requires LEAST_SIGNIFICAND <= big <= GREATEST_SIGNIFICAND - 1 && 0.0 <= t < 1.0
    ensures TWO_52 <= big as real + t < TWO_53
  {
  }

  lemma BelowGreatest(n: nat, bound: nat)
    requires 0 < n < MINUTE && LEAST_SIGNIFICAND <= bound <= LEAST_SIGNIFICAND + 1
    ensures var k := Doublings(n, bound);
            k > 0 && bound <= n * Power2(k) <= 2 * (bound - 1)
  {
    hide Power2;
    var k := Doublings(n, bound);
    if k > 0 { MoreDoublings(n, k - 1); } else { NoDoubling(n); }
  }

  lemma NoDoubling(n: nat)
    ensures n * Power2(0) == n
  {
  }

  /** The product before it is rounded, which is near n, and the same scaled. */
  lemma NearInteger(n: nat, m: nat, p: nat, q: nat, over: int)
    requires 0 < n < MINUTE && p > 0 && m * SECOND == n * p + over && 0 <= over + p && over <= p
    ensures var x := m as real / p as real * 1000000000.0;
            0.0 <= x < TWO_52 && x * q as real == (n * q) as real + (over * q) as real / p as real
  {
    ScaledProduct(n, p, q, m, over);
    ScaledProduct(n, p, 1, m, over);
    var d := over as real / p as real;
    assert d * p as real == over as real;
    Order(-1.0, d, p as real);
    Order(d, 1.0, p as real);
  }

  lemma NearestScaled(x: real, k: nat, q: nat, big: int, t: real, n: nat)
    requires 0.0 <= x < TWO_52 && k <= 1074 && q == Power2(k) && x * q as real == big as real + t && big == n * q
    requires TWO_52 <= big as real + t < TWO_53
    ensures Nearest(x) < n as real <==> NearestInteger(big as real + t) < big
  {
    hide Power2, Small, NearestInteger;
    SmallAt(x, 1074, k, big as real + t);
    ScaledBack(n, q, NearestInteger(big as real + t));
  }

  lemma Order(a: real, b: real, p: real)
    requires p > 0.0
    ensures a < b <==> a * p < b * p
  {
  }

  lemma Share(c: nat, p: nat)
    requires p > 0
    ensures 0.0 <= c as real / p as real && (c > 0 ==> 0.0 < c as real / p as real)
    ensures c < p ==> c as real / p as real < 1.0
    ensures 2 * c > p <==> c as real / p as real > 0.5
  {
    CompareQuotient(c as real, p as real, 0.0);
    CompareQuotient(c as real, p as real, 0.5);
    CompareQuotient(c as real, p as real, 1.0);
  }

  lemma CompareQuotient(c: real, p: real, a: real)
    requires p > 0.0
    ensures a < c / p <==> a * p < c
    ensures c / p < a <==> c < a * p
  {
    var d := c / p;
    assert d * p == c;
    Order(a, d, p);
    Order(d, a, p);
  }

  lemma Opposite(r: nat, q: nat, p: nat)
    requires p > 0
    ensures var minus: int := -(r as int);
            (minus * q) as real / p as real == -((r * q) as real / p as real)
  {
    var minus: int := -(r as int);
    assert minus * q == -1 * (r * q);
    Negated(r * q, p as real);
  }

  lemma Negated(c: int, p: real)
    requires p > 0.0
    ensures (-1 * c) as real / p == -(c as real / p)
  {
  }

  lemma EvenPower(k: nat, n: nat)
    requires k > 0
    ensures n * Power2(k) % 2 == 0
  {
    MoreDoublings(n, k - 1);
    hide Power2;
    EvenProduct(n, Power2(k - 1));
  }

  lemma EvenProduct(n: nat, p: nat)
    ensures 2 * n * p % 2 == 0
  {
    assert 2 * n * p == 2 * (n * p);
  }

  lemma ScaledBack(n: nat, q: nat, i: int)
    requires q > 0
    ensures i as real / q as real < n as real <==> i < n * q
  {
    var d := i as real / q as real;
    assert d * q as real == i as real;
    RealProduct(n, q);
  }

  /** The rounded product falls short exactly when the integers say so. */
  lemma ShortWhenLost(n: nat)
    requires n < MINUTE
    ensures Product(n) < n as real <==> Loses(n)
  {
    hide Nearest, Power2, Doublings;
    if n == 0 {
      ProductBounds(0);
    } else {
      var e := Doublings(n, LEAST_SIGNIFICAND * SECOND);
      var p := Power2(e);
      EnoughDoublings(n, e);
      var m, over := SecondsRounded(n, e);
      if over >= 0 {
        NothingLost(n, m, p, over);
      } else {
        CutOff(n, m, p, -over);
      }
    }
  }

  /**
   * Print and parse: every duration but the smallest int64 comes back with its sign. Its magnitude is the same,
   * always so for multiples of one 512th of a second and hence for whole seconds, or one nanosecond less, and it is
   * less exactly when the nanoseconds within the minute lose one.
   */
  lemma RoundTrip(d: int, beyond: real -> int)
    requires IsInt64(d)
    ensures var back, a := Unmarshalled(Marshalled(d), beyond), if d < 0 then -d else d;
            && (back.Err? <==> d == MIN)
            && (back == Ok(d) <==> d != MIN && !Loses(a % MINUTE))
            && (d != MIN && d % SECOND == 0 ==> back == Ok(d))
            && (d != MIN && d % STEP == 0 ==> back == Ok(d))
            && (d != MIN && back != Ok(d) ==> back == Ok(if d < 0 then d + 1 else d - 1))
            && (d > 0 && back.Ok? ==> back.value > 0)
            && (d < 0 && back.Ok? ==> back.value < 0)
  {
    hide Product, Marshalled, Unmarshalled, Loses;
    UnmarshalMarshalled(d, beyond);
    var a: nat := if d < 0 then -d else d;
    WithinMinute(a);
    ShortWhenLost(a % MINUTE);
    SecondsAreSteps(d);
    if d % STEP == 0 {
      WholeSteps(d, a);
      ProductBounds(a % MINUTE);
    }
    OneNanosecond();
  }

  lemma WithinMinute(a: nat)
    ensures 0 <= a % MINUTE < MINUTE && (a == 1 ==> a % MINUTE == 1)
  {
  }

  /** Whole seconds are among the multiples of one 512th of a second. */
  lemma SecondsAreSteps(d: int)
    ensures d % SECOND == 0 ==> d % STEP == 0
  {
    var q := d / SECOND;
    if d % SECOND == 0 {
      assert d == STEP * (512 * q);
      MultipleOfStep(512 * q);
    }
  }

  lemma MultipleOfStep(q: int)
    ensures STEP * q % STEP == 0
  {
  }

  lemma WholeSteps(d: int, a: nat)
    requires d % STEP == 0 && (a == d || a == -d)
    ensures a % MINUTE % STEP == 0
  {
    var q := d / STEP;
    assert d == q * STEP;
    var k: nat := if a == d then q else -q;
    InMinute(k / 30720, k % 30720 * STEP, a);
    MultipleOfStep(k % 30720);
  }
}
