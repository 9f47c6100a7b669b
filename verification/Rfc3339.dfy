/**
 Instants as microseconds since 1970 in a 64-bit integer, their RFC 3339 text
 (section 5.6) and the parser of that text (crates/core/src/kronroe_time.rs).
 */
module Rfc3339 {
  import opened Prelude
  import opened Decimals
  import opened Calendar

  const I64_MIN := -0x8000_0000_0000_0000
  const I64_MAX := 0x7FFF_FFFF_FFFF_FFFF

  const MICROS_PER_SECOND := 1_000_000
  const MICROS_PER_MINUTE := 60_000_000
  const MICROS_PER_HOUR := 3_600_000_000
  const MICROS_PER_DAY := 86_400_000_000

  type Timestamp = t: int | I64_MIN <= t <= I64_MAX

  datatype TimeError = InvalidText | OutOfRange

  // ---- Instants from components ------------------------------------------

  function FromUtcComponents(d: Date, hour: nat, minute: nat, second: nat, micros: nat): Result<Timestamp, TimeError>
  {
    if !ValidDate(d) || !ValidTime(hour, minute, second, micros) then Err(InvalidText)
    else
      var dayMicros := hour * MICROS_PER_HOUR + minute * MICROS_PER_MINUTE + second * MICROS_PER_SECOND + micros;
      var unixMicros := DaysFromCivil32(d) * MICROS_PER_DAY + dayMicros;
      if I64_MIN <= DaysFromCivil32(d) * MICROS_PER_DAY <= I64_MAX && I64_MIN <= unixMicros <= I64_MAX
      then Ok(unixMicros) else Err(OutOfRange)
  }

  predicate ValidTime(hour: nat, minute: nat, second: nat, micros: nat)
  {
    hour <= 23 && minute <= 59 && second <= 59 && micros <= 999_999
  }

  // ---- Printing ----------------------------------------------------------

  /** Days and microseconds of the day, by Euclidean division. */
  function DayOfInstant(t: int): int { t / MICROS_PER_DAY }
  function MicrosOfDay(t: int): (m: nat) ensures m < MICROS_PER_DAY { t % MICROS_PER_DAY }

  datatype Clock = Clock(hour: nat, minute: nat, second: nat, micros: nat)

  function ClockOf(m: nat): Clock
  {
    Clock(m / MICROS_PER_HOUR, m % MICROS_PER_HOUR / MICROS_PER_MINUTE,
          m % MICROS_PER_MINUTE / MICROS_PER_SECOND, m % MICROS_PER_SECOND)
  }

  function DateText(d: Date): string
    requires d.month >= 0 && d.day >= 0
  {
    PaddedSigned(d.year, 4) + "-" + Padded(d.month, 2) + "-" + Padded(d.day, 2)
  }

  /** `s` without its trailing zeros. */
  function Trimmed(s: string): (r: string)
    ensures |r| <= |s| && r == s[..|r|]
  {
    if s != [] && s[|s| - 1] == '0' then Trimmed(s[..|s| - 1]) else s
  }

  function ClockText(c: Clock): string
  {
    Padded(c.hour, 2) + ":" + Padded(c.minute, 2) + ":" + Padded(c.second, 2)
    + (if c.micros == 0 then "" else "." + Trimmed(Padded(c.micros, 6)))
  }

  function Format(t: Timestamp): string
  {
    var d := CivilFromDays(DayOfInstant(t));
    CalendarBijection(DayOfInstant(t), d);
    DateText(d) + "T" + ClockText(ClockOf(MicrosOfDay(t))) + "Z"
  }

  // ---- Parsing -----------------------------------------------------------

  function Find(s: string, c: char): (i: nat)
    ensures i <= |s| && c !in s[..i] && (i < |s| ==> s[i] == c)
  {
    if s == [] || s[0] == c then 0 else 1 + Find(s[1..], c)
  }

  /** Index of the last sign in `s`, or none. */
  function FindLastSign(s: string): (i: Option<nat>)
    ensures i.Some? ==> i.value < |s| && s[i.value] in "+-"
  {
    if s == [] then None
    else if s[|s| - 1] in "+-" then Some(|s| - 1)
    else FindLastSign(s[..|s| - 1])
  }

  function ParseDate(s: string): Result<Date, TimeError>
  {
    var parts := Split(s, '-');
    if |parts| != 3 then Err(InvalidText)
    else match (ParseSigned(parts[0], I32_MIN, I32_MAX), ParseUnsigned(parts[1], 0xFFFF_FFFF), ParseUnsigned(parts[2], 0xFFFF_FFFF))
      case (Some(y), Some(m), Some(d)) => if ValidDate(Date(y, m, d)) then Ok(Date(y, m, d)) else Err(InvalidText)
      case _ => Err(InvalidText)
  }

  function ParseFraction(raw: string): Option<nat>
  {
    if raw == [] || |raw| > 6 || !AllDigits(raw) then None
    else ParseUnsigned(raw + Zeros(6 - |raw|), 0xFFFF_FFFF)
  }

  function ParseClock(s: string): Result<Clock, TimeError>
  {
    var dot := Find(s, '.');
    var parts := Split(s[..dot], ':');
    var micros := if dot == |s| then Some(0) else ParseFraction(s[dot + 1..]);
    if |parts| != 3 then Err(InvalidText)
    else match (ParseUnsigned(parts[0], 0xFFFF_FFFF), ParseUnsigned(parts[1], 0xFFFF_FFFF),
                ParseUnsigned(parts[2], 0xFFFF_FFFF), micros)
      case (Some(h), Some(m), Some(sec), Some(us)) =>
        if ValidTime(h, m, sec, us) then Ok(Clock(h, m, sec, us)) else Err(InvalidText)
      case _ => Err(InvalidText)
  }

  function ParseOffset(sign: char, s: string): Result<int, TimeError>
  {
    var parts := Split(s, ':');
    if |parts| != 2 then Err(InvalidText)
    else match (ParseSigned(parts[0], I64_MIN, I64_MAX), ParseSigned(parts[1], I64_MIN, I64_MAX))
      case (Some(h), Some(m)) =>
        if h > 23 || m > 59 then Err(InvalidText)
        else Ok((if sign == '+' then 1 else -1) * (h * MICROS_PER_HOUR + m * MICROS_PER_MINUTE))
      case _ => Err(InvalidText)
  }

  function Saturate(t: int): Timestamp
  {
    if t < I64_MIN then I64_MIN else if t > I64_MAX then I64_MAX else t
  }

  function Parse(input: string): Result<Timestamp, TimeError>
  {
    var i := Find(input, 'T');
    if i == |input| then Err(InvalidText)
    else
      var rest := input[i + 1..];
      if rest != [] && rest[|rest| - 1] == 'Z' then
        ParseParts(input[..i], rest[..|rest| - 1], Ok(0))
      else match FindLastSign(rest)
        case None => Err(InvalidText)
        case Some(k) => ParseParts(input[..i], rest[..k], ParseOffset(rest[k], rest[k + 1..]))
  }

  function ParseParts(date: string, time: string, offset: Result<int, TimeError>): Result<Timestamp, TimeError>
  {
    match (ParseDate(date), ParseClock(time), offset)
    case (Ok(d), Ok(c), Ok(o)) =>
      (match FromUtcComponents(d, c.hour, c.minute, c.second, c.micros)
       case Ok(t) => Ok(Saturate(t - o))
       case Err(e) => Err(e))
    case _ => Err(InvalidText)
  }

  // ---- Fractions parse back ----------------------------------------------

  lemma {:induction false} TrimRestores(s: string)
    ensures s == Trimmed(s) + Zeros(|s| - |Trimmed(s)|)
    ensures Trimmed(s) == [] ==> forall i :: 0 <= i < |s| ==> s[i] == '0'
  {
    if s != [] && s[|s| - 1] == '0' {
      TrimRestores(s[..|s| - 1]);
      var z := Zeros(|s| - 1 - |Trimmed(s)|);
      assert Zeros(|s| - |Trimmed(s)|) == z + ['0'];
      assert s == s[..|s| - 1] + ['0'];
    }
  }

  /** The fraction loses its trailing zeros in print and regains them in parsing. */
  lemma FractionRoundTrip(micros: nat)
    requires 0 < micros <= 999_999
    ensures var raw := Trimmed(Padded(micros, 6));
      ParseFraction(raw) == Some(micros) && AllDigits(raw)
  {
    var p := Padded(micros, 6);
    SixDigits(micros);
    var raw := Trimmed(p);
    TrimRestores(p);
    hide Padded, Trimmed, ParseUnsigned;
    if raw == [] {
      ZerosValue(p);
      assert false;
    }
    ParsePadded(micros, 6, 0xFFFF_FFFF);
  }

  lemma SixDigits(micros: nat)
    requires micros <= 999_999
    ensures |Padded(micros, 6)| == 6 && DigitsValue(Padded(micros, 6)) == micros
  {
    PaddedValue(micros, 6);
    assert Power10(6) == 1_000_000;
    DecimalLength(micros, 6);
  }

  // ---- Dates and clocks parse back ---------------------------------------

  lemma ThreeParts(a: string, b: string, c: string, sep: char)
    requires sep !in a && sep !in b && sep !in c
    ensures Split(a + [sep] + b + [sep] + c, sep) == [a, b, c]
  {
    SplitCons(a, sep, b + [sep] + c);
    assert a + [sep] + b + [sep] + c == a + [sep] + (b + [sep] + c);
    SplitCons(b, sep, c);
    SplitNone(c, sep);
  }

  lemma DateRoundTrip(d: Date)
    requires ValidDate(d) && d.year <= I32_MAX
    ensures d.year >= 0 ==> ParseDate(DateText(d)) == Ok(d)
    ensures d.year < 0 ==> ParseDate(DateText(d)).Err?
    ensures forall i :: 0 <= i < |DateText(d)| ==> IsDigit(DateText(d)[i]) || DateText(d)[i] == '-'
  {
    hide Split, Padded, ParseUnsigned, ParseSigned, ValidDate;
    assert 0 <= d.month <= 12 && 0 <= d.day <= 31 by { DateFields(d); }
    var m, n := Padded(d.month, 2), Padded(d.day, 2);
    if d.year >= 0 {
      var y := Padded(d.year, 4);
      ThreeParts(y, m, n, '-');
      ParsePadded(d.year, 4, I32_MAX);
      ParsePadded(d.month, 2, 0xFFFF_FFFF);
      ParsePadded(d.day, 2, 0xFFFF_FFFF);
    } else {
      var y := Padded(-d.year, 3);
      SplitCons("", '-', y + "-" + m + "-" + n);
      assert DateText(d) == "" + ['-'] + (y + "-" + m + "-" + n);
      ThreeParts(y, m, n, '-');
    }
  }

  lemma DateFields(d: Date)
    requires ValidDate(d)
    ensures 0 <= d.month <= 12 && 0 <= d.day <= 31
  {
  }

  lemma {:induction false} FindAt(a: string, c: char, b: string)
    requires c !in a
    ensures Find(a + [c] + b, c) == |a|
  {
    var s := a + [c] + b;
    if a != [] {
      assert s[1..] == a[1..] + [c] + b;
      FindAt(a[1..], c, b);
    }
  }

  lemma {:induction false} FindNone(a: string, c: char)
    requires c !in a
    ensures Find(a, c) == |a|
  {
    if a != [] { FindNone(a[1..], c); }
  }

  lemma ClockRoundTrip(c: Clock)
    requires ValidTime(c.hour, c.minute, c.second, c.micros)
    ensures ParseClock(ClockText(c)) == Ok(c)
  {
    hide Split, Padded, ParseUnsigned, ParseFraction, Find, Trimmed;
    var h, m, s := Padded(c.hour, 2), Padded(c.minute, 2), Padded(c.second, 2);
    var base := h + ":" + m + ":" + s;
    ThreeParts(h, m, s, ':');
    ParsePadded(c.hour, 2, 0xFFFF_FFFF);
    ParsePadded(c.minute, 2, 0xFFFF_FFFF);
    ParsePadded(c.second, 2, 0xFFFF_FFFF);
    var text := ClockText(c);
    if c.micros == 0 {
      assert text == base;
      FindNone(base, '.');
      assert text[..|text|] == base;
    } else {
      var raw := Trimmed(Padded(c.micros, 6));
      FractionRoundTrip(c.micros);
      FindAt(base, '.', raw);
      assert text == base + ['.'] + raw;
      assert text[..|base|] == base && text[|base| + 1..] == raw;
    }
  }

  lemma ClockValid(m: nat)
    requires m < MICROS_PER_DAY
    ensures var c := ClockOf(m);
      ValidTime(c.hour, c.minute, c.second, c.micros)
      && c.hour * MICROS_PER_HOUR + c.minute * MICROS_PER_MINUTE + c.second * MICROS_PER_SECOND + c.micros == m
  {
    var c := ClockOf(m);
    var r := m % MICROS_PER_HOUR;
    assert m == c.hour * MICROS_PER_HOUR + r;
    MinuteOfHour(m);
    assert r == c.minute * MICROS_PER_MINUTE + r % MICROS_PER_MINUTE;
    SecondOfMinute(m);
  }

  lemma MinuteOfHour(m: nat)
    ensures m % MICROS_PER_HOUR % MICROS_PER_MINUTE == m % MICROS_PER_MINUTE
  {
    ModMinute(m / MICROS_PER_HOUR * 60, m % MICROS_PER_HOUR);
  }

  lemma ModMinute(q: nat, r: nat)
    ensures (q * MICROS_PER_MINUTE + r) % MICROS_PER_MINUTE == r % MICROS_PER_MINUTE
  {
  }

  lemma SecondOfMinute(m: nat)
    ensures m % MICROS_PER_MINUTE % MICROS_PER_SECOND == m % MICROS_PER_SECOND
  {
    ModSecond(m / MICROS_PER_MINUTE * 60, m % MICROS_PER_MINUTE);
  }

  lemma ModSecond(q: nat, r: nat)
    ensures (q * MICROS_PER_SECOND + r) % MICROS_PER_SECOND == r % MICROS_PER_SECOND
  {
  }

  // ---- Instants parse back -----------------------------------------------

  /** 0000-01-01T00:00:00Z. */
  const YEAR_ZERO := -719528 * MICROS_PER_DAY

  lemma YearZero(t: Timestamp)
    ensures CivilFromDays(DayOfInstant(t)).year >= 0 <==> t >= YEAR_ZERO
    ensures MIN_DAY <= DayOfInstant(t) <= MAX_DAY
  {
    YearZeroDays();
    hide CivilFromDays;
    var days := DayOfInstant(t);
    if days >= -719528 { YearOrder(-719528, days); } else { YearOrder(days, -719529); }
  }

  lemma YearZeroDays()
    ensures CivilFromDays(-719528) == Date(0, 1, 1) && CivilFromDays(-719529) == Date(-1, 12, 31)
  {
    assert DaysFromCivil(Date(0, 1, 1)) == -719528;
    assert DaysFromCivil(Date(-1, 12, 31)) == -719529;
    hide CivilFromDays, DaysFromCivil;
    CalendarBijection(0, Date(0, 1, 1));
    CalendarBijection(0, Date(-1, 12, 31));
  }

  lemma ComponentsRoundTrip(t: Timestamp)
    requires t >= YEAR_ZERO
    ensures var d := CivilFromDays(DayOfInstant(t)); var c := ClockOf(MicrosOfDay(t));
      FromUtcComponents(d, c.hour, c.minute, c.second, c.micros) == Ok(t)
  {
    hide CivilFromDays, DaysFromCivil32, ValidDate, ValidTime, ClockOf;
    var days := DayOfInstant(t);
    var d := CivilFromDays(days);
    YearZero(t);
    CalendarBijection(days, d);
    InstantDaysFit(days);
    ClockValid(MicrosOfDay(t));
  }

  /**
   Components are turned into the instant they denote exactly when the day number fits in
   32 bits and the instant, counted from the start of its day, fits in 64.
   */
  lemma ComponentsExact(d: Date, c: Clock)
    requires ValidDate(d) && ValidTime(c.hour, c.minute, c.second, c.micros)
    requires I32_MIN <= d.year <= I32_MAX
    ensures var midnight := DaysFromCivil(d) * MICROS_PER_DAY;
      var t := midnight + (c.hour * MICROS_PER_HOUR + c.minute * MICROS_PER_MINUTE + c.second * MICROS_PER_SECOND + c.micros);
      var r := FromUtcComponents(d, c.hour, c.minute, c.second, c.micros);
      (r.Ok? && r.value == t) <==>
      I32_MIN <= DaysFromCivil(d) <= I32_MAX && I64_MIN <= midnight && t <= I64_MAX
  {
    hide DaysFromCivil, DaysFromCivil32, Wrap32;
    DaysFromCivil32Exact(d);
  }

  lemma ParsePartsOfText(date: string, clock: string)
    requires forall i :: 0 <= i < |date| ==> IsDigit(date[i]) || date[i] == '-'
    ensures Parse(date + "T" + clock + "Z") == ParseParts(date, clock, Ok(0))
  {
    var s := date + "T" + clock + "Z";
    assert s == date + ['T'] + (clock + "Z");
    FindAt(date, 'T', clock + "Z");
    var rest := s[|date| + 1..];
    assert rest == clock + "Z";
    assert rest[..|rest| - 1] == clock;
    assert s[..|date|] == date;
  }

  /**
   Outside that range the result can be another instant: 1 January of the year 11760000 is
   read as a day of the year 778.
   */
  lemma FarYearMisread()
    ensures Parse("11760000-01-01T00:00:00Z") == Ok(-435024 * MICROS_PER_DAY)
    ensures CivilFromDays(-435024) == Date(778, 12, 12)
  {
    hide *;
    FarYearText();
    FarYearDay();
    FarYearParse();
    CalendarBijection(0, Date(778, 12, 12));
    FarYearValid();
  }

  lemma FarYearValid()
    ensures ValidDate(Date(11760000, 1, 1)) && ValidDate(Date(778, 12, 12)) && ValidTime(0, 0, 0, 0)
  {
  }

  lemma FarYearParse()
    ensures Parse(DateText(Date(11760000, 1, 1)) + "T" + ClockText(Clock(0, 0, 0, 0)) + "Z") == Ok(-435024 * MICROS_PER_DAY)
  {
    hide DateText, ClockText, ParseDate, ParseClock, DaysFromCivil32, DaysFromCivil, Parse, ValidDate;
    var d, c := Date(11760000, 1, 1), Clock(0, 0, 0, 0);
    FarYearValid();
    FarYearDay();
    DateRoundTrip(d);
    ClockRoundTrip(c);
    ParsePartsOfText(DateText(d), ClockText(c));
  }

  lemma FarYearDay()
    ensures DaysFromCivil32(Date(11760000, 1, 1)) == -435024
    ensures DaysFromCivil(Date(778, 12, 12)) == -435024
  {
    hide DaysFromCivil, DaysFromCivil32;
    var q, r := Parts(29399, YearParts(3, 24, 3), 10, 306), Parts(1, YearParts(3, 19, 2), 9, 286);
    DayOfParts(q);
    DayOfParts(r);
    DaysFromCivil32Exact(Date(11760000, 1, 1));
  }

  lemma FarYearText()
    ensures DateText(Date(11760000, 1, 1)) + "T" + ClockText(Clock(0, 0, 0, 0)) + "Z" == "11760000-01-01T00:00:00Z"
  {
    FarYearDigits();
    assert Padded(0, 2) == "00" && Padded(1, 2) == "01";
    hide Padded;
    assert DateText(Date(11760000, 1, 1)) == "11760000-01-01";
    assert ClockText(Clock(0, 0, 0, 0)) == "00:00:00";
  }

  lemma FarYearDigits()
    ensures PaddedSigned(11760000, 4) == "11760000"
  {
    assert Decimal(11) == "11";
    assert Decimal(1176) == "1176";
    assert Decimal(117600) == "117600";
  }

  /**
   The text of an instant parses back to the instant exactly from the year 0 on; the text
   of any earlier instant is rejected.
   */
  lemma ParseUndoesFormat(t: Timestamp)
    ensures t >= YEAR_ZERO ==> Parse(Format(t)) == Ok(t)
    ensures t < YEAR_ZERO ==> Parse(Format(t)).Err?
  {
    hide CivilFromDays, DateText, ClockText, ParseDate, ParseClock, FromUtcComponents, ValidDate, ClockOf;
    var days := DayOfInstant(t);
    var d := CivilFromDays(days);
    CalendarBijection(days, d);
    YearZero(t);
    InstantDaysFit(days);
    DateRoundTrip(d);
    ClockValid(MicrosOfDay(t));
    var c := ClockOf(MicrosOfDay(t));
    ClockRoundTrip(c);
    ParsePartsOfText(DateText(d), ClockText(c));
    if t >= YEAR_ZERO { ComponentsRoundTrip(t); }
  }

  // ---- Offsets -----------------------------------------------------------

  lemma {:induction false} LastSignAt(a: string, sign: char, b: string)
    requires sign in "+-" && forall i :: 0 <= i < |b| ==> b[i] !in "+-"
    ensures FindLastSign(a + [sign] + b) == Some(|a|)
  {
    var s := a + [sign] + b;
    if b != [] {
      assert s[..|s| - 1] == a + [sign] + b[..|b| - 1];
      LastSignAt(a, sign, b[..|b| - 1]);
    }
  }

  lemma DigitsParse(s: string, min: int)
    requires s != [] && AllDigits(s)
    ensures DigitsValue(s) <= I64_MAX ==> ParseSigned(s, min, I64_MAX) == Some(DigitsValue(s))
    ensures DigitsValue(s) > I64_MAX ==> ParseSigned(s, min, I64_MAX) == None
  {
    assert IsDigit(s[0]);
  }

  lemma OffsetParses(sign: char, hh: string, mm: string)
    requires sign in "+-" && hh != [] && mm != [] && AllDigits(hh) && AllDigits(mm)
    ensures var offset := ParseOffset(sign, hh + ":" + mm);
      if DigitsValue(hh) <= 23 && DigitsValue(mm) <= 59
      then offset == Ok((if sign == '+' then 1 else -1) * (DigitsValue(hh) * 60 + DigitsValue(mm)) * 60_000_000)
      else offset.Err?
  {
    hide Split, ParseSigned, DigitsValue, ParseOffset;
    OffsetSplits(hh, mm);
    DigitsParse(hh, I64_MIN);
    DigitsParse(mm, I64_MIN);
    OffsetByParts(sign, hh + ":" + mm);
  }

  lemma OffsetSplits(hh: string, mm: string)
    requires AllDigits(hh) && AllDigits(mm)
    ensures Split(hh + ":" + mm, ':') == [hh, mm]
  {
    hide Split;
    SplitCons(hh, ':', mm);
    SplitNone(mm, ':');
  }

  lemma OffsetByParts(sign: char, s: string)
    requires |Split(s, ':')| == 2
    ensures var h := ParseSigned(Split(s, ':')[0], I64_MIN, I64_MAX); var m := ParseSigned(Split(s, ':')[1], I64_MIN, I64_MAX);
      ParseOffset(sign, s)
      == if h.None? || m.None? || h.value > 23 || m.value > 59 then Err(InvalidText)
         else Ok((if sign == '+' then 1 else -1) * (h.value * MICROS_PER_HOUR + m.value * MICROS_PER_MINUTE))
  {
    hide Split, ParseSigned;
  }

  lemma SignedText(date: string, clock: string, sign: char, hh: string, mm: string)
    requires forall i :: 0 <= i < |date| ==> IsDigit(date[i]) || date[i] == '-'
    requires sign in "+-" && hh != [] && mm != [] && AllDigits(hh) && AllDigits(mm)
    ensures Parse(date + "T" + clock + [sign] + hh + ":" + mm) == ParseParts(date, clock, ParseOffset(sign, hh + ":" + mm))
  {
    hide ParseParts, ParseOffset, Find, FindLastSign, Parse;
    var offset := hh + ":" + mm;
    var rest := clock + [sign] + offset;
    UnsignedOffset(hh, mm);
    LastSignAt(clock, sign, offset);
    FindAt(date, 'T', rest);
    assert date + "T" + clock + [sign] + hh + ":" + mm == date + ['T'] + rest;
    SignedParse(date, clock, sign, offset);
  }

  lemma UnsignedOffset(hh: string, mm: string)
    requires mm != [] && AllDigits(hh) && AllDigits(mm)
    ensures var offset := hh + ":" + mm;
      offset != [] && IsDigit(offset[|offset| - 1]) && forall i :: 0 <= i < |offset| ==> offset[i] !in "+-"
  {
    var offset := hh + ":" + mm;
    forall i | 0 <= i < |offset| ensures offset[i] !in "+-" {
      assert offset[i] == if i < |hh| then hh[i] else if i == |hh| then ':' else mm[i - |hh| - 1];
    }
  }

  lemma SignedParse(date: string, clock: string, sign: char, offset: string)
    requires sign in "+-" && offset != [] && offset[|offset| - 1] != 'Z'
    requires var rest := clock + [sign] + offset;
      Find(date + ['T'] + rest, 'T') == |date| && FindLastSign(rest) == Some(|clock|)
    ensures Parse(date + ['T'] + (clock + [sign] + offset)) == ParseParts(date, clock, ParseOffset(sign, offset))
  {
    hide ParseParts, ParseOffset, Find, FindLastSign;
    var rest := clock + [sign] + offset;
    Around(date, 'T', rest);
    Around(clock, sign, offset);
    assert rest[|rest| - 1] == offset[|offset| - 1];
  }

  lemma Around(a: string, c: char, b: string)
    ensures var s := a + [c] + b; s[..|a|] == a && s[|a|] == c && s[|a| + 1..] == b
  {
  }

  lemma FormatEnds(t: Timestamp)
    ensures var d := CivilFromDays(DayOfInstant(t)); var c := ClockOf(MicrosOfDay(t));
      d.month >= 0 && d.day >= 0 && Format(t)[..|Format(t)| - 1] == DateText(d) + "T" + ClockText(c)
      && Format(t)[|Format(t)| - 1] == 'Z'
  {
    hide CivilFromDays, DateText, ClockText, ClockOf;
    CalendarBijection(DayOfInstant(t), CivilFromDays(DayOfInstant(t)));
    assert ValidDate(CivilFromDays(DayOfInstant(t)));
  }

  /** Two decimal digits. */
  function TwoDigits(n: nat): (s: string)
    requires n < 100
    ensures AllDigits(s) && s != [] && DigitsValue(s) == n
  {
    var tens, units := '0' + (n / 10) as char, '0' + (n % 10) as char;
    assert [tens][..0] == [] && DigitsValue([tens]) == n / 10;
    assert [tens, units][..1] == [tens];
    [tens, units]
  }

  /**
   A text with an offset.  Replace the `Z` of an instant's text by a sign, hours and minutes in
   digits: it is rejected when the hours exceed 23 or the minutes 59, and else denotes the instant
   that much earlier for `+` and later for `-`, held within 64 bits.
   */
  lemma OffsetShifts(t: Timestamp, sign: char, hh: string, mm: string)
    requires t >= YEAR_ZERO && sign in "+-" && hh != [] && mm != [] && AllDigits(hh) && AllDigits(mm)
    ensures var parsed := Parse(Format(t)[..|Format(t)| - 1] + [sign] + hh + ":" + mm);
      var minutes := DigitsValue(hh) * 60 + DigitsValue(mm);
      var shifted := if sign == '+' then t - minutes * 60_000_000 else t + minutes * 60_000_000;
      if DigitsValue(hh) > 23 || DigitsValue(mm) > 59 then parsed.Err?
      else if shifted < -0x8000_0000_0000_0000 then parsed == Ok(-0x8000_0000_0000_0000)
      else if shifted > 0x7FFF_FFFF_FFFF_FFFF then parsed == Ok(0x7FFF_FFFF_FFFF_FFFF)
      else parsed == Ok(shifted)
  {
    hide *;
    var d, c := CivilFromDays(DayOfInstant(t)), ClockOf(MicrosOfDay(t));
    FormatEnds(t);
    FormatReads(t);
    SignedText(DateText(d), ClockText(c), sign, hh, mm);
    OffsetParses(sign, hh, mm);
    PartsShifted(DateText(d), ClockText(c), t, ParseOffset(sign, hh + ":" + mm));
  }

  lemma FormatReads(t: Timestamp)
    requires t >= YEAR_ZERO
    ensures var d := CivilFromDays(DayOfInstant(t)); var c := ClockOf(MicrosOfDay(t));
      d.month >= 0 && d.day >= 0 && ParseParts(DateText(d), ClockText(c), Ok(0)) == Ok(t)
      && forall i :: 0 <= i < |DateText(d)| ==> IsDigit(DateText(d)[i]) || DateText(d)[i] == '-'
  {
    var d, c := CivilFromDays(DayOfInstant(t)), ClockOf(MicrosOfDay(t));
    CalendarBijection(DayOfInstant(t), d);
    YearZero(t);
    InstantDaysFit(DayOfInstant(t));
    DateRoundTrip(d);
    ClockValid(MicrosOfDay(t));
    ClockRoundTrip(c);
    ComponentsRoundTrip(t);
    hide CivilFromDays, DateText, ClockText, ParseDate, ParseClock, FromUtcComponents, ClockOf, ValidDate;
  }

  lemma PartsShifted(date: string, time: string, t: Timestamp, offset: Result<int, TimeError>)
    requires ParseParts(date, time, Ok(0)) == Ok(t)
    ensures offset.Err? ==> ParseParts(date, time, offset).Err?
    ensures offset.Ok? ==> var x := t - offset.value;
      ParseParts(date, time, offset)
        == Ok(if x < -0x8000_0000_0000_0000 then -0x8000_0000_0000_0000
              else if x > 0x7FFF_FFFF_FFFF_FFFF then 0x7FFF_FFFF_FFFF_FFFF else x)
  {
    hide ParseDate, ParseClock;
    match (ParseDate(date), ParseClock(time)) {
      case (Ok(d), Ok(c)) =>
        assert FromUtcComponents(d, c.hour, c.minute, c.second, c.micros) == Ok(t);
        hide FromUtcComponents;
      case _ =>
    }
  }

  /** The same for hours and minutes of two digits each. */
  lemma OffsetText(t: Timestamp, hours: nat, minutes: nat)
    requires t >= YEAR_ZERO && hours <= 23 && minutes <= 59
    requires -0x8000_0000_0000_0000 <= t - (hours * 60 + minutes) * 60_000_000
    requires t + (hours * 60 + minutes) * 60_000_000 <= 0x7FFF_FFFF_FFFF_FFFF
    ensures var text := Format(t)[..|Format(t)| - 1];
      Parse(text + "+" + TwoDigits(hours) + ":" + TwoDigits(minutes)) == Ok(t - (hours * 60 + minutes) * 60_000_000)
      && Parse(text + "-" + TwoDigits(hours) + ":" + TwoDigits(minutes)) == Ok(t + (hours * 60 + minutes) * 60_000_000)
  {
    hide *;
    FormatEnds(t);
    OffsetShifts(t, '+', TwoDigits(hours), TwoDigits(minutes));
    OffsetShifts(t, '-', TwoDigits(hours), TwoDigits(minutes));
  }

  // ---- Which texts are accepted ------------------------------------------

  lemma UnsignedDigits(s: string, max: nat)
    requires s != [] && AllDigits(s)
    ensures ParseUnsigned(s, max) == if DigitsValue(s) <= max then Some(DigitsValue(s)) else None
    ensures forall min :: ParseSigned(s, min, max) == if DigitsValue(s) <= max then Some(DigitsValue(s)) else None
  {
    assert IsDigit(s[0]);
  }

  lemma DateOfDigits(y: string, m: string, d: string)
    requires y != [] && m != [] && d != [] && AllDigits(y) && AllDigits(m) && AllDigits(d)
    ensures var date := Date(DigitsValue(y), DigitsValue(m), DigitsValue(d));
      ParseDate(y + "-" + m + "-" + d)
      == if DigitsValue(y) <= 0x7FFF_FFFF && ValidDate(date) then Ok(date) else Err(InvalidText)
  {
    ThreeParts(y, m, d, '-');
    UnsignedDigits(y, I32_MAX);
    UnsignedDigits(m, 0xFFFF_FFFF);
    UnsignedDigits(d, 0xFFFF_FFFF);
    ShortMonths(Date(DigitsValue(y), DigitsValue(m), DigitsValue(d)));
    hide Split, ParseUnsigned, ParseSigned, ValidDate, DigitsValue;
  }

  lemma ShortMonths(d: Date)
    ensures ValidDate(d) ==> d.month <= 12 && d.day <= 31
  {
  }

  /** The fraction of a second that digits after a point denote, in microseconds. */
  lemma FractionOfDigits(f: string)
    requires AllDigits(f)
    ensures ParseFraction(f).Some? <==> 1 <= |f| <= 6
    ensures 1 <= |f| <= 6 ==> ParseFraction(f).value == DigitsValue(f) * Power10(6 - |f|) && ParseFraction(f).value <= 999_999
  {
    if 1 <= |f| <= 6 {
      TrailingZeros(f, 6 - |f|);
      DigitsBelow(f + Zeros(6 - |f|));
      assert Power10(6) == 1_000_000;
      UnsignedDigits(f + Zeros(6 - |f|), 0xFFFF_FFFF);
      hide DigitsValue, ParseUnsigned;
    }
  }

  lemma {:induction false} TrailingZeros(s: string, k: nat)
    requires AllDigits(s)
    ensures AllDigits(s + Zeros(k)) && DigitsValue(s + Zeros(k)) == DigitsValue(s) * Power10(k)
  {
    if k == 0 {
      assert s + Zeros(0) == s;
    } else {
      TrailingZeros(s, k - 1);
      var t := s + Zeros(k);
      assert t[..|t| - 1] == s + Zeros(k - 1) && t[|t| - 1] == '0';
      TenTimes(DigitsValue(s), Power10(k - 1));
    }
  }

  lemma TenTimes(x: nat, y: nat)
    ensures x * y * 10 == x * (10 * y)
  {
  }

  lemma {:induction false} DigitsBelow(s: string)
    requires AllDigits(s)
    ensures DigitsValue(s) < Power10(|s|)
  {
    if s != [] { DigitsBelow(s[..|s| - 1]); }
  }

  /** Digits after the point, as microseconds. */
  function FractionMicros(f: Option<string>): nat
    requires f.Some? ==> AllDigits(f.value)
  {
    if f.Some? && |f.value| <= 6 then DigitsValue(f.value) * Power10(6 - |f.value|) else 0
  }

  lemma FractionMicrosOf(f: Option<string>)
    requires f.Some? ==> AllDigits(f.value)
    ensures f.Some? ==> (ParseFraction(f.value).Some? <==> 1 <= |f.value| <= 6)
    ensures f.Some? && 1 <= |f.value| <= 6 ==> ParseFraction(f.value).value == FractionMicros(f) <= 999_999
    ensures f.None? ==> FractionMicros(f) == 0
  {
    if f.Some? { FractionOfDigits(f.value); }
    hide DigitsValue, Power10, ParseFraction;
  }

  /** Hours, minutes and seconds in digits, with or without a fraction after a point. */
  lemma ClockOfDigits(h: string, m: string, sec: string, f: Option<string>)
    requires h != [] && m != [] && sec != [] && AllDigits(h) && AllDigits(m) && AllDigits(sec)
    requires f.Some? ==> AllDigits(f.value)
    ensures var parsed := ParseClock(h + ":" + m + ":" + sec + (if f.Some? then "." + f.value else ""));
      if DigitsValue(h) <= 23 && DigitsValue(m) <= 59 && DigitsValue(sec) <= 59 && (f.Some? ==> 1 <= |f.value| <= 6)
      then parsed == Ok(Clock(DigitsValue(h), DigitsValue(m), DigitsValue(sec), FractionMicros(f)))
      else parsed == Err(InvalidText)
  {
    hide *;
    var base := h + ":" + m + ":" + sec;
    var text := base + (if f.Some? then "." + f.value else "");
    BaseParts(h, m, sec);
    UnsignedDigits(h, 0xFFFF_FFFF);
    UnsignedDigits(m, 0xFFFF_FFFF);
    UnsignedDigits(sec, 0xFFFF_FFFF);
    FractionMicrosOf(f);
    if f.Some? {
      WithPoint(base, f.value);
      ClockByParts(text, |base|);
    } else {
      FindNone(base, '.');
      assert text == base && text[..|base|] == base;
      ClockByParts(text, |base|);
    }
  }

  lemma BaseParts(h: string, m: string, sec: string)
    requires AllDigits(h) && AllDigits(m) && AllDigits(sec)
    ensures var base := h + ":" + m + ":" + sec; '.' !in base && Split(base, ':') == [h, m, sec]
  {
    ThreeParts(h, m, sec, ':');
    hide Split;
  }

  lemma WithPoint(base: string, f: string)
    requires '.' !in base
    ensures var text := base + ("." + f);
      Find(text, '.') == |base| < |text| && text[..|base|] == base && text[|base| + 1..] == f
  {
    FindAt(base, '.', f);
    assert base + ("." + f) == base + ['.'] + f;
    hide Find;
  }

  lemma ClockByParts(s: string, dot: nat)
    requires Find(s, '.') == dot && |Split(s[..dot], ':')| == 3
    ensures var parts := Split(s[..dot], ':'); var micros := if dot == |s| then Some(0) else ParseFraction(s[dot + 1..]);
      var h := ParseUnsigned(parts[0], 0xFFFF_FFFF); var m := ParseUnsigned(parts[1], 0xFFFF_FFFF);
      var sec := ParseUnsigned(parts[2], 0xFFFF_FFFF);
      ParseClock(s)
      == if h.Some? && m.Some? && sec.Some? && micros.Some? && h.value <= 23 && m.value <= 59 && sec.value <= 59 && micros.value <= 999_999
         then Ok(Clock(h.value, m.value, sec.value, micros.value)) else Err(InvalidText)
  {
    hide Split, ParseUnsigned, ParseFraction, Find;
  }

  /**
   A UTC text of digits is accepted exactly when its date is in the calendar, its hours, minutes
   and seconds are in range and its fraction has one to six digits; it then denotes that instant,
   if the day number fits in 32 bits and the instant in 64.
   */
  lemma ParseOfDigits(y: string, mon: string, d: string, h: string, m: string, sec: string, f: Option<string>)
    requires y != [] && mon != [] && d != [] && AllDigits(y) && AllDigits(mon) && AllDigits(d)
    requires h != [] && m != [] && sec != [] && AllDigits(h) && AllDigits(m) && AllDigits(sec)
    requires f.Some? ==> AllDigits(f.value)
    ensures var date := Date(DigitsValue(y), DigitsValue(mon), DigitsValue(d));
      var clock := h + ":" + m + ":" + sec + (if f.Some? then "." + f.value else "");
      var parsed := Parse((y + "-" + mon + "-" + d) + "T" + clock + "Z");
      var t := DaysFromCivil(date) * 86_400_000_000 + DigitsValue(h) * 3_600_000_000 + DigitsValue(m) * 60_000_000
        + DigitsValue(sec) * 1_000_000 + FractionMicros(f);
      var named := DigitsValue(y) <= 0x7FFF_FFFF && ValidDate(date) && DigitsValue(h) <= 23 && DigitsValue(m) <= 59
        && DigitsValue(sec) <= 59 && (f.Some? ==> 1 <= |f.value| <= 6);
      (!named ==> parsed.Err?)
      && (named && -0x8000_0000 <= DaysFromCivil(date) <= 0x7FFF_FFFF && t <= 0x7FFF_FFFF_FFFF_FFFF ==> parsed == Ok(t))
  {
    hide *;
    var clock := h + ":" + m + ":" + sec + (if f.Some? then "." + f.value else "");
    var date := y + "-" + mon + "-" + d;
    DateOfDigits(y, mon, d);
    ClockOfDigits(h, m, sec, f);
    DigitsAndDashes(y, mon, d);
    TextExact(date, clock);
  }

  lemma TextExact(date: string, time: string)
    requires forall i :: 0 <= i < |date| ==> IsDigit(date[i]) || date[i] == '-'
    ensures ParseDate(date).Err? || ParseClock(time).Err? ==> Parse(date + "T" + time + "Z").Err?
    ensures ParseDate(date).Ok? && ParseDate(date).value.year >= 0 && ParseClock(time).Ok? ==>
      var day, c := DaysFromCivil(ParseDate(date).value), ParseClock(time).value;
      var t := day * 86_400_000_000 + c.hour * 3_600_000_000 + c.minute * 60_000_000 + c.second * 1_000_000 + c.micros;
      -0x8000_0000 <= day <= 0x7FFF_FFFF && t <= 0x7FFF_FFFF_FFFF_FFFF ==> Parse(date + "T" + time + "Z") == Ok(t)
  {
    hide *;
    ParsePartsOfText(date, time);
    PartsExact(date, time);
  }

  lemma PartsExact(date: string, time: string)
    ensures ParseDate(date).Err? || ParseClock(time).Err? ==> ParseParts(date, time, Ok(0)).Err?
    ensures ParseDate(date).Ok? && ParseDate(date).value.year >= 0 && ParseClock(time).Ok? ==>
      var day, c := DaysFromCivil(ParseDate(date).value), ParseClock(time).value;
      var t := day * 86_400_000_000 + c.hour * 3_600_000_000 + c.minute * 60_000_000 + c.second * 1_000_000 + c.micros;
      -0x8000_0000 <= day <= 0x7FFF_FFFF && t <= 0x7FFF_FFFF_FFFF_FFFF ==> ParseParts(date, time, Ok(0)) == Ok(t)
  {
    hide *;
    WithoutOffset(date, time);
    if ParseDate(date).Ok? && ParseDate(date).value.year >= 0 && ParseClock(time).Ok? {
      ParsedDate(date);
      ParsedClock(time);
      ComponentsDenote(ParseDate(date).value, ParseClock(time).value);
    }
  }

  lemma WithoutOffset(date: string, time: string)
    ensures ParseDate(date).Err? || ParseClock(time).Err? ==> ParseParts(date, time, Ok(0)).Err?
    ensures ParseDate(date).Ok? && ParseClock(time).Ok? ==> var c := ParseClock(time).value;
      var r := FromUtcComponents(ParseDate(date).value, c.hour, c.minute, c.second, c.micros); r.Ok? ==> ParseParts(date, time, Ok(0)) == r
  {
    hide ParseDate, ParseClock, FromUtcComponents;
  }

  lemma ComponentsDenote(d: Date, c: Clock)
    requires ValidDate(d) && 0 <= d.year <= 0x7FFF_FFFF && ValidTime(c.hour, c.minute, c.second, c.micros)
    ensures var day := DaysFromCivil(d);
      var t := day * 86_400_000_000 + c.hour * 3_600_000_000 + c.minute * 60_000_000 + c.second * 1_000_000 + c.micros;
      -0x8000_0000 <= day <= 0x7FFF_FFFF && t <= 0x7FFF_FFFF_FFFF_FFFF ==>
        FromUtcComponents(d, c.hour, c.minute, c.second, c.micros) == Ok(t)
  {
    EarlyYears(d);
    ComponentsExact(d, c);
    hide DaysFromCivil, ValidDate, FromUtcComponents;
  }

  lemma ParsedDate(date: string)
    ensures ParseDate(date).Ok? ==> ValidDate(ParseDate(date).value) && -0x8000_0000 <= ParseDate(date).value.year <= 0x7FFF_FFFF
  {
    hide Split, ValidDate, DigitsValue;
  }

  lemma ParsedClock(time: string)
    ensures ParseClock(time).Ok? ==>
      var c := ParseClock(time).value; ValidTime(c.hour, c.minute, c.second, c.micros)
  {
    hide Split, ParseUnsigned, ParseFraction, Find;
  }

  lemma DigitsAndDashes(y: string, m: string, d: string)
    requires AllDigits(y) && AllDigits(m) && AllDigits(d)
    ensures var s := y + "-" + m + "-" + d; forall i :: 0 <= i < |s| ==> IsDigit(s[i]) || s[i] == '-'
  {
  }

  /** A year from 0 on is no earlier than its day number's least. */
  lemma EarlyYears(d: Date)
    requires ValidDate(d) && d.year >= 0
    ensures DaysFromCivil(d) >= -719528
  {
    hide *;
    FirstDay();
    FirstDate(d);
    DaysMonotone(d, Date(0, 1, 1));
  }

  lemma FirstDay()
    ensures DaysFromCivil(Date(0, 1, 1)) == -719528
  {
  }

  lemma FirstDate(d: Date)
    requires ValidDate(d) && d.year >= 0
    ensures ValidDate(Date(0, 1, 1)) && !Earlier(d, Date(0, 1, 1))
  {
  }

  /** `format_rfc3339_z`, with its loop that pops trailing zeros of the fraction. */
  method FormatRfc3339Z(t: Timestamp) returns (s: string)
    ensures s == Format(t)
  {
    var d := CivilFromDays(DayOfInstant(t));
    CalendarBijection(DayOfInstant(t), d);
    var c := ClockOf(MicrosOfDay(t));
    var base := DateText(d) + "T" + Padded(c.hour, 2) + ":" + Padded(c.minute, 2) + ":" + Padded(c.second, 2);
    if c.micros == 0 {
      s := base + "Z";
    } else {
      var frac := Padded(c.micros, 6);
      while frac != [] && frac[|frac| - 1] == '0'
        invariant Trimmed(frac) == Trimmed(Padded(c.micros, 6))
        decreases |frac|
      {
        frac := frac[..|frac| - 1];
      }
      s := base + "." + frac + "Z";
    }
    FormatPieces(t, s, base);
  }

  lemma FormatPieces(t: Timestamp, s: string, base: string)
    requires ValidDate(CivilFromDays(DayOfInstant(t)))
    requires var c := ClockOf(MicrosOfDay(t));
      (base == DateText(CivilFromDays(DayOfInstant(t))) + "T"
        + Padded(c.hour, 2) + ":" + Padded(c.minute, 2) + ":" + Padded(c.second, 2))
      && s == (if c.micros == 0 then base + "Z" else base + "." + Trimmed(Padded(c.micros, 6)) + "Z")
    ensures s == Format(t)
  {
    hide CivilFromDays, DateText, Padded, ClockOf, Trimmed;
    var d, c := CivilFromDays(DayOfInstant(t)), ClockOf(MicrosOfDay(t));
    var clock := Padded(c.hour, 2) + ":" + Padded(c.minute, 2) + ":" + Padded(c.second, 2);
    assert base == DateText(d) + "T" + clock;
    if c.micros != 0 {
      var frac := "." + Trimmed(Padded(c.micros, 6));
      assert s == DateText(d) + "T" + (clock + frac) + "Z";
    }
  }
}
