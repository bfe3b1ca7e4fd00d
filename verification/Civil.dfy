/**
 Timestamps: Hinnant's civil-date algorithms and the RFC 3339 text that is
 stored and hashed in every record.

 The calendar is the proleptic Gregorian one, defined here by its leap years
 and month lengths and by which date follows which. Day numbers and dates are
 in bijection, and the next number is the next date, over all integers.

 The text has twenty columns. What the renderer writes the parser reads back,
 floored to the second, as long as the year fits its columns. The parser takes
 more texts than the renderer writes; exactly the canonical ones come back.
 */
module Civil {
  import opened Bytes
  import opened Text
  import opened Utf8
  import opened Ledger

  datatype Date = Date(y: int, m: int, d: int)

  // ------------------------------------------------------------------
  // The Gregorian calendar

  predicate Leap(y: int) {
    y % 4 == 0 && (y % 100 != 0 || y % 400 == 0)
  }

  function DaysInMonth(y: int, m: int): int {
    if m == 2 then (if Leap(y) then 29 else 28)
    else if m == 4 || m == 6 || m == 9 || m == 11 then 30
    else 31
  }

  predicate IsDate(t: Date) {
    1 <= t.m <= 12 && 1 <= t.d <= DaysInMonth(t.y, t.m)
  }

  function NextDate(t: Date): Date {
    if t.d < DaysInMonth(t.y, t.m) then Date(t.y, t.m, t.d + 1)
    else if t.m < 12 then Date(t.y, t.m + 1, 1)
    else Date(t.y + 1, 1, 1)
  }

  // ------------------------------------------------------------------
  // The algorithms

  /** Years of 365 or 366 days from 1 March, inside one 400-year era. */
  function YearStart(yoe: int): int {
    365 * yoe + yoe / 4 - yoe / 100
  }

  function MonthStart(mp: int): int {
    (153 * mp + 2) / 5
  }

  function YearOfEra(doe: int): int {
    (doe - doe / 1460 + doe / 36524 - doe / 146096) / 365
  }

  /** The date of day `doy`, counted from 1 March, of year `yoe` of an era. */
  function DateIn(era: int, yoe: int, doy: int): Date {
    var y := yoe + era * 400;
    var mp := (5 * doy + 2) / 153;
    var m := if mp < 10 then mp + 3 else mp - 9;
    Date(if m <= 2 then y + 1 else y, m, doy - MonthStart(mp) + 1)
  }

  function CivilFromDays(days: int): Date {
    var z := days + 719468;
    var era, doe := z / 146097, z % 146097;
    var yoe := YearOfEra(doe);
    DateIn(era, yoe, doe - YearStart(yoe))
  }

  /** The inverse inside `parse_rfc3339`; it also accepts days past the end of a month. */
  function DaysFromCivil(t: Date): int {
    var y := if t.m <= 2 then t.y - 1 else t.y;
    var era, yoe := y / 400, y % 400;
    var mp := if t.m > 2 then t.m - 3 else t.m + 9;
    var doy := MonthStart(mp) + t.d - 1;
    era * 146097 + YearStart(yoe) + doy - 719468
  }

  // ------------------------------------------------------------------
  // Bijection

  /** The year of the era is the one whose 365 or 366 days hold the day. */
  ghost predicate InYear(yoe: int, doy: int) {
    && 0 <= yoe < 400 && 0 <= doy <= 365
    && (doy == 365 ==> Leap(yoe + 1))
  }

  /** A year of the era as centuries, four-year blocks and years. */
  ghost predicate Split(yoe: int, c: int, q: int, r: int) {
    yoe == 100 * c + 4 * q + r && 0 <= c < 4 && 0 <= q < 25 && 0 <= r < 4
  }

  lemma SplitYear(yoe: int, c: int, q: int, r: int)
    requires Split(yoe, c, q, r)
    ensures 0 <= yoe < 400 && YearStart(yoe) == 36524 * c + 1461 * q + 365 * r
    ensures Leap(yoe + 1) <==> r == 3 && (q < 24 || c == 3)
  {
    assert yoe / 4 == 25 * c + q && yoe / 100 == c;
    if r == 3 {
      assert yoe + 1 == 100 * c + 4 * (q + 1);
    }
  }

  lemma Quotients(n: int, k: int)
    ensures 1460 * k <= n < 1460 * k + 1460 ==> n / 1460 == k
    ensures 36524 * k <= n < 36524 * k + 36524 ==> n / 36524 == k
    ensures 146096 * k <= n < 146096 * k + 146096 ==> n / 146096 == k
    ensures 365 * k <= n < 365 * k + 365 ==> n / 365 == k
  {
  }

  /** The correction terms cancel the leap days before the year. */
  lemma CorrectionsCancel(c: int, q: int, r: int, doy: int)
    requires 0 <= c < 4 && 0 <= q < 25 && 0 <= r < 4 && 0 <= doy <= 365
    requires doy == 365 ==> r == 3 && (q < 24 || c == 3)
    ensures YearOfEra(36524 * c + 1461 * q + 365 * r + doy) == 100 * c + 4 * q + r
  {
    var e1 := if 24 * c + q + 365 * r + doy >= 1460 then 1 else 0;
    LeapQuotients(c, q, r, doy, e1);
    Quotients(365 * (100 * c + 4 * q + r) + doy - e1, 100 * c + 4 * q + r);
  }

  /** The three quotients the correction is made of. */
  lemma LeapQuotients(c: int, q: int, r: int, doy: int, e1: int)
    requires 0 <= c < 4 && 0 <= q < 25 && 0 <= r < 4 && 0 <= doy <= 365
    requires doy == 365 ==> r == 3 && (q < 24 || c == 3)
    requires e1 == if 24 * c + q + 365 * r + doy >= 1460 then 1 else 0
    ensures var doe, e2 := 36524 * c + 1461 * q + 365 * r + doy, if q == 24 && r == 3 && doy == 365 then 1 else 0;
            doe / 1460 == 25 * c + q + e1 && doe / 36524 == c + e2 && doe / 146096 == e2
  {
    var doe := 36524 * c + 1461 * q + 365 * r + doy;
    var e2 := if q == 24 && r == 3 && doy == 365 then 1 else 0;
    Quotients(doe, 25 * c + q + e1);
    Quotients(doe, c + e2);
    Quotients(doe, e2);
  }

  lemma YearOfEraIs(yoe: int, doy: int)
    requires InYear(yoe, doy)
    ensures 0 <= YearStart(yoe) + doy < 146097 && YearOfEra(YearStart(yoe) + doy) == yoe
  {
    var c, q, r := yoe / 100, yoe % 100 / 4, yoe % 4;
    SplitYear(yoe, c, q, r);
    CorrectionsCancel(c, q, r, doy);
  }

  /** The year of the era found is the one whose 365 or 366 days hold the day. */
  lemma YearOfEraFinds(doe: int)
    requires 0 <= doe < 146097
    ensures InYear(YearOfEra(doe), doe - YearStart(YearOfEra(doe)))
  {
    var c := if doe == 146096 then 3 else doe / 36524;
    var q := (doe - 36524 * c) / 1461;
    var rest := doe - 36524 * c - 1461 * q;
    var r := if rest == 1460 then 3 else rest / 365;
    var yoe := 100 * c + 4 * q + r;
    SplitYear(yoe, c, q, r);
    YearOfEraIs(yoe, rest - 365 * r);
  }

  /** Months of 30 or 31 days from March. */
  lemma MonthFinds(doy: int)
    requires 0 <= doy <= 365
    ensures var mp := (5 * doy + 2) / 153;
            0 <= mp <= 11 && MonthStart(mp) <= doy && (mp < 11 ==> doy < MonthStart(mp + 1))
  {
  }

  lemma MonthIs(mp: int, doy: int)
    requires 0 <= mp <= 11 && MonthStart(mp) <= doy <= 365 && (mp < 11 ==> doy < MonthStart(mp + 1))
    ensures (5 * doy + 2) / 153 == mp
  {
  }

  lemma MonthLengths(y: int, m: int)
    requires 1 <= m <= 12
    ensures var mp := if m > 2 then m - 3 else m + 9;
            if mp < 11 then DaysInMonth(y, m) == MonthStart(mp + 1) - MonthStart(mp)
            else MonthStart(mp) == 337 && DaysInMonth(y, m) == (if Leap(y) then 29 else 28)
  {
  }

  lemma Modulo400(y: int, era: int)
    ensures (y + era * 400) % 400 == y % 400 && (y + era * 400) / 400 == y / 400 + era
  {
  }

  lemma Modulo100(y: int, era: int)
    ensures (y + era * 400) % 100 == y % 100
  {
    assert y + era * 400 == 100 * (y / 100 + 4 * era) + y % 100;
  }

  lemma Modulo4(y: int, era: int)
    ensures (y + era * 400) % 4 == y % 4
  {
    assert y + era * 400 == 4 * (y / 4 + 100 * era) + y % 4;
  }

  lemma LeapInEra(y: int, era: int)
    ensures Leap(y + era * 400) <==> Leap(y)
  {
    Modulo400(y, era);
    Modulo100(y, era);
    Modulo4(y, era);
  }

  lemma DateInIsDate(era: int, yoe: int, doy: int)
    requires InYear(yoe, doy)
    ensures IsDate(DateIn(era, yoe, doy))
    ensures DaysFromCivil(DateIn(era, yoe, doy)) == era * 146097 + YearStart(yoe) + doy - 719468
  {
    DateInCalendar(era, yoe, doy);
    DateInNumber(era, yoe, doy);
  }

  lemma DateInCalendar(era: int, yoe: int, doy: int)
    requires InYear(yoe, doy)
    ensures IsDate(DateIn(era, yoe, doy))
  {
    var t := DateIn(era, yoe, doy);
    MonthFinds(doy);
    MonthLengths(t.y, t.m);
    LeapInEra(yoe + 1, era);
  }

  lemma DateInNumber(era: int, yoe: int, doy: int)
    requires InYear(yoe, doy)
    ensures DaysFromCivil(DateIn(era, yoe, doy)) == era * 146097 + YearStart(yoe) + doy - 719468
  {
    var mp := (5 * doy + 2) / 153;
    MonthFinds(doy);
    NumberIs(DateIn(era, yoe, doy), era, yoe, mp);
  }

  lemma NumberIs(t: Date, era: int, yoe: int, mp: int)
    requires 0 <= yoe < 400 && 0 <= mp <= 11
    requires t.m == (if mp < 10 then mp + 3 else mp - 9) && t.y == yoe + era * 400 + (if t.m <= 2 then 1 else 0)
    ensures DaysFromCivil(t) == era * 146097 + YearStart(yoe) + (MonthStart(mp) + t.d - 1) - 719468
  {
    Modulo400(yoe, era);
  }

  /** Every day number is a date of the calendar, and the inverse gives the number back. */
  lemma CivilIsDate(days: int)
    ensures IsDate(CivilFromDays(days)) && DaysFromCivil(CivilFromDays(days)) == days
  {
    var era, doe := CivilParts(days);
    FoundDate(era, doe);
  }

  lemma CivilParts(days: int) returns (era: int, doe: int)
    ensures days + 719468 == era * 146097 + doe && 0 <= doe < 146097
    ensures CivilFromDays(days) == DateIn(era, YearOfEra(doe), doe - YearStart(YearOfEra(doe)))
  {
    era, doe := (days + 719468) / 146097, (days + 719468) % 146097;
  }

  lemma FoundDate(era: int, doe: int)
    requires 0 <= doe < 146097
    ensures var t := DateIn(era, YearOfEra(doe), doe - YearStart(YearOfEra(doe)));
            IsDate(t) && DaysFromCivil(t) == era * 146097 + doe - 719468
  {
    YearOfEraFinds(doe);
    DateInIsDate(era, YearOfEra(doe), doe - YearStart(YearOfEra(doe)));
  }

  /** Every date of the calendar is the date of its day number. */
  lemma DaysIsCivil(t: Date)
    requires IsDate(t)
    ensures CivilFromDays(DaysFromCivil(t)) == t
  {
    var y := if t.m <= 2 then t.y - 1 else t.y;
    var era, yoe := y / 400, y % 400;
    var mp := if t.m > 2 then t.m - 3 else t.m + 9;
    var doy := MonthStart(mp) + t.d - 1;
    MonthLengths(t.y, t.m);
    LeapInEra(yoe + 1, era);
    YearOfEraIs(yoe, doy);
    MonthIs(mp, doy);
    DaysInEra(DaysFromCivil(t), t, era, yoe, doy);
  }

  lemma DaysInEra(days: int, t: Date, era: int, yoe: int, doy: int)
    requires DateIn(era, yoe, doy) == t && days + 719468 == era * 146097 + (YearStart(yoe) + doy)
    requires 0 <= YearStart(yoe) + doy < 146097 && YearOfEra(YearStart(yoe) + doy) == yoe
    ensures CivilFromDays(days) == t
  {
    EraIs(era, YearStart(yoe) + doy);
  }

  lemma EraIs(era: int, doe: int)
    requires 0 <= doe < 146097
    ensures (era * 146097 + doe) / 146097 == era && (era * 146097 + doe) % 146097 == doe
  {
  }

  /** The next day number is the next calendar date. */
  lemma NextDay(days: int)
    ensures CivilFromDays(days + 1) == NextDate(CivilFromDays(days))
  {
    var t := CivilFromDays(days);
    CivilIsDate(days);
    NextNumber(t);
    DaysIsCivil(NextDate(t));
  }

  lemma NextNumber(t: Date)
    requires IsDate(t)
    ensures IsDate(NextDate(t)) && DaysFromCivil(NextDate(t)) == DaysFromCivil(t) + 1
  {
    MonthLengths(t.y, t.m);
    if t.d == DaysInMonth(t.y, t.m) && t.m == 2 {
      NewYear(t.y);
    }
  }

  /** The first of March is the day after the last of February. */
  lemma NewYear(y: int)
    ensures DaysFromCivil(Date(y, 3, 1)) == DaysFromCivil(Date(y, 2, if Leap(y) then 29 else 28)) + 1
  {
    var era, yoe := y / 400, y % 400;
    LeapInEra(yoe, era);
    if yoe == 0 {
      assert (y - 1) / 400 == era - 1 && (y - 1) % 400 == 399;
    } else {
      assert (y - 1) / 400 == era && (y - 1) % 400 == yoe - 1;
      YearLength(yoe);
    }
  }

  lemma YearLength(yoe: int)
    requires 0 < yoe < 400
    ensures YearStart(yoe) - YearStart(yoe - 1) == if Leap(yoe) then 366 else 365
  {
  }

  // ------------------------------------------------------------------
  // RFC 3339 text

  /** `n` in at least `w` digits. */
  function Padded(n: nat, w: nat): (s: string)
    ensures |s| >= w && forall i :: 0 <= i < |s| ==> IsDigit(s[i])
    decreases w, n
  {
    if w == 0 then (if n == 0 then "" else Padded(n / 10, 0) + [Digit(n % 10)])
    else Padded(n / 10, w - 1) + [Digit(n % 10)]
  }

  /** `{:04}` of a signed year: the sign takes one of the four columns. */
  function YearText(y: int): string {
    if y < 0 then "-" + Padded(-y, 3) else Padded(y, 4)
  }

  /** `YYYY-MM-DDTHH:MM:SSZ` from its columns. */
  function Stamp(y: string, mo: string, d: string, h: string, mi: string, sec: string): string {
    y + "-" + mo + "-" + d + "T" + h + ":" + mi + ":" + sec + "Z"
  }

  function RenderAt(t: Date, s: nat): string
    requires IsDate(t)
  {
    Stamp(YearText(t.y), Padded(t.m, 2), Padded(t.d, 2), Padded(s / 3600, 2), Padded(s % 3600 / 60, 2),
          Padded(s % 60, 2))
  }

  function RenderDay(days: int, s: nat): string {
    CivilIsDate(days);
    RenderAt(CivilFromDays(days), s)
  }

  /** `to_rfc3339` of milliseconds since the epoch. */
  function Render(ms: int): string {
    RenderDay(ms / 1000 / 86400, ms / 1000 % 86400)
  }

  /** `str::parse::<i64>`: an optional sign, then digits. */
  function ParseInt(s: string): Option<int> {
    if s != "" && s[0] == '-' then
      if s == "-" || DigitsValue(s[1..]).None? then None else Some(0 - (DigitsValue(s[1..]).value as int))
    else if ParseNat(s).None? then None
    else Some(ParseNat(s).value)
  }

  /** The range checks of `parse_rfc3339` and the instant, in milliseconds. */
  function Instant(y: Option<int>, mo: Option<int>, d: Option<int>, h: Option<int>, mi: Option<int>,
                   sec: Option<int>): Option<int> {
    if y.None? || mo.None? || d.None? || h.None? || mi.None? || sec.None? then None
    else if !(1 <= mo.value <= 12) || !(1 <= d.value <= 31) || h.value > 23 || mi.value > 59 || sec.value > 60 then None
    else
      var days := DaysFromCivil(Date(y.value, mo.value, d.value));
      Some(((days * 24 + h.value) * 3600 + mi.value * 60 + sec.value) * 1000)
  }

  /** `parse_rfc3339` of the bytes of a text, each as a character; positions 13 and 16 are not looked at. */
  function ParseBytes(s: string): Option<int> {
    if |s| != 20 || s[4] != '-' || s[7] != '-' || s[10] != 'T' || s[19] != 'Z' then None
    else Instant(ParseInt(s[0..4]), ParseInt(s[5..7]), ParseInt(s[8..10]),
                 ParseInt(s[11..13]), ParseInt(s[14..16]), ParseInt(s[17..19]))
  }

  /**
   `parse_rfc3339`, which counts and cuts bytes. A column cut through a
   character is refused there and, read as bytes, is no number here.
   */
  function Parse(s: string): Option<int> {
    ParseBytes(AsRead(s))
  }

  function Pow10(w: nat): nat {
    if w == 0 then 1 else 10 * Pow10(w - 1)
  }

  /** A number that fits its columns fills them exactly and reads back. */
  lemma {:induction false} PaddedRoundTrip(n: nat, w: nat)
    requires n < Pow10(w)
    ensures |Padded(n, w)| == w && DigitsValue(Padded(n, w)) == Some(n)
  {
    if w == 0 {
    } else {
      PaddedRoundTrip(n / 10, w - 1);
      assert Padded(n, w)[..|Padded(n, w)| - 1] == Padded(n / 10, w - 1);
    }
  }

  lemma Powers()
    ensures Pow10(2) == 100 && Pow10(3) == 1000 && Pow10(4) == 10000
  {
    assert Pow10(1) == 10;
    assert Pow10(2) == 100;
    assert Pow10(3) == 1000;
  }

  lemma TwoDigits(n: nat)
    requires n < 100
    ensures |Padded(n, 2)| == 2 && ParseInt(Padded(n, 2)) == Some(n)
  {
    Powers();
    PaddedRoundTrip(n, 2);
    DigitsParse(Padded(n, 2));
  }

  lemma DigitsParse(s: string)
    requires s != "" && IsDigit(s[0])
    ensures ParseInt(s) == if DigitsValue(s).None? then None else Some(DigitsValue(s).value)
  {
  }

  lemma YearColumns(y: int)
    requires -999 <= y <= 9999
    ensures |YearText(y)| == 4 && ParseInt(YearText(y)) == Some(y)
  {
    Powers();
    if y < 0 {
      NegativeYear(y);
    } else {
      PaddedRoundTrip(y, 4);
      DigitsParse(Padded(y, 4));
    }
  }

  lemma NegativeYear(y: int)
    requires -999 <= y < 0
    ensures |YearText(y)| == 4 && ParseInt(YearText(y)) == Some(y)
  {
    Powers();
    PaddedRoundTrip(-y, 3);
    assert YearText(y)[1..] == Padded(-y, 3);
  }

  /** Columns of fixed width cut out of the rendered text. */
  lemma StampColumns(y: string, mo: string, d: string, h: string, mi: string, sec: string)
    requires |y| == 4 && |mo| == |d| == |h| == |mi| == |sec| == 2
    ensures var s := Stamp(y, mo, d, h, mi, sec);
            && |s| == 20
            && s[4] == '-' && s[7] == '-' && s[10] == 'T' && s[13] == ':' && s[16] == ':' && s[19] == 'Z'
            && s[0..4] == y && s[5..7] == mo && s[8..10] == d
            && s[11..13] == h && s[14..16] == mi && s[17..19] == sec
  {
    var s := Stamp(y, mo, d, h, mi, sec);
    assert |s| == 20 && s[4] == '-' && s[7] == '-' && s[10] == 'T' && s[19] == 'Z';
    assert s[0..4] == y;
    assert s[5..7] == mo;
    assert s[8..10] == d;
    assert s[11..13] == h;
    assert s[14..16] == mi;
    assert s[17..19] == sec;
  }

  lemma ParseStamp(y: string, mo: string, d: string, h: string, mi: string, sec: string)
    requires |y| == 4 && |mo| == |d| == |h| == |mi| == |sec| == 2
    ensures ParseBytes(Stamp(y, mo, d, h, mi, sec)) ==
            Instant(ParseInt(y), ParseInt(mo), ParseInt(d), ParseInt(h), ParseInt(mi), ParseInt(sec))
  {
    StampColumns(y, mo, d, h, mi, sec);
  }

  /** Columns that read as a date and a time of day read together as its instant. */
  lemma StampInstant(y: string, mo: string, d: string, h: string, mi: string, sec: string, t: Date, s: int)
    requires |y| == 4 && |mo| == |d| == |h| == |mi| == |sec| == 2
    requires IsDate(t) && 0 <= s < 86400
    requires ParseInt(y) == Some(t.y) && ParseInt(mo) == Some(t.m) && ParseInt(d) == Some(t.d)
    requires ParseInt(h) == Some(s / 3600) && ParseInt(mi) == Some(s % 3600 / 60) && ParseInt(sec) == Some(s % 60)
    ensures ParseBytes(Stamp(y, mo, d, h, mi, sec)) == Some((DaysFromCivil(t) * 86400 + s) * 1000)
  {
    ParseStamp(y, mo, d, h, mi, sec);
    InstantOf(t, s);
  }

  lemma InstantOf(t: Date, s: int)
    requires IsDate(t) && 0 <= s < 86400
    ensures Instant(Some(t.y), Some(t.m), Some(t.d), Some(s / 3600), Some(s % 3600 / 60), Some(s % 60)) ==
            Some((DaysFromCivil(t) * 86400 + s) * 1000)
  {
    assert t == Date(t.y, t.m, t.d);
    ClockParts(s);
  }

  lemma ClockColumns(s: int)
    requires 0 <= s < 86400
    ensures |Padded(s / 3600, 2)| == |Padded(s % 3600 / 60, 2)| == |Padded(s % 60, 2)| == 2
    ensures ParseInt(Padded(s / 3600, 2)) == Some(s / 3600)
    ensures ParseInt(Padded(s % 3600 / 60, 2)) == Some(s % 3600 / 60)
    ensures ParseInt(Padded(s % 60, 2)) == Some(s % 60)
  {
    TwoDigits(s / 3600);
    TwoDigits(s % 3600 / 60);
    TwoDigits(s % 60);
  }

  lemma ClockParts(s: int)
    requires 0 <= s < 86400
    ensures s / 3600 * 3600 + s % 3600 / 60 * 60 + s % 60 == s && s / 3600 < 24
  {
  }

  /** The year of the day fits its four columns, sign included. */
  predicate FourColumns(days: int) {
    -999 <= CivilFromDays(days).y <= 9999
  }

  lemma RenderAtParse(t: Date, s: nat)
    requires IsDate(t) && -999 <= t.y <= 9999 && s < 86400
    ensures ParseBytes(RenderAt(t, s)) == Some((DaysFromCivil(t) * 86400 + s) * 1000)
  {
    YearColumns(t.y);
    TwoDigits(t.m);
    TwoDigits(t.d);
    ClockColumns(s);
    StampInstant(YearText(t.y), Padded(t.m, 2), Padded(t.d, 2), Padded(s / 3600, 2), Padded(s % 3600 / 60, 2),
                 Padded(s % 60, 2), t, s);
  }

  lemma RenderParseBytes(ms: int)
    ensures ParseBytes(Render(ms)) == if FourColumns(ms / 1000 / 86400) then Some(ms / 1000 * 1000) else None
  {
    var secs := ms / 1000;
    DayParts(secs);
    RenderDayParse(secs / 86400, secs % 86400, secs);
  }

  lemma DayParts(secs: int)
    ensures secs / 86400 * 86400 + secs % 86400 == secs
  {
  }

  lemma RenderDayParse(days: int, s: nat, secs: int)
    requires s < 86400 && secs == days * 86400 + s
    ensures ParseBytes(RenderDay(days, s)) == if FourColumns(days) then Some(secs * 1000) else None
  {
    if FourColumns(days) {
      RenderedDay(days, s);
    } else {
      TooLong(days, s);
      LongIsRefused(RenderDay(days, s));
    }
  }

  lemma LongIsRefused(s: string)
    requires |s| > 20
    ensures ParseBytes(s).None?
  {
  }

  lemma TooLong(days: int, s: nat)
    requires !FourColumns(days)
    ensures |RenderDay(days, s)| > 20
  {
    var y := CivilFromDays(days).y;
    Powers();
    if y < 0 {
      PaddedLong(-y, 3);
    } else {
      PaddedLong(y, 4);
    }
  }

  lemma {:induction false} PaddedLong(n: nat, w: nat)
    requires n >= Pow10(w)
    ensures |Padded(n, w)| > w
  {
    if w == 0 {
    } else {
      PaddedLong(n / 10, w - 1);
    }
  }

  lemma RenderedDay(days: int, s: nat)
    requires FourColumns(days) && s < 86400
    ensures ParseBytes(RenderDay(days, s)) == Some((days * 86400 + s) * 1000)
  {
    CivilIsDate(days);
    RenderedDate(days, CivilFromDays(days), s);
  }

  lemma RenderedDate(days: int, t: Date, s: nat)
    requires IsDate(t) && -999 <= t.y <= 9999 && s < 86400 && days == DaysFromCivil(t)
    ensures ParseBytes(RenderAt(t, s)) == Some((days * 86400 + s) * 1000)
  {
    RenderAtParse(t, s);
  }

  /** Day numbers keep a date exactly when the calendar has it. */
  lemma DateIsKept(t: Date)
    ensures CivilFromDays(DaysFromCivil(t)) == t <==> IsDate(t)
  {
    CivilIsDate(DaysFromCivil(t));
    if IsDate(t) {
      DaysIsCivil(t);
    }
  }

  // ------------------------------------------------------------------
  // Texts that are accepted, and texts that are kept

  /** Four digits, or a minus sign and three that are not all zero. */
  predicate IsYear(s: string) {
    |s| == 4 && (IsDigits(s) || (s[0] == '-' && IsDigits(s[1..]) && s[1..] != "000"))
  }

  predicate AtMost(s: string, n: nat) {
    IsDigits(s) && DigitsValue(s).Some? && DigitsValue(s).value <= n
  }

  /** The columns are those of a calendar date. */
  predicate IsDateText(y: string, mo: string, d: string) {
    && IsYear(y) && IsDigits(mo) && IsDigits(d)
    && ParseInt(y).Some? && ParseInt(mo).Some? && ParseInt(d).Some?
    && IsDate(Date(ParseInt(y).value, ParseInt(mo).value, ParseInt(d).value))
  }

  /** `YYYY-MM-DDTHH:MM:SSZ` with every column what it should be, checkable on the text. */
  predicate IsCanonical(s: string) {
    && |s| == 20
    && s[4] == '-' && s[7] == '-' && s[10] == 'T' && s[13] == ':' && s[16] == ':' && s[19] == 'Z'
    && IsDateText(s[0..4], s[5..7], s[8..10])
    && AtMost(s[11..13], 23) && AtMost(s[14..16], 59) && AtMost(s[17..19], 59)
  }

  lemma {:induction false} PaddedBack(s: string)
    requires IsDigits(s)
    ensures DigitsValue(s).Some? && DigitsValue(s).value < Pow10(|s|) && Padded(DigitsValue(s).value, |s|) == s
  {
    if s == "" {
    } else {
      var n := |s| - 1;
      PaddedBack(s[..n]);
      var rest, c := DigitsValue(s[..n]).value, (s[n] - '0') as nat;
      assert (10 * rest + c) / 10 == rest && (10 * rest + c) % 10 == c && Digit(c) == s[n];
      Unsnoc(s);
    }
  }

  lemma TwoBack(s: string)
    requires |s| == 2 && IsDigits(s)
    ensures DigitsValue(s).Some? && ParseInt(s) == Some(DigitsValue(s).value) && Padded(DigitsValue(s).value, 2) == s
  {
    PaddedBack(s);
    DigitsParse(s);
  }

  lemma YearBack(s: string)
    requires IsYear(s)
    ensures ParseInt(s).Some? && -999 <= ParseInt(s).value <= 9999 && YearText(ParseInt(s).value) == s
  {
    Powers();
    if IsDigits(s) {
      PaddedBack(s);
      DigitsParse(s);
    } else {
      PaddedBack(s[1..]);
      ZeroPadded();
      assert s == ['-'] + s[1..];
    }
  }

  lemma ZeroPadded()
    ensures Padded(0, 3) == "000"
  {
    assert Padded(0, 0) == "" && Padded(0, 1) == "0" && Padded(0, 2) == "00";
  }

  /** A text of the right shape is its columns. */
  lemma StampBack(s: string)
    requires |s| == 20
    requires s[4] == '-' && s[7] == '-' && s[10] == 'T' && s[13] == ':' && s[16] == ':' && s[19] == 'Z'
    ensures s == Stamp(s[0..4], s[5..7], s[8..10], s[11..13], s[14..16], s[17..19])
  {
  }

  lemma ClockBack(h: nat, mi: nat, sec: nat)
    requires h <= 23 && mi <= 59 && sec <= 59
    ensures var s := h * 3600 + mi * 60 + sec;
            0 <= s < 86400 && s / 3600 == h && s % 3600 / 60 == mi && s % 60 == sec
  {
  }

  lemma InstantParts(days: int, s: nat)
    requires s < 86400
    ensures var ms := (days * 86400 + s) * 1000; ms / 1000 / 86400 == days && ms / 1000 % 86400 == s
  {
    assert (days * 86400 + s) * 1000 / 1000 == days * 86400 + s;
  }

  /** Canonical columns render as they were read. */
  lemma ColumnsBack(y: string, mo: string, d: string, h: string, mi: string, sec: string)
    requires |mo| == |d| == |h| == |mi| == |sec| == 2 && IsDateText(y, mo, d)
    requires AtMost(h, 23) && AtMost(mi, 59) && AtMost(sec, 59)
    ensures var text := Stamp(y, mo, d, h, mi, sec);
            ParseBytes(text).Some? && Render(ParseBytes(text).value) == text
  {
    var t := Date(ParseInt(y).value, ParseInt(mo).value, ParseInt(d).value);
    var s := DigitsValue(h).value * 3600 + DigitsValue(mi).value * 60 + DigitsValue(sec).value;
    YearBack(y);
    TwoBack(mo);
    TwoBack(d);
    TwoBack(h);
    TwoBack(mi);
    TwoBack(sec);
    ClockBack(DigitsValue(h).value, DigitsValue(mi).value, DigitsValue(sec).value);
    StampInstant(y, mo, d, h, mi, sec, t, s);
    RendersDate(t, s);
  }

  lemma RendersDate(t: Date, s: nat)
    requires IsDate(t) && s < 86400
    ensures Render((DaysFromCivil(t) * 86400 + s) * 1000) == RenderAt(t, s)
  {
    DaysIsCivil(t);
    RendersDay(DaysFromCivil(t), t, s);
  }

  lemma RendersDay(days: int, t: Date, s: nat)
    requires CivilFromDays(days) == t && IsDate(t) && s < 86400
    ensures Render((days * 86400 + s) * 1000) == RenderAt(t, s)
  {
    InstantParts(days, s);
  }

  lemma PaddedIsDigits(n: nat)
    requires n < 100
    ensures |Padded(n, 2)| == 2 && IsDigits(Padded(n, 2)) && DigitsValue(Padded(n, 2)) == Some(n)
    ensures ParseInt(Padded(n, 2)) == Some(n)
  {
    Powers();
    PaddedRoundTrip(n, 2);
    DigitsParse(Padded(n, 2));
  }

  lemma YearTextIsYear(y: int)
    requires -999 <= y <= 9999
    ensures IsYear(YearText(y)) && ParseInt(YearText(y)) == Some(y)
  {
    YearColumns(y);
    if y < 0 {
      Powers();
      PaddedRoundTrip(-y, 3);
      assert YearText(y)[1..] == Padded(-y, 3);
      PaddedBack("000");
      ZeroPadded();
      PaddedRoundTrip(0, 3);
    }
  }

  lemma RenderAtIsCanonical(t: Date, s: nat)
    requires IsDate(t) && -999 <= t.y <= 9999 && s < 86400
    ensures IsCanonical(RenderAt(t, s))
  {
    YearTextIsYear(t.y);
    PaddedIsDigits(t.m);
    PaddedIsDigits(t.d);
    PaddedIsDigits(s / 3600);
    PaddedIsDigits(s % 3600 / 60);
    PaddedIsDigits(s % 60);
    assert t == Date(t.y, t.m, t.d);
    StampColumns(YearText(t.y), Padded(t.m, 2), Padded(t.d, 2),
                 Padded(s / 3600, 2), Padded(s % 3600 / 60, 2), Padded(s % 60, 2));
  }

  lemma RenderIsCanonical(ms: int)
    ensures |Render(ms)| <= 20 ==> IsCanonical(Render(ms))
  {
    var days, s := ms / 1000 / 86400, ms / 1000 % 86400;
    if FourColumns(days) {
      CivilIsDate(days);
      RenderAtIsCanonical(CivilFromDays(days), s);
    } else {
      TooLong(days, s);
    }
  }

  lemma CanonicalIsAscii(s: string)
    requires IsCanonical(s)
    ensures IsAscii(s) && AsRead(s) == s
  {
    var y := s[0..4];
    assert forall i :: 0 < i < 4 ==> y[i] == y[1..][i - 1];
    assert forall i :: 0 <= i < 4 ==> s[i] == y[i] && (IsDigit(y[i]) || y[i] == '-');
    assert s[5] == s[5..7][0] && s[6] == s[5..7][1] && s[8] == s[8..10][0] && s[9] == s[8..10][1];
    assert s[11] == s[11..13][0] && s[12] == s[11..13][1] && s[14] == s[14..16][0] && s[15] == s[14..16][1];
    assert s[17] == s[17..19][0] && s[18] == s[17..19][1];
    ReadIff(s);
  }

  lemma CanonicalBytes(s: string)
    requires IsCanonical(s)
    ensures ParseBytes(s).Some? && Render(ParseBytes(s).value) == s
  {
    StampBack(s);
    ColumnsBack(s[0..4], s[5..7], s[8..10], s[11..13], s[14..16], s[17..19]);
  }

  /** A text is accepted and rendered back as it was exactly when it is canonical. */
  lemma CanonicalIff(s: string)
    ensures Parse(s).Some? && Render(Parse(s).value) == s <==> IsCanonical(s)
  {
    if IsCanonical(s) {
      CanonicalIsAscii(s);
      CanonicalBytes(s);
    }
    if Parse(s).Some? && Render(Parse(s).value) == s {
      ReadIff(s);
      RenderIsCanonical(Parse(s).value);
    }
  }

  // ------------------------------------------------------------------
  // What is accepted

  /** `n` in exactly the digits of `u`, leading zeros and all. */
  predicate Spells(u: string, n: int) {
    u != "" && n >= 0 && Padded(n, |u|) == u
  }

  /** Digits, with or without a sign in front. */
  predicate ReadsAs(t: string, n: int) {
    || Spells(t, n)
    || (t != "" && t[0] == '+' && Spells(t[1..], n))
    || (t != "" && t[0] == '-' && Spells(t[1..], -n))
  }

  lemma DigitsIff(u: string, n: int)
    ensures u != "" && n >= 0 && DigitsValue(u) == Some(n) <==> Spells(u, n)
  {
    if u != "" && n >= 0 && DigitsValue(u) == Some(n) {
      ValueIsDigits(u);
      PaddedBack(u);
    }
    if Spells(u, n) {
      if n >= Pow10(|u|) {
        PaddedLong(n, |u|);
      }
      PaddedRoundTrip(n, |u|);
    }
  }

  lemma ReadsIff(t: string, n: int)
    ensures ParseInt(t) == Some(n) <==> ReadsAs(t, n)
  {
    DigitsIff(t, n);
    if t != "" {
      DigitsIff(t[1..], n);
      DigitsIff(t[1..], -n);
      SignedIff(t, n);
    }
  }

  lemma SignedIff(t: string, n: int)
    requires t != ""
    ensures Spells(t, n) ==> IsDigit(t[0])
  {
  }

  /** The columns of a text that is accepted, and the numbers they read as. */
  predicate Accepted(s: string, t: Date, h: int, mi: int, sec: int) {
    && |s| == 20 && IsAscii(s)
    && s[4] == s[7] == '-' && s[10] == 'T' && s[19] == 'Z'
    && ReadsAs(s[0..4], t.y) && ReadsAs(s[5..7], t.m) && ReadsAs(s[8..10], t.d)
    && ReadsAs(s[11..13], h) && ReadsAs(s[14..16], mi) && ReadsAs(s[17..19], sec)
    && 1 <= t.m <= 12 && 1 <= t.d <= 31 && h <= 23 && mi <= 59 && sec <= 60
  }

  /**
   Exactly which texts are accepted, and the instant of each: days are counted
   on from the first of the month, seconds on from midnight.
   */
  lemma ParseIff(s: string)
    ensures Parse(s).Some? <==> exists t, h, mi, sec :: Accepted(s, t, h, mi, sec)
    ensures forall t, h, mi, sec | Accepted(s, t, h, mi, sec) ::
              Parse(s) == Some(((DaysFromCivil(Date(t.y, t.m, 1)) + t.d - 1) * 86400 + h * 3600 + mi * 60 + sec) * 1000)
  {
    if Parse(s).Some? {
      AcceptedIs(s);
    }
    forall t, h, mi, sec | Accepted(s, t, h, mi, sec)
      ensures Parse(s) ==
              Some(((DaysFromCivil(Date(t.y, t.m, 1)) + t.d - 1) * 86400 + h * 3600 + mi * 60 + sec) * 1000)
    {
      IsAccepted(s, t, h, mi, sec);
    }
  }

  lemma AcceptedIs(s: string)
    requires Parse(s).Some?
    ensures exists t, h, mi, sec :: Accepted(s, t, h, mi, sec)
  {
    if !IsAscii(s) {
      WideIsRefused(s);
    }
    ReadIff(s);
    var y, mo, d := ParseInt(s[0..4]).value, ParseInt(s[5..7]).value, ParseInt(s[8..10]).value;
    var h, mi, sec := ParseInt(s[11..13]).value, ParseInt(s[14..16]).value, ParseInt(s[17..19]).value;
    ReadsIff(s[0..4], y);
    ReadsIff(s[5..7], mo);
    ReadsIff(s[8..10], d);
    ReadsIff(s[11..13], h);
    ReadsIff(s[14..16], mi);
    ReadsIff(s[17..19], sec);
    assert Accepted(s, Date(y, mo, d), h, mi, sec);
  }

  lemma IsAccepted(s: string, t: Date, h: int, mi: int, sec: int)
    requires Accepted(s, t, h, mi, sec)
    ensures Parse(s) == Some(((DaysFromCivil(Date(t.y, t.m, 1)) + t.d - 1) * 86400 + h * 3600 + mi * 60 + sec) * 1000)
  {
    ReadIff(s);
    ReadsIff(s[0..4], t.y);
    ReadsIff(s[5..7], t.m);
    ReadsIff(s[8..10], t.d);
    ReadsIff(s[11..13], h);
    ReadsIff(s[14..16], mi);
    ReadsIff(s[17..19], sec);
    InstantIs(t, h, mi, sec);
  }

  lemma InstantIs(t: Date, h: int, mi: int, sec: int)
    requires 1 <= t.m <= 12 && 1 <= t.d <= 31 && h <= 23 && mi <= 59 && sec <= 60
    ensures Instant(Some(t.y), Some(t.m), Some(t.d), Some(h), Some(mi), Some(sec)) ==
            Some(((DaysFromCivil(Date(t.y, t.m, 1)) + t.d - 1) * 86400 + h * 3600 + mi * 60 + sec) * 1000)
  {
    assert DaysFromCivil(t) == DaysFromCivil(Date(t.y, t.m, 1)) + t.d - 1;
    assert t == Date(t.y, t.m, t.d);
  }

  /**
   Parsing a rendered timestamp gives it back floored to the second, exactly
   when its year fits four columns; otherwise the text is not accepted.
   */
  lemma RenderParse(ms: int)
    ensures Parse(Render(ms)) == if FourColumns(ms / 1000 / 86400) then Some(ms / 1000 * 1000) else None
  {
    var s := Render(ms);
    RenderParseBytes(ms);
    if FourColumns(ms / 1000 / 86400) {
      RenderIsCanonical(ms);
      CanonicalIsAscii(s);
    } else {
      TooLong(ms / 1000 / 86400, ms / 1000 % 86400);
      ReadIff(s);
    }
  }

  /** So a decoded timestamp renders as it was written. */
  lemma RenderStable(ms: int)
    requires FourColumns(ms / 1000 / 86400)
    ensures Parse(Render(ms)).Some? && Render(Parse(Render(ms)).value) == Render(ms)
  {
    RenderParse(ms);
    assert ms / 1000 * 1000 / 1000 == ms / 1000;
  }

  // ------------------------------------------------------------------
  // Records read back

  /** A record as it is after decoding: its timestamp parsed, and rendered again to be hashed. */
  function Redecoded(r: Record): Option<Record> {
    if Parse(r.recordedAt).None? then None else Some(r.(recordedAt := Render(Parse(r.recordedAt).value)))
  }

  /** A record the writer stamped re-hashes the same. */
  lemma RehashesSame(s: Suite, r: Record, ms: int)
    requires r.recordedAt == Render(ms) && FourColumns(ms / 1000 / 86400)
    ensures Redecoded(r) == Some(r) && ComputeHash(s, Redecoded(r).value) == ComputeHash(s, r)
  {
    RenderStable(ms);
  }

  /**
   Whoever wrote the timestamp: a record that decodes comes back as it was
   exactly when the text is canonical, and if it does not, its hash no longer
   matches, unless the two hash inputs collide.
   */
  lemma RehashIff(s: Suite, r: Record)
    requires Faithful(s) && Redecoded(r).Some?
    ensures Redecoded(r).value == r <==> IsCanonical(r.recordedAt)
    ensures var r' := Redecoded(r).value;
            ComputeHash(s, r') == ComputeHash(s, r) ==>
              r' == r || Collides(s.sha, Pair(HashInput(s, r'), HashInput(s, r)))
  {
    var r' := Redecoded(r).value;
    CanonicalIff(r.recordedAt);
    if ComputeHash(s, r') == ComputeHash(s, r) {
      HexInjective(s.sha(HashInput(s, r')), s.sha(HashInput(s, r)));
      if HashInput(s, r') == HashInput(s, r) {
        assert r'.(recordHash := "") == r.(recordHash := "");
        assert r'.recordedAt == r'.(recordHash := "").recordedAt == r.recordedAt;
      }
    }
  }

  // ------------------------------------------------------------------
  // Texts that are accepted all the same

  /** Two digits at position `i`. */
  lemma Column(s: string, i: nat)
    requires i + 2 <= |s| && IsDigit(s[i]) && IsDigit(s[i + 1])
    ensures ParseInt(s[i..i + 2]) == Some(10 * ((s[i] - '0') as int) + (s[i + 1] - '0') as int)
  {
    var t := s[i..i + 2];
    assert t[..1][..0] == "" && t[..1] == [t[0]];
    assert DigitsValue([t[0]]) == Some((t[0] - '0') as nat);
  }

  /** A sign and a digit at position `i`. */
  lemma SignedColumn(s: string, i: nat)
    requires i + 2 <= |s| && s[i] in "+-" && IsDigit(s[i + 1])
    ensures ParseInt(s[i..i + 2]) ==
            Some(if s[i] == '-' then 0 - ((s[i + 1] - '0') as int) else (s[i + 1] - '0') as int)
  {
    var t := s[i..i + 2];
    assert t[1..] == [t[1]] && [t[1]][..0] == "";
    assert DigitsValue([t[1]]) == Some((t[1] - '0') as nat);
  }

  lemma Year2023()
    ensures ParseInt("2023") == Some(2023)
  {
    assert "2023"[..3] == "202" && "202"[..2] == "20" && "20"[..1] == "2" && "2"[..0] == "";
    assert DigitsValue("2") == Some(2) && DigitsValue("20") == Some(20) && DigitsValue("202") == Some(202);
  }

  predicate Is2023(s: string) {
    && |s| == 20 && s[0] == '2' && s[1] == '0' && s[2] == '2' && s[3] == '3'
    && s[4] == '-' && s[7] == '-' && s[10] == 'T' && s[13] == ':' && s[16] == ':' && s[19] == 'Z'
  }


  /** A text of 2023 whose other columns read as these numbers. */
  lemma Parse2023(s: string, mo: int, d: int, h: int, mi: int, sec: int, days: int)
    requires Is2023(s) && days == DaysFromCivil(Date(2023, mo, d))
    requires ParseInt(s[5..7]) == Some(mo) && ParseInt(s[8..10]) == Some(d)
    requires ParseInt(s[11..13]) == Some(h) && ParseInt(s[14..16]) == Some(mi) && ParseInt(s[17..19]) == Some(sec)
    requires 1 <= mo <= 12 && 1 <= d <= 31 && h <= 23 && mi <= 59 && sec <= 60
    ensures ParseBytes(s) == Some(Millis(days, h, mi, sec))
  {
    assert s[0..4] == "2023";
    Year2023();
  }

  lemma Days2023()
    ensures DaysFromCivil(Date(2023, 2, 31)) == DaysFromCivil(Date(2023, 3, 3)) == 19419
  {
    NumberIs(Date(2023, 2, 31), 5, 22, 11);
    NumberIs(Date(2023, 3, 3), 5, 23, 0);
  }

  lemma AsciiParse(s: string, ms: int)
    requires IsAscii(s) && ParseBytes(s) == Some(ms)
    ensures Parse(s) == Some(ms)
  {
    ReadIff(s);
  }

  function Millis(days: int, h: int, mi: int, sec: int): int {
    ((days * 24 + h) * 3600 + mi * 60 + sec) * 1000
  }

  /** 31 February 2023 is accepted at any time of day, as 3 March at that time. */
  lemma DateIsLost(s: string, t: string, h: int, mi: int, sec: int)
    requires Is2023(s) && Reads(s, 5, 2) && Reads(s, 8, 31) && Is2023(t) && Reads(t, 5, 3) && Reads(t, 8, 3)
    requires Reads(s, 11, h) && Reads(s, 14, mi) && Reads(s, 17, sec)
    requires Reads(t, 11, h) && Reads(t, 14, mi) && Reads(t, 17, sec)
    requires h <= 23 && mi <= 59 && sec <= 60
    ensures Parse(s).Some? && Parse(s) == Parse(t)
  {
    February31(s, h, mi, sec);
    March3(t, h, mi, sec);
  }

  lemma February31(s: string, h: int, mi: int, sec: int)
    requires Is2023(s) && Reads(s, 5, 2) && Reads(s, 8, 31)
    requires Reads(s, 11, h) && Reads(s, 14, mi) && Reads(s, 17, sec) && h <= 23 && mi <= 59 && sec <= 60
    ensures Parse(s) == Some(Millis(19419, h, mi, sec))
  {
    Days2023();
    ParseDigits(s, 2, 31, h, mi, sec, 19419);
  }

  lemma March3(s: string, h: int, mi: int, sec: int)
    requires Is2023(s) && Reads(s, 5, 3) && Reads(s, 8, 3)
    requires Reads(s, 11, h) && Reads(s, 14, mi) && Reads(s, 17, sec) && h <= 23 && mi <= 59 && sec <= 60
    ensures Parse(s) == Some(Millis(19419, h, mi, sec))
  {
    Days2023();
    ParseDigits(s, 3, 3, h, mi, sec, 19419);
  }

  /** Signs are read: minute -1 of hour +1 on 3 March 2023 is 00:59. */
  lemma SignIsLost(s: string, t: string)
    requires Is2023(s) && Reads(s, 5, 3) && Reads(s, 8, 3) && Reads(s, 17, 0)
    requires s[11] == '+' && s[12] == '1' && s[14] == '-' && s[15] == '1'
    requires Is2023(t) && Reads(t, 5, 3) && Reads(t, 8, 3) && Reads(t, 11, 0) && Reads(t, 14, 59) && Reads(t, 17, 0)
    ensures Parse(s).Some? && Parse(s) == Parse(t)
  {
    assert DaysFromCivil(Date(2023, 3, 3)) == 19419 by { Days2023(); }
    ParseSigned(s, 19419, Millis(19419, 0, 59, 0));
    March3(t, 0, 59, 0);
  }

  lemma ParseSigned(s: string, days: int, ms: int)
    requires Is2023(s) && s[11] == '+' && s[12] == '1' && s[14] == '-' && s[15] == '1'
    requires Reads(s, 5, 3) && Reads(s, 8, 3) && Reads(s, 17, 0)
    requires days == DaysFromCivil(Date(2023, 3, 3)) && ms == Millis(days, 0, 59, 0)
    ensures Parse(s) == Some(ms)
  {
    SignedColumns(s);
    Parse2023(s, 3, 3, 1, -1, 0, days);
    AllAscii(s);
    AsciiParse(s, ms);
  }

  lemma SignedColumns(s: string)
    requires Is2023(s) && s[11] == '+' && s[12] == '1' && s[14] == '-' && s[15] == '1'
    requires Reads(s, 5, 3) && Reads(s, 8, 3) && Reads(s, 17, 0)
    ensures ParseInt(s[5..7]) == Some(3) && ParseInt(s[8..10]) == Some(3) && ParseInt(s[17..19]) == Some(0)
    ensures ParseInt(s[11..13]) == Some(1) && ParseInt(s[14..16]) == Some(-1)
  {
    Column(s, 5);
    Column(s, 8);
    SignedColumn(s, 11);
    SignedColumn(s, 14);
    Column(s, 17);
  }

  /** The ten positions such a text leaves open. */
  lemma AllAscii(s: string)
    requires Is2023(s) && s[5] as int < 0x80 && s[6] as int < 0x80 && s[8] as int < 0x80 && s[9] as int < 0x80
    requires s[11] as int < 0x80 && s[12] as int < 0x80 && s[14] as int < 0x80 && s[15] as int < 0x80
    requires s[17] as int < 0x80 && s[18] as int < 0x80
    ensures IsAscii(s)
  {
  }

  /** The two digits at `i` are `n`. */
  predicate Reads(s: string, i: nat, n: int) {
    i + 2 <= |s| && IsDigit(s[i]) && IsDigit(s[i + 1]) && 10 * ((s[i] - '0') as int) + (s[i + 1] - '0') as int == n
  }

  lemma ParseDigits(s: string, mo: int, d: int, h: int, mi: int, sec: int, days: int)
    requires Is2023(s) && days == DaysFromCivil(Date(2023, mo, d))
    requires Reads(s, 5, mo) && Reads(s, 8, d) && Reads(s, 11, h) && Reads(s, 14, mi) && Reads(s, 17, sec)
    requires 1 <= mo <= 12 && 1 <= d <= 31 && h <= 23 && mi <= 59 && sec <= 60
    ensures Parse(s) == Some(Millis(days, h, mi, sec))
  {
    Column(s, 5);
    Column(s, 8);
    Column(s, 11);
    Column(s, 14);
    Column(s, 17);
    Parse2023(s, mo, d, h, mi, sec, days);
    AllAscii(s);
    AsciiParse(s, Millis(days, h, mi, sec));
  }

  /** Second 60 is accepted wherever second 0 is, as the minute after. */
  lemma SixtyIsNext(s: string, t: string)
    requires |s| == |t| == 20 && forall i :: 0 <= i < 20 && i != 17 && i != 18 ==> s[i] == t[i]
    requires s[17] == '6' && s[18] == '0' && t[17] == '0' && t[18] == '0'
    ensures Parse(s) == if Parse(t).None? then None else Some(Parse(t).value + 60000)
  {
    AsciiAlike(s, t);
    if IsAscii(s) {
      ReadIff(s);
      ReadIff(t);
      SixtyBytes(s, t);
    } else {
      WideIsRefused(s);
      WideIsRefused(t);
    }
  }

  lemma SixtyBytes(s: string, t: string)
    requires |s| == |t| == 20 && forall i :: 0 <= i < 20 && i != 17 && i != 18 ==> s[i] == t[i]
    requires s[17] == '6' && s[18] == '0' && t[17] == '0' && t[18] == '0'
    ensures ParseBytes(s) == if ParseBytes(t).None? then None else Some(ParseBytes(t).value + 60000)
  {
    Column(s, 17);
    Column(t, 17);
    SameColumns(s, t);
    SixtyInstant(ParseInt(s[0..4]), ParseInt(s[5..7]), ParseInt(s[8..10]), ParseInt(s[11..13]), ParseInt(s[14..16]));
  }

  lemma SameColumns(s: string, t: string)
    requires |s| == |t| == 20
    requires forall i :: 0 <= i < 20 && i != 13 && i != 16 && i != 17 && i != 18 ==> s[i] == t[i]
    ensures s[0..4] == t[0..4] && s[5..7] == t[5..7] && s[8..10] == t[8..10]
    ensures s[11..13] == t[11..13] && s[14..16] == t[14..16]
  {
  }

  lemma SixtyInstant(y: Option<int>, mo: Option<int>, d: Option<int>, h: Option<int>, mi: Option<int>)
    ensures Instant(y, mo, d, h, mi, Some(60)) ==
            var i := Instant(y, mo, d, h, mi, Some(0)); if i.None? then None else Some(i.value + 60000)
  {
  }

  lemma AsciiAlike(s: string, t: string)
    requires |s| == |t|
    requires forall i :: 0 <= i < |s| ==> (s[i] as int < 0x80 <==> t[i] as int < 0x80)
    ensures IsAscii(s) <==> IsAscii(t)
  {
  }

  lemma IntAscii(s: string)
    requires ParseInt(s).Some?
    ensures IsAscii(s)
  {
    if s[0] == '-' || s[0] == '+' {
      ValueIsDigits(s[1..]);
      assert forall i :: 0 < i < |s| ==> s[i] == s[1..][i - 1];
    } else {
      ValueIsDigits(s);
    }
  }

  /** Two neighbours above ASCII, as every character above it is read. */
  ghost predicate WideAt(r: string, k: nat) {
    k + 1 < |r| && r[k] as int >= 0x80 && r[k + 1] as int >= 0x80
  }

  lemma WideFound(s: string) returns (k: nat)
    requires !IsAscii(s)
    ensures WideAt(AsRead(s), k)
  {
    var i :| 0 <= i < |s| && s[i] as int >= 0x80;
    assert s == s[..i] + s[i..];
    ReadConcat(s[..i], s[i..]);
    WideHere(s[i..]);
    WideConcat(AsRead(s[..i]), AsRead(s[i..]), 0);
    k := |AsRead(s[..i])|;
  }

  lemma WideHere(s: string)
    requires s != "" && s[0] as int >= 0x80
    ensures WideAt(AsRead(s), 0)
  {
    ReadCons(s);
    ReadChar(s[0]);
    WideConcat(AsRead([s[0]]), AsRead(s[1..]), 0);
  }

  lemma WideConcat(a: string, b: string, k: nat)
    ensures WideAt(a, k) ==> WideAt(a + b, k)
    ensures WideAt(b, k) ==> WideAt(a + b, |a| + k)
  {
    if k + 1 < |b| {
      assert (a + b)[|a| + k] == b[k] && (a + b)[|a| + k + 1] == b[k + 1];
    }
  }

  lemma SliceAscii(r: string, i: nat, j: nat)
    requires i <= j <= |r| && ParseInt(r[i..j]).Some?
    ensures forall k :: i <= k < j ==> r[k] as int < 0x80
  {
    IntAscii(r[i..j]);
    assert forall k :: i <= k < j ==> r[k] == r[i..j][k - i];
  }

  lemma ColumnsAscii(r: string)
    requires ParseBytes(r).Some?
    ensures |r| == 20 && forall k :: 0 <= k < 20 && k != 13 && k != 16 ==> r[k] as int < 0x80
  {
    SliceAscii(r, 0, 4);
    SliceAscii(r, 5, 7);
    SliceAscii(r, 8, 10);
    SliceAscii(r, 11, 13);
    SliceAscii(r, 14, 16);
    SliceAscii(r, 17, 19);
  }

  /** A text with a character of two bytes or more, wherever it stands, is refused. */
  lemma WideIsRefused(s: string)
    requires !IsAscii(s)
    ensures Parse(s) == None
  {
    var k := WideFound(s);
    if ParseBytes(AsRead(s)).Some? {
      ColumnsAscii(AsRead(s));
    }
  }

  /** Which ASCII characters stand at positions 13 and 16 makes no difference. */
  lemma ColonsAreUnread(s: string, t: string)
    requires |s| == |t| && forall i :: 0 <= i < |s| && i != 13 && i != 16 ==> s[i] == t[i]
    requires forall i :: 0 <= i < |s| && (i == 13 || i == 16) ==> s[i] as int < 0x80 && t[i] as int < 0x80
    ensures Parse(s) == Parse(t)
  {
    AsciiAlike(s, t);
    if IsAscii(s) {
      ReadIff(s);
      ReadIff(t);
      if |s| == 20 {
        SameColumns(s, t);
        assert s[17..19] == t[17..19];
      }
    } else {
      WideIsRefused(s);
      WideIsRefused(t);
    }
  }

}
