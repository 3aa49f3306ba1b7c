/** The conversions between file times (unsigned 64-bit counts of 100-nanosecond ticks since 1601) and OLE
    Automation dates (days since 1899-12-30) of disphelper.c, in exact real arithmetic. */
module FileTime {

  const ONE_DAY := 864_000_000_000
  const DAY0 := 94_353_120_000_000_000
  const OVERFLOW := 2_650_467_744_000_000_000
  const DATE_DAY0 := -109_205
  const WORD := 0x1_0000_0000_0000_0000

  /** A converted value, the error E_INVALIDARG, or a conversion the C language leaves undefined. */
  datatype Outcome<T> = Converted(value: T) | InvalidArg | Undefined

  /** A 64-bit word read as a signed number. */
  function Signed(word: nat): int
    requires word < WORD
  {
    if word < WORD / 2 then word else word - WORD
  }

  function Ceil(x: real): int {
    -(-x).Floor
  }

  // ---------- the calendar

  predicate IsLeap(year: nat) {
    year % 4 == 0 && (year % 100 != 0 || year % 400 == 0)
  }

  /** Days from the beginning of 1601 to that of another year, by the Gregorian calendar. */
  function DaysTo(year: nat): nat
    requires year >= 1601
  {
    if year == 1601 then 0 else DaysTo(year - 1) + if IsLeap(year - 1) then 366 else 365
  }

  lemma {:induction false} DaysToIs(year: nat)
    requires year >= 1601
    ensures DaysTo(year) == 365 * (year - 1601) + (year - 1) / 4 - (year - 1) / 100 + (year - 1) / 400 - 388
  {
    if year > 1601 {
      DaysToIs(year - 1);
      LeapYearCounts(year - 1);
    }
  }

  /** A leap year adds one to the leap years so far. */
  lemma LeapYearCounts(y: nat)
    requires y > 0
    ensures y / 4 - y / 100 + y / 400 == (y - 1) / 4 - (y - 1) / 100 + (y - 1) / 400 + if IsLeap(y) then 1 else 0
  {
    Fourths(y);
    Hundredths(y);
    FourHundredths(y);
    Divisible(y);
  }

  lemma Fourths(y: nat)
    requires y > 0
    ensures y / 4 == (y - 1) / 4 + if y % 4 == 0 then 1 else 0
  {
  }

  lemma Hundredths(y: nat)
    requires y > 0
    ensures y / 100 == (y - 1) / 100 + if y % 100 == 0 then 1 else 0
  {
  }

  lemma FourHundredths(y: nat)
    requires y > 0
    ensures y / 400 == (y - 1) / 400 + if y % 400 == 0 then 1 else 0
  {
  }

  lemma Divisible(y: nat)
    ensures y % 400 == 0 ==> y % 100 == 0
    ensures y % 100 == 0 ==> y % 4 == 0
  {
    if y % 400 == 0 { assert y == 100 * (4 * (y / 400)); }
    if y % 100 == 0 { assert y == 4 * (25 * (y / 100)); }
  }

  /** The constants are what they stand for: a day in units of 100 nanoseconds; 1899-12-30, the 364th day of its
      year, from the first file time, and back in days; and the end of the year 9999, which is the limit. */
  lemma ConstantsAreDates()
    ensures ONE_DAY == 24 * 60 * 60 * 10_000_000
    ensures DAY0 == (DaysTo(1899) + 363) * ONE_DAY && DATE_DAY0 == -(DaysTo(1899) + 363)
    ensures OVERFLOW == DaysTo(10000) * ONE_DAY
  {
    hide DaysTo;
    DaysToIs(1899);
    DaysToIs(10000);
  }

  // ---------- what an OLE date means

  /** The whole part, without the sign of the fraction: the day. */
  function DayOf(date: real): int {
    if date < 0.0 then Ceil(date) else date.Floor
  }

  /** The fraction, which counts forward from midnight also before day 0: the time of day. */
  function TimeOf(date: real): real {
    if date < DayOf(date) as real then DayOf(date) as real - date else date - DayOf(date) as real
  }

  /** The instant a date stands for, in days on an ordinary number line. */
  function Instant(date: real): real {
    DayOf(date) as real + TimeOf(date)
  }

  // ---------- the code

  function Fold(date: real): real {
    if date < 0.0 then date.Floor as real + (date.Floor as real - date) else date
  }

  function Unfold(date: real): real {
    if date < 0.0 then Ceil(date) as real + (Ceil(date) as real - date) else date
  }

  function ToVariantTime(ft: nat): Outcome<real>
    requires ft < WORD
  {
    var scalar := (ft + 500) % WORD;
    if scalar >= OVERFLOW then InvalidArg
    else Converted(Fold(Signed((scalar - DAY0) % WORD) as real / ONE_DAY as real))
  }

  function ToFileTime(date: real): Outcome<nat> {
    var days := Unfold(date);
    if days < DATE_DAY0 as real then InvalidArg
    else
      Ticks(days);
      var scalar := days * ONE_DAY as real + DAY0 as real;
      if scalar >= WORD as real then Undefined else Converted(scalar.Floor)
  }

  lemma Ticks(days: real)
    requires days >= DATE_DAY0 as real
    ensures days * ONE_DAY as real + DAY0 as real >= 0.0
  {
    assert days * ONE_DAY as real >= DATE_DAY0 as real * ONE_DAY as real;
  }

  // ---------- what the code does

  /** Unfolding gives the instant a date stands for; folding gives a date that stands for the instant, the
      only one outside the open interval from -1 to 0. */
  lemma FoldIsTheDateOf(t: real, date: real)
    ensures Unfold(date) == Instant(date)
    ensures Instant(Fold(t)) == t
    ensures date == Fold(t) <==> Instant(date) == t && !(-1.0 < date < 0.0)
  {
    FoldDay(t);
    UnfoldIsInstant(date);
    if Instant(date) == t && !(-1.0 < date < 0.0) {
      UnfoldThenFold(date);
    }
  }

  lemma UnfoldIsInstant(date: real)
    ensures Unfold(date) == Instant(date)
  {
  }

  /** A folded instant keeps its day and its time of day. */
  lemma FoldDay(t: real)
    ensures DayOf(Fold(t)) == t.Floor && TimeOf(Fold(t)) == t - t.Floor as real
    ensures !(-1.0 < Fold(t) < 0.0)
  {
    if t < 0.0 {
      var f := t.Floor;
      var d := Fold(t);
      assert f as real >= d > f as real - 1.0;
      assert (-d).Floor == -f;
    }
  }

  /** Dates between -1 and 0 stand for the same instants as those between 0 and 1; every other date comes
      back. */
  lemma UnfoldThenFold(date: real)
    ensures Fold(Unfold(date)) == date <==> !(-1.0 < date < 0.0)
  {
    if date <= -1.0 {
      var c := Ceil(date);
      assert c as real - 1.0 < date <= c as real;
      assert Unfold(date).Floor == c;
    } else if date < 0.0 {
      assert Ceil(date) == 0;
      assert Unfold(date) == -date;
    }
  }

  /** A file time is accepted exactly when 500 ticks more, in 64 bits, is before the limit; there and back
      then gives those ticks. */
  lemma RoundTrip(ft: nat)
    requires ft < WORD
    ensures ToVariantTime(ft).Converted? <==> (ft + 500) % WORD < OVERFLOW
    ensures ToVariantTime(ft).Converted? ==>
              ToFileTime(ToVariantTime(ft).value) == Converted((ft + 500) % WORD)
  {
    var scalar := (ft + 500) % WORD;
    if scalar < OVERFLOW {
      SignedDifference(scalar);
      var days := (scalar - DAY0) as real / ONE_DAY as real;
      FoldIsTheDateOf(days, Fold(days));
      DaysToTicks(scalar);
    }
  }

  lemma SignedDifference(scalar: nat)
    requires scalar < OVERFLOW
    ensures Signed((scalar - DAY0) % WORD) == scalar - DAY0
  {
  }

  lemma DaysToTicks(scalar: nat)
    ensures var days := (scalar - DAY0) as real / ONE_DAY as real;
            && days >= DATE_DAY0 as real
            && days * ONE_DAY as real + DAY0 as real == scalar as real
  {
  }

  /** The round trip returns the original plus exactly 500 ticks if and only if the file time is more than
      500 ticks before the limit. Later ones are refused, except the last 500 of the 64-bit range: for
      those the sum wraps and an instant in 1601 comes back. */
  lemma PlusFiveHundred(ft: nat)
    requires ft < WORD
    ensures ft < OVERFLOW - 500 <==>
            ToVariantTime(ft).Converted? && ToFileTime(ToVariantTime(ft).value) == Converted(ft + 500)
    ensures OVERFLOW - 500 <= ft < WORD - 500 <==> ToVariantTime(ft) == InvalidArg
    ensures ft >= WORD - 500 ==>
            ToVariantTime(ft).Converted? && ToFileTime(ToVariantTime(ft).value) == Converted(ft + 500 - WORD)
  {
    RoundTrip(ft);
  }

  /** Dates down to, but not including, a whole day before the first file time are accepted. */
  lemma AcceptedDates(date: real)
    ensures ToFileTime(date) == InvalidArg <==> date <= DATE_DAY0 as real - 1.0
  {
    if date < 0.0 {
      var c := Ceil(date);
      assert c as real - 1.0 < date <= c as real;
    }
  }

  /** The ticks of an accepted date are those of the instant it stands for, rounded down; a later instant
      never gets fewer. */
  lemma TicksOfInstant(early: real, late: real)
    requires ToFileTime(early).Converted? && ToFileTime(late).Converted? && Instant(early) <= Instant(late)
    ensures var ft := ToFileTime(early).value;
            (ft - DAY0) as real <= Instant(early) * ONE_DAY as real < (ft - DAY0) as real + 1.0
    ensures ToFileTime(early).value <= ToFileTime(late).value
  {
    UnfoldIsInstant(early);
    UnfoldIsInstant(late);
    assert Instant(early) * ONE_DAY as real <= Instant(late) * ONE_DAY as real;
  }
}
