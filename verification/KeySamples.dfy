/** Storage keys and the calendar against values worked out by other means. */
module KeySamples {
  import opened ByteStrings
  import opened Sequences
  import opened TimeKey

  // ---------- The calendar ----------

  /** Leap years counted by division: every fourth year but every hundredth, yet every four-hundredth. */
  lemma {:induction false} DaysByDivision(y: nat)
    ensures DaysBeforeYear(y) == 365 * y + (y + 3) / 4 - (y + 99) / 100 + (y + 399) / 400
  {
    hide LeapYear;
    if y > 0 {
      DaysByDivision(y - 1);
      LeapStep(y);
    }
  }

  lemma LeapStep(y: nat)
    requires y > 0
    ensures YearLength(y - 1) == 365 + ((y + 3) / 4 - (y + 2) / 4) - ((y + 99) / 100 - (y + 98) / 100)
                                 + ((y + 399) / 400 - (y + 398) / 400)
  {
    Quotients(y, 4);
    Quotients(y, 100);
    Quotients(y, 400);
    FourHundredths(y - 1);
  }

  lemma FourHundredths(y: nat)
    ensures y % 400 == 0 ==> y % 100 == 0
    ensures y % 100 == 0 ==> y % 4 == 0
  {
    if y % 400 == 0 { assert y == 100 * (4 * (y / 400)); }
    if y % 100 == 0 { assert y == 4 * (25 * (y / 100)); }
  }

  lemma Quotients(y: nat, d: nat)
    requires y > 0 && d > 1
    ensures (y + d - 1) / d == (y + d - 2) / d + if (y - 1) % d == 0 then 1 else 0
  {
    var q, r := (y - 1) / d, (y - 1) % d;
    DivideBack(y - 1, d);
    OneMore(q, d);
    if r == 0 {
      QuotientIs(y + d - 2, d, q, d - 1);
      QuotientIs(y + d - 1, d, q + 1, 0);
    } else {
      QuotientIs(y + d - 2, d, q + 1, r - 1);
      QuotientIs(y + d - 1, d, q + 1, r);
    }
  }

  lemma DivideBack(n: nat, d: nat)
    requires d > 0
    ensures n == n / d * d + n % d && n % d < d
  {}

  lemma QuotientIs(n: nat, d: nat, q: nat, r: nat)
    requires 0 < d && r < d && n == q * d + r
    ensures n / d == q
  {
    var p := n / d;
    assert n == p * d + n % d;
    if p < q { Grows(p + 1, q, d); }
    if q < p { Grows(q + 1, p, d); }
    OneMore(p, d);
    OneMore(q, d);
  }

  lemma OneMore(a: nat, d: nat)
    ensures (a + 1) * d == a * d + d
  {}

  lemma Grows(a: nat, b: nat, d: nat)
    requires a <= b
    ensures a * d <= b * d
  {}

  /** The days before each month of a year of 365 days; one more from March on in a leap year. */
  const MONTH_STARTS: seq<int> := [0, 31, 59, 90, 120, 151, 181, 212, 243, 273, 304, 334, 365]

  lemma MonthsByTable(y: int, m: nat)
    requires 1 <= m <= 13
    ensures DaysBeforeMonth(y, m) == MONTH_STARTS[m - 1] + if m > 2 && LeapYear(y) then 1 else 0
  {
    var leap := if LeapYear(y) then 1 else 0;
    assert DaysBeforeMonth(y, 1) == 0 && DaysBeforeMonth(y, 2) == 31 && DaysBeforeMonth(y, 3) == 59 + leap;
    assert DaysBeforeMonth(y, 4) == 90 + leap && DaysBeforeMonth(y, 5) == 120 + leap;
    assert DaysBeforeMonth(y, 6) == 151 + leap && DaysBeforeMonth(y, 7) == 181 + leap;
    assert DaysBeforeMonth(y, 8) == 212 + leap && DaysBeforeMonth(y, 9) == 243 + leap;
    assert DaysBeforeMonth(y, 10) == 273 + leap && DaysBeforeMonth(y, 11) == 304 + leap;
    assert DaysBeforeMonth(y, 12) == 334 + leap && DaysBeforeMonth(y, 13) == 365 + leap;
  }

  /** So an instant is its seconds since the start of year 0 in UTC, counted with leap years by division. */
  lemma InstantByDivision(t: Time)
    ensures var y := t.year;
            var days := 365 * y + (y + 3) / 4 - (y + 99) / 100 + (y + 399) / 400
                        + MONTH_STARTS[t.month - 1] + (if t.month > 2 && LeapYear(y) then 1 else 0) + t.day;
            Instant(t) ==
            ((days * 86400 + t.hour * 3600 + t.minute * 60 + t.second) - t.offset * 60) * 1_000_000_000 + t.nanos
  {
    hide DaysBeforeYear, DaysBeforeMonth, LeapYear;
    DaysByDivision(t.year);
    MonthsByTable(t.year, t.month);
  }

  // ---------- Printed keys ----------

  /** One number of the layout with what stands in front of it. */
  predicate PieceIs(t: Time, k: nat, piece: Bytes) {
    0 <= Number(t, k) < Pow10(NumberWidth(k)) && Separator(k) + Digits(Number(t, k), NumberWidth(k)) == piece
  }

  lemma Piece(t: Time, k: nat, piece: Bytes)
    requires 0 < k && PieceIs(t, k, piece)
    ensures FormatLast(t, k) == piece + FormatLast(t, k - 1)
  {
    hide Digits;
    Associative(Separator(k), Digits(Number(t, k), NumberWidth(k)), FormatLast(t, k - 1));
  }

  /** The six numbers printed 2024-10-27T02:30:05. */
  lemma ClockSample(t: Time)
    requires t.year == 2024 && t.month == 10 && t.day == 27 && t.hour == 2 && t.minute == 30 && t.second == 5
    ensures PieceIs(t, 6, [50, 48, 50, 52]) && PieceIs(t, 5, [45, 49, 48]) && PieceIs(t, 4, [45, 50, 55])
    ensures PieceIs(t, 3, [84, 48, 50]) && PieceIs(t, 2, [58, 51, 48]) && PieceIs(t, 1, [58, 48, 53])
  {
    hide Digits;
    DigitsOfSamples();
  }

  lemma Assembled(tail: Bytes)
    ensures [50, 48, 50, 52] + ([45, 49, 48] + ([45, 50, 55] +
              ([84, 48, 50] + ([58, 51, 48] + ([58, 48, 53] + tail))))) ==
            [50, 48, 50, 52, 45, 49, 48, 45, 50, 55, 84, 48, 50, 58, 51, 48, 58, 48, 53] + tail
  {}

  /** Keys read out: 2024-10-27T02:30:05, with or without .5, followed by +02:00, -05:30 or Z. */
  lemma PrintedSamples(t: Time)
    requires t.year == 2024 && t.month == 10 && t.day == 27 && t.hour == 2 && t.minute == 30 && t.second == 5
    requires t.nanos in {0, 500_000_000} && t.offset in {120, -330, 0}
    ensures Format(t) ==
            [50, 48, 50, 52, 45, 49, 48, 45, 50, 55, 84, 48, 50, 58, 51, 48, 58, 48, 53] +
            ((if t.nanos == 0 then [] else [46, 53]) +
             (if t.offset == 120 then [43, 48, 50, 58, 48, 48]
              else if t.offset == -330 then [45, 48, 53, 58, 51, 48] else [90]))
  {
    hide FormatLast, Fraction, Zone, PieceIs;
    ClockSample(t);
    Piece(t, 6, [50, 48, 50, 52]);
    Piece(t, 5, [45, 49, 48]);
    Piece(t, 4, [45, 50, 55]);
    Piece(t, 3, [84, 48, 50]);
    Piece(t, 2, [58, 51, 48]);
    Piece(t, 1, [58, 48, 53]);
    TailSample(t);
    Assembled(FormatLast(t, 0));
  }

  lemma TailSample(t: Time)
    requires t.nanos in {0, 500_000_000} && t.offset in {120, -330, 0}
    ensures FormatLast(t, 0) ==
            (if t.nanos == 0 then [] else [46, 53]) +
            (if t.offset == 120 then [43, 48, 50, 58, 48, 48]
             else if t.offset == -330 then [45, 48, 53, 58, 51, 48] else [90])
  {
    hide Fraction, Zone;
    HalfSecond();
    ZoneSamples();
  }

  lemma TwoDigits(n: int)
    requires 0 <= n < 100
    ensures n < Pow10(2) && Digits(n, 2) == [48 + n / 10, 48 + n % 10]
  {
    assert Pow10(2) == 100;
    assert Digits(n / 10, 1) == [48 + n / 10];
  }

  lemma DigitsOfSamples()
    ensures Pow10(2) == 100 && Pow10(4) == 10_000 && Digits(2024, 4) == [50, 48, 50, 52]
    ensures Digits(10, 2) == [49, 48] && Digits(27, 2) == [50, 55] && Digits(2, 2) == [48, 50]
    ensures Digits(30, 2) == [51, 48] && Digits(5, 2) == [48, 53]
  {
    Pow10Values();
    TwoDigits(10);
    TwoDigits(27);
    TwoDigits(2);
    TwoDigits(30);
    TwoDigits(5);
    TwoDigits(20);
    assert Pow10(3) == 1000;
    assert Digits(202, 3) == [50, 48, 50];
  }

  lemma {:induction false} DigitsOfMultiple(n: int, w: nat)
    requires 0 <= n < Pow10(w)
    ensures Digits(10 * n, w + 1) == Digits(n, w) + [48]
  {}

  lemma HalfSecond()
    ensures Fraction(500_000_000) == [46, 53] && Fraction(0) == []
  {
    Pow10Values();
    assert Pow10(1) == 10 && Pow10(3) == 1000 && Pow10(5) == 100_000 && Pow10(7) == 10_000_000;
    assert Pow10(6) == 1_000_000 && Pow10(8) == 100_000_000;
    hide Digits;
    OneFive();
    DigitsOfMultiple(5, 1);
    DigitsOfMultiple(50, 2);
    DigitsOfMultiple(500, 3);
    DigitsOfMultiple(5_000, 4);
    DigitsOfMultiple(50_000, 5);
    DigitsOfMultiple(500_000, 6);
    DigitsOfMultiple(5_000_000, 7);
    DigitsOfMultiple(50_000_000, 8);
    var d: Bytes := [53, 48, 48, 48, 48, 48, 48, 48, 48];
    assert Digits(500_000_000, 9) == d;
    FiveCut(d);
    ZerosPrintZero(0, 9);
  }

  lemma OneFive()
    ensures Digits(5, 1) == [53]
  {}

  /** All zeros after a five are cut. */
  lemma FiveCut(d: Bytes)
    requires d != [] && d[0] == 53 && forall i :: 0 < i < |d| ==> d[i] == 48
    ensures DottedDigits(d) == [46, 53]
  {
    var r := WithoutZeros(d);
    assert |r| == 1 && r[0] == 53;
  }

  lemma ZoneSamples()
    ensures Zone(120) == [43, 48, 50, 58, 48, 48] && Zone(-330) == [45, 48, 53, 58, 51, 48] && Zone(0) == [90]
  {
    hide Digits;
    Pow10Values();
    TwoDigits(2);
    TwoDigits(0);
    TwoDigits(5);
    TwoDigits(30);
  }
}
