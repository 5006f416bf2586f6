/**
 Storage keys: civil times printed in Go's RFC3339Nano layout, which is the grammar of
 section 5.6 of RFC 3339 with the trailing zeros of the fraction removed.
 */
module TimeKey {
  import opened Sequences
  import opened ByteStrings

  // ---------- Civil time ----------

  /** A time as its civil fields in a zone `offset` minutes east of UTC. */
  datatype Stamp = Stamp(year: int, month: int, day: int, hour: int, minute: int, second: int, nanos: int, offset: int)

  predicate LeapYear(y: int) { y % 4 == 0 && (y % 100 != 0 || y % 400 == 0) }

  function YearLength(y: int): int { if LeapYear(y) then 366 else 365 }

  function MonthLength(y: int, m: int): int {
    if m == 2 then (if LeapYear(y) then 29 else 28)
    else if m == 4 || m == 6 || m == 9 || m == 11 then 30
    else 31
  }

  predicate IsTime(t: Stamp) {
    && 0 <= t.year <= 9999 && 1 <= t.month <= 12 && 1 <= t.day <= MonthLength(t.year, t.month)
    && 0 <= t.hour < 24 && 0 <= t.minute < 60 && 0 <= t.second < 60
    && 0 <= t.nanos < 1_000_000_000 && -1440 < t.offset < 1440
  }

  type Time = t: Stamp | IsTime(t) witness Stamp(1, 1, 1, 0, 0, 0, 0, 0)

  function DaysBeforeYear(y: nat): int {
    if y == 0 then 0 else DaysBeforeYear(y - 1) + YearLength(y - 1)
  }

  function DaysBeforeMonth(y: int, m: nat): int {
    if m <= 1 then 0 else DaysBeforeMonth(y, m - 1) + MonthLength(y, m - 1)
  }

  function DayNumber(t: Time): int {
    DaysBeforeYear(t.year) + DaysBeforeMonth(t.year, t.month) + t.day
  }

  /** Seconds shown by the wall clock, counted from year 0. */
  function WallSeconds(t: Time): int {
    ((DayNumber(t) * 24 + t.hour) * 60 + t.minute) * 60 + t.second
  }

  /** Nanoseconds of the instant itself; `Before` and `After` compare these. */
  function Instant(t: Time): int {
    (WallSeconds(t) - 60 * t.offset) * 1_000_000_000 + t.nanos
  }

  /** Go's zero time, and `IsZero`. */
  const ZERO_TIME: Time := Stamp(1, 1, 1, 0, 0, 0, 0, 0)

  predicate IsZero(t: Time) { Instant(t) == Instant(ZERO_TIME) }

  // ---------- Printing ----------

  function Pow10(w: nat): (p: int)
    ensures p >= 1
  {
    if w == 0 then 1 else 10 * Pow10(w - 1)
  }

  /** `n` in exactly `w` decimal digits. */
  function Digits(n: int, w: nat): (s: Bytes)
    requires 0 <= n < Pow10(w)
    ensures |s| == w && AllDigits(s)
  {
    if w == 0 then [] else Digits(n / 10, w - 1) + [48 + n % 10]
  }

  predicate IsDigit(b: Byte) { 48 <= b <= 57 }

  predicate AllDigits(s: Bytes) { forall i :: 0 <= i < |s| ==> IsDigit(s[i]) }

  predicate AllZeros(s: Bytes) { forall i :: 0 <= i < |s| ==> s[i] == 48 }

  /** `s` without the zeros at its end. */
  function WithoutZeros(s: Bytes): (r: Bytes)
    ensures |r| <= |s| && s[..|r|] == r && AllZeros(s[|r|..])
    ensures r != [] ==> r[|r| - 1] != 48
  {
    if s != [] && s[|s| - 1] == 48 then
      var r := WithoutZeros(s[..|s| - 1]);
      assert s[|r|..] == s[..|s| - 1][|r|..] + [48];
      r
    else s
  }

  lemma Pow10Values()
    ensures Pow10(9) == 1_000_000_000 && Pow10(4) == 10_000 && Pow10(2) == 100
  {
    assert Pow10(3) == 1000 && Pow10(6) == 1_000_000;
  }

  /** A dot and the nanoseconds without zeros at the end; nothing at all for zero. */
  function Fraction(nanos: int): Bytes
    requires 0 <= nanos < 1_000_000_000
  {
    Pow10Values();
    DottedDigits(Digits(nanos, 9))
  }

  function DottedDigits(s: Bytes): Bytes {
    if AllZeros(s) then [] else [46] + WithoutZeros(s)
  }

  /** Two digits. */
  function Pair(n: int): (s: Bytes)
    requires 0 <= n < 100
    ensures |s| == 2 && AllDigits(s)
  {
    Pow10Values();
    Digits(n, 2)
  }

  /** "Z", or a sign and hh:mm. */
  function Zone(offset: int): Bytes
    requires -1440 < offset < 1440
  {
    if offset == 0 then [90]
    else
      var a := if offset < 0 then -offset else offset;
      [if offset < 0 then 45 else 43] + (Pair(a / 60) + ([58] + Pair(a % 60)))
  }

  /** The layout's numbers, counted from the back: 6 is the year, 1 the second. */
  function Number(t: Stamp, k: nat): int {
    if k == 6 then t.year else if k == 5 then t.month else if k == 4 then t.day
    else if k == 3 then t.hour else if k == 2 then t.minute else t.second
  }

  function NumberWidth(k: nat): nat { if k == 6 then 4 else 2 }

  /** What the layout has in front of a number. */
  function Separator(k: nat): Bytes {
    if k == 6 then [] else if k == 5 || k == 4 then [45] else if k == 3 then [84] else [58]
  }

  lemma NumberFits(t: Time, k: nat)
    ensures 0 <= Number(t, k) < Pow10(NumberWidth(k))
  {
    Pow10Values();
  }

  /** The layout from its `k` last numbers on. */
  function FormatLast(t: Time, k: nat): Bytes {
    if k == 0 then Fraction(t.nanos) + Zone(t.offset)
    else NumberFits(t, k); Separator(k) + (Digits(Number(t, k), NumberWidth(k)) + FormatLast(t, k - 1))
  }

  /** `Time.Format(time.RFC3339Nano)`. */
  function Format(t: Time): Bytes { FormatLast(t, 6) }

  // ---------- Order of fixed-width digits ----------

  lemma {:induction false} DigitsOrder(n: int, m: int, w: nat)
    requires 0 <= n < Pow10(w) && 0 <= m < Pow10(w)
    ensures Less(Digits(n, w), Digits(m, w)) <==> n < m
    ensures Digits(n, w) == Digits(m, w) <==> n == m
  {
    if w > 0 {
      var a, b := Digits(n / 10, w - 1), Digits(m / 10, w - 1);
      DigitsOrder(n / 10, m / 10, w - 1);
      LessConcat(a, [48 + n % 10], b, [48 + m % 10]);
      if Digits(n, w) == Digits(m, w) {
        assert Digits(n, w)[..w - 1] == a && Digits(m, w)[..w - 1] == b;
        assert Digits(n, w)[w - 1] == 48 + n % 10 && Digits(m, w)[w - 1] == 48 + m % 10;
      }
    }
  }

  lemma LessCons(x: Byte, a: Bytes, y: Byte, b: Bytes)
    ensures Less([x] + a, [y] + b) <==> x < y || (x == y && Less(a, b))
    ensures [x] + a == [y] + b <==> x == y && a == b
  {
    assert ([x] + a)[1..] == a && ([y] + b)[1..] == b;
  }

  /** The last `k` numbers compared in order. */
  predicate EarlierNumbers(a: Time, b: Time, k: nat) {
    k > 0 && (Number(a, k) < Number(b, k) || (Number(a, k) == Number(b, k) && EarlierNumbers(a, b, k - 1)))
  }

  predicate SameNumbers(a: Time, b: Time, k: nat) {
    k > 0 ==> Number(a, k) == Number(b, k) && SameNumbers(a, b, k - 1)
  }

  /** Byte order of two keys: the numbers in turn, then fraction and zone. */
  lemma {:induction false} FormatOrder(a: Time, b: Time, k: nat)
    ensures Less(FormatLast(a, k), FormatLast(b, k)) <==>
            EarlierNumbers(a, b, k) ||
            (SameNumbers(a, b, k) && Less(Fraction(a.nanos) + Zone(a.offset), Fraction(b.nanos) + Zone(b.offset)))
  {
    if k > 0 {
      NumberFits(a, k);
      NumberFits(b, k);
      var x, y := Digits(Number(a, k), NumberWidth(k)), Digits(Number(b, k), NumberWidth(k));
      FormatOrder(a, b, k - 1);
      DigitsOrder(Number(a, k), Number(b, k), NumberWidth(k));
      LessConcat(x, FormatLast(a, k - 1), y, FormatLast(b, k - 1));
      LessConcat(Separator(k), x + FormatLast(a, k - 1), Separator(k), y + FormatLast(b, k - 1));
      LessIrreflexive(Separator(k));
    }
  }

  // ---------- Civil fields count the wall clock ----------

  lemma {:induction false} YearsGrow(y: nat, z: nat)
    requires y < z
    ensures DaysBeforeYear(y) + YearLength(y) <= DaysBeforeYear(z)
  {
    if y + 1 < z { YearsGrow(y, z - 1); }
  }

  lemma {:induction false} MonthsGrow(y: int, k: int, m: int)
    requires 1 <= k < m <= 13
    ensures DaysBeforeMonth(y, k) + MonthLength(y, k) <= DaysBeforeMonth(y, m)
  {
    if k + 1 < m { MonthsGrow(y, k, m - 1); }
  }

  lemma WholeYear(y: int)
    ensures DaysBeforeMonth(y, 13) == YearLength(y)
  {
    var february := MonthLength(y, 2);
    assert DaysBeforeMonth(y, 2) == 31;
    assert DaysBeforeMonth(y, 3) == 31 + february;
    assert DaysBeforeMonth(y, 4) == 62 + february;
    assert DaysBeforeMonth(y, 5) == 92 + february;
    assert DaysBeforeMonth(y, 7) == 153 + february;
    assert DaysBeforeMonth(y, 9) == 215 + february;
    assert DaysBeforeMonth(y, 11) == 276 + february;
  }

  lemma {:induction false} MonthsNonnegative(y: int, m: nat)
    ensures DaysBeforeMonth(y, m) >= 0
  {
    if m > 1 { MonthsNonnegative(y, m - 1); }
  }

  lemma EarlierDay(a: Time, b: Time)
    requires a.year < b.year || (a.year == b.year && a.month < b.month)
    ensures DayNumber(a) < DayNumber(b)
  {
    if a.year < b.year {
      MonthsGrow(a.year, a.month, 13);
      WholeYear(a.year);
      YearsGrow(a.year, b.year);
      MonthsNonnegative(b.year, b.month);
    } else {
      MonthsGrow(a.year, a.month, b.month);
    }
  }

  /** Comparing the six numbers is comparing the seconds the wall clock shows. */
  lemma NumbersCountSeconds(a: Time, b: Time)
    ensures EarlierNumbers(a, b, 6) <==> WallSeconds(a) < WallSeconds(b)
    ensures SameNumbers(a, b, 6) <==> WallSeconds(a) == WallSeconds(b)
  {
    NumbersSpelledOut(a, b);
    if a.year < b.year || (a.year == b.year && a.month < b.month) { EarlierDay(a, b); }
    if b.year < a.year || (b.year == a.year && b.month < a.month) { EarlierDay(b, a); }
  }

  predicate EarlierClock(a: Time, b: Time) {
    a.hour < b.hour || (a.hour == b.hour && (a.minute < b.minute || (a.minute == b.minute && a.second < b.second)))
  }

  lemma NumbersSpelledOut(a: Time, b: Time)
    ensures EarlierNumbers(a, b, 6) <==>
            a.year < b.year || (a.year == b.year && (a.month < b.month || (a.month == b.month &&
            (a.day < b.day || (a.day == b.day && EarlierClock(a, b))))))
    ensures SameNumbers(a, b, 6) <==>
            a.year == b.year && a.month == b.month && a.day == b.day &&
            a.hour == b.hour && a.minute == b.minute && a.second == b.second
  {
    assert EarlierNumbers(a, b, 1) <==> a.second < b.second;
    assert EarlierNumbers(a, b, 2) <==> a.minute < b.minute || (a.minute == b.minute && a.second < b.second);
    assert EarlierNumbers(a, b, 3) <==> EarlierClock(a, b);
    assert EarlierNumbers(a, b, 4) <==> a.day < b.day || (a.day == b.day && EarlierClock(a, b));
    assert EarlierNumbers(a, b, 5) <==> a.month < b.month || (a.month == b.month && EarlierNumbers(a, b, 4));
    assert SameNumbers(a, b, 1) <==> a.second == b.second;
    assert SameNumbers(a, b, 2) <==> a.minute == b.minute && SameNumbers(a, b, 1);
    assert SameNumbers(a, b, 3) <==> a.hour == b.hour && SameNumbers(a, b, 2);
    assert SameNumbers(a, b, 4) <==> a.day == b.day && SameNumbers(a, b, 3);
    assert SameNumbers(a, b, 5) <==> a.month == b.month && SameNumbers(a, b, 4);
  }

  // ---------- Order of trimmed fractions ----------

  /** What follows a fraction: 'Z' sorts above every digit, a sign sorts below '.' and every digit. */
  predicate ZoneSuffix(z: Bytes, utc: bool) { z != [] && (if utc then z[0] == 90 else z[0] < 46) }

  predicate ProperPrefix(a: Bytes, b: Bytes) { |a| < |b| && b[..|a|] == a }

  lemma {:induction false} WithoutZerosCons(x: Byte, s: Bytes)
    ensures WithoutZeros([x] + s) == if x == 48 && AllZeros(s) then [] else [x] + WithoutZeros(s)
  {
    hide WithoutZeros, AllZeros;
    var t := [x] + s;
    if s == [] {
      OneDigit(x);
      assert t == [x];
    } else {
      var n := |s| - 1;
      LastDigit(s);
      LastDigit(t);
      if s[n] == 48 {
        WithoutZerosCons(x, s[..n]);
        assert t[..n + 1] == [x] + s[..n];
      }
    }
  }

  lemma OneDigit(x: Byte)
    ensures AllZeros([]) && WithoutZeros([]) == []
    ensures WithoutZeros([x]) == if x == 48 then [] else [x] + []
  {
    assert [x][..0] == [];
  }

  /** A zero at the end is dropped; any other digit keeps everything. */
  lemma LastDigit(s: Bytes)
    requires s != []
    ensures var n := |s| - 1;
            if s[n] == 48 then WithoutZeros(s) == WithoutZeros(s[..n]) && (AllZeros(s) <==> AllZeros(s[..n]))
            else WithoutZeros(s) == s && !AllZeros(s)
  {}

  lemma {:induction false} NothingWithoutZeros(s: Bytes)
    ensures WithoutZeros(s) == [] <==> AllZeros(s)
  {
    if s != [] && s[|s| - 1] == 48 { NothingWithoutZeros(s[..|s| - 1]); }
  }

  lemma {:induction false} ZerosAreLeast(s: Bytes, t: Bytes)
    requires |s| == |t| && AllZeros(s) && AllDigits(t)
    ensures Less(s, t) <==> !AllZeros(t)
    ensures !Less(t, s)
  {
    if s != [] { ZerosAreLeast(s[1..], t[1..]); }
  }

  /** How two strings compare in front of the suffix of a zone. */
  ghost predicate OrderedInFrontOf(s: Bytes, t: Bytes, a: Bytes, b: Bytes, z: Bytes, utc: bool) {
    && (ProperPrefix(a, b) ==> Less(s, t))
    && (ProperPrefix(b, a) ==> Less(t, s))
    && (Less(a + z, b + z) <==>
        if utc && (ProperPrefix(a, b) || ProperPrefix(b, a)) then Less(t, s) else Less(s, t))
  }

  /** Nothing against a nonempty string, both followed by `z`: the first bytes decide. */
  lemma EmptyInFront(x: Byte, a: Bytes, z: Bytes)
    requires z != [] && z[0] != x
    ensures Less([] + z, [x] + a + z) <==> z[0] < x
    ensures Less([x] + a + z, [] + z) <==> x < z[0]
    ensures ProperPrefix([], [x] + a) && !ProperPrefix([x] + a, [])
  {
    assert ([x] + a + z)[0] == x && ([] + z)[0] == z[0];
  }

  lemma ByteInFront(x: Byte, a: Bytes, y: Byte, b: Bytes, z: Bytes)
    ensures Less([x] + a + z, [y] + b + z) <==> x < y || (x == y && Less(a + z, b + z))
    ensures ProperPrefix([x] + a, [y] + b) <==> x == y && ProperPrefix(a, b)
  {
    assert [x] + a + z == [x] + (a + z) && [y] + b + z == [y] + (b + z);
    LessCons(x, a + z, y, b + z);
    if |a| < |b| {
      assert ([y] + b)[..|a| + 1] == [y] + b[..|a|];
      LessCons(y, b[..|a|], x, a);
    }
  }

  /**
   Digit strings of one length, cut and followed by the same zone: their order is that of the full
   strings, except in front of a 'Z' when one is a proper prefix of the other.
   */
  lemma {:induction false} CutOrder(s: Bytes, t: Bytes, z: Bytes, utc: bool)
    requires |s| == |t| && AllDigits(s) && AllDigits(t) && ZoneSuffix(z, utc)
    ensures OrderedInFrontOf(s, t, WithoutZeros(s), WithoutZeros(t), z, utc)
  {
    hide Less, ProperPrefix, OrderedInFrontOf, WithoutZeros;
    if AllZeros(s) || AllZeros(t) {
      CutOrderOfZeros(s, t, z, utc);
    } else {
      CutOrder(s[1..], t[1..], z, utc);
      assert s == [s[0]] + s[1..] && t == [t[0]] + t[1..];
      WithoutZerosCons(s[0], s[1..]);
      WithoutZerosCons(t[0], t[1..]);
      ConsInFront(s[0], s[1..], t[0], t[1..], WithoutZeros(s[1..]), WithoutZeros(t[1..]), z, utc);
    }
  }

  lemma ConsInFront(x: Byte, s: Bytes, y: Byte, t: Bytes, a: Bytes, b: Bytes, z: Bytes, utc: bool)
    requires OrderedInFrontOf(s, t, a, b, z, utc)
    ensures OrderedInFrontOf([x] + s, [y] + t, [x] + a, [y] + b, z, utc)
  {
    hide Less, ProperPrefix;
    ByteInFront(x, a, y, b, z);
    ByteInFront(y, b, x, a, z);
    LessCons(x, s, y, t);
    LessCons(y, t, x, s);
  }

  lemma CutOrderOfZeros(s: Bytes, t: Bytes, z: Bytes, utc: bool)
    requires |s| == |t| && AllDigits(s) && AllDigits(t) && ZoneSuffix(z, utc)
    requires AllZeros(s) || AllZeros(t)
    ensures OrderedInFrontOf(s, t, WithoutZeros(s), WithoutZeros(t), z, utc)
  {
    NothingWithoutZeros(s);
    NothingWithoutZeros(t);
    if !AllZeros(t) {
      assert IsDigit(t[0]) && WithoutZeros(t)[0] == t[0];
      ZerosInFront(s, t, WithoutZeros(t), z, utc);
    } else if !AllZeros(s) {
      assert IsDigit(s[0]) && WithoutZeros(s)[0] == s[0];
      ZerosInFront(t, s, WithoutZeros(s), z, utc);
    } else {
      BothZeros(s, t, z, utc);
    }
  }

  lemma BothZeros(s: Bytes, t: Bytes, z: Bytes, utc: bool)
    requires |s| == |t| && AllZeros(s) && AllZeros(t)
    ensures OrderedInFrontOf(s, t, [], [], z, utc)
  {
    assert s == t;
    LessIrreflexive(s);
    LessIrreflexive([] + z);
  }

  /** Zeros, cut to nothing, against a string cut to one that starts with a digit or a dot. */
  lemma ZerosInFront(s: Bytes, t: Bytes, b: Bytes, z: Bytes, utc: bool)
    requires |s| == |t| && AllZeros(s) && AllDigits(t) && !AllZeros(t) && ZoneSuffix(z, utc)
    requires b != [] && 46 <= b[0] <= 57
    ensures OrderedInFrontOf(s, t, [], b, z, utc) && OrderedInFrontOf(t, s, b, [], z, utc)
  {
    ZerosAreLeast(s, t);
    EmptyInFront(b[0], b[1..], z);
    assert b == [b[0]] + b[1..];
  }

  lemma DottedOrder(s: Bytes, t: Bytes, z: Bytes, utc: bool)
    requires |s| == |t| && AllDigits(s) && AllDigits(t) && ZoneSuffix(z, utc)
    ensures OrderedInFrontOf(s, t, DottedDigits(s), DottedDigits(t), z, utc)
  {
    var a, b := WithoutZeros(s), WithoutZeros(t);
    if AllZeros(s) && AllZeros(t) {
      BothZeros(s, t, z, utc);
    } else if AllZeros(s) {
      ZerosInFront(s, t, [46] + b, z, utc);
    } else if AllZeros(t) {
      ZerosInFront(t, s, [46] + a, z, utc);
    } else {
      CutOrder(s, t, z, utc);
      ByteInFront(46, a, 46, b, z);
      ByteInFront(46, b, 46, a, z);
    }
  }

  lemma FractionOrder(n: int, m: int, z: Bytes, utc: bool)
    requires 0 <= n < 1_000_000_000 && 0 <= m < 1_000_000_000
    requires ZoneSuffix(z, utc)
    ensures var a, b := Fraction(n), Fraction(m);
            && (ProperPrefix(a, b) ==> n < m)
            && (ProperPrefix(b, a) ==> m < n)
            && (Less(a + z, b + z) <==>
                if utc && (ProperPrefix(a, b) || ProperPrefix(b, a)) then m < n else n < m)
  {
    Pow10Values();
    DottedOrder(Digits(n, 9), Digits(m, 9), z, utc);
    DigitsOrder(n, m, 9);
    DigitsOrder(m, n, 9);
  }

  // ---------- Key order against time order ----------

  /** One trimmed fraction starts with the other, within the same wall-clock second. */
  predicate PrefixClash(a: Time, b: Time) {
    && WallSeconds(a) == WallSeconds(b)
    && (ProperPrefix(Fraction(a.nanos), Fraction(b.nanos)) || ProperPrefix(Fraction(b.nanos), Fraction(a.nanos)))
  }

  lemma ZoneSuffixes(offset: int)
    requires -1440 < offset < 1440
    ensures ZoneSuffix(Zone(offset), offset == 0)
  {}

  /** Same offset, any value: key order is time order turned round exactly on a prefix clash under 'Z'. */
  lemma KeyOrder(a: Time, b: Time)
    requires a.offset == b.offset
    ensures Less(Format(a), Format(b)) <==>
            if a.offset == 0 && PrefixClash(a, b) then Instant(b) < Instant(a) else Instant(a) < Instant(b)
  {
    FormatOrder(a, b, 6);
    NumbersCountSeconds(a, b);
    ZoneSuffixes(a.offset);
    FractionOrder(a.nanos, b.nanos, Zone(a.offset), a.offset == 0);
  }

  /** With one numeric offset the keys sort as the instants do, although fractions lose their zeros. */
  lemma NumericOffsetKeysSortAsTimes(a: Time, b: Time)
    requires a.offset == b.offset != 0
    ensures Less(Format(a), Format(b)) <==> Instant(a) < Instant(b)
    ensures Format(a) == Format(b) <==> a == b
  {
    KeyOrder(a, b);
    KeyOrder(b, a);
    if Format(a) == Format(b) {
      LessIrreflexive(Format(a));
      SameInstant(a, b);
    }
  }

  /** In UTC the order is wrong exactly on a prefix clash. */
  lemma UtcKeysSortAsTimesIff(a: Time, b: Time)
    requires a.offset == b.offset == 0
    ensures (Less(Format(a), Format(b)) <==> Instant(a) < Instant(b)) <==> !PrefixClash(a, b)
  {
    KeyOrder(a, b);
    if PrefixClash(a, b) { ClashingTimesDiffer(a, b); }
  }

  lemma SameInstant(a: Time, b: Time)
    requires a.offset == b.offset && Instant(a) == Instant(b)
    ensures a == b
  {
    NumbersCountSeconds(a, b);
    NumbersSpelledOut(a, b);
  }

  lemma ClashingTimesDiffer(a: Time, b: Time)
    requires a.offset == b.offset && PrefixClash(a, b)
    ensures Instant(a) != Instant(b)
  {
    if a.nanos == b.nanos { assert false; }
  }

  /** In UTC a whole second sorts after every later instant of that second. */
  lemma UtcWholeSecondSortsLast(a: Time, b: Time)
    requires a.offset == b.offset == 0 && WallSeconds(a) == WallSeconds(b) && a.nanos == 0 < b.nanos
    ensures Instant(a) < Instant(b) && Less(Format(b), Format(a))
  {
    Pow10Values();
    ZerosPrintZero(0, 9);
    ZerosPrintZero(b.nanos, 9);
    assert Fraction(b.nanos)[..0] == Fraction(a.nanos);
    KeyOrder(b, a);
  }

  lemma {:induction false} ZerosPrintZero(n: int, w: nat)
    requires 0 <= n < Pow10(w)
    ensures AllZeros(Digits(n, w)) <==> n == 0
  {
    if w > 0 {
      ZerosPrintZero(n / 10, w - 1);
      var d := Digits(n, w);
      assert d[..w - 1] == Digits(n / 10, w - 1) && d[w - 1] == 48 + n % 10;
    }
  }

  /** 12:00:05Z and 12:00:05.5Z: the later one has the smaller key. */
  lemma UtcCounterexample()
    ensures var a: Time := Stamp(2024, 5, 1, 12, 0, 5, 0, 0);
            var b: Time := Stamp(2024, 5, 1, 12, 0, 5, 500_000_000, 0);
            Instant(a) < Instant(b) && Less(Format(b), Format(a))
  {
    UtcWholeSecondSortsLast(Stamp(2024, 5, 1, 12, 0, 5, 0, 0), Stamp(2024, 5, 1, 12, 0, 5, 500_000_000, 0));
  }

  /** Leaving summer time: 02:30+02:00 is before 02:10+01:00, but its key is larger. */
  lemma OffsetChangeCounterexample()
    ensures var a: Time := Stamp(2024, 10, 27, 2, 30, 0, 0, 120);
            var b: Time := Stamp(2024, 10, 27, 2, 10, 0, 0, 60);
            Instant(a) < Instant(b) && Less(Format(b), Format(a))
  {
    var a: Time := Stamp(2024, 10, 27, 2, 30, 0, 0, 120);
    var b: Time := Stamp(2024, 10, 27, 2, 10, 0, 0, 60);
    FormatOrder(b, a, 6);
    NumbersCountSeconds(b, a);
  }

  // ---------- Parsing ----------

  function Value(s: Bytes): (n: int)
    requires AllDigits(s)
    ensures 0 <= n < Pow10(|s|)
  {
    if s == [] then 0 else 10 * Value(s[..|s| - 1]) + s[|s| - 1] - 48
  }

  /** A number of exactly `w` digits, and what follows it. */
  function ParseDigits(s: Bytes, w: nat): Option<(int, Bytes)> {
    if |s| < w || !AllDigits(s[..w]) then None else Some((Value(s[..w]), s[w..]))
  }

  /** Literal text in front of what follows. */
  function Skip(s: Bytes, literal: Bytes): Option<Bytes> {
    if StartsWith(s, literal) then Some(s[|literal|..]) else None
  }

  /** Length of the run of digits that `s` starts with. */
  function DigitRun(s: Bytes): (n: nat)
    ensures n <= |s| && AllDigits(s[..n]) && (n < |s| ==> !IsDigit(s[n]))
  {
    if s == [] || !IsDigit(s[0]) then 0 else 1 + DigitRun(s[1..])
  }

  function Zeros(n: nat): (z: Bytes)
    ensures |z| == n && AllZeros(z) && AllDigits(z)
  {
    seq(n, i => 48)
  }

  /** An optional fraction of at most `w` digits; the missing ones are zeros. */
  function ParseFraction(s: Bytes, w: nat): Option<(int, Bytes)> {
    if |s| < 2 || s[0] != 46 || !IsDigit(s[1]) then Some((0, s))
    else TakeFraction(s[1..], DigitRun(s[1..]), w)
  }

  function TakeFraction(s: Bytes, n: nat, w: nat): Option<(int, Bytes)>
    requires n <= |s| && AllDigits(s[..n])
  {
    if n > w then None else Some((Value(s[..n] + Zeros(w - n)), s[n..]))
  }

  function ParseZone(s: Bytes): Option<int> {
    if s == [90] then Some(0)
    else if s == [] || (s[0] != 43 && s[0] != 45) then None
    else match ParseDigits(s[1..], 2)
      case None => None
      case Some((hours, rest)) =>
        if |rest| != 3 || rest[0] != 58 || !AllDigits(rest[1..]) then None
        else
          var minutes := Value(rest[1..]);
          var a := hours * 60 + minutes;
          if hours >= 24 || minutes >= 60 then None else Some(if s[0] == 45 then -a else a)
  }

  function WithNumber(t: Stamp, k: nat, n: int): Stamp {
    if k == 6 then t.(year := n) else if k == 5 then t.(month := n) else if k == 4 then t.(day := n)
    else if k == 3 then t.(hour := n) else if k == 2 then t.(minute := n) else t.(second := n)
  }

  /** Parse the layout from its `k` last numbers on, filling them into `t`. */
  function ParseLast(s: Bytes, t: Stamp, k: nat): Option<Stamp>
    decreases k, s
  {
    if k == 0 then
      match ParseFraction(s, 9)
      case None => None
      case Some((nanos, zone)) =>
        match ParseZone(zone) case None => None case Some(offset) => Some(t.(nanos := nanos, offset := offset))
    else
      match Skip(s, Separator(k))
      case None => None
      case Some(rest) =>
        match ParseDigits(rest, NumberWidth(k))
        case None => None
        case Some((n, more)) => ParseLast(more, WithNumber(t, k, n), k - 1)
  }

  /** `time.Parse(time.RFC3339Nano, key)`; None is its error. */
  function Parse(key: Bytes): Option<Time> {
    match ParseLast(key, ZERO_TIME, 6)
    case None => None
    case Some(t) => if IsTime(t) then Some(t) else None
  }

  lemma {:induction false} ValueInvertsDigits(n: int, w: nat)
    requires 0 <= n < Pow10(w)
    ensures Value(Digits(n, w)) == n
  {
    if w > 0 {
      ValueInvertsDigits(n / 10, w - 1);
      assert Digits(n, w)[..w - 1] == Digits(n / 10, w - 1);
    }
  }

  lemma ParseDigitsInverts(n: int, w: nat, rest: Bytes)
    requires 0 <= n < Pow10(w)
    ensures ParseDigits(Digits(n, w) + rest, w) == Some((n, rest))
  {
    var s := Digits(n, w) + rest;
    ValueInvertsDigits(n, w);
    assert s[..w] == Digits(n, w) && s[w..] == rest;
  }

  lemma {:induction false} DigitRunOf(a: Bytes, z: Bytes)
    requires AllDigits(a) && z != [] && !IsDigit(z[0])
    ensures DigitRun(a + z) == |a|
  {
    var s := a + z;
    if a == [] { assert s == z; } else {
      DigitRunOf(a[1..], z);
      assert s[0] == a[0] && s[1..] == a[1..] + z;
    }
  }

  lemma ParseFractionInverts(n: int, w: nat, z: Bytes)
    requires 0 <= n < Pow10(w)
    requires z != [] && !IsDigit(z[0]) && z[0] != 46
    ensures ParseFraction(DottedDigits(Digits(n, w)) + z, w) == Some((n, z))
  {
    var d := Digits(n, w);
    var s := DottedDigits(d) + z;
    ValueInvertsDigits(n, w);
    if AllZeros(d) {
      assert s == z;
      assert d == Zeros(w);
      ZerosAreZero(w);
    } else {
      NothingWithoutZeros(d);
      PadBack(d);
      ParseFractionOf(d, WithoutZeros(d), z);
    }
  }

  lemma ParseFractionOf(d: Bytes, a: Bytes, z: Bytes)
    requires AllDigits(d) && AllDigits(a) && a != [] && z != [] && !IsDigit(z[0])
    requires |a| <= |d| && d == a + Zeros(|d| - |a|)
    ensures ParseFraction([46] + a + z, |d|) == Some((Value(d), z))
  {
    hide ParseFraction, Value, Zeros;
    ParseAfterDot(a, z, |d|);
    Associative([46], a, z);
  }

  lemma PadBack(d: Bytes)
    requires AllDigits(d)
    ensures AllDigits(WithoutZeros(d)) && d == WithoutZeros(d) + Zeros(|d| - |WithoutZeros(d)|)
  {}

  lemma ParseAfterDot(a: Bytes, z: Bytes, w: nat)
    requires AllDigits(a) && a != [] && |a| <= w && z != [] && !IsDigit(z[0])
    ensures ParseFraction([46] + (a + z), w) == Some((Value(a + Zeros(w - |a|)), z))
  {
    var s := [46] + (a + z);
    DigitRunOf(a, z);
    assert s[1..] == a + z;
    assert s[0] == 46 && s[1] == a[0];
    SplitConcat(a, z);
  }

  lemma SplitConcat(a: Bytes, z: Bytes)
    ensures (a + z)[..|a|] == a && (a + z)[|a|..] == z
  {}

  lemma {:induction false} ZerosAreZero(w: nat)
    ensures Value(Zeros(w)) == 0
  {
    if w > 0 {
      ZerosAreZero(w - 1);
      assert Zeros(w)[..w - 1] == Zeros(w - 1);
    }
  }

  lemma ParseZoneInverts(offset: int)
    requires -1440 < offset < 1440
    ensures ParseZone(Zone(offset)) == Some(offset)
  {
    hide Digits, ParseDigits;
    if offset != 0 {
      var a := if offset < 0 then -offset else offset;
      Pow10Values();
      ParseDigitsInverts(a / 60, 2, [58] + Pair(a % 60));
      assert Zone(offset)[1..] == Pair(a / 60) + ([58] + Pair(a % 60));
      ValueInvertsDigits(a % 60, 2);
      assert ([58] + Pair(a % 60))[1..] == Pair(a % 60);
    }
  }

  /** `u` has the numbers of `t` before the `k` last ones. */
  predicate Agrees(u: Stamp, t: Time, k: nat) { forall j :: k < j <= 6 ==> Number(u, j) == Number(t, j) }

  lemma ParseTailInverts(u: Stamp, t: Time)
    requires Agrees(u, t, 0)
    ensures ParseLast(FormatLast(t, 0), u, 0) == Some(t)
  {
    ParseFractionInverts(t.nanos, 9, Zone(t.offset));
    ParseZoneInverts(t.offset);
    assert Number(u, 6) == t.year && Number(u, 5) == t.month && Number(u, 4) == t.day;
    assert Number(u, 3) == t.hour && Number(u, 2) == t.minute && Number(u, 1) == t.second;
  }

  lemma {:induction false} ParseLastInverts(u: Stamp, t: Time, k: nat)
    requires k <= 6 && Agrees(u, t, k)
    ensures ParseLast(FormatLast(t, k), u, k) == Some(t)
    decreases k
  {
    hide Digits, Fraction, Zone, ParseFraction, ParseZone, ParseDigits, Pow10;
    if k == 0 {
      ParseTailInverts(u, t);
    } else {
      NumberFits(t, k);
      var rest := Digits(Number(t, k), NumberWidth(k)) + FormatLast(t, k - 1);
      SplitConcat(Separator(k), rest);
      ParseDigitsInverts(Number(t, k), NumberWidth(k), FormatLast(t, k - 1));
      ParseLastInverts(WithNumber(u, k, Number(t, k)), t, k - 1);
    }
  }

  /** Printing and parsing are inverse, so a key determines its time. */
  lemma ParseInvertsFormat(t: Time)
    ensures Parse(Format(t)) == Some(t)
  {
    Pow10Values();
    ParseLastInverts(ZERO_TIME, t, 6);
  }
}
