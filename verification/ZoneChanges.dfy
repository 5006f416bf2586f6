/** Storage keys against instants when the zone changes: the exact order of any two keys. */
module ZoneChanges {
  import opened ByteStrings
  import opened Sequences
  import opened TimeKey

  // ---------- Comparing strings with different suffixes ----------

  /** Neither string starts with the other. */
  predicate Apart(a: Bytes, b: Bytes) { a != b && !ProperPrefix(a, b) && !ProperPrefix(b, a) }

  lemma ApartCons(x: Byte, a: Bytes, y: Byte, b: Bytes)
    ensures Apart([x] + a, [y] + b) <==> x != y || Apart(a, b)
  {
    ByteInFront(x, a, y, b, []);
    ByteInFront(y, b, x, a, []);
    LessCons(x, a, y, b);
  }

  /** Strings that differ before either ends compare alike whatever follows them. */
  lemma {:induction false} SuffixesDoNotMatter(a: Bytes, b: Bytes, y: Bytes, z: Bytes)
    requires Apart(a, b)
    ensures Less(a + y, b + z) <==> Less(a, b)
  {
    if a != [] && b != [] {
      assert a == [a[0]] + a[1..] && b == [b[0]] + b[1..];
      ApartCons(a[0], a[1..], b[0], b[1..]);
      Associative([a[0]], a[1..], y);
      Associative([b[0]], b[1..], z);
      LessCons(a[0], a[1..] + y, b[0], b[1..] + z);
      if a[0] == b[0] { SuffixesDoNotMatter(a[1..], b[1..], y, z); }
    }
  }

  /** A string against one that extends it: the first byte after the shorter one decides. */
  lemma ExtensionOrder(a: Bytes, b: Bytes, y: Bytes, z: Bytes)
    requires ProperPrefix(a, b) && y != [] && y[0] != b[|a|]
    ensures Less(a + y, b + z) <==> y[0] < b[|a|]
    ensures Less(b + z, a + y) <==> b[|a|] < y[0]
  {
    var rest := b[|a|..];
    assert b == a + rest;
    Associative(a, rest, z);
    LessConcat(a, y, a, rest + z);
    LessConcat(a, rest + z, a, y);
    LessIrreflexive(a);
  }

  // ---------- Zones and fractions ----------

  /** The order of printed zones: '+' by size, then '-' by size, then 'Z'. */
  function ZoneRank(offset: int): int {
    if offset > 0 then offset else if offset < 0 then 1440 - offset else 2880
  }

  lemma ZoneOrder(x: int, y: int)
    requires -1440 < x < 1440 && -1440 < y < 1440
    ensures Less(Zone(x), Zone(y)) <==> ZoneRank(x) < ZoneRank(y)
  {
    hide Pair;
    if x == 0 && y == 0 {
      LessIrreflexive(Zone(x));
    } else if x != 0 && y != 0 {
      var a, b := if x < 0 then -x else x, if y < 0 then -y else y;
      MinutesOrder(a, b);
      LessCons(if x < 0 then 45 else 43, Minutes(a), if y < 0 then 45 else 43, Minutes(b));
    }
  }

  /** hh:mm */
  function Minutes(a: int): Bytes
    requires 0 <= a < 1440
  {
    Pair(a / 60) + ([58] + Pair(a % 60))
  }

  lemma MinutesOrder(a: int, b: int)
    requires 0 <= a < 1440 && 0 <= b < 1440
    ensures Less(Minutes(a), Minutes(b)) <==> a < b
  {
    hide Digits, Less;
    Pow10Values();
    LessConcat(Pair(a / 60), [58] + Pair(a % 60), Pair(b / 60), [58] + Pair(b % 60));
    LessCons(58, Pair(a % 60), 58, Pair(b % 60));
    DigitsOrder(a / 60, b / 60, 2);
    DigitsOrder(a % 60, b % 60, 2);
  }

  lemma FractionBytes(n: int)
    requires 0 <= n < 1_000_000_000
    ensures forall i :: 0 <= i < |Fraction(n)| ==> 46 <= Fraction(n)[i] <= 57
  {
    Pow10Values();
    var d := Digits(n, 9);
    assert WithoutZeros(d) == d[..|WithoutZeros(d)|];
  }

  /** One fraction properly starts with the other, and a 'Z' follows the shorter one. */
  predicate ShorterEndsInZ(a: Time, b: Time) {
    || (ProperPrefix(Fraction(a.nanos), Fraction(b.nanos)) && a.offset == 0)
    || (ProperPrefix(Fraction(b.nanos), Fraction(a.nanos)) && b.offset == 0)
  }

  /** The order of two keys of one wall-clock second. */
  predicate EarlierInSecond(a: Time, b: Time) {
    if a.nanos == b.nanos then ZoneRank(a.offset) < ZoneRank(b.offset)
    else if ShorterEndsInZ(a, b) then b.nanos < a.nanos
    else a.nanos < b.nanos
  }

  /** The order of two keys, read off their times. */
  predicate KeyEarlier(a: Time, b: Time) {
    WallSeconds(a) < WallSeconds(b) || (WallSeconds(a) == WallSeconds(b) && EarlierInSecond(a, b))
  }

  /** Fractions compare as the nanoseconds do in front of a sign. */
  lemma FractionsApart(n: int, m: int)
    requires 0 <= n < 1_000_000_000 && 0 <= m < 1_000_000_000
    ensures var a, b := Fraction(n), Fraction(m);
            && (ProperPrefix(a, b) ==> n < m)
            && (ProperPrefix(b, a) ==> m < n)
            && (a == b <==> n == m)
            && (Apart(a, b) ==> (Less(a, b) <==> n < m))
  {
    var a, b := Fraction(n), Fraction(m);
    FractionOrder(n, m, [43], false);
    FractionOrder(m, n, [43], false);
    if a == b { LessIrreflexive(a + [43]); }
    if Apart(a, b) { SuffixesDoNotMatter(a, b, [43], [43]); }
  }

  lemma ExtendedFraction(n: int, m: int, x: int, y: int)
    requires 0 <= n < 1_000_000_000 && 0 <= m < 1_000_000_000 && -1440 < x < 1440 && -1440 < y < 1440
    requires ProperPrefix(Fraction(n), Fraction(m))
    ensures Less(Fraction(n) + Zone(x), Fraction(m) + Zone(y)) <==> x != 0
    ensures Less(Fraction(m) + Zone(y), Fraction(n) + Zone(x)) <==> x == 0
  {
    hide Fraction, Pair, Less;
    FractionBytes(m);
    ExtensionOrder(Fraction(n), Fraction(m), Zone(x), Zone(y));
  }

  lemma SecondOrder(a: Time, b: Time)
    ensures Less(Fraction(a.nanos) + Zone(a.offset), Fraction(b.nanos) + Zone(b.offset)) <==> EarlierInSecond(a, b)
  {
    hide Fraction, Zone, Less, ProperPrefix;
    var f, g := Fraction(a.nanos), Fraction(b.nanos);
    FractionsApart(a.nanos, b.nanos);
    if ProperPrefix(f, g) {
      ExtendedFraction(a.nanos, b.nanos, a.offset, b.offset);
    } else if ProperPrefix(g, f) {
      ExtendedFraction(b.nanos, a.nanos, b.offset, a.offset);
    } else if f == g {
      LessConcat(f, Zone(a.offset), g, Zone(b.offset));
      LessIrreflexive(f);
      ZoneOrder(a.offset, b.offset);
    } else {
      SuffixesDoNotMatter(f, g, Zone(a.offset), Zone(b.offset));
    }
  }

  // ---------- Any two keys ----------

  /** The order of any two keys, whatever their zones. */
  lemma KeysCompareByWallClock(a: Time, b: Time)
    ensures Less(Format(a), Format(b)) <==> KeyEarlier(a, b)
  {
    hide Fraction, Zone, EarlierInSecond, WallSeconds;
    FormatOrder(a, b, 6);
    NumbersCountSeconds(a, b);
    SecondOrder(a, b);
  }

  /**
   When key order is time order. In different wall-clock seconds: when the zone has moved by less than the clock
   shows to have passed, either way. Within one second: in one zone when the shorter of two fractions, one of
   them a prefix, does not end in 'Z'; in two zones when key order is the order of the offsets.
   */
  lemma KeysSortAsTimesIff(a: Time, b: Time)
    ensures (Less(Format(a), Format(b)) <==> Instant(a) < Instant(b)) <==>
            if WallSeconds(a) != WallSeconds(b) then
              WallSeconds(a) < WallSeconds(b) <==>
              60_000_000_000 * (b.offset - a.offset) <
              1_000_000_000 * (WallSeconds(b) - WallSeconds(a)) + b.nanos - a.nanos
            else if a.offset == b.offset then !PrefixClash(a, b) || a.offset != 0
            else EarlierInSecond(a, b) <==> b.offset < a.offset
  {
    hide Format, WallSeconds;
    KeysCompareByWallClock(a, b);
    if a.offset == b.offset {
      KeyOrder(a, b);
      if PrefixClash(a, b) { ClashingTimesDiffer(a, b); }
    }
  }

  /** Putting the clocks back: of two instants in order, the later one sorts first while its clock shows less. */
  lemma ClocksPutBack(a: Time, b: Time)
    requires Instant(a) < Instant(b) && WallSeconds(a) != WallSeconds(b)
    ensures Less(Format(b), Format(a)) <==> WallSeconds(b) < WallSeconds(a)
    ensures WallSeconds(b) < WallSeconds(a) ==> b.offset < a.offset
  {
    hide Format, WallSeconds;
    KeysCompareByWallClock(b, a);
  }

  /** Keys that are not in order leave the other way round, or are one key of one time. */
  lemma KeyEarlierTotal(a: Time, b: Time)
    ensures KeyEarlier(a, b) || a == b || KeyEarlier(b, a)
    ensures !(KeyEarlier(a, b) && KeyEarlier(b, a)) && !KeyEarlier(a, a)
  {
    hide Format;
    KeysCompareByWallClock(a, b);
    KeysCompareByWallClock(b, a);
    KeysCompareByWallClock(a, a);
    LessIrreflexive(Format(a));
    LessTotal(Format(a), Format(b));
    if Less(Format(a), Format(b)) { LessAsymmetric(Format(a), Format(b)); }
    ParseInvertsFormat(a);
    ParseInvertsFormat(b);
  }
}
