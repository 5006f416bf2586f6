/** Byte strings in Go's sense, the order of `bytes.Compare`, and white-space trimming. */
module ByteStrings {

  type Byte = x: int | 0 <= x < 256
  type Bytes = seq<Byte>

  // ---------- Lexicographic order ----------

  /** `bytes.Compare(a, b) < 0`. */
  predicate Less(a: Bytes, b: Bytes) {
    |b| > 0 && (|a| == 0 || a[0] < b[0] || (a[0] == b[0] && Less(a[1..], b[1..])))
  }

  lemma {:induction false} LessIrreflexive(a: Bytes)
    ensures !Less(a, a)
  {
    if a != [] { LessIrreflexive(a[1..]); }
  }

  lemma {:induction false} LessTransitive(a: Bytes, b: Bytes, c: Bytes)
    requires Less(a, b) && Less(b, c)
    ensures Less(a, c)
  {
    if a != [] && a[0] == b[0] && b[0] == c[0] { LessTransitive(a[1..], b[1..], c[1..]); }
  }

  lemma {:induction false} LessTotal(a: Bytes, b: Bytes)
    ensures Less(a, b) || a == b || Less(b, a)
  {
    if a != [] && b != [] && a[0] == b[0] {
      LessTotal(a[1..], b[1..]);
      assert a == [a[0]] + a[1..] && b == [b[0]] + b[1..];
    }
  }

  lemma LessAsymmetric(a: Bytes, b: Bytes)
    requires Less(a, b)
    ensures !Less(b, a) && a != b
  {
    if Less(b, a) { LessTransitive(a, b, a); }
    LessIrreflexive(a);
  }

  lemma NotLessTransitive(a: Bytes, b: Bytes, c: Bytes)
    requires !Less(a, b) && !Less(b, c)
    ensures !Less(a, c)
  {
    LessTotal(a, b);
    LessTotal(b, c);
    if Less(a, c) {
      if b != a { LessTransitive(b, a, c); }
      LessAsymmetric(a, c);
      if b != a { LessAsymmetric(b, a); }
      if b != c { LessAsymmetric(c, b); }
    }
  }

  /** Equal-length heads decide the comparison; the tails break a tie. */
  lemma {:induction false} LessConcat(a: Bytes, x: Bytes, b: Bytes, y: Bytes)
    requires |a| == |b|
    ensures Less(a + x, b + y) <==> Less(a, b) || (a == b && Less(x, y))
  {
    if a == [] {
      assert a + x == x && b + y == y;
    } else {
      LessConcat(a[1..], x, b[1..], y);
      assert (a + x)[1..] == a[1..] + x && (b + y)[1..] == b[1..] + y;
      assert a == [a[0]] + a[1..] && b == [b[0]] + b[1..];
    }
  }

  // ---------- Trimming ----------

  predicate StartsWith(s: Bytes, p: Bytes) { |p| <= |s| && s[..|p|] == p }

  predicate EndsWith(s: Bytes, p: Bytes) { |p| <= |s| && s[|s| - |p|..] == p }

  /** One-byte members of Unicode's White_Space. */
  predicate AsciiSpace(b: Byte) { 9 <= b <= 13 || b == 32 }

  /** UTF-8 of U+0085 and U+00A0. */
  predicate Space2(b: Byte, c: Byte) { b == 0xC2 && (c == 0x85 || c == 0xA0) }

  /** UTF-8 of U+1680, U+2000-200A, U+2028, U+2029, U+202F, U+205F and U+3000. */
  predicate Space3(b: Byte, c: Byte, d: Byte) {
    || (b == 0xE1 && c == 0x9A && d == 0x80)
    || (b == 0xE2 && c == 0x80 && (0x80 <= d <= 0x8A || d == 0xA8 || d == 0xA9 || d == 0xAF))
    || (b == 0xE2 && c == 0x81 && d == 0x9F)
    || (b == 0xE3 && c == 0x80 && d == 0x80)
  }

  /** Width of the white-space rune that `s` starts with, 0 if it starts with none. */
  function LeadingSpace(s: Bytes): (w: nat)
    ensures w <= |s|
  {
    if |s| >= 1 && AsciiSpace(s[0]) then 1
    else if |s| >= 2 && Space2(s[0], s[1]) then 2
    else if |s| >= 3 && Space3(s[0], s[1], s[2]) then 3
    else 0
  }

  /** Width of the white-space rune that `s` ends with, 0 if it ends with none. */
  function TrailingSpace(s: Bytes): (w: nat)
    ensures w <= |s|
  {
    var n := |s|;
    if n >= 1 && AsciiSpace(s[n - 1]) then 1
    else if n >= 2 && Space2(s[n - 2], s[n - 1]) then 2
    else if n >= 3 && Space3(s[n - 3], s[n - 2], s[n - 1]) then 3
    else 0
  }

  function TrimLeft(s: Bytes): (r: Bytes)
    ensures LeadingSpace(r) == 0
    ensures EndsWith(s, r)
  {
    if LeadingSpace(s) == 0 then s else TrimLeft(s[LeadingSpace(s)..])
  }

  function TrimRight(s: Bytes): (r: Bytes)
    ensures TrailingSpace(r) == 0
    ensures StartsWith(s, r)
  {
    if TrailingSpace(s) == 0 then s else TrimRight(s[..|s| - TrailingSpace(s)])
  }

  /** `bytes.TrimSpace` and `strings.TrimSpace`. */
  function TrimSpace(s: Bytes): Bytes { TrimRight(TrimLeft(s)) }

  /** Both ends of a trimmed string are free of white space. */
  lemma TrimSpaceEnds(s: Bytes)
    ensures LeadingSpace(TrimSpace(s)) == 0 && TrailingSpace(TrimSpace(s)) == 0
  {
    var t := TrimLeft(s);
    var r := TrimRight(t);
    assert forall i :: 0 <= i < |r| ==> r[i] == t[i];
  }

  lemma TrimSpaceShrinks(s: Bytes)
    ensures |TrimSpace(s)| <= |s|
  {}

  /** Trimming is idempotent, and leaves a string alone exactly when both its ends are clean. */
  lemma TrimSpaceFixed(s: Bytes)
    ensures TrimSpace(TrimSpace(s)) == TrimSpace(s)
    ensures TrimSpace(s) == s <==> LeadingSpace(s) == 0 && TrailingSpace(s) == 0
  {
    TrimSpaceEnds(s);
    TrimSpaceEnds(TrimSpace(s));
  }
}
