/** The poller's change hash: a 32-bit rolling polynomial over the first 4098 bytes. */
module ContentHash {
  import opened ByteStrings

  const TWO_32 := 0x1_0000_0000
  const HASHED_BYTES := 4098

  /** The sum of s[i] * 33^(|s|-1-i), unbounded. */
  function Polynomial(s: Bytes): int {
    if s == [] then 0 else 33 * Polynomial(s[..|s| - 1]) + s[|s| - 1]
  }

  /** What is hashed of a content. */
  function Hashed(s: Bytes): Bytes { if |s| <= HASHED_BYTES then s else s[..HASHED_BYTES] }

  /** `%x` of a number. */
  function Hex(n: nat): (s: string)
    ensures s != []
  {
    if n < 16 then ["0123456789abcdef"[n]] else Hex(n / 16) + ["0123456789abcdef"[n % 16]]
  }

  /** The hash string; the empty content has the empty one. */
  function HashText(s: Bytes): string {
    if s == [] then "" else Hex(Polynomial(Hashed(s)) % TWO_32)
  }

  /** `hash = (hash << 5) + hash + b` on uint32 values, until the index passes 4096. */
  method HashContent(data: Bytes) returns (text: string)
    ensures text == HashText(data)
  {
    if data == [] { return ""; }
    var hash := 0;
    var i := 0;
    while i < |data|
      invariant 0 <= i <= |data| && i <= HASHED_BYTES - 1
      invariant hash == Polynomial(data[..i]) % TWO_32
      decreases |data| - i
    {
      RollingStep(Polynomial(data[..i]), data[i]);
      assert data[..i + 1][..i] == data[..i];
      hash := (hash * 32 % TWO_32 + hash + data[i]) % TWO_32;
      if i > 4096 {
        assert data[..i + 1] == Hashed(data);
        return Hex(hash);
      }
      i := i + 1;
    }
    assert data[..i] == Hashed(data);
    return Hex(hash);
  }

  lemma RollingStep(p: int, b: Byte)
    ensures (p % TWO_32 * 32 % TWO_32 + p % TWO_32 + b) % TWO_32 == (33 * p + b) % TWO_32
  {
    var q, r := p / TWO_32, p % TWO_32;
    var q', r' := r * 32 / TWO_32, r * 32 % TWO_32;
    assert 33 * p + b == r' + r + b + TWO_32 * (33 * q + q');
    AddMultiple(r' + r + b, 33 * q + q');
  }

  lemma AddMultiple(x: int, k: int)
    ensures (x + TWO_32 * k) % TWO_32 == x % TWO_32
  {}

  // ---------- Powers of 33 and of 2 ----------

  function Pow33(k: nat): (p: int) { if k == 0 then 1 else 33 * Pow33(k - 1) }

  function Pow2(k: nat): (p: int)
    ensures p >= 1
  {
    if k == 0 then 1 else 2 * Pow2(k - 1)
  }

  lemma {:induction false} Pow33Odd(k: nat)
    ensures Pow33(k) % 2 == 1
  {
    if k > 0 { Pow33Odd(k - 1); }
  }

  /** `n` is a multiple of 2^k: it can be halved k times. */
  predicate Multiple(n: int, k: nat)
    decreases k
  {
    k > 0 ==> n % 2 == 0 && Multiple(n / 2, k - 1)
  }

  lemma {:induction false} MultipleOf(q: int, k: nat)
    ensures Multiple(Pow2(k) * q, k)
  {
    if k > 0 {
      MultipleOf(q, k - 1);
      FactorTwo(Pow2(k - 1), q);
      DoubleMultiple(Pow2(k - 1) * q, k);
    }
  }

  lemma FactorTwo(p: int, q: int)
    ensures 2 * p * q == 2 * (p * q)
  {}

  lemma DoubleMultiple(n: int, k: nat)
    requires k > 0 && Multiple(n, k - 1)
    ensures Multiple(2 * n, k)
  {
    assert 2 * n / 2 == n;
  }

  lemma {:induction false} MultipleQuotient(n: int, k: nat) returns (q: int)
    requires Multiple(n, k)
    ensures n == Pow2(k) * q
    decreases k
  {
    if k == 0 { q := n; } else {
      q := MultipleQuotient(n / 2, k - 1);
      FactorTwo(Pow2(k - 1), q);
    }
  }

  lemma TwoTo32()
    ensures Pow2(32) == TWO_32
  {
    assert Pow2(8) == 256;
    assert Pow2(16) == 65536;
    assert Pow2(24) == 16777216;
  }

  lemma OddTimesEven(o: int, d: int)
    requires o % 2 == 1 && (o * d) % 2 == 0
    ensures d % 2 == 0 && o * d / 2 == o * (d / 2)
  {
    var h, e := o / 2, d / 2;
    assert o == 2 * h + 1;
    assert o * d == 2 * (h * d) + d;
    assert d == 2 * e && o * d == 2 * (o * e);
  }

  /** An odd factor can be cancelled from a multiple of a power of two. */
  lemma {:induction false} CancelOdd(o: int, d: int, k: nat)
    requires o % 2 == 1 && Multiple(o * d, k)
    ensures Multiple(d, k)
    decreases k
  {
    if k > 0 {
      OddTimesEven(o, d);
      CancelOdd(o, d / 2, k - 1);
    }
  }

  lemma {:induction false} SmallMultiple(d: int, k: nat)
    requires Multiple(d, k) && -Pow2(k) < d < Pow2(k)
    ensures d == 0
    decreases k
  {
    if k > 0 { SmallMultiple(d / 2, k - 1); }
  }

  // ---------- Sensitivity ----------

  /** Changing one byte moves the polynomial by that change times a power of 33. */
  lemma {:induction false} SubstitutionDelta(s: Bytes, i: nat, b: Byte)
    requires i < |s|
    ensures Polynomial(s[i := b]) - Polynomial(s) == Pow33(|s| - 1 - i) * (b - s[i])
  {
    var t := s[i := b];
    var n := |s| - 1;
    if i == n {
      assert t[..n] == s[..n];
    } else {
      assert t[..n] == s[..n][i := b];
      SubstitutionDelta(s[..n], i, b);
      Factor33(Pow33(n - 1 - i), b - s[i]);
    }
  }

  lemma Factor33(p: int, d: int)
    ensures 33 * (p * d) == (33 * p) * d
  {}

  lemma SameResidue(x: int, y: int)
    ensures x % TWO_32 == y % TWO_32 <==> Multiple(x - y, 32)
  {
    TwoTo32();
    if x % TWO_32 == y % TWO_32 {
      var q := x / TWO_32 - y / TWO_32;
      assert x - y == TWO_32 * q;
      MultipleOf(q, 32);
    }
    if Multiple(x - y, 32) {
      var q := MultipleQuotient(x - y, 32);
      AddMultiple(y, q);
    }
  }

  lemma {:induction false} HexInjective(n: nat, m: nat)
    requires Hex(n) == Hex(m)
    ensures n == m
  {
    HexDigitsDiffer();
    var a, b := Hex(n), Hex(m);
    assert a[|a| - 1] == b[|b| - 1];
    if n >= 16 && m >= 16 {
      assert a[..|a| - 1] == Hex(n / 16) && b[..|b| - 1] == Hex(m / 16);
      HexInjective(n / 16, m / 16);
    }
  }

  lemma HexDigitsDiffer()
    ensures forall i, j :: 0 <= i < 16 && 0 <= j < 16 && "0123456789abcdef"[i] == "0123456789abcdef"[j] ==> i == j
  {
    var d := "0123456789abcdef";
    assert forall i :: 0 <= i < 10 ==> d[i] as int == '0' as int + i;
    assert forall i :: 10 <= i < 16 ==> d[i] as int == 'a' as int + i - 10;
  }

  /** Any one-byte substitution inside the hashed prefix changes the hash. */
  lemma OneByteChangesHash(s: Bytes, i: nat, b: Byte)
    requires i < |s| && i < 4098 && b != s[i]
    ensures HashText(s[i := b]) != HashText(s)
  {
    var x, y := Hashed(s[i := b]), Hashed(s);
    assert x == y[i := b];
    if HashText(s[i := b]) == HashText(s) {
      HexInjective(Polynomial(x) % TWO_32, Polynomial(y) % TWO_32);
      SameResidue(Polynomial(x), Polynomial(y));
      SubstitutionDelta(y, i, b);
      Pow33Odd(|y| - 1 - i);
      CancelOdd(Pow33(|y| - 1 - i), b - y[i], 32);
      TwoTo32();
      SmallMultiple(b - y[i], 32);
    }
  }

  /** Nothing after the hashed prefix matters. */
  lemma TailIsIgnored(s: Bytes, t: Bytes)
    requires |s| >= 4098 && |t| >= 4098 && s[..4098] == t[..4098]
    ensures HashText(s) == HashText(t)
  {
    assert Hashed(s) == s[..HASHED_BYTES] && Hashed(t) == t[..HASHED_BYTES];
  }

  /** Nonempty contents share a hash exactly when their polynomials are congruent modulo 2^32. */
  lemma SameHashIff(s: Bytes, t: Bytes)
    requires s != [] && t != []
    ensures HashText(s) == HashText(t) <==>
            Polynomial(Hashed(s)) % 0x1_0000_0000 == Polynomial(Hashed(t)) % 0x1_0000_0000
  {
    hide Polynomial, Hashed;
    if HashText(s) == HashText(t) { HexInjective(Polynomial(Hashed(s)) % TWO_32, Polynomial(Hashed(t)) % TWO_32); }
  }

  /** "a" is 97, which is 61 in hexadecimal, and "ab" is 97 * 33 + 98, which is ce3. */
  lemma HashSamples()
    ensures HashText([]) == "" && HashText([97]) == "61" && HashText([97, 98]) == "ce3"
  {
    assert [97][..0] == [] && [97, 98][..1] == [97];
    assert Polynomial([97]) == 97 && Polynomial([97, 98]) == 3299;
    assert Hex(6) == "6" && Hex(97) == "61";
    assert Hex(12) == "c" && Hex(206) == "ce" && Hex(3299) == "ce3";
  }

  /** Two bytes can make up for each other: [0, 33] and [1, 0] have one hash. */
  lemma HashCollides()
    ensures HashText([0, 33]) == HashText([1, 0]) != ""
  {
    assert [0, 33][..1] == [0] && [1, 0][..1] == [1];
    assert [0][..0] == [] && [1][..0] == [];
    assert Polynomial([0]) == 0 && Polynomial([1]) == 1;
    assert Polynomial([0, 33]) == 33 && Polynomial([1, 0]) == 33;
  }
}
