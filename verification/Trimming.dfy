/** What trimming does to a string, in terms of Unicode's White_Space and its UTF-8 encoding. */
module Trimming {
  import opened ByteStrings
  import opened Sequences

  /** Code points that take at most three bytes. */
  type CodePoint = p: int | 0 <= p < 0x10000

  /** The code points of Unicode's White_Space property. */
  const WHITE_SPACE: set<CodePoint> := {
    0x0009, 0x000A, 0x000B, 0x000C, 0x000D, 0x0020, 0x0085, 0x00A0, 0x1680, 0x2000, 0x2001, 0x2002, 0x2003, 0x2004,
    0x2005, 0x2006, 0x2007, 0x2008, 0x2009, 0x200A, 0x2028, 0x2029, 0x202F, 0x205F, 0x3000 }

  /** UTF-8, section 3 of RFC 3629. */
  function Utf8(p: CodePoint): Bytes {
    if p < 0x80 then [p]
    else if p < 0x800 then [0xC0 + p / 64, 0x80 + p % 64]
    else [0xE0 + p / 4096, 0x80 + p / 64 % 64, 0x80 + p % 64]
  }

  function Encoded(ps: seq<CodePoint>): Bytes {
    if ps == [] then [] else Utf8(ps[0]) + Encoded(ps[1..])
  }

  /** White space only. */
  ghost predicate White(s: Bytes) { exists ps: seq<CodePoint> :: WhiteAs(s, ps) }

  predicate WhiteAs(s: Bytes, ps: seq<CodePoint>) { (forall p :: p in ps ==> p in WHITE_SPACE) && s == Encoded(ps) }

  /** No white-space character at either end. */
  ghost predicate CleanEnds(s: Bytes) {
    forall p :: p in WHITE_SPACE ==> !StartsWith(s, Utf8(p)) && !EndsWith(s, Utf8(p))
  }

  // ---------- One character ----------

  /** What makes up a white-space character, byte by byte. */
  lemma SpaceBytes(p: CodePoint)
    requires p in WHITE_SPACE
    ensures var u := Utf8(p);
            && 1 <= |u| <= 3
            && (|u| == 1 ==> AsciiSpace(u[0])) && (|u| == 2 ==> Space2(u[0], u[1]))
            && (|u| == 3 ==> Space3(u[0], u[1], u[2]))
  {}

  lemma OneByteSpace(b: Byte) returns (p: CodePoint)
    requires AsciiSpace(b)
    ensures p in WHITE_SPACE && Utf8(p) == [b]
  {
    p := b;
  }

  lemma TwoByteSpace(b: Byte, c: Byte) returns (p: CodePoint)
    requires Space2(b, c)
    ensures p in WHITE_SPACE && Utf8(p) == [b, c]
  {
    p := c;
  }

  lemma ThreeByteSpace(b: Byte, c: Byte, d: Byte) returns (p: CodePoint)
    requires Space3(b, c, d)
    ensures p in WHITE_SPACE && Utf8(p) == [b, c, d]
  {
    p := if b == 0xE1 then 0x1680 else if b == 0xE3 then 0x3000 else if c == 0x81 then 0x205F else 0x1F80 + d;
  }

  // ---------- One end ----------

  lemma LeadingIs(s: Bytes) returns (p: CodePoint)
    requires LeadingSpace(s) > 0
    ensures p in WHITE_SPACE && s[..LeadingSpace(s)] == Utf8(p)
  {
    hide Utf8, WHITE_SPACE;
    var w := LeadingSpace(s);
    if w == 1 { p := OneByteSpace(s[0]); }
    else if w == 2 { p := TwoByteSpace(s[0], s[1]); }
    else { p := ThreeByteSpace(s[0], s[1], s[2]); }
  }

  lemma TrailingIs(s: Bytes) returns (p: CodePoint)
    requires TrailingSpace(s) > 0
    ensures p in WHITE_SPACE && s[|s| - TrailingSpace(s)..] == Utf8(p)
  {
    hide Utf8, WHITE_SPACE;
    var n, w := |s|, TrailingSpace(s);
    if w == 1 { p := OneByteSpace(s[n - 1]); }
    else if w == 2 { p := TwoByteSpace(s[n - 2], s[n - 1]); }
    else { p := ThreeByteSpace(s[n - 3], s[n - 2], s[n - 1]); }
  }

  lemma LeadingOf(s: Bytes, p: CodePoint)
    requires p in WHITE_SPACE && StartsWith(s, Utf8(p))
    ensures LeadingSpace(s) == |Utf8(p)| > 0
  {
    hide Utf8, WHITE_SPACE;
    SpaceBytes(p);
    var u := Utf8(p);
    assert forall i :: 0 <= i < |u| ==> s[i] == u[i];
  }

  lemma TrailingOf(s: Bytes, p: CodePoint)
    requires p in WHITE_SPACE && EndsWith(s, Utf8(p))
    ensures TrailingSpace(s) == |Utf8(p)| > 0
  {
    hide Utf8, WHITE_SPACE;
    SpaceBytes(p);
    var u := Utf8(p);
    assert forall i :: 0 <= i < |u| ==> s[|s| - |u| + i] == u[i];
  }

  lemma DirtyLeft(s: Bytes)
    requires LeadingSpace(s) > 0
    ensures !CleanEnds(s)
  {
    hide Utf8, WHITE_SPACE, LeadingSpace;
    var p := LeadingIs(s);
    assert StartsWith(s, Utf8(p));
  }

  lemma DirtyRight(s: Bytes)
    requires TrailingSpace(s) > 0
    ensures !CleanEnds(s)
  {
    hide Utf8, WHITE_SPACE, TrailingSpace;
    var p := TrailingIs(s);
    assert EndsWith(s, Utf8(p));
  }

  /** Ends free of white-space characters are those where trimming stops. */
  lemma CleanEndsIff(s: Bytes)
    ensures CleanEnds(s) <==> LeadingSpace(s) == 0 && TrailingSpace(s) == 0
  {
    hide Utf8, WHITE_SPACE, LeadingSpace, TrailingSpace;
    if LeadingSpace(s) > 0 { DirtyLeft(s); }
    if TrailingSpace(s) > 0 { DirtyRight(s); }
    if !CleanEnds(s) {
      var p :| p in WHITE_SPACE && (StartsWith(s, Utf8(p)) || EndsWith(s, Utf8(p)));
      if StartsWith(s, Utf8(p)) { LeadingOf(s, p); } else { TrailingOf(s, p); }
    }
  }

  // ---------- What is cut off ----------

  lemma EncodedFirst(p: CodePoint, ps: seq<CodePoint>)
    ensures Encoded([p] + ps) == Utf8(p) + Encoded(ps)
  {
    assert ([p] + ps)[1..] == ps;
  }

  lemma {:induction false} EncodedLast(ps: seq<CodePoint>, p: CodePoint)
    ensures Encoded(ps + [p]) == Encoded(ps) + Utf8(p)
  {
    hide Utf8;
    if ps == [] {
      assert [] + [p] == [p] + [];
      EncodedFirst(p, []);
      EmptyPrefix(Utf8(p));
    } else {
      EncodedLast(ps[1..], p);
      assert ps + [p] == [ps[0]] + (ps[1..] + [p]);
      EncodedFirst(ps[0], ps[1..] + [p]);
      Associative(Utf8(ps[0]), Encoded(ps[1..]), Utf8(p));
    }
  }

  lemma TrimLeftStep(s: Bytes)
    ensures TrimLeft(s) == if LeadingSpace(s) == 0 then s else TrimLeft(s[LeadingSpace(s)..])
  {}

  lemma TrimRightStep(s: Bytes)
    ensures TrimRight(s) == if TrailingSpace(s) == 0 then s else TrimRight(s[..|s| - TrailingSpace(s)])
  {}

  lemma NothingEncoded(s: Bytes)
    ensures Encoded([]) + s == s && s + Encoded([]) == s
  {}

  lemma Halves(s: Bytes, n: nat)
    requires n <= |s|
    ensures s == s[..n] + s[n..]
  {}

  lemma {:induction false} LeftPart(s: Bytes) returns (ps: seq<CodePoint>)
    ensures (forall p :: p in ps ==> p in WHITE_SPACE) && s == Encoded(ps) + TrimLeft(s)
    decreases |s|
  {
    hide Utf8, WHITE_SPACE, LeadingSpace, Encoded, TrimLeft;
    var w := LeadingSpace(s);
    TrimLeftStep(s);
    if w == 0 { ps := []; NothingEncoded(s); } else {
      var p := LeadingIs(s);
      var rest := LeftPart(s[w..]);
      ps := [p] + rest;
      EncodedFirst(p, rest);
      Associative(Utf8(p), Encoded(rest), TrimLeft(s));
      Halves(s, w);
    }
  }

  lemma {:induction false} RightPart(s: Bytes) returns (ps: seq<CodePoint>)
    ensures (forall p :: p in ps ==> p in WHITE_SPACE) && s == TrimRight(s) + Encoded(ps)
    decreases |s|
  {
    hide Utf8, WHITE_SPACE, TrailingSpace, Encoded, TrimRight;
    var w := TrailingSpace(s);
    TrimRightStep(s);
    if w == 0 { ps := []; NothingEncoded(s); } else {
      var n := |s| - w;
      var p := TrailingIs(s);
      var rest := RightPart(s[..n]);
      ps := rest + [p];
      EncodedLast(rest, p);
      Associative(TrimRight(s), Encoded(rest), Utf8(p));
      Halves(s, n);
    }
  }

  /** Trimming takes white space off both ends, keeps all that lies between, and leaves no white space at an end. */
  lemma TrimSpaceKeepsTheMiddle(s: Bytes)
    ensures exists a, b :: White(a) && White(b) && s == a + TrimSpace(s) + b
    ensures CleanEnds(TrimSpace(s))
  {
    hide Utf8, WHITE_SPACE, LeadingSpace, TrailingSpace, TrimLeft, TrimRight, CleanEnds, Encoded;
    var ps := LeftPart(s);
    var qs := RightPart(TrimLeft(s));
    var a, b := Encoded(ps), Encoded(qs);
    Associative(a, TrimSpace(s), b);
    assert WhiteAs(a, ps) && WhiteAs(b, qs);
    assert White(a) && White(b) && s == a + TrimSpace(s) + b;
    TrimSpaceEnds(s);
    CleanEndsIff(TrimSpace(s));
  }

  // ---------- That fixes the result ----------

  lemma {:induction false} LeftIsCut(ps: seq<CodePoint>, s: Bytes)
    requires forall p :: p in ps ==> p in WHITE_SPACE
    ensures TrimLeft(Encoded(ps) + s) == TrimLeft(s)
  {
    hide Utf8, WHITE_SPACE, LeadingSpace;
    if ps == [] { EmptyPrefix(s); } else {
      var u, rest := Utf8(ps[0]), Encoded(ps[1..]) + s;
      LeftIsCut(ps[1..], s);
      Associative(u, Encoded(ps[1..]), s);
      SplitAfter(u, rest);
      LeadingOf(u + rest, ps[0]);
    }
  }

  lemma {:induction false} RightIsCut(s: Bytes, ps: seq<CodePoint>)
    requires forall p :: p in ps ==> p in WHITE_SPACE
    ensures TrimRight(s + Encoded(ps)) == TrimRight(s)
  {
    hide Utf8, WHITE_SPACE, TrailingSpace;
    if ps == [] { assert s + [] == s; } else {
      var n := |ps| - 1;
      var rest, u := s + Encoded(ps[..n]), Utf8(ps[n]);
      RightIsCut(s, ps[..n]);
      assert ps == ps[..n] + [ps[n]];
      EncodedLast(ps[..n], ps[n]);
      Associative(s, Encoded(ps[..n]), u);
      SplitAfter(rest, u);
      TrailingOf(rest + u, ps[n]);
    }
  }

  lemma SplitAfter(a: Bytes, b: Bytes)
    ensures (a + b)[..|a|] == a && (a + b)[|a|..] == b && (a + b)[..|a + b| - |b|] == a
  {}

  /** White space never completes a character that `s` starts: its first byte starts one of its own. */
  lemma FirstByteOfSpace(p: CodePoint)
    requires p in WHITE_SPACE
    ensures Utf8(p)[0] < 0x80 || Utf8(p)[0] >= 0xC0
  {}

  lemma StillClean(s: Bytes, b: Bytes)
    requires s != [] && LeadingSpace(s) == 0 && (b != [] ==> b[0] < 0x80 || b[0] >= 0xC0)
    ensures LeadingSpace(s + b) == 0
  {
    var t := s + b;
    assert t[0] == s[0];
    if |s| >= 2 { assert t[1] == s[1]; } else if b != [] { assert t[1] == b[0]; }
    if |s| >= 3 { assert t[2] == s[2]; } else if |s| == 2 && b != [] { assert t[2] == b[0]; }
  }

  /** Whatever has clean ends comes back from between any white space: trimming is exactly that. */
  lemma TrimSpaceFinds(a: Bytes, s: Bytes, b: Bytes)
    requires White(a) && White(b) && CleanEnds(s)
    ensures TrimSpace(a + s + b) == s
  {
    hide Utf8, WHITE_SPACE, LeadingSpace, TrailingSpace, CleanEnds;
    var ps :| WhiteAs(a, ps);
    var qs :| WhiteAs(b, qs);
    CleanEndsIff(s);
    Associative(a, s, b);
    LeftIsCut(ps, s + b);
    if s == [] {
      EmptyPrefix(b);
      assert b + [] == b;
      LeftIsCut(qs, []);
      NothingToTrim();
    } else {
      if qs != [] { FirstIsWhite(qs); }
      StillClean(s, b);
      RightIsCut(s, qs);
    }
  }

  lemma FirstIsWhite(qs: seq<CodePoint>)
    requires qs != [] && forall p :: p in qs ==> p in WHITE_SPACE
    ensures Encoded(qs) != [] && (Encoded(qs)[0] < 0x80 || Encoded(qs)[0] >= 0xC0)
  {
    FirstByteOfSpace(qs[0]);
  }

  lemma NothingToTrim()
    ensures TrimLeft([]) == [] && TrimRight([]) == []
  {}

  /** `t` is what `s` has between white space. */
  ghost predicate Middle(s: Bytes, t: Bytes) { CleanEnds(t) && exists a, b :: White(a) && White(b) && s == a + t + b }

  lemma MiddleIsTrimmed(s: Bytes, t: Bytes)
    ensures Middle(s, t) <==> t == TrimSpace(s)
  {
    hide TrimSpace, White, CleanEnds;
    TrimSpaceKeepsTheMiddle(s);
    if Middle(s, t) {
      var a, b :| White(a) && White(b) && s == a + t + b;
      TrimSpaceFinds(a, t, b);
    }
  }

  lemma {:induction false} EncodedConcat(ps: seq<CodePoint>, qs: seq<CodePoint>)
    ensures Encoded(ps + qs) == Encoded(ps) + Encoded(qs)
  {
    hide Utf8;
    if ps == [] {
      EmptyPrefix(qs);
      EmptyPrefix(Encoded(qs));
    } else {
      EncodedConcat(ps[1..], qs);
      assert ps + qs == [ps[0]] + (ps[1..] + qs);
      EncodedFirst(ps[0], ps[1..] + qs);
      Associative(Utf8(ps[0]), Encoded(ps[1..]), Encoded(qs));
    }
  }

  lemma WhiteConcat(a: Bytes, b: Bytes)
    requires White(a) && White(b)
    ensures White(a + b)
  {
    hide Encoded, WHITE_SPACE;
    var ps :| WhiteAs(a, ps);
    var qs :| WhiteAs(b, qs);
    EncodedConcat(ps, qs);
    assert WhiteAs(a + b, ps + qs);
  }

  /** Trimming leaves nothing exactly of white space. */
  lemma TrimmedAwayIff(s: Bytes)
    ensures TrimSpace(s) == [] <==> White(s)
  {
    hide TrimSpace, Encoded, WHITE_SPACE, CleanEnds;
    TrimSpaceKeepsTheMiddle(s);
    if TrimSpace(s) == [] {
      var a, b :| White(a) && White(b) && s == a + TrimSpace(s) + b;
      assert a + [] == a;
      WhiteConcat(a, b);
    }
    if White(s) {
      NothingIsClean();
      assert s + [] + [] == s;
      TrimSpaceFinds(s, [], []);
    }
  }

  lemma NothingIsClean()
    ensures CleanEnds([]) && White([])
  {
    CleanEndsIff([]);
    assert WhiteAs([], []);
  }
}
