/** What the file-list parser reads, said without its own functions: lines, white space and percent encoding. */
module UriSpelling {
  import opened ByteStrings
  import opened Sequences
  import opened Trimming
  import opened FileLists

  // ---------- Percent encoding ----------

  /** How one byte is spelled: as itself, as a plus sign, or as two hexadecimal digits in either case. */
  datatype Form = Plain | Plus | Hex(highUpper: bool, lowUpper: bool)

  function HexDigit(n: int, upper: bool): Byte
    requires 0 <= n < 16
  {
    if n < 10 then 48 + n else if upper then 55 + n else 87 + n
  }

  /** A percent or plus sign cannot stand for itself, and only a space is spelled as a plus sign. */
  predicate Fits(b: Byte, f: Form) {
    match f
    case Plain => b != 37 && b != 43
    case Plus => b == 32
    case Hex(_, _) => true
  }

  function SpelledByte(b: Byte, f: Form): Bytes {
    match f
    case Plain => [b]
    case Plus => [43]
    case Hex(high, low) => [37, HexDigit(b / 16, high), HexDigit(b % 16, low)]
  }

  predicate AllFit(s: Bytes, forms: seq<Form>) {
    |forms| == |s| && forall i :: 0 <= i < |s| ==> Fits(s[i], forms[i])
  }

  /** `s` with its bytes in the given forms. */
  function Spelled(s: Bytes, forms: seq<Form>): Bytes
    requires |forms| == |s|
  {
    if s == [] then [] else SpelledByte(s[0], forms[0]) + Spelled(s[1..], forms[1..])
  }

  lemma DigitsOfByte(b: Byte, high: bool, low: bool)
    ensures HexValue(HexDigit(b / 16, high)) == Some(b / 16) && HexValue(HexDigit(b % 16, low)) == Some(b % 16)
  {}

  lemma EscapeIsRead(h: Byte, l: Byte, rest: Bytes)
    requires HexValue(h).Some? && HexValue(l).Some?
    ensures Unescape([37, h, l] + rest) == Prepend(HexValue(h).value * 16 + HexValue(l).value, Unescape(rest))
  {
    hide HexValue, Prepend;
    var t := [37, h, l] + rest;
    assert t[0] == 37 && t[1] == h && t[2] == l && t[3..] == rest;
  }

  lemma CharacterIsRead(c: Byte, rest: Bytes)
    requires c != 37
    ensures Unescape([c] + rest) == Prepend(if c == 43 then 32 else c, Unescape(rest))
  {
    hide HexValue, Prepend;
    var t := [c] + rest;
    assert t[0] == c && t[1..] == rest;
  }

  /** The form of one byte is read as that byte. */
  lemma OneIsRead(b: Byte, f: Form, rest: Bytes)
    requires Fits(b, f)
    ensures Unescape(SpelledByte(b, f) + rest) == Prepend(b, Unescape(rest))
  {
    hide HexValue, HexDigit, Prepend, Unescape;
    if f.Hex? {
      DigitsOfByte(b, f.highUpper, f.lowUpper);
      EscapeIsRead(HexDigit(b / 16, f.highUpper), HexDigit(b % 16, f.lowUpper), rest);
    } else {
      CharacterIsRead(SpelledByte(b, f)[0], rest);
    }
  }

  lemma {:induction false} SpelledIsRead(s: Bytes, forms: seq<Form>)
    requires AllFit(s, forms)
    ensures Unescape(Spelled(s, forms)) == Some(s)
  {
    hide SpelledByte, Unescape, Fits;
    if s == [] { NothingIsRead(); } else {
      SpelledIsRead(s[1..], forms[1..]);
      OneIsRead(s[0], forms[0], Spelled(s[1..], forms[1..]));
      assert s == [s[0]] + s[1..];
    }
  }

  lemma NothingIsRead()
    ensures Unescape([]) == Some([])
  {}

  lemma HexDigitOf(b: Byte) returns (upper: bool)
    requires HexValue(b).Some?
    ensures 0 <= HexValue(b).value < 16 && HexDigit(HexValue(b).value, upper) == b
  {
    upper := b <= 70;
  }

  lemma {:induction false} ReadIsSpelled(t: Bytes) returns (forms: seq<Form>)
    requires Unescape(t).Some?
    ensures AllFit(Unescape(t).value, forms) && Spelled(Unescape(t).value, forms) == t
    decreases |t|
  {
    hide HexValue, HexDigit;
    if t == [] { forms := []; } else {
      var s := Unescape(t).value;
      if t[0] == 37 {
        var high := HexDigitOf(t[1]);
        var low := HexDigitOf(t[2]);
        var rest := ReadIsSpelled(t[3..]);
        forms := [Hex(high, low)] + rest;
        assert s[1..] == Unescape(t[3..]).value && forms[1..] == rest;
        assert t == [t[0], t[1], t[2]] + t[3..];
      } else {
        var rest := ReadIsSpelled(t[1..]);
        forms := [if t[0] == 43 then Plus else Plain] + rest;
        assert s[1..] == Unescape(t[1..]).value && forms[1..] == rest;
        assert t == [t[0]] + t[1..];
      }
    }
  }

  /** Decoding reads exactly the spellings, each byte in any of its forms; what spells nothing is an error. */
  lemma UnescapeIff(t: Bytes, s: Bytes)
    ensures Unescape(t) == Some(s) <==> exists forms :: AllFit(s, forms) && Spelled(s, forms) == t
  {
    hide Unescape, Spelled, Fits;
    if Unescape(t) == Some(s) { var forms := ReadIsSpelled(t); }
    if exists forms :: AllFit(s, forms) && Spelled(s, forms) == t {
      var forms :| AllFit(s, forms) && Spelled(s, forms) == t;
      SpelledIsRead(s, forms);
    }
  }

  // ---------- Lines ----------

  /** The lines with a newline between any two. */
  function Joined(lines: seq<Bytes>): Bytes
    requires lines != []
  {
    if |lines| == 1 then lines[0] else lines[0] + [NEWLINE] + Joined(lines[1..])
  }

  lemma {:induction false} SplitOfJoined(lines: seq<Bytes>)
    requires lines != [] && forall l :: l in lines ==> NEWLINE !in l
    ensures Split(Joined(lines)) == lines
  {
    hide Split;
    SplitOne(lines[0]);
    if |lines| == 1 {
      assert lines == [lines[0]];
    } else {
      SplitOfJoined(lines[1..]);
      SplitJoin(lines[0], Joined(lines[1..]));
      assert lines == [lines[0]] + lines[1..];
    }
  }

  lemma {:induction false} JoinedSplit(s: Bytes)
    ensures Joined(Split(s)) == s
  {
    if s != [] {
      var rest := Split(s[1..]);
      JoinedSplit(s[1..]);
      if s[0] == NEWLINE {
        assert ([[]] + rest)[1..] == rest;
        assert [] + [NEWLINE] + s[1..] == s;
      } else {
        var lines := [[s[0]] + rest[0]] + rest[1..];
        assert lines[1..] == rest[1..];
        LongerFirst(s[0], rest);
        assert [s[0]] + s[1..] == s;
      }
    }
  }

  lemma LongerFirst(b: Byte, rest: seq<Bytes>)
    requires rest != []
    ensures Joined([[b] + rest[0]] + rest[1..]) == [b] + Joined(rest)
  {
    var lines := [[b] + rest[0]] + rest[1..];
    assert lines[1..] == rest[1..] && |lines| == |rest|;
    if |rest| > 1 {
      var more := Joined(rest[1..]);
      assert [b] + rest[0] + [NEWLINE] + more == [b] + (rest[0] + [NEWLINE] + more);
    }
  }

  /** The lines of a text are the newline-free pieces that make it up. */
  lemma SplitIff(s: Bytes, lines: seq<Bytes>)
    requires lines != []
    ensures Split(s) == lines <==> Joined(lines) == s && forall l :: l in lines ==> NEWLINE !in l
  {
    hide Split, Joined;
    PiecesHaveNoNewline(s);
    JoinedSplit(s);
    if forall l :: l in lines ==> NEWLINE !in l { SplitOfJoined(lines); }
  }

  // ---------- One line ----------

  /** `line` names `path`: as a file URI with any spelling of it, or, without the scheme, as itself. */
  ghost predicate Names(line: Bytes, path: Bytes) {
    && |line| > 0 && line[0] != 35
    && (if StartsWith(line, [102, 105, 108, 101, 58, 47, 47])
        then exists forms :: AllFit(path, forms) && line[7..] == Spelled(path, forms)
        else line == path)
  }

  /**
   What a line of the standard format is read as: the path that it names between white space. Comments, blank lines
   and file URIs that spell nothing give none.
   */
  lemma UriLineIff(raw: Bytes, path: Bytes)
    ensures UriLine(raw) == Some(path) <==> exists line :: Middle(raw, line) && Names(line, path)
  {
    hide Middle, Names, TrimSpace, Unescape;
    var line := TrimSpace(raw);
    forall l ensures Middle(raw, l) <==> l == line { MiddleIsTrimmed(raw, l); }
    NamesIff(line, path);
  }

  lemma NamesIff(line: Bytes, path: Bytes)
    ensures Names(line, path) <==>
            && line != [] && line[0] != 35
            && (if StartsWith(line, FILE_SCHEME) then Unescape(line[|FILE_SCHEME|..]) == Some(path) else line == path)
  {
    hide Unescape, Spelled, AllFit;
    if StartsWith(line, FILE_SCHEME) { UnescapeIff(line[7..], path); }
  }

  /** A comment between the lines changes nothing. */
  lemma CommentsAreDropped(comment: Bytes, s: Bytes)
    requires NEWLINE !in comment && comment != [] && comment[0] == 35
    ensures UriFiles(comment + [NEWLINE] + s) == UriFiles(s)
  {
    hide Split, UriLine;
    SplitOne(comment);
    SplitJoin(comment, s);
    ChosenConcat(UriLine, [comment], Split(s));
    ChosenOne(UriLine, comment);
    CommentIsNoFile(comment);
    EmptyPrefix(UriFiles(s));
  }

  lemma CommentIsNoFile(comment: Bytes)
    requires comment != [] && comment[0] == 35
    ensures UriLine(comment) == None
  {
    hide Unescape, TrimLeft, TrimRight, LeadingSpace, TrailingSpace;
    NumberSignIsNoSpace(comment);
    TrimLeftStep(comment);
    var r := TrimRight(comment);
    if r != [] { assert r[0] == comment[0]; }
  }

  lemma NumberSignIsNoSpace(s: Bytes)
    requires s != [] && s[0] == 35
    ensures LeadingSpace(s) == 0
  {}

  /** A GNOME line is kept, as it stands, unless it is all white space. */
  lemma GnomeLineIff(line: Bytes, path: Bytes)
    ensures GnomeLine(line) == Some(path) <==> path == line && !White(line)
  {
    hide TrimSpace, White;
    TrimmedAwayIff(line);
  }

  // ---------- A line read out ----------

  /** What is printed for "/a" and "/b": "copy\n/a\n/b\n" and "file:///a\nfile:///b\n". */
  lemma PrintedLists()
    ensures GnomeText([[47, 97], [47, 98]]) == [99, 111, 112, 121, 10, 47, 97, 10, 47, 98, 10]
    ensures UriText([[47, 97], [47, 98]]) ==
            [102, 105, 108, 101, 58, 47, 47, 47, 97, 10, 102, 105, 108, 101, 58, 47, 47, 47, 98, 10]
  {
    var a: Bytes := [47, 97];
    var b: Bytes := [47, 98];
    TwoLines(a, b);
    assert a + [NEWLINE] == [47, 97, 10] && b + [NEWLINE] == [47, 98, 10];
    assert FILE_SCHEME + a + [NEWLINE] == [102, 105, 108, 101, 58, 47, 47, 47, 97, 10];
    assert FILE_SCHEME + b + [NEWLINE] == [102, 105, 108, 101, 58, 47, 47, 47, 98, 10];
  }

  lemma TwoLines(a: Bytes, b: Bytes)
    ensures GnomeText([a, b]) == COPY_LINE + ((a + [NEWLINE]) + (b + [NEWLINE]))
    ensures UriText([a, b]) == (FILE_SCHEME + a + [NEWLINE]) + (FILE_SCHEME + b + [NEWLINE])
  {
    assert [a, b][1..] == [b] && [b][1..] == [];
    assert GnomeLines([b]) == b + [NEWLINE] + [] == b + [NEWLINE];
    var u := FILE_SCHEME + b + [NEWLINE];
    assert UriText([b]) == u + [] == u;
  }

  /** "file:///a%20b" is the path "/a b". */
  lemma SpaceIsRead()
    ensures Parse([102, 105, 108, 101, 58, 47, 47, 47, 97, 37, 50, 48, 98]) == [[47, 97, 32, 98]]
  {
    hide Split, UriLine, Unescape, Middle;
    var line: Bytes := [102, 105, 108, 101, 58, 47, 47, 47, 97, 37, 50, 48, 98];
    var path: Bytes := [47, 97, 32, 98];
    SplitOne(line);
    ChosenOne(UriLine, line);
    SpacedPath();
    MiddleOfClean(line);
    UriLineIff(line, path);
    assert line[0] != COPY_LINE[0];
  }

  lemma SpacedPath()
    ensures Names([102, 105, 108, 101, 58, 47, 47, 47, 97, 37, 50, 48, 98], [47, 97, 32, 98])
  {
    var line: Bytes := [102, 105, 108, 101, 58, 47, 47, 47, 97, 37, 50, 48, 98];
    var path: Bytes := [47, 97, 32, 98];
    var forms := [Plain, Plain, Hex(true, true), Plain];
    assert line[7..] == [47, 97, 37, 50, 48, 98];
    assert path[1..] == [97, 32, 98] && path[1..][1..] == [32, 98] && path[1..][1..][1..] == [98];
    assert forms[1..] == [Plain, Hex(true, true), Plain] && forms[1..][1..] == [Hex(true, true), Plain];
    assert forms[1..][1..][1..] == [Plain];
    assert Spelled([98], [Plain]) == [98];
    assert Spelled([32, 98], [Hex(true, true), Plain]) == [37, 50, 48, 98];
    assert Spelled([97, 32, 98], forms[1..]) == [97, 37, 50, 48, 98];
    assert Spelled(path, forms) == line[7..];
    assert AllFit(path, forms);
  }

  lemma MiddleOfClean(s: Bytes)
    requires s != [] && s[0] == 102 && s[|s| - 1] == 98
    ensures Middle(s, s)
  {
    hide TrimSpace, Middle;
    TrimSpaceFixed(s);
    MiddleIsTrimmed(s, s);
  }
}
