/** File lists on the clipboard: the GNOME and URI-list printers, and `parseURIData`. */
module FileLists {
  import opened ByteStrings
  import opened Sequences

  const NEWLINE: Byte := 10
  const COPY_LINE: Bytes := [99, 111, 112, 121, 10]                 // "copy\n"
  const COPY: Bytes := [99, 111, 112, 121]                          // "copy"
  const FILE_SCHEME: Bytes := [102, 105, 108, 101, 58, 47, 47]      // "file://"

  // ---------- Printers ----------

  /** `writeFileListContent`, GNOME format. */
  function GnomeText(paths: seq<Bytes>): Bytes { COPY_LINE + GnomeLines(paths) }

  function GnomeLines(paths: seq<Bytes>): Bytes {
    if paths == [] then [] else paths[0] + [NEWLINE] + GnomeLines(paths[1..])
  }

  /** `writeFileListContent`, URI list. */
  function UriText(paths: seq<Bytes>): Bytes {
    if paths == [] then [] else FILE_SCHEME + paths[0] + [NEWLINE] + UriText(paths[1..])
  }

  /** `writeFilePathContent`: one path, no newline at the end. */
  function GnomePath(path: Bytes): Bytes { COPY_LINE + path }

  function UriPath(path: Bytes): Bytes { FILE_SCHEME + path }

  /** The string builders of `writeFileListContent`. */
  method BuildTexts(paths: seq<Bytes>) returns (gnome: Bytes, uri: Bytes)
    ensures gnome == GnomeText(paths) && uri == UriText(paths)
  {
    gnome, uri := COPY_LINE, [];
    EmptyPrefix(UriText(paths));
    for i := 0 to |paths|
      invariant gnome + GnomeLines(paths[i..]) == GnomeText(paths)
      invariant uri + UriText(paths[i..]) == UriText(paths)
    {
      assert paths[i..][0] == paths[i] && paths[i..][1..] == paths[i + 1..];
      Associative(gnome, paths[i] + [NEWLINE], GnomeLines(paths[i + 1..]));
      Associative(uri, FILE_SCHEME + paths[i] + [NEWLINE], UriText(paths[i + 1..]));
      gnome := gnome + (paths[i] + [NEWLINE]);
      uri := uri + (FILE_SCHEME + paths[i] + [NEWLINE]);
    }
    assert paths[|paths|..] == [] && gnome + [] == gnome && uri + [] == uri;
  }

  // ---------- Parser ----------

  /** `strings.Split(s, "\n")`. */
  function Split(s: Bytes): (r: seq<Bytes>)
    ensures r != []
  {
    if s == [] then [[]]
    else
      var rest := Split(s[1..]);
      if s[0] == NEWLINE then [[]] + rest else [[s[0]] + rest[0]] + rest[1..]
  }

  predicate Blank(line: Bytes) { TrimSpace(line) == [] }

  function GnomeLine(line: Bytes): Option<Bytes> { if Blank(line) then None else Some(line) }

  function HexValue(b: Byte): Option<int> {
    if 48 <= b <= 57 then Some(b - 48)
    else if 97 <= b <= 102 then Some(b - 87)
    else if 65 <= b <= 70 then Some(b - 55)
    else None
  }

  /** `url.QueryUnescape`; None is its error. */
  function Unescape(s: Bytes): (r: Option<Bytes>)
    ensures r.Some? ==> |r.value| <= |s|
  {
    if s == [] then Some([])
    else if s[0] == 37 then
      if |s| < 3 || HexValue(s[1]).None? || HexValue(s[2]).None? then None
      else Prepend(HexValue(s[1]).value * 16 + HexValue(s[2]).value, Unescape(s[3..]))
    else Prepend(if s[0] == 43 then 32 else s[0], Unescape(s[1..]))
  }

  function Prepend(b: Byte, rest: Option<Bytes>): Option<Bytes> {
    match rest case None => None case Some(r) => Some([b] + r)
  }

  /** One line of the standard format: trimmed, comments and blanks dropped, file URIs decoded. */
  function UriLine(raw: Bytes): Option<Bytes> {
    var line := TrimSpace(raw);
    if line == [] || line[0] == 35 then None
    else if StartsWith(line, FILE_SCHEME) then Unescape(line[|FILE_SCHEME|..])
    else Some(line)
  }

  function GnomeFiles(s: Bytes): seq<Bytes> { Chosen(GnomeLine, Split(s)) }

  function UriFiles(s: Bytes): seq<Bytes> { Chosen(UriLine, Split(s)) }

  /** The file list found; empty is the error. GNOME data without a file falls through to the standard format. */
  function Parse(data: Bytes): seq<Bytes> {
    if StartsWith(data, COPY_LINE) && GnomeFiles(data[|COPY_LINE|..]) != [] then GnomeFiles(data[|COPY_LINE|..])
    else UriFiles(data)
  }

  method ParseUriData(data: Bytes) returns (files: seq<Bytes>)
    ensures files == Parse(data)
  {
    if StartsWith(data, COPY_LINE) {
      var lines := Split(data[|COPY_LINE|..]);
      files := [];
      for i := 0 to |lines|
        invariant files == Chosen(GnomeLine, lines[..i])
      {
        ChosenSnoc(GnomeLine, lines, i);
        if TrimSpace(lines[i]) != [] { files := files + [lines[i]]; }
      }
      assert lines[..|lines|] == lines;
      assert files == GnomeFiles(data[|COPY_LINE|..]);
      if |files| >= 1 { return; }
    }
    var lines := Split(data);
    files := [];
    for i := 0 to |lines|
      invariant files == Chosen(UriLine, lines[..i])
    {
      ChosenSnoc(UriLine, lines, i);
      var line := TrimSpace(lines[i]);
      if line != [] && line[0] != 35 {
        if StartsWith(line, FILE_SCHEME) {
          var path := Unescape(line[|FILE_SCHEME|..]);
          if path.Some? { files := files + [path.value]; }
        } else {
          files := files + [line];
        }
      }
    }
    assert lines[..|lines|] == lines;
  }

  // ---------- Splitting ----------

  lemma {:induction false} SplitOne(s: Bytes)
    requires NEWLINE !in s
    ensures Split(s) == [s]
  {
    if s != [] {
      SplitOne(s[1..]);
      assert [s[0]] + s[1..] == s;
      assert Split(s) == [[s[0]] + s[1..]] + [s[1..]][1..];
    }
  }

  lemma {:induction false} SplitJoin(a: Bytes, b: Bytes)
    ensures Split(a + [NEWLINE] + b) == Split(a) + Split(b)
  {
    var s := a + [NEWLINE] + b;
    if a == [] {
      assert s[0] == NEWLINE && s[1..] == b;
    } else {
      SplitJoin(a[1..], b);
      assert s[0] == a[0] && s[1..] == a[1..] + [NEWLINE] + b;
      PushFirst(a[0], Split(a[1..]), Split(b));
    }
  }

  lemma PushFirst(x: Byte, lines: seq<Bytes>, more: seq<Bytes>)
    requires lines != []
    ensures [[]] + (lines + more) == [[]] + lines + more
    ensures [[x] + (lines + more)[0]] + (lines + more)[1..] == [[x] + lines[0]] + lines[1..] + more
  {}

  lemma {:induction false} PiecesHaveNoNewline(s: Bytes)
    ensures forall p :: p in Split(s) ==> NEWLINE !in p
  {
    if s != [] { PiecesHaveNoNewline(s[1..]); }
  }

  // ---------- GNOME round trip ----------

  lemma {:induction false} GnomeFilesOf(paths: seq<Bytes>)
    requires forall p :: p in paths ==> NEWLINE !in p && !Blank(p)
    ensures GnomeFiles(GnomeLines(paths)) == paths
  {
    if paths == [] {
      ChosenOne(GnomeLine, []);
      assert Split([]) == [[]];
    } else {
      GnomeFilesOf(paths[1..]);
      SplitJoin(paths[0], GnomeLines(paths[1..]));
      SplitOne(paths[0]);
      ChosenConcat(GnomeLine, [paths[0]], Split(GnomeLines(paths[1..])));
      ChosenOne(GnomeLine, paths[0]);
      assert paths == [paths[0]] + paths[1..];
    }
  }

  predicate GnomeSafe(path: Bytes) { NEWLINE !in path && !Blank(path) }

  lemma {:induction false} GnomeOutputIsSafe(lines: seq<Bytes>)
    requires forall p :: p in lines ==> NEWLINE !in p
    ensures forall p :: p in Chosen(GnomeLine, lines) ==> GnomeSafe(p)
  {
    if lines != [] { GnomeOutputIsSafe(lines[1..]); }
  }

  lemma AfterCopy(s: Bytes)
    ensures StartsWith(COPY_LINE + s, COPY_LINE) && (COPY_LINE + s)[|COPY_LINE|..] == s
  {}

  /** With no GNOME file after it, the "copy" line itself is read as a path. */
  lemma CopyIsAFile(s: Bytes)
    requires GnomeFiles(s) == []
    ensures UriFiles(COPY_LINE + s) == [COPY] + UriFiles(s)
  {
    assert COPY_LINE + s == COPY + [NEWLINE] + s;
    SplitJoin(COPY, s);
    SplitOne(COPY);
    ChosenConcat(UriLine, [COPY], Split(s));
    ChosenOne(UriLine, COPY);
    CopyLine();
  }

  lemma CopyLine()
    ensures UriLine(COPY) == Some(COPY) && GnomeSafe(COPY)
  {
    hide TrimSpace;
    CopyIsTrimmed();
    assert NEWLINE !in COPY;
  }

  lemma CopyIsTrimmed()
    ensures TrimSpace(COPY) == COPY
  {
    hide TrimSpace, TrimLeft, TrimRight;
    assert COPY[0] == 99 && COPY[3] == 121;
    TrimSpaceFixed(COPY);
  }

  lemma {:induction false} BlankLinesGiveNothing(lines: seq<Bytes>)
    requires Chosen(GnomeLine, lines) == []
    ensures Chosen(UriLine, lines) == []
  {
    if lines != [] { BlankLinesGiveNothing(lines[1..]); }
  }

  /**
   GNOME round trip: the printed list is parsed back in order exactly when no path has a newline and
   none is blank.
   */
  lemma GnomeRoundTripIff(paths: seq<Bytes>)
    requires paths != []
    ensures Parse(GnomeText(paths)) == paths <==> forall p :: p in paths ==> GnomeSafe(p)
  {
    hide GnomeLines, Split, TrimSpace, Chosen, UriLine;
    var body := GnomeLines(paths);
    AfterCopy(body);
    CopyLine();
    if forall p :: p in paths ==> GnomeSafe(p) {
      GnomeFilesOf(paths);
    } else if GnomeFiles(body) != [] {
      PiecesHaveNoNewline(body);
      GnomeOutputIsSafe(Split(body));
    } else {
      CopyIsAFile(body);
      BlankLinesGiveNothing(Split(body));
      assert [COPY] + [] == [COPY];
    }
  }

  /** A list of one blank path comes back as the file "copy". */
  lemma BlankPathBecomesCopy()
    ensures Parse(GnomeText([[32]])) == [COPY]
  {
    hide GnomeLines, GnomeFiles, Split, Chosen, UriLine, TrimSpace;
    var body := GnomeLines([[32]]);
    BlankBody();
    AfterCopy(body);
    CopyIsAFile(body);
    NoFilesNoUris(body);
    assert [COPY] + [] == [COPY];
  }

  lemma NoFilesNoUris(s: Bytes)
    requires GnomeFiles(s) == []
    ensures UriFiles(s) == []
  {
    BlankLinesGiveNothing(Split(s));
  }

  lemma BlankBody()
    ensures GnomeFiles(GnomeLines([[32]])) == []
  {
    hide Split, TrimSpace, Chosen;
    BlankSpace();
    SplitJoin([32], []);
    SplitOne([32]);
    SplitOne([]);
    assert [[32]][1..] == [] && [32] + [NEWLINE] + [] == GnomeLines([[32]]);
    NothingChosen(GnomeLine, [[32]] + [[]]);
  }

  lemma BlankSpace()
    ensures TrimSpace([32]) == [] && TrimSpace([]) == []
  {
    assert LeadingSpace([32]) == 1 && [32][1..] == [];
    assert TrimLeft([]) == [] && TrimRight([]) == [];
  }

  /** The same for the single-path writer, which prints no newline. */
  lemma GnomePathRoundTripIff(path: Bytes)
    ensures Parse(GnomePath(path)) == [path] <==> GnomeSafe(path)
  {
    hide Split, TrimSpace, Chosen, UriLine;
    AfterCopy(path);
    CopyLine();
    if GnomeSafe(path) {
      SplitOne(path);
      ChosenOne(GnomeLine, path);
    } else if GnomeFiles(path) != [] {
      PiecesHaveNoNewline(path);
      GnomeOutputIsSafe(Split(path));
      assert path in [path];
    } else {
      CopyIsAFile(path);
      BlankLinesGiveNothing(Split(path));
      assert [COPY] + [] == [COPY];
    }
  }

  // ---------- URI-list round trip ----------

  /** Paths that come back from a URI list. */
  predicate UriSafe(path: Bytes) {
    NEWLINE !in path && 37 !in path && 43 !in path && TrailingSpace(path) == 0
  }

  lemma {:induction false} UnescapeFixedIff(s: Bytes)
    ensures Unescape(s) == Some(s) <==> 37 !in s && 43 !in s
    ensures 37 in s && Unescape(s).Some? ==> |Unescape(s).value| < |s|
  {
    if s != [] {
      assert s == [s[0]] + s[1..];
      if s[0] == 37 {
      } else {
        UnescapeFixedIff(s[1..]);
        var r := Unescape(s[1..]);
        if r.Some? { assert ([s[0]] + r.value)[1..] == r.value; }
      }
    }
  }

  /** Trimming a file URI can only shorten its path. */
  lemma TrimmedUri(path: Bytes)
    ensures exists q :: TrimSpace(UriPath(path)) == UriPath(q) && StartsWith(path, q)
                        && (q == path <==> TrailingSpace(path) == 0)
  {
    var s := UriPath(path);
    assert LeadingSpace(s) == 0;
    var q := TrimUriRight(path);
  }

  lemma {:induction false} TrimUriRight(path: Bytes) returns (q: Bytes)
    ensures TrimRight(UriPath(path)) == UriPath(q) && StartsWith(path, q)
    ensures q == path <==> TrailingSpace(path) == 0
  {
    var s := UriPath(path);
    SchemeEndsNoSpace(path);
    var w := TrailingSpace(path);
    if w == 0 {
      q := path;
    } else {
      var shorter := path[..|path| - w];
      assert s[..|s| - w] == UriPath(shorter);
      q := TrimUriRight(shorter);
      assert q == path[..|q|];
    }
  }

  lemma SchemeEndsNoSpace(path: Bytes)
    ensures TrailingSpace(UriPath(path)) == TrailingSpace(path)
  {
    var s := UriPath(path);
    var n, m := |s|, |path|;
    assert m >= 1 ==> s[n - 1] == path[m - 1];
    assert m >= 2 ==> s[n - 2] == path[m - 2];
    assert m >= 3 ==> s[n - 3] == path[m - 3];
    assert s[5] == 47 && s[6] == 47;
  }

  lemma UriLineOf(path: Bytes)
    ensures UriLine(UriPath(path)) == Some(path) <==> 37 !in path && 43 !in path && TrailingSpace(path) == 0
    ensures var r := UriLine(UriPath(path)); r.Some? ==> |r.value| <= |path|
    ensures var r := UriLine(UriPath(path));
            r.Some? && |r.value| == |path| ==> 37 !in path && TrailingSpace(path) == 0
  {
    TrimmedUri(path);
    var q :| TrimSpace(UriPath(path)) == UriPath(q) && StartsWith(path, q) && (q == path <==> TrailingSpace(path) == 0);
    SplitScheme(q);
    UnescapeFixedIff(q);
    if |q| == |path| { assert q == path; }
  }

  lemma SplitScheme(q: Bytes)
    ensures StartsWith(UriPath(q), FILE_SCHEME) && UriPath(q)[|FILE_SCHEME|..] == q
    ensures UriPath(q) != [] && UriPath(q)[0] == 102
  {}

  function TotalLength(s: seq<Bytes>): nat { if s == [] then 0 else |s[0]| + TotalLength(s[1..]) }

  lemma {:induction false} TotalLengthConcat(a: seq<Bytes>, b: seq<Bytes>)
    ensures TotalLength(a + b) == TotalLength(a) + TotalLength(b)
  {
    if a == [] {
      EmptyPrefix(b);
    } else {
      TotalLengthConcat(a[1..], b);
      assert (a + b)[0] == a[0] && (a + b)[1..] == a[1..] + b;
    }
  }

  lemma {:induction false} SplitLength(s: Bytes)
    ensures TotalLength(Split(s)) <= |s|
  {
    if s != [] {
      SplitLength(s[1..]);
      var rest := Split(s[1..]);
      if s[0] == NEWLINE {
        assert ([[]] + rest)[1..] == rest;
      } else {
        assert ([[s[0]] + rest[0]] + rest[1..])[1..] == rest[1..];
      }
    }
  }

  /** No line grows on the way to a file. */
  lemma UriLineShrinks(raw: Bytes)
    ensures UriLine(raw).Some? ==> |UriLine(raw).value| <= |raw|
  {
    hide TrimSpace, Unescape;
    TrimSpaceShrinks(raw);
  }

  lemma {:induction false} UriFilesShrink(lines: seq<Bytes>)
    ensures TotalLength(Chosen(UriLine, lines)) <= TotalLength(lines)
  {
    hide UriLine;
    if lines != [] {
      UriFilesShrink(lines[1..]);
      UriLineShrinks(lines[0]);
      var head := OneChosen(UriLine(lines[0]));
      TotalLengthConcat(head, Chosen(UriLine, lines[1..]));
      assert head != [] ==> head[1..] == [];
    }
  }

  /** The files one printed path is parsed to. */
  function UriBlock(path: Bytes): seq<Bytes> { Chosen(UriLine, Split(UriPath(path))) }

  function UriBlocks(paths: seq<Bytes>): seq<Bytes> {
    if paths == [] then [] else UriBlock(paths[0]) + UriBlocks(paths[1..])
  }

  lemma {:induction false} UriFilesAreBlocks(paths: seq<Bytes>)
    ensures UriFiles(UriText(paths)) == UriBlocks(paths)
  {
    hide UriLine;
    if paths == [] {
      assert Split([]) == [[]];
      ChosenOne(UriLine, []);
      NoFileInNothing();
    } else {
      UriFilesAreBlocks(paths[1..]);
      SplitJoin(UriPath(paths[0]), UriText(paths[1..]));
      ChosenConcat(UriLine, Split(UriPath(paths[0])), Split(UriText(paths[1..])));
    }
  }

  lemma NoFileInNothing()
    ensures UriLine([]) == None
  {}

  lemma {:induction false} FirstNewline(s: Bytes) returns (i: nat)
    requires NEWLINE in s
    ensures i < |s| && s[i] == NEWLINE && NEWLINE !in s[..i]
  {
    if s[0] == NEWLINE { i := 0; } else {
      var j := FirstNewline(s[1..]);
      i := j + 1;
      assert s[..i] == [s[0]] + s[1..][..j];
    }
  }

  lemma UriBlockOfLine(path: Bytes)
    requires NEWLINE !in path
    ensures UriBlock(path) == OneChosen(UriLine(UriPath(path)))
  {
    hide UriLine;
    assert NEWLINE !in FILE_SCHEME;
    SplitOne(UriPath(path));
    ChosenOne(UriLine, UriPath(path));
  }

  /** A path with a newline loses at least that byte. */
  lemma NewlineShrinks(path: Bytes)
    requires NEWLINE in path
    ensures TotalLength(UriBlock(path)) < |path|
  {
    hide UriLine;
    var i := FirstNewline(path);
    var a, b := path[..i], path[i + 1..];
    assert UriPath(path) == UriPath(a) + [NEWLINE] + b;
    SplitJoin(UriPath(a), b);
    UriBlockOfLine(a);
    UriLineOf(a);
    ChosenConcat(UriLine, Split(UriPath(a)), Split(b));
    TotalLengthConcat(UriBlock(a), Chosen(UriLine, Split(b)));
    UriFilesShrink(Split(b));
    SplitLength(b);
    var head := UriBlock(a);
    assert head != [] ==> head[1..] == [];
  }

  /** A block is never longer than its path, and as long only for a newline-free path that is one line. */
  lemma UriBlockShrinks(path: Bytes)
    ensures TotalLength(UriBlock(path)) <= |path|
    ensures TotalLength(UriBlock(path)) == |path| ==>
              NEWLINE !in path && UriLine(UriPath(path)).Some? && UriBlock(path) == [UriLine(UriPath(path)).value]
  {
    hide UriLine, UriBlock;
    if NEWLINE in path {
      NewlineShrinks(path);
    } else {
      UriBlockOfLine(path);
      UriLineOf(path);
      var head := UriBlock(path);
      assert head != [] ==> head[1..] == [];
    }
  }

  lemma {:induction false} UriBlocksShrink(paths: seq<Bytes>)
    ensures TotalLength(UriBlocks(paths)) <= TotalLength(paths)
    ensures TotalLength(UriBlocks(paths)) == TotalLength(paths) ==>
              forall p :: p in paths ==> TotalLength(UriBlock(p)) == |p|
  {
    hide UriBlock;
    if paths != [] {
      UriBlocksShrink(paths[1..]);
      UriBlockShrinks(paths[0]);
      TotalLengthConcat(UriBlock(paths[0]), UriBlocks(paths[1..]));
    }
  }

  /** When nothing is lost there is one file per path, in order. */
  lemma {:induction false} TightBlocks(paths: seq<Bytes>)
    requires forall p :: p in paths ==> TotalLength(UriBlock(p)) == |p|
    ensures |UriBlocks(paths)| == |paths|
    ensures forall i :: 0 <= i < |paths| ==>
              NEWLINE !in paths[i] && UriLine(UriPath(paths[i])) == Some(UriBlocks(paths)[i])
  {
    hide UriBlock, UriLine, UriPath, TotalLength;
    if paths != [] {
      assert paths[0] in paths;
      UriBlockShrinks(paths[0]);
      TightBlocks(paths[1..]);
      assert forall i :: 0 <= i < |paths| - 1 ==> paths[i + 1] == paths[1..][i];
    }
  }

  lemma {:induction false} SafeBlocks(paths: seq<Bytes>)
    requires forall p :: p in paths ==> UriSafe(p)
    ensures UriBlocks(paths) == paths
  {
    hide UriBlock, UriLine;
    if paths != [] {
      assert paths[0] in paths;
      SafeBlocks(paths[1..]);
      UriBlockOfLine(paths[0]);
      UriLineOf(paths[0]);
      assert paths == [paths[0]] + paths[1..];
    }
  }

  lemma NotGnome(s: Bytes)
    ensures !StartsWith(FILE_SCHEME + s, COPY_LINE)
  {
    assert (FILE_SCHEME + s)[0] == 102 && COPY_LINE[0] == 99;
  }

  lemma UriTextIsNotGnome(paths: seq<Bytes>)
    requires paths != []
    ensures Parse(UriText(paths)) == UriFiles(UriText(paths))
  {
    hide UriFiles;
    NotGnome(paths[0] + [NEWLINE] + UriText(paths[1..]));
    assert UriText(paths) == FILE_SCHEME + (paths[0] + [NEWLINE] + UriText(paths[1..]));
  }

  /**
   URI-list round trip: the printed list is parsed back in order exactly when every path is free of
   newlines, '%' and '+', and does not end in white space.
   */
  lemma UriRoundTripIff(paths: seq<Bytes>)
    requires paths != []
    ensures Parse(UriText(paths)) == paths <==> forall p :: p in paths ==> UriSafe(p)
  {
    hide UriBlocks, UriBlock, UriLine, UriFiles, UriText, Parse;
    UriTextIsNotGnome(paths);
    UriFilesAreBlocks(paths);
    if forall p :: p in paths ==> UriSafe(p) {
      SafeBlocks(paths);
    } else if UriBlocks(paths) == paths {
      UriBlocksShrink(paths);
      TightBlocks(paths);
      forall p | p in paths ensures UriSafe(p) {
        var i :| 0 <= i < |paths| && paths[i] == p;
        UriLineOf(p);
      }
    }
  }

  /** A list of the path "%" is lost. */
  lemma PercentIsLost()
    ensures Parse(UriText([[37]])) != [[37]]
  {
    UriRoundTripIff([[37]]);
    assert [37] in [[37]] && 37 in [37];
  }

  /** The same for the single-path writer, which prints no newline. */
  lemma UriPathRoundTripIff(path: Bytes)
    ensures Parse(UriPath(path)) == [path] <==> UriSafe(path)
  {
    hide UriLine;
    NotGnome(path);
    UriBlockShrinks(path);
    UriLineOf(path);
    assert [path][1..] == [];
    if NEWLINE !in path { UriBlockOfLine(path); }
  }
}
