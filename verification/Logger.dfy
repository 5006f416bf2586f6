/** Log rotation: the size counter, and which rotated files survive. */
module Logger {
  import opened Sequences

  datatype FileInfo = FileInfo(path: string, modTime: int)

  /** A file the pattern matched; None is a failed stat. */
  datatype Match = Match(path: string, modTime: Option<int>)

  function Info(m: Match): Option<FileInfo> {
    match m.modTime case None => None case Some(t) => Some(FileInfo(m.path, t))
  }

  // ---------- Retention ----------

  predicate OldestFirst(s: seq<FileInfo>) { forall i, j :: 0 <= i < j < |s| ==> s[i].modTime <= s[j].modTime }

  /** The body of the inner loop: exchange positions `i` and `j` when they are out of order. */
  function Exchanged(s: seq<FileInfo>, i: nat, j: nat): (t: seq<FileInfo>)
    requires i < j < |s|
    ensures |t| == |s|
  {
    if s[i].modTime > s[j].modTime then s[i := s[j]][j := s[i]] else s
  }

  /** The inner loop from `j` on. */
  function Inner(s: seq<FileInfo>, i: nat, j: nat): (t: seq<FileInfo>)
    requires i < j <= |s|
    ensures |t| == |s|
    decreases |s| - j
  {
    if j == |s| then s else Inner(Exchanged(s, i, j), i, j + 1)
  }

  /** The outer loop from `i` on. */
  function Outer(s: seq<FileInfo>, i: nat): (t: seq<FileInfo>)
    requires i <= |s|
    ensures |t| == |s|
    decreases |s| - i
  {
    if i == |s| then s else Outer(Inner(s, i, i + 1), i + 1)
  }

  /** The nested loops of `cleanOldLogs`, in place. */
  method ExchangeSort(files: array<FileInfo>)
    modifies files
    ensures files[..] == Outer(old(files[..]), 0)
  {
    for i := 0 to files.Length
      invariant Outer(files[..], i) == Outer(old(files[..]), 0)
    {
      ghost var before := files[..];
      for j := i + 1 to files.Length
        invariant Inner(files[..], i, j) == Inner(before, i, i + 1)
      {
        ghost var now := files[..];
        if files[i].modTime > files[j].modTime {
          files[i], files[j] := files[j], files[i];
        }
        assert files[..] == Exchanged(now, i, j);
      }
    }
  }

  lemma ExchangedFacts(s: seq<FileInfo>, i: nat, j: nat)
    requires i < j < |s|
    ensures var t := Exchanged(s, i, j);
            && multiset(t) == multiset(s)
            && (forall k :: 0 <= k < |s| && k != i && k != j ==> t[k] == s[k])
            && (t[i] == s[i] || t[i] == s[j]) && (t[j] == s[i] || t[j] == s[j])
            && t[i].modTime <= s[i].modTime && t[i].modTime <= t[j].modTime
  {}

  /** Nothing from `i` on is older than `bound`. */
  predicate NoOlder(s: seq<FileInfo>, i: nat, bound: int) { forall k :: i <= k < |s| ==> bound <= s[k].modTime }

  lemma {:induction false} InnerFacts(s: seq<FileInfo>, i: nat, j: nat)
    requires i < j <= |s|
    requires forall k :: i <= k < j ==> s[i].modTime <= s[k].modTime
    ensures var t := Inner(s, i, j);
            && multiset(t) == multiset(s)
            && (forall k :: 0 <= k < i ==> t[k] == s[k])
            && NoOlder(t, i, t[i].modTime)
            && (forall bound :: NoOlder(s, i, bound) ==> NoOlder(t, i, bound))
    decreases |s| - j
  {
    hide Exchanged;
    if j < |s| {
      ExchangedFacts(s, i, j);
      var t := Exchanged(s, i, j);
      forall bound | NoOlder(s, i, bound) ensures NoOlder(t, i, bound) { BoundStays(s, t, i, j, bound); }
      InnerFacts(t, i, j + 1);
    }
  }

  lemma BoundStays(s: seq<FileInfo>, t: seq<FileInfo>, i: nat, j: nat, bound: int)
    requires i < j < |s| == |t| && NoOlder(s, i, bound)
    requires forall k :: 0 <= k < |s| && k != i && k != j ==> t[k] == s[k]
    requires (t[i] == s[i] || t[i] == s[j]) && (t[j] == s[i] || t[j] == s[j])
    ensures NoOlder(t, i, bound)
  {}

  /** The first `i` are in place. */
  predicate PlacedUpTo(s: seq<FileInfo>, i: nat) {
    forall k, m :: 0 <= k < i && k < m < |s| ==> s[k].modTime <= s[m].modTime
  }

  lemma PlacesOneMore(s: seq<FileInfo>, t: seq<FileInfo>, i: nat)
    requires i < |s| == |t| && PlacedUpTo(s, i)
    requires (forall k :: 0 <= k < i ==> t[k] == s[k]) && NoOlder(t, i, t[i].modTime)
    requires forall bound :: NoOlder(s, i, bound) ==> NoOlder(t, i, bound)
    ensures PlacedUpTo(t, i + 1)
  {
    forall k, m | 0 <= k < i + 1 && k < m < |t| ensures t[k].modTime <= t[m].modTime {
      if k < i { assert NoOlder(s, i, s[k].modTime); }
    }
  }

  lemma {:induction false} OuterSorts(s: seq<FileInfo>, i: nat)
    requires i <= |s| && PlacedUpTo(s, i)
    ensures OldestFirst(Outer(s, i)) && multiset(Outer(s, i)) == multiset(s)
    decreases |s| - i
  {
    hide Inner;
    if i < |s| {
      InnerFacts(s, i, i + 1);
      PlacesOneMore(s, Inner(s, i, i + 1), i);
      OuterSorts(Inner(s, i, i + 1), i + 1);
    }
  }

  /** The exchange sort sorts and permutes. */
  lemma SortIsSortedPermutation(s: seq<FileInfo>)
    ensures OldestFirst(Outer(s, 0)) && multiset(Outer(s, 0)) == multiset(s)
  {
    OuterSorts(s, 0);
  }

  /** The files that could be looked at. */
  method CollectInfos(matches: seq<Match>) returns (infos: seq<FileInfo>)
    ensures infos == Chosen(Info, matches)
  {
    infos := [];
    for i := 0 to |matches|
      invariant infos == Chosen(Info, matches[..i])
    {
      ChosenSnoc(Info, matches, i);
      var info := Info(matches[i]);
      if info.Some? { infos := infos + [info.value]; }
    }
    assert matches[..|matches|] == matches;
  }

  /** Remove the first `excess` files. */
  method RemoveFirst(files: array<FileInfo>, excess: nat) returns (removed: seq<FileInfo>)
    requires excess <= files.Length
    ensures removed == files[..excess]
  {
    removed := [];
    for i := 0 to excess
      invariant removed == files[..i]
    {
      removed := removed + [files[i]];
    }
  }

  /** `cleanOldLogs`, given what the pattern matched: which files it removes and which it leaves. */
  method CleanOldLogs(matches: seq<Match>, maxFiles: nat) returns (removed: seq<FileInfo>, kept: seq<FileInfo>)
    ensures multiset(removed + kept) == multiset(Chosen(Info, matches))
    ensures maxFiles == 0 || |matches| <= maxFiles ==> removed == []
    ensures maxFiles > 0 && |matches| > maxFiles ==>
              |kept| == (if |Chosen(Info, matches)| < maxFiles then |Chosen(Info, matches)| else maxFiles)
    ensures forall r, k :: r in removed && k in kept ==> r.modTime <= k.modTime
  {
    hide Chosen, Outer, OldestFirst;
    var infos := CollectInfos(matches);
    if maxFiles == 0 || |matches| <= maxFiles {
      EmptyPrefix(infos);
      return [], infos;
    }
    var files := new FileInfo[|infos|](i requires 0 <= i < |infos| => infos[i]);
    assert files[..] == infos;
    ExchangeSort(files);
    SortIsSortedPermutation(infos);
    var excess := if files.Length > maxFiles then files.Length - maxFiles else 0;
    removed := RemoveFirst(files, excess);
    kept := files[excess..];
    CutSorted(files[..], excess);
    assert removed == files[..][..excess] && kept == files[..][excess..];
  }

  lemma CutSorted(s: seq<FileInfo>, n: nat)
    requires OldestFirst(s) && n <= |s|
    ensures multiset(s[..n] + s[n..]) == multiset(s)
    ensures forall r, k :: r in s[..n] && k in s[n..] ==> r.modTime <= k.modTime
  {
    assert s == s[..n] + s[n..];
  }

  // ---------- The size counter ----------

  const DEFAULT_MAX_SIZE := 10 * 1024 * 1024

  /** What renaming and reopening would do. */
  datatype Rotation = Rotates | RotationFails

  datatype LogFile = LogFile(open: bool, fileSize: int, maxSize: int, fileLevel: int)

  function Rotated(l: LogFile, outcome: Rotation): LogFile {
    if !l.open || l.fileSize < l.maxSize || outcome == RotationFails then l else l.(fileSize := 0)
  }

  /** One message of `length` bytes at `level`. */
  function Written(l: LogFile, level: int, length: nat, outcome: Rotation): LogFile {
    if l.open && level >= l.fileLevel then Rotated(l.(fileSize := l.fileSize + length + 1), outcome) else l
  }

  class Logger {
    var open: bool
    var fileSize: int
    const maxSize: int
    const fileLevel: int

    function State(): LogFile
      reads this
    {
      LogFile(open, fileSize, maxSize, fileLevel)
    }

    constructor (openFile: Option<nat>, configMaxSize: int, fileLevel: int)
      ensures maxSize > 0 && open == openFile.Some? && this.fileLevel == fileLevel
      ensures fileSize == if openFile.Some? then openFile.value else 0
    {
      maxSize := if configMaxSize <= 0 then DEFAULT_MAX_SIZE else configMaxSize;
      this.fileLevel := fileLevel;
      open := openFile.Some?;
      fileSize := if openFile.Some? then openFile.value else 0;
    }

    method RotateLog(outcome: Rotation)
      modifies this`fileSize
      ensures State() == Rotated(old(State()), outcome)
    {
      if !open || fileSize < maxSize { return; }
      if outcome == RotationFails { return; }
      fileSize := 0;
    }

    method Log(level: int, length: nat, outcome: Rotation)
      modifies this`fileSize
      ensures State() == Written(old(State()), level, length, outcome)
    {
      if open && level >= fileLevel {
        fileSize := fileSize + length + 1;
        RotateLog(outcome);
      }
    }
  }

  datatype Message = Message(level: int, length: nat, outcome: Rotation)

  function Run(l: LogFile, messages: seq<Message>): LogFile
    decreases |messages|
  {
    if messages == [] then l
    else Run(Written(l, messages[0].level, messages[0].length, messages[0].outcome), messages[1..])
  }

  /** The message goes to the file. */
  predicate ToFile(l: LogFile, m: Message) { l.open && m.level >= l.fileLevel }

  /** The bytes that messages put into the file: their text and a newline each. */
  function FileBytes(l: LogFile, messages: seq<Message>): nat {
    if messages == [] then 0
    else
      var n := |messages| - 1;
      FileBytes(l, messages[..n]) + (if ToFile(l, messages[n]) then messages[n].length + 1 else 0)
  }

  /** What message `i` and those from `k` on before it bring the counter to, if the last rotation was before `k`. */
  function Reached(l: LogFile, messages: seq<Message>, k: nat, i: nat): int
    requires k <= i < |messages|
  {
    (if k == 0 then l.fileSize else 0) + FileBytes(l, messages[k..i + 1])
  }

  /** Message `i` is one that a rotation can follow. */
  predicate CanRotate(l: LogFile, messages: seq<Message>, i: nat)
    requires i < |messages|
  {
    ToFile(l, messages[i]) && messages[i].outcome == Rotates
  }

  /**
   The first `k` messages end with a rotation (none, if `k` is 0), which came when the counter reached the limit; no
   message since that a rotation can follow has brought the counter there.
   */
  ghost predicate LastRotation(l: LogFile, messages: seq<Message>, k: nat) {
    && k <= |messages|
    && (k > 0 ==> CanRotate(l, messages, k - 1) &&
                  Run(l, messages[..k - 1]).fileSize + messages[k - 1].length + 1 >= l.maxSize)
    && forall i :: k <= i < |messages| && CanRotate(l, messages, i) ==> Reached(l, messages, k, i) < l.maxSize
  }

  lemma {:induction false} RunSnoc(l: LogFile, messages: seq<Message>, m: Message)
    ensures Run(l, messages + [m]) == Written(Run(l, messages), m.level, m.length, m.outcome)
    ensures Run(l, messages) == l.(fileSize := Run(l, messages).fileSize)
    decreases |messages|
  {
    if messages == [] {
      assert [] + [m] == [m] && [m][1..] == [];
    } else {
      var v := Written(l, messages[0].level, messages[0].length, messages[0].outcome);
      RunSnoc(v, messages[1..], m);
      assert (messages + [m])[0] == messages[0] && (messages + [m])[1..] == messages[1..] + [m];
    }
  }

  lemma ReachedBefore(l: LogFile, before: seq<Message>, m: Message, k: nat, i: nat)
    requires k <= i < |before|
    ensures Reached(l, before + [m], k, i) == Reached(l, before, k, i)
  {
    assert (before + [m])[k..i + 1] == before[k..i + 1];
  }

  lemma ReachedLast(l: LogFile, before: seq<Message>, m: Message, k: nat)
    requires k <= |before|
    ensures Reached(l, before + [m], k, |before|) ==
            (if k == 0 then l.fileSize else 0) + FileBytes(l, before[k..]) + (if ToFile(l, m) then m.length + 1 else 0)
    ensures FileBytes(l, (before + [m])[k..]) == FileBytes(l, before[k..]) + (if ToFile(l, m) then m.length + 1 else 0)
  {
    var after := before[k..] + [m];
    assert (before + [m])[k..|before| + 1] == after && (before + [m])[k..] == after;
    assert after[..|before| - k] == before[k..];
  }

  /** A message without a rotation keeps the last one. */
  lemma NoRotation(l: LogFile, before: seq<Message>, m: Message, k: nat)
    requires LastRotation(l, before, k)
    requires ToFile(l, m) && m.outcome == Rotates ==> Reached(l, before + [m], k, |before|) < l.maxSize
    ensures LastRotation(l, before + [m], k)
  {
    hide Run, Reached;
    var messages := before + [m];
    if k > 0 { assert messages[..k - 1] == before[..k - 1]; }
    forall i | k <= i < |messages| && CanRotate(l, messages, i) ensures Reached(l, messages, k, i) < l.maxSize {
      if i < |before| { ReachedBefore(l, before, m, k, i); }
    }
  }

  lemma NewRotation(l: LogFile, before: seq<Message>, m: Message)
    requires ToFile(l, m) && m.outcome == Rotates && Run(l, before).fileSize + m.length + 1 >= l.maxSize
    ensures LastRotation(l, before + [m], |before| + 1) && (before + [m])[|before| + 1..] == []
  {
    hide Run, Reached;
    assert (before + [m])[..|before|] == before;
  }

  lemma {:induction false} CounterSince(l: LogFile, messages: seq<Message>) returns (k: nat)
    ensures LastRotation(l, messages, k)
    ensures Run(l, messages).fileSize == (if k == 0 then l.fileSize else 0) + FileBytes(l, messages[k..])
  {
    hide Written, LastRotation, FileBytes;
    if messages == [] {
      k := 0;
      NothingLogged(l);
    } else {
      var n := |messages| - 1;
      var before, m := messages[..n], messages[n];
      k := CounterSince(l, before);
      assert messages == before + [m];
      RunSnoc(l, before, m);
      WrittenIs(Run(l, before), m);
      RotationBounds(l, before, k);
      ReachedLast(l, before, m, k);
      if ToFile(l, m) && m.outcome == Rotates && Run(l, before).fileSize + m.length + 1 >= l.maxSize {
        NewRotation(l, before, m);
        NothingLogged(l);
        k := n + 1;
      } else {
        NoRotation(l, before, m, k);
      }
    }
  }

  lemma RotationBounds(l: LogFile, messages: seq<Message>, k: nat)
    requires LastRotation(l, messages, k)
    ensures k <= |messages|
  {}

  lemma NothingLogged(l: LogFile)
    ensures LastRotation(l, [], 0) && FileBytes(l, []) == 0
  {}

  lemma WrittenIs(l: LogFile, m: Message)
    ensures Written(l, m.level, m.length, m.outcome) == l.(fileSize :=
              if !ToFile(l, m) then l.fileSize
              else if m.outcome == Rotates && l.fileSize + m.length + 1 >= l.maxSize then 0
              else l.fileSize + m.length + 1)
  {}

  /**
   In every run the counter is what the messages since the last rotation have put into the file (with what was there,
   before the first), and a rotation that can succeed happens exactly when the counter reaches the limit.
   */
  lemma CounterIsSumSinceRotation(l: LogFile, messages: seq<Message>)
    ensures exists k | 0 <= k <= |messages| ::
              && LastRotation(l, messages, k)
              && Run(l, messages).fileSize == (if k == 0 then l.fileSize else 0) + FileBytes(l, messages[k..])
  {
    var k := CounterSince(l, messages);
  }

  /** Over any run in which rotation succeeds, the counter stays below the limit once a message has been written. */
  lemma {:induction false} RunStaysBelow(l: LogFile, messages: seq<Message>)
    requires l.maxSize > 0 && (forall m :: m in messages ==> m.outcome == Rotates)
    requires l.fileSize < l.maxSize || (l.open && messages != [] && messages[0].level >= l.fileLevel)
    ensures Run(l, messages).fileSize < l.maxSize && Run(l, messages).maxSize == l.maxSize
    decreases |messages|
  {
    if messages != [] {
      assert messages[0] in messages;
      RunStaysBelow(Written(l, messages[0].level, messages[0].length, messages[0].outcome), messages[1..]);
    }
  }
}
