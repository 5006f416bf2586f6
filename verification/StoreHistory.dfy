/** Saving and querying together: what queries show after any run of the store. */
module StoreHistory {
  import opened ByteStrings
  import opened Sequences
  import opened TimeKey
  import opened ZoneChanges
  import opened ClipboardTypes
  import opened Bucket
  import opened StoreModel
  import opened HistoryQuery
  import opened ReverseHistory

  function EntryOf(codec: Codec, c: Content): Entry { Entry(Format(c.created), codec.encode(c)) }

  /** The entries that saving `cs` writes, in order. */
  function Entries(codec: Codec, cs: seq<Content>): (b: seq<Entry>)
    ensures |b| == |cs|
  {
    if cs == [] then [] else [EntryOf(codec, cs[0])] + Entries(codec, cs[1..])
  }

  /** The contents that a run saves, in order. */
  function SavedBy(ops: seq<StoreOp>): seq<Content> {
    if ops == [] then [] else (if ops[0].SaveOp? then [ops[0].content] else []) + SavedBy(ops[1..])
  }

  // ---------- What a run leaves ----------

  /** All that was ever stored but for the first `k`, of which the unreadable ones are left. */
  function Survivors(codec: Codec, all: seq<Entry>, k: nat): seq<Entry>
    requires k <= |all|
  {
    DamagedOf(codec, all[..k]) + all[k..]
  }

  ghost predicate Holds(codec: Codec, s: Store, all: seq<Entry>, k: nat) {
    k <= |all| && s.bucket == Survivors(codec, all, k) && (k == 0 || |all| - k >= s.keepItems)
  }

  lemma {:induction false} DamagedTwice(codec: Codec, b: seq<Entry>)
    ensures DamagedOf(codec, DamagedOf(codec, b)) == DamagedOf(codec, b)
  {
    if b != [] {
      DamagedTwice(codec, b[1..]);
      ChosenConcat(Damaged(codec), OneChosen(Damaged(codec)(b[0])), DamagedOf(codec, b[1..]));
      if Damaged(codec)(b[0]).Some? { ChosenOne(Damaged(codec), b[0]); }
    }
  }

  /** Damage among what is left of a first part, followed by a second part. */
  lemma DamageAdds(codec: Codec, all: seq<Entry>, k: nat, m: nat)
    requires k <= m <= |all|
    ensures DamagedOf(codec, DamagedOf(codec, all[..k]) + all[k..m]) == DamagedOf(codec, all[..m])
  {
    DamagedTwice(codec, all[..k]);
    ChosenConcat(Damaged(codec), DamagedOf(codec, all[..k]), all[k..m]);
    assert all[..m] == all[..k] + all[k..m];
    ChosenConcat(Damaged(codec), all[..k], all[k..m]);
  }

  lemma CutBehind<T>(d: seq<T>, all: seq<T>, k: nat, m: nat)
    requires k <= m <= |all|
    ensures (d + all[k..])[..|d| + m - k] == d + all[k..m] && (d + all[k..])[|d| + m - k..] == all[m..]
  {}

  lemma FlushHolds(codec: Codec, s: Store, all: seq<Entry>, k: nat) returns (m: nat)
    requires Sorted(s.bucket) && KeyedByCreation(codec, s.bucket) && Holds(codec, s, all, k)
    ensures Holds(codec, Flush(codec, s), all, m)
  {
    hide Sorted, KeyedByCreation, Flush, DamagedOf;
    FlushKeepsNewest(codec, s);
    FlushKeepsLimits(codec, s);
    var d := DamagedOf(codec, all[..k]);
    m := if |all| - k >= s.keepItems then |all| - s.keepItems else k;
    CutBehind(d, all, k, m);
    DamageAdds(codec, all, k, m);
    if |all| - k < s.keepItems {
      assert all[..0] == [];
      NothingDamaged(codec);
    }
    if |s.bucket| <= s.keepItems { NothingOlder(codec, d, all, k, m, s.keepItems); }
  }

  lemma FlushKeepsLimits(codec: Codec, s: Store)
    ensures Flush(codec, s).maxSize == s.maxSize && Flush(codec, s).keepItems == s.keepItems
  {}

  lemma NothingDamaged(codec: Codec)
    ensures DamagedOf(codec, []) == []
  {}

  lemma NothingOlder(codec: Codec, d: seq<Entry>, all: seq<Entry>, k: nat, m: nat, n: nat)
    requires k <= m <= |all| && d == DamagedOf(codec, all[..k])
    requires |d + all[k..]| <= n && m == (if |all| - k >= n then |all| - n else k)
    ensures m == k
  {}

  lemma RoomHolds(codec: Codec, s: Store, all: seq<Entry>, k: nat) returns (m: nat)
    requires Sorted(s.bucket) && KeyedByCreation(codec, s.bucket) && Holds(codec, s, all, k)
    ensures Holds(codec, MakeRoom(codec, s), all, m)
    ensures s.cacheSize <= s.maxSize ==> m == k && MakeRoom(codec, s) == s
  {
    hide Sorted, KeyedByCreation, Holds, Flush;
    if s.cacheSize > s.maxSize { m := FlushHolds(codec, s, all, k); } else { m := k; }
  }

  /** An entry above all others goes to the end. */
  lemma PutAppends(b: seq<Entry>, key: Bytes, value: Bytes)
    requires forall e :: e in b ==> Less(e.key, key)
    ensures Put(b, key, value) == b + [Entry(key, value)]
  {
    hide Less;
    SeekIsUnique(b, key, |b|);
    assert b[..|b|] == b && b[|b|..] == [];
  }

  lemma SurvivorsAreOld(codec: Codec, all: seq<Entry>, k: nat)
    requires k <= |all|
    ensures forall e :: e in Survivors(codec, all, k) ==> e in all
  {
    DamagedStayDamaged(codec, all[..k]);
  }

  lemma SurvivorsSnoc(codec: Codec, all: seq<Entry>, k: nat, e: Entry)
    requires k <= |all|
    ensures Survivors(codec, all + [e], k) == Survivors(codec, all, k) + [e]
  {
    assert (all + [e])[..k] == all[..k] && (all + [e])[k..] == all[k..] + [e];
  }

  lemma LastIsGreatest(all: seq<Entry>, e: Entry)
    requires Sorted(all + [e])
    ensures forall d :: d in all ==> Less(d.key, e.key)
  {
    var b := all + [e];
    forall d | d in all ensures Less(d.key, e.key) {
      var i :| 0 <= i < |all| && all[i] == d;
      assert b[i] == d && b[|all|] == e;
    }
  }

  lemma SaveHolds(codec: Codec, s: Store, all: seq<Entry>, k: nat, c: Content) returns (m: nat)
    requires Sorted(s.bucket) && KeyedByCreation(codec, s.bucket) && Holds(codec, s, all, k)
    requires Sorted(all + [EntryOf(codec, c)])
    ensures Holds(codec, Save(codec, s, c), all + [EntryOf(codec, c)], m)
    ensures s.cacheSize + |codec.encode(c)| <= s.maxSize ==>
              m == k && Save(codec, s, c).cacheSize == s.cacheSize + |codec.encode(c)|
  {
    hide Sorted, KeyedByCreation, Put, Format, MakeRoom, Survivors, Less;
    var e := EntryOf(codec, c);
    var counted := s.(cacheSize := s.cacheSize + |codec.encode(c)|);
    m := RoomHolds(codec, counted, all, k);
    var room := MakeRoom(codec, counted);
    SurvivorsAreOld(codec, all, m);
    LastIsGreatest(all, e);
    PutAppends(room.bucket, e.key, e.value);
    SurvivorsSnoc(codec, all, m, e);
  }

  lemma StepHolds(codec: Codec, s: Store, all: seq<Entry>, k: nat, op: StoreOp) returns (m: nat)
    requires Sound(codec, s) && Holds(codec, s, all, k) && Sorted(all + Entries(codec, SavedBy([op])))
    ensures Holds(codec, Step(codec, s, op), all + Entries(codec, SavedBy([op])), m)
    ensures op.SaveOp? && s.cacheSize + |codec.encode(op.content)| <= s.maxSize ==>
              m == k && Step(codec, s, op).cacheSize == s.cacheSize + |codec.encode(op.content)|
  {
    hide Sorted, KeyedByCreation, Holds, Save, Flush, EntryOf;
    assert [op][1..] == [];
    match op
    case SaveOp(c) =>
      assert [c][1..] == [] && [EntryOf(codec, c)] + [] == [EntryOf(codec, c)] && [c] + [] == [c];
      assert Entries(codec, [c]) == [EntryOf(codec, c)];
      m := SaveHolds(codec, s, all, k, c);
    case FlushOp =>
      assert all + [] == all;
      m := FlushHolds(codec, s, all, k);
    case ReopenOp =>
      assert all + [] == all;
      HoldsByBucket(codec, s, Step(codec, s, op), all, k);
      m := k;
  }

  lemma HoldsByBucket(codec: Codec, s: Store, t: Store, all: seq<Entry>, k: nat)
    requires Holds(codec, s, all, k) && t.bucket == s.bucket && t.keepItems == s.keepItems
    ensures Holds(codec, t, all, k)
  {}

  lemma {:induction false} EntriesConcat(codec: Codec, a: seq<Content>, b: seq<Content>)
    ensures Entries(codec, a + b) == Entries(codec, a) + Entries(codec, b)
  {
    hide EntryOf;
    if a == [] {
      EmptyPrefix(b);
      EmptyPrefix(Entries(codec, b));
    } else {
      EntriesConcat(codec, a[1..], b);
      assert (a + b)[0] == a[0] && (a + b)[1..] == a[1..] + b;
      Associative([EntryOf(codec, a[0])], Entries(codec, a[1..]), Entries(codec, b));
    }
  }

  lemma SavedFirst(codec: Codec, ops: seq<StoreOp>)
    requires ops != []
    ensures SavedBy(ops) == SavedBy([ops[0]]) + SavedBy(ops[1..])
    ensures Entries(codec, SavedBy(ops)) == Entries(codec, SavedBy([ops[0]])) + Entries(codec, SavedBy(ops[1..]))
  {
    hide Entries;
    assert [ops[0]][1..] == [];
    EntriesConcat(codec, SavedBy([ops[0]]), SavedBy(ops[1..]));
  }

  lemma SortedPrefix(a: seq<Entry>, b: seq<Entry>, c: seq<Entry>)
    requires Sorted(a + (b + c))
    ensures Sorted(a + b) && Sorted((a + b) + c)
  {
    Associative(a, b, c);
    var all := a + b + c;
    assert forall i :: 0 <= i < |a + b| ==> all[i] == (a + b)[i];
  }

  predicate OnlySaves(ops: seq<StoreOp>) { forall op :: op in ops ==> op.SaveOp? }

  /** Saving what still fits. */
  predicate SavesThatFit(codec: Codec, s: Store, ops: seq<StoreOp>) {
    OnlySaves(ops) && s.cacheSize + EncodedBytes(codec, SavedBy(ops)) <= s.maxSize
  }

  lemma FirstFits(codec: Codec, s: Store, ops: seq<StoreOp>)
    requires ops != [] && SavesThatFit(codec, s, ops)
    ensures ops[0].SaveOp? && s.cacheSize + |codec.encode(ops[0].content)| <= s.maxSize
    ensures OnlySaves(ops[1..])
    ensures EncodedBytes(codec, SavedBy(ops)) ==
            |codec.encode(ops[0].content)| + EncodedBytes(codec, SavedBy(ops[1..]))
  {
    assert ops[0] in ops;
    assert SavedBy(ops)[1..] == SavedBy(ops[1..]);
  }

  /** What a run leaves is what was there and what it saved, but for a first part of which only damage is left. */
  lemma {:induction false} RunHolds(codec: Codec, s: Store, all: seq<Entry>, k: nat, ops: seq<StoreOp>) returns (m: nat)
    requires Faithful(codec) && Sound(codec, s) && Holds(codec, s, all, k)
    requires Sorted(all + Entries(codec, SavedBy(ops)))
    ensures Holds(codec, Run(codec, s, ops), all + Entries(codec, SavedBy(ops)), m)
    ensures SavesThatFit(codec, s, ops) ==> m == k
    decreases |ops|
  {
    hide Sorted, Sound, Holds, Step, Entries, SavedBy, EncodedBytes, SavesThatFit;
    if ops == [] {
      NothingSaved(codec, all);
      m := k;
    } else {
      var op, rest := ops[0], ops[1..];
      var added := Entries(codec, SavedBy([op]));
      SavedFirst(codec, ops);
      SortedPrefix(all, added, Entries(codec, SavedBy(rest)));
      var j := StepHolds(codec, s, all, k, op);
      StepSound(codec, s, op);
      m := RunHolds(codec, Step(codec, s, op), all + added, j, rest);
      Associative(all, added, Entries(codec, SavedBy(rest)));
      if SavesThatFit(codec, s, ops) {
        FirstFits(codec, s, ops);
        SaveKeepsMaxSize(codec, s, op);
        RestFits(codec, s, Step(codec, s, op), ops);
      }
    }
  }

  lemma SaveKeepsMaxSize(codec: Codec, s: Store, op: StoreOp)
    requires op.SaveOp?
    ensures Step(codec, s, op).maxSize == s.maxSize
  {}

  lemma RestFits(codec: Codec, s: Store, t: Store, ops: seq<StoreOp>)
    requires ops != [] && SavesThatFit(codec, s, ops) && ops[0].SaveOp? && OnlySaves(ops[1..])
    requires t.cacheSize == s.cacheSize + |codec.encode(ops[0].content)| && t.maxSize == s.maxSize
    requires EncodedBytes(codec, SavedBy(ops)) ==
             |codec.encode(ops[0].content)| + EncodedBytes(codec, SavedBy(ops[1..]))
    ensures SavesThatFit(codec, t, ops[1..])
  {}

  lemma NothingSaved(codec: Codec, all: seq<Entry>)
    ensures all + Entries(codec, SavedBy([])) == all
  {}

  // ---------- Damaged entries cannot be seen ----------

  lemma {:induction false} NothingSelectedOfDamaged(codec: Codec, o: HistoryOptions, d: seq<Entry>)
    requires forall e :: e in d ==> codec.decode(e.value) == None
    ensures Selected(codec, o, d) == []
  {
    hide Parse, Instant;
    NothingChosen(Selector(codec, o), d);
  }

  lemma SelectedPastDamage(codec: Codec, o: HistoryOptions, d: seq<Entry>, b: seq<Entry>)
    requires forall e :: e in d ==> codec.decode(e.value) == None
    ensures Selected(codec, o, d + b) == Selected(codec, o, b)
  {
    hide Selected, Select;
    NothingSelectedOfDamaged(codec, o, d);
    SelectedConcat(codec, o, d, b);
    EmptyPrefix(Selected(codec, o, b));
  }

  lemma SelectedConcat(codec: Codec, o: HistoryOptions, a: seq<Entry>, b: seq<Entry>)
    ensures Selected(codec, o, a + b) == Selected(codec, o, a) + Selected(codec, o, b)
  {
    hide Select;
    ChosenConcat(Selector(codec, o), a, b);
  }

  lemma SortedParts(d: seq<Entry>, b: seq<Entry>)
    requires Sorted(d + b)
    ensures Sorted(d) && Sorted(b)
    ensures forall x, y :: x in d && y in b ==> Less(x.key, y.key)
  {
    hide Less;
    var all := d + b;
    forall m, n | 0 <= m < n < |d| ensures Less(d[m].key, d[n].key) { assert all[m] == d[m] && all[n] == d[n]; }
    forall m, n | 0 <= m < n < |b| ensures Less(b[m].key, b[n].key) {
      assert all[|d| + m] == b[m] && all[|d| + n] == b[n];
    }
    forall x, y | x in d && y in b ensures Less(x.key, y.key) {
      var m :| 0 <= m < |d| && d[m] == x;
      var n :| 0 <= n < |b| && b[n] == y;
      assert all[m] == x && all[|d| + n] == y;
    }
  }

  /** Seeking in a bucket of two parts. */
  lemma SeekConcat(d: seq<Entry>, b: seq<Entry>, key: Bytes)
    requires Sorted(d + b)
    ensures var i := Seek(d, key);
            Seek(d + b, key) == (if i < |d| then i else |d| + Seek(b, key)) && (i < |d| ==> Seek(b, key) == 0)
  {
    hide Less, Sorted;
    var i, j := Seek(d, key), Seek(b, key);
    SortedParts(d, b);
    SeekIsUnique(d + b, key, if i < |d| then i else |d| + j);
    if i < |d| && b != [] {
      assert d[i] in d && b[0] in b;
      NothingBelow(key, d[i].key, b[0].key);
      SeekIsUnique(b, key, 0);
    }
  }

  lemma NothingBelow(key: Bytes, x: Bytes, y: Bytes)
    requires !Less(x, key) && Less(x, y)
    ensures !Less(y, key)
  {
    if Less(y, key) { LessTransitive(x, y, key); }
  }

  /** Readable entries show alike whatever damaged ones precede them, whatever is asked. */
  lemma DamageIsInvisible(codec: Codec, o: HistoryOptions, d: seq<Entry>, b: seq<Entry>)
    requires Sorted(d + b) && forall e :: e in d ==> codec.decode(e.value) == None
    ensures History(codec, o, d + b) == History(codec, o, b)
  {
    hide Select, Selected, Less, Seek, Sorted, Format, IsZero, Limited, Reversed;
    if o.reverse {
      if IsZero(o.before) {
        ReversedPastDamage(codec, o, d, b);
      } else {
        ReverseSeekPastDamage(codec, o, d, b, Format(o.before));
      }
    } else if IsZero(o.since) {
      SelectedPastDamage(codec, o, d, b);
    } else {
      SeekPastDamage(codec, o, d, b, Format(o.since));
    }
  }

  lemma SeekPastDamage(codec: Codec, o: HistoryOptions, d: seq<Entry>, b: seq<Entry>, key: Bytes)
    requires Sorted(d + b) && forall e :: e in d ==> codec.decode(e.value) == None
    ensures Selected(codec, o, (d + b)[Seek(d + b, key)..]) == Selected(codec, o, b[Seek(b, key)..])
  {
    hide Select, Selected, Less, Seek, Sorted;
    var i := Seek(d, key);
    SeekConcat(d, b, key);
    if i < |d| {
      assert (d + b)[i..] == d[i..] + b && b[0..] == b;
      SelectedPastDamage(codec, o, d[i..], b);
    } else {
      assert (d + b)[|d| + Seek(b, key)..] == b[Seek(b, key)..];
    }
  }

  lemma ReversedPastDamage(codec: Codec, o: HistoryOptions, d: seq<Entry>, b: seq<Entry>)
    requires forall e :: e in d ==> codec.decode(e.value) == None
    ensures Selected(codec, o, Reversed(d + b)) == Selected(codec, o, Reversed(b))
  {
    hide Select;
    SelectedPastDamage(codec, o, d, b);
    ChosenReversed(Selector(codec, o), d + b);
    ChosenReversed(Selector(codec, o), b);
  }

  lemma ReverseSeekPastDamage(codec: Codec, o: HistoryOptions, d: seq<Entry>, b: seq<Entry>, key: Bytes)
    requires Sorted(d + b) && forall e :: e in d ==> codec.decode(e.value) == None
    ensures var i, j := Seek(d + b, key), Seek(b, key);
            Selected(codec, o, if i < |d + b| then Reversed((d + b)[..i]) else []) ==
            Selected(codec, o, if j < |b| then Reversed(b[..j]) else [])
  {
    hide Select, Selected, Less, Seek, Sorted, Reversed;
    var i, j := Seek(d, key), Seek(b, key);
    SeekConcat(d, b, key);
    NothingSelectedOfDamaged(codec, o, []);
    if i < |d| {
      assert (d + b)[..i] == d[..i] + [] && b[..0] == [];
      ReversedPastDamage(codec, o, d[..i], []);
    } else {
      assert (d + b)[..|d| + j] == d + b[..j];
      ReversedPastDamage(codec, o, d, b[..j]);
    }
  }

  // ---------- Queries after runs ----------

  lemma HoldsNow(codec: Codec, s: Store)
    ensures Holds(codec, s, s.bucket, 0)
  {
    assert s.bucket[..0] == [] && s.bucket[0..] == s.bucket;
    EmptyPrefix(s.bucket);
  }

  lemma HeldIsShown(codec: Codec, o: HistoryOptions, s: Store, all: seq<Entry>, k: nat)
    requires Sorted(s.bucket) && Holds(codec, s, all, k)
    ensures History(codec, o, s.bucket) == History(codec, o, all[k..])
  {
    hide Sorted, History, DamagedOf;
    DamagedStayDamaged(codec, all[..k]);
    DamageIsInvisible(codec, o, DamagedOf(codec, all[..k]), all[k..]);
  }

  /** No query tells the two buckets apart, whatever its filters, direction and limit. */
  ghost predicate ShowAlike(codec: Codec, a: seq<Entry>, b: seq<Entry>) {
    forall o :: History(codec, o, a) == History(codec, o, b)
  }

  /**
   From any sound store, through any saves with ascending keys above those stored, flushes and reopenings:
   every query shows what it would show of a last part of all that was stored and saved, the same part for
   all queries: at least the newest keepItems entries, and everything if only saves that fit were made.
   */
  lemma HistoryAfterRun(codec: Codec, s: Store, ops: seq<StoreOp>)
    requires Faithful(codec) && Sound(codec, s)
    requires Sorted(s.bucket + Entries(codec, SavedBy(ops)))
    ensures var all := s.bucket + Entries(codec, SavedBy(ops));
            exists k | 0 <= k <= |all| ::
              && ShowAlike(codec, Run(codec, s, ops).bucket, all[k..])
              && (k == 0 || |all| - k >= s.keepItems)
              && (SavesThatFit(codec, s, ops) ==> k == 0)
  {
    hide Run, Entries, History, SavesThatFit, Survivors;
    HoldsNow(codec, s);
    var k := RunHolds(codec, s, s.bucket, 0, ops);
    RunSound(codec, s, ops);
    var t := Run(codec, s, ops);
    var all := s.bucket + Entries(codec, SavedBy(ops));
    forall o ensures History(codec, o, t.bucket) == History(codec, o, all[k..]) {
      HeldIsShown(codec, o, t, all, k);
    }
    assert ShowAlike(codec, t.bucket, all[k..]);
  }

  // ---------- From an empty store ----------

  /** Uncompressed contents, of any zones, each with a key after that of the one before. */
  ghost predicate InKeyOrder(cs: seq<Content>) {
    (forall c :: c in cs ==> !c.compressed) && KeysAscend(cs)
  }

  /** Options that ask for everything, oldest or newest first. */
  function Unfiltered(limit: int, reverse: bool): HistoryOptions {
    HistoryOptions(limit, ZERO_TIME, ZERO_TIME, "", reverse, 0, 0)
  }

  function SaveAll(codec: Codec, s: Store, cs: seq<Content>): Store { Run(codec, s, Saves(cs)) }

  lemma {:induction false} SavedBySaves(cs: seq<Content>)
    ensures SavedBy(Saves(cs)) == cs && OnlySaves(Saves(cs))
  {
    if cs != [] {
      SavedBySaves(cs[1..]);
      assert Saves(cs)[1..] == Saves(cs[1..]);
    }
  }

  lemma {:induction false} EntriesAt(codec: Codec, cs: seq<Content>, i: nat)
    requires i < |cs|
    ensures Entries(codec, cs)[i] == EntryOf(codec, cs[i])
  {
    hide EntryOf;
    if i > 0 { EntriesAt(codec, cs[1..], i - 1); }
  }

  lemma {:induction false} EntriesSuffix(codec: Codec, cs: seq<Content>, k: nat)
    requires k <= |cs|
    ensures Entries(codec, cs)[k..] == Entries(codec, cs[k..])
  {
    hide EntryOf;
    if k > 0 {
      EntriesSuffix(codec, cs[1..], k - 1);
      assert cs[1..][k - 1..] == cs[k..];
    }
  }

  lemma EntriesSorted(codec: Codec, cs: seq<Content>)
    requires KeysAscend(cs)
    ensures Sorted(Entries(codec, cs))
  {
    hide Format, Entries, KeyEarlier;
    var b := Entries(codec, cs);
    forall i, j | 0 <= i < j < |b| ensures Less(b[i].key, b[j].key) {
      EntriesAt(codec, cs, i);
      EntriesAt(codec, cs, j);
      KeysCompareByWallClock(cs[i].created, cs[j].created);
    }
  }

  /** Every saved content is in the answer, in order. */
  lemma {:induction false} EverythingSelected(codec: Codec, cs: seq<Content>, limit: int, reverse: bool)
    requires Faithful(codec) && (forall c :: c in cs ==> !c.compressed)
    ensures Selected(codec, Unfiltered(limit, reverse), Entries(codec, cs)) == cs
  {
    hide EntryOf, Select, Reversed;
    if cs != [] {
      EverythingSelected(codec, cs[1..], limit, reverse);
      EntrySelected(codec, cs[0], limit, reverse);
    }
  }

  lemma EntrySelected(codec: Codec, c: Content, limit: int, reverse: bool)
    requires Faithful(codec) && !c.compressed
    ensures Select(codec, Unfiltered(limit, reverse), EntryOf(codec, c)) == Some(c)
  {
    hide Format, Parse;
    ParseInvertsFormat(c.created);
  }

  /** A limit cuts the answer off after that many contents, from the first forward and from the last in reverse. */
  lemma LimitedIs(limit: int, cs: seq<Content>)
    ensures var n := if limit <= 0 || limit > |cs| then |cs| else limit;
            && |Limited(limit, cs)| == |LastLimited(limit, cs)| == n
            && (forall i :: 0 <= i < n ==> Limited(limit, cs)[i] == cs[i])
            && (forall i :: 0 <= i < n ==> Reversed(LastLimited(limit, cs))[i] == cs[|cs| - 1 - i])
  {
    var last := LastLimited(limit, cs);
    forall i | 0 <= i < |last| ensures Reversed(last)[i] == last[|last| - 1 - i] { ReversedAt(last, i); }
  }

  lemma UnfilteredShows(codec: Codec, cs: seq<Content>, limit: int)
    requires Faithful(codec) && (forall c :: c in cs ==> !c.compressed)
    ensures History(codec, Unfiltered(limit, false), Entries(codec, cs)) == Limited(limit, cs)
    ensures History(codec, Unfiltered(limit, true), Entries(codec, cs)) == Reversed(LastLimited(limit, cs))
  {
    hide Entries, Limited, LastLimited, Selected;
    EverythingSelected(codec, cs, limit, false);
    EverythingSelected(codec, cs, limit, true);
    ForwardFromSeek(codec, Unfiltered(limit, false), Entries(codec, cs));
    ReverseHistoryIsTheQuery(codec, Unfiltered(limit, true), Entries(codec, cs));
  }

  /**
   Contents saved with ascending keys into an empty store come back from an unfiltered query in that order,
   newest first when reversed: all of them while their encodings fit the limit, and in any case at least
   the newest keepItems.
   */
  lemma HistoryShowsTheNewest(codec: Codec, maxSize: int, keepItems: int, cs: seq<Content>, limit: int)
    requires Faithful(codec) && InKeyOrder(cs)
    ensures var s := Open([], maxSize, keepItems);
            var t := SaveAll(codec, s, cs);
            exists k | 0 <= k <= |cs| ::
              && History(codec, Unfiltered(limit, false), t.bucket) == Limited(limit, cs[k..])
              && History(codec, Unfiltered(limit, true), t.bucket) == Reversed(LastLimited(limit, cs[k..]))
              && (k == 0 || |cs| - k >= s.keepItems)
              && (EncodedBytes(codec, cs) <= s.maxSize ==> k == 0)
  {
    hide Run, Entries, Saves, SavedBy, History, Survivors, KeysAscend, Limited, LastLimited, Reversed;
    var s := Open([], maxSize, keepItems);
    SavedBySaves(cs);
    EntriesSorted(codec, cs);
    EmptyPrefix(Entries(codec, cs));
    HoldsNow(codec, s);
    var k := RunHolds(codec, s, [], 0, Saves(cs));
    RunSound(codec, s, Saves(cs));
    EntriesSuffix(codec, cs, k);
    var t := SaveAll(codec, s, cs);
    HeldIsShown(codec, Unfiltered(limit, false), t, Entries(codec, cs), k);
    HeldIsShown(codec, Unfiltered(limit, true), t, Entries(codec, cs), k);
    UnfilteredShows(codec, cs[k..], limit);
  }

  /** A store opened with its defaults: 100 MiB, and at least the ten newest contents shown. */
  lemma DefaultsShowTen(codec: Codec, cs: seq<Content>)
    requires Faithful(codec) && InKeyOrder(cs)
    ensures var t := SaveAll(codec, Open([], 0, 0), cs);
            exists k | 0 <= k <= |cs| ::
              && History(codec, Unfiltered(0, false), t.bucket) == cs[k..]
              && (|cs| - k >= 10 || k == 0) && (EncodedBytes(codec, cs) <= 104_857_600 ==> k == 0)
  {
    hide Run, Saves, History, InKeyOrder, EncodedBytes;
    HistoryShowsTheNewest(codec, 0, 0, cs, 0);
  }

  /**
   While everything fits, what was saved comes back in the order of saving exactly when its keys ascend;
   `KeysSortAsTimesIff` tells when that is time order.
   */
  lemma SavedOrderIsShownIff(codec: Codec, maxSize: int, keepItems: int, cs: seq<Content>)
    requires Faithful(codec) && forall c :: c in cs ==> !c.compressed
    requires EncodedBytes(codec, cs) <= Open([], maxSize, keepItems).maxSize
    ensures var t := SaveAll(codec, Open([], maxSize, keepItems), cs);
            History(codec, Unfiltered(0, false), t.bucket) == cs <==> KeysAscend(cs)
  {
    hide Run, Saves, Entries, Instant, Format, Chosen, KeyEarlier, Path;
    var s := Open([], maxSize, keepItems);
    var t := SaveAll(codec, s, cs);
    if KeysAscend(cs) {
      HistoryShowsTheNewest(codec, maxSize, keepItems, cs, 0);
      assert cs[0..] == cs;
    }
    RunSound(codec, s, Saves(cs));
    ForwardHistoryAscends(codec, Unfiltered(0, false), t.bucket);
  }

  /** Two contents of one second in UTC, saved in time order, do not come back in that order. */
  lemma SavedOrderIsLost(codec: Codec, c: Content, d: Content)
    requires Faithful(codec) && !c.compressed && !d.compressed
    requires c.created == Stamp(2024, 5, 1, 12, 0, 5, 0, 0) && d.created == Stamp(2024, 5, 1, 12, 0, 5, 500_000_000, 0)
    requires EncodedBytes(codec, [c, d]) <= DEFAULT_MAX_SIZE
    ensures var t := SaveAll(codec, Open([], 0, 0), [c, d]);
            Instant(c.created) < Instant(d.created) && History(codec, Unfiltered(0, false), t.bucket) != [c, d]
  {
    hide Format, KeyEarlier, History, SaveAll, Less, EncodedBytes;
    UtcCounterexample();
    KeysCompareByWallClock(d.created, c.created);
    KeyEarlierTotal(c.created, d.created);
    SavedOrderIsShownIff(codec, 0, 0, [c, d]);
    assert [c, d][0] == c && [c, d][1] == d;
  }

  /** In one numeric zone contents saved in time order are saved in key order. */
  lemma TimeOrderIsKeyOrder(cs: seq<Content>)
    requires OneNumericZone(cs) && Ascending(cs)
    ensures KeysAscend(cs)
  {
    hide Format, Instant, KeyEarlier;
    forall i, j | 0 <= i < j < |cs| ensures KeyEarlier(cs[i].created, cs[j].created) {
      KeysCompareByWallClock(cs[i].created, cs[j].created);
      NumericOffsetKeysSortAsTimes(cs[i].created, cs[j].created);
    }
  }
}
