/** The history store as a value: saving, flushing and the size counter, and what every run of them keeps. */
module StoreModel {
  import opened ByteStrings
  import opened Sequences
  import opened TimeKey
  import opened ClipboardTypes
  import opened Bucket

  datatype Store = Store(bucket: seq<Entry>, cacheSize: int, maxSize: int, keepItems: nat)

  const DEFAULT_MAX_SIZE := 100 * 1024 * 1024
  const DEFAULT_KEEP_ITEMS := 10

  // ---------- Operations ----------

  /** Opening counts keys and values. */
  function Open(b: seq<Entry>, maxSize: int, keepItems: int): Store {
    Store(b, KeyBytes(b) + TotalBytes(b),
          if maxSize <= 0 then DEFAULT_MAX_SIZE else maxSize,
          if keepItems <= 0 then DEFAULT_KEEP_ITEMS else keepItems)
  }

  function Newest(b: seq<Entry>, n: nat): seq<Entry> { if |b| <= n then b else b[|b| - n..] }

  function Oldest(b: seq<Entry>, n: nat): seq<Entry> { if |b| <= n then [] else b[..|b| - n] }

  function Decoder(codec: Codec): Entry -> Option<Content> { (e: Entry) => codec.decode(e.value) }

  /** What `collectItemsToFlush` collects: all but the newest, as far as they decode. */
  function ItemsToFlush(codec: Codec, s: Store): seq<Content> {
    Chosen(Decoder(codec), Oldest(s.bucket, s.keepItems))
  }

  /** Delete each item under the key printed from its creation time. */
  function DeleteAll(b: seq<Entry>, items: seq<Content>): seq<Entry>
    decreases |items|
  {
    if items == [] then b else DeleteAll(Delete(b, Format(items[0].created)), items[1..])
  }

  function DataBytes(items: seq<Content>): nat {
    if items == [] then 0 else |items[0].data| + DataBytes(items[1..])
  }

  /** Deleting subtracts the data lengths, not what was added for the items. */
  function Flush(codec: Codec, s: Store): Store {
    var items := ItemsToFlush(codec, s);
    s.(bucket := DeleteAll(s.bucket, items), cacheSize := s.cacheSize - DataBytes(items))
  }

  /** The counter grows first; if it is then over the limit the store is flushed before the Put. */
  function Save(codec: Codec, s: Store, c: Content): Store {
    var value := codec.encode(c);
    var room := MakeRoom(codec, s.(cacheSize := s.cacheSize + |value|));
    room.(bucket := Put(room.bucket, Format(c.created), value))
  }

  function MakeRoom(codec: Codec, s: Store): Store {
    if s.cacheSize > s.maxSize then Flush(codec, s) else s
  }

  /** `GetLatestContent`; None is no content or an unreadable one. */
  function Latest(codec: Codec, b: seq<Entry>): Option<Content> {
    if b == [] then None
    else match codec.decode(b[|b| - 1].value)
      case None => None
      case Some(c) => Opened(codec, c)
  }

  // ---------- What runs keep ----------

  /** Entries that decode are stored under their own creation time. */
  predicate KeyedByCreation(codec: Codec, b: seq<Entry>) {
    forall e :: e in b && codec.decode(e.value).Some? ==> e.key == Format(codec.decode(e.value).value.created)
  }

  predicate Decodable(codec: Codec, b: seq<Entry>) { forall e :: e in b ==> codec.decode(e.value).Some? }

  /** How far the counter is above the bytes really stored. */
  function Slack(s: Store): int { s.cacheSize - TotalBytes(s.bucket) }

  ghost predicate Sound(codec: Codec, s: Store) {
    Sorted(s.bucket) && KeyedByCreation(codec, s.bucket) && Slack(s) >= 0 && s.maxSize > 0 && s.keepItems > 0
  }

  function Damaged(codec: Codec): Entry -> Option<Entry> {
    (e: Entry) => if codec.decode(e.value).Some? then None else Some(e)
  }

  /** The entries that do not decode. */
  function DamagedOf(codec: Codec, b: seq<Entry>): seq<Entry> { Chosen(Damaged(codec), b) }

  // ---------- Flushing keeps the newest ----------

  lemma DeleteFirst(u: seq<Entry>, r: seq<Entry>)
    requires r != [] && Sorted(u + r)
    ensures Delete(u + r, r[0].key) == u + r[1..]
    ensures Sorted(u + r[1..])
  {
    var b := u + r;
    assert b[|u|] == r[0];
    SeekFinds(b, |u|);
    assert b[..|u|] == u && b[|u| + 1..] == r[1..];
    PutSorted(b, r[0].key, []);
  }

  lemma {:induction false} DeleteDecoded(codec: Codec, u: seq<Entry>, r: seq<Entry>, k: nat)
    requires k <= |r| && Sorted(u + r) && KeyedByCreation(codec, r)
    ensures DeleteAll(u + r, Chosen(Decoder(codec), r[..k])) == u + DamagedOf(codec, r[..k]) + r[k..]
    decreases k
  {
    hide Sorted, KeyedByCreation, Chosen, DamagedOf, DeleteAll, Format;
    if k == 0 {
      DeleteNone(codec, u, r);
    } else {
      var e, rest := r[0], r[1..];
      assert r[k..] == rest[k - 1..];
      KeyedRest(codec, r);
      if codec.decode(e.value).Some? {
        DeleteFirst(u, r);
        DeleteDecoded(codec, u, rest, k - 1);
        DeleteReadable(codec, u, r, k);
      } else {
        SplitFirst(u, r);
        DeleteDecoded(codec, u + [e], rest, k - 1);
        KeepDamaged(codec, u, r, k);
      }
    }
  }

  lemma DeleteNone(codec: Codec, u: seq<Entry>, r: seq<Entry>)
    ensures DeleteAll(u + r, Chosen(Decoder(codec), r[..0])) == u + DamagedOf(codec, r[..0]) + r[0..]
  {
    assert u + [] == u;
  }

  lemma KeyedRest(codec: Codec, r: seq<Entry>)
    requires r != [] && KeyedByCreation(codec, r)
    ensures KeyedByCreation(codec, r[1..])
    ensures codec.decode(r[0].value).Some? ==> r[0].key == Format(codec.decode(r[0].value).value.created)
  {
    hide Format;
    assert r[0] in r;
  }

  /** A first entry that decodes is the first one deleted. */
  lemma DeleteReadable(codec: Codec, u: seq<Entry>, r: seq<Entry>, k: nat)
    requires 0 < k <= |r| && codec.decode(r[0].value).Some?
    requires r[0].key == Format(codec.decode(r[0].value).value.created)
    requires Delete(u + r, r[0].key) == u + r[1..]
    ensures DeleteAll(u + r, Chosen(Decoder(codec), r[..k])) ==
            DeleteAll(u + r[1..], Chosen(Decoder(codec), r[1..][..k - 1]))
    ensures DamagedOf(codec, r[..k]) == DamagedOf(codec, r[1..][..k - 1])
  {
    hide Chosen, Delete, DeleteAll, Format;
    ChosenPrefix(Decoder(codec), r, k);
    ChosenPrefix(Damaged(codec), r, k);
    DeleteAllFirst(u + r, codec.decode(r[0].value).value, Chosen(Decoder(codec), r[1..][..k - 1]));
    EmptyPrefix(DamagedOf(codec, r[1..][..k - 1]));
  }

  /** A first entry that does not decode stays in front. */
  lemma KeepDamaged(codec: Codec, u: seq<Entry>, r: seq<Entry>, k: nat)
    requires 0 < k <= |r| && codec.decode(r[0].value).None?
    ensures Chosen(Decoder(codec), r[..k]) == Chosen(Decoder(codec), r[1..][..k - 1])
    ensures u + DamagedOf(codec, r[..k]) == u + [r[0]] + DamagedOf(codec, r[1..][..k - 1])
  {
    hide Chosen;
    ChosenPrefix(Decoder(codec), r, k);
    ChosenPrefix(Damaged(codec), r, k);
    Associative(u, [r[0]], DamagedOf(codec, r[1..][..k - 1]));
    EmptyPrefix(Chosen(Decoder(codec), r[1..][..k - 1]));
  }

  lemma DeleteAllFirst(b: seq<Entry>, c: Content, items: seq<Content>)
    ensures DeleteAll(b, [c] + items) == DeleteAll(Delete(b, Format(c.created)), items)
  {
    assert ([c] + items)[1..] == items;
  }

  lemma OldestAndNewest(b: seq<Entry>, n: nat)
    ensures b == Oldest(b, n) + Newest(b, n) && |Newest(b, n)| <= n
  {}

  /**
   A flush keeps the newest keepItems entries untouched and in place, and of the older ones exactly
   those that do not decode.
   */
  lemma FlushKeepsNewest(codec: Codec, s: Store)
    requires Sorted(s.bucket) && KeyedByCreation(codec, s.bucket)
    ensures Flush(codec, s).bucket ==
            DamagedOf(codec, Oldest(s.bucket, s.keepItems)) + Newest(s.bucket, s.keepItems)
  {
    hide Sorted, KeyedByCreation, Delete;
    var k := if |s.bucket| > s.keepItems then |s.bucket| - s.keepItems else 0;
    DeleteOldest(codec, s.bucket, k);
    OldestIsPrefix(s.bucket, s.keepItems);
  }

  lemma OldestIsPrefix(b: seq<Entry>, n: nat)
    ensures var k := if |b| > n then |b| - n else 0; Oldest(b, n) == b[..k] && Newest(b, n) == b[k..]
  {}

  lemma DeleteOldest(codec: Codec, b: seq<Entry>, k: nat)
    requires k <= |b| && Sorted(b) && KeyedByCreation(codec, b)
    ensures DeleteAll(b, Chosen(Decoder(codec), b[..k])) == DamagedOf(codec, b[..k]) + b[k..]
  {
    EmptyPrefix(b);
    DeleteDecoded(codec, [], b, k);
    EmptyPrefix(DamagedOf(codec, b[..k]));
  }

  lemma {:induction false} NoneDamaged(codec: Codec, b: seq<Entry>)
    requires Decodable(codec, b)
    ensures DamagedOf(codec, b) == []
  {
    NothingChosen(Damaged(codec), b);
  }

  /** When everything decodes, a flush leaves precisely the min(keepItems, n) entries with the greatest keys. */
  lemma FlushLeavesExactlyNewest(codec: Codec, s: Store)
    requires Sorted(s.bucket) && KeyedByCreation(codec, s.bucket) && Decodable(codec, s.bucket)
    ensures Flush(codec, s).bucket == Newest(s.bucket, s.keepItems)
    ensures forall d, e :: d in Oldest(s.bucket, s.keepItems) && e in Newest(s.bucket, s.keepItems) ==>
                             Less(d.key, e.key)
  {
    FlushKeepsNewest(codec, s);
    NoneDamaged(codec, Oldest(s.bucket, s.keepItems));
  }

  lemma {:induction false} DamagedStayDamaged(codec: Codec, b: seq<Entry>)
    ensures forall e :: e in DamagedOf(codec, b) ==> e in b && codec.decode(e.value) == None
  {
    if b != [] { DamagedStayDamaged(codec, b[1..]); }
  }

  /** A second flush changes nothing. */
  lemma FlushTwice(codec: Codec, s: Store)
    requires Sorted(s.bucket) && KeyedByCreation(codec, s.bucket)
    ensures Flush(codec, Flush(codec, s)) == Flush(codec, s)
  {
    var t := Flush(codec, s);
    var damaged := DamagedOf(codec, Oldest(s.bucket, s.keepItems));
    FlushKeepsNewest(codec, s);
    DamagedStayDamaged(codec, Oldest(s.bucket, s.keepItems));
    assert Oldest(t.bucket, t.keepItems) <= damaged;
    NothingChosen(Decoder(codec), Oldest(t.bucket, t.keepItems));
  }

  // ---------- Size accounting ----------

  lemma {:induction false} FreedIsCovered(codec: Codec, b: seq<Entry>)
    requires Faithful(codec)
    ensures DataBytes(Chosen(Decoder(codec), b)) + TotalBytes(DamagedOf(codec, b)) <= TotalBytes(b)
  {
    if b != [] {
      FreedIsCovered(codec, b[1..]);
      var items, damaged := Chosen(Decoder(codec), b[1..]), DamagedOf(codec, b[1..]);
      var c := codec.decode(b[0].value);
      if c.Some? {
        assert Chosen(Decoder(codec), b) == [c.value] + items && ([c.value] + items)[1..] == items;
        assert DamagedOf(codec, b) == damaged;
      } else {
        assert Chosen(Decoder(codec), b) == items;
        assert DamagedOf(codec, b) == [b[0]] + damaged && ([b[0]] + damaged)[1..] == damaged;
      }
    }
  }

  /** The data bytes of the entries that decode. */
  function ReadableBytes(codec: Codec, b: seq<Entry>): nat {
    if b == [] then 0
    else match codec.decode(b[0].value)
      case None => ReadableBytes(codec, b[1..])
      case Some(c) => |c.data| + ReadableBytes(codec, b[1..])
  }

  /** A sum over entries: one at a time, nothing but the data of those that decode. */
  lemma {:induction false} ReadableBytesAdd(codec: Codec, a: seq<Entry>, e: Entry, c: Content)
    ensures ReadableBytes(codec, []) == 0
    ensures codec.decode(e.value) == Some(c) ==> ReadableBytes(codec, a + [e]) == ReadableBytes(codec, a) + |c.data|
    ensures codec.decode(e.value) == None ==> ReadableBytes(codec, a + [e]) == ReadableBytes(codec, a)
  {
    if a == [] {
      EmptyPrefix([e]);
      assert [e][1..] == [];
    } else {
      ReadableBytesAdd(codec, a[1..], e, c);
      assert (a + [e])[0] == a[0] && (a + [e])[1..] == a[1..] + [e];
    }
  }

  lemma {:induction false} ItemsAreReadable(codec: Codec, b: seq<Entry>)
    ensures DataBytes(Chosen(Decoder(codec), b)) == ReadableBytes(codec, b)
  {
    if b != [] {
      ItemsAreReadable(codec, b[1..]);
      var items := Chosen(Decoder(codec), b[1..]);
      match codec.decode(b[0].value)
      case None => EmptyPrefix(items);
      case Some(c) => assert ([c] + items)[1..] == items;
    }
  }

  /** A flush takes exactly the data bytes of the readable entries before the newest keepItems off the counter. */
  lemma FlushTakes(codec: Codec, s: Store)
    ensures var older := if |s.bucket| > s.keepItems then s.bucket[..|s.bucket| - s.keepItems] else [];
            Flush(codec, s).cacheSize == s.cacheSize - ReadableBytes(codec, older)
  {
    ItemsAreReadable(codec, Oldest(s.bucket, s.keepItems));
  }

  /** A save adds the encoded bytes, and flushes exactly when that takes the counter over the limit. */
  lemma SaveTakes(codec: Codec, s: Store, c: Content)
    ensures var counted := s.cacheSize + |codec.encode(c)|;
            var older := if |s.bucket| > s.keepItems then s.bucket[..|s.bucket| - s.keepItems] else [];
            Save(codec, s, c).cacheSize ==
            if counted > s.maxSize then counted - ReadableBytes(codec, older) else counted
  {
    FlushTakes(codec, s.(cacheSize := s.cacheSize + |codec.encode(c)|));
  }

  lemma FlushSlack(codec: Codec, s: Store)
    requires Faithful(codec) && Sorted(s.bucket) && KeyedByCreation(codec, s.bucket)
    ensures Slack(Flush(codec, s)) >= Slack(s)
  {
    var lo, hi := Oldest(s.bucket, s.keepItems), Newest(s.bucket, s.keepItems);
    FlushKeepsNewest(codec, s);
    FreedIsCovered(codec, lo);
    OldestAndNewest(s.bucket, s.keepItems);
    TotalBytesConcat(lo, hi);
    TotalBytesConcat(DamagedOf(codec, lo), hi);
  }

  lemma FlushSound(codec: Codec, s: Store)
    requires Faithful(codec) && Sorted(s.bucket) && KeyedByCreation(codec, s.bucket)
    ensures var t := Flush(codec, s);
            Sorted(t.bucket) && KeyedByCreation(codec, t.bucket) && (forall e :: e in t.bucket ==> e in s.bucket)
  {
    var items := ItemsToFlush(codec, s);
    DeleteAllSubset(s.bucket, items);
  }

  lemma {:induction false} DeleteAllSubset(b: seq<Entry>, items: seq<Content>)
    requires Sorted(b)
    ensures Sorted(DeleteAll(b, items)) && forall e :: e in DeleteAll(b, items) ==> e in b
    decreases |items|
  {
    if items != [] {
      DeleteIsMapRemoval(b, Format(items[0].created));
      DeleteAllSubset(Delete(b, Format(items[0].created)), items[1..]);
    }
  }

  lemma RoomSound(codec: Codec, s: Store)
    requires Faithful(codec) && Sorted(s.bucket) && KeyedByCreation(codec, s.bucket)
    ensures var t := MakeRoom(codec, s);
            && Sorted(t.bucket) && KeyedByCreation(codec, t.bucket) && (forall e :: e in t.bucket ==> e in s.bucket)
            && Slack(t) >= Slack(s)
  {
    FlushSlack(codec, s);
    FlushSound(codec, s);
  }

  /** Every save keeps the store sound, and never lowers the counter's excess over the stored bytes. */
  lemma SaveSound(codec: Codec, s: Store, c: Content)
    requires Faithful(codec) && Sound(codec, s)
    ensures Sound(codec, Save(codec, s, c)) && Slack(Save(codec, s, c)) >= Slack(s)
    ensures Decodable(codec, s.bucket) ==> Decodable(codec, Save(codec, s, c).bucket)
  {
    var value := codec.encode(c);
    var counted := s.(cacheSize := s.cacheSize + |value|);
    RoomSound(codec, counted);
    PutIsMapUpdate(MakeRoom(codec, counted).bucket, Format(c.created), value);
    PutBytes(MakeRoom(codec, counted).bucket, Format(c.created), value);
  }

  lemma FlushedLength(codec: Codec, s: Store)
    requires Sorted(s.bucket) && KeyedByCreation(codec, s.bucket)
    ensures |Flush(codec, s).bucket| <= s.keepItems + |DamagedOf(codec, s.bucket)|
  {
    var lo, hi := Oldest(s.bucket, s.keepItems), Newest(s.bucket, s.keepItems);
    FlushKeepsNewest(codec, s);
    OldestAndNewest(s.bucket, s.keepItems);
    ChosenConcat(Damaged(codec), lo, hi);
    assert |DamagedOf(codec, s.bucket)| >= |DamagedOf(codec, lo)|;
  }

  /** Every save ends within the byte limit, or with at most keepItems + 1 entries besides damaged ones. */
  lemma SaveBounded(codec: Codec, s: Store, c: Content)
    requires Faithful(codec) && Sound(codec, s)
    ensures var t := Save(codec, s, c);
            TotalBytes(t.bucket) <= s.maxSize || |t.bucket| <= s.keepItems + 1 + |DamagedOf(codec, s.bucket)|
  {
    var value := codec.encode(c);
    var counted := s.(cacheSize := s.cacheSize + |value|);
    if counted.cacheSize > s.maxSize {
      FlushedLength(codec, counted);
      FlushSound(codec, counted);
      PutBytes(Flush(codec, counted).bucket, Format(c.created), value);
    } else {
      PutBytes(s.bucket, Format(c.created), value);
    }
  }

  /** The older entries that do not decode and the newest keepItems ones: what a flush leaves. */
  function Leftover(codec: Codec, s: Store): seq<Entry> {
    DamagedOf(codec, Oldest(s.bucket, s.keepItems)) + Newest(s.bucket, s.keepItems)
  }

  /** A flush brings the store under its limit exactly when the newest entries and the damaged older ones fit. */
  lemma FlushWithinLimitIff(codec: Codec, s: Store)
    requires Sorted(s.bucket) && KeyedByCreation(codec, s.bucket)
    ensures TotalBytes(Flush(codec, s).bucket) <= s.maxSize <==>
            TotalBytes(DamagedOf(codec, Oldest(s.bucket, s.keepItems))) + TotalBytes(Newest(s.bucket, s.keepItems))
            <= s.maxSize
  {
    FlushKeepsNewest(codec, s);
    TotalBytesConcat(DamagedOf(codec, Oldest(s.bucket, s.keepItems)), Newest(s.bucket, s.keepItems));
  }

  /** One entry larger than the limit: a flush leaves it, and the store over its limit. */
  lemma FlushStaysOver(codec: Codec, e: Entry, maxSize: int)
    requires 0 < maxSize < |e.value|
    ensures var t := Flush(codec, Open([e], maxSize, 1)); t.bucket == [e] && TotalBytes(t.bucket) > t.maxSize
  {
    assert [e][1..] == [];
  }

  /**
   A save ends within the limit exactly when the counter had room for it, or what a flush leaves fits with the
   new entry put among it.
   */
  lemma SaveWithinLimitIff(codec: Codec, s: Store, c: Content)
    requires Faithful(codec) && Sound(codec, s)
    ensures TotalBytes(Save(codec, s, c).bucket) <= s.maxSize <==>
            || s.cacheSize + |codec.encode(c)| <= s.maxSize
            || TotalBytes(Put(Leftover(codec, s), Format(c.created), codec.encode(c))) <= s.maxSize
  {
    hide Format, Put, Flush, Sorted, KeyedByCreation;
    var value := codec.encode(c);
    var counted := s.(cacheSize := s.cacheSize + |value|);
    if counted.cacheSize > s.maxSize {
      FlushKeepsNewest(codec, counted);
    } else {
      PutBytes(s.bucket, Format(c.created), value);
    }
  }

  /** Contents put one after the other, with no flush. */
  function PutAll(codec: Codec, b: seq<Entry>, cs: seq<Content>): seq<Entry>
    decreases |cs|
  {
    if cs == [] then b else PutAll(codec, Put(b, Format(cs[0].created), codec.encode(cs[0])), cs[1..])
  }

  function EncodedBytes(codec: Codec, cs: seq<Content>): nat {
    if cs == [] then 0 else |codec.encode(cs[0])| + EncodedBytes(codec, cs[1..])
  }

  function Saves(cs: seq<Content>): seq<StoreOp> { if cs == [] then [] else [SaveOp(cs[0])] + Saves(cs[1..]) }

  /** Saves that the counter has room for are never interrupted by a flush. */
  lemma {:induction false} NoFlushWhileRoom(codec: Codec, s: Store, cs: seq<Content>)
    requires s.cacheSize + EncodedBytes(codec, cs) <= s.maxSize
    ensures Run(codec, s, Saves(cs)) ==
            s.(bucket := PutAll(codec, s.bucket, cs), cacheSize := s.cacheSize + EncodedBytes(codec, cs))
    decreases |cs|
  {
    hide Put, Format;
    if cs != [] {
      assert Saves(cs)[1..] == Saves(cs[1..]);
      NoFlushWhileRoom(codec, Save(codec, s, cs[0]), cs[1..]);
    }
  }

  /**
   So a flush makes room for as many bytes as its older readable entries had data: saves that fit in what it
   leaves of the limit are made without another one.
   */
  lemma FlushMakesRoom(codec: Codec, s: Store, cs: seq<Content>)
    requires Sorted(s.bucket) && KeyedByCreation(codec, s.bucket)
    requires var older := if |s.bucket| > s.keepItems then s.bucket[..|s.bucket| - s.keepItems] else [];
             s.cacheSize + EncodedBytes(codec, cs) <= s.maxSize + ReadableBytes(codec, older)
    ensures var t := Flush(codec, s);
            Run(codec, t, Saves(cs)) == t.(
              bucket := PutAll(codec, Leftover(codec, s), cs),
              cacheSize := t.cacheSize + EncodedBytes(codec, cs))
  {
    hide Put, Format, Run, PutAll, Sorted, KeyedByCreation, Oldest, Newest;
    FlushTakes(codec, s);
    FlushKeepsNewest(codec, s);
    NoFlushWhileRoom(codec, Flush(codec, s), cs);
  }

  /** Opening over-counts by the key bytes, so the counter starts exact only on an empty bucket. */
  lemma {:induction false} OpenSlack(b: seq<Entry>, maxSize: int, keepItems: int)
    requires forall e :: e in b ==> e.key != []
    ensures Slack(Open(b, maxSize, keepItems)) == KeyBytes(b) >= |b|
  {
    if b != [] { OpenSlack(b[1..], maxSize, keepItems); }
  }

  // ---------- Runs ----------

  datatype StoreOp = SaveOp(content: Content) | FlushOp | ReopenOp

  function Step(codec: Codec, s: Store, op: StoreOp): Store {
    match op
    case SaveOp(c) => Save(codec, s, c)
    case FlushOp => Flush(codec, s)
    case ReopenOp => Open(s.bucket, s.maxSize, s.keepItems)
  }

  function Run(codec: Codec, s: Store, ops: seq<StoreOp>): Store
    decreases |ops|
  {
    if ops == [] then s else Run(codec, Step(codec, s, ops[0]), ops[1..])
  }

  lemma StepSound(codec: Codec, s: Store, op: StoreOp)
    requires Faithful(codec) && Sound(codec, s)
    ensures Sound(codec, Step(codec, s, op))
    ensures Decodable(codec, s.bucket) ==> Decodable(codec, Step(codec, s, op).bucket)
    ensures op != ReopenOp ==> Slack(Step(codec, s, op)) >= Slack(s)
  {
    match op
    case SaveOp(c) => SaveSound(codec, s, c);
    case FlushOp => FlushSound(codec, s); FlushSlack(codec, s);
    case ReopenOp =>
  }

  /** Over every run the counter covers the stored bytes, and its excess only shrinks by reopening. */
  lemma {:induction false} RunSound(codec: Codec, s: Store, ops: seq<StoreOp>)
    requires Faithful(codec) && Sound(codec, s)
    ensures Sound(codec, Run(codec, s, ops))
    ensures Decodable(codec, s.bucket) ==> Decodable(codec, Run(codec, s, ops).bucket)
    ensures ReopenOp !in ops ==> Slack(Run(codec, s, ops)) >= Slack(s)
    ensures Run(codec, s, ops).maxSize == s.maxSize && Run(codec, s, ops).keepItems == s.keepItems
    decreases |ops|
  {
    if ops != [] {
      StepSound(codec, s, ops[0]);
      RunSound(codec, Step(codec, s, ops[0]), ops[1..]);
    }
  }

  /**
   The size guarantee: from any opened bucket of readable entries, through any saves, flushes and
   reopenings, the counter is never below the stored bytes, and after each save the stored bytes are
   within the limit or there are at most keepItems + 1 entries.
   */
  lemma SizeGuarantee(codec: Codec, b: seq<Entry>, maxSize: int, keepItems: int, ops: seq<StoreOp>, c: Content)
    requires Faithful(codec) && Sorted(b) && KeyedByCreation(codec, b) && Decodable(codec, b)
    ensures var s := Run(codec, Open(b, maxSize, keepItems), ops);
            var t := Save(codec, s, c);
            && TotalBytes(s.bucket) <= s.cacheSize && TotalBytes(t.bucket) <= t.cacheSize
            && (TotalBytes(t.bucket) <= t.maxSize || |t.bucket| <= t.keepItems + 1)
  {
    RunSound(codec, Open(b, maxSize, keepItems), ops);
    var s := Run(codec, Open(b, maxSize, keepItems), ops);
    SaveSound(codec, s, c);
    SaveBounded(codec, s, c);
    NoneDamaged(codec, s.bucket);
  }

  // ---------- The latest content ----------

  /** The latest content is that of the entry with the greatest key, decompressed if need be; it may fail to be read. */
  lemma LatestIff(codec: Codec, b: seq<Entry>, c: Content)
    requires Sorted(b)
    ensures Latest(codec, b) == Some(c) <==>
            exists e, stored ::
              && e in b && (forall d :: d in b ==> d == e || Less(d.key, e.key))
              && codec.decode(e.value) == Some(stored) && OpensTo(codec, stored, c)
  {
    hide Less;
    if b != [] {
      var last := b[|b| - 1];
      assert last in b;
      forall d | d in b ensures d == last || Less(d.key, last.key) {
        var i :| 0 <= i < |b| && b[i] == d;
      }
      forall e | e in b && forall d :: d in b ==> d == e || Less(d.key, e.key) ensures e == last {
        if e != last { LessAsymmetric(e.key, last.key); }
      }
    }
  }

  lemma NewestLast(b: seq<Entry>, n: nat)
    requires b != [] && n > 0
    ensures Newest(b, n) != [] && Newest(b, n)[|Newest(b, n)| - 1] == b[|b| - 1]
  {}

  lemma FlushKeepsLast(codec: Codec, s: Store)
    requires Sorted(s.bucket) && KeyedByCreation(codec, s.bucket) && s.keepItems > 0
    ensures var t := Flush(codec, s).bucket;
            if s.bucket == [] then t == [] else t != [] && t[|t| - 1] == s.bucket[|s.bucket| - 1]
  {
    FlushKeepsNewest(codec, s);
    if s.bucket != [] {
      NewestLast(s.bucket, s.keepItems);
      LastOfConcat(DamagedOf(codec, Oldest(s.bucket, s.keepItems)), Newest(s.bucket, s.keepItems));
    }
  }

  lemma RoomKeepsLast(codec: Codec, s: Store)
    requires Sorted(s.bucket) && KeyedByCreation(codec, s.bucket) && s.keepItems > 0
    ensures var t := MakeRoom(codec, s).bucket;
            if s.bucket == [] then t == [] else t != [] && t[|t| - 1] == s.bucket[|s.bucket| - 1]
  {
    FlushKeepsLast(codec, s);
  }

  lemma PutLast(b: seq<Entry>, key: Bytes, value: Bytes)
    requires Sorted(b)
    ensures var p := Put(b, key, value);
            p != [] && p[|p| - 1] == if b == [] || !Less(key, b[|b| - 1].key) then Entry(key, value) else b[|b| - 1]
  {
    hide Less, Seek, Sorted, Below, At, Above;
    AboveHasLast(b, key);
    if Above(b, key) != [] { LastOfConcat(Below(b, key) + [Entry(key, value)], Above(b, key)); }
  }

  lemma AboveHasLast(b: seq<Entry>, key: Bytes)
    requires Sorted(b)
    ensures Above(b, key) != [] <==> b != [] && Less(key, b[|b| - 1].key)
    ensures Above(b, key) != [] ==> Above(b, key)[|Above(b, key)| - 1] == b[|b| - 1]
  {
    hide Less, Seek, Sorted;
    Parts(b, key);
    var hi := Above(b, key);
    if hi != [] {
      assert hi[|hi| - 1] == b[|b| - 1];
    } else if b != [] {
      LessIrreflexive(key);
      assert b[|b| - 1] in Below(b, key) + At(b, key);
      if Less(key, b[|b| - 1].key) { LessAsymmetric(key, b[|b| - 1].key); }
    }
  }

  lemma LastIsKeyed(codec: Codec, b: seq<Entry>)
    requires KeyedByCreation(codec, b) && b != []
    ensures var c := codec.decode(b[|b| - 1].value); c.Some? ==> b[|b| - 1].key == Format(c.value.created)
  {
    hide Format;
    assert b[|b| - 1] in b;
  }

  lemma LatestAfterPutIff(codec: Codec, b: seq<Entry>, c: Content)
    requires Faithful(codec) && Sorted(b) && KeyedByCreation(codec, b) && !c.compressed
    ensures Latest(codec, Put(b, Format(c.created), codec.encode(c))) == Some(c) <==>
            b == [] || !Less(Format(c.created), b[|b| - 1].key)
  {
    hide Format, Put, Sorted, Less, KeyedByCreation;
    PutLast(b, Format(c.created), codec.encode(c));
    LessIrreflexive(Format(c.created));
    if b != [] { LastIsKeyed(codec, b); }
  }

  /** A saved content is the latest one exactly when its key is not below the greatest key. */
  lemma LatestAfterSaveIff(codec: Codec, s: Store, c: Content)
    requires Faithful(codec) && Sound(codec, s) && !c.compressed
    ensures Latest(codec, Save(codec, s, c).bucket) == Some(c) <==>
            s.bucket == [] || !Less(Format(c.created), s.bucket[|s.bucket| - 1].key)
  {
    var counted := s.(cacheSize := s.cacheSize + |codec.encode(c)|);
    RoomSound(codec, counted);
    RoomKeepsLast(codec, counted);
    var room := MakeRoom(codec, counted);
    assert Save(codec, s, c).bucket == Put(room.bucket, Format(c.created), codec.encode(c));
    LatestAfterPutIff(codec, room.bucket, c);
  }
}
