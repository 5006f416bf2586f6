/** The storage object: Bolt cursors and counters updated step by step, each method tied to its model. */
module BoltStorage {
  import opened ByteStrings
  import opened Sequences
  import opened TimeKey
  import opened ClipboardTypes
  import opened Bucket
  import opened StoreModel
  import opened HistoryQuery
  import opened SinceQuery

  /** `rest` is what a cursor at `k` still visits before it runs off the bucket. */
  ghost predicate Along(rest: seq<Entry>, b: seq<Entry>, k: int, step: int) {
    if rest == [] then !(0 <= k < |b|)
    else 0 <= k < |b| && rest[0] == b[k] && Along(rest[1..], b, k + step, step)
  }

  lemma {:induction false} ForwardAlong(b: seq<Entry>, k: nat)
    requires k <= |b|
    ensures Along(b[k..], b, k, 1)
    decreases |b| - k
  {
    if k < |b| {
      ForwardAlong(b, k + 1);
      assert b[k..][1..] == b[k + 1..];
    }
  }

  lemma {:induction false} BackwardAlong(b: seq<Entry>, k: nat)
    requires k <= |b|
    ensures Along(Reversed(b[..k]), b, k - 1, -1)
  {
    if k > 0 {
      BackwardAlong(b, k - 1);
      assert b[..k] == b[..k - 1] + [b[k - 1]];
      ReversedSnoc(b[..k - 1], b[k - 1]);
      assert Reversed(b[..k])[1..] == Reversed(b[..k - 1]);
    }
  }

  class BoltStorage {
    var bucket: seq<Entry>
    var cacheSize: int
    const maxSize: int
    const keepItems: nat
    const codec: Codec

    ghost predicate Valid()
      reads this
    {
      Sorted(bucket) && keepItems > 0 && maxSize > 0
    }

    /** The object as a value of the model. */
    function State(): Store
      reads this
    {
      Store(bucket, cacheSize, maxSize, keepItems)
    }

    /** The entries before the newest keepItems. */
    function BeforeNewest(): seq<Entry>
      reads this
    {
      if |bucket| > keepItems then bucket[..|bucket| - keepItems] else []
    }

    /** `NewBoltStorage` on a file that holds `stored`. */
    constructor (stored: seq<Entry>, configMaxSize: int, configKeepItems: int, codec: Codec)
      requires Sorted(stored)
      ensures Valid() && this.codec == codec
      ensures State() == Open(stored, configMaxSize, configKeepItems)
    {
      maxSize := if configMaxSize <= 0 then DEFAULT_MAX_SIZE else configMaxSize;
      keepItems := if configKeepItems <= 0 then DEFAULT_KEEP_ITEMS else configKeepItems;
      this.codec := codec;
      bucket := stored;
      cacheSize := 0;
      new;
      var size := 0;
      for i := 0 to |stored|
        invariant size + KeyBytes(stored[i..]) + TotalBytes(stored[i..]) == KeyBytes(stored) + TotalBytes(stored)
        invariant bucket == stored
      {
        assert stored[i..][0] == stored[i] && stored[i..][1..] == stored[i + 1..];
        size := size + |stored[i].key| + |stored[i].value|;
      }
      assert stored[|stored|..] == [];
      cacheSize := size;
    }

    method SaveContent(content: Content)
      requires Valid()
      modifies this
      ensures Valid()
      ensures State() == Save(codec, old(State()), content)
      ensures var counted := old(cacheSize) + |codec.encode(content)|;
              cacheSize == if counted > maxSize then counted - ReadableBytes(codec, old(BeforeNewest())) else counted
    {
      hide Format, Put, Flush, ReadableBytes, Less;
      SaveTakes(codec, State(), content);
      var encoded := codec.encode(content);
      cacheSize := cacheSize + |encoded|;
      if cacheSize > maxSize {
        FlushOldestContent();
      }
      PutSorted(bucket, Format(content.created), encoded);
      bucket := Put(bucket, Format(content.created), encoded);
    }

    method GetLatestContent() returns (content: Option<Content>)
      ensures content == Latest(codec, bucket)
    {
      if bucket == [] { return None; }
      match codec.decode(bucket[|bucket| - 1].value) {
        case None => return None;
        case Some(c) => return Opened(codec, c);
      }
    }

    /** All contents from the seek position on; the first unreadable entry ends the scan with an error. */
    method GetContentSince(since: Time) returns (contents: seq<Content>, ok: bool)
      requires Valid()
      ensures (contents, ok) == ReadAll(codec, bucket[Seek(bucket, Format(since))..])
    {
      var k := Seek(bucket, Format(since));
      ghost var path := bucket[k..];
      contents := [];
      EmptyPrefix(ReadAll(codec, path).0);
      while k < |bucket|
        invariant 0 <= k <= |bucket|
        invariant ReadAll(codec, path).0 == contents + ReadAll(codec, bucket[k..]).0
        invariant ReadAll(codec, path).1 == ReadAll(codec, bucket[k..]).1
      {
        assert bucket[k..][0] == bucket[k] && bucket[k..][1..] == bucket[k + 1..];
        var c := ReadEntry(codec, bucket[k]);
        if c.None? {
          assert contents + [] == contents;
          return contents, false;
        }
        Associative(contents, [c.value], ReadAll(codec, bucket[k + 1..]).0);
        contents := contents + [c.value];
        k := k + 1;
      }
      assert contents + [] == contents;
      ok := true;
    }

    /** `GetContentSince` with Go's zero time. */
    method GetAllContents() returns (contents: seq<Content>, ok: bool)
      requires Valid()
      ensures (contents, ok) == ReadAll(codec, bucket[Seek(bucket, Format(ZERO_TIME))..])
    {
      contents, ok := GetContentSince(ZERO_TIME);
    }

    /** Walk back over the keys to keep, then forward over everything, keeping what was marked. */
    method CollectItemsToFlush() returns (itemsToFlush: seq<Content>)
      requires Valid()
      ensures itemsToFlush == ItemsToFlush(codec, State())
    {
      var keepKeys: seq<Bytes> := [];
      var k := |bucket| - 1;
      while k >= 0 && |keepKeys| < keepItems
        invariant -1 <= k < |bucket|
        invariant |keepKeys| == |bucket| - 1 - k <= keepItems
        invariant forall i :: 0 <= i < |keepKeys| ==> keepKeys[i] == bucket[|bucket| - 1 - i].key
      {
        keepKeys := keepKeys + [bucket[k].key];
        k := k - 1;
      }
      ghost var cut := k + 1;
      assert Oldest(bucket, keepItems) == bucket[..cut];

      itemsToFlush := [];
      for i := 0 to |bucket|
        invariant itemsToFlush == Chosen(Decoder(codec), bucket[..if i < cut then i else cut])
      {
        var shouldKeep := bucket[i].key in keepKeys;
        KeptKeys(bucket, keepKeys, cut, i);
        if !shouldKeep {
          ChosenSnoc(Decoder(codec), bucket, i);
          match codec.decode(bucket[i].value) {
            case None =>
            case Some(content) => itemsToFlush := itemsToFlush + [content];
          }
        }
      }
    }

    method DeleteItemsFromBucket(itemsToDelete: seq<Content>)
      requires Valid()
      modifies this
      ensures Valid()
      ensures bucket == DeleteAll(old(bucket), itemsToDelete)
      ensures cacheSize == old(cacheSize) - DataBytes(itemsToDelete)
    {
      var totalFreed := 0;
      for i := 0 to |itemsToDelete|
        invariant Valid() && cacheSize == old(cacheSize)
        invariant DeleteAll(bucket, itemsToDelete[i..]) == DeleteAll(old(bucket), itemsToDelete)
        invariant totalFreed + DataBytes(itemsToDelete[i..]) == DataBytes(itemsToDelete)
      {
        assert itemsToDelete[i..][0] == itemsToDelete[i] && itemsToDelete[i..][1..] == itemsToDelete[i + 1..];
        var key := Format(itemsToDelete[i].created);
        PutSorted(bucket, key, []);
        bucket := Delete(bucket, key);
        totalFreed := totalFreed + |itemsToDelete[i].data|;
      }
      assert itemsToDelete[|itemsToDelete|..] == [];
      cacheSize := cacheSize - totalFreed;
    }

    method FlushOldestContent()
      requires Valid()
      modifies this
      ensures Valid()
      ensures State() == Flush(codec, old(State()))
      ensures cacheSize == old(cacheSize) - ReadableBytes(codec, old(BeforeNewest()))
    {
      FlushTakes(codec, State());
      var itemsToFlush := CollectItemsToFlush();
      DeleteItemsFromBucket(itemsToFlush);
    }

    /** Close flushes before it lets go of the file. */
    method Close() returns (stored: seq<Entry>)
      requires Valid()
      modifies this
      ensures Valid() && stored == bucket
      ensures State() == Flush(codec, old(State()))
    {
      FlushOldestContent();
      stored := bucket;
    }

    /** Where the options place the cursor, and which way it moves. */
    method PlaceCursor(options: HistoryOptions) returns (k: int, step: int)
      ensures Along(Path(options, bucket), bucket, k, step)
    {
      if options.reverse {
        step := -1;
        if !IsZero(options.before) {
          var i := Seek(bucket, Format(options.before));
          BackwardAlong(bucket, i);
          k := if i < |bucket| then i - 1 else -1;
        } else {
          BackwardAlong(bucket, |bucket|);
          assert bucket[..|bucket|] == bucket;
          k := |bucket| - 1;
        }
      } else {
        step := 1;
        if !IsZero(options.since) {
          k := Seek(bucket, Format(options.since));
        } else {
          k := 0;
          assert bucket[0..] == bucket;
        }
        ForwardAlong(bucket, k);
      }
    }

    /** The cursor loop: filter each entry on the way, stop at the limit. */
    method Scan(options: HistoryOptions, start: int, step: int, ghost path: seq<Entry>) returns (contents: seq<Content>)
      requires Along(path, bucket, start, step)
      ensures contents == Limited(options.limit, Selected(codec, options, path))
    {
      var k := start;
      ghost var rest := path;
      contents := [];
      var count := 0;
      EmptyPrefix(Selected(codec, options, path));
      while 0 <= k < |bucket|
        invariant Along(rest, bucket, k, step)
        invariant contents + Selected(codec, options, rest) == Selected(codec, options, path)
        invariant count == |contents| && (options.limit > 0 ==> count < options.limit)
        decreases |rest|
      {
        var selected := Select(codec, options, bucket[k]);
        ScanStep(codec, options, contents, rest);
        if selected.Some? {
          contents := contents + [selected.value];
          count := count + 1;
          if options.limit > 0 && count >= options.limit {
            LimitReached(contents, Selected(codec, options, rest[1..]), options.limit);
            return;
          }
        }
        k, rest := k + step, rest[1..];
      }
      assert contents + [] == contents;
    }

    method GetHistory(options: HistoryOptions) returns (contents: seq<Content>)
      requires Valid()
      ensures contents == History(codec, options, bucket)
    {
      var k, step := PlaceCursor(options);
      contents := Scan(options, k, step, Path(options, bucket));
    }
  }

  lemma ScanStep(codec: Codec, o: HistoryOptions, contents: seq<Content>, rest: seq<Entry>)
    requires rest != []
    ensures var selected := Select(codec, o, rest[0]);
            contents + Selected(codec, o, rest) ==
            (if selected.Some? then contents + [selected.value] else contents) + Selected(codec, o, rest[1..])
  {
    var selected := Selector(codec, o)(rest[0]);
    Associative(contents, OneChosen(selected), Selected(codec, o, rest[1..]));
    assert contents + [] == contents;
  }

  /** Once the limit is reached what follows cannot matter. */
  lemma LimitReached<T>(a: seq<T>, b: seq<T>, limit: int)
    requires |a| == limit > 0
    ensures Limited(limit, a + b) == a
  {}

  /** Exactly the entries from `cut` on have one of the kept keys. */
  lemma KeptKeys(b: seq<Entry>, keepKeys: seq<Bytes>, cut: int, i: int)
    requires Sorted(b) && 0 <= cut <= |b| && 0 <= i < |b| && |keepKeys| == |b| - cut
    requires forall j :: 0 <= j < |keepKeys| ==> keepKeys[j] == b[|b| - 1 - j].key
    ensures b[i].key in keepKeys <==> i >= cut
  {
    if i >= cut {
      assert keepKeys[|b| - 1 - i] == b[i].key;
    } else if b[i].key in keepKeys {
      var j :| 0 <= j < |keepKeys| && keepKeys[j] == b[i].key;
      assert Less(b[i].key, b[|b| - 1 - j].key);
      LessIrreflexive(b[i].key);
    }
  }
}
