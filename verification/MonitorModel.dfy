/** The monitor's decisions over whole runs, with restarts through the store in between. */
module MonitorModel {
  import opened ByteStrings
  import opened Trimming
  import opened Sequences
  import opened TimeKey
  import opened ZoneChanges
  import opened ClipboardTypes
  import opened Bucket
  import opened StoreModel
  import opened ContentProcessing

  const SAME_CONTENT_WINDOW := 5_000_000_000

  /** What the monitor is built from; `detect` is the content-type heuristic. */
  datatype Config = Config(maxSize: int, existing: Bytes -> Bytes, detect: Bytes -> ContentType, codec: Codec)

  /** `accepted` records every content saved since the record began. */
  datatype MonitorState = MonitorState(last: Option<Content>, store: Store, accepted: seq<Content>)

  // ---------- One content ----------

  predicate SameCopy(c: Content, d: Content) {
    c.kind == d.kind && c.data == d.data && Instant(c.created) - Instant(d.created) <= SAME_CONTENT_WINDOW
  }

  /** `isContentEqual(c, last)` for a content that is there. */
  predicate EqualToLast(c: Content, last: Option<Content>) { last.Some? && SameCopy(c, last.value) }

  /** `Process` then `prepareContent`. */
  function Normalized(cfg: Config, c: Content): Option<Content> {
    match Processed(MonitorProcessor(cfg.maxSize, cfg.existing), c)
    case None => None
    case Some(d) => Some(d.(kind := cfg.detect(d.data)))
  }

  /** Whether a content is handled as new and survives normalisation. */
  predicate Accepts(cfg: Config, m: MonitorState, c: Content) { !EqualToLast(c, m.last) && Normalized(cfg, c).Some? }

  /** The loop body of `monitorClipboard`. */
  function Handle(cfg: Config, m: MonitorState, c: Content): MonitorState {
    if EqualToLast(c, m.last) then m
    else match Normalized(cfg, c)
      case None => m
      case Some(d) => MonitorState(Some(d), Save(cfg.codec, m.store, d), m.accepted + [d])
  }

  /** Close the store, open it again, and start a new monitor on it. */
  function Restart(cfg: Config, m: MonitorState): MonitorState {
    var flushed := Flush(cfg.codec, m.store);
    var reopened := Open(flushed.bucket, flushed.maxSize, flushed.keepItems);
    MonitorState(Latest(cfg.codec, reopened.bucket), reopened, m.accepted)
  }

  /** A monitor started on `store`. */
  function Started(cfg: Config, store: Store): MonitorState {
    MonitorState(Latest(cfg.codec, store.bucket), store, [])
  }

  // ---------- Runs ----------

  datatype Event = Copied(content: Content) | Restarted

  function Step(cfg: Config, m: MonitorState, e: Event): MonitorState {
    match e
    case Copied(c) => Handle(cfg, m, c)
    case Restarted => Restart(cfg, m)
  }

  function Run(cfg: Config, m: MonitorState, events: seq<Event>): MonitorState
    decreases |events|
  {
    if events == [] then m else Run(cfg, Step(cfg, m, events[0]), events[1..])
  }

  function WithoutRestarts(events: seq<Event>): seq<Event> {
    if events == [] then []
    else (if events[0].Copied? then [events[0]] else []) + WithoutRestarts(events[1..])
  }

  /** No copied content has a key below `floor` or below that of an earlier one, and none is compressed. */
  ghost predicate KeysNeverFall(events: seq<Event>, floor: Bytes) {
    events != [] ==>
      match events[0]
      case Restarted => KeysNeverFall(events[1..], floor)
      case Copied(c) =>
        && !c.compressed && !Less(Format(c.created), floor)
        && KeysNeverFall(events[1..], Format(c.created))
  }

  // ---------- lastContent is the latest stored content ----------

  /** The greatest key; empty for an empty bucket. */
  function LastKey(b: seq<Entry>): Bytes { if b == [] then [] else b[|b| - 1].key }

  /** The monitor remembers exactly what the store would give back. */
  ghost predicate InStep(cfg: Config, m: MonitorState) {
    && Sound(cfg.codec, m.store)
    && m.last == Latest(cfg.codec, m.store.bucket)
    && (m.last.None? ==> m.store.bucket == [])
  }

  lemma LastKeyIsLast(cfg: Config, m: MonitorState)
    requires Faithful(cfg.codec) && InStep(cfg, m) && m.last.Some?
    ensures LastKey(m.store.bucket) == Format(m.last.value.created)
  {
    var b := m.store.bucket;
    assert b[|b| - 1] in b;
  }

  lemma NormalizedKeeps(cfg: Config, c: Content)
    ensures var d := Normalized(cfg, c);
            d.Some? ==> d.value.created == c.created && d.value.compressed == c.compressed
  {
    MonitorProcessing(cfg.maxSize, cfg.existing, c);
  }

  /**
   Handling a content leaves the monitor in step with its store exactly when the content is not
   accepted or its key is not below the greatest one.
   */
  lemma HandleInStepIff(cfg: Config, m: MonitorState, c: Content)
    requires Faithful(cfg.codec) && InStep(cfg, m) && !c.compressed
    ensures InStep(cfg, Handle(cfg, m, c)) <==>
            || EqualToLast(c, m.last) || Normalized(cfg, c) == None
            || !Less(Format(c.created), LastKey(m.store.bucket))
  {
    if !EqualToLast(c, m.last) && Normalized(cfg, c).Some? {
      var d := Normalized(cfg, c).value;
      NormalizedKeeps(cfg, c);
      SaveSound(cfg.codec, m.store, d);
      LatestAfterSaveIff(cfg.codec, m.store, d);
    }
  }

  /** Handling a content never lowers the greatest key below that of a content it is not below. */
  lemma HandleLastKey(cfg: Config, m: MonitorState, c: Content)
    requires Faithful(cfg.codec) && InStep(cfg, m) && !c.compressed
    requires !Less(Format(c.created), LastKey(m.store.bucket))
    ensures !Less(Format(c.created), LastKey(Handle(cfg, m, c).store.bucket))
  {
    HandleInStepIff(cfg, m, c);
    var n := Handle(cfg, m, c);
    if n != m {
      NormalizedKeeps(cfg, c);
      LastKeyIsLast(cfg, n);
      LessIrreflexive(Format(c.created));
    }
  }

  /** Closing, reopening and starting again loses nothing that the monitor remembers. */
  lemma RestartInStep(cfg: Config, m: MonitorState)
    requires Faithful(cfg.codec) && InStep(cfg, m)
    ensures InStep(cfg, Restart(cfg, m))
    ensures Restart(cfg, m).last == m.last
    ensures LastKey(Restart(cfg, m).store.bucket) == LastKey(m.store.bucket)
  {
    FlushSound(cfg.codec, m.store);
    FlushKeepsLast(cfg.codec, m.store);
  }

  /** What a restart leaves of the store: the newest keepItems entries and older unreadable ones, counted anew. */
  lemma RestartShrinks(cfg: Config, m: MonitorState)
    requires Sound(cfg.codec, m.store)
    ensures var b := m.store.bucket;
            var k := if |b| > m.store.keepItems then |b| - m.store.keepItems else 0;
            var t := Restart(cfg, m).store;
            && t.bucket == DamagedOf(cfg.codec, b[..k]) + b[k..]
            && t == m.store.(bucket := t.bucket, cacheSize := KeyBytes(t.bucket) + TotalBytes(t.bucket))
            && Restart(cfg, m).accepted == m.accepted
  {
    hide Sorted, KeyedByCreation, Flush, Latest;
    FlushKeepsNewest(cfg.codec, m.store);
    OldestIsPrefix(m.store.bucket, m.store.keepItems);
    FlushKeepsBounds(cfg.codec, m.store);
  }

  lemma FlushKeepsBounds(codec: Codec, s: Store)
    ensures Flush(codec, s).maxSize == s.maxSize && Flush(codec, s).keepItems == s.keepItems
  {}

  // ---------- Restarts cannot be noticed ----------

  lemma LowerFloor(events: seq<Event>, high: Bytes, low: Bytes)
    requires KeysNeverFall(events, high) && !Less(high, low)
    ensures KeysNeverFall(events, low)
  {
    if events != [] {
      match events[0]
      case Restarted => LowerFloor(events[1..], high, low);
      case Copied(c) =>
        NotLessTransitive(Format(c.created), high, low);
    }
  }

  /** Two monitors that cannot be told apart, whatever their stores still hold. */
  ghost predicate Alike(cfg: Config, m: MonitorState, n: MonitorState) {
    InStep(cfg, m) && InStep(cfg, n) && m.last == n.last && m.accepted == n.accepted
  }

  lemma AlikeKeys(cfg: Config, m: MonitorState, n: MonitorState)
    requires Faithful(cfg.codec) && Alike(cfg, m, n)
    ensures LastKey(m.store.bucket) == LastKey(n.store.bucket)
  {
    if m.last.Some? {
      LastKeyIsLast(cfg, m);
      LastKeyIsLast(cfg, n);
    }
  }

  lemma HandleAlike(cfg: Config, m: MonitorState, n: MonitorState, c: Content)
    requires Faithful(cfg.codec) && Alike(cfg, m, n) && !c.compressed
    requires !Less(Format(c.created), LastKey(m.store.bucket))
    ensures Alike(cfg, Handle(cfg, m, c), Handle(cfg, n, c))
    ensures !Less(Format(c.created), LastKey(Handle(cfg, m, c).store.bucket))
  {
    AlikeKeys(cfg, m, n);
    HandleInStepIff(cfg, m, c);
    HandleInStepIff(cfg, n, c);
    HandleLastKey(cfg, m, c);
  }

  lemma {:induction false} RunsAlike(cfg: Config, m: MonitorState, n: MonitorState, events: seq<Event>)
    requires Faithful(cfg.codec) && Alike(cfg, m, n) && KeysNeverFall(events, LastKey(m.store.bucket))
    ensures Alike(cfg, Run(cfg, m, events), Run(cfg, n, WithoutRestarts(events)))
    decreases |events|
  {
    if events != [] {
      var rest := events[1..];
      match events[0]
      case Restarted =>
        RestartInStep(cfg, m);
        RunsAlike(cfg, Restart(cfg, m), n, rest);
        EmptyPrefix(WithoutRestarts(rest));
      case Copied(c) =>
        HandleAlike(cfg, m, n, c);
        LowerFloor(rest, Format(c.created), LastKey(Handle(cfg, m, c).store.bucket));
        RunsAlike(cfg, Handle(cfg, m, c), Handle(cfg, n, c), rest);
        RunFirst(cfg, n, events[0], WithoutRestarts(rest));
    }
  }

  lemma RunFirst(cfg: Config, m: MonitorState, e: Event, rest: seq<Event>)
    ensures Run(cfg, m, [e] + rest) == Run(cfg, Step(cfg, m, e), rest)
  {
    assert ([e] + rest)[1..] == rest;
  }

  /**
   Restart transparency. Start on any sound store whose newest entry can be read, copy contents whose
   keys never fall, and restart anywhere, any number of times: the monitor accepts the same contents
   in the same order and remembers the same last one as if it had never stopped; and that one is the
   latest content of the store.
   */
  lemma RestartsAreInvisible(cfg: Config, store: Store, events: seq<Event>)
    requires Faithful(cfg.codec) && Sound(cfg.codec, store)
    requires store.bucket == [] || Latest(cfg.codec, store.bucket).Some?
    requires KeysNeverFall(events, LastKey(store.bucket))
    ensures var m := Run(cfg, Started(cfg, store), events);
            var n := Run(cfg, Started(cfg, store), WithoutRestarts(events));
            && m.accepted == n.accepted && m.last == n.last
            && m.last == Latest(cfg.codec, m.store.bucket)
  {
    RunsAlike(cfg, Started(cfg, store), Started(cfg, store), events);
  }

  /** A restart makes the monitor forget what it has just accepted exactly when that has a falling key. */
  lemma RestartForgetsIff(cfg: Config, m: MonitorState, c: Content)
    requires Faithful(cfg.codec) && InStep(cfg, m) && !c.compressed
    ensures Accepts(cfg, m, c) ==>
              var n := Handle(cfg, m, c);
              Restart(cfg, n).last == n.last <==> !Less(Format(c.created), LastKey(m.store.bucket))
  {
    hide Format, Less, Save, Restart, Normalized, EqualToLast, Latest, Sound;
    if Accepts(cfg, m, c) {
      var n := Handle(cfg, m, c);
      var d := Normalized(cfg, c).value;
      NormalizedKeeps(cfg, c);
      SaveSound(cfg.codec, m.store, d);
      LatestAfterSaveIff(cfg.codec, m.store, d);
      RestartKeepsLatest(cfg, n);
      NothingBelowEmpty(Format(c.created));
    }
  }

  /** In terms of times, of any zones: exactly when the content accepted has an earlier key than the last one. */
  lemma RestartForgetsByClockIff(cfg: Config, m: MonitorState, c: Content)
    requires Faithful(cfg.codec) && InStep(cfg, m) && m.last.Some? && !c.compressed
    ensures Accepts(cfg, m, c) ==>
              var n := Handle(cfg, m, c);
              Restart(cfg, n).last == n.last <==> !KeyEarlier(c.created, m.last.value.created)
  {
    hide Format, InStep, Handle, Restart, Normalized, EqualToLast, KeyEarlier;
    RestartForgetsIff(cfg, m, c);
    LastKeyIsLast(cfg, m);
    KeysCompareByWallClock(c.created, m.last.value.created);
  }

  /** In UTC, for a content no earlier than the last one: exactly when their times clash in one second. */
  lemma UtcRestartForgetsIff(cfg: Config, m: MonitorState, c: Content)
    requires Faithful(cfg.codec) && InStep(cfg, m) && m.last.Some? && !c.compressed
    ensures var n := Handle(cfg, m, c);
            var last := m.last.value.created;
            Accepts(cfg, m, c) && c.created.offset == last.offset == 0 && Instant(last) <= Instant(c.created) ==>
              (Restart(cfg, n).last == n.last <==> !PrefixClash(c.created, last))
  {
    hide Format, InStep, Handle, Restart, Normalized, EqualToLast, KeyEarlier, WallSeconds;
    RestartForgetsByClockIff(cfg, m, c);
    var last := m.last.value.created;
    KeysCompareByWallClock(c.created, last);
    if c.created.offset == last.offset {
      KeyOrder(c.created, last);
      if PrefixClash(c.created, last) { ClashingTimesDiffer(c.created, last); }
    }
  }

  /** Two contents of one second in UTC, copied in time order: the second is remembered until the restart. */
  lemma RestartForgets(cfg: Config, c: Content, d: Content)
    requires Faithful(cfg.codec) && Fixed(cfg, c) && Fixed(cfg, d) && !c.compressed && !d.compressed && c.data != d.data
    requires c.created == Stamp(2024, 5, 1, 12, 0, 5, 0, 0) && d.created == Stamp(2024, 5, 1, 12, 0, 5, 500_000_000, 0)
    ensures var n := Run(cfg, Started(cfg, Open([], 0, 0)), [Copied(c), Copied(d)]);
            n.last == Some(d) && Restart(cfg, n).last != n.last
  {
    hide Format, KeyEarlier, Less, Normalized, Restart, Save, SameCopy;
    var start := Started(cfg, Open([], 0, 0));
    assert InStep(cfg, start) && LastKey(start.store.bucket) == [];
    var m := Handle(cfg, start, c);
    NothingBelowEmpty(Format(c.created));
    HandleInStepIff(cfg, start, c);
    OtherDataDiffers(c, d);
    UtcCounterexample();
    KeysCompareByWallClock(d.created, c.created);
    RestartForgetsByClockIff(cfg, m, d);
    RunFirst(cfg, start, Copied(c), [Copied(d)]);
    RunFirst(cfg, m, Copied(d), []);
    assert [Copied(c), Copied(d)] == [Copied(c)] + [Copied(d)] && [Copied(d)] == [Copied(d)] + [];
  }

  lemma NothingBelowEmpty(s: Bytes)
    ensures !Less(s, [])
  {}

  lemma OtherDataDiffers(c: Content, d: Content)
    requires c.data != d.data
    ensures !SameCopy(d, c)
  {}

  lemma RestartKeepsLatest(cfg: Config, m: MonitorState)
    requires Faithful(cfg.codec) && Sound(cfg.codec, m.store)
    ensures Restart(cfg, m).last == Latest(cfg.codec, m.store.bucket)
  {
    FlushKeepsLast(cfg.codec, m.store);
  }

  /** No content is copied whose time, in any zone, has an earlier key than one copied before. */
  ghost predicate ClockNeverBack(events: seq<Event>) {
    && (forall e :: e in events && e.Copied? ==> !e.content.compressed)
    && (forall i, j :: 0 <= i < j < |events| && events[i].Copied? && events[j].Copied? ==>
          !KeyEarlier(events[j].content.created, events[i].content.created))
  }

  lemma {:induction false} ClockedEventsNeverFall(events: seq<Event>, floor: Bytes)
    requires ClockNeverBack(events)
    requires forall e :: e in events && e.Copied? ==> !Less(Format(e.content.created), floor)
    ensures KeysNeverFall(events, floor)
  {
    hide Format, Less, KeyEarlier;
    if events != [] {
      assert events[0] in events && forall e :: e in events[1..] ==> e in events;
      match events[0]
      case Restarted => ClockedEventsNeverFall(events[1..], floor);
      case Copied(c) =>
        forall e | e in events[1..] && e.Copied? ensures !Less(Format(e.content.created), Format(c.created)) {
          KeysCompareByWallClock(e.content.created, c.created);
        }
        ClockedEventsNeverFall(events[1..], Format(c.created));
    }
  }

  /** Restart transparency by the clock: no key in sight, and zones may change as long as the clock never goes back. */
  lemma RestartsAreInvisibleByClock(cfg: Config, maxSize: int, keepItems: int, events: seq<Event>)
    requires Faithful(cfg.codec) && ClockNeverBack(events)
    ensures var start := Started(cfg, Open([], maxSize, keepItems));
            var m, n := Run(cfg, start, events), Run(cfg, start, WithoutRestarts(events));
            m.accepted == n.accepted && m.last == n.last == Latest(cfg.codec, m.store.bucket)
  {
    hide Run, Instant, Format, Started, Latest, ClockNeverBack;
    ClockedEventsNeverFall(events, []);
    RestartsAreInvisible(cfg, Open([], maxSize, keepItems), events);
  }

  /** In one numeric zone that is a clock that never goes back. */
  lemma NumericZoneNeverBack(events: seq<Event>, offset: int)
    requires offset != 0
    requires forall e :: e in events && e.Copied? ==> !e.content.compressed && e.content.created.offset == offset
    requires forall i, j :: 0 <= i < j < |events| && events[i].Copied? && events[j].Copied? ==>
               Instant(events[i].content.created) <= Instant(events[j].content.created)
    ensures ClockNeverBack(events)
  {
    hide Format, Instant, KeyEarlier;
    forall i, j | 0 <= i < j < |events| && events[i].Copied? && events[j].Copied?
      ensures !KeyEarlier(events[j].content.created, events[i].content.created)
    {
      assert events[i] in events && events[j] in events;
      KeysCompareByWallClock(events[j].content.created, events[i].content.created);
      NumericOffsetKeysSortAsTimes(events[j].content.created, events[i].content.created);
    }
  }

  // ---------- Deduplication ----------

  /** A content that processing and type detection leave as it is. */
  predicate Fixed(cfg: Config, c: Content) { Normalized(cfg, c) == Some(c) }

  predicate NoAdjacentCopies(cs: seq<Content>) {
    forall i :: 0 <= i < |cs| - 1 ==> !SameCopy(cs[i + 1], cs[i])
  }

  lemma {:induction false} RunKeepsApart(cfg: Config, m: MonitorState, events: seq<Event>)
    requires forall e :: e in events ==> e.Copied? && Fixed(cfg, e.content)
    requires NoAdjacentCopies(m.accepted)
    requires m.accepted != [] ==> m.last == Some(m.accepted[|m.accepted| - 1])
    ensures NoAdjacentCopies(Run(cfg, m, events).accepted)
    decreases |events|
  {
    if events != [] {
      assert events[0] in events;
      RunKeepsApart(cfg, Step(cfg, m, events[0]), events[1..]);
    }
  }

  lemma {:induction false} WithoutRestartsFrom(events: seq<Event>)
    ensures forall e :: e in WithoutRestarts(events) ==> e in events && e.Copied?
  {
    if events != [] { WithoutRestartsFrom(events[1..]); }
  }

  /**
   Deduplication over runs: fed contents that normalisation leaves alone, with keys that never fall,
   a monitor never accepts two in a row with equal type and data within five seconds, restarts or not.
   */
  lemma AcceptedContentsDiffer(cfg: Config, store: Store, events: seq<Event>)
    requires Faithful(cfg.codec) && Sound(cfg.codec, store)
    requires store.bucket == [] || Latest(cfg.codec, store.bucket).Some?
    requires KeysNeverFall(events, LastKey(store.bucket))
    requires forall e :: e in events && e.Copied? ==> Fixed(cfg, e.content)
    ensures var r := Run(cfg, Started(cfg, store), events).accepted;
            forall i :: 0 <= i < |r| - 1 ==>
              r[i].kind != r[i + 1].kind || r[i].data != r[i + 1].data ||
              Instant(r[i + 1].created) - Instant(r[i].created) > 5_000_000_000
  {
    RestartsAreInvisible(cfg, store, events);
    WithoutRestartsFrom(events);
    RunKeepsApart(cfg, Started(cfg, store), WithoutRestarts(events));
    assert NoAdjacentCopies(Run(cfg, Started(cfg, store), events).accepted);
  }

  /** The contents copied, in order. */
  function Copies(events: seq<Event>): seq<Content> {
    if events == [] then []
    else (if events[0].Copied? then [events[0].content] else []) + Copies(events[1..])
  }

  /** `cs` without each content that repeats the one kept last, same type and data, within five seconds of it. */
  function Deduplicated(last: Option<Content>, cs: seq<Content>): seq<Content>
    decreases |cs|
  {
    if cs == [] then []
    else if last.Some? && cs[0].kind == last.value.kind && cs[0].data == last.value.data &&
            Instant(cs[0].created) - Instant(last.value.created) <= 5_000_000_000
    then Deduplicated(last, cs[1..])
    else [cs[0]] + Deduplicated(Some(cs[0]), cs[1..])
  }

  lemma {:induction false} CopiesOf(events: seq<Event>)
    ensures Copies(WithoutRestarts(events)) == Copies(events)
  {
    if events != [] {
      CopiesOf(events[1..]);
      if events[0].Copied? {
        assert WithoutRestarts(events)[1..] == WithoutRestarts(events[1..]);
      } else {
        EmptyPrefix(WithoutRestarts(events[1..]));
      }
    }
  }

  lemma {:induction false} RunDeduplicates(cfg: Config, m: MonitorState, events: seq<Event>)
    requires forall e :: e in events ==> e.Copied? && Fixed(cfg, e.content)
    ensures Run(cfg, m, events).accepted == m.accepted + Deduplicated(m.last, Copies(events))
    decreases |events|
  {
    hide Normalized, Instant, Save;
    if events == [] {
      assert m.accepted + [] == m.accepted;
    } else {
      var c := events[0].content;
      assert events[0] in events && events[0] == Copied(c);
      RunDeduplicates(cfg, Step(cfg, m, events[0]), events[1..]);
      assert Copies(events)[1..] == Copies(events[1..]);
      Associative(m.accepted, [c], Deduplicated(Some(c), Copies(events[1..])));
    }
  }

  /** So over every such run, restarts or not, the monitor accepts exactly the contents copied less those repeats. */
  lemma AcceptedIsDeduplicated(cfg: Config, store: Store, events: seq<Event>)
    requires Faithful(cfg.codec) && Sound(cfg.codec, store)
    requires store.bucket == [] || Latest(cfg.codec, store.bucket).Some?
    requires KeysNeverFall(events, LastKey(store.bucket))
    requires forall e :: e in events && e.Copied? ==> Fixed(cfg, e.content)
    ensures Run(cfg, Started(cfg, store), events).accepted ==
            Deduplicated(Latest(cfg.codec, store.bucket), Copies(events))
  {
    hide Fixed, Run, Latest, Deduplicated, KeysNeverFall, Sound;
    RestartsAreInvisible(cfg, store, events);
    WithoutRestartsFrom(events);
    RunDeduplicates(cfg, Started(cfg, store), WithoutRestarts(events));
    CopiesOf(events);
    EmptyPrefix(Deduplicated(Latest(cfg.codec, store.bucket), Copies(events)));
  }

  /**
   What normalisation makes of a content: dropped when too long; else a text is cut to what lies between white
   space, a file list to its accessible files, and the type is detected from the result.
   */
  lemma NormalizedIff(cfg: Config, c: Content, d: Content)
    ensures Normalized(cfg, c) == Some(d) <==>
            && |c.data| <= cfg.maxSize
            && d == c.(data := d.data, kind := cfg.detect(d.data))
            && (if c.kind in {"text", "string", "url"} then Middle(c.data, d.data)
                else if c.kind == "file" then d.data == cfg.existing(c.data)
                else d.data == c.data)
  {
    hide TrimSpace, Middle, MonitorProcessor;
    MonitorProcessing(cfg.maxSize, cfg.existing, c);
    MiddleIsTrimmed(c.data, d.data);
    ProcessorFields(cfg.maxSize, cfg.existing);
  }

  lemma ProcessorFields(maxSize: int, existing: Bytes -> Bytes)
    ensures MonitorProcessor(maxSize, existing).existing == existing
  {}

  /** The contents that normalisation leaves alone: clean ends, every listed file accessible, type as detected. */
  lemma FixedIff(cfg: Config, c: Content)
    ensures Fixed(cfg, c) <==>
            && |c.data| <= cfg.maxSize && cfg.detect(c.data) == c.kind
            && (c.kind in {TYPE_TEXT, TYPE_STRING, TYPE_URL} ==>
                  CleanEnds(c.data))
            && (c.kind == TYPE_FILE ==> cfg.existing(c.data) == c.data)
  {
    hide TrimSpace, LeadingSpace, TrailingSpace, CleanEnds;
    MonitorProcessing(cfg.maxSize, cfg.existing, c);
    TrimSpaceFixed(c.data);
    CleanEndsIff(c.data);
  }

  /**
   Without that the promise fails: a content that arrives again right after it was accepted is recognised
   exactly when normalisation leaves it alone and no more than the window has passed; otherwise it is
   accepted and saved once more.
   */
  lemma ArrivesAgain(cfg: Config, m: MonitorState, c: Content, t: Time)
    requires Normalized(cfg, c).Some? && !EqualToLast(c, m.last)
    ensures var n := Handle(cfg, m, c);
            var d := Normalized(cfg, c).value.(created := t);
            Handle(cfg, n, c.(created := t)) ==
            if Fixed(cfg, c) && Instant(t) - Instant(c.created) <= 5_000_000_000 then n
            else MonitorState(Some(d), Save(cfg.codec, n.store, d), n.accepted + [d])
  {
    hide Format, Save, TrimSpace, Instant, Processed;
    NormalizedAgain(cfg, c, t);
    NormalizedKeeps(cfg, c);
  }

  /** A text that starts with a space, handled twice, is accepted twice, at whatever times. */
  lemma SpacedTextIsAcceptedTwice(cfg: Config, m: MonitorState, c: Content, t: Time)
    requires c.kind == TYPE_TEXT && c.data == [32, 97] && cfg.maxSize >= 2 && !EqualToLast(c, m.last)
    ensures |Handle(cfg, Handle(cfg, m, c), c.(created := t)).accepted| == |m.accepted| + 2
  {
    hide Format, Save, TrimSpace, Instant, Processed;
    MonitorProcessing(cfg.maxSize, cfg.existing, c);
    assert LeadingSpace(c.data) == 1;
    CleanEndsIff(c.data);
    FixedIff(cfg, c);
    ArrivesAgain(cfg, m, c, t);
  }

  lemma NormalizedAgain(cfg: Config, c: Content, t: Time)
    requires Normalized(cfg, c).Some?
    ensures Normalized(cfg, c.(created := t)) == Some(Normalized(cfg, c).value.(created := t))
  {
    hide TrimSpace;
    MonitorProcessing(cfg.maxSize, cfg.existing, c);
    MonitorProcessing(cfg.maxSize, cfg.existing, c.(created := t));
  }

  /** Copies of a type that detection never gives are never recognised: each one is accepted, however fast they come. */
  lemma {:induction false} UndetectedTypesPileUp(cfg: Config, m: MonitorState, events: seq<Event>, kind: ContentType)
    requires forall data :: cfg.detect(data) != kind
    requires m.last.Some? ==> m.last.value.kind != kind
    requires forall e :: e in events ==> e.Copied? && e.content.kind == kind && |e.content.data| <= cfg.maxSize
    ensures |Run(cfg, m, events).accepted| == |m.accepted| + |events|
    decreases |events|
  {
    hide Format, Save, TrimSpace, Instant, Processed;
    if events != [] {
      assert events[0] in events;
      MonitorProcessing(cfg.maxSize, cfg.existing, events[0].content);
      UndetectedTypesPileUp(cfg, Step(cfg, m, events[0]), events[1..], kind);
    }
  }
}
