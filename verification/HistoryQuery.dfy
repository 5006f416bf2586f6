/** What `GetHistory` returns: the cursor's path over the bucket, and the query it answers. */
module HistoryQuery {
  import opened ByteStrings
  import opened Sequences
  import opened TimeKey
  import opened ZoneChanges
  import opened ClipboardTypes
  import opened Bucket
  import opened StoreModel

  datatype HistoryOptions = HistoryOptions(
    limit: int, since: Time, before: Time, kind: ContentType, reverse: bool, minSize: int, maxSize: int)

  /** The filters on one entry, in the order they are applied; None is a skipped entry. */
  function Select(codec: Codec, o: HistoryOptions, e: Entry): Option<Content> {
    match Parse(e.key)
    case None => None
    case Some(t) =>
      if !IsZero(o.since) && Instant(t) < Instant(o.since) then None
      else if !IsZero(o.before) && Instant(t) > Instant(o.before) then None
      else
        match codec.decode(e.value)
        case None => None
        case Some(c) =>
          if o.kind != "" && c.kind != o.kind then None
          else if o.minSize > 0 && |c.data| < o.minSize then None
          else if o.maxSize > 0 && |c.data| > o.maxSize then None
          else Opened(codec, c)
  }

  /** The filters read off the options: an unset bound does not restrict. */
  ghost predicate Wanted(codec: Codec, o: HistoryOptions, e: Entry, c: Content) {
    && (exists t :: Parse(e.key) == Some(t)
          && (IsZero(o.since) || Instant(o.since) <= Instant(t))
          && (IsZero(o.before) || Instant(t) <= Instant(o.before)))
    && (exists stored :: codec.decode(e.value) == Some(stored)
          && (o.kind == "" || o.kind == stored.kind)
          && (o.minSize <= 0 || o.minSize <= |stored.data|) && (o.maxSize <= 0 || |stored.data| <= o.maxSize)
          && OpensTo(codec, stored, c))
  }

  /** The chain of skips selects exactly the wanted entries. */
  lemma SelectsTheWanted(codec: Codec, o: HistoryOptions, e: Entry, c: Content)
    ensures Select(codec, o, e) == Some(c) <==> Wanted(codec, o, e, c)
  {
    hide Parse, Instant;
  }

  /** So the selected contents are those of the wanted entries, and no others. */
  lemma {:induction false} SelectedAreWanted(codec: Codec, o: HistoryOptions, b: seq<Entry>, c: Content)
    ensures c in Selected(codec, o, b) <==> exists e :: e in b && Wanted(codec, o, e, c)
  {
    hide Select, Wanted;
    if b != [] {
      SelectedAreWanted(codec, o, b[1..], c);
      SelectsTheWanted(codec, o, b[0], c);
      assert b == [b[0]] + b[1..];
    }
  }

  function Selector(codec: Codec, o: HistoryOptions): Entry -> Option<Content> { e => Select(codec, o, e) }

  /** The contents that pass the filters, in the order of `path`. */
  function Selected(codec: Codec, o: HistoryOptions, path: seq<Entry>): seq<Content> {
    Chosen(Selector(codec, o), path)
  }

  /** The entries the cursor visits when nothing stops it early. */
  function Path(o: HistoryOptions, b: seq<Entry>): seq<Entry> {
    if o.reverse then
      if IsZero(o.before) then Reversed(b)
      else
        var i := Seek(b, Format(o.before));
        if i < |b| then Reversed(b[..i]) else []
    else if IsZero(o.since) then b
    else b[Seek(b, Format(o.since))..]
  }

  /** The result of `GetHistory`. */
  function History(codec: Codec, o: HistoryOptions, b: seq<Entry>): seq<Content> {
    Limited(o.limit, Selected(codec, o, Path(o, b)))
  }

  /** Direction and limit play no part in the filters. */
  lemma SelectedIgnoresDirection(codec: Codec, o: HistoryOptions, p: HistoryOptions, b: seq<Entry>)
    requires p == o.(reverse := p.reverse, limit := p.limit)
    ensures Selected(codec, o, b) == Selected(codec, p, b)
  {
    ChosenAlike(Selector(codec, o), Selector(codec, p), b);
  }

  lemma SplitSelected(codec: Codec, o: HistoryOptions, b: seq<Entry>, i: nat)
    requires i <= |b|
    ensures Selected(codec, o, b) == Selected(codec, o, b[..i]) + Selected(codec, o, b[i..])
  {
    assert b == b[..i] + b[i..];
    ChosenConcat(Selector(codec, o), b[..i], b[i..]);
  }

  // ---------- What the seek passes over ----------

  ghost predicate Printed(key: Bytes) { exists t: Time :: key == Format(t) }

  /** Readable entries are stored under printed times, of any zones. */
  ghost predicate Timed(codec: Codec, b: seq<Entry>) {
    forall e :: e in b && codec.decode(e.value).Some? ==> Printed(e.key)
  }

  /** `e` passes the filters, and its key is below that of `t`. */
  predicate SelectedBelow(codec: Codec, o: HistoryOptions, e: Entry, t: Time) {
    Select(codec, o, e).Some? && KeyEarlier(Parse(e.key).value, t)
  }

  /** No entry within the filters has its key below Since's. */
  ghost predicate SeekLosesNothing(codec: Codec, o: HistoryOptions, b: seq<Entry>) {
    IsZero(o.since) || forall e :: e in b ==> !SelectedBelow(codec, o, e, o.since)
  }

  lemma SelectedBelowByKey(codec: Codec, o: HistoryOptions, e: Entry, t: Time)
    requires codec.decode(e.value).Some? ==> Printed(e.key)
    ensures SelectedBelow(codec, o, e, t) <==> Select(codec, o, e).Some? && Less(e.key, Format(t))
  {
    hide Format, Parse, KeyEarlier, Less;
    if Select(codec, o, e).Some? {
      var u: Time :| e.key == Format(u);
      ParseInvertsFormat(u);
      KeysCompareByWallClock(u, t);
    }
  }

  lemma NothingSelectedIff(codec: Codec, o: HistoryOptions, b: seq<Entry>)
    ensures Selected(codec, o, b) == [] <==> forall e :: e in b ==> Select(codec, o, e) == None
  {
    hide Select;
    NothingChosenIff(Selector(codec, o), b);
    assert forall e :: e in b ==> Selector(codec, o)(e) == Select(codec, o, e);
  }

  /** The entries below a seek position are those with smaller keys. */
  lemma InBelowIff(b: seq<Entry>, key: Bytes, e: Entry)
    requires Sorted(b)
    ensures e in b[..Seek(b, key)] <==> e in b && Less(e.key, key)
  {
    SeekSplits(b, key);
  }

  lemma NothingSelectedBelowIff(codec: Codec, o: HistoryOptions, b: seq<Entry>, t: Time)
    requires Sorted(b) && Timed(codec, b)
    ensures Selected(codec, o, b[..Seek(b, Format(t))]) == [] <==> forall e :: e in b ==> !SelectedBelow(codec, o, e, t)
  {
    hide Select, Format, Sorted, Seek, SelectedBelow, Selected;
    var lo := b[..Seek(b, Format(t))];
    NothingSelectedIff(codec, o, lo);
    forall e | e in b ensures e in lo && Select(codec, o, e) != None <==> SelectedBelow(codec, o, e, t) {
      InBelowIff(b, Format(t), e);
      SelectedBelowByKey(codec, o, e, t);
    }
    assert forall e :: e in lo ==> e in b;
  }

  // ---------- Forward queries ----------

  lemma ForwardFromSeek(codec: Codec, o: HistoryOptions, b: seq<Entry>)
    requires !o.reverse
    requires IsZero(o.since) || Selected(codec, o, b[..Seek(b, Format(o.since))]) == []
    ensures History(codec, o, b) == Limited(o.limit, Selected(codec, o, b))
  {
    hide Format, IsZero, Seek, Selected, Limited;
    if !IsZero(o.since) {
      var i := Seek(b, Format(o.since));
      SplitSelected(codec, o, b, i);
      EmptyPrefix(Selected(codec, o, b[i..]));
    }
  }

  /** Some entry of `b` is stored under the creation time of `c`. */
  ghost predicate StoredIn(c: Content, b: seq<Entry>) { exists e :: e in b && e.key == Format(c.created) }

  lemma {:induction false} SelectedStored(codec: Codec, o: HistoryOptions, b: seq<Entry>, c: Content)
    requires Faithful(codec) && KeyedByCreation(codec, b)
    requires c in Selected(codec, o, b)
    ensures StoredIn(c, b)
  {
    hide Format, Parse, Instant;
    if Select(codec, o, b[0]) == Some(c) {
      assert b[0] in b;
    } else {
      SelectedStored(codec, o, b[1..], c);
      var e :| e in b[1..] && e.key == Format(c.created);
      assert e in b;
    }
  }

  lemma SplitsApart(codec: Codec, o: HistoryOptions, b: seq<Entry>, i: nat, c: Content)
    requires Faithful(codec) && Sorted(b) && KeyedByCreation(codec, b) && i <= |b|
    requires c in Selected(codec, o, b[..i])
    ensures c !in Selected(codec, o, b[i..])
  {
    hide Format, Selected;
    if c in Selected(codec, o, b[i..]) {
      SelectedStored(codec, o, b[..i], c);
      SelectedStored(codec, o, b[i..], c);
      var d :| d in b[..i] && d.key == Format(c.created);
      var e :| e in b[i..] && e.key == Format(c.created);
      assert Less(d.key, e.key);
      LessIrreflexive(d.key);
    }
  }

  lemma LimitedDropsIff<T>(limit: int, lo: seq<T>, hi: seq<T>)
    requires limit <= 0 || lo == [] || lo[0] !in hi
    ensures Limited(limit, lo + hi) == Limited(limit, hi) <==> lo == []
  {
    if lo == [] {
      EmptyPrefix(hi);
    } else if limit > 0 {
      assert Limited(limit, lo + hi)[0] == lo[0];
      if Limited(limit, hi) != [] { assert Limited(limit, hi)[0] == hi[0]; }
    } else {
      assert |lo + hi| > |hi|;
    }
  }

  /**
   The forward scan is the declarative query (the first Limit entries, of the whole bucket, that pass the
   time, type and size filters) exactly when none of them has a key below Since's; keys of any zones.
   */
  lemma ForwardHistoryIsTheQueryIff(codec: Codec, o: HistoryOptions, b: seq<Entry>)
    requires Sorted(b) && Timed(codec, b) && !o.reverse
    requires o.limit <= 0 || (Faithful(codec) && KeyedByCreation(codec, b))
    ensures History(codec, o, b) == Limited(o.limit, Selected(codec, o, b)) <==> SeekLosesNothing(codec, o, b)
  {
    hide Format, IsZero, Selected, SelectedBelow, Sorted, KeyedByCreation, Timed, Limited;
    if IsZero(o.since) {
      ForwardFromSeek(codec, o, b);
    } else {
      var i := Seek(b, Format(o.since));
      var lo, hi := Selected(codec, o, b[..i]), Selected(codec, o, b[i..]);
      SplitSelected(codec, o, b, i);
      NothingSelectedBelowIff(codec, o, b, o.since);
      if o.limit > 0 && lo != [] { SplitsApart(codec, o, b, i, lo[0]); }
      LimitedDropsIff(o.limit, lo, hi);
    }
  }

  /** `key` is a printed time in the zone `offset`. */
  ghost predicate PrintedIn(key: Bytes, offset: int) { exists t: Time :: t.offset == offset && key == Format(t) }

  ghost predicate KeysIn(b: seq<Entry>, offset: int) { forall e :: e in b ==> PrintedIn(e.key, offset) }

  lemma TimeOfKey(b: seq<Entry>, offset: int, e: Entry)
    requires KeysIn(b, offset) && e in b
    ensures Printed(e.key) && Parse(e.key).Some? && Parse(e.key).value.offset == offset
  {
    assert PrintedIn(e.key, offset);
    var t: Time :| t.offset == offset && e.key == Format(t);
    ParseInvertsFormat(t);
  }

  lemma TimedIn(codec: Codec, b: seq<Entry>, offset: int)
    requires KeysIn(b, offset)
    ensures Timed(codec, b)
  {
    forall e | e in b ensures Printed(e.key) { TimeOfKey(b, offset, e); }
  }

  /** With keys in one numeric zone the seek loses nothing. */
  lemma NumericSeekLosesNothing(codec: Codec, o: HistoryOptions, b: seq<Entry>, offset: int)
    requires KeysIn(b, offset) && offset != 0 && (IsZero(o.since) || o.since.offset == offset)
    ensures SeekLosesNothing(codec, o, b)
  {
    hide Parse, Format, IsZero, Instant;
    forall e | e in b && !IsZero(o.since) ensures !SelectedBelow(codec, o, e, o.since) {
      TimeOfKey(b, offset, e);
      var t := Parse(e.key).value;
      KeysCompareByWallClock(t, o.since);
      NumericOffsetKeysSortAsTimes(t, o.since);
    }
  }

  /** So in one numeric zone the forward scan is the query, on every bucket. */
  lemma ForwardHistoryIsTheQuery(codec: Codec, o: HistoryOptions, b: seq<Entry>, offset: int)
    requires Sorted(b) && KeysIn(b, offset) && offset != 0 && (IsZero(o.since) || o.since.offset == offset)
    requires !o.reverse
    ensures History(codec, o, b) == Limited(o.limit, Selected(codec, o, b))
  {
    TimedIn(codec, b, offset);
    NumericSeekLosesNothing(codec, o, b, offset);
    if !IsZero(o.since) { NothingSelectedBelowIff(codec, o, b, o.since); }
    ForwardFromSeek(codec, o, b);
  }

  /** `t` lies in the second of `since`, with a fraction that properly extends that of `since`. */
  predicate ExtendsFraction(t: Time, since: Time) {
    WallSeconds(t) == WallSeconds(since) && ProperPrefix(Fraction(since.nanos), Fraction(t.nanos))
  }

  /** `e` passes the filters, and so extends Since. */
  predicate SelectedExtension(codec: Codec, o: HistoryOptions, e: Entry) {
    Select(codec, o, e).Some? && ExtendsFraction(Parse(e.key).value, o.since)
  }

  lemma UtcSelectedBelowIff(codec: Codec, o: HistoryOptions, e: Entry)
    requires !IsZero(o.since) && o.since.offset == 0
    requires Parse(e.key).Some? ==> Parse(e.key).value.offset == 0
    ensures SelectedBelow(codec, o, e, o.since) <==> SelectedExtension(codec, o, e)
  {
    hide Parse, Format, IsZero, Fraction, WallSeconds, ProperPrefix;
    if Select(codec, o, e).Some? {
      var t := Parse(e.key).value;
      FractionsApart(t.nanos, o.since.nanos);
    }
  }

  /** In UTC the forward scan is the query exactly when no match extends the fraction of Since within its second. */
  lemma UtcForwardHistoryIsTheQueryIff(codec: Codec, o: HistoryOptions, b: seq<Entry>)
    requires Sorted(b) && KeysIn(b, 0) && !o.reverse && !IsZero(o.since) && o.since.offset == 0
    requires o.limit <= 0 || (Faithful(codec) && KeyedByCreation(codec, b))
    ensures History(codec, o, b) == Limited(o.limit, Selected(codec, o, b)) <==>
            forall e :: e in b ==> !SelectedExtension(codec, o, e)
  {
    hide Parse, Format, IsZero, SelectedExtension, SelectedBelow, KeysIn, Sorted, History, Selected;
    TimedIn(codec, b, 0);
    ForwardHistoryIsTheQueryIff(codec, o, b);
    forall e | e in b ensures SelectedBelow(codec, o, e, o.since) <==> SelectedExtension(codec, o, e) {
      TimeOfKey(b, 0, e);
      UtcSelectedBelowIff(codec, o, e);
    }
  }

  lemma SeekPassesOver(e: Entry, key: Bytes)
    requires Less(e.key, key)
    ensures Seek([e], key) == 1 && [e][1..] == []
  {}

  lemma SinceIsSet()
    ensures !IsZero(Stamp(2024, 5, 1, 12, 0, 5, 0, 0))
  {
    NumbersCountSeconds(ZERO_TIME, Stamp(2024, 5, 1, 12, 0, 5, 0, 0));
    NumbersSpelledOut(ZERO_TIME, Stamp(2024, 5, 1, 12, 0, 5, 0, 0));
  }

  /** A query since 12:00:05Z over the one content of 12:00:05.5Z finds nothing, though the content matches. */
  lemma UtcQueryLosesTheContent(codec: Codec, c: Content)
    requires Faithful(codec) && !c.compressed && c.created == Stamp(2024, 5, 1, 12, 0, 5, 500_000_000, 0)
    ensures var b := [Entry(Format(c.created), codec.encode(c))];
            var since: Time := Stamp(2024, 5, 1, 12, 0, 5, 0, 0);
            var o := HistoryOptions(0, since, ZERO_TIME, "", false, 0, 0);
            Selected(codec, o, b) == [c] && History(codec, o, b) == []
  {
    hide Format, Parse, Seek, Less, Chosen, WallSeconds;
    var e := Entry(Format(c.created), codec.encode(c));
    var since: Time := Stamp(2024, 5, 1, 12, 0, 5, 0, 0);
    var o := HistoryOptions(0, since, ZERO_TIME, "", false, 0, 0);
    ParseInvertsFormat(c.created);
    UtcCounterexample();
    SinceIsSet();
    ChosenOne(Selector(codec, o), e);
    SeekPassesOver(e, Format(since));
    NothingChosen(Selector(codec, o), []);
  }

  // ---------- Order of the answer ----------

  predicate Ascending(r: seq<Content>) {
    forall i, j :: 0 <= i < j < |r| ==> Instant(r[i].created) < Instant(r[j].created)
  }

  predicate KeysAscend(r: seq<Content>) {
    forall i, j :: 0 <= i < j < |r| ==> KeyEarlier(r[i].created, r[j].created)
  }

  predicate OneNumericZone(r: seq<Content>) {
    forall i :: 0 <= i < |r| ==> r[i].created.offset == r[0].created.offset != 0
  }

  lemma FirstIsBeforeRest(codec: Codec, o: HistoryOptions, b: seq<Entry>, first: Content)
    requires Faithful(codec) && Sorted(b) && KeyedByCreation(codec, b)
    requires b != [] && Format(first.created) == b[0].key
    requires KeysAscend(Selected(codec, o, b[1..]))
    ensures KeysAscend([first] + Selected(codec, o, b[1..]))
  {
    hide Format, Parse, KeyEarlier;
    forall c | c in Selected(codec, o, b[1..]) ensures KeyEarlier(first.created, c.created) {
      SelectedStored(codec, o, b[1..], c);
      var e :| e in b[1..] && e.key == Format(c.created);
      assert Less(b[0].key, e.key);
      KeysCompareByWallClock(first.created, c.created);
    }
  }

  lemma {:induction false} SelectedAscends(codec: Codec, o: HistoryOptions, b: seq<Entry>)
    requires Faithful(codec) && Sorted(b) && KeyedByCreation(codec, b)
    ensures KeysAscend(Selected(codec, o, b))
  {
    hide Format, Parse, Instant, KeyEarlier;
    if b != [] {
      SelectedAscends(codec, o, b[1..]);
      var first := Selector(codec, o)(b[0]);
      assert Selected(codec, o, b) == OneChosen(first) + Selected(codec, o, b[1..]);
      if first.Some? {
        assert b[0] in b;
        FirstIsBeforeRest(codec, o, b, first.value);
      }
    }
  }

  /** A forward answer ascends in key order, and in time order when it is of one numeric zone. */
  lemma ForwardHistoryAscends(codec: Codec, o: HistoryOptions, b: seq<Entry>)
    requires Faithful(codec) && Sorted(b) && KeyedByCreation(codec, b) && !o.reverse
    ensures KeysAscend(History(codec, o, b))
    ensures OneNumericZone(History(codec, o, b)) ==> Ascending(History(codec, o, b))
  {
    hide Format, Instant, KeyEarlier, Select, Selected, Less, Seek, Ascending, OneNumericZone;
    PathIsSound(codec, o, b);
    SelectedAscends(codec, o, Path(o, b));
    NumericZoneAscends(History(codec, o, b));
  }

  lemma PathIsSound(codec: Codec, o: HistoryOptions, b: seq<Entry>)
    requires Sorted(b) && KeyedByCreation(codec, b) && !o.reverse
    ensures Sorted(Path(o, b)) && KeyedByCreation(codec, Path(o, b))
  {
    hide Format, Less, Seek, IsZero;
  }

  lemma NumericZoneAscends(r: seq<Content>)
    requires KeysAscend(r)
    ensures OneNumericZone(r) ==> Ascending(r)
  {
    hide Format, Instant, KeyEarlier;
    forall i, j | 0 <= i < j < |r| && r[i].created.offset == r[j].created.offset != 0
      ensures Instant(r[i].created) < Instant(r[j].created)
    {
      KeysCompareByWallClock(r[i].created, r[j].created);
      NumericOffsetKeysSortAsTimes(r[i].created, r[j].created);
    }
  }
}
