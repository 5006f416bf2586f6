/** `GetContentSince` and `GetAllContents`: which contents they return, and when these are the ones promised. */
module SinceQuery {
  import opened ByteStrings
  import opened Sequences
  import opened TimeKey
  import opened ZoneChanges
  import opened ClipboardTypes
  import opened Bucket
  import opened StoreModel
  import opened HistoryQuery
  import opened ReverseHistory

  /** An entry's content as `GetContentSince` reads it; None stops the scan with an error. */
  function ReadEntry(codec: Codec, e: Entry): Option<Content> {
    match codec.decode(e.value)
    case None => None
    case Some(c) => Opened(codec, c)
  }

  /** Contents up to the first unreadable entry, and whether there was none. */
  function ReadAll(codec: Codec, path: seq<Entry>): (seq<Content>, bool) {
    if path == [] then ([], true)
    else match ReadEntry(codec, path[0])
      case None => ([], false)
      case Some(c) => var (rest, ok) := ReadAll(codec, path[1..]); ([c] + rest, ok)
  }

  function Reader(codec: Codec): Entry -> Option<Content> { (e: Entry) => ReadEntry(codec, e) }

  lemma ReadEntryIff(codec: Codec, e: Entry, c: Content)
    ensures ReadEntry(codec, e) == Some(c) <==>
            exists stored :: codec.decode(e.value) == Some(stored) && OpensTo(codec, stored, c)
  {}

  /** The contents of `b` that can be read and were not created before `since`. */
  function NotBefore(since: Time, codec: Codec): Entry -> bool {
    (e: Entry) => ReadEntry(codec, e).Some? && Instant(since) <= Instant(ReadEntry(codec, e).value.created)
  }

  function Promised(codec: Codec, since: Time, b: seq<Entry>): seq<Content> {
    Chosen(Restricted(Reader(codec), NotBefore(since, codec)), b)
  }

  /** The scan succeeds exactly when everything on the way can be read, and then returns all of it. */
  lemma {:induction false} ReadAllIff(codec: Codec, path: seq<Entry>)
    ensures ReadAll(codec, path).1 <==> forall e :: e in path ==> ReadEntry(codec, e).Some?
    ensures ReadAll(codec, path).1 ==> ReadAll(codec, path).0 == Chosen(Reader(codec), path)
  {
    hide ReadEntry;
    if path != [] {
      ReadAllIff(codec, path[1..]);
      assert path == [path[0]] + path[1..];
    }
  }

  /** A content that was read tells its entry's key. */
  lemma ReadKey(codec: Codec, b: seq<Entry>, e: Entry)
    requires Faithful(codec) && KeyedByCreation(codec, b) && e in b && ReadEntry(codec, e).Some?
    ensures e.key == Format(ReadEntry(codec, e).value.created)
  {
    hide Format;
  }

  lemma ReaderInjective(codec: Codec, b: seq<Entry>)
    requires Faithful(codec) && Sorted(b) && KeyedByCreation(codec, b)
    ensures Injective(Reader(codec), b)
  {
    hide Format, ReadEntry, Less;
    var f := Reader(codec);
    forall i, j | 0 <= i < j < |b| && f(b[i]).Some? ensures f(b[i]) != f(b[j]) {
      LessIrreflexive(b[i].key);
      if f(b[i]) == f(b[j]) {
        ReadKey(codec, b, b[i]);
        ReadKey(codec, b, b[j]);
      }
    }
  }

  /** Every entry at or above the seek position can be read. */
  ghost predicate ReadableFrom(codec: Codec, b: seq<Entry>, key: Bytes) {
    forall e :: e in b && !Less(e.key, key) ==> ReadEntry(codec, e).Some?
  }

  lemma ScanFrom(codec: Codec, b: seq<Entry>, key: Bytes)
    requires Sorted(b)
    ensures ReadAll(codec, b[Seek(b, key)..]).1 <==> ReadableFrom(codec, b, key)
    ensures ReadableFrom(codec, b, key) ==>
              ReadAll(codec, b[Seek(b, key)..]).0 == Chosen(Restricted(Reader(codec), KeyFrom(key)), b)
  {
    hide Less, Seek, ReadEntry, Sorted, Restricted;
    var path := b[Seek(b, key)..];
    ReadAllIff(codec, path);
    forall e | e in b ensures e in path <==> !Less(e.key, key) { InFromIff(b, key, e); }
    assert forall e :: e in path ==> e in b;
    KeysFrom(codec, b, key);
  }

  lemma KeysFrom(codec: Codec, b: seq<Entry>, key: Bytes)
    requires Sorted(b)
    ensures Chosen(Reader(codec), b[Seek(b, key)..]) == Chosen(Restricted(Reader(codec), KeyFrom(key)), b)
  {
    hide Less, Seek, ReadEntry;
    SeekSplits(b, key);
    SelectSuffix(Reader(codec), KeyFrom(key), b, Seek(b, key));
  }

  /** The key order of a content's time and `since` is their time order. */
  predicate SortsAgainst(c: Content, since: Time) {
    KeyEarlier(c.created, since) <==> Instant(c.created) < Instant(since)
  }

  /**
   The answer is what the function is for, all content created at or after `since`, exactly when everything
   from the seek position on can be read and key order is time order between `since` and each readable content.
   */
  lemma GetContentSinceIff(codec: Codec, b: seq<Entry>, since: Time)
    requires Faithful(codec) && Sorted(b) && KeyedByCreation(codec, b)
    ensures ReadAll(codec, b[Seek(b, Format(since))..]) == (Promised(codec, since, b), true) <==>
            && ReadableFrom(codec, b, Format(since))
            && forall e :: e in b && ReadEntry(codec, e).Some? ==> SortsAgainst(ReadEntry(codec, e).value, since)
  {
    hide Format, Seek, Sorted, KeyedByCreation, ReadEntry, Restricted, Instant, KeyEarlier, ReadableFrom, Injective,
      Less;
    ScanFrom(codec, b, Format(since));
    ReaderInjective(codec, b);
    SameSelectionIff(Reader(codec), KeyFrom(Format(since)), NotBefore(since, codec), b);
    forall e | e in b && ReadEntry(codec, e).Some?
      ensures SortsAgainst(ReadEntry(codec, e).value, since) <==>
              (KeyFrom(Format(since))(e) <==> NotBefore(since, codec)(e))
    {
      ReadKey(codec, b, e);
      KeysCompareByWallClock(ReadEntry(codec, e).value.created, since);
    }
  }

  /** In one numeric zone that is exactly when everything from the seek position on can be read. */
  lemma NumericContentSinceIff(codec: Codec, b: seq<Entry>, since: Time)
    requires Faithful(codec) && Sorted(b) && KeyedByCreation(codec, b) && since.offset != 0
    requires forall e :: e in b && ReadEntry(codec, e).Some? ==>
               ReadEntry(codec, e).value.created.offset == since.offset
    ensures ReadAll(codec, b[Seek(b, Format(since))..]) == (Promised(codec, since, b), true) <==>
            ReadableFrom(codec, b, Format(since))
  {
    hide Format, Seek, Sorted, KeyedByCreation, ReadEntry, Instant, KeyEarlier, ReadableFrom, Promised, ReadAll;
    GetContentSinceIff(codec, b, since);
    forall e | e in b && ReadEntry(codec, e).Some? ensures SortsAgainst(ReadEntry(codec, e).value, since) {
      KeysCompareByWallClock(ReadEntry(codec, e).value.created, since);
      NumericOffsetKeysSortAsTimes(ReadEntry(codec, e).value.created, since);
    }
  }

  /**
   `GetAllContents` returns every readable content exactly when only unreadable entries lie below its seek key,
   and all others can be read.
   */
  lemma GetAllContentsIff(codec: Codec, b: seq<Entry>)
    requires Sorted(b)
    ensures var key := Format(ZERO_TIME);
            ReadAll(codec, b[Seek(b, key)..]) == (Chosen(Reader(codec), b), true) <==>
            forall e :: e in b ==> (ReadEntry(codec, e).Some? <==> !Less(e.key, key))
  {
    hide Format, Seek, ReadEntry, Sorted, Less, ReadAll, Chosen;
    var key := Format(ZERO_TIME);
    var i := Seek(b, key);
    ReadAllIff(codec, b[i..]);
    assert b == b[..i] + b[i..];
    ChosenConcat(Reader(codec), b[..i], b[i..]);
    NothingChosenIff(Reader(codec), b[..i]);
    forall e | e in b ensures (e in b[..i] <==> Less(e.key, key)) && (e in b[i..] <==> !Less(e.key, key)) {
      InBelowIff(b, key, e);
      InFromIff(b, key, e);
    }
    assert forall e :: e in b[..i] || e in b[i..] ==> e in b;
    DropsNothingIff(Chosen(Reader(codec), b[..i]), Chosen(Reader(codec), b[i..]));
  }

  lemma DropsNothingIff<T>(lo: seq<T>, hi: seq<T>)
    ensures hi == lo + hi <==> lo == []
  {
    if lo != [] { assert |lo + hi| > |hi|; }
  }

  /** The one content of a bucket, stored under the key of its time. */
  lemma OnlyContent(codec: Codec, c: Content, since: Time)
    requires Faithful(codec) && !c.compressed
    ensures var b := [Entry(Format(c.created), codec.encode(c))];
            && ReadAll(codec, b[Seek(b, Format(since))..]).0 ==
               (if Less(Format(c.created), Format(since)) then [] else [c])
            && Promised(codec, since, b) == if Instant(c.created) < Instant(since) then [] else [c]
  {
    hide Format, Less, Seek, Instant;
    var e := Entry(Format(c.created), codec.encode(c));
    SeekOne(e, Format(since));
    ChosenOne(Restricted(Reader(codec), NotBefore(since, codec)), e);
    assert [e][0..] == [e] && [e][1..] == [];
    assert ReadAll(codec, [e]).0 == [c] + ReadAll(codec, []).0;
  }

  lemma SeekOne(e: Entry, key: Bytes)
    ensures Seek([e], key) == if Less(e.key, key) then 1 else 0
  {
    hide Less;
    assert [e][1..] == [];
  }

  /** In UTC a later content is dropped, and an earlier one returned. */
  lemma UtcContentSinceFails(codec: Codec, c: Content, d: Content)
    requires Faithful(codec) && !c.compressed && !d.compressed
    requires c.created == Stamp(2024, 5, 1, 12, 0, 5, 0, 0) && d.created == Stamp(2024, 5, 1, 12, 0, 5, 500_000_000, 0)
    ensures var b := [Entry(Format(d.created), codec.encode(d))];
            ReadAll(codec, b[Seek(b, Format(c.created))..]).0 == [] && Promised(codec, c.created, b) == [d]
    ensures var b := [Entry(Format(c.created), codec.encode(c))];
            ReadAll(codec, b[Seek(b, Format(d.created))..]).0 == [c] && Promised(codec, d.created, b) == []
  {
    hide Format, Less, Seek, Instant, ReadAll, Promised;
    UtcCounterexample();
    LessAsymmetric(Format(d.created), Format(c.created));
    OnlyContent(codec, d, c.created);
    OnlyContent(codec, c, d.created);
  }
}
