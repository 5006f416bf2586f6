/** Reverse queries: what they answer, and when exactly they mirror the forward ones. */
module ReverseHistory {
  import opened ByteStrings
  import opened Sequences
  import opened TimeKey
  import opened ZoneChanges
  import opened ClipboardTypes
  import opened Bucket
  import opened StoreModel
  import opened HistoryQuery

  /** Without Before a reverse scan is the declarative query on any bucket: the newest Limit matches, newest first. */
  lemma ReverseHistoryIsTheQuery(codec: Codec, o: HistoryOptions, b: seq<Entry>)
    requires o.reverse && IsZero(o.before)
    ensures History(codec, o, b) == Reversed(LastLimited(o.limit, Selected(codec, o, b)))
  {
    ChosenReversed(Selector(codec, o), b);
    LimitedReversed(o.limit, Selected(codec, o, b));
  }

  /** Without Before and limit, reverse is the mirror image of forward exactly when the seek to Since loses nothing. */
  lemma ReverseMirrorsForwardIff(codec: Codec, o: HistoryOptions, b: seq<Entry>)
    requires Sorted(b) && Timed(codec, b)
    requires o.reverse && IsZero(o.before) && o.limit <= 0
    ensures History(codec, o, b) == Reversed(History(codec, o.(reverse := false), b)) <==>
            SeekLosesNothing(codec, o, b)
  {
    hide History, Selected, Select, Reversed, IsZero, Sorted, Timed, KeyEarlier, Parse;
    var p := o.(reverse := false);
    ReverseHistoryIsTheQuery(codec, o, b);
    ForwardHistoryIsTheQueryIff(codec, p, b);
    SelectedIgnoresDirection(codec, o, p, b);
    SelectIgnoresDirection(codec, o, p, b);
    NoLimit(o.limit, Selected(codec, o, b));
    ReversedTwice(Selected(codec, o, b));
    ReversedTwice(History(codec, p, b));
  }

  lemma SelectIgnoresDirection(codec: Codec, o: HistoryOptions, p: HistoryOptions, b: seq<Entry>)
    requires p == o.(reverse := p.reverse, limit := p.limit)
    ensures SeekLosesNothing(codec, o, b) <==> SeekLosesNothing(codec, p, b)
  {
    hide Parse, KeyEarlier, IsZero, Instant;
    assert forall e :: Select(codec, o, e) == Select(codec, p, e);
    assert forall e :: SelectedBelow(codec, o, e, o.since) <==> SelectedBelow(codec, p, e, p.since);
  }

  /** With Before set a reverse scan covers the keys strictly below Before's, or nothing when Before is past the end. */
  lemma ReverseBefore(codec: Codec, o: HistoryOptions, b: seq<Entry>)
    requires Sorted(b) && o.reverse && !IsZero(o.before)
    ensures var key := Format(o.before);
            History(codec, o, b) ==
            if At(b, key) + Above(b, key) == [] then []
            else Reversed(LastLimited(o.limit, Selected(codec, o, Below(b, key))))
  {
    var key := Format(o.before);
    PastTheEnd(b, key);
    ChosenReversed(Selector(codec, o), Below(b, key));
    LimitedReversed(o.limit, Selected(codec, o, Below(b, key)));
  }

  lemma PastTheEnd(b: seq<Entry>, key: Bytes)
    ensures Seek(b, key) < |b| <==> At(b, key) + Above(b, key) != []
  {
    assert |b| == Seek(b, key) + |At(b, key) + Above(b, key)|;
  }

  /**
   So with Before set, reverse mirrors forward exactly when every match has its key below Before's, and
   either some key is not below Before's or nothing matches at all.
   */
  lemma ReverseBeforeMirrorsIff(codec: Codec, o: HistoryOptions, b: seq<Entry>)
    requires Sorted(b) && Timed(codec, b) && SeekLosesNothing(codec, o, b)
    requires o.reverse && !IsZero(o.before) && o.limit <= 0
    ensures History(codec, o, b) == Reversed(History(codec, o.(reverse := false), b)) <==>
            && (forall e :: e in b && Select(codec, o, e).Some? ==> SelectedBelow(codec, o, e, o.before))
            && ((exists e :: e in b && !Less(e.key, Format(o.before))) || Selected(codec, o, b) == [])
  {
    hide History, Path, Select, Selected, SelectedBelow, Reversed, Limited, LastLimited, Format, IsZero, Seek, Sorted,
      SeekLosesNothing, Timed;
    var i := Seek(b, Format(o.before));
    var p := o.(reverse := false);
    ReverseBefore(codec, o, b);
    SelectIgnoresDirection(codec, o, p, b);
    ForwardHistoryIsTheQueryIff(codec, p, b);
    SelectedIgnoresDirection(codec, o, p, b);
    SplitSelected(codec, o, b, i);
    var lo, hi := Selected(codec, o, b[..i]), Selected(codec, o, b[i..]);
    NoLimit(o.limit, lo);
    NoLimit(o.limit, lo + hi);
    NothingSelectedFromIff(codec, o, b, o.before);
    KeysFromIff(b, Format(o.before));
    if i == |b| { assert b[i..] == []; NothingSelectedIff(codec, o, b[i..]); }
    MirrorIff(lo, hi, i < |b|);
  }

  lemma KeysFromIff(b: seq<Entry>, key: Bytes)
    requires Sorted(b)
    ensures Seek(b, key) < |b| <==> exists e :: e in b && !Less(e.key, key)
  {
    SeekSplits(b, key);
    if Seek(b, key) < |b| { assert b[Seek(b, key)] in b; }
  }

  lemma NothingSelectedFromIff(codec: Codec, o: HistoryOptions, b: seq<Entry>, t: Time)
    requires Sorted(b) && Timed(codec, b)
    ensures Selected(codec, o, b[Seek(b, Format(t))..]) == [] <==>
            forall e :: e in b && Select(codec, o, e).Some? ==> SelectedBelow(codec, o, e, t)
  {
    hide Select, Format, Sorted, SelectedBelow, Selected;
    var i := Seek(b, Format(t));
    NothingSelectedIff(codec, o, b[i..]);
    forall e | e in b ensures e !in b[i..] <==> Less(e.key, Format(t)) { InFromIff(b, Format(t), e); }
    forall e | e in b
      ensures SelectedBelow(codec, o, e, t) <==> Select(codec, o, e).Some? && Less(e.key, Format(t))
    {
      SelectedBelowByKey(codec, o, e, t);
    }
    assert forall e :: e in b[i..] ==> e in b;
  }

  lemma InFromIff(b: seq<Entry>, key: Bytes, e: Entry)
    requires Sorted(b) && e in b
    ensures e in b[Seek(b, key)..] <==> !Less(e.key, key)
  {
    SeekSplits(b, key);
  }

  lemma MirrorIff<T>(lo: seq<T>, at: seq<T>, found: bool)
    requires !found ==> at == []
    ensures (if found then Reversed(lo) else []) == Reversed(lo + at) <==> at == [] && (found || lo + at == [])
  {
    assert |Reversed(lo + at)| == |lo| + |at|;
    if at == [] { assert lo + at == lo; }
  }

  // ---------- Any two bounds ----------

  /** A selected content tells its entry's key. */
  lemma SelectedKey(codec: Codec, o: HistoryOptions, e: Entry)
    requires Faithful(codec) && KeyedByCreation(codec, [e]) && Select(codec, o, e).Some?
    ensures e.key == Format(Select(codec, o, e).value.created)
  {
    hide Format, Parse, Instant;
    assert e in [e];
  }

  lemma SelectorInjective(codec: Codec, o: HistoryOptions, b: seq<Entry>)
    requires Faithful(codec) && Sorted(b) && KeyedByCreation(codec, b)
    ensures Injective(Selector(codec, o), b)
  {
    hide Format, Select, Less;
    var f := Selector(codec, o);
    forall i, j | 0 <= i < j < |b| && f(b[i]).Some? ensures f(b[i]) != f(b[j]) {
      LessIrreflexive(b[i].key);
      assert b[i] in b && b[j] in b;
      if f(b[i]) == f(b[j]) {
        SelectedKey(codec, o, b[i]);
        SelectedKey(codec, o, b[j]);
      }
    }
  }

  function KeyBelow(key: Bytes): Entry -> bool { (e: Entry) => Less(e.key, key) }

  function KeyFrom(key: Bytes): Entry -> bool { (e: Entry) => !Less(e.key, key) }

  function AnyKey(): Entry -> bool { (e: Entry) => true }

  function NoKey(): Entry -> bool { (e: Entry) => false }

  lemma SelectedBelowSeek(codec: Codec, o: HistoryOptions, b: seq<Entry>, key: Bytes)
    requires Sorted(b)
    ensures Selected(codec, o, b[..Seek(b, key)]) == Chosen(Restricted(Selector(codec, o), KeyBelow(key)), b)
    ensures Selected(codec, o, b[Seek(b, key)..]) == Chosen(Restricted(Selector(codec, o), KeyFrom(key)), b)
  {
    hide Select, Less, Seek;
    SeekSplits(b, key);
    SelectPrefix(Selector(codec, o), KeyBelow(key), b, Seek(b, key));
    SelectSuffix(Selector(codec, o), KeyFrom(key), b, Seek(b, key));
  }

  /** The entries a forward scan covers. */
  function Covered(o: HistoryOptions): Entry -> bool {
    if IsZero(o.since) then AnyKey() else KeyFrom(Format(o.since))
  }

  /** The entries a reverse scan with Before covers: none when Before is past the last key. */
  function ReverseCovered(o: HistoryOptions, b: seq<Entry>): Entry -> bool {
    if Seek(b, Format(o.before)) < |b| then KeyBelow(Format(o.before)) else NoKey()
  }

  lemma ForwardCovers(codec: Codec, o: HistoryOptions, b: seq<Entry>)
    requires Sorted(b) && !o.reverse && o.limit <= 0
    ensures History(codec, o, b) == Chosen(Restricted(Selector(codec, o), Covered(o)), b)
  {
    hide Select, Less, Seek, Format, IsZero, Sorted;
    NoLimit(o.limit, Selected(codec, o, Path(o, b)));
    SelectedBelowSeek(codec, o, b, Format(o.since));
    ChosenAlike(Restricted(Selector(codec, o), AnyKey()), Selector(codec, o), b);
  }

  lemma ReverseCovers(codec: Codec, o: HistoryOptions, b: seq<Entry>)
    requires Sorted(b) && o.reverse && !IsZero(o.before) && o.limit <= 0
    ensures History(codec, o, b) == Reversed(Chosen(Restricted(Selector(codec, o), ReverseCovered(o, b)), b))
  {
    hide Select, Less, Seek, Format, IsZero, Sorted, Restricted;
    var i := Seek(b, Format(o.before));
    NoLimit(o.limit, Selected(codec, o, Path(o, b)));
    SelectedBelowSeek(codec, o, b, Format(o.before));
    ChosenReversed(Selector(codec, o), b[..i]);
    if i >= |b| { NothingRestricted(Selector(codec, o), b); }
  }

  lemma NothingRestricted(f: Entry -> Option<Content>, b: seq<Entry>)
    ensures Chosen(Restricted(f, NoKey()), b) == []
  {
    NothingChosen(Restricted(f, NoKey()), b);
  }

  /** Some key is not below Before's. */
  ghost predicate BeforeFindsAKey(o: HistoryOptions, b: seq<Entry>) {
    exists e :: e in b && !Less(e.key, Format(o.before))
  }

  /** Whether the forward scan and the reverse one with Before agree to show `e`, a match, or to leave it out. */
  ghost predicate BothOrNeither(codec: Codec, o: HistoryOptions, b: seq<Entry>, e: Entry) {
    (BeforeFindsAKey(o, b) && SelectedBelow(codec, o, e, o.before)) <==>
    (IsZero(o.since) || !SelectedBelow(codec, o, e, o.since))
  }

  /**
   Whatever the bounds, on every sound bucket: reverse with Before mirrors forward exactly when each match has its
   key both not below Since's and below Before's, or neither. None counts as below Before's when no key is at or
   above that.
   */
  lemma ReverseBeforeMirrorsAlwaysIff(codec: Codec, o: HistoryOptions, b: seq<Entry>)
    requires Faithful(codec) && Sorted(b) && KeyedByCreation(codec, b)
    requires o.reverse && !IsZero(o.before) && o.limit <= 0
    ensures History(codec, o, b) == Reversed(History(codec, o.(reverse := false), b)) <==>
            forall e :: e in b && Select(codec, o, e).Some? ==> BothOrNeither(codec, o, b, e)
  {
    hide History, Select, Format, IsZero, Seek, Sorted, KeyedByCreation, SelectedBelow, Reversed, Restricted, Less,
      Injective;
    var p := o.(reverse := false);
    var f, covered, back := Selector(codec, o), Covered(o), ReverseCovered(o, b);
    ReverseCovers(codec, o, b);
    ForwardCovers(codec, p, b);
    SelectedAlikeBackward(codec, o, b);
    ReversedTwice(Chosen(Restricted(f, back), b));
    ReversedTwice(Chosen(Restricted(f, covered), b));
    SelectorInjective(codec, o, b);
    SameSelectionIff(f, back, covered, b);
    KeysFromIff(b, Format(o.before));
    forall e | e in b && Select(codec, o, e).Some?
      ensures BothOrNeither(codec, o, b, e) <==> (back(e) <==> covered(e))
    {
      CreationIsPrinted(codec, b, e);
      SelectedBelowByKey(codec, o, e, o.since);
      SelectedBelowByKey(codec, o, e, o.before);
    }
  }

  lemma CreationIsPrinted(codec: Codec, b: seq<Entry>, e: Entry)
    requires KeyedByCreation(codec, b) && e in b
    ensures codec.decode(e.value).Some? ==> Printed(e.key)
  {}

  lemma SelectedAlikeBackward(codec: Codec, o: HistoryOptions, b: seq<Entry>)
    ensures var p := o.(reverse := false);
            && Covered(p) == Covered(o)
            && Chosen(Restricted(Selector(codec, p), Covered(o)), b) ==
               Chosen(Restricted(Selector(codec, o), Covered(o)), b)
  {
    hide Parse, Instant, IsZero, Format;
    var p := o.(reverse := false);
    ChosenAlike(Restricted(Selector(codec, p), Covered(o)), Restricted(Selector(codec, o), Covered(o)), b);
  }

  // ---------- The input ----------

  /** Asked up to the time of the only content, forward finds it and reverse does not. */
  lemma ReverseBeforeLosesItsKey(codec: Codec, c: Content)
    requires Faithful(codec) && !c.compressed && !IsZero(c.created)
    ensures var b := [Entry(Format(c.created), codec.encode(c))];
            var o := HistoryOptions(0, ZERO_TIME, c.created, "", true, 0, 0);
            History(codec, o, b) == [] && History(codec, o.(reverse := false), b) == [c]
  {
    hide Format, Parse, Less, Seek;
    var e := Entry(Format(c.created), codec.encode(c));
    var o := HistoryOptions(0, ZERO_TIME, c.created, "", true, 0, 0);
    ParseInvertsFormat(c.created);
    LessIrreflexive(e.key);
    SeekStays(e);
    ChosenOne(Selector(codec, o.(reverse := false)), e);
    assert Path(o, [e]) == Reversed([e][..0]);
    assert Path(o.(reverse := false), [e]) == [e];
  }

  lemma SeekStays(e: Entry)
    ensures Seek([e], e.key) == 0
  {
    LessIrreflexive(e.key);
  }
}
