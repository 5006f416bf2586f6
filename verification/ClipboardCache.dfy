/** The Linux clipboard's content cache against the last real read. */
module ClipboardCache {
  import opened ByteStrings
  import opened Sequences
  import opened ClipboardTypes

  const MIME_HTML := "text/html"
  const MIME_RTF := "text/rtf"
  const MIME_URI := "text/uri-list"
  const MIME_FILENAMES := "x-special/gnome-copied-files"
  const IMAGE_FORMATS: seq<MimeType> := ["image/png", "image/bmp", "image/jpeg", "image/gif"]

  datatype CacheEntry = CacheEntry(content: Content, formats: seq<MimeType>, readAt: int)

  /** Times and expiry are in milliseconds. */
  datatype Clipboard = Clipboard(lastContent: Bytes, cache: Option<CacheEntry>, enabled: bool, expiry: int)

  /** `NewClipboard`. */
  const FRESH := Clipboard([], None, true, 2000)

  /** What the display server would answer: its formats, and what each reader gives (None is an error). */
  datatype Sources = Sources(
    formats: seq<MimeType>, custom: Option<Content>, html: Option<Content>, rtf: Option<Content>,
    image: Option<Content>, file: Option<Content>, text: Option<Content>)

  datatype Picked = Rich(content: Content) | Text(content: Content) | Nothing

  datatype ReadResult = Cached(content: Content) | Fresh(content: Content) | Unchanged | Failed

  // ---------- The model ----------

  predicate CacheValid(c: Clipboard, now: int) {
    c.enabled && c.cache.Some? && now - c.cache.value.readAt < c.expiry
  }

  function Updated(c: Clipboard, content: Content, formats: seq<MimeType>, now: int): Clipboard {
    if c.enabled then c.(cache := Some(CacheEntry(content, formats, now))) else c
  }

  /** The first reader, in the order they are tried, whose format is offered and which succeeds. */
  function Pick(src: Sources): Picked {
    if src.custom.Some? then Rich(src.custom.value)
    else if MIME_HTML in src.formats && src.html.Some? then Rich(src.html.value)
    else if MIME_RTF in src.formats && src.rtf.Some? then Rich(src.rtf.value)
    else if (exists f :: f in IMAGE_FORMATS && f in src.formats) && src.image.Some? then Rich(src.image.value)
    else if (MIME_URI in src.formats || MIME_FILENAMES in src.formats) && src.file.Some? then Rich(src.file.value)
    else if src.text.Some? then Text(src.text.value)
    else Nothing
  }

  /** A rich content is cached before it is compared with the last one, a text content after. */
  function ReadStep(c: Clipboard, src: Sources, now: int): (Clipboard, ReadResult) {
    if CacheValid(c, now) then (c, Cached(c.cache.value.content.(compressed := false)))
    else match Pick(src)
      case Rich(content) =>
        var d := Updated(c, content, src.formats, now);
        if content.data == c.lastContent then (d, Unchanged)
        else (d.(lastContent := content.data), Fresh(content))
      case Text(content) =>
        if content.data == c.lastContent then (c, Unchanged)
        else (Updated(c.(lastContent := content.data), content, src.formats, now), Fresh(content))
      case Nothing => (c, Failed)
  }

  predicate BuiltIn(kind: ContentType) {
    kind in {TYPE_TEXT, TYPE_HTML, TYPE_RTF, TYPE_IMAGE, TYPE_FILE_PATH, TYPE_FILE, TYPE_URL}
  }

  /** A write that a registered custom type takes over returns early; `accepted` is the writer's success. */
  function WriteStep(
    c: Clipboard, content: Option<Content>, custom: set<ContentType>, accepted: bool): (Clipboard, bool)
  {
    if content.None? || content.value.data == [] then (c, false)
    else if content.value.kind in custom then (c, accepted)
    else if BuiltIn(content.value.kind) && accepted then (c.(lastContent := content.value.data, cache := None), true)
    else (c, false)
  }

  // ---------- Which reader wins ----------

  /** The readers in order of preference: custom types, HTML, RTF, images, files, text. */
  const READERS := 6

  /** Whether the display server offers what reader `k` reads; custom types and text are tried in any case. */
  predicate Offered(src: Sources, k: nat) {
    var f := src.formats;
    if k == 1 then "text/html" in f
    else if k == 2 then "text/rtf" in f
    else if k == 3 then "image/png" in f || "image/bmp" in f || "image/jpeg" in f || "image/gif" in f
    else if k == 4 then "text/uri-list" in f || "x-special/gnome-copied-files" in f
    else true
  }

  /** What reader `k` gives; None is its error. */
  function Answer(src: Sources, k: nat): Option<Content> {
    [src.custom, src.html, src.rtf, src.image, src.file, src.text][if k < READERS then k else 0]
  }

  predicate Succeeds(src: Sources, k: nat) { k < READERS && Offered(src, k) && Answer(src, k).Some? }

  /** Reader `k` succeeds, and none before it does. */
  predicate Wins(src: Sources, k: nat) { Succeeds(src, k) && forall j: nat :: j < k ==> !Succeeds(src, j) }

  lemma OfferedImage(src: Sources)
    ensures Offered(src, 3) <==> exists f :: f in IMAGE_FORMATS && f in src.formats
  {
    assert IMAGE_FORMATS[0] == "image/png" && IMAGE_FORMATS[1] == "image/bmp";
    assert IMAGE_FORMATS[2] == "image/jpeg" && IMAGE_FORMATS[3] == "image/gif";
    if exists f :: f in IMAGE_FORMATS && f in src.formats {
      var f :| f in IMAGE_FORMATS && f in src.formats;
      var i :| 0 <= i < 4 && IMAGE_FORMATS[i] == f;
    } else {
      assert forall i :: 0 <= i < 4 ==> IMAGE_FORMATS[i] in IMAGE_FORMATS;
    }
  }

  lemma PickWins(src: Sources, k: nat)
    requires Wins(src, k)
    ensures Pick(src) == if k == 5 then Text(Answer(src, k).value) else Rich(Answer(src, k).value)
  {
    OfferedImage(src);
    assert forall j: nat :: j < k ==> !Succeeds(src, j);
    assert Succeeds(src, 0) || Succeeds(src, 1) || Succeeds(src, 2) || Succeeds(src, 3) || Succeeds(src, 4)
           || Succeeds(src, 5);
  }

  lemma SomeoneWinsIff(src: Sources)
    ensures Pick(src) != Nothing <==> exists k: nat :: Wins(src, k)
  {
    hide Pick, Offered, Answer;
    if exists k: nat :: Wins(src, k) {
      var k: nat :| Wins(src, k);
      PickWins(src, k);
    } else {
      NoneSucceeds(src, READERS);
      PickNothing(src);
    }
  }

  /** If no reader wins, none succeeds: there would be a first one. */
  lemma {:induction false} NoneSucceeds(src: Sources, k: nat)
    requires !exists j: nat :: Wins(src, j)
    ensures forall j: nat :: j < k ==> !Succeeds(src, j)
  {
    hide Succeeds;
    if k > 0 {
      NoneSucceeds(src, k - 1);
      assert !Wins(src, k - 1);
    }
  }

  lemma PickNothing(src: Sources)
    requires forall j: nat :: j < READERS ==> !Succeeds(src, j)
    ensures Pick(src) == Nothing
  {
    OfferedImage(src);
    assert !Succeeds(src, 0) && !Succeeds(src, 1) && !Succeeds(src, 2) && !Succeeds(src, 3) && !Succeeds(src, 4);
    assert !Succeeds(src, 5);
  }

  /**
   What a read past the cache gives: the content of the first reader, in order of preference, that is offered its
   format and succeeds, unless it is the last content again; it is cached unless caching is off or it is an unchanged
   text. The read fails exactly when no reader succeeds.
   */
  lemma RealReadIs(c: Clipboard, src: Sources, now: int)
    requires !CacheValid(c, now)
    ensures forall k: nat :: Wins(src, k) ==>
              var content := Answer(src, k).value;
              var changed := content.data != c.lastContent;
              && ReadStep(c, src, now).1 == (if changed then Fresh(content) else Unchanged)
              && ReadStep(c, src, now).0 == c.(
                   lastContent := content.data,
                   cache := if c.enabled && (k < 5 || changed) then Some(CacheEntry(content, src.formats, now))
                            else c.cache)
    ensures ReadStep(c, src, now).1 == Failed <==> !exists k: nat :: Wins(src, k)
    ensures ReadStep(c, src, now).1 == Failed ==> ReadStep(c, src, now).0 == c
  {
    hide Pick, Wins, Answer;
    SomeoneWinsIff(src);
    forall k: nat | Wins(src, k)
      ensures k < READERS && Answer(src, k).Some?
      ensures Pick(src) == if k == 5 then Text(Answer(src, k).value) else Rich(Answer(src, k).value)
    {
      WinnerSucceeds(src, k);
      PickWins(src, k);
    }
  }

  lemma WinnerSucceeds(src: Sources, k: nat)
    requires Wins(src, k)
    ensures k < READERS && Answer(src, k).Some?
  {}

  /** What a read past the cache has cached answers exactly the reads less than the expiry later. */
  lemma CachedUntilExpiryIff(c: Clipboard, src: Sources, at: int, k: nat, later: Sources, now: int)
    requires !CacheValid(c, at) && c.enabled && Wins(src, k) && (k < 5 || Answer(src, k).value.data != c.lastContent)
    ensures var result := ReadStep(ReadStep(c, src, at).0, later, now).1;
            && (result.Cached? <==> now - at < c.expiry)
            && (result.Cached? ==> result == Cached(Answer(src, k).value.(compressed := false)))
  {
    hide Pick, Wins, Answer;
    RealReadIs(c, src, at);
  }

  // ---------- The object ----------

  class LinuxClipboard {
    var lastContent: Bytes
    var contentCache: Option<CacheEntry>
    var cacheEnabled: bool
    var cacheExpiry: int

    function State(): Clipboard
      reads this
    {
      Clipboard(lastContent, contentCache, cacheEnabled, cacheExpiry)
    }

    constructor ()
      ensures State() == FRESH
    {
      lastContent, contentCache, cacheEnabled, cacheExpiry := [], None, true, 2000;
    }

    method UpdateCache(content: Content, formats: seq<MimeType>, now: int)
      modifies this`contentCache
      ensures State() == Updated(old(State()), content, formats, now)
    {
      if !cacheEnabled { return; }
      contentCache := Some(CacheEntry(content, formats, now));
    }

    method GetCachedContent(now: int) returns (content: Option<Content>)
      ensures content == if CacheValid(State(), now) then Some(contentCache.value.content.(compressed := false))
                         else None
    {
      if !cacheEnabled || contentCache.None? || now - contentCache.value.readAt >= cacheExpiry { return None; }
      return Some(contentCache.value.content.(compressed := false));
    }

    method HasImageFormat(formats: seq<MimeType>) returns (found: bool)
      ensures found == exists f :: f in IMAGE_FORMATS && f in formats
    {
      for i := 0 to |IMAGE_FORMATS|
        invariant forall f :: f in IMAGE_FORMATS[..i] ==> f !in formats
      {
        if IMAGE_FORMATS[i] in formats {
          assert IMAGE_FORMATS[i] in IMAGE_FORMATS;
          return true;
        }
      }
      assert IMAGE_FORMATS[..|IMAGE_FORMATS|] == IMAGE_FORMATS;
      return false;
    }

    /** The common tail of the rich readers. */
    method Deliver(content: Content, formats: seq<MimeType>, now: int) returns (result: ReadResult)
      requires !CacheValid(State(), now)
      modifies this
      ensures var d := Updated(old(State()), content, formats, now);
              if content.data == old(lastContent) then State() == d && result == Unchanged
              else State() == d.(lastContent := content.data) && result == Fresh(content)
    {
      UpdateCache(content, formats, now);
      if content.data == lastContent { return Unchanged; }
      lastContent := content.data;
      return Fresh(content);
    }

    method Read(src: Sources, now: int) returns (result: ReadResult)
      modifies this
      ensures (State(), result) == ReadStep(old(State()), src, now)
    {
      var cached := GetCachedContent(now);
      if cached.Some? { return Cached(cached.value); }
      if src.custom.Some? {
        result := Deliver(src.custom.value, src.formats, now);
        return;
      }
      if MIME_HTML in src.formats && src.html.Some? {
        result := Deliver(src.html.value, src.formats, now);
        return;
      }
      if MIME_RTF in src.formats && src.rtf.Some? {
        result := Deliver(src.rtf.value, src.formats, now);
        return;
      }
      var image := HasImageFormat(src.formats);
      if image && src.image.Some? {
        result := Deliver(src.image.value, src.formats, now);
        return;
      }
      if (MIME_URI in src.formats || MIME_FILENAMES in src.formats) && src.file.Some? {
        result := Deliver(src.file.value, src.formats, now);
        return;
      }
      if src.text.None? { return Failed; }
      var content := src.text.value;
      if content.data == lastContent { return Unchanged; }
      lastContent := content.data;
      UpdateCache(content, src.formats, now);
      return Fresh(content);
    }

    method Write(content: Option<Content>, custom: set<ContentType>, accepted: bool) returns (ok: bool)
      modifies this
      ensures (State(), ok) == WriteStep(old(State()), content, custom, accepted)
    {
      if content.None? || content.value.data == [] { return false; }
      if content.value.kind in custom { return accepted; }
      if !BuiltIn(content.value.kind) || !accepted { return false; }
      lastContent := content.value.data;
      contentCache := None;
      return true;
    }

    method EnableCache(enabled: bool)
      modifies this`cacheEnabled
      ensures State() == old(State()).(enabled := enabled)
    {
      cacheEnabled := enabled;
    }

    method SetCacheExpiry(expiryMs: int)
      modifies this`cacheExpiry
      ensures State() == old(State()).(expiry := if expiryMs < 100 then 100 else expiryMs)
    {
      cacheExpiry := if expiryMs < 100 then 100 else expiryMs;
    }
  }

  // ---------- Runs ----------

  datatype Op =
    | ReadOp(src: Sources, now: int)
    | WriteOp(content: Option<Content>, custom: set<ContentType>, accepted: bool)
    | EnableOp(enable: bool)
    | ExpiryOp(ms: int)

  /** Something really read from the display server. */
  datatype RealRead = RealRead(at: int, content: Content, formats: seq<MimeType>)

  /** The clipboard together with everything really read since the last successful built-in write. */
  datatype History = History(clip: Clipboard, log: seq<RealRead>)

  predicate ClearingWrite(op: Op) {
    op.WriteOp? && op.content.Some? && op.content.value.data != [] && op.content.value.kind !in op.custom
    && BuiltIn(op.content.value.kind) && op.accepted
  }

  function Step(h: History, op: Op): History {
    match op
    case ReadOp(src, now) =>
      var picked := Pick(src);
      History(ReadStep(h.clip, src, now).0,
              if CacheValid(h.clip, now) || picked.Nothing? then h.log
              else h.log + [RealRead(now, picked.content, src.formats)])
    case WriteOp(content, custom, accepted) =>
      History(WriteStep(h.clip, content, custom, accepted).0, if ClearingWrite(op) then [] else h.log)
    case EnableOp(enable) => h.(clip := h.clip.(enabled := enable))
    case ExpiryOp(ms) => h.(clip := h.clip.(expiry := if ms < 100 then 100 else ms))
  }

  function Run(h: History, ops: seq<Op>): History
    decreases |ops|
  {
    if ops == [] then h else Run(Step(h, ops[0]), ops[1..])
  }

  /** A present entry holds the last content. */
  predicate CacheIsLast(c: Clipboard) { c.cache.Some? ==> c.cache.value.content.data == c.lastContent }

  function RealReadOf(e: CacheEntry): RealRead { RealRead(e.readAt, e.content, e.formats) }

  /** A present entry was really read, at its time, since the last built-in write. */
  predicate CacheWasRead(h: History) {
    h.clip.cache.Some? ==> RealReadOf(h.clip.cache.value) in h.log
  }

  /** While caching stays enabled the cache never disagrees with the last content. */
  lemma {:induction false} CacheAgrees(h: History, ops: seq<Op>)
    requires h.clip.enabled && CacheIsLast(h.clip)
    requires EnableOp(false) !in ops
    ensures CacheIsLast(Run(h, ops).clip) && Run(h, ops).clip.enabled
    decreases |ops|
  {
    if ops != [] {
      assert ops[0] in ops;
      if ops[0].EnableOp? { assert ops[0].enable; }
      CacheAgrees(Step(h, ops[0]), ops[1..]);
    }
  }

  /** A read of something new while caching is off and an older entry is left behind. */
  predicate LeavesStale(c: Clipboard, op: Op) {
    && op.ReadOp? && !c.enabled && c.cache.Some?
    && !Pick(op.src).Nothing? && Pick(op.src).content.data != c.lastContent
  }

  /** An operation breaks the agreement exactly when it is such a read. */
  lemma StepKeepsAgreementIff(h: History, op: Op)
    requires CacheIsLast(h.clip)
    ensures CacheIsLast(Step(h, op).clip) <==> !LeavesStale(h.clip, op)
  {}

  function TextOnly(content: Content): Sources {
    Sources([], None, None, None, None, None, Some(content))
  }

  /** Read `a`, switch caching off, read `b`, switch it on again: the next read within the expiry gives `a`. */
  lemma TogglingReadsBackTheOlder(a: Content, b: Content, src: Sources, now: int)
    requires a.data != [] && b.data != [] && a.data != b.data && now < FRESH.expiry
    ensures var ops := [ReadOp(TextOnly(a), 0), EnableOp(false), ReadOp(TextOnly(b), 1), EnableOp(true)];
            var h := Run(History(FRESH, []), ops);
            && h.log == [RealRead(0, a, []), RealRead(1, b, [])] && h.clip.lastContent == b.data
            && ReadStep(h.clip, src, now).1 == Cached(a.(compressed := false))
  {
    var h0 := History(FRESH, []);
    var ops := [ReadOp(TextOnly(a), 0), EnableOp(false), ReadOp(TextOnly(b), 1), EnableOp(true)];
    assert ops[1..] == [EnableOp(false), ReadOp(TextOnly(b), 1), EnableOp(true)];
    assert ops[1..][1..] == [ReadOp(TextOnly(b), 1), EnableOp(true)];
    assert ops[1..][1..][1..] == [EnableOp(true)];
    var h1 := Step(h0, ops[0]);
    assert h1 == History(Clipboard(a.data, Some(CacheEntry(a, [], 0)), true, 2000), [RealRead(0, a, [])]);
    var h2 := Step(h1, EnableOp(false));
    var h3 := Step(h2, ReadOp(TextOnly(b), 1));
    assert h3.clip == Clipboard(b.data, h1.clip.cache, false, 2000);
    assert h3.log == [RealRead(0, a, []), RealRead(1, b, [])];
    assert Run(h3, [EnableOp(true)]) == Step(h3, EnableOp(true));
    assert Run(h2, ops[1..][1..]) == Run(h3, ops[1..][1..][1..]);
    assert Run(h1, ops[1..]) == Run(h2, ops[1..][1..]);
  }

  /** In every run, toggling caching or not, a present entry was really read since the last built-in write. */
  lemma {:induction false} CacheComesFromReads(h: History, ops: seq<Op>)
    requires CacheWasRead(h)
    ensures CacheWasRead(Run(h, ops))
    decreases |ops|
  {
    if ops != [] { CacheComesFromReads(Step(h, ops[0]), ops[1..]); }
  }

  /**
   From a new clipboard, after any operations: what a cached read returns was really read less than the
   expiry ago, and after the last successful write of a built-in type.
   */
  lemma CachedReadIsRecent(ops: seq<Op>, src: Sources, now: int)
    ensures var h := Run(History(FRESH, []), ops);
            var result := ReadStep(h.clip, src, now).1;
            result.Cached? ==>
              exists r :: r in h.log && result == Cached(r.content.(compressed := false)) && now - r.at < h.clip.expiry
  {
    CacheComesFromReads(History(FRESH, []), ops);
    var h := Run(History(FRESH, []), ops);
    if CacheValid(h.clip, now) {
      assert RealReadOf(h.clip.cache.value) in h.log;
    }
  }

  /**
   Which writes succeed, and what they do: nonempty contents of a registered custom type, which change nothing, or
   of a built-in type, which become the last content and empty the cache; in both cases if the writer succeeds.
   */
  lemma WriteIs(c: Clipboard, content: Option<Content>, custom: set<ContentType>, accepted: bool)
    ensures var (d, ok) := WriteStep(c, content, custom, accepted);
            && (ok <==> && accepted && content.Some? && |content.value.data| > 0
                        && (content.value.kind in custom ||
                            content.value.kind in {"text", "html", "rtf", "image", "filepath", "file", "url"}))
            && d == (if ok && content.value.kind !in custom then c.(lastContent := content.value.data, cache := None)
                     else c)
  {}

  /**
   After a successful write a read is answered from the cache exactly when the cache was valid and a custom type
   took the write over; then it gives what a read before the write would have given, whatever was written.
   */
  lemma ReadAfterWrite(
      c: Clipboard, content: Option<Content>, custom: set<ContentType>, accepted: bool, src: Sources, now: int)
    requires WriteStep(c, content, custom, accepted).1
    ensures var result := ReadStep(WriteStep(c, content, custom, accepted).0, src, now).1;
            && (result.Cached? <==> CacheValid(c, now) && content.value.kind in custom)
            && (result.Cached? ==> forall before :: ReadStep(c, before, now).1 == result)
            && (Pick(src) == Text(content.value) && content.value.kind !in custom ==> result == Unchanged)
  {
    hide Pick;
  }

  /** Read `a`, write `w` as a custom type: the next read within the expiry still gives `a`. */
  lemma CustomWriteIsNotSeen(a: Content, w: Content, src: Sources, now: int)
    requires a.data != [] && w.data != [] && now < FRESH.expiry
    ensures var c := ReadStep(FRESH, TextOnly(a), 0).0;
            var (d, ok) := WriteStep(c, Some(w), {w.kind}, true);
            ok && ReadStep(d, src, now).1 == Cached(a.(compressed := false))
  {
    var c := ReadStep(FRESH, TextOnly(a), 0).0;
    assert c == Clipboard(a.data, Some(CacheEntry(a, [], 0)), true, 2000);
    ReadAfterWrite(c, Some(w), {w.kind}, true, src, now);
  }
}
