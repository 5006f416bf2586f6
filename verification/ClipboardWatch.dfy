/** Polling through the cache: which contents of the display server the polling goroutine delivers, and when. */
module ClipboardWatch {
  import opened ByteStrings
  import opened Sequences
  import opened ClipboardTypes
  import opened ContentHash
  import P = Polling
  import C = ClipboardCache

  /**
   One tick: what the display server would list (None is an error), what reading would find there, and the
   times at which the formats are asked for and the content is read.
   */
  datatype Round = Round(listed: Option<seq<MimeType>>, src: C.Sources, listedAt: int, readAt: int)

  datatype Watch = Watch(clip: C.Clipboard, poll: P.PollState)

  /** `getAvailableFormats`: those of a valid cache entry that has some, else the display server's. */
  function Listing(c: C.Clipboard, r: Round): Option<seq<MimeType>> {
    if C.CacheValid(c, r.listedAt) && c.cache.value.formats != [] then Some(c.cache.value.formats) else r.listed
  }

  /** What the goroutine makes of a result of `Read`. */
  function Outcome(result: C.ReadResult): P.ReadOutcome {
    match result
    case Cached(content) => P.Got(content.data)
    case Fresh(content) => P.Got(content.data)
    case Unchanged => P.Unchanged
    case Failed => P.ReadFailed
  }

  function InputOf(c: C.Clipboard, r: Round): P.Input {
    P.Input(Listing(c, r), Outcome(C.ReadStep(c, r.src, r.readAt).1))
  }

  /** One tick of the goroutine on the clipboard it reads. */
  function Turn(cfg: P.PollConfig, w: Watch, r: Round): (Watch, P.Output) {
    var (poll, output) := P.Tick(cfg, w.poll, InputOf(w.clip, r));
    (Watch(if P.DidRead(output) then C.ReadStep(w.clip, r.src, r.readAt).0 else w.clip, poll), output)
  }

  function Turns(cfg: P.PollConfig, w: Watch, rounds: seq<Round>): (t: (Watch, seq<P.Output>))
    ensures |t.1| == |rounds|
    decreases |rounds|
  {
    if rounds == [] then (w, [])
    else
      var (v, output) := Turn(cfg, w, rounds[0]);
      var (t, outputs) := Turns(cfg, v, rounds[1..]);
      (t, [output] + outputs)
  }

  /** A new goroutine on a new clipboard, with caching on or off. */
  function Start(cfg: P.PollConfig, caching: bool, expiry: int): Watch {
    Watch(C.FRESH.(enabled := caching, expiry := expiry), P.Initial(cfg))
  }

  /** While a cache entry with formats is valid a tick sees those, and may skip, whatever the display server lists. */
  lemma CachedFormatsAreSeen(cfg: P.PollConfig, w: Watch, r: Round)
    requires w.clip.enabled && w.clip.cache.Some? && r.listedAt - w.clip.cache.value.readAt < w.clip.expiry
    requires |w.clip.cache.value.formats| > 0
    ensures var (v, o) := Turn(cfg, w, r);
            && o != P.FormatError
            && (o == P.Skipped <==> P.TakenForSame(w.poll.formats, w.clip.cache.value.formats)
                                    && w.poll.skip < cfg.threshold - 1)
            && (o == P.Skipped ==> v.clip == w.clip)
  {
    hide P.Tick, C.ReadStep;
    P.TickRemembers(cfg, w.poll, InputOf(w.clip, r));
  }

  // ---------- Goroutine and clipboard remember the same ----------

  /** The cache agrees with the last content, and its hash is that of the last delivery. */
  ghost predicate InStep(cfg: P.PollConfig, w: Watch) {
    && C.CacheIsLast(w.clip) && (w.clip.enabled || w.clip.cache.None?)
    && HashText(w.clip.lastContent) == w.poll.lastHash && w.poll.skip < cfg.threshold
  }

  lemma ReadKeepsCache(c: C.Clipboard, src: C.Sources, now: int)
    requires C.CacheIsLast(c) && (c.enabled || c.cache.None?)
    ensures var (d, result) := C.ReadStep(c, src, now);
            && C.CacheIsLast(d) && (d.enabled || d.cache.None?)
            && d.lastContent == (if result.Fresh? then result.content.data else c.lastContent)
            && (result.Cached? ==> d == c && result.content.data == c.lastContent)
            && (result.Fresh? ==> C.Pick(src) != C.Nothing && C.Pick(src).content == result.content)
  {
    hide C.Pick;
  }

  lemma TickFacts(cfg: P.PollConfig, s: P.PollState, input: P.Input)
    ensures var (t, o) := P.Tick(cfg, s, input);
            && (o.Delivered? <==> P.DidRead(o) && input.read.Got? && HashText(input.read.data) != s.lastHash)
            && (o.Delivered? ==> o.data == input.read.data && t.lastHash == HashText(o.data))
            && (!o.Delivered? ==> t.lastHash == s.lastHash)
  {
    hide HashText, P.SameFormats;
  }

  /** A tick delivers exactly what it really reads with a new hash, never what the cache holds. */
  lemma TurnDeliversIff(cfg: P.PollConfig, w: Watch, r: Round)
    requires P.Sensible(cfg) && InStep(cfg, w)
    ensures var (v, o) := Turn(cfg, w, r);
            var result := C.ReadStep(w.clip, r.src, r.readAt).1;
            && InStep(cfg, v) && v.clip.expiry == w.clip.expiry
            && (o.Delivered? <==> P.DidRead(o) && result.Fresh? && HashText(result.content.data) != w.poll.lastHash)
            && (o.Delivered? ==> o.data == result.content.data)
            && (!o.Delivered? ==> v.poll.lastHash == w.poll.lastHash)
  {
    hide HashText, P.Tick, C.ReadStep, C.CacheIsLast, Listing;
    var input := InputOf(w.clip, r);
    ReadKeepsCache(w.clip, r.src, r.readAt);
    ReadKeepsExpiry(w.clip, r.src, r.readAt);
    TickFacts(cfg, w.poll, input);
    P.SkipStep(cfg, w.poll, input);
  }

  lemma ReadKeepsExpiry(c: C.Clipboard, src: C.Sources, now: int)
    ensures C.ReadStep(c, src, now).0.expiry == c.expiry
  {
    hide C.Pick;
  }

  lemma StartInStep(cfg: P.PollConfig, caching: bool, expiry: int)
    requires P.Sensible(cfg)
    ensures InStep(cfg, Start(cfg, caching, expiry))
  {}

  lemma {:induction false} TurnsInStep(cfg: P.PollConfig, w: Watch, rounds: seq<Round>)
    requires P.Sensible(cfg) && InStep(cfg, w)
    ensures InStep(cfg, Turns(cfg, w, rounds).0)
    decreases |rounds|
  {
    hide InStep, Turn;
    if rounds != [] {
      TurnDeliversIff(cfg, w, rounds[0]);
      TurnsInStep(cfg, Turn(cfg, w, rounds[0]).0, rounds[1..]);
    }
  }

  /** The display server has content with `data` for the readers. */
  predicate Shows(r: Round, data: Bytes) { C.Pick(r.src) != C.Nothing && C.Pick(r.src).content.data == data }

  lemma {:induction false} DeliversWhatIsShown(cfg: P.PollConfig, w: Watch, rounds: seq<Round>, i: nat)
    requires P.Sensible(cfg) && InStep(cfg, w) && i < |rounds| && Turns(cfg, w, rounds).1[i].Delivered?
    ensures Shows(rounds[i], Turns(cfg, w, rounds).1[i].data)
    decreases |rounds|
  {
    hide InStep, Turn, C.Pick, C.ReadStep;
    TurnDeliversIff(cfg, w, rounds[0]);
    if i == 0 {
      FreshIsShown(cfg, w, rounds[0]);
    } else {
      DeliversWhatIsShown(cfg, Turn(cfg, w, rounds[0]).0, rounds[1..], i - 1);
    }
  }

  lemma FreshIsShown(cfg: P.PollConfig, w: Watch, r: Round)
    requires InStep(cfg, w)
    ensures var result := C.ReadStep(w.clip, r.src, r.readAt).1; result.Fresh? ==> Shows(r, result.content.data)
  {
    hide C.Pick, C.ReadStep, HashText;
    ReadKeepsCache(w.clip, r.src, r.readAt);
  }

  /** In every run, what a tick delivers is then on the display server: the cache never delivers a stale content. */
  lemma DeliveriesAreReal(cfg: P.PollConfig, caching: bool, expiry: int, rounds: seq<Round>, i: nat)
    requires P.Sensible(cfg) && i < |rounds| && Turns(cfg, Start(cfg, caching, expiry), rounds).1[i].Delivered?
    ensures Shows(rounds[i], Turns(cfg, Start(cfg, caching, expiry), rounds).1[i].data)
  {
    hide InStep, Turns, Start, Shows;
    StartInStep(cfg, caching, expiry);
    DeliversWhatIsShown(cfg, Start(cfg, caching, expiry), rounds, i);
  }

  // ---------- New content arrives ----------

  /** The cache, if any, has expired at `now`. */
  predicate ExpiredAt(c: C.Clipboard, now: int) { c.cache.Some? ==> now - c.cache.value.readAt >= c.expiry }

  /** How many of the rounds the display server lists formats in. */
  function Listed(rounds: seq<Round>): nat {
    if rounds == [] then 0 else (if rounds[0].listed.Some? then 1 else 0) + Listed(rounds[1..])
  }

  ghost predicate Delivers(outputs: seq<P.Output>, data: Bytes) { P.Delivered(data) in outputs }

  /** A real read of a new content delivers it. */
  lemma RealReadDelivers(cfg: P.PollConfig, w: Watch, r: Round, data: Bytes)
    requires P.Sensible(cfg) && InStep(cfg, w) && Shows(r, data) && HashText(data) != w.poll.lastHash
    ensures var (v, o) := Turn(cfg, w, r);
            if P.DidRead(o) && !C.CacheValid(w.clip, r.readAt) then o == P.Delivered(data)
            else v.clip == w.clip && v.poll.lastHash == w.poll.lastHash
  {
    hide HashText, P.Tick, C.ReadStep, C.Pick, Listing;
    TurnDeliversIff(cfg, w, r);
    ReadKeepsCache(w.clip, r.src, r.readAt);
    NewIsFresh(w.clip, r.src, r.readAt);
  }

  lemma NewIsFresh(c: C.Clipboard, src: C.Sources, now: int)
    ensures var result := C.ReadStep(c, src, now).1;
            && (C.CacheValid(c, now) <==> result.Cached?)
            && (!C.CacheValid(c, now) && C.Pick(src) != C.Nothing && C.Pick(src).content.data != c.lastContent ==>
                  result == C.Fresh(C.Pick(src).content))
  {
    hide C.Pick;
  }

  /** Until the first real read nothing happens; that one delivers the new content. */
  lemma {:induction false} WaitsOrDelivers(cfg: P.PollConfig, w: Watch, rounds: seq<Round>, data: Bytes)
    requires P.Sensible(cfg) && InStep(cfg, w) && HashText(data) != w.poll.lastHash
    requires forall r :: r in rounds ==> Shows(r, data)
    ensures var (v, outputs) := Turns(cfg, w, rounds);
            Delivers(outputs, data) ||
            (InStep(cfg, v) && v.clip == w.clip && v.poll.lastHash == w.poll.lastHash)
    decreases |rounds|
  {
    hide HashText, Turn, Shows, InStep;
    if rounds != [] {
      var (v, o) := Turn(cfg, w, rounds[0]);
      assert rounds[0] in rounds;
      RealReadDelivers(cfg, w, rounds[0], data);
      TurnDeliversIff(cfg, w, rounds[0]);
      if o != P.Delivered(data) { WaitsOrDelivers(cfg, v, rounds[1..], data); }
    }
  }

  lemma ExpiredTurn(cfg: P.PollConfig, w: Watch, r: Round)
    requires P.Sensible(cfg) && InStep(cfg, w) && ExpiredAt(w.clip, r.listedAt) && ExpiredAt(w.clip, r.readAt)
    ensures !C.CacheValid(w.clip, r.readAt)
    ensures var (v, o) := Turn(cfg, w, r);
            !P.DidRead(o) ==> v.poll.skip == w.poll.skip + (if r.listed.Some? then 1 else 0)
  {
    hide HashText, P.Tick, C.ReadStep;
    P.SkipStep(cfg, w.poll, InputOf(w.clip, r));
  }

  /** Once the cache has expired, the new content comes within the ticks that the poller may still skip. */
  lemma {:induction false} ExpiredDelivers(cfg: P.PollConfig, w: Watch, rounds: seq<Round>, data: Bytes)
    requires P.Sensible(cfg) && InStep(cfg, w) && HashText(data) != w.poll.lastHash
    requires forall r :: r in rounds ==> Shows(r, data) && ExpiredAt(w.clip, r.listedAt) && ExpiredAt(w.clip, r.readAt)
    requires w.poll.skip + Listed(rounds) >= cfg.threshold
    ensures Delivers(Turns(cfg, w, rounds).1, data)
    decreases |rounds|
  {
    hide HashText, Turn, Shows;
    if rounds != [] {
      var (v, o) := Turn(cfg, w, rounds[0]);
      assert rounds[0] in rounds;
      ExpiredTurn(cfg, w, rounds[0]);
      RealReadDelivers(cfg, w, rounds[0], data);
      TurnDeliversIff(cfg, w, rounds[0]);
      if o != P.Delivered(data) { ExpiredDelivers(cfg, v, rounds[1..], data); }
    }
  }

  lemma {:induction false} TurnsConcat(cfg: P.PollConfig, w: Watch, a: seq<Round>, b: seq<Round>)
    ensures var (v, outputs) := Turns(cfg, w, a);
            var (t, more) := Turns(cfg, v, b);
            Turns(cfg, w, a + b) == (t, outputs + more)
    decreases |a|
  {
    hide Turn;
    if a == [] {
      EmptyPrefix(b);
      EmptyPrefix(Turns(cfg, w, b).1);
    } else {
      var (v, o) := Turn(cfg, w, a[0]);
      TurnsConcat(cfg, v, a[1..], b);
      assert (a + b)[0] == a[0] && (a + b)[1..] == a[1..] + b;
      Associative([o], Turns(cfg, v, a[1..]).1, Turns(cfg, Turns(cfg, v, a[1..]).0, b).1);
    }
  }

  lemma {:induction false} DeliveriesConcat(a: seq<P.Output>, b: seq<P.Output>)
    ensures P.Deliveries(a + b) == P.Deliveries(a) + P.Deliveries(b)
  {
    if b == [] {
      assert a + b == a;
    } else {
      var n := |b| - 1;
      DeliveriesConcat(a, b[..n]);
      assert (a + b)[..|a + b| - 1] == a + b[..n];
    }
  }

  lemma {:induction false} HashOfLastDelivery(cfg: P.PollConfig, w: Watch, rounds: seq<Round>)
    requires P.Sensible(cfg) && InStep(cfg, w)
    ensures var (t, outputs) := Turns(cfg, w, rounds);
            var d := P.Deliveries(outputs);
            t.poll.lastHash == if d == [] then w.poll.lastHash else P.LastDeliveredHash(d)
    decreases |rounds|
  {
    hide HashText, InStep, Turn;
    if rounds != [] {
      var (v, o) := Turn(cfg, w, rounds[0]);
      TurnDeliversIff(cfg, w, rounds[0]);
      DeliveredHash(cfg, w, rounds[0]);
      HashOfLastDelivery(cfg, v, rounds[1..]);
      DeliveriesConcat([o], Turns(cfg, v, rounds[1..]).1);
      assert [o][..0] == [];
      assert P.Deliveries([o]) == if o.Delivered? then [o.data] else [];
    }
  }

  lemma DeliveredHash(cfg: P.PollConfig, w: Watch, r: Round)
    ensures var (v, o) := Turn(cfg, w, r); o.Delivered? ==> v.poll.lastHash == HashText(o.data)
  {
    hide HashText, P.Tick, InputOf;
    TickFacts(cfg, w.poll, InputOf(w.clip, r));
  }

  /**
   New content arrives. After any run, let the display server show, from then on, a content whose hash is not
   that of the last delivery. It is delivered before `threshold` listings have succeeded past the time
   at which the cache entry of that moment expires, however the ticks fall before.
   */
  lemma NewContentArrives(
      cfg: P.PollConfig, caching: bool, expiry: int,
      before: seq<Round>, waiting: seq<Round>, after: seq<Round>, data: Bytes)
    requires P.Sensible(cfg) && Listed(after) >= cfg.threshold
    requires forall r :: r in waiting + after ==> Shows(r, data)
    ensures var (w, outputs) := Turns(cfg, Start(cfg, caching, expiry), before);
            && HashText(data) != P.LastDeliveredHash(P.Deliveries(outputs))
            && (forall r :: r in after ==> ExpiredAt(w.clip, r.listedAt) && ExpiredAt(w.clip, r.readAt)) ==>
              Delivers(Turns(cfg, w, waiting + after).1, data)
  {
    hide HashText, Turns, InStep, Shows;
    var start := Start(cfg, caching, expiry);
    var (w, outputs) := Turns(cfg, start, before);
    StartInStep(cfg, caching, expiry);
    TurnsInStep(cfg, start, before);
    HashOfLastDelivery(cfg, start, before);
    forall r | r in waiting || r in after ensures Shows(r, data) { assert r in waiting + after; }
    TurnsConcat(cfg, w, waiting, after);
    if && HashText(data) != P.LastDeliveredHash(P.Deliveries(outputs))
       && forall r :: r in after ==> ExpiredAt(w.clip, r.listedAt) && ExpiredAt(w.clip, r.readAt)
    {
      WaitsOrDelivers(cfg, w, waiting, data);
      if !Delivers(Turns(cfg, w, waiting).1, data) { ExpiredDelivers(cfg, Turns(cfg, w, waiting).0, after, data); }
    }
  }
}
