/** Adaptive polling: the state one tick works on, and what every run of ticks keeps. */
module Polling {
  import opened ByteStrings
  import opened Sequences
  import opened ClipboardTypes
  import opened ContentHash

  // ---------- Comparing format lists ----------

  /** `formatsEqual`: equal length, and everything in `b` is in `a`. */
  predicate SameFormats(a: seq<MimeType>, b: seq<MimeType>) { |a| == |b| && forall v :: v in b ==> v in a }

  method FormatsEqual(a: seq<MimeType>, b: seq<MimeType>) returns (equal: bool)
    ensures equal == SameFormats(a, b)
  {
    if |a| != |b| { return false; }
    var aMap: set<MimeType> := {};
    for i := 0 to |a|
      invariant forall v :: v in aMap <==> v in a[..i]
    {
      aMap := aMap + {a[i]};
    }
    assert a[..|a|] == a;
    for i := 0 to |b|
      invariant forall v :: v in b[..i] ==> v in a
    {
      if b[i] !in aMap { return false; }
    }
    assert b[..|b|] == b;
    return true;
  }

  function Elements(s: seq<MimeType>): set<MimeType> { set v | v in s }

  lemma {:induction false} ElementCount(s: seq<MimeType>)
    ensures |Elements(s)| <= |s|
    ensures Distinct(s) <==> |Elements(s)| == |s|
  {
    if s != [] {
      var n := |s| - 1;
      var rest := s[..n];
      ElementCount(rest);
      assert Elements(s) == Elements(rest) + {s[n]};
      if s[n] in rest {
        assert Elements(s) == Elements(rest);
        var i :| 0 <= i < n && rest[i] == s[n];
        assert s[i] == s[n];
      }
      assert Distinct(s) ==> Distinct(rest);
      assert Distinct(rest) && s[n] !in rest ==> Distinct(s);
    }
  }

  lemma {:induction false} DistinctMultiset(s: seq<MimeType>)
    requires Distinct(s)
    ensures multiset(s) == multiset(Elements(s))
  {
    if s != [] {
      var n := |s| - 1;
      assert s == s[..n] + [s[n]];
      DistinctMultiset(s[..n]);
      assert Elements(s) == Elements(s[..n]) + {s[n]};
    }
  }

  /** By pigeonhole: against a duplicate-free list, equal means a permutation. */
  lemma SameFormatsIsPermutation(a: seq<MimeType>, b: seq<MimeType>)
    requires Distinct(b)
    ensures SameFormats(a, b) <==> multiset(a) == multiset(b)
  {
    ElementCount(a);
    ElementCount(b);
    DistinctMultiset(b);
    if SameFormats(a, b) {
      SubsetOfSameSize(Elements(b), Elements(a));
      DistinctMultiset(a);
    }
    if multiset(a) == multiset(b) {
      assert |multiset(a)| == |a| && |multiset(b)| == |b|;
      forall v | v in b ensures v in a { assert v in multiset(b); }
    }
  }

  lemma {:induction false} SubsetOfSameSize(x: set<MimeType>, y: set<MimeType>)
    requires x <= y && |y| <= |x|
    ensures x == y
  {
    var more := y - x;
    assert y == x + more;
    assert |y| == |x| + |more|;
  }

  function Longest(s: seq<MimeType>): nat {
    if s == [] then 0 else if |s[0]| > Longest(s[1..]) then |s[0]| else Longest(s[1..])
  }

  lemma {:induction false} LongestBounds(s: seq<MimeType>)
    ensures forall v :: v in s ==> |v| <= Longest(s)
  {
    if s != [] { LongestBounds(s[1..]); }
  }

  /**
   The comment on `formatsEqual` promises equal sets in any order. What it accepts for `b` are the
   permutations of `b` exactly when `b` has no duplicates.
   */
  lemma FormatsEqualMeansPermutationIff(b: seq<MimeType>)
    ensures (forall a :: SameFormats(a, b) ==> multiset(a) == multiset(b)) <==> Distinct(b)
  {
    if Distinct(b) {
      forall a | SameFormats(a, b) ensures multiset(a) == multiset(b) { SameFormatsIsPermutation(a, b); }
    } else {
      var i, j :| 0 <= i < j < |b| && b[i] == b[j];
      var fresh' := seq(Longest(b) + 1, _ => 'x');
      LongestBounds(b);
      var a := b[i := fresh'];
      forall v | v in b ensures v in a {
        var k :| 0 <= k < |b| && b[k] == v;
        assert a[if k == i then j else k] == v;
      }
      assert a[i] == fresh' && fresh' in multiset(a) && fresh' !in multiset(b);
      assert SameFormats(a, b) && multiset(a) != multiset(b);
    }
  }

  // ---------- One tick ----------

  datatype PollConfig = PollConfig(base: int, max: int, threshold: nat)

  /** `SetPollingIntervals`, in milliseconds. */
  function Intervals(baseMs: int, maxMs: int): (r: (int, int))
    ensures 1000 <= r.0 <= r.1
    ensures 1000 <= baseMs <= maxMs ==> r == (baseMs, maxMs)
    ensures baseMs <= r.0 && (r.0 == 1000 || r.0 == baseMs)
    ensures r.0 <= maxMs ==> r.1 == maxMs
    ensures maxMs < r.0 ==> r.1 == 3 * r.0
  {
    var base := if baseMs < 1000 then 1000 else baseMs;
    (base, if maxMs < base then base * 3 else maxMs)
  }

  function Threshold(stealth: bool): nat { if stealth then 5 else 3 }

  datatype PollState = PollState(interval: int, streak: nat, skip: nat, formats: seq<MimeType>, lastHash: string)

  datatype ReadOutcome = Unchanged | ReadFailed | Got(data: Bytes)

  /** What a tick would find: the formats (None is an error), and what reading would give. */
  datatype Input = Input(formats: Option<seq<MimeType>>, read: ReadOutcome)

  datatype Output = FormatError | Skipped | SawUnchanged | SawError | SameHash | Delivered(data: Bytes)

  predicate DidRead(o: Output) { !o.FormatError? && !o.Skipped? }

  predicate Idle(o: Output) { o.Skipped? || o.SawUnchanged? }

  function Initial(cfg: PollConfig): PollState { PollState(cfg.base, 0, 0, [], "") }

  /** Double the interval up to the maximum, from the second idle observation on. */
  function Backoff(cfg: PollConfig, s: PollState): PollState {
    if s.streak < 2 then s
    else s.(interval := if s.interval * 2 > cfg.max then cfg.max else s.interval * 2)
  }

  function AfterRead(cfg: PollConfig, s: PollState, read: ReadOutcome): (PollState, Output) {
    match read
    case Unchanged => (Backoff(cfg, s.(streak := s.streak + 1)), SawUnchanged)
    case ReadFailed => (s, SawError)
    case Got(data) =>
      if HashText(data) == s.lastHash then (s.(streak := s.streak + 1), SameHash)
      else (s.(lastHash := HashText(data), interval := cfg.base, streak := 0), Delivered(data))
  }

  /** One tick of `monitorWithAdaptivePolling`. */
  function Tick(cfg: PollConfig, s: PollState, input: Input): (PollState, Output) {
    match input.formats
    case None => (s, FormatError)
    case Some(formats) =>
      if SameFormats(s.formats, formats) then
        var t := s.(streak := s.streak + 1, skip := s.skip + 1);
        if t.skip < cfg.threshold then (Backoff(cfg, t), Skipped)
        else AfterRead(cfg, t.(skip := 0), input.read)
      else AfterRead(cfg, s.(skip := 0, formats := formats), input.read)
  }

  /** The polling goroutine's variables, changed in place. */
  class Poller {
    const cfg: PollConfig
    var currentInterval: int
    var inactiveStreak: nat
    var skipCounter: nat
    var formats: seq<MimeType>
    var lastContentHash: string

    function State(): PollState
      reads this
    {
      PollState(currentInterval, inactiveStreak, skipCounter, formats, lastContentHash)
    }

    constructor (baseMs: int, maxMs: int, stealth: bool)
      ensures cfg == PollConfig(Intervals(baseMs, maxMs).0, Intervals(baseMs, maxMs).1, Threshold(stealth))
      ensures State() == Initial(cfg)
    {
      var (base, max) := Intervals(baseMs, maxMs);
      cfg := PollConfig(base, max, Threshold(stealth));
      currentInterval := base;
      inactiveStreak, skipCounter, formats, lastContentHash := 0, 0, [], "";
    }

    method BackOff()
      modifies this`currentInterval
      ensures State() == Backoff(cfg, old(State()))
    {
      if inactiveStreak >= 2 {
        var newInterval := currentInterval * 2;
        if newInterval > cfg.max { newInterval := cfg.max; }
        if newInterval != currentInterval { currentInterval := newInterval; }
      }
    }

    method OnTick(input: Input) returns (output: Output)
      modifies this
      ensures (State(), output) == Tick(cfg, old(State()), input)
    {
      if input.formats.None? { return FormatError; }
      var newFormats := input.formats.value;
      var equal := FormatsEqual(formats, newFormats);
      if equal {
        inactiveStreak := inactiveStreak + 1;
        skipCounter := skipCounter + 1;
        if skipCounter < cfg.threshold {
          BackOff();
          return Skipped;
        }
        skipCounter := 0;
      } else {
        skipCounter := 0;
        formats := newFormats;
      }
      match input.read {
        case Unchanged =>
          inactiveStreak := inactiveStreak + 1;
          BackOff();
          return SawUnchanged;
        case ReadFailed =>
          return SawError;
        case Got(data) =>
          var currentHash := HashContent(data);
          if currentHash == lastContentHash {
            inactiveStreak := inactiveStreak + 1;
            return SameHash;
          }
          lastContentHash := currentHash;
          if currentInterval != cfg.base { currentInterval := cfg.base; }
          inactiveStreak := 0;
          return Delivered(data);
      }
    }
  }

  // ---------- Runs ----------

  predicate Sensible(cfg: PollConfig) { 0 < cfg.base <= cfg.max && cfg.threshold > 0 }

  /** The state after `inputs` from the start, and what each tick did. */
  function Run(cfg: PollConfig, inputs: seq<Input>): (r: (PollState, seq<Output>))
    ensures |r.1| == |inputs|
  {
    if inputs == [] then (Initial(cfg), [])
    else
      var n := |inputs| - 1;
      var (s, outputs) := Run(cfg, inputs[..n]);
      var (t, o) := Tick(cfg, s, inputs[n]);
      (t, outputs + [o])
  }

  lemma {:induction false} RunPrefix(cfg: PollConfig, inputs: seq<Input>, n: nat)
    requires n <= |inputs|
    ensures Run(cfg, inputs[..n]).1 == Run(cfg, inputs).1[..n]
  {
    var m := |inputs| - 1;
    if n == |inputs| {
      assert inputs[..n] == inputs;
    } else {
      RunPrefix(cfg, inputs[..m], n);
      assert inputs[..m][..n] == inputs[..n];
    }
  }

  // ---------- The interval ----------

  /** min(base * 2^k, max). */
  function Capped(cfg: PollConfig, k: nat): int {
    var x := cfg.base * Pow2(k);
    if x > cfg.max then cfg.max else x
  }

  /** Idle ticks since the last delivery, or since the start. */
  function IdleSinceDelivery(outputs: seq<Output>): nat {
    if outputs == [] then 0
    else
      var n := |outputs| - 1;
      if outputs[n].Delivered? then 0
      else IdleSinceDelivery(outputs[..n]) + (if Idle(outputs[n]) then 1 else 0)
  }

  /** After `j` idle ticks the interval has been doubled `j` times, or one time less. */
  ghost predicate DoubledAbout(cfg: PollConfig, s: PollState, j: nat) {
    s.interval == Capped(cfg, j) || s.interval == Capped(cfg, if j == 0 then 0 else j - 1)
  }

  lemma DoubleCapped(cfg: PollConfig, k: nat)
    requires Sensible(cfg)
    ensures var d := Capped(cfg, k) * 2; Capped(cfg, k + 1) == if d > cfg.max then cfg.max else d
  {
    assert cfg.base * Pow2(k + 1) == 2 * (cfg.base * Pow2(k));
  }

  lemma BackoffDoubles(cfg: PollConfig, s: PollState, j: nat)
    requires Sensible(cfg) && DoubledAbout(cfg, s, j) && s.streak > j
    ensures DoubledAbout(cfg, Backoff(cfg, s), j + 1)
  {
    DoubleCapped(cfg, j);
    if j > 0 { DoubleCapped(cfg, j - 1); }
  }

  lemma TickDoubles(cfg: PollConfig, s: PollState, input: Input, j: nat)
    requires Sensible(cfg) && DoubledAbout(cfg, s, j) && s.streak >= j
    ensures var (t, o) := Tick(cfg, s, input);
            var j' := if o.Delivered? then 0 else if Idle(o) then j + 1 else j;
            DoubledAbout(cfg, t, j') && t.streak >= j'
  {
    var (t, o) := Tick(cfg, s, input);
    assert Capped(cfg, 0) == cfg.base;
    if input.formats.Some? {
      if SameFormats(s.formats, input.formats.value) {
        var u := s.(streak := s.streak + 1, skip := s.skip + 1);
        BackoffDoubles(cfg, u, j);
        BackoffDoubles(cfg, u.(skip := 0, streak := u.streak + 1), j);
      } else {
        BackoffDoubles(cfg, s.(skip := 0, formats := input.formats.value, streak := s.streak + 1), j);
      }
    }
  }

  lemma {:induction false} RunDoubles(cfg: PollConfig, inputs: seq<Input>)
    requires Sensible(cfg)
    ensures var (s, outputs) := Run(cfg, inputs);
            DoubledAbout(cfg, s, IdleSinceDelivery(outputs)) && s.streak >= IdleSinceDelivery(outputs)
  {
    if inputs == [] {
      assert Capped(cfg, 0) == cfg.base;
    } else {
      var n := |inputs| - 1;
      var (s, outputs) := Run(cfg, inputs[..n]);
      RunDoubles(cfg, inputs[..n]);
      TickDoubles(cfg, s, inputs[n], IdleSinceDelivery(outputs));
      assert (outputs + [Tick(cfg, s, inputs[n]).1])[..n] == outputs;
    }
  }

  lemma {:induction false} CappedGrows(cfg: PollConfig, k: nat, m: nat)
    requires Sensible(cfg) && k <= m
    ensures cfg.base <= Capped(cfg, k) <= Capped(cfg, m) <= cfg.max
  {
    if k < m {
      CappedGrows(cfg, k, m - 1);
      DoubleCapped(cfg, m - 1);
    } else if k > 0 {
      CappedGrows(cfg, k - 1, m - 1);
      DoubleCapped(cfg, k - 1);
    }
  }

  /**
   In every run the interval is base * 2^k capped at the maximum, for a k that is the number of idle
   ticks since the last delivery or one less: it lies between base and max, and j idle ticks bring it
   to min(base * 2^(j-1), max) at least.
   */
  lemma IntervalFollowsIdleTicks(cfg: PollConfig, inputs: seq<Input>)
    requires Sensible(cfg)
    ensures var (s, outputs) := Run(cfg, inputs);
            var j := IdleSinceDelivery(outputs);
            && cfg.base <= s.interval <= cfg.max
            && (s.interval == Capped(cfg, j) || (j > 0 && s.interval == Capped(cfg, j - 1)))
            && (j > 0 ==> s.interval >= Capped(cfg, j - 1))
  {
    var (s, outputs) := Run(cfg, inputs);
    var j := IdleSinceDelivery(outputs);
    RunDoubles(cfg, inputs);
    CappedGrows(cfg, j, j);
    if j > 0 { CappedGrows(cfg, j - 1, j); }
  }

  /** Whether a tick since the last delivery, or since the start, was idle or read the same content again. */
  predicate Warm(outputs: seq<Output>) {
    outputs != [] &&
    (Idle(outputs[|outputs| - 1]) || outputs[|outputs| - 1] == SameHash ||
     (!outputs[|outputs| - 1].Delivered? && Warm(outputs[..|outputs| - 1])))
  }

  /** Idle ticks since the last delivery, the first one counted only if the same content was read again before it. */
  function Doublings(outputs: seq<Output>): nat {
    if outputs == [] then 0
    else
      var n := |outputs| - 1;
      if outputs[n].Delivered? then 0
      else Doublings(outputs[..n]) + (if Idle(outputs[n]) && Warm(outputs[..n]) then 1 else 0)
  }

  /** Cold states have counted and skipped nothing; in warm ones the next idle tick doubles. */
  ghost predicate Backed(cfg: PollConfig, s: PollState, k: nat, warm: bool) {
    s.interval == Capped(cfg, k) && (warm <==> s.streak > 0) && (!warm ==> s.skip == 0)
  }

  lemma BackoffOnce(cfg: PollConfig, s: PollState, k: nat)
    requires Sensible(cfg) && s.interval == Capped(cfg, k)
    ensures Backoff(cfg, s) == s.(interval := if s.streak >= 2 then Capped(cfg, k + 1) else s.interval)
  {
    hide Capped;
    DoubleCapped(cfg, k);
  }

  lemma TickBacks(cfg: PollConfig, s: PollState, input: Input, k: nat, warm: bool)
    requires Sensible(cfg) && cfg.threshold >= 2 && Backed(cfg, s, k, warm)
    ensures var (t, o) := Tick(cfg, s, input);
            Backed(cfg, t, if o.Delivered? then 0 else if Idle(o) && warm then k + 1 else k,
                   !o.Delivered? && (warm || Idle(o) || o == SameHash))
  {
    hide Capped, HashText, Backoff;
    BaseIsCapped(cfg);
    if input.formats.Some? {
      if SameFormats(s.formats, input.formats.value) {
        var u := s.(streak := s.streak + 1, skip := s.skip + 1);
        BackoffOnce(cfg, u, k);
        BackoffOnce(cfg, u.(skip := 0, streak := u.streak + 1), k);
      } else {
        BackoffOnce(cfg, s.(skip := 0, formats := input.formats.value, streak := s.streak + 1), k);
      }
    }
  }

  lemma BaseIsCapped(cfg: PollConfig)
    requires Sensible(cfg)
    ensures Capped(cfg, 0) == cfg.base
  {}

  lemma {:induction false} RunBacks(cfg: PollConfig, inputs: seq<Input>)
    requires Sensible(cfg) && cfg.threshold >= 2
    ensures var (s, outputs) := Run(cfg, inputs); Backed(cfg, s, Doublings(outputs), Warm(outputs))
  {
    hide Tick, Capped;
    if inputs == [] {
      BaseIsCapped(cfg);
    } else {
      var n := |inputs| - 1;
      var (s, outputs) := Run(cfg, inputs[..n]);
      RunBacks(cfg, inputs[..n]);
      TickBacks(cfg, s, inputs[n], Doublings(outputs), Warm(outputs));
      assert (outputs + [Tick(cfg, s, inputs[n]).1])[..n] == outputs;
    }
  }

  /**
   With the thresholds in use the interval is, in every run, exactly base * 2^k capped at the maximum, k read off
   the outputs: the idle ticks since the last delivery, less the first one unless the same content was read before it.
   */
  lemma IntervalIsExact(cfg: PollConfig, inputs: seq<Input>)
    requires Sensible(cfg) && cfg.threshold >= 2
    ensures var (s, outputs) := Run(cfg, inputs);
            var x := cfg.base * Pow2(Doublings(outputs));
            s.interval == if x > cfg.max then cfg.max else x
  {
    RunBacks(cfg, inputs);
  }

  // ---------- Reads ----------

  /** How many of the ticks get a format list. */
  function Successes(inputs: seq<Input>): nat {
    if inputs == [] then 0
    else Successes(inputs[..|inputs| - 1]) + (if inputs[|inputs| - 1].formats.Some? then 1 else 0)
  }

  lemma SkipStep(cfg: PollConfig, s: PollState, input: Input)
    requires Sensible(cfg) && s.skip < cfg.threshold
    ensures var (t, o) := Tick(cfg, s, input);
            && t.skip < cfg.threshold
            && (!DidRead(o) ==> t.skip == s.skip + if input.formats.Some? then 1 else 0)
  {
    hide HashText;
  }

  lemma {:induction false} SkipInRange(cfg: PollConfig, inputs: seq<Input>)
    requires Sensible(cfg)
    ensures Run(cfg, inputs).0.skip < cfg.threshold
  {
    hide Tick;
    if inputs != [] {
      SkipInRange(cfg, inputs[..|inputs| - 1]);
      SkipStep(cfg, Run(cfg, inputs[..|inputs| - 1]).0, inputs[|inputs| - 1]);
    }
  }

  /** While nothing is read, the skip counter counts the successful ticks. */
  lemma {:induction false} SkipCounts(cfg: PollConfig, inputs: seq<Input>, from: nat)
    requires Sensible(cfg) && from <= |inputs|
    requires forall i :: from <= i < |inputs| ==> !DidRead(Run(cfg, inputs).1[i])
    ensures Successes(inputs[from..]) <= Run(cfg, inputs).0.skip
    decreases |inputs|
  {
    hide Tick;
    if from < |inputs| {
      var n := |inputs| - 1;
      var before := inputs[..n];
      RunPrefix(cfg, inputs, n);
      OutputOf(cfg, inputs, n);
      SkipInRange(cfg, before);
      SkipStep(cfg, Run(cfg, before).0, inputs[n]);
      SkipCounts(cfg, before, from);
      assert inputs[from..][..n - from] == before[from..];
    }
  }

  /**
   Of any ticks among which `threshold` get a format list, one reads the content, however many ticks
   in between fail to get one.
   */
  lemma ReadsAreNotStarved(cfg: PollConfig, inputs: seq<Input>, from: nat, to: nat)
    requires Sensible(cfg) && from <= to <= |inputs| && Successes(inputs[from..to]) >= cfg.threshold
    ensures exists i :: from <= i < to && DidRead(Run(cfg, inputs).1[i])
  {
    hide Tick;
    RunPrefix(cfg, inputs, to);
    if forall i :: from <= i < to ==> !DidRead(Run(cfg, inputs).1[i]) {
      assert forall i :: from <= i < to ==> Run(cfg, inputs[..to]).1[i] == Run(cfg, inputs).1[i];
      assert inputs[..to][from..] == inputs[from..to];
      SkipInRange(cfg, inputs[..to]);
      SkipCounts(cfg, inputs[..to], from);
    }
  }

  lemma OutputOf(cfg: PollConfig, inputs: seq<Input>, i: nat)
    requires i < |inputs|
    ensures Run(cfg, inputs).1[i] == Tick(cfg, Run(cfg, inputs[..i]).0, inputs[i]).1
  {
    RunPrefix(cfg, inputs, i + 1);
    assert inputs[..i + 1][..i] == inputs[..i];
  }

  /** The time waited for the ticks from `from` on: each one waits the interval left by the one before. */
  function Waited(cfg: PollConfig, inputs: seq<Input>, from: nat): int
    decreases |inputs|
  {
    if |inputs| <= from then 0
    else Waited(cfg, inputs[..|inputs| - 1], from) + Run(cfg, inputs[..|inputs| - 1]).0.interval
  }

  lemma OneMoreTerm(n: int, max: int)
    ensures (n + 1) * max == n * max + max
  {}

  lemma FewerTerms(n: nat, m: nat, max: int)
    requires n <= m && max >= 0
    ensures n * max <= m * max
  {}

  lemma {:induction false} WaitIsBounded(cfg: PollConfig, inputs: seq<Input>, from: nat)
    requires Sensible(cfg) && from <= |inputs|
    ensures Waited(cfg, inputs, from) <= (|inputs| - from) * cfg.max
    decreases |inputs|
  {
    hide Run, Capped;
    if from < |inputs| {
      var n := |inputs| - 1;
      WaitIsBounded(cfg, inputs[..n], from);
      IntervalFollowsIdleTicks(cfg, inputs[..n]);
      OneMoreTerm(n - from, cfg.max);
    }
  }

  /** So from any tick on the content is read within one maximal interval per tick, until `threshold` ticks succeed. */
  lemma ReadsAreClose(cfg: PollConfig, inputs: seq<Input>, from: nat, to: nat)
    requires Sensible(cfg) && from <= to <= |inputs| && Successes(inputs[from..to]) >= cfg.threshold
    ensures exists i ::
              && from <= i < to && DidRead(Run(cfg, inputs).1[i])
              && Waited(cfg, inputs[..i + 1], from) <= (to - from) * cfg.max
  {
    hide Run, Waited;
    ReadsAreNotStarved(cfg, inputs, from, to);
    var i :| from <= i < to && DidRead(Run(cfg, inputs).1[i]);
    WaitIsBounded(cfg, inputs[..i + 1], from);
    FewerTerms(i + 1 - from, to - from, cfg.max);
  }

  lemma {:induction false} AllSucceed(inputs: seq<Input>)
    requires forall input :: input in inputs ==> input.formats.Some?
    ensures Successes(inputs) == |inputs|
  {
    if inputs != [] { AllSucceed(inputs[..|inputs| - 1]); }
  }

  /** When no tick fails, that is within threshold * max. */
  lemma ReadsWithinThreshold(cfg: PollConfig, inputs: seq<Input>, from: nat)
    requires Sensible(cfg) && from + cfg.threshold <= |inputs|
    requires forall input :: input in inputs[from..from + cfg.threshold] ==> input.formats.Some?
    ensures exists i :: from <= i < from + cfg.threshold && DidRead(Run(cfg, inputs).1[i]) &&
                        Waited(cfg, inputs[..i + 1], from) <= cfg.threshold * cfg.max
  {
    hide Run, Waited;
    AllSucceed(inputs[from..from + cfg.threshold]);
    ReadsAreClose(cfg, inputs, from, from + cfg.threshold);
  }

  // ---------- Which ticks read ----------

  /** The formats remembered, from the inputs alone: each listed one that is not taken for those before it. */
  function Remembered(inputs: seq<Input>): seq<MimeType> {
    if inputs == [] then []
    else
      var n := |inputs| - 1;
      var before := Remembered(inputs[..n]);
      match inputs[n].formats
      case None => before
      case Some(formats) =>
        if |before| == |formats| && (forall v :: v in formats ==> v in before) then before else formats
  }

  /** The ticks that listed formats since the last read. */
  function ListedSinceRead(inputs: seq<Input>, outputs: seq<Output>): nat
    requires |outputs| == |inputs|
  {
    if inputs == [] then 0
    else
      var n := |inputs| - 1;
      if DidRead(outputs[n]) then 0
      else ListedSinceRead(inputs[..n], outputs[..n]) + (if inputs[n].formats.Some? then 1 else 0)
  }

  /** The next list is taken for the remembered one. */
  predicate TakenForSame(remembered: seq<MimeType>, formats: seq<MimeType>) {
    |remembered| == |formats| && forall v :: v in formats ==> v in remembered
  }

  lemma TickRemembers(cfg: PollConfig, s: PollState, input: Input)
    ensures var (t, o) := Tick(cfg, s, input);
            && t.formats == (if input.formats.None? || TakenForSame(s.formats, input.formats.value) then s.formats
                             else input.formats.value)
            && (o == Skipped <==> input.formats.Some? && TakenForSame(s.formats, input.formats.value)
                                  && s.skip + 1 < cfg.threshold)
            && (o == FormatError <==> input.formats.None?)
            && t.skip == (if o == Skipped then s.skip + 1 else if o == FormatError then s.skip else 0)
  {
    hide HashText;
  }

  lemma {:induction false} RunRemembers(cfg: PollConfig, inputs: seq<Input>)
    ensures var (s, outputs) := Run(cfg, inputs);
            s.formats == Remembered(inputs) && s.skip == ListedSinceRead(inputs, outputs)
  {
    hide Tick;
    if inputs != [] {
      var n := |inputs| - 1;
      var (s, outputs) := Run(cfg, inputs[..n]);
      RunRemembers(cfg, inputs[..n]);
      TickRemembers(cfg, s, inputs[n]);
      assert (outputs + [Tick(cfg, s, inputs[n]).1])[..n] == outputs;
    }
  }

  /**
   In every run a tick that lists formats is skipped exactly when they are taken for the remembered ones and
   fewer than threshold - 1 listings have followed the last read; else it reads.
   */
  lemma SkippedIff(cfg: PollConfig, inputs: seq<Input>, input: Input)
    requires input.formats.Some?
    ensures var outputs := Run(cfg, inputs).1;
            var o := Tick(cfg, Run(cfg, inputs).0, input).1;
            && (o == Skipped <==> TakenForSame(Remembered(inputs), input.formats.value)
                                  && ListedSinceRead(inputs, outputs) < cfg.threshold - 1)
            && (o != Skipped <==> DidRead(o))
  {
    hide Tick, Run, Remembered, ListedSinceRead;
    RunRemembers(cfg, inputs);
    TickRemembers(cfg, Run(cfg, inputs).0, input);
  }

  /** How many of the ticks read. */
  function Reads(outputs: seq<Output>): nat {
    if outputs == [] then 0 else Reads(outputs[..|outputs| - 1]) + (if DidRead(outputs[|outputs| - 1]) then 1 else 0)
  }

  /** The ticks from `from` on list nothing but permutations of `f`, if anything. */
  ghost predicate ListsOnly(inputs: seq<Input>, from: nat, f: seq<MimeType>) {
    forall i :: from <= i < |inputs| && inputs[i].formats.Some? ==> multiset(inputs[i].formats.value) == multiset(f)
  }

  /** Permutations of one another are taken for the same. */
  lemma PermutationsTakenForSame(a: seq<MimeType>, b: seq<MimeType>)
    requires multiset(a) == multiset(b)
    ensures TakenForSame(a, b)
  {
    assert |multiset(a)| == |a| && |multiset(b)| == |b|;
    forall v | v in b ensures v in a { assert v in multiset(b); }
  }

  /** `threshold` times the reads, up to where the skip counter stands; one read more if the formats were not known. */
  ghost predicate ReadsCounted(cfg: PollConfig, s: PollState, done: nat, listed: nat, f: seq<MimeType>) {
    s.skip < cfg.threshold &&
    if multiset(s.formats) == multiset(f)
    then listed <= cfg.threshold * done + s.skip && cfg.threshold * done + s.skip <= listed + cfg.threshold - 1
    else listed == 0 && done == 0
  }

  /** The formats are known: a listing is skipped, or it reads when the counter is full. */
  lemma CountKnown(cfg: PollConfig, s: PollState, input: Input, done: nat, listed: nat, f: seq<MimeType>)
    requires Sensible(cfg) && ReadsCounted(cfg, s, done, listed, f) && multiset(s.formats) == multiset(f)
    requires input.formats.Some? && multiset(input.formats.value) == multiset(f)
    ensures var (t, o) := Tick(cfg, s, input);
            ReadsCounted(cfg, t, if DidRead(o) then done + 1 else done, listed + 1, f)
  {
    hide Tick;
    PermutationsTakenForSame(s.formats, input.formats.value);
    TickRemembers(cfg, s, input);
    OneMoreTerm(done, cfg.threshold);
  }

  /** They are not: this listing reads. */
  lemma CountNew(cfg: PollConfig, s: PollState, input: Input, done: nat, listed: nat, f: seq<MimeType>)
    requires Sensible(cfg) && Distinct(f) && ReadsCounted(cfg, s, done, listed, f)
    requires multiset(s.formats) != multiset(f)
    requires input.formats.Some? && multiset(input.formats.value) == multiset(f)
    ensures var (t, o) := Tick(cfg, s, input); DidRead(o) && ReadsCounted(cfg, t, done + 1, listed + 1, f)
  {
    hide Tick;
    var g := input.formats.value;
    PermutationDistinct(f, g);
    SameFormatsIsPermutation(s.formats, g);
    TickRemembers(cfg, s, input);
    assert done == 0 && listed == 0 && cfg.threshold * 1 == cfg.threshold;
  }

  lemma CountTick(cfg: PollConfig, s: PollState, input: Input, done: nat, listed: nat, f: seq<MimeType>)
    requires Sensible(cfg) && Distinct(f) && ReadsCounted(cfg, s, done, listed, f)
    requires input.formats.Some? ==> multiset(input.formats.value) == multiset(f)
    ensures var (t, o) := Tick(cfg, s, input);
            ReadsCounted(cfg, t, if DidRead(o) then done + 1 else done,
                         if input.formats.Some? then listed + 1 else listed, f)
  {
    hide ReadsCounted;
    if input.formats.None? {
      assert Tick(cfg, s, input) == (s, FormatError);
    } else if multiset(s.formats) == multiset(f) {
      CountKnown(cfg, s, input, done, listed, f);
    } else {
      CountNew(cfg, s, input, done, listed, f);
    }
  }

  lemma PermutationDistinct(f: seq<MimeType>, g: seq<MimeType>)
    requires Distinct(f) && multiset(f) == multiset(g)
    ensures Distinct(g)
  {
    forall i, j | 0 <= i < j < |g| ensures g[i] != g[j] {
      OnceInMultiset(f, g[i]);
      if g[i] == g[j] { TwiceInMultiset(g, i, j); }
    }
  }

  lemma OnceInMultiset(f: seq<MimeType>, v: MimeType)
    requires Distinct(f)
    ensures multiset(f)[v] <= 1
  {
    DistinctMultiset(f);
  }

  lemma TwiceInMultiset(g: seq<MimeType>, i: nat, j: nat)
    requires i < j < |g| && g[i] == g[j]
    ensures multiset(g)[g[i]] >= 2
  {
    assert g == g[..i] + [g[i]] + g[i + 1..j] + [g[j]] + g[j + 1..];
  }

  lemma {:induction false} RunCounts(cfg: PollConfig, inputs: seq<Input>, from: nat, f: seq<MimeType>)
    requires Sensible(cfg) && from <= |inputs| && Distinct(f) && ListsOnly(inputs, from, f)
    ensures var (s, outputs) := Run(cfg, inputs);
            ReadsCounted(cfg, s, Reads(outputs[from..]), Successes(inputs[from..]), f)
    decreases |inputs|
  {
    hide Tick, ReadsCounted, Reads, Successes;
    var n := |inputs| - 1;
    if from == |inputs| {
      SkipInRange(cfg, inputs);
      NothingCounted(cfg, Run(cfg, inputs).0, f);
      assert Run(cfg, inputs).1[from..] == [] && inputs[from..] == [];
    } else {
      var (s, outputs) := Run(cfg, inputs[..n]);
      RunCounts(cfg, inputs[..n], from, f);
      var o := Tick(cfg, s, inputs[n]).1;
      CountTick(cfg, s, inputs[n], Reads(outputs[from..]), Successes(inputs[..n][from..]), f);
      assert (outputs + [o])[from..] == outputs[from..] + [o];
      assert inputs[from..] == inputs[..n][from..] + [inputs[n]];
      CountsSnoc(inputs[..n][from..], inputs[n], outputs[from..], o);
    }
  }

  lemma CountsSnoc(inputs: seq<Input>, input: Input, outputs: seq<Output>, o: Output)
    ensures Successes(inputs + [input]) == if input.formats.Some? then Successes(inputs) + 1 else Successes(inputs)
    ensures Reads(outputs + [o]) == if DidRead(o) then Reads(outputs) + 1 else Reads(outputs)
  {
    assert (inputs + [input])[..|inputs|] == inputs && (outputs + [o])[..|outputs|] == outputs;
  }

  lemma NothingCounted(cfg: PollConfig, s: PollState, f: seq<MimeType>)
    requires s.skip < cfg.threshold
    ensures ReadsCounted(cfg, s, 0, 0, f) && Reads([]) == 0 && Successes([]) == 0
  {}

  /**
   While the formats stay the same, in whatever order they are listed, reads are rare: among ticks of which n list
   formats, no more than 1 + n / threshold read, and no fewer than n / threshold.
   */
  lemma ReadsAreRare(cfg: PollConfig, inputs: seq<Input>, from: nat, f: seq<MimeType>)
    requires Sensible(cfg) && from <= |inputs| && Distinct(f) && ListsOnly(inputs, from, f)
    ensures var n := Successes(inputs[from..]);
            n / cfg.threshold <= Reads(Run(cfg, inputs).1[from..]) <= 1 + n / cfg.threshold
  {
    hide Run;
    RunCounts(cfg, inputs, from, f);
    var (s, outputs) := Run(cfg, inputs);
    QuotientBounds(cfg.threshold, Reads(outputs[from..]), s.skip, Successes(inputs[from..]));
  }

  /** With the thresholds in use: one listing in three, in stealth mode one in five, and one more. */
  lemma ReadsInUse(baseMs: int, maxMs: int, stealth: bool, inputs: seq<Input>, from: nat, f: seq<MimeType>)
    requires from <= |inputs| && Distinct(f) && ListsOnly(inputs, from, f)
    ensures var cfg := PollConfig(Intervals(baseMs, maxMs).0, Intervals(baseMs, maxMs).1, Threshold(stealth));
            Reads(Run(cfg, inputs).1[from..]) <= 1 + Successes(inputs[from..]) / if stealth then 5 else 3
  {
    hide Run;
    var cfg := PollConfig(Intervals(baseMs, maxMs).0, Intervals(baseMs, maxMs).1, Threshold(stealth));
    ReadsAreRare(cfg, inputs, from, f);
  }

  lemma QuotientBounds(d: nat, done: nat, skip: nat, n: nat)
    requires skip < d && ((n <= d * done + skip && d * done + skip <= n + d - 1) || (n == 0 && done == 0))
    ensures n / d <= done <= 1 + n / d
  {
    QuotientOf(n, d);
    var q := n / d;
    if q > done { FewerTerms(done + 1, q, d); }
    if done > q + 1 { FewerTerms(q + 2, done, d); }
    OneMoreTerm(done, d);
    OneMoreTerm(q, d);
    OneMoreTerm(q + 1, d);
    Commuted(d, done);
  }

  lemma QuotientOf(n: nat, d: nat)
    requires d > 0
    ensures n / d * d <= n < n / d * d + d
  {}

  lemma Commuted(a: int, b: int)
    ensures a * b == b * a
  {}

  /** A skipped tick saw, if without duplicates, a permutation of the remembered formats. */
  lemma SkippedSawPermutation(cfg: PollConfig, s: PollState, input: Input)
    requires Tick(cfg, s, input).1 == Skipped && Distinct(input.formats.value)
    ensures multiset(input.formats.value) == multiset(s.formats) && Tick(cfg, s, input).0.formats == s.formats
  {
    SameFormatsIsPermutation(s.formats, input.formats.value);
  }

  // ---------- Deliveries ----------

  function Deliveries(outputs: seq<Output>): seq<Bytes> {
    if outputs == [] then []
    else
      var n := |outputs| - 1;
      Deliveries(outputs[..n]) + (if outputs[n].Delivered? then [outputs[n].data] else [])
  }

  /** The hash of the last delivered content; empty before the first. */
  function LastDeliveredHash(d: seq<Bytes>): string { if d == [] then "" else HashText(d[|d| - 1]) }

  predicate NeighboursDiffer(d: seq<Bytes>) {
    forall i :: 0 <= i < |d| - 1 ==> HashText(d[i]) != HashText(d[i + 1])
  }

  lemma TickRemembersHash(cfg: PollConfig, s: PollState, input: Input)
    ensures var (t, o) := Tick(cfg, s, input);
            if o.Delivered? then t.lastHash == HashText(o.data) != s.lastHash else t.lastHash == s.lastHash
  {
    hide HashText, SameFormats;
  }

  lemma {:induction false} DeliveriesChain(cfg: PollConfig, inputs: seq<Input>)
    ensures var (s, outputs) := Run(cfg, inputs);
            s.lastHash == LastDeliveredHash(Deliveries(outputs)) && NeighboursDiffer(Deliveries(outputs))
  {
    hide HashText, Tick;
    if inputs != [] {
      var n := |inputs| - 1;
      var (s, outputs) := Run(cfg, inputs[..n]);
      DeliveriesChain(cfg, inputs[..n]);
      TickRemembersHash(cfg, s, inputs[n]);
      assert (outputs + [Tick(cfg, s, inputs[n]).1])[..n] == outputs;
    }
  }

  /** Two consecutive deliveries differ within the first 4098 bytes. */
  lemma DeliveriesDiffer(cfg: PollConfig, inputs: seq<Input>, i: nat)
    requires i + 1 < |Deliveries(Run(cfg, inputs).1)|
    ensures var d := Deliveries(Run(cfg, inputs).1); Hashed(d[i]) != Hashed(d[i + 1])
  {
    DeliveriesChain(cfg, inputs);
    var d := Deliveries(Run(cfg, inputs).1);
    if Hashed(d[i]) == Hashed(d[i + 1]) { SamePrefixSameHash(d[i], d[i + 1]); }
  }

  lemma SamePrefixSameHash(s: Bytes, t: Bytes)
    requires Hashed(s) == Hashed(t)
    ensures HashText(s) == HashText(t)
  {
    assert |Hashed(s)| == 0 <==> s == [];
    assert |Hashed(t)| == 0 <==> t == [];
  }

  /** A content that reading returns is delivered exactly when its hash differs from the last delivered one's. */
  lemma ReadIsDeliveredIff(cfg: PollConfig, inputs: seq<Input>, input: Input)
    requires input.read.Got? && DidRead(Tick(cfg, Run(cfg, inputs).0, input).1)
    ensures var d := Deliveries(Run(cfg, inputs).1);
            Tick(cfg, Run(cfg, inputs).0, input).1 == Delivered(input.read.data) <==>
            HashText(input.read.data) != LastDeliveredHash(d)
  {
    hide HashText, SameFormats, Run, LastDeliveredHash;
    DeliveriesChain(cfg, inputs);
  }

  /** So [1, 0] read after a delivered [0, 33] never arrives, although the formats change as well. */
  lemma CollisionIsLost(cfg: PollConfig)
    ensures var inputs := [Input(Some(["text/plain"]), Got([0, 33])), Input(Some(["text/html"]), Got([1, 0]))];
            Run(cfg, inputs).1 == [Delivered([0, 33]), SameHash]
  {
    hide HashText;
    HashCollides();
    var plain: seq<MimeType> := ["text/plain"];
    var html: seq<MimeType> := ["text/html"];
    var a: Bytes := [0, 33];
    var b: Bytes := [1, 0];
    var s1 := PollState(cfg.base, 0, 0, plain, HashText(a));
    assert !SameFormats([], plain);
    assert Tick(cfg, Initial(cfg), Input(Some(plain), Got(a))) == (s1, Delivered(a));
    OneFormatDiffers("text/plain", "text/html", 5);
    assert Tick(cfg, s1, Input(Some(html), Got(b))).1 == SameHash;
    RunOfTwo(cfg, Input(Some(plain), Got(a)), Input(Some(html), Got(b)));
  }

  lemma RunOfTwo(cfg: PollConfig, x: Input, y: Input)
    ensures var (s, o) := Tick(cfg, Initial(cfg), x); Run(cfg, [x, y]).1 == [o, Tick(cfg, s, y).1]
  {
    hide Tick, Initial;
    assert [x, y][..1] == [x] && [x][..0] == [];
    EmptyPrefix([Tick(cfg, Initial(cfg), x).1]);
    assert Run(cfg, [x]) == (Tick(cfg, Initial(cfg), x).0, [Tick(cfg, Initial(cfg), x).1]);
  }

  lemma OneFormatDiffers(x: MimeType, y: MimeType, i: nat)
    requires i < |x| && i < |y| && x[i] != y[i]
    ensures !SameFormats([x], [y])
  {
    assert y in [y] && y !in [x];
  }

  /** Two formats are taken for the same as one of them twice, but not the other way round. */
  lemma FormatsEqualCounterexample()
    ensures SameFormats(["x", "y"], ["x", "x"]) && !SameFormats(["x", "x"], ["x", "y"])
  {
    assert "y" in ["x", "y"] && "y" != "x" by { assert "y"[0] != "x"[0]; }
  }
}
