/** How exchanges end: on both sides when nothing interferes; and when exactly a pairing stays one-sided. */
module PairingOutcomes {
  import opened ByteStrings
  import opened Sequences
  import opened Pairing
  import opened PairingProtocol

  // ---------- What the log says of an exchange ----------

  /** The exchange an event belongs to. */
  function ExchangeOf(e: Event): Option<nat> {
    match e
    case FoundOn(_, x) => Some(x)
    case ReplyLost(x) => Some(x)
    case Failed(x) => Some(x)
    case ResponderRecorded(_, _, x, _) => Some(x)
    case InitiatorRecorded(_, _, x, _) => Some(x)
    case _ => None
  }

  predicate InitiatorDid(e: Event, x: nat) { e.InitiatorRecorded? && e.x == x }

  predicate ResponderDid(e: Event, x: nat) { e.ResponderRecorded? && e.x == x }

  /** The initiator of `x` recorded its peer. */
  ghost predicate InitiatorPaired(log: seq<Event>, x: nat) { exists e :: e in log && InitiatorDid(e, x) }

  ghost predicate ResponderPaired(log: seq<Event>, x: nat) { exists e :: e in log && ResponderDid(e, x) }

  /** The exchange is broken off: its reply is lost or its request has failed. */
  ghost predicate BrokenOff(log: seq<Event>, x: nat) { ReplyLost(x) in log || Failed(x) in log }

  /** The responder has not paired. */
  predicate Undecided(p: ResponderPhase) {
    p == NotAsked || p == SawPairingOn || p.Accepted? || p == NoHandler || p == Replied(Refusing)
  }

  predicate Waiting(e: Exchange) { e.iPhase == Claimed || e.iPhase == AwaitingReply }

  /** How far exchange `x` has come on both sides, against the log. */
  ghost predicate Outcome(log: seq<Event>, x: nat, e: Exchange) {
    && (ReplyLost(x) in log <==> e.rPhase == GaveUp)
    && (Failed(x) in log ==> e.iPhase == Through)
    && (Waiting(e) || Failed(x) in log ==> !InitiatorPaired(log, x))
    && (Undecided(e.rPhase) ==> !ResponderPaired(log, x))
    && (!Waiting(e) && Failed(x) !in log ==>
          (e.rPhase.Replied? || e.rPhase == GaveUp) && (ResponderPaired(log, x) ==> InitiatorPaired(log, x)))
  }

  ghost predicate Outcomes(w: World) {
    && (forall x :: 0 <= x < |w.exchanges| ==> Outcome(w.log, x, w.exchanges[x]))
    && (forall x :: 0 <= x < |w.exchanges| ==>
          w.exchanges[x].initiator < |w.devices| && w.exchanges[x].responder < |w.devices|)
    && (forall e :: e in w.log && ExchangeOf(e).Some? ==> ExchangeOf(e).value < |w.exchanges|)
  }

  /** An initiator records its peer only in an exchange that is not broken off. */
  ghost predicate RecordedInTime(log: seq<Event>) {
    forall i :: 0 <= i < |log| && log[i].InitiatorRecorded? ==> !BrokenOff(log[..i], log[i].x)
  }

  // ---------- Every step keeps that ----------

  lemma PairedSnoc(log: seq<Event>, e: Event, x: nat)
    ensures InitiatorPaired(log + [e], x) <==> InitiatorPaired(log, x) || InitiatorDid(e, x)
    ensures ResponderPaired(log + [e], x) <==> ResponderPaired(log, x) || ResponderDid(e, x)
  {
    var l := log + [e];
    assert l[|log|] == e && e in l && forall d :: d in log ==> d in l;
  }

  lemma OtherOutcome(log: seq<Event>, e: Event, x: nat, ex: Exchange)
    requires ExchangeOf(e) != Some(x)
    ensures Outcome(log + [e], x, ex) <==> Outcome(log, x, ex)
  {
    hide InitiatorPaired, ResponderPaired;
    PairedSnoc(log, e, x);
  }

  /** What a step may do: log nothing about, and change nothing of, any exchange but `x`. */
  ghost predicate OnlyAbout(w: World, v: World, x: nat) {
    && |v.devices| == |w.devices| && |v.exchanges| == |w.exchanges|
    && (v.log == w.log || (|v.log| == |w.log| + 1 && v.log == w.log + [v.log[|w.log|]]
                           && ExchangeOf(v.log[|w.log|]) in {None, Some(x)}))
    && forall y :: 0 <= y < |w.exchanges| && y != x ==> v.exchanges[y] == w.exchanges[y]
  }

  lemma OutcomesOfOne(w: World, v: World, x: nat)
    requires Outcomes(w) && OnlyAbout(w, v, x)
    requires x < |w.exchanges| ==>
               && Outcome(v.log, x, v.exchanges[x])
               && v.exchanges[x].initiator == w.exchanges[x].initiator
               && v.exchanges[x].responder == w.exchanges[x].responder
    requires v.log != w.log && x >= |w.exchanges| ==> ExchangeOf(v.log[|w.log|]) == None
    ensures Outcomes(v)
  {
    hide Outcome;
    forall y | 0 <= y < |v.exchanges| && y != x ensures Outcome(v.log, y, v.exchanges[y]) {
      if v.log != w.log { OtherOutcome(w.log, v.log[|w.log|], y, w.exchanges[y]); }
    }
    forall e | e in v.log && ExchangeOf(e).Some? ensures ExchangeOf(e).value < |v.exchanges| {
      if v.log != w.log && e !in w.log { assert e == v.log[|w.log|]; }
    }
  }

  lemma InTimeSnoc(log: seq<Event>, e: Event)
    requires RecordedInTime(log) && (e.InitiatorRecorded? ==> !BrokenOff(log, e.x))
    ensures RecordedInTime(log + [e])
  {
    hide BrokenOff;
    var l := log + [e];
    forall i | 0 <= i < |l| && l[i].InitiatorRecorded? ensures !BrokenOff(l[..i], l[i].x) {
      if i < |log| { assert l[..i] == log[..i]; } else { assert l[..i] == log; }
    }
  }

  lemma DeviceStepOutcomes(w: World, a: Action)
    requires Outcomes(w) && RecordedInTime(w.log)
    ensures Outcomes(DeviceStep(w, a)) && RecordedInTime(DeviceStep(w, a).log)
  {
    hide Outcomes, Outcome, RecordedInTime;
    var v := DeviceStep(w, a);
    var x := |w.exchanges|;
    assert OnlyAbout(w, v, x);
    OutcomesOfOne(w, v, x);
    if v.log != w.log { InTimeSnoc(w.log, v.log[|w.log|]); }
  }

  lemma RequestOutcomes(hmac: Digest, w: World, d: Peer, to: Peer)
    requires FullLength(hmac) && Outcomes(w)
    ensures Outcomes(InitiatorStep(hmac, w, RequestA(d, to)))
    ensures InitiatorStep(hmac, w, RequestA(d, to)).log == w.log
  {
    hide InitiatorPaired, ResponderPaired;
    NothingAboutNew(w, |w.exchanges|);
  }

  lemma NothingAboutNew(w: World, x: nat)
    requires Outcomes(w) && x >= |w.exchanges|
    ensures !BrokenOff(w.log, x) && !InitiatorPaired(w.log, x) && !ResponderPaired(w.log, x)
  {
    hide Outcome;
    assert forall e :: e in w.log ==> ExchangeOf(e) != Some(x);
  }

  lemma InitiatorStepOne(hmac: Digest, w: World, a: Action, x: nat)
    requires FullLength(hmac) && Outcomes(w)
    requires (a.SendA? || a.FailA? || a.ReceiveA? || a.FinishA?) && a.x == x
    ensures var v := InitiatorStep(hmac, w, a);
            && OnlyAbout(w, v, x)
            && (v.log != w.log ==> x < |w.exchanges| && (v.log[|w.log|].InitiatorRecorded? ==> !BrokenOff(w.log, x)))
            && (x < |w.exchanges| ==>
                  && Outcome(v.log, x, v.exchanges[x])
                  && v.exchanges[x].initiator == w.exchanges[x].initiator
                  && v.exchanges[x].responder == w.exchanges[x].responder)
  {
    hide VerificationCode, InitiatorPaired, ResponderPaired;
    var v := InitiatorStep(hmac, w, a);
    if v.log != w.log { PairedSnoc(w.log, v.log[|w.log|], x); }
  }

  lemma InitiatorStepOutcomes(hmac: Digest, w: World, a: Action)
    requires FullLength(hmac) && Outcomes(w) && RecordedInTime(w.log)
    ensures Outcomes(InitiatorStep(hmac, w, a)) && RecordedInTime(InitiatorStep(hmac, w, a).log)
  {
    hide VerificationCode, Outcomes, Outcome, RecordedInTime, BrokenOff;
    var v := InitiatorStep(hmac, w, a);
    if a.RequestA? {
      RequestOutcomes(hmac, w, a.d, a.to);
    } else if a.SendA? || a.FailA? || a.ReceiveA? || a.FinishA? {
      InitiatorStepOne(hmac, w, a, a.x);
      OutcomesOfOne(w, v, a.x);
      if v.log != w.log { InTimeSnoc(w.log, v.log[|w.log|]); }
    }
  }

  /** A step of the responder on its exchange. */
  ghost predicate GoodResponse(w: World, v: World, x: nat) {
    && OnlyAbout(w, v, x)
    && (v.log != w.log ==> x < |w.exchanges| && !v.log[|w.log|].InitiatorRecorded?)
    && (x < |w.exchanges| ==>
          && Outcome(v.log, x, v.exchanges[x])
          && v.exchanges[x].initiator == w.exchanges[x].initiator
          && v.exchanges[x].responder == w.exchanges[x].responder)
  }

  lemma RememberOne(hmac: Digest, w: World, x: nat, info: PairedDevice)
    requires FullLength(hmac) && Outcomes(w)
    ensures GoodResponse(w, ResponderStep(hmac, w, RememberA(x, info)), x)
  {
    hide VerificationCode, InitiatorPaired, ResponderPaired;
    var v := ResponderStep(hmac, w, RememberA(x, info));
    if v.log != w.log { PairedSnoc(w.log, v.log[|w.log|], x); }
  }

  lemma LoseOne(hmac: Digest, w: World, x: nat)
    requires FullLength(hmac) && Outcomes(w)
    ensures GoodResponse(w, ResponderStep(hmac, w, LoseA(x)), x)
  {
    hide VerificationCode, InitiatorPaired, ResponderPaired;
    PairedSnoc(w.log, ReplyLost(x), x);
  }

  lemma AnswerOne(hmac: Digest, w: World, a: Action, x: nat)
    requires FullLength(hmac) && Consistent(hmac, w) && Outcomes(w)
    requires (a.CheckA? || a.DecideA? || a.ReplyA?) && a.x == x
    ensures GoodResponse(w, ResponderStep(hmac, w, a), x)
  {
    hide VerificationCode, InitiatorPaired, ResponderPaired, Justified, DevicesLogged;
    var v := ResponderStep(hmac, w, a);
    if v.log != w.log { PairedSnoc(w.log, v.log[|w.log|], x); }
  }

  lemma ResponderStepOutcomes(hmac: Digest, w: World, a: Action)
    requires FullLength(hmac) && Consistent(hmac, w) && Outcomes(w) && RecordedInTime(w.log)
    ensures Outcomes(ResponderStep(hmac, w, a)) && RecordedInTime(ResponderStep(hmac, w, a).log)
  {
    hide VerificationCode, Consistent, Outcomes, Outcome, RecordedInTime, BrokenOff, ResponderStep;
    var v := ResponderStep(hmac, w, a);
    if a.CheckA? || a.LoseA? || a.DecideA? || a.RememberA? || a.ReplyA? {
      if a.RememberA? {
        RememberOne(hmac, w, a.x, a.info);
      } else if a.LoseA? {
        LoseOne(hmac, w, a.x);
      } else {
        AnswerOne(hmac, w, a, a.x);
      }
      OutcomesOfOne(w, v, a.x);
      if v.log != w.log { InTimeSnoc(w.log, v.log[|w.log|]); }
    } else {
      NoResponse(hmac, w, a);
    }
  }

  lemma NoResponse(hmac: Digest, w: World, a: Action)
    requires FullLength(hmac) && !(a.CheckA? || a.LoseA? || a.DecideA? || a.RememberA? || a.ReplyA?)
    ensures ResponderStep(hmac, w, a) == w
  {}

  // ---------- Runs ----------

  /** What every run keeps. */
  ghost predicate Tracked(hmac: Digest, w: World)
    requires FullLength(hmac)
  {
    Consistent(hmac, w) && Outcomes(w) && RecordedInTime(w.log)
  }

  lemma StepTracked(hmac: Digest, w: World, a: Action)
    requires FullLength(hmac) && Tracked(hmac, w)
    ensures Tracked(hmac, Step(hmac, w, a)) && w.log <= Step(hmac, w, a).log
  {
    hide DeviceStep, InitiatorStep, ResponderStep, Consistent, Outcomes, RecordedInTime;
    StepConsistent(hmac, w, a);
    StepGrows(hmac, w, a);
    DeviceStepOutcomes(w, a);
    InitiatorStepOutcomes(hmac, w, a);
    ResponderStepOutcomes(hmac, w, a);
  }

  lemma StepGrows(hmac: Digest, w: World, a: Action)
    requires FullLength(hmac)
    ensures w.log <= Step(hmac, w, a).log
  {
    hide VerificationCode;
  }

  lemma {:induction false} RunTracked(hmac: Digest, w: World, actions: seq<Action>)
    requires FullLength(hmac) && Tracked(hmac, w)
    ensures Tracked(hmac, Run(hmac, w, actions)) && w.log <= Run(hmac, w, actions).log
    decreases |actions|
  {
    hide Step, Tracked;
    if actions != [] {
      StepTracked(hmac, w, actions[0]);
      RunTracked(hmac, Step(hmac, w, actions[0]), actions[1..]);
    }
  }

  lemma StartTracked(hmac: Digest, n: nat)
    requires FullLength(hmac)
    ensures Tracked(hmac, Start(n))
  {
    StartConsistent(hmac, n);
  }

  // ---------- One-sided pairings ----------

  /**
   When an exchange is over and its responder has paired: the initiator has too exactly when its request
   did not fail; and it did so before any loss of the reply, which can do no harm later.
   */
  lemma OneSidedIff(hmac: Digest, n: nat, actions: seq<Action>, x: nat)
    requires FullLength(hmac)
    ensures var w := Run(hmac, Start(n), actions);
            x < |w.exchanges| && w.exchanges[x].iPhase == Through && ResponderPaired(w.log, x) ==>
              && (InitiatorPaired(w.log, x) <==> Failed(x) !in w.log)
              && (InitiatorPaired(w.log, x) <==>
                    exists i :: 0 <= i < |w.log| && InitiatorDid(w.log[i], x) && !BrokenOff(w.log[..i], x))
  {
    hide Run, Start, Consistent;
    StartTracked(hmac, n);
    RunTracked(hmac, Start(n), actions);
    var w := Run(hmac, Start(n), actions);
    if x < |w.exchanges| { assert Outcome(w.log, x, w.exchanges[x]); }
  }

  /** Once broken off, an exchange that its initiator has not recorded never will be. */
  lemma BrokenOffIsFinal(hmac: Digest, w: World, more: seq<Action>, x: nat)
    requires FullLength(hmac) && Tracked(hmac, w) && BrokenOff(w.log, x) && !InitiatorPaired(w.log, x)
    ensures !InitiatorPaired(Run(hmac, w, more).log, x)
  {
    hide Run, Consistent, Outcomes;
    RunTracked(hmac, w, more);
    var log := Run(hmac, w, more).log;
    InTimeMeansNever(w.log, log, x);
  }

  lemma InTimeMeansNever(before: seq<Event>, log: seq<Event>, x: nat)
    requires before <= log && RecordedInTime(log) && BrokenOff(before, x) && !InitiatorPaired(before, x)
    ensures !InitiatorPaired(log, x)
  {
    forall i | 0 <= i < |log| ensures !InitiatorDid(log[i], x) {
      if i < |before| { assert before[i] in before; } else { BrokenOffStays(before, log[..i], x); }
    }
  }

  lemma BrokenOffStays(before: seq<Event>, log: seq<Event>, x: nat)
    requires before <= log && BrokenOff(before, x)
    ensures BrokenOff(log, x)
  {
    assert forall e :: e in before ==> e in log;
  }

  /** A responder that has paired can still send, and its initiator still receive, what completes the exchange. */
  lemma StillCompletes(hmac: Digest, w: World, x: nat, info: PairedDevice)
    requires FullLength(hmac) && Tracked(hmac, w) && x < |w.exchanges|
    requires ResponderPaired(w.log, x) && !InitiatorPaired(w.log, x) && !BrokenOff(w.log, x)
    ensures InitiatorPaired(Run(hmac, w, [ReplyA(x), ReceiveA(x, info)]).log, x)
  {
    hide VerificationCode, RecordedInTime, Justified, DevicesLogged, InitiatorPaired, ResponderPaired,
      Run, Step;
    assert Outcome(w.log, x, w.exchanges[x]) && ExchangeLogged(hmac, w.log, x, w.exchanges[x]);
    RunTwo(hmac, w, ReplyA(x), ReceiveA(x, info));
    var v := Step(hmac, w, ReplyA(x));
    ReplySent(hmac, w, x);
    if w.exchanges[x].rPhase.Replied? { assert w.exchanges[x].rPhase.reply != Refusing; }
    ReplyReceived(hmac, v, x, info);
  }

  lemma ReplySent(hmac: Digest, w: World, x: nat)
    requires FullLength(hmac) && x < |w.exchanges|
    ensures var v := Step(hmac, w, ReplyA(x));
            && v.log == w.log && v.devices == w.devices && |v.exchanges| == |w.exchanges|
            && v.exchanges[x].iPhase == w.exchanges[x].iPhase && v.exchanges[x].initiator == w.exchanges[x].initiator
            && v.exchanges[x].rPhase == if w.exchanges[x].rPhase.Remembered?
                                        then Replied(Accepting(w.exchanges[x].rPhase.random)) else w.exchanges[x].rPhase
  {
    hide VerificationCode;
  }

  lemma ReplyReceived(hmac: Digest, w: World, x: nat, info: PairedDevice)
    requires FullLength(hmac) && x < |w.exchanges| && w.exchanges[x].initiator < |w.devices|
    requires w.exchanges[x].iPhase == AwaitingReply
    requires w.exchanges[x].rPhase.Replied? && w.exchanges[x].rPhase.reply.Accepting?
    ensures InitiatorPaired(Step(hmac, w, ReceiveA(x, info)).log, x)
  {
    hide VerificationCode, InitiatorPaired, ResponderPaired;
    var u := Step(hmac, w, ReceiveA(x, info));
    assert u.log == w.log + [u.log[|w.log|]];
    PairedSnoc(w.log, u.log[|w.log|], x);
  }

  lemma RunTwo(hmac: Digest, w: World, a: Action, b: Action)
    requires FullLength(hmac)
    ensures Run(hmac, w, [a, b]) == Step(hmac, Step(hmac, w, a), b)
  {
    hide Step;
    assert [a, b][1..] == [b] && [b][1..] == [];
    assert Run(hmac, Step(hmac, w, a), [b]) == Step(hmac, Step(hmac, w, a), b);
  }

  /**
   A pairing that is one-sided so far, at any point of any run, stays one-sided in every continuation exactly
   when the exchange is broken off: its reply lost or its request failed.
   */
  lemma OneSidedForeverIff(hmac: Digest, n: nat, actions: seq<Action>, x: nat)
    requires FullLength(hmac)
    ensures var w := Run(hmac, Start(n), actions);
            x < |w.exchanges| && ResponderPaired(w.log, x) && !InitiatorPaired(w.log, x) ==>
              ((forall more :: !InitiatorPaired(Run(hmac, w, more).log, x)) <==> BrokenOff(w.log, x))
  {
    hide Run, Start, InitiatorPaired, ResponderPaired, BrokenOff, Tracked;
    StartTracked(hmac, n);
    RunTracked(hmac, Start(n), actions);
    var w := Run(hmac, Start(n), actions);
    if x < |w.exchanges| && ResponderPaired(w.log, x) && !InitiatorPaired(w.log, x) {
      if BrokenOff(w.log, x) {
        forall more ensures !InitiatorPaired(Run(hmac, w, more).log, x) { BrokenOffIsFinal(hmac, w, more, x); }
      } else {
        StillCompletes(hmac, w, x, PairedDevice("", 0));
      }
    }
  }

  /** A run of pieces. */
  lemma {:induction false} RunConcat(hmac: Digest, w: World, a: seq<Action>, b: seq<Action>)
    requires FullLength(hmac)
    ensures Run(hmac, w, a + b) == Run(hmac, Run(hmac, w, a), b)
    decreases |a|
  {
    hide Step;
    if a == [] { EmptyPrefix(b); } else {
      assert (a + b)[0] == a[0] && (a + b)[1..] == a[1..] + b;
      RunConcat(hmac, Step(hmac, w, a[0]), a[1..], b);
    }
  }

  // ---------- Nothing interferes ----------

  /** The steps of one exchange, from the request to the deferred reset. */
  function Exchanging(d: Peer, to: Peer, x: nat, mine: Bytes, theirs: Bytes, noted: PairedDevice, notes: PairedDevice):
    seq<Action>
  {
    [RequestA(d, to), SendA(x, mine)] + ([CheckA(x), DecideA(x, Accept, theirs)]
      + ([RememberA(x, notes), ReplyA(x)] + [ReceiveA(x, noted), FinishA(x)]))
  }

  lemma RunTwoThen(hmac: Digest, w: World, a: Action, b: Action, rest: seq<Action>)
    requires FullLength(hmac)
    ensures Run(hmac, w, [a, b] + rest) == Run(hmac, Step(hmac, Step(hmac, w, a), b), rest)
  {
    RunTwo(hmac, w, a, b);
    RunConcat(hmac, w, [a, b], rest);
  }

  /** `w` with its last exchange, opened by `d`, at the phases given. */
  function Busy(w: World, d: Peer, to: Peer, mine: Bytes, i: InitiatorPhase, r: ResponderPhase): World
    requires d < |w.devices|
  {
    World(w.devices[d := BeginRequest(w.devices[d]).0],
          w.exchanges + [Exchange(d, to, true, mine, i, r)], w.log)
  }

  lemma Requesting(hmac: Digest, w: World, d: Peer, to: Peer, mine: Bytes)
    requires FullLength(hmac) && d < |w.devices| && to < |w.devices| && d != to && !w.devices[d].inProgress
    ensures Step(hmac, Step(hmac, w, RequestA(d, to)), SendA(|w.exchanges|, mine)) ==
            Busy(w, d, to, mine, AwaitingReply, NotAsked)
  {}

  lemma Answering(hmac: Digest, w: World, d: Peer, to: Peer, mine: Bytes, theirs: Bytes)
    requires FullLength(hmac) && d < |w.devices| && to < |w.devices| && d != to
    requires w.devices[to].enabled && w.devices[to].handler.Some?
    ensures var x := |w.exchanges|;
            var v := Step(hmac, Busy(w, d, to, mine, AwaitingReply, NotAsked), CheckA(x));
            Step(hmac, v, DecideA(x, Accept, theirs)) ==
            Logged(Busy(w, d, to, mine, AwaitingReply, Accepted(theirs)), FoundOn(to, x))
  {
    var x := |w.exchanges|;
    assert Step(hmac, Busy(w, d, to, mine, AwaitingReply, NotAsked), CheckA(x)) ==
           Logged(Busy(w, d, to, mine, AwaitingReply, SawPairingOn), FoundOn(to, x));
  }

  lemma Remembering(hmac: Digest, w: World, d: Peer, to: Peer, mine: Bytes, theirs: Bytes, notes: PairedDevice)
    requires FullLength(hmac) && d < |w.devices| && to < |w.devices| && d != to
    ensures var x := |w.exchanges|;
            var v := Busy(w, d, to, mine, AwaitingReply, Accepted(theirs));
            var u := Busy(w, d, to, mine, AwaitingReply, Replied(Accepting(theirs)));
            Step(hmac, Step(hmac, v, RememberA(x, notes)), ReplyA(x)) ==
            Logged(SetDevice(u, to, Record(u.devices[to], d, notes)),
                   ResponderRecorded(to, d, x, VerificationCode(hmac, mine, theirs)))
  {
    hide VerificationCode;
    var x := |w.exchanges|;
    var v := Busy(w, d, to, mine, AwaitingReply, Accepted(theirs));
    var u := Busy(w, d, to, mine, AwaitingReply, Remembered(theirs));
    assert Step(hmac, v, RememberA(x, notes)) ==
           Logged(SetDevice(u, to, Record(u.devices[to], d, notes)),
                  ResponderRecorded(to, d, x, VerificationCode(hmac, mine, theirs)));
  }

  lemma Finishing(hmac: Digest, w: World, d: Peer, to: Peer, mine: Bytes, theirs: Bytes, noted: PairedDevice)
    requires FullLength(hmac) && d < |w.devices| && to < |w.devices| && d != to && !w.devices[d].inProgress
    ensures var x := |w.exchanges|;
            var v := Busy(w, d, to, mine, AwaitingReply, Replied(Accepting(theirs)));
            Step(hmac, Step(hmac, v, ReceiveA(x, noted)), FinishA(x)) ==
            World(w.devices[d := Record(w.devices[d], to, noted)],
                  w.exchanges + [Exchange(d, to, true, mine, Through, Replied(Accepting(theirs)))],
                  w.log + [InitiatorRecorded(d, to, x, VerificationCode(hmac, mine, theirs))])
  {
    hide VerificationCode;
    var x := |w.exchanges|;
    var v := Busy(w, d, to, mine, AwaitingReply, Replied(Accepting(theirs)));
    var u := Busy(w, d, to, mine, GotReply, Replied(Accepting(theirs)));
    assert Step(hmac, v, ReceiveA(x, noted)) ==
           Logged(SetDevice(u, d, Record(u.devices[d], to, noted)),
                  InitiatorRecorded(d, to, x, VerificationCode(hmac, mine, theirs)));
  }

  /**
   Left alone and accepted, an exchange between an idle device and one with pairing on makes each list the
   other under one code, frees the flag, and changes nothing else, from any world.
   */
  lemma UndisturbedExchangePairs(
      hmac: Digest, w: World, d: Peer, to: Peer, mine: Bytes, theirs: Bytes, noted: PairedDevice, notes: PairedDevice)
    requires FullLength(hmac) && d < |w.devices| && to < |w.devices| && d != to
    requires !w.devices[d].inProgress && w.devices[to].enabled && w.devices[to].handler.Some?
    ensures var x := |w.exchanges|;
            var v := Run(hmac, w, Exchanging(d, to, x, mine, theirs, noted, notes));
            var code := VerificationCode(hmac, mine, theirs);
            && v.devices == w.devices[to := w.devices[to].(paired := w.devices[to].paired[d := notes])]
                                     [d := w.devices[d].(paired := w.devices[d].paired[to := noted])]
            && v.exchanges == w.exchanges + [Exchange(d, to, true, mine, Through, Replied(Accepting(theirs)))]
            && v.log == w.log + [FoundOn(to, x), ResponderRecorded(to, d, x, code), InitiatorRecorded(d, to, x, code)]
  {
    hide VerificationCode, Step, Run;
    var x := |w.exchanges|;
    var finish := [ReceiveA(x, noted), FinishA(x)];
    var remember := [RememberA(x, notes), ReplyA(x)] + finish;
    var answer := [CheckA(x), DecideA(x, Accept, theirs)] + remember;
    RunTwoThen(hmac, w, RequestA(d, to), SendA(x, mine), answer);
    Requesting(hmac, w, d, to, mine);
    RunTwoThen(hmac, Busy(w, d, to, mine, AwaitingReply, NotAsked), CheckA(x), DecideA(x, Accept, theirs), remember);
    Answering(hmac, w, d, to, mine, theirs);
    var w1 := Logged(w, FoundOn(to, x));
    assert Logged(Busy(w, d, to, mine, AwaitingReply, Accepted(theirs)), FoundOn(to, x)) ==
           Busy(w1, d, to, mine, AwaitingReply, Accepted(theirs));
    RunTwoThen(hmac, Busy(w1, d, to, mine, AwaitingReply, Accepted(theirs)), RememberA(x, notes), ReplyA(x), finish);
    Remembering(hmac, w1, d, to, mine, theirs, notes);
    var code := VerificationCode(hmac, mine, theirs);
    var w2 := Logged(SetDevice(w1, to, Record(w1.devices[to], d, notes)), ResponderRecorded(to, d, x, code));
    var u := Busy(w1, d, to, mine, AwaitingReply, Replied(Accepting(theirs)));
    assert Logged(SetDevice(u, to, Record(u.devices[to], d, notes)), ResponderRecorded(to, d, x, code)) ==
           Busy(w2, d, to, mine, AwaitingReply, Replied(Accepting(theirs)));
    RunTwo(hmac, Busy(w2, d, to, mine, AwaitingReply, Replied(Accepting(theirs))), ReceiveA(x, noted), FinishA(x));
    Finishing(hmac, w2, d, to, mine, theirs, noted);
  }

  // ---------- The failing runs ----------

  /** Device 0 has asked device 1, which found pairing on. */
  function Asked(): World {
    World([NEW_DEVICE.(inProgress := true), NEW_DEVICE.(enabled := true, handler := Some(7))],
          [Exchange(0, 1, true, [], AwaitingReply, SawPairingOn)], [SwitchedOn(1), FoundOn(1, 0)])
  }

  const ASKING := [EnableA(1, 7), RequestA(0, 1)] + [SendA(0, []), CheckA(0)]

  lemma AskingAsks(hmac: Digest)
    requires FullLength(hmac)
    ensures Run(hmac, Start(2), ASKING) == Asked()
  {
    hide Run;
    var on := NEW_DEVICE.(enabled := true, handler := Some(7));
    RunConcat(hmac, Start(2), [EnableA(1, 7), RequestA(0, 1)], [SendA(0, []), CheckA(0)]);
    RunTwo(hmac, Start(2), EnableA(1, 7), RequestA(0, 1));
    assert Start(2).devices == [NEW_DEVICE, NEW_DEVICE];
    assert Step(hmac, Start(2), EnableA(1, 7)) == World([NEW_DEVICE, on], [], [SwitchedOn(1)]);
    var w := Step(hmac, Step(hmac, Start(2), EnableA(1, 7)), RequestA(0, 1));
    RunTwo(hmac, w, SendA(0, []), CheckA(0));
    assert Step(hmac, w, SendA(0, [])).exchanges == [Exchange(0, 1, true, [], AwaitingReply, NotAsked)];
  }

  /** Device 1 has accepted and listed device 0. */
  function Listed(hmac: Digest, info: PairedDevice): World
    requires FullLength(hmac)
  {
    World([Asked().devices[0], Record(Asked().devices[1], 0, info)],
          [Asked().exchanges[0].(rPhase := Remembered([]))],
          Asked().log + [ResponderRecorded(1, 0, 0, VerificationCode(hmac, [], []))])
  }

  lemma AcceptingLists(hmac: Digest, info: PairedDevice)
    requires FullLength(hmac)
    ensures Run(hmac, Asked(), [DecideA(0, Accept, []), RememberA(0, info)]) == Listed(hmac, info)
  {
    hide Run, VerificationCode;
    RunTwo(hmac, Asked(), DecideA(0, Accept, []), RememberA(0, info));
    var w := Step(hmac, Asked(), DecideA(0, Accept, []));
    assert w == Asked().(exchanges := [Asked().exchanges[0].(rPhase := Accepted([]))]);
  }

  /** Then the reply is lost and the request fails. */
  function Lost(hmac: Digest, info: PairedDevice): World
    requires FullLength(hmac)
  {
    var w := Listed(hmac, info);
    World([NEW_DEVICE, w.devices[1]], [w.exchanges[0].(rPhase := GaveUp, iPhase := Through)],
          w.log + [ReplyLost(0)] + [Failed(0)])
  }

  lemma LosingLoses(hmac: Digest, info: PairedDevice)
    requires FullLength(hmac)
    ensures Run(hmac, Listed(hmac, info), [LoseA(0), FailA(0)]) == Lost(hmac, info)
  {
    hide Run, VerificationCode;
    var w := Listed(hmac, info);
    RunTwo(hmac, w, LoseA(0), FailA(0));
    var v := Step(hmac, w, LoseA(0));
    assert v == World(w.devices, [w.exchanges[0].(rPhase := GaveUp)], w.log + [ReplyLost(0)]);
  }

  lemma LostFacts(hmac: Digest, info: PairedDevice)
    requires FullLength(hmac)
    ensures var w := Lost(hmac, info);
            && |w.devices| == 2 && 0 in w.devices[1].paired && 1 !in w.devices[0].paired
            && |w.exchanges| == 1 && w.exchanges[0].iPhase == Through && w.exchanges[0].rPhase == GaveUp
            && ResponderPaired(w.log, 0) && Failed(0) in w.log
  {
    hide VerificationCode;
    var w := Lost(hmac, info);
    assert ResponderDid(w.log[2], 0) && w.log[4] == Failed(0);
  }

  /** The run in which that happens: the exchange is over on both sides, and no continuation repairs it. */
  lemma OneSidedPairing(hmac: Digest, info: PairedDevice)
    requires FullLength(hmac)
    ensures exists actions ::
              var w := Run(hmac, Start(2), actions);
              && |w.devices| == 2 && 0 in w.devices[1].paired && 1 !in w.devices[0].paired
              && |w.exchanges| == 1 && w.exchanges[0].iPhase == Through && w.exchanges[0].rPhase == GaveUp
              && forall more :: !InitiatorPaired(Run(hmac, w, more).log, 0)
  {
    hide Run, Start, InitiatorPaired, ResponderPaired, Listed, Lost;
    var listing := [DecideA(0, Accept, []), RememberA(0, info)];
    var losing := [LoseA(0), FailA(0)];
    AskingAsks(hmac);
    AcceptingLists(hmac, info);
    LosingLoses(hmac, info);
    LostFacts(hmac, info);
    RunConcat(hmac, Asked(), listing, losing);
    RunConcat(hmac, Start(2), ASKING, listing + losing);
    var w := Run(hmac, Start(2), ASKING + (listing + losing));
    OneSidedIff(hmac, 2, ASKING + (listing + losing), 0);
    OneSidedForeverIff(hmac, 2, ASKING + (listing + losing), 0);
    assert forall more :: !InitiatorPaired(Run(hmac, w, more).log, 0);
  }
}
