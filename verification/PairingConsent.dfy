/** No pairing without consent: every record goes back to an accepting decision of the responder's user. */
module PairingConsent {
  import opened ByteStrings
  import opened Sequences
  import opened Pairing
  import opened PairingProtocol
  import opened PairingOutcomes

  // ---------- What the actions so far account for ----------

  /** The handler of the responder accepted the request of exchange `x`, with `random` for the reply. */
  predicate Consented(past: seq<Action>, x: nat, random: Bytes) { DecideA(x, Accept, random) in past }

  /** An exchange that is accepted was so by its handler; what was sent was sent with this random text. */
  ghost predicate ExchangeBacked(past: seq<Action>, x: nat, e: Exchange) {
    && (e.sent ==> SendA(x, e.random) in past)
    && (e.rPhase.Accepted? || e.rPhase.Remembered? ==> e.sent && Consented(past, x, e.rPhase.random))
    && (e.rPhase.SawPairingOn? ==> e.sent)
    && (e.rPhase.Replied? && e.rPhase.reply.Accepting? ==> e.sent && Consented(past, x, e.rPhase.reply.random))
    && (e.iPhase == Claimed ==> !e.sent)
  }

  /** The two texts behind a code: one sent, one accepted with. */
  ghost predicate CodeBacked(hmac: Digest, past: seq<Action>, x: nat, code: Bytes)
    requires FullLength(hmac)
  {
    exists mine, theirs ::
      SendA(x, mine) in past && Consented(past, x, theirs) && code == VerificationCode(hmac, mine, theirs)
  }

  ghost predicate EventBacked(hmac: Digest, past: seq<Action>, e: Event)
    requires FullLength(hmac)
  {
    (e.ResponderRecorded? || e.InitiatorRecorded?) ==> CodeBacked(hmac, past, e.x, e.code)
  }

  ghost predicate WorldBacked(hmac: Digest, past: seq<Action>, w: World)
    requires FullLength(hmac)
  {
    && (forall x :: 0 <= x < |w.exchanges| ==> ExchangeBacked(past, x, w.exchanges[x]))
    && (forall e :: e in w.log ==> EventBacked(hmac, past, e))
  }

  // ---------- Every step keeps that ----------

  lemma MoreActions(hmac: Digest, past: seq<Action>, more: seq<Action>, w: World)
    requires FullLength(hmac) && WorldBacked(hmac, past, w) && forall a :: a in past ==> a in more
    ensures WorldBacked(hmac, more, w)
  {
    hide VerificationCode;
    forall e | e in w.log ensures EventBacked(hmac, more, e) {
      if e.ResponderRecorded? || e.InitiatorRecorded? {
        var mine, theirs :| SendA(e.x, mine) in past && Consented(past, e.x, theirs) &&
                            e.code == VerificationCode(hmac, mine, theirs);
        assert SendA(e.x, mine) in more && Consented(more, e.x, theirs);
      }
    }
    forall x | 0 <= x < |w.exchanges| ensures ExchangeBacked(more, x, w.exchanges[x]) {
      assert ExchangeBacked(past, x, w.exchanges[x]);
    }
  }

  /** A step that backs what it adds. */
  ghost predicate StepBacks(hmac: Digest, past: seq<Action>, w: World, v: World)
    requires FullLength(hmac)
  {
    && (forall x :: 0 <= x < |v.exchanges| ==> ExchangeBacked(past, x, v.exchanges[x]))
    && (v.log == w.log || (|v.log| == |w.log| + 1 && v.log == w.log + [v.log[|w.log|]]
                           && EventBacked(hmac, past, v.log[|w.log|])))
  }

  lemma BackedStep(hmac: Digest, past: seq<Action>, w: World, v: World)
    requires FullLength(hmac) && WorldBacked(hmac, past, w) && StepBacks(hmac, past, w, v)
    ensures WorldBacked(hmac, past, v)
  {
    hide EventBacked, ExchangeBacked;
    forall e | e in v.log ensures EventBacked(hmac, past, e) {
      if v.log != w.log && e !in w.log { assert e == v.log[|w.log|]; }
    }
  }

  lemma DeviceStepBacks(hmac: Digest, past: seq<Action>, w: World, a: Action)
    requires FullLength(hmac) && WorldBacked(hmac, past, w)
    ensures StepBacks(hmac, past, w, DeviceStep(w, a))
  {
    hide VerificationCode, ExchangeBacked;
  }

  lemma InitiatorStepBacks(hmac: Digest, past: seq<Action>, w: World, a: Action)
    requires FullLength(hmac) && WorldBacked(hmac, past, w) && a in past
    ensures StepBacks(hmac, past, w, InitiatorStep(hmac, w, a))
  {
    hide VerificationCode, EventBacked;
    if a.ReceiveA? && a.x < |w.exchanges| {
      assert ExchangeBacked(past, a.x, w.exchanges[a.x]);
      ReceiveBacks(hmac, past, w, a.x, a.info);
    }
    if a.FailA? { FailBacks(hmac, past, w, a.x); }
  }

  lemma FailBacks(hmac: Digest, past: seq<Action>, w: World, x: nat)
    requires FullLength(hmac)
    ensures var v := InitiatorStep(hmac, w, FailA(x));
            v.log != w.log ==> |v.log| == |w.log| + 1 && EventBacked(hmac, past, v.log[|w.log|])
  {}

  lemma ReceiveBacks(hmac: Digest, past: seq<Action>, w: World, x: nat, info: PairedDevice)
    requires FullLength(hmac) && x < |w.exchanges| && ExchangeBacked(past, x, w.exchanges[x])
    ensures var v := InitiatorStep(hmac, w, ReceiveA(x, info));
            v.log != w.log ==> |v.log| == |w.log| + 1 && EventBacked(hmac, past, v.log[|w.log|])
  {
    hide VerificationCode;
  }

  lemma ResponderStepBacks(hmac: Digest, past: seq<Action>, w: World, a: Action)
    requires FullLength(hmac) && WorldBacked(hmac, past, w) && a in past
    ensures StepBacks(hmac, past, w, ResponderStep(hmac, w, a))
  {
    hide VerificationCode, EventBacked;
    if a.RememberA? && a.x < |w.exchanges| {
      assert ExchangeBacked(past, a.x, w.exchanges[a.x]);
      RememberBacks(hmac, past, w, a.x, a.info);
    }
    if a.CheckA? { CheckBacks(hmac, past, w, a.x); }
    if a.LoseA? { LoseBacks(hmac, past, w, a.x); }
  }

  lemma RememberBacks(hmac: Digest, past: seq<Action>, w: World, x: nat, info: PairedDevice)
    requires FullLength(hmac) && x < |w.exchanges| && ExchangeBacked(past, x, w.exchanges[x])
    ensures var v := ResponderStep(hmac, w, RememberA(x, info));
            v.log != w.log ==> |v.log| == |w.log| + 1 && EventBacked(hmac, past, v.log[|w.log|])
  {
    hide VerificationCode;
  }

  lemma CheckBacks(hmac: Digest, past: seq<Action>, w: World, x: nat)
    requires FullLength(hmac)
    ensures var v := ResponderStep(hmac, w, CheckA(x));
            v.log != w.log ==> |v.log| == |w.log| + 1 && EventBacked(hmac, past, v.log[|w.log|])
  {}

  lemma LoseBacks(hmac: Digest, past: seq<Action>, w: World, x: nat)
    requires FullLength(hmac)
    ensures var v := ResponderStep(hmac, w, LoseA(x));
            v.log != w.log ==> |v.log| == |w.log| + 1 && EventBacked(hmac, past, v.log[|w.log|])
  {}

  lemma StepBacked(hmac: Digest, past: seq<Action>, w: World, a: Action)
    requires FullLength(hmac) && WorldBacked(hmac, past, w)
    ensures WorldBacked(hmac, past + [a], Step(hmac, w, a))
  {
    hide DeviceStep, InitiatorStep, ResponderStep, WorldBacked, StepBacks;
    var now := past + [a];
    MoreActions(hmac, past, now, w);
    DeviceStepBacks(hmac, now, w, a);
    InitiatorStepBacks(hmac, now, w, a);
    ResponderStepBacks(hmac, now, w, a);
    BackedStep(hmac, now, w, Step(hmac, w, a));
  }

  lemma {:induction false} RunBacked(hmac: Digest, past: seq<Action>, w: World, actions: seq<Action>)
    requires FullLength(hmac) && WorldBacked(hmac, past, w)
    ensures WorldBacked(hmac, past + actions, Run(hmac, w, actions))
    decreases |actions|
  {
    hide Step, WorldBacked;
    if actions == [] {
      assert past + [] == past;
    } else {
      StepBacked(hmac, past, w, actions[0]);
      RunBacked(hmac, past + [actions[0]], Step(hmac, w, actions[0]), actions[1..]);
      assert past + [actions[0]] + actions[1..] == past + actions;
    }
  }

  // ---------- Consent ----------

  /**
   In every run, whoever records a peer, responder or initiator, does so in an exchange whose request the responder's
   handler accepted; the code is that of the random text sent with the request and the one accepted with.
   */
  lemma RecordsNeedConsent(hmac: Digest, n: nat, actions: seq<Action>, e: Event)
    requires FullLength(hmac) && e in Run(hmac, Start(n), actions).log && (e.ResponderRecorded? || e.InitiatorRecorded?)
    ensures exists mine, theirs ::
              && SendA(e.x, mine) in actions && DecideA(e.x, Accept, theirs) in actions
              && e.code == VerificationCode(hmac, mine, theirs)
  {
    hide Run, VerificationCode;
    assert WorldBacked(hmac, [], Start(n));
    RunBacked(hmac, [], Start(n), actions);
    EmptyPrefix(actions);
    assert EventBacked(hmac, actions, e);
    var mine, theirs :| SendA(e.x, mine) in actions && Consented(actions, e.x, theirs) &&
                        e.code == VerificationCode(hmac, mine, theirs);
  }

  lemma {:induction false} RecordedByLog(log: seq<Event>, d: Peer, p: Peer) returns (e: Event)
    requires IsPairedByLog(log, d, p)
    ensures e in log && Records(e, d, p)
  {
    var n := |log| - 1;
    if Records(log[n], d, p) { e := log[n]; } else { e := RecordedByLog(log[..n], d, p); }
  }

  /** So a device lists a peer only if a handler accepted a request in an exchange in which the device recorded it. */
  lemma ListedOnlyByConsent(hmac: Digest, n: nat, actions: seq<Action>, d: Peer, p: Peer)
    requires FullLength(hmac) && d < n
    ensures var w := Run(hmac, Start(n), actions);
            d < |w.devices| && p in w.devices[d].paired ==>
              exists e, theirs :: e in w.log && Records(e, d, p) && DecideA(e.x, Accept, theirs) in actions
  {
    hide Run, Start, IsPairedByLog;
    PairedSetIsRecorded(hmac, n, actions, d, p);
    var w := Run(hmac, Start(n), actions);
    if p in w.devices[d].paired {
      var e := RecordedByLog(w.log, d, p);
      RecordsNeedConsent(hmac, n, actions, e);
    }
  }

  // ---------- Refusals left alone ----------

  /** The steps of an exchange that is refused by the handler, which rejects or fails. */
  function Rejecting(d: Peer, to: Peer, x: nat, mine: Bytes, verdict: Verdict, theirs: Bytes, noted: PairedDevice):
    seq<Action>
  {
    [RequestA(d, to), SendA(x, mine)] + ([CheckA(x), DecideA(x, verdict, theirs)] + [ReceiveA(x, noted), FinishA(x)])
  }

  lemma Declining(hmac: Digest, w: World, d: Peer, to: Peer, mine: Bytes, verdict: Verdict, theirs: Bytes)
    requires FullLength(hmac) && d < |w.devices| && to < |w.devices| && d != to && verdict != Accept
    requires w.devices[to].enabled && w.devices[to].handler.Some?
    ensures var x := |w.exchanges|;
            var v := Step(hmac, Busy(w, d, to, mine, AwaitingReply, NotAsked), CheckA(x));
            Step(hmac, v, DecideA(x, verdict, theirs)) ==
            Logged(Busy(w, d, to, mine, AwaitingReply, Replied(Refusing)), FoundOn(to, x))
  {
    var x := |w.exchanges|;
    assert Step(hmac, Busy(w, d, to, mine, AwaitingReply, NotAsked), CheckA(x)) ==
           Logged(Busy(w, d, to, mine, AwaitingReply, SawPairingOn), FoundOn(to, x));
  }

  lemma TakingNo(hmac: Digest, w: World, d: Peer, to: Peer, mine: Bytes, noted: PairedDevice)
    requires FullLength(hmac) && d < |w.devices| && to < |w.devices| && d != to && !w.devices[d].inProgress
    ensures var x := |w.exchanges|;
            var v := Busy(w, d, to, mine, AwaitingReply, Replied(Refusing));
            Step(hmac, Step(hmac, v, ReceiveA(x, noted)), FinishA(x)) ==
            w.(exchanges := w.exchanges + [Exchange(d, to, true, mine, Through, Replied(Refusing))])
  {
    hide VerificationCode;
    var x := |w.exchanges|;
    assert Step(hmac, Busy(w, d, to, mine, AwaitingReply, Replied(Refusing)), ReceiveA(x, noted)) ==
           Busy(w, d, to, mine, GotReply, Replied(Refusing));
  }

  /**
   A rejected or failing decision, left alone: the answer is a refusal, the flag is free again, and no one is
   listed or unlisted.
   */
  lemma RejectedExchangePairsNoOne(
      hmac: Digest, w: World, d: Peer, to: Peer, mine: Bytes, verdict: Verdict, theirs: Bytes, noted: PairedDevice)
    requires FullLength(hmac) && d < |w.devices| && to < |w.devices| && d != to && verdict != Accept
    requires !w.devices[d].inProgress && w.devices[to].enabled && w.devices[to].handler.Some?
    ensures var x := |w.exchanges|;
            Run(hmac, w, Rejecting(d, to, x, mine, verdict, theirs, noted)) ==
            World(w.devices, w.exchanges + [Exchange(d, to, true, mine, Through, Replied(Refusing))],
                  w.log + [FoundOn(to, x)])
  {
    hide Step, Run;
    var x := |w.exchanges|;
    var finish := [ReceiveA(x, noted), FinishA(x)];
    RunTwoThen(hmac, w, RequestA(d, to), SendA(x, mine), [CheckA(x), DecideA(x, verdict, theirs)] + finish);
    Requesting(hmac, w, d, to, mine);
    var v := Busy(w, d, to, mine, AwaitingReply, NotAsked);
    RunTwoThen(hmac, v, CheckA(x), DecideA(x, verdict, theirs), finish);
    Declining(hmac, w, d, to, mine, verdict, theirs);
    var u := Logged(w, FoundOn(to, x));
    assert Logged(Busy(w, d, to, mine, AwaitingReply, Replied(Refusing)), FoundOn(to, x)) ==
           Busy(u, d, to, mine, AwaitingReply, Replied(Refusing));
    RunTwo(hmac, Busy(u, d, to, mine, AwaitingReply, Replied(Refusing)), ReceiveA(x, noted), FinishA(x));
    TakingNo(hmac, u, d, to, mine, noted);
  }

  /** A request to a device with pairing off, left alone: refused as well, with nothing found on. */
  lemma RequestWhileOffPairsNoOne(
      hmac: Digest, w: World, d: Peer, to: Peer, mine: Bytes, noted: PairedDevice)
    requires FullLength(hmac) && d < |w.devices| && to < |w.devices| && d != to
    requires !w.devices[d].inProgress && !w.devices[to].enabled
    ensures var x := |w.exchanges|;
            Run(hmac, w, [RequestA(d, to), SendA(x, mine)] + ([CheckA(x)] + [ReceiveA(x, noted), FinishA(x)])) ==
            w.(exchanges := w.exchanges + [Exchange(d, to, true, mine, Through, Replied(Refusing))])
  {
    hide Step, Run;
    var x := |w.exchanges|;
    var finish := [ReceiveA(x, noted), FinishA(x)];
    RunTwoThen(hmac, w, RequestA(d, to), SendA(x, mine), [CheckA(x)] + finish);
    Requesting(hmac, w, d, to, mine);
    var v := Busy(w, d, to, mine, AwaitingReply, NotAsked);
    RunOneThen(hmac, v, CheckA(x), finish);
    CheckedOff(hmac, w, d, to, mine);
    RunTwo(hmac, Busy(w, d, to, mine, AwaitingReply, Replied(Refusing)), ReceiveA(x, noted), FinishA(x));
    TakingNo(hmac, w, d, to, mine, noted);
  }

  lemma RunOneThen(hmac: Digest, w: World, a: Action, rest: seq<Action>)
    requires FullLength(hmac)
    ensures Run(hmac, w, [a] + rest) == Run(hmac, Step(hmac, w, a), rest)
  {
    hide Step;
    assert ([a] + rest)[1..] == rest;
  }

  lemma CheckedOff(hmac: Digest, w: World, d: Peer, to: Peer, mine: Bytes)
    requires FullLength(hmac) && d < |w.devices| && to < |w.devices| && d != to && !w.devices[to].enabled
    ensures Step(hmac, Busy(w, d, to, mine, AwaitingReply, NotAsked), CheckA(|w.exchanges|)) ==
            Busy(w, d, to, mine, AwaitingReply, Replied(Refusing))
  {}
}
