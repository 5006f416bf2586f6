/** When exactly a request that found pairing switched on finds no handler to call. */
module PairingHandlers {
  import opened ByteStrings
  import opened Sequences
  import opened Pairing
  import opened PairingProtocol
  import opened PairingOutcomes

  // ---------- Handlers in the log ----------

  /** Whether the last event that sets the handler of `d` sets or clears it; None before the first. */
  function HandlerEvent(log: seq<Event>, d: Peer): Option<bool> {
    if log == [] then None
    else
      var n := |log| - 1;
      if log[n] == SwitchedOn(d) then Some(true) else if log[n] == Disabled(d) then Some(false)
      else HandlerEvent(log[..n], d)
  }

  ghost predicate HandlersLogged(w: World) {
    forall d :: 0 <= d < |w.devices| ==> (w.devices[d].handler.Some? <==> HandlerEvent(w.log, d) == Some(true))
  }

  lemma HandlerSnoc(log: seq<Event>, e: Event)
    ensures forall d :: HandlerEvent(log + [e], d) ==
              if e == SwitchedOn(d) then Some(true) else if e == Disabled(d) then Some(false) else HandlerEvent(log, d)
  {
    assert (log + [e])[..|log|] == log;
  }

  lemma DeviceStepHandlers(w: World, a: Action)
    requires HandlersLogged(w)
    ensures HandlersLogged(DeviceStep(w, a))
  {
    hide HandlerEvent;
    var v := DeviceStep(w, a);
    if v.log != w.log {
      assert v.log == w.log + [v.log[|w.log|]];
      HandlerSnoc(w.log, v.log[|w.log|]);
    }
  }

  lemma InitiatorStepHandlers(hmac: Digest, w: World, a: Action)
    requires FullLength(hmac) && HandlersLogged(w)
    ensures HandlersLogged(InitiatorStep(hmac, w, a))
  {
    hide HandlerEvent, VerificationCode;
    var v := InitiatorStep(hmac, w, a);
    if v.log != w.log {
      assert v.log == w.log + [v.log[|w.log|]];
      HandlerSnoc(w.log, v.log[|w.log|]);
    }
  }

  lemma ResponderStepHandlers(hmac: Digest, w: World, a: Action)
    requires FullLength(hmac) && HandlersLogged(w)
    ensures HandlersLogged(ResponderStep(hmac, w, a))
  {
    hide HandlerEvent, VerificationCode;
    var v := ResponderStep(hmac, w, a);
    if v.log != w.log {
      assert v.log == w.log + [v.log[|w.log|]];
      HandlerSnoc(w.log, v.log[|w.log|]);
    }
  }

  // ---------- The missing handler ----------

  /** `d` was disabled after exchange `x` had found pairing on, and not switched on again since. */
  ghost predicate DisabledSince(log: seq<Event>, d: Peer, x: nat) {
    exists j :: 0 <= j < |log| && log[j] == Disabled(d) && FoundOn(d, x) in log[..j] && SwitchedOn(d) !in log[j..]
  }

  lemma {:induction false} OnMeansHandler(log: seq<Event>, d: Peer)
    requires IsOn(log, d)
    ensures HandlerEvent(log, d) == Some(true)
  {
    if log[|log| - 1] != SwitchedOn(d) { OnMeansHandler(log[..|log| - 1], d); }
  }

  lemma {:induction false} LastDisabled(log: seq<Event>, d: Peer) returns (j: nat)
    requires HandlerEvent(log, d) == Some(false)
    ensures j < |log| && log[j] == Disabled(d) && SwitchedOn(d) !in log[j..]
  {
    var n := |log| - 1;
    if log[n] == Disabled(d) {
      j := n;
    } else {
      j := LastDisabled(log[..n], d);
      assert log[j..] == log[..n][j..] + [log[n]];
    }
  }

  lemma {:induction false} DisabledIsLast(log: seq<Event>, d: Peer, j: nat)
    requires j < |log| && log[j] == Disabled(d) && SwitchedOn(d) !in log[j..]
    ensures HandlerEvent(log, d) == Some(false)
  {
    var n := |log| - 1;
    assert log[j..][n - j] == log[n];
    if log[n] != Disabled(d) {
      assert log[j..] == log[..n][j..] + [log[n]];
      DisabledIsLast(log[..n], d, j);
    }
  }

  lemma {:induction false} HandlerEventStays(log: seq<Event>, d: Peer, k: nat)
    requires k <= |log| && HandlerEvent(log[..k], d) != None
    ensures HandlerEvent(log, d) != None
  {
    if k < |log| {
      assert log[..|log| - 1][..k] == log[..k];
      HandlerEventStays(log[..|log| - 1], d, k);
    } else {
      assert log[..k] == log;
    }
  }

  lemma DisabledSinceIff(log: seq<Event>, d: Peer, x: nat)
    requires Justified(log) && FoundOn(d, x) in log
    ensures HandlerEvent(log, d) == Some(true) <==> !DisabledSince(log, d, x)
  {
    hide HandlerEvent, IsOn;
    var k :| 0 <= k < |log| && log[k] == FoundOn(d, x);
    assert JustifiedBy(log[..k], log[k]);
    OnMeansHandler(log[..k], d);
    HandlerEventStays(log, d, k);
    if !HandlerEvent(log, d).value {
      var j := LastDisabled(log, d);
      if j < k {
        assert log[..k][j] == Disabled(d) && forall e :: e in log[..k][j..] ==> e in log[j..];
        DisabledIsLast(log[..k], d, j);
      } else {
        assert log[..j][k] == FoundOn(d, x);
      }
    } else if DisabledSince(log, d, x) {
      var j :| 0 <= j < |log| && log[j] == Disabled(d) && FoundOn(d, x) in log[..j] && SwitchedOn(d) !in log[j..];
      DisabledIsLast(log, d, j);
    }
  }

  /** `d` was disabled at some point after exchange `x` had found pairing on. */
  ghost predicate DisabledAfter(log: seq<Event>, d: Peer, x: nat) {
    exists j :: 0 <= j < |log| && log[j] == Disabled(d) && FoundOn(d, x) in log[..j]
  }

  ghost predicate NoHandlersLogged(w: World) {
    forall x :: 0 <= x < |w.exchanges| && w.exchanges[x].rPhase == NoHandler ==>
                  DisabledAfter(w.log, w.exchanges[x].responder, x)
  }

  lemma DisabledAfterStays(log: seq<Event>, longer: seq<Event>, d: Peer, x: nat)
    requires log <= longer && DisabledAfter(log, d, x)
    ensures DisabledAfter(longer, d, x)
  {
    var j :| 0 <= j < |log| && log[j] == Disabled(d) && FoundOn(d, x) in log[..j];
    assert longer[..j] == log[..j] && longer[j] == Disabled(d);
  }

  /** Only the decision step meets a missing handler. */
  lemma NoHandlerFrom(hmac: Digest, w: World, a: Action, x: nat)
    requires FullLength(hmac) && Outcomes(w)
    requires x < |Step(hmac, w, a).exchanges| && Step(hmac, w, a).exchanges[x].rPhase == NoHandler
    ensures x < |w.exchanges| && Step(hmac, w, a).exchanges[x].responder == w.exchanges[x].responder
    ensures w.exchanges[x].rPhase == NoHandler ||
            (w.exchanges[x].rPhase == SawPairingOn && w.devices[w.exchanges[x].responder].handler.None?)
  {
    hide VerificationCode, Outcome;
  }

  lemma StepNoHandlers(hmac: Digest, w: World, a: Action)
    requires FullLength(hmac) && Tracked(hmac, w) && HandlersLogged(w) && NoHandlersLogged(w)
    ensures NoHandlersLogged(Step(hmac, w, a))
  {
    hide Step, DisabledAfter, DisabledSince, Justified, DevicesLogged, Outcome, RecordedInTime, HandlerEvent;
    var v := Step(hmac, w, a);
    StepTracked(hmac, w, a);
    forall x | 0 <= x < |v.exchanges| && v.exchanges[x].rPhase == NoHandler
      ensures DisabledAfter(v.log, v.exchanges[x].responder, x)
    {
      NoHandlerFrom(hmac, w, a, x);
      var d := w.exchanges[x].responder;
      if w.exchanges[x].rPhase != NoHandler {
        assert ExchangeLogged(hmac, w.log, x, w.exchanges[x]);
        DisabledSinceIff(w.log, d, x);
        DisabledSinceAfter(w.log, d, x);
      }
      DisabledAfterStays(w.log, v.log, d, x);
    }
  }

  lemma DisabledSinceAfter(log: seq<Event>, d: Peer, x: nat)
    requires DisabledSince(log, d, x)
    ensures DisabledAfter(log, d, x)
  {
    var j :| 0 <= j < |log| && log[j] == Disabled(d) && FoundOn(d, x) in log[..j] && SwitchedOn(d) !in log[j..];
  }

  /** What every run keeps of handlers. */
  ghost predicate Handled(hmac: Digest, w: World)
    requires FullLength(hmac)
  {
    Tracked(hmac, w) && HandlersLogged(w) && NoHandlersLogged(w)
  }

  lemma StartHandled(hmac: Digest, n: nat)
    requires FullLength(hmac)
    ensures Handled(hmac, Start(n))
  {
    StartTracked(hmac, n);
  }

  lemma StepHandled(hmac: Digest, w: World, a: Action)
    requires FullLength(hmac) && Handled(hmac, w)
    ensures Handled(hmac, Step(hmac, w, a))
  {
    hide DeviceStep, InitiatorStep, ResponderStep, Tracked, HandlersLogged, NoHandlersLogged;
    StepTracked(hmac, w, a);
    DeviceStepHandlers(w, a);
    InitiatorStepHandlers(hmac, w, a);
    ResponderStepHandlers(hmac, w, a);
    StepNoHandlers(hmac, w, a);
  }

  lemma {:induction false} RunHandled(hmac: Digest, w: World, actions: seq<Action>)
    requires FullLength(hmac) && Handled(hmac, w)
    ensures Handled(hmac, Run(hmac, w, actions))
    decreases |actions|
  {
    hide Step, Handled;
    if actions != [] {
      StepHandled(hmac, w, actions[0]);
      RunHandled(hmac, Step(hmac, w, actions[0]), actions[1..]);
    }
  }

  /**
   Checking the switch and calling the handler are two sections. In every run, a request that found pairing
   on finds no handler exactly when the device was disabled in between and not switched on again; a stop does not count.
   */
  lemma MissingHandlerIff(hmac: Digest, n: nat, actions: seq<Action>, x: nat, verdict: Verdict, random: Bytes)
    requires FullLength(hmac)
    ensures var w := Run(hmac, Start(n), actions);
            x < |w.exchanges| && w.exchanges[x].rPhase == SawPairingOn ==>
              (var v := Step(hmac, w, DecideA(x, verdict, random));
               |v.exchanges| == |w.exchanges| &&
               (v.exchanges[x].rPhase == NoHandler <==> DisabledSince(w.log, w.exchanges[x].responder, x)))
  {
    hide Run, Start, DisabledSince, Justified, DevicesLogged, RecordedInTime, Outcome, HandlerEvent, VerificationCode;
    StartHandled(hmac, n);
    RunHandled(hmac, Start(n), actions);
    var w := Run(hmac, Start(n), actions);
    if x < |w.exchanges| && w.exchanges[x].rPhase == SawPairingOn {
      assert ExchangeLogged(hmac, w.log, x, w.exchanges[x]);
      DisabledSinceIff(w.log, w.exchanges[x].responder, x);
    }
  }

  /** So in every run a missing handler has a disabling, not just a stop, after the check in the log. */
  lemma MissingHandlerNeedsDisabling(hmac: Digest, n: nat, actions: seq<Action>, x: nat)
    requires FullLength(hmac)
    ensures var w := Run(hmac, Start(n), actions);
            x < |w.exchanges| && w.exchanges[x].rPhase == NoHandler ==>
              DisabledAfter(w.log, w.exchanges[x].responder, x)
  {
    StartHandled(hmac, n);
    RunHandled(hmac, Start(n), actions);
  }

  /** Disabled between the two sections, the handler is missing; stopped between them, it still answers. */
  lemma MissingHandlerRuns(hmac: Digest)
    requires FullLength(hmac)
    ensures var w := Run(hmac, Start(2), ASKING + [DisableA(1), DecideA(0, Accept, [])]);
            |w.exchanges| == 1 && w.exchanges[0].rPhase == NoHandler
    ensures var w := Run(hmac, Start(2), ASKING + [StopA(1), DecideA(0, Accept, [])]);
            |w.exchanges| == 1 && w.exchanges[0].rPhase == Accepted([])
  {
    hide Run, Start;
    AskingAsks(hmac);
    RunConcat(hmac, Start(2), ASKING, [DisableA(1), DecideA(0, Accept, [])]);
    RunConcat(hmac, Start(2), ASKING, [StopA(1), DecideA(0, Accept, [])]);
    RunTwo(hmac, Asked(), DisableA(1), DecideA(0, Accept, []));
    RunTwo(hmac, Asked(), StopA(1), DecideA(0, Accept, []));
  }
}
