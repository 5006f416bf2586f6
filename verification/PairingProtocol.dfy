/**
 Many devices pairing at once: every interleaving of their critical sections and messages, with any
 message lost and any call failing. Streams are authenticated and carry what was sent.
 */
module PairingProtocol {
  import opened ByteStrings
  import opened Sequences
  import opened TimeKey
  import opened Pairing

  // ---------- State ----------

  datatype Reply = Accepting(random: Bytes) | Refusing

  /** The initiator's side of an exchange; it holds the in-progress flag until it is through. */
  datatype InitiatorPhase = Claimed | AwaitingReply | GotReply | Through

  /** The responder's side. */
  datatype ResponderPhase =
    | NotAsked | SawPairingOn | Accepted(random: Bytes) | Remembered(random: Bytes)
    | Replied(reply: Reply) | GaveUp | NoHandler

  datatype Exchange = Exchange(
    initiator: Peer, responder: Peer, sent: bool, random: Bytes, iPhase: InitiatorPhase, rPhase: ResponderPhase)

  datatype Event =
    | SwitchedOn(d: Peer)
    | Disabled(d: Peer)
    | Stopped(d: Peer)
    | FoundOn(d: Peer, x: nat)
    | ReplyLost(x: nat)
    | Failed(x: nat)
    | ResponderRecorded(d: Peer, peer: Peer, x: nat, code: Bytes)
    | InitiatorRecorded(d: Peer, peer: Peer, x: nat, code: Bytes)
    | Removed(d: Peer, peer: Peer)

  /** Devices by peer id, exchanges by stream, and all that has happened. */
  datatype World = World(devices: seq<Device>, exchanges: seq<Exchange>, log: seq<Event>)

  function Start(n: nat): World { World(seq(n, i => NEW_DEVICE), [], []) }

  // ---------- Steps ----------

  datatype Verdict = Accept | Reject | HandlerError

  datatype Action =
    | EnableA(d: Peer, handler: Handler)
    | DisableA(d: Peer)
    | StopA(d: Peer)
    | RequestA(d: Peer, to: Peer)
    | SendA(x: nat, random: Bytes)
    | FailA(x: nat)
    | CheckA(x: nat)
    | LoseA(x: nat)
    | DecideA(x: nat, verdict: Verdict, random: Bytes)
    | RememberA(x: nat, info: PairedDevice)
    | ReplyA(x: nat)
    | ReceiveA(x: nat, info: PairedDevice)
    | FinishA(x: nat)
    | RemoveA(d: Peer, peer: Peer)
    | LateUpdateA(d: Peer, peer: Peer, info: PairedDevice)

  function SetDevice(w: World, d: Peer, device: Device): World
    requires d < |w.devices|
  {
    w.(devices := w.devices[d := device])
  }

  function SetExchange(w: World, x: nat, e: Exchange): World
    requires x < |w.exchanges|
  {
    w.(exchanges := w.exchanges[x := e])
  }

  function Logged(w: World, e: Event): World { w.(log := w.log + [e]) }

  /** Steps of one device alone. */
  function DeviceStep(w: World, a: Action): World {
    match a
    case EnableA(d, h) =>
      if d < |w.devices| && Enable(w.devices[d], h).1
      then Logged(SetDevice(w, d, Enable(w.devices[d], h).0), SwitchedOn(d)) else w
    case DisableA(d) =>
      if d < |w.devices| && w.devices[d].enabled
      then Logged(SetDevice(w, d, Disable(w.devices[d])), Disabled(d)) else w
    case StopA(d) =>
      if d < |w.devices| && w.devices[d].enabled
      then Logged(SetDevice(w, d, Halt(w.devices[d])), Stopped(d)) else w
    case RemoveA(d, p) =>
      if d < |w.devices| && Remove(w.devices[d], p).1
      then Logged(SetDevice(w, d, Remove(w.devices[d], p).0), Removed(d, p)) else w
    case LateUpdateA(d, p, info) =>
      if d < |w.devices| then SetDevice(w, d, Update(w.devices[d], p, info).0) else w
    case _ => w
  }

  /** Steps of an initiator. */
  function InitiatorStep(hmac: Digest, w: World, a: Action): World
    requires FullLength(hmac)
  {
    match a
    case RequestA(d, to) =>
      if d < |w.devices| && to < |w.devices| && d != to && BeginRequest(w.devices[d]).1 then
        var v := SetDevice(w, d, BeginRequest(w.devices[d]).0);
        v.(exchanges := v.exchanges + [Exchange(d, to, false, [], Claimed, NotAsked)])
      else w
    case SendA(x, random) =>
      if x < |w.exchanges| && w.exchanges[x].iPhase == Claimed
      then SetExchange(w, x, w.exchanges[x].(sent := true, random := random, iPhase := AwaitingReply)) else w
    case FailA(x) =>
      if x < |w.exchanges| && (w.exchanges[x].iPhase == Claimed || w.exchanges[x].iPhase == AwaitingReply)
      then Logged(Release(w, x), Failed(x)) else w
    case ReceiveA(x, info) =>
      if x < |w.exchanges| && w.exchanges[x].iPhase == AwaitingReply && w.exchanges[x].rPhase.Replied? then
        var e := w.exchanges[x];
        var v := SetExchange(w, x, e.(iPhase := GotReply));
        match e.rPhase.reply
        case Refusing => v
        case Accepting(random) =>
          if e.initiator < |w.devices| then
            Logged(SetDevice(v, e.initiator, Record(w.devices[e.initiator], e.responder, info)),
                   InitiatorRecorded(e.initiator, e.responder, x, VerificationCode(hmac, e.random, random)))
          else v
      else w
    case FinishA(x) =>
      if x < |w.exchanges| && w.exchanges[x].iPhase == GotReply then Release(w, x) else w
    case _ => w
  }

  /** The deferred reset of the in-progress flag. */
  function Release(w: World, x: nat): World
    requires x < |w.exchanges|
  {
    var e := w.exchanges[x];
    var v := SetExchange(w, x, e.(iPhase := Through));
    if e.initiator < |w.devices| then SetDevice(v, e.initiator, EndRequest(w.devices[e.initiator])) else v
  }

  /** Steps of a responder. */
  function ResponderStep(hmac: Digest, w: World, a: Action): World
    requires FullLength(hmac)
  {
    match a
    case CheckA(x) =>
      if x < |w.exchanges| && w.exchanges[x].sent && w.exchanges[x].rPhase == NotAsked
         && w.exchanges[x].responder < |w.devices| then
        var e := w.exchanges[x];
        if w.devices[e.responder].enabled
        then Logged(SetExchange(w, x, e.(rPhase := SawPairingOn)), FoundOn(e.responder, x))
        else SetExchange(w, x, e.(rPhase := Replied(Refusing)))
      else w
    case LoseA(x) =>
      if x < |w.exchanges| && w.exchanges[x].rPhase != GaveUp
      then Logged(SetExchange(w, x, w.exchanges[x].(rPhase := GaveUp)), ReplyLost(x)) else w
    case DecideA(x, verdict, random) =>
      if x < |w.exchanges| && w.exchanges[x].rPhase == SawPairingOn && w.exchanges[x].responder < |w.devices| then
        var e := w.exchanges[x];
        if w.devices[e.responder].handler.None? then SetExchange(w, x, e.(rPhase := NoHandler))
        else if verdict == Accept then SetExchange(w, x, e.(rPhase := Accepted(random)))
        else SetExchange(w, x, e.(rPhase := Replied(Refusing)))
      else w
    case RememberA(x, info) =>
      if x < |w.exchanges| && w.exchanges[x].rPhase.Accepted? && w.exchanges[x].responder < |w.devices| then
        var e := w.exchanges[x];
        Logged(SetDevice(SetExchange(w, x, e.(rPhase := Remembered(e.rPhase.random))),
                         e.responder, Record(w.devices[e.responder], e.initiator, info)),
               ResponderRecorded(e.responder, e.initiator, x, VerificationCode(hmac, e.random, e.rPhase.random)))
      else w
    case ReplyA(x) =>
      if x < |w.exchanges| && w.exchanges[x].rPhase.Remembered? then
        SetExchange(w, x, w.exchanges[x].(rPhase := Replied(Accepting(w.exchanges[x].rPhase.random))))
      else w
    case _ => w
  }

  function Step(hmac: Digest, w: World, a: Action): World
    requires FullLength(hmac)
  {
    if a.EnableA? || a.DisableA? || a.StopA? || a.RemoveA? || a.LateUpdateA? then DeviceStep(w, a)
    else if a.RequestA? || a.SendA? || a.FailA? || a.ReceiveA? || a.FinishA? then InitiatorStep(hmac, w, a)
    else ResponderStep(hmac, w, a)
  }

  function Run(hmac: Digest, w: World, actions: seq<Action>): World
    requires FullLength(hmac)
    decreases |actions|
  {
    if actions == [] then w else Run(hmac, Step(hmac, w, actions[0]), actions[1..])
  }

  // ---------- What the log says ----------

  /** Whether pairing was on at the end of `log`. */
  function IsOn(log: seq<Event>, d: Peer): bool {
    if log == [] then false
    else
      var n := |log| - 1;
      if log[n] == SwitchedOn(d) then true else if SwitchesOff(log[n], d) then false else IsOn(log[..n], d)
  }

  predicate SwitchesOff(e: Event, d: Peer) { e == Disabled(d) || e == Stopped(d) }

  predicate Records(e: Event, d: Peer, p: Peer) {
    (e.ResponderRecorded? || e.InitiatorRecorded?) && e.d == d && e.peer == p
  }

  /** Whether `p` was recorded by `d` and not removed since. */
  function IsPairedByLog(log: seq<Event>, d: Peer, p: Peer): bool {
    if log == [] then false
    else
      var n := |log| - 1;
      if Records(log[n], d, p) then true else if log[n] == Removed(d, p) then false else IsPairedByLog(log[..n], d, p)
  }

  // ---------- Invariants ----------

  /** Every event is preceded by what it depends on. */
  ghost predicate Justified(log: seq<Event>) {
    forall i :: 0 <= i < |log| ==> JustifiedBy(log[..i], log[i])
  }

  ghost predicate JustifiedBy(before: seq<Event>, e: Event) {
    match e
    case InitiatorRecorded(d, p, x, code) => ResponderRecorded(p, d, x, code) in before
    case ResponderRecorded(d, p, x, code) => FoundOn(d, x) in before && |code| == 6 && AllDigits(code)
    case FoundOn(d, x) => IsOn(before, d)
    case SwitchedOn(d) => !IsOn(before, d)
    case Disabled(d) => IsOn(before, d)
    case Stopped(d) => IsOn(before, d)
    case _ => true
  }

  /** How far an exchange has come on the responder's side, read off the log. */
  ghost predicate ExchangeLogged(hmac: Digest, log: seq<Event>, x: nat, e: Exchange)
    requires FullLength(hmac)
  {
    && (e.iPhase == Claimed ==> !e.sent && (e.rPhase == NotAsked || e.rPhase == GaveUp))
    && (e.rPhase.SawPairingOn? || e.rPhase.Accepted? || e.rPhase.Remembered? ==> FoundOn(e.responder, x) in log)
    && (e.rPhase.Remembered? ==>
          ResponderRecorded(e.responder, e.initiator, x, VerificationCode(hmac, e.random, e.rPhase.random)) in log)
    && (e.rPhase.Replied? && e.rPhase.reply.Accepting? ==>
          ResponderRecorded(
            e.responder, e.initiator, x, VerificationCode(hmac, e.random, e.rPhase.reply.random)) in log)
  }

  ghost predicate DevicesLogged(w: World) {
    forall d :: 0 <= d < |w.devices| ==>
      && w.devices[d].enabled == IsOn(w.log, d)
      && (forall p: Peer :: p in w.devices[d].paired <==> IsPairedByLog(w.log, d, p))
  }

  ghost predicate Consistent(hmac: Digest, w: World)
    requires FullLength(hmac)
  {
    && Justified(w.log)
    && DevicesLogged(w)
    && ExchangesLogged(hmac, w)
  }

  ghost predicate ExchangesLogged(hmac: Digest, w: World)
    requires FullLength(hmac)
  {
    forall x :: 0 <= x < |w.exchanges| ==> ExchangeLogged(hmac, w.log, x, w.exchanges[x])
  }

  lemma JustifiedSnoc(log: seq<Event>, e: Event)
    requires Justified(log) && JustifiedBy(log, e)
    ensures Justified(log + [e])
  {
    var l := log + [e];
    forall i | 0 <= i < |l| ensures JustifiedBy(l[..i], l[i]) {
      if i < |log| { assert l[..i] == log[..i]; } else { assert l[..i] == log; }
    }
  }

  lemma LogSnoc(log: seq<Event>, e: Event)
    ensures forall d :: IsOn(log + [e], d) ==
              if e == SwitchedOn(d) then true else if SwitchesOff(e, d) then false else IsOn(log, d)
    ensures forall d, p :: IsPairedByLog(log + [e], d, p) ==
              if Records(e, d, p) then true else if e == Removed(d, p) then false else IsPairedByLog(log, d, p)
  {
    assert (log + [e])[..|log|] == log;
  }

  lemma DeviceStepJustified(hmac: Digest, w: World, a: Action)
    requires FullLength(hmac) && Consistent(hmac, w)
    ensures var v := DeviceStep(w, a);
            Justified(v.log) && (v.log == w.log || exists e :: v.log == w.log + [e])
  {
    hide VerificationCode, IsPairedByLog, Justified;
    var v := DeviceStep(w, a);
    if v.log != w.log {
      var e := v.log[|w.log|];
      assert v.log == w.log + [e];
      assert JustifiedBy(w.log, e);
      JustifiedSnoc(w.log, e);
    }
  }

  lemma DeviceStepDevices(hmac: Digest, w: World, a: Action)
    requires FullLength(hmac) && Consistent(hmac, w)
    ensures DevicesLogged(DeviceStep(w, a))
  {
    hide VerificationCode, Justified, ExchangeLogged, IsOn, IsPairedByLog;
    var v := DeviceStep(w, a);
    if v.log != w.log {
      var e := v.log[|w.log|];
      assert v.log == w.log + [e];
      LogSnoc(w.log, e);
    }
  }

  lemma DeviceStepExchanges(hmac: Digest, w: World, a: Action)
    requires FullLength(hmac) && Consistent(hmac, w)
    ensures ExchangesLogged(hmac, DeviceStep(w, a))
  {
    hide VerificationCode, Justified, DevicesLogged, IsOn, IsPairedByLog;
    DeviceStepJustified(hmac, w, a);
  }

  lemma InitiatorStepJustified(hmac: Digest, w: World, a: Action)
    requires FullLength(hmac) && Consistent(hmac, w)
    ensures var v := InitiatorStep(hmac, w, a);
            Justified(v.log) && (v.log == w.log || exists e :: v.log == w.log + [e])
  {
    hide VerificationCode, IsPairedByLog, Justified;
    var v := InitiatorStep(hmac, w, a);
    if v.log != w.log {
      var e := v.log[|w.log|];
      assert v.log == w.log + [e];
      assert JustifiedBy(w.log, e);
      JustifiedSnoc(w.log, e);
    }
  }

  lemma InitiatorStepDevices(hmac: Digest, w: World, a: Action)
    requires FullLength(hmac) && Consistent(hmac, w)
    ensures DevicesLogged(InitiatorStep(hmac, w, a))
  {
    hide VerificationCode, Justified, ExchangeLogged, IsOn, IsPairedByLog;
    var v := InitiatorStep(hmac, w, a);
    if v.log != w.log {
      var e := v.log[|w.log|];
      assert v.log == w.log + [e];
      LogSnoc(w.log, e);
    }
  }

  lemma InitiatorStepExchanges(hmac: Digest, w: World, a: Action)
    requires FullLength(hmac) && Consistent(hmac, w)
    ensures ExchangesLogged(hmac, InitiatorStep(hmac, w, a))
  {
    hide VerificationCode, Justified, DevicesLogged, IsOn, IsPairedByLog;
    InitiatorStepJustified(hmac, w, a);
  }

  lemma ResponderStepJustified(hmac: Digest, w: World, a: Action)
    requires FullLength(hmac) && Consistent(hmac, w)
    ensures var v := ResponderStep(hmac, w, a);
            Justified(v.log) && (v.log == w.log || exists e :: v.log == w.log + [e])
  {
    hide VerificationCode, IsPairedByLog, Justified;
    var v := ResponderStep(hmac, w, a);
    if v.log != w.log {
      var e := v.log[|w.log|];
      assert v.log == w.log + [e];
      assert JustifiedBy(w.log, e);
      JustifiedSnoc(w.log, e);
    }
  }

  lemma ResponderStepDevices(hmac: Digest, w: World, a: Action)
    requires FullLength(hmac) && Consistent(hmac, w)
    ensures DevicesLogged(ResponderStep(hmac, w, a))
  {
    hide VerificationCode, Justified, ExchangeLogged, IsOn, IsPairedByLog;
    var v := ResponderStep(hmac, w, a);
    if v.log != w.log {
      var e := v.log[|w.log|];
      assert v.log == w.log + [e];
      LogSnoc(w.log, e);
    }
  }

  lemma ResponderStepExchanges(hmac: Digest, w: World, a: Action)
    requires FullLength(hmac) && Consistent(hmac, w)
    ensures ExchangesLogged(hmac, ResponderStep(hmac, w, a))
  {
    hide VerificationCode, Justified, DevicesLogged, IsOn, IsPairedByLog;
    ResponderStepJustified(hmac, w, a);
  }

  lemma StepConsistent(hmac: Digest, w: World, a: Action)
    requires FullLength(hmac) && Consistent(hmac, w)
    ensures Consistent(hmac, Step(hmac, w, a))
  {
    hide DeviceStep, InitiatorStep, ResponderStep, Justified, DevicesLogged, ExchangesLogged;
    DeviceStepJustified(hmac, w, a);
    DeviceStepDevices(hmac, w, a);
    DeviceStepExchanges(hmac, w, a);
    InitiatorStepJustified(hmac, w, a);
    InitiatorStepDevices(hmac, w, a);
    InitiatorStepExchanges(hmac, w, a);
    ResponderStepJustified(hmac, w, a);
    ResponderStepDevices(hmac, w, a);
    ResponderStepExchanges(hmac, w, a);
  }

  lemma {:induction false} RunConsistent(hmac: Digest, w: World, actions: seq<Action>)
    requires FullLength(hmac) && Consistent(hmac, w)
    ensures Consistent(hmac, Run(hmac, w, actions))
    decreases |actions|
  {
    if actions != [] {
      StepConsistent(hmac, w, actions[0]);
      RunConsistent(hmac, Step(hmac, w, actions[0]), actions[1..]);
    }
  }

  lemma StartConsistent(hmac: Digest, n: nat)
    requires FullLength(hmac)
    ensures Consistent(hmac, Start(n))
  {}

  // ---------- Agreement ----------

  /**
   Pairing agreement, in every interleaving: when the initiator records the responder, the responder has
   already recorded the initiator in the same exchange, after finding pairing switched on, and both have
   the same six-digit code.
   */
  lemma PairingAgreement(hmac: Digest, n: nat, actions: seq<Action>, i: nat)
    requires FullLength(hmac)
    requires i < |Run(hmac, Start(n), actions).log| && Run(hmac, Start(n), actions).log[i].InitiatorRecorded?
    ensures var log := Run(hmac, Start(n), actions).log;
            var e := log[i];
            exists j, k :: 0 <= k < j < i && log[j] == ResponderRecorded(e.peer, e.d, e.x, e.code)
                           && log[k] == FoundOn(e.peer, e.x) && IsOn(log[..k], e.peer)
                           && |e.code| == 6 && AllDigits(e.code)
  {
    hide Run, Start;
    StartConsistent(hmac, n);
    RunConsistent(hmac, Start(n), actions);
    var log := Run(hmac, Start(n), actions).log;
    var e := log[i];
    assert JustifiedBy(log[..i], log[i]);
    var j :| 0 <= j < i && log[..i][j] == ResponderRecorded(e.peer, e.d, e.x, e.code);
    assert log[j] == ResponderRecorded(e.peer, e.d, e.x, e.code);
    assert JustifiedBy(log[..j], log[j]);
    var k :| 0 <= k < j && log[..j][k] == FoundOn(e.peer, e.x);
    assert log[k] == FoundOn(e.peer, e.x);
    assert JustifiedBy(log[..k], log[k]);
  }

  /** In every interleaving a device is switched on only while off, and off only while on. */
  lemma SwitchesAlternate(hmac: Digest, n: nat, actions: seq<Action>, d: Peer, i: nat)
    requires FullLength(hmac) && i < |Run(hmac, Start(n), actions).log|
    ensures var log := Run(hmac, Start(n), actions).log;
            && (log[i] == SwitchedOn(d) ==> !IsOn(log[..i], d))
            && (log[i] == Disabled(d) || log[i] == Stopped(d) ==> IsOn(log[..i], d))
  {
    hide Run, Start, IsOn;
    StartConsistent(hmac, n);
    RunConsistent(hmac, Start(n), actions);
    var log := Run(hmac, Start(n), actions).log;
    assert JustifiedBy(log[..i], log[i]);
  }

  // ---------- The paired set ----------

  /**
   In every run a device lists exactly the peers whose last record was not followed by a removal: the
   set grows only by accepted exchanges and shrinks only by removals.
   */
  lemma PairedSetIsRecorded(hmac: Digest, n: nat, actions: seq<Action>, d: Peer, p: Peer)
    requires FullLength(hmac) && d < n
    ensures var w := Run(hmac, Start(n), actions);
            |w.devices| == n && (p in w.devices[d].paired <==> IsPairedByLog(w.log, d, p))
  {
    hide Start, Run, IsPairedByLog;
    StartConsistent(hmac, n);
    RunConsistent(hmac, Start(n), actions);
    assert |Start(n).devices| == n by { StartSize(n); }
    RunSize(hmac, Start(n), actions);
  }

  lemma StartSize(n: nat)
    ensures |Start(n).devices| == n
  {}

  lemma {:induction false} RunSize(hmac: Digest, w: World, actions: seq<Action>)
    requires FullLength(hmac)
    ensures |Run(hmac, w, actions).devices| == |w.devices|
    decreases |actions|
  {
    if actions != [] {
      StepSize(hmac, w, actions[0]);
      RunSize(hmac, Step(hmac, w, actions[0]), actions[1..]);
    }
  }

  lemma StepSize(hmac: Digest, w: World, a: Action)
    requires FullLength(hmac)
    ensures |Step(hmac, w, a).devices| == |w.devices|
  {
    hide VerificationCode;
  }

  // ---------- Late updates ----------

  /** Worlds that differ in what is noted about listed peers only. */
  ghost predicate SameButNotes(w: World, v: World) {
    && v.log == w.log && v.exchanges == w.exchanges && |v.devices| == |w.devices|
    && forall d :: 0 <= d < |w.devices| ==>
         && v.devices[d] == w.devices[d].(paired := v.devices[d].paired)
         && v.devices[d].paired.Keys == w.devices[d].paired.Keys
  }

  function WithoutLateUpdates(actions: seq<Action>): seq<Action> {
    if actions == [] then []
    else (if actions[0].LateUpdateA? then [] else [actions[0]]) + WithoutLateUpdates(actions[1..])
  }

  lemma LateUpdateChangesNotes(hmac: Digest, w: World, v: World, a: Action)
    requires FullLength(hmac) && SameButNotes(w, v) && a.LateUpdateA?
    ensures SameButNotes(Step(hmac, w, a), v)
  {}

  lemma DeviceStepSameButNotes(w: World, v: World, a: Action)
    requires SameButNotes(w, v) && !a.LateUpdateA?
    ensures SameButNotes(DeviceStep(w, a), DeviceStep(v, a))
  {}

  lemma InitiatorStepSameButNotes(hmac: Digest, w: World, v: World, a: Action)
    requires FullLength(hmac) && SameButNotes(w, v)
    ensures SameButNotes(InitiatorStep(hmac, w, a), InitiatorStep(hmac, v, a))
  {
    hide VerificationCode;
  }

  lemma ResponderStepSameButNotes(hmac: Digest, w: World, v: World, a: Action)
    requires FullLength(hmac) && SameButNotes(w, v)
    ensures SameButNotes(ResponderStep(hmac, w, a), ResponderStep(hmac, v, a))
  {
    hide VerificationCode;
  }

  lemma StepSameButNotes(hmac: Digest, w: World, v: World, a: Action)
    requires FullLength(hmac) && SameButNotes(w, v) && !a.LateUpdateA?
    ensures SameButNotes(Step(hmac, w, a), Step(hmac, v, a))
  {
    hide DeviceStep, InitiatorStep, ResponderStep, SameButNotes;
    DeviceStepSameButNotes(w, v, a);
    InitiatorStepSameButNotes(hmac, w, v, a);
    ResponderStepSameButNotes(hmac, w, v, a);
  }

  lemma {:induction false} RunsSameButNotes(hmac: Digest, w: World, v: World, actions: seq<Action>)
    requires FullLength(hmac) && SameButNotes(w, v)
    ensures SameButNotes(Run(hmac, w, actions), Run(hmac, v, WithoutLateUpdates(actions)))
    decreases |actions|
  {
    hide Step, SameButNotes;
    if actions != [] {
      var a, rest := actions[0], actions[1..];
      if a.LateUpdateA? {
        LateUpdateChangesNotes(hmac, w, v, a);
        RunsSameButNotes(hmac, Step(hmac, w, a), v, rest);
        EmptyPrefix(WithoutLateUpdates(rest));
      } else {
        StepSameButNotes(hmac, w, v, a);
        RunsSameButNotes(hmac, Step(hmac, w, a), Step(hmac, v, a), rest);
        assert ([a] + WithoutLateUpdates(rest))[1..] == WithoutLateUpdates(rest);
      }
    }
  }

  /**
   The updates that connect goroutines make late, on whatever device at whatever point, change nothing
   else: without them every run has the same events and exchanges and leaves the same peers listed.
   */
  lemma LateUpdatesDoNotMatter(hmac: Digest, n: nat, actions: seq<Action>)
    requires FullLength(hmac)
    ensures SameButNotes(Run(hmac, Start(n), actions), Run(hmac, Start(n), WithoutLateUpdates(actions)))
  {
    RunsSameButNotes(hmac, Start(n), Start(n), actions);
  }

  // ---------- One request at a time ----------

  predicate Active(e: Exchange) { e.iPhase != Through }

  ghost predicate HoldsFlag(w: World, x: nat, d: Peer) {
    x < |w.exchanges| && Active(w.exchanges[x]) && w.exchanges[x].initiator == d
  }

  /** The in-progress flag of a device is up exactly while one exchange of its own is active. */
  ghost predicate FlagsMatch(w: World) {
    && (forall x: nat, d: Peer :: HoldsFlag(w, x, d) ==> d < |w.devices| && w.devices[d].inProgress)
    && (forall x: nat, y: nat, d: Peer :: HoldsFlag(w, x, d) && HoldsFlag(w, y, d) ==> x == y)
    && (forall d: Peer :: d < |w.devices| && w.devices[d].inProgress ==> exists x :: HoldsFlag(w, x, d))
  }

  /** Steps that neither open nor close an exchange leave the flags as they are. */
  ghost predicate SameFlags(w: World, v: World) {
    && |v.devices| == |w.devices| && |v.exchanges| == |w.exchanges|
    && (forall d :: 0 <= d < |w.devices| ==> v.devices[d].inProgress == w.devices[d].inProgress)
    && (forall x: nat, d: Peer :: HoldsFlag(v, x, d) <==> HoldsFlag(w, x, d))
  }

  lemma SameFlagsMatch(w: World, v: World)
    requires FlagsMatch(w) && SameFlags(w, v)
    ensures FlagsMatch(v)
  {
    forall d: Peer | d < |v.devices| && v.devices[d].inProgress ensures exists x :: HoldsFlag(v, x, d) {
      var x :| HoldsFlag(w, x, d);
      assert HoldsFlag(v, x, d);
    }
  }

  lemma ReleaseMatches(w: World, x: nat)
    requires FlagsMatch(w) && x < |w.exchanges| && Active(w.exchanges[x])
    ensures FlagsMatch(Release(w, x))
  {
    var v := Release(w, x);
    var d := w.exchanges[x].initiator;
    assert HoldsFlag(w, x, d);
    assert forall y, p :: HoldsFlag(v, y, p) <==> HoldsFlag(w, y, p) && y != x;
    forall p: Peer | p < |v.devices| && v.devices[p].inProgress ensures exists y :: HoldsFlag(v, y, p) {
      var y :| HoldsFlag(w, y, p);
      assert HoldsFlag(v, y, p);
    }
  }

  lemma RequestMatches(hmac: Digest, w: World, d: Peer, to: Peer)
    requires FullLength(hmac) && FlagsMatch(w)
    ensures FlagsMatch(Step(hmac, w, RequestA(d, to)))
  {
    var v := Step(hmac, w, RequestA(d, to));
    if v != w {
      var n := |w.exchanges|;
      assert forall y, p :: HoldsFlag(v, y, p) <==> HoldsFlag(w, y, p) || (y == n && p == d);
      forall p: Peer | p < |v.devices| && v.devices[p].inProgress ensures exists y :: HoldsFlag(v, y, p) {
        if p == d { assert HoldsFlag(v, n, p); } else {
          var y :| HoldsFlag(w, y, p);
          assert HoldsFlag(v, y, p);
        }
      }
    }
  }

  lemma OtherStepsKeepFlags(hmac: Digest, w: World, a: Action)
    requires FullLength(hmac) && !a.RequestA? && !a.FailA? && !a.FinishA?
    ensures SameFlags(w, Step(hmac, w, a))
  {
    hide VerificationCode, HoldsFlag;
    SamePhasesSameFlags(w, Step(hmac, w, a));
  }

  lemma SamePhasesSameFlags(w: World, v: World)
    requires |v.devices| == |w.devices| && |v.exchanges| == |w.exchanges|
    requires forall d :: 0 <= d < |w.devices| ==> v.devices[d].inProgress == w.devices[d].inProgress
    requires forall x :: 0 <= x < |w.exchanges| ==>
               v.exchanges[x].initiator == w.exchanges[x].initiator && Active(v.exchanges[x]) == Active(w.exchanges[x])
    ensures SameFlags(w, v)
  {}

  lemma LogKeepsFlags(w: World, e: Event)
    requires FlagsMatch(w)
    ensures FlagsMatch(Logged(w, e))
  {
    SamePhasesSameFlags(w, Logged(w, e));
    SameFlagsMatch(w, Logged(w, e));
  }

  lemma ClosingMatches(hmac: Digest, w: World, a: Action)
    requires FullLength(hmac) && FlagsMatch(w) && (a.FailA? || a.FinishA?)
    ensures FlagsMatch(Step(hmac, w, a))
  {
    hide FlagsMatch, VerificationCode;
    if a.x < |w.exchanges| && Active(w.exchanges[a.x]) {
      ReleaseMatches(w, a.x);
      LogKeepsFlags(Release(w, a.x), Failed(a.x));
    }
  }

  lemma StepMatches(hmac: Digest, w: World, a: Action)
    requires FullLength(hmac) && FlagsMatch(w)
    ensures FlagsMatch(Step(hmac, w, a))
  {
    hide FlagsMatch, Step, SameFlags;
    if a.RequestA? {
      RequestMatches(hmac, w, a.d, a.to);
    } else if a.FailA? || a.FinishA? {
      ClosingMatches(hmac, w, a);
    } else {
      OtherStepsKeepFlags(hmac, w, a);
      SameFlagsMatch(w, Step(hmac, w, a));
    }
  }

  lemma {:induction false} RunMatches(hmac: Digest, w: World, actions: seq<Action>)
    requires FullLength(hmac) && FlagsMatch(w)
    ensures FlagsMatch(Run(hmac, w, actions))
    decreases |actions|
  {
    hide FlagsMatch, Step;
    if actions != [] {
      StepMatches(hmac, w, actions[0]);
      RunMatches(hmac, Step(hmac, w, actions[0]), actions[1..]);
    }
  }

  /**
   At most one `RequestPairing` of a device is ever in flight, and its flag is up exactly while one is; a
   call that comes in between is refused and changes nothing, in particular not the flag.
   */
  lemma OneRequestAtATime(hmac: Digest, n: nat, actions: seq<Action>, d: Peer, to: Peer)
    requires FullLength(hmac)
    ensures var w := Run(hmac, Start(n), actions);
            && FlagsMatch(w)
            && (d < |w.devices| && w.devices[d].inProgress ==> Step(hmac, w, RequestA(d, to)) == w)
  {
    assert FlagsMatch(Start(n));
    RunMatches(hmac, Start(n), actions);
  }
}
