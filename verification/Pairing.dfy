/** One device's pairing manager: what each of its critical sections does to its state. */
module Pairing {
  import opened ByteStrings
  import opened Sequences
  import opened TimeKey

  type Peer = nat
  type Handler = nat

  datatype PairedDevice = PairedDevice(name: string, lastSeen: int)

  datatype Device = Device(enabled: bool, handler: Option<Handler>, inProgress: bool, paired: map<Peer, PairedDevice>)

  /** `NewPairingManager`. */
  const NEW_DEVICE := Device(false, None, false, map[])

  // ---------- Critical sections ----------

  function Enable(d: Device, h: Handler): (Device, bool) {
    if d.enabled then (d, false) else (d.(enabled := true, handler := Some(h)), true)
  }

  function Disable(d: Device): Device {
    if d.enabled then d.(enabled := false, handler := None) else d
  }

  /** `Stop` switches pairing off but keeps the handler. */
  function Halt(d: Device): Device { d.(enabled := false) }

  /** The check-and-set at the start of `RequestPairing`. */
  function BeginRequest(d: Device): (Device, bool) {
    if d.inProgress then (d, false) else (d.(inProgress := true), true)
  }

  /** Its deferred reset. */
  function EndRequest(d: Device): Device { d.(inProgress := false) }

  function Record(d: Device, p: Peer, info: PairedDevice): Device { d.(paired := d.paired[p := info]) }

  function Remove(d: Device, p: Peer): (Device, bool) {
    if p in d.paired then (d.(paired := d.paired - {p}), true) else (d, false)
  }

  /** An update of a device that is not paired is refused. */
  function Update(d: Device, p: Peer, info: PairedDevice): (Device, bool) {
    if p in d.paired then (Record(d, p, info), true) else (d, false)
  }

  class PairingManager {
    var pairingEnabled: bool
    var incomingHandler: Option<Handler>
    var pairingInProgress: bool
    var pairedDevices: map<Peer, PairedDevice>

    function State(): Device
      reads this
    {
      Device(pairingEnabled, incomingHandler, pairingInProgress, pairedDevices)
    }

    constructor ()
      ensures State() == NEW_DEVICE
    {
      pairingEnabled, incomingHandler, pairingInProgress, pairedDevices := false, None, false, map[];
    }

    method EnablePairing(handler: Handler) returns (ok: bool)
      modifies this
      ensures (State(), ok) == Enable(old(State()), handler)
      ensures ok == !old(pairingEnabled) && pairingEnabled
      ensures incomingHandler == if ok then Some(handler) else old(incomingHandler)
    {
      if pairingEnabled { return false; }
      incomingHandler := Some(handler);
      pairingEnabled := true;
      return true;
    }

    method DisablePairing()
      modifies this
      ensures State() == Disable(old(State()))
    {
      if pairingEnabled {
        pairingEnabled := false;
        incomingHandler := None;
      }
    }

    method Stop()
      modifies this
      ensures State() == Halt(old(State()))
    {
      if pairingEnabled { pairingEnabled := false; }
    }

    method ClaimRequest() returns (ok: bool)
      modifies this
      ensures (State(), ok) == BeginRequest(old(State()))
    {
      if pairingInProgress { return false; }
      pairingInProgress := true;
      return true;
    }

    method ReleaseRequest()
      modifies this
      ensures State() == EndRequest(old(State()))
    {
      pairingInProgress := false;
    }

    method AddPairedDevice(peer: Peer, device: PairedDevice)
      modifies this
      ensures State() == Record(old(State()), peer, device)
      ensures pairedDevices == old(pairedDevices)[peer := device]
    {
      pairedDevices := pairedDevices[peer := device];
    }

    method RemovePairedDevice(peer: Peer) returns (ok: bool)
      modifies this
      ensures (State(), ok) == Remove(old(State()), peer)
      ensures ok == (peer in old(pairedDevices)) && pairedDevices == old(pairedDevices) - {peer}
    {
      if peer !in pairedDevices { return false; }
      pairedDevices := pairedDevices - {peer};
      return true;
    }

    method UpdatePairedDevice(peer: Peer, device: PairedDevice) returns (ok: bool)
      modifies this
      ensures (State(), ok) == Update(old(State()), peer, device)
      ensures ok == (peer in old(pairedDevices))
      ensures pairedDevices == if ok then old(pairedDevices)[peer := device] else old(pairedDevices)
    {
      if peer !in pairedDevices { return false; }
      pairedDevices := pairedDevices[peer := device];
      return true;
    }
  }

  // ---------- Verification code ----------

  const CODE_BYTES := 4

  /** HMAC-SHA256 of the combined text under itself as key: 32 bytes. */
  type Digest = Bytes -> Bytes

  ghost predicate FullLength(hmac: Digest) { forall s :: |hmac(s)| == 32 }

  /** The first `n` bytes as one big-endian number. */
  function BigEndian(s: Bytes, n: nat): (v: int)
    requires n <= |s|
    ensures 0 <= v < Pow256(n)
  {
    if n == 0 then 0 else 256 * BigEndian(s, n - 1) + s[n - 1]
  }

  function Pow256(n: nat): int { if n == 0 then 1 else 256 * Pow256(n - 1) }

  /** Six decimal digits derived from both random texts. */
  function VerificationCode(hmac: Digest, initiatorRandom: Bytes, responderRandom: Bytes): (code: Bytes)
    requires |hmac(initiatorRandom + responderRandom)| >= CODE_BYTES
    ensures |code| == 6 && AllDigits(code)
  {
    SixDigits();
    Digits(BigEndian(hmac(initiatorRandom + responderRandom), CODE_BYTES) % 1_000_000, 6)
  }

  lemma SixDigits()
    ensures Pow10(6) == 1_000_000
  {
    assert Pow10(3) == 1000;
  }

  /** `code = code << 8 | b` on uint32 values, then six digits with leading zeros. */
  method GenerateVerificationCode(hmac: Digest, initiatorRandom: Bytes, responderRandom: Bytes) returns (text: Bytes)
    requires |hmac(initiatorRandom + responderRandom)| >= CODE_BYTES
    ensures text == VerificationCode(hmac, initiatorRandom, responderRandom)
    ensures |text| == 6 && AllDigits(text)
    ensures var b := hmac(initiatorRandom + responderRandom);
            Value(text) == FourBytes(b[0], b[1], b[2], b[3]) % 1_000_000
  {
    var digest := hmac(initiatorRandom + responderRandom);
    var code: int := 0;
    assert Pow256(0) == 1 && Pow256(1) == 256 && Pow256(2) == 65536 && Pow256(3) == 0x100_0000;
    for i := 0 to CODE_BYTES
      invariant code == BigEndian(digest, i)
      invariant i <= 3 ==> code < 0x100_0000
    {
      code := code * 256 % 0x1_0000_0000 + digest[i];
    }
    SixDigits();
    text := Digits(code % 1_000_000, 6);
    CodeIsFourBytes(hmac, initiatorRandom, responderRandom);
  }

  function FourBytes(a: int, b: int, c: int, d: int): int { ((a * 256 + b) * 256 + c) * 256 + d }

  lemma FirstFour(b: Bytes)
    requires |b| >= 4
    ensures BigEndian(b, CODE_BYTES) == FourBytes(b[0], b[1], b[2], b[3])
  {
    assert BigEndian(b, 1) == b[0];
    assert BigEndian(b, 2) == 256 * BigEndian(b, 1) + b[1];
    assert BigEndian(b, 3) == 256 * BigEndian(b, 2) + b[2];
  }

  /** The code is the number that the first four bytes of the digest make, modulo a million, in decimal. */
  lemma CodeIsFourBytes(hmac: Digest, initiatorRandom: Bytes, responderRandom: Bytes)
    requires |hmac(initiatorRandom + responderRandom)| >= 4
    ensures var b := hmac(initiatorRandom + responderRandom);
            var code := VerificationCode(hmac, initiatorRandom, responderRandom);
            |code| == 6 && AllDigits(code) && Value(code) == FourBytes(b[0], b[1], b[2], b[3]) % 1_000_000
  {
    hide Digits, Value, FourBytes, BigEndian;
    SixDigits();
    FirstFour(hmac(initiatorRandom + responderRandom));
    ValueInvertsDigits(BigEndian(hmac(initiatorRandom + responderRandom), CODE_BYTES) % 1_000_000, 6);
  }
}
