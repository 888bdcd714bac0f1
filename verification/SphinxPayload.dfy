/** Payload padding and its layers of encryption (sphinx/src/payload/mod.rs). */
module SphinxPayload {
  import opened Wrappers
  import opened Octets
  import opened SphinxSuite

  const OVERHEAD: nat := SECURITY_PARAMETER + 1
  const LIONESS_BLOCK: nat := 32

  // ---------- padding ----------

  predicate ParametersValid(payloadSize: nat, length: nat) {
    && payloadSize >= OVERHEAD
    && payloadSize >= LIONESS_BLOCK
    && length <= payloadSize - OVERHEAD
  }

  function FinalPayload(message: Bytes, payloadSize: nat): (b: Bytes)
    requires |message| + OVERHEAD <= payloadSize
    ensures |b| == payloadSize
  {
    Zeros(SECURITY_PARAMETER) + message + [1] + Zeros(payloadSize - OVERHEAD - |message|)
  }

  /** The position of the last 1. */
  function LastOne(b: Bytes): (r: Option<nat>)
    ensures r.None? ==> 1 !in b
    ensures r.Some? ==> r.value < |b| && b[r.value] == 1 && 1 !in b[r.value + 1..]
  {
    if b == [] then None
    else if b[|b| - 1] == 1 then Some(|b| - 1)
    else
      var front := LastOne(b[..|b| - 1]);
      assert front.Some? ==> b[front.value + 1..] == b[..|b| - 1][front.value + 1..] + [b[|b| - 1]];
      assert b == b[..|b| - 1] + [b[|b| - 1]];
      front
  }

  predicate AllZero(b: Bytes) {
    forall i :: 0 <= i < |b| ==> b[i] == 0
  }

  function RecoveredPlaintext(payload: Bytes): (r: Result<Bytes, Error>)
    ensures r.Failure? ==> r.error == InvalidPayload
  {
    var n := if |payload| < SECURITY_PARAMETER then |payload| else SECURITY_PARAMETER;
    if !AllZero(payload[..n]) then Failure(InvalidPayload)
    else
      match LastOne(payload[n..])
      case None => Failure(InvalidPayload)
      case Some(i) => Success(payload[n..][..i])
  }

  lemma RecoveredShape(payload: Bytes, message: Bytes)
    requires RecoveredPlaintext(payload) == Success(message)
    ensures exists tail :: payload == Zeros(SECURITY_PARAMETER) + message + [1] + tail && 1 !in tail
  {
    hide LastOne;
    if |payload| < SECURITY_PARAMETER {
      assert false;
    } else {
      var rest := payload[SECURITY_PARAMETER..];
      var i := LastOne(rest).value;
      var tail := rest[i + 1..];
      assert payload[..SECURITY_PARAMETER] == Zeros(SECURITY_PARAMETER);
      assert rest == message + [1] + tail;
      assert payload == payload[..SECURITY_PARAMETER] + rest;
      assert payload == Zeros(SECURITY_PARAMETER) + message + [1] + tail;
    }
  }

  lemma LastOneIs(b: Bytes, i: nat)
    requires i < |b| && b[i] == 1 && 1 !in b[i + 1..]
    ensures LastOne(b) == Some(i)
  {
  }

  lemma ShapeRecovers(message: Bytes, tail: Bytes)
    requires 1 !in tail
    ensures RecoveredPlaintext(Zeros(SECURITY_PARAMETER) + message + [1] + tail) == Success(message)
  {
    var payload := Zeros(SECURITY_PARAMETER) + message + [1] + tail;
    var rest := payload[SECURITY_PARAMETER..];
    assert payload[..SECURITY_PARAMETER] == Zeros(SECURITY_PARAMETER);
    assert rest == message + [1] + tail;
    LastOneIs(rest, |message|);
    assert rest[..|message|] == message;
  }

  /** Exactly which payloads carry which message: sixteen zeros, the message, a 1, and then anything without a 1.
      The source does not check that the trailing padding is zero, although its comments speak of zeros. */
  lemma RecoversExactly(payload: Bytes, message: Bytes)
    ensures RecoveredPlaintext(payload) == Success(message)
       <==> exists tail :: payload == Zeros(SECURITY_PARAMETER) + message + [1] + tail && 1 !in tail
  {
    if RecoveredPlaintext(payload) == Success(message) {
      RecoveredShape(payload, message);
    }
    if tail :| payload == Zeros(SECURITY_PARAMETER) + message + [1] + tail && 1 !in tail {
      ShapeRecovers(message, tail);
    }
  }

  /** Every message that fits is recovered, whatever it ends in. */
  lemma PaddingRoundTrip(message: Bytes, payloadSize: nat)
    requires |message| + OVERHEAD <= payloadSize
    ensures RecoveredPlaintext(FinalPayload(message, payloadSize)) == Success(message)
  {
    ShapeRecovers(message, Zeros(payloadSize - OVERHEAD - |message|));
  }

  // ---------- layers ----------

  function LayerAdded(s: Suite, payload: Bytes, key: PayloadKey): (r: Result<Bytes, Error>)
    ensures r.Success? ==> |r.value| == |payload|
  {
    if !s.blockFits(|payload|) then Failure(InvalidPayload) else Success(s.blockEnc(key, payload))
  }

  function Unwrapped(s: Suite, payload: Bytes, key: PayloadKey): (r: Result<Bytes, Error>)
    ensures r.Success? ==> |r.value| == |payload|
  {
    if !s.blockFits(|payload|) then Failure(InvalidPayload) else Success(s.blockDec(key, payload))
  }

  /** The payload as node `i` receives it: encrypted for nodes `i` and up. */
  function PayloadAt(s: Suite, message: Bytes, keys: seq<PayloadKey>, payloadSize: nat, i: nat): (b: Bytes)
    requires |message| + OVERHEAD <= payloadSize && i <= |keys|
    ensures |b| == payloadSize
    decreases |keys| - i
  {
    if i == |keys| then FinalPayload(message, payloadSize)
    else s.blockEnc(keys[i], PayloadAt(s, message, keys, payloadSize, i + 1))
  }

  predicate Encapsulates(s: Suite, keys: seq<PayloadKey>, message: Bytes, payloadSize: nat) {
    ParametersValid(payloadSize, |message|) && (|keys| > 0 ==> s.blockFits(payloadSize))
  }

  method EncapsulateMessage(s: Suite, message: Bytes, keys: seq<PayloadKey>, payloadSize: nat)
    returns (r: Result<Bytes, Error>)
    ensures r.Success? <==> Encapsulates(s, keys, message, payloadSize)
    ensures r.Success? ==> r.value == PayloadAt(s, message, keys, payloadSize, 0)
    ensures r.Failure? ==> r.error == InvalidPayload
  {
    if !ParametersValid(payloadSize, |message|) {
      return Failure(InvalidPayload);
    }
    var payload := FinalPayload(message, payloadSize);
    for i := |keys| downto 0
      invariant payload == PayloadAt(s, message, keys, payloadSize, i)
      invariant i < |keys| ==> s.blockFits(payloadSize)
    {
      var layered := LayerAdded(s, payload, keys[i]);
      if layered.Failure? {
        return Failure(layered.error);
      }
      payload := layered.value;
    }
    return Success(payload);
  }

  lemma LayerComesOff(s: Suite, message: Bytes, keys: seq<PayloadKey>, payloadSize: nat, i: nat)
    requires |message| + OVERHEAD <= payloadSize && i < |keys| && s.blockFits(payloadSize)
    ensures Unwrapped(s, PayloadAt(s, message, keys, payloadSize, i), keys[i])
         == Success(PayloadAt(s, message, keys, payloadSize, i + 1))
  {
  }
}
