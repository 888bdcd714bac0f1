/** Single-use reply blocks: a header and payload keys handed to somebody else (sphinx/src/surb/mod.rs). */
module SphinxSurb {
  import opened Wrappers
  import opened Octets
  import opened SphinxSuite
  import opened SphinxRouting
  import opened SphinxPacket

  datatype Surb = Surb(header: Header, firstHop: Bytes32, keys: seq<PayloadKey>)

  function Made(s: Suite, it: Itinerary, secret: Scalar): Result<Surb, Error>
    requires |it.route| <= s.maxPathLength
  {
    if it.route == [] then Failure(InvalidSURB)
    else if |it.route| != |it.delays| then Failure(InvalidSURB)
    else
      var (header, keys) := Headers.HeaderAndKeys(s, it, secret);
      Success(Surb(header, it.route[0].address, keys))
  }

  method NewSurb(s: Suite, it: Itinerary, secret: Scalar) returns (r: Result<Surb, Error>)
    requires |it.route| <= s.maxPathLength
    ensures r == Made(s, it, secret)
  {
    hide Headers.HeaderAndKeys;
    if it.route == [] {
      return Failure(InvalidSURB);
    }
    if |it.route| != |it.delays| {
      return Failure(InvalidSURB);
    }
    var header, keys := Headers.NewHeader(s, it, secret);
    return Success(Surb(header, it.route[0].address, keys));
  }

  method UseSurb(s: Suite, surb: Surb, message: Bytes, payloadSize: nat) returns (r: Result<(Packet, Bytes32), Error>)
    ensures r.Success? <==> Payloads.Encapsulates(s, surb.keys, message, payloadSize)
    ensures r.Success? ==>
      r.value == (Packet(surb.header, Payloads.PayloadAt(s, message, surb.keys, payloadSize, 0)), surb.firstHop)
  {
    var payload := Payloads.EncapsulateMessage(s, message, surb.keys, payloadSize);
    if payload.Failure? {
      return Failure(payload.error);
    }
    return Success((Packet(surb.header, payload.value), surb.firstHop));
  }

  /** Whoever uses a reply block sends the packet that its maker would have built, to the first hop, so it runs the
      whole route and its message can be recovered at the end. */
  lemma SurbRoute(s: Suite, nodes: map<Bytes32, PrivateKey>, m: Mission, surb: Surb, k: nat)
    requires |m.it.route| <= s.maxPathLength
    requires Made(s, m.it, m.secret) == Success(surb)
    requires Payloads.Encapsulates(s, surb.keys, m.message, m.payloadSize)
    requires Consistent(s, nodes, m.it.route)
    requires k >= |m.it.route|
    ensures var packet := Packet(surb.header, Payloads.PayloadAt(s, m.message, surb.keys, m.payloadSize, 0));
            var (st, events) := Run(s, nodes, InFlight(surb.firstHop, packet), k);
            && events == Relays(m.it, |m.it.route| - 1)
            && st.Arrived?
            && st.destination == m.it.destination.address
            && st.identifier == m.it.destination.identifier
            && Payloads.RecoveredPlaintext(st.payload) == Success(m.message)
  {
    hide Payloads.PayloadAt, Payloads.RecoveredPlaintext, Run, RoutingAt;
    WholeRoute(s, nodes, m, k);
  }

  // ---------- bytes ----------

  function FlattenKeys(keys: seq<PayloadKey>): (b: Bytes)
    ensures |b| == PAYLOAD_KEY_SIZE * |keys|
  {
    if keys == [] then [] else keys[0] + FlattenKeys(keys[1..])
  }

  function KeyAt(b: Bytes, i: nat): PayloadKey
    requires (i + 1) * PAYLOAD_KEY_SIZE <= |b|
  {
    b[i * PAYLOAD_KEY_SIZE..(i + 1) * PAYLOAD_KEY_SIZE]
  }

  function SurbToBytes(surb: Surb): Bytes {
    Headers.HeaderToBytes(surb.header) + (surb.firstHop + FlattenKeys(surb.keys))
  }

  function KeysIn(b: Bytes): (keys: seq<PayloadKey>)
    ensures |keys| == |b| / PAYLOAD_KEY_SIZE
    ensures forall i :: 0 <= i < |keys| ==> keys[i] == KeyAt(b, i)
  {
    seq<PayloadKey>(|b| / PAYLOAD_KEY_SIZE, i requires 0 <= i < |b| / PAYLOAD_KEY_SIZE => KeyAt(b, i))
  }

  function SurbOf(s: Suite, b: Bytes): Result<Surb, Error> {
    var n := Headers.HeaderSize(s);
    if |b| < n + NODE_ADDRESS_LENGTH + PAYLOAD_KEY_SIZE then Failure(InvalidSURB)
    else
      var keyBytes := b[n + NODE_ADDRESS_LENGTH..];
      if |keyBytes| % PAYLOAD_KEY_SIZE != 0 then Failure(InvalidSURB)
      else
        match Headers.HeaderFromBytes(s, b[..n])
        case Failure(e) => Failure(e)
        case Success(header) => Success(Surb(header, b[n..n + NODE_ADDRESS_LENGTH], KeysIn(keyBytes)))
  }

  method SurbFromBytes(s: Suite, b: Bytes) returns (r: Result<Surb, Error>)
    ensures r == SurbOf(s, b)
  {
    var n := Headers.HeaderSize(s);
    if |b| < n + NODE_ADDRESS_LENGTH + PAYLOAD_KEY_SIZE {
      return Failure(InvalidSURB);
    }
    var keyBytes := b[n + NODE_ADDRESS_LENGTH..];
    if |keyBytes| % PAYLOAD_KEY_SIZE != 0 {
      return Failure(InvalidSURB);
    }
    var header := Headers.HeaderFromBytes(s, b[..n]).value; // the slice has the length of a header
    var keyCount := |keyBytes| / PAYLOAD_KEY_SIZE;
    var keys: seq<PayloadKey> := [];
    for i := 0 to keyCount
      invariant |keys| == i && forall k :: 0 <= k < i ==> keys[k] == KeyAt(keyBytes, k)
    {
      keys := keys + [keyBytes[i * PAYLOAD_KEY_SIZE..(i + 1) * PAYLOAD_KEY_SIZE]];
    }
    assert keys == KeysIn(keyBytes);
    return Success(Surb(header, b[n..n + NODE_ADDRESS_LENGTH], keys));
  }

  lemma {:induction false} KeyAtFlattened(keys: seq<PayloadKey>, i: nat)
    requires i < |keys|
    ensures KeyAt(FlattenKeys(keys), i) == keys[i]
  {
    var b := FlattenKeys(keys);
    if i > 0 {
      KeyAtFlattened(keys[1..], i - 1);
      assert b[PAYLOAD_KEY_SIZE..] == FlattenKeys(keys[1..]);
      assert KeyAt(b, i) == KeyAt(b[PAYLOAD_KEY_SIZE..], i - 1);
    }
  }

  /** A reply block survives its byte form exactly when it has a payload key. */
  lemma SurbRoundTrip(s: Suite, surb: Surb)
    requires |surb.header.routing.routing| == s.RoutingInfoSize()
    ensures SurbOf(s, SurbToBytes(surb)) == Success(surb) <==> |surb.keys| >= 1
  {
    hide Headers.HeaderFromBytes, KeyAt;
    var head := Headers.HeaderToBytes(surb.header);
    var n := Headers.HeaderSize(s);
    var flat := FlattenKeys(surb.keys);
    var b := SurbToBytes(surb);
    Headers.HeaderRoundTrip(s, surb.header);
    assert b[..n] == head && b[n..n + NODE_ADDRESS_LENGTH] == surb.firstHop && b[n + NODE_ADDRESS_LENGTH..] == flat;
    forall i | 0 <= i < |surb.keys|
      ensures KeyAt(flat, i) == surb.keys[i]
    {
      KeyAtFlattened(surb.keys, i);
    }
    assert KeysIn(flat) == surb.keys;
  }

  lemma KeyAtShifted(b: Bytes, i: nat)
    requires (i + 2) * PAYLOAD_KEY_SIZE <= |b|
    ensures KeyAt(b, i + 1) == KeyAt(b[PAYLOAD_KEY_SIZE..], i)
  {
    var rest := b[PAYLOAD_KEY_SIZE..];
    assert rest[i * PAYLOAD_KEY_SIZE..(i + 1) * PAYLOAD_KEY_SIZE]
        == b[(i + 1) * PAYLOAD_KEY_SIZE..(i + 2) * PAYLOAD_KEY_SIZE];
  }

  lemma {:induction false} FlattenKeysIn(b: Bytes)
    requires |b| % PAYLOAD_KEY_SIZE == 0
    ensures FlattenKeys(KeysIn(b)) == b
    decreases |b|
  {
    if b != [] {
      var rest := b[PAYLOAD_KEY_SIZE..];
      var keys := KeysIn(b);
      FlattenKeysIn(rest);
      assert keys[1..] == KeysIn(rest) by {
        forall i | 0 <= i < |keys| - 1
          ensures keys[1..][i] == KeyAt(rest, i)
        {
          KeyAtShifted(b, i);
        }
      }
      assert keys[0] == b[..PAYLOAD_KEY_SIZE];
    }
  }

  /** And every byte string that is accepted is the byte form of what it is read as. */
  lemma SurbBytesRoundTrip(s: Suite, b: Bytes)
    requires SurbOf(s, b).Success?
    ensures SurbToBytes(SurbOf(s, b).value) == b
  {
    var n := Headers.HeaderSize(s);
    Headers.HeaderBytesRoundTrip(s, b[..n]);
    FlattenKeysIn(b[n + NODE_ADDRESS_LENGTH..]);
    assert b == b[..n] + (b[n..n + NODE_ADDRESS_LENGTH] + b[n + NODE_ADDRESS_LENGTH..]);
  }
}
