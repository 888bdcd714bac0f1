/** Sphinx headers: creation by the sender, processing by the nodes, byte format (sphinx/src/header/mod.rs). */
module SphinxHeader {
  import opened Wrappers
  import opened Octets
  import opened SphinxSuite
  import opened SphinxDelays
  import opened SphinxKeys
  import opened SphinxFiller
  import opened SphinxRouting

  datatype Header = Header(secret: Point, routing: Encapsulated)

  datatype ProcessedHeader =
    | NextHeader(header: Header, next: Bytes32, delay: Delay, key: PayloadKey)
    | LastHeader(destination: Bytes32, identifier: Bytes16, key: PayloadKey)

  ghost predicate Fits(s: Suite, it: Itinerary) {
    0 < |it.route| == |it.delays| <= s.maxPathLength
  }

  function PayloadKeys(keys: seq<RoutingKeys>): (p: seq<PayloadKey>)
    ensures |p| == |keys|
    ensures forall i :: 0 <= i < |keys| ==> p[i] == keys[i].payload
  {
    seq<PayloadKey>(|keys|, i requires 0 <= i < |keys| => keys[i].payload)
  }

  function HeaderAndKeys(s: Suite, it: Itinerary, secret: Scalar): (Header, seq<PayloadKey>)
    requires 0 < |it.route| == |it.delays| <= s.maxPathLength
  {
    var keys := AllKeys(s, it.route, secret);
    (Header(s.act(secret, s.base), RoutingAt(s, it, keys, 0)), PayloadKeys(keys))
  }

  /** The filler is made from the keys of all hops but the last, the routing information from all keys. */
  method NewHeader(s: Suite, it: Itinerary, secret: Scalar) returns (header: Header, payloadKeys: seq<PayloadKey>)
    requires 0 < |it.route| == |it.delays| <= s.maxPathLength
    ensures (header, payloadKeys) == HeaderAndKeys(s, it, secret)
  {
    hide RoutingAt, Filler, KeysAt;
    var initial, keys := DeriveKeyMaterial(s, it.route, secret);
    var filler := NewFiller(s, keys[..|keys| - 1]);
    FillerOfPrefix(s, keys, |keys| - 1, |keys| - 1);
    var routing := NewRouting(s, it, keys, filler);
    header, payloadKeys := Header(initial, routing), PayloadKeys(keys);
  }

  function Processed(s: Suite, header: Header, sk: PrivateKey): (r: Result<ProcessedHeader, Error>)
    requires |header.routing.routing| == s.RoutingInfoSize()
    ensures r.Success? && r.value.NextHeader? ==> |r.value.header.routing.routing| == s.RoutingInfoSize()
  {
    var keys := NodeKeys(s, sk, header.secret);
    if s.mac(keys.mac, header.routing.routing) != header.routing.mac then Failure(InvalidHeader)
    else
      match Unwrapped(s, header.routing.routing, keys.stream)
      case Failure(e) => Failure(e)
      case Success(ForwardHop(next, delay, inner)) =>
        Success(NextHeader(Header(Blinded(s, header.secret, keys), inner), next, delay, keys.payload))
      case Success(FinalHop(destination, identifier)) =>
        Success(LastHeader(destination, identifier, keys.payload))
  }

  method Process(s: Suite, header: Header, sk: PrivateKey) returns (r: Result<ProcessedHeader, Error>)
    requires |header.routing.routing| == s.RoutingInfoSize()
    ensures r == Processed(s, header, sk)
  {
    hide Derived, Unwrapped;
    var keys := Derive(s, s.act(sk, header.secret));
    if s.mac(keys.mac, header.routing.routing) != header.routing.mac {
      return Failure(InvalidHeader);
    }
    var unwrapped := Unwrap(s, header.routing.routing, keys.stream);
    if unwrapped.Failure? {
      return Failure(unwrapped.error);
    }
    match unwrapped.value {
      case ForwardHop(next, delay, inner) =>
        var secret := Blinded(s, header.secret, keys);
        return Success(NextHeader(Header(secret, inner), next, delay, keys.payload));
      case FinalHop(destination, identifier) =>
        return Success(LastHeader(destination, identifier, keys.payload));
    }
  }

  /** The header as node `i` receives it. */
  function HeaderAt(s: Suite, it: Itinerary, sks: seq<PrivateKey>, secret: Scalar, i: nat): (h: Header)
    requires 0 < |it.route| == |it.delays| == |sks| <= s.maxPathLength && i < |it.route|
    ensures |h.routing.routing| == s.RoutingInfoSize()
  {
    Header(SecretAt(s, sks, secret, i), RoutingAt(s, it, AllKeys(s, it.route, secret), i))
  }

  lemma MacMatches(s: Suite, it: Itinerary, keys: seq<RoutingKeys>, i: nat)
    requires Travels(s, it, keys) && i < |keys|
    ensures var e := RoutingAt(s, it, keys, i); e.mac == s.mac(keys[i].mac, e.routing)
  {
  }

  /** Each node before the last verifies the MAC, learns the sender's next address and delay, and passes on the
      header that the sender computed for its successor. */
  lemma HeaderStep(s: Suite, it: Itinerary, sks: seq<PrivateKey>, secret: Scalar, i: nat)
    requires Fits(s, it) && KeyPairs(s, it.route, sks)
    requires i + 1 < |it.route|
    ensures Processed(s, HeaderAt(s, it, sks, secret, i), sks[i])
         == Success(NextHeader(HeaderAt(s, it, sks, secret, i + 1), it.route[i + 1].address, it.delays[i],
                               KeysAt(s, it.route, secret, i).payload))
  {
    hide RoutingAt, Unwrapped, KeysAt, NodeKeys, Blinded;
    var keys := AllKeys(s, it.route, secret);
    BlindingAgreement(s, it.route, sks, secret, i);
    MacMatches(s, it, keys, i);
    UnwrapForward(s, it, keys, i);
  }

  /** The last node verifies the MAC and learns the destination and the identifier. */
  lemma HeaderEnds(s: Suite, it: Itinerary, sks: seq<PrivateKey>, secret: Scalar)
    requires Fits(s, it) && KeyPairs(s, it.route, sks)
    ensures var last := |it.route| - 1;
            Processed(s, HeaderAt(s, it, sks, secret, last), sks[last])
            == Success(LastHeader(it.destination.address, it.destination.identifier,
                                  KeysAt(s, it.route, secret, last).payload))
  {
    hide RoutingAt, Unwrapped, KeysAt, NodeKeys, Blinded;
    var last := |it.route| - 1;
    var keys := AllKeys(s, it.route, secret);
    BlindingAgreement(s, it.route, sks, secret, last);
    MacMatches(s, it, keys, last);
    UnwrapFinal(s, it, keys);
  }

  // ---------- bytes ----------

  function HeaderSize(s: Suite): nat {
    32 + MAC_SIZE + s.RoutingInfoSize()
  }

  function HeaderToBytes(h: Header): Bytes {
    h.secret + (h.routing.mac + h.routing.routing)
  }

  function HeaderFromBytes(s: Suite, b: Bytes): (r: Result<Header, Error>)
    ensures r.Success? ==> |r.value.routing.routing| == s.RoutingInfoSize()
  {
    if |b| != HeaderSize(s) then Failure(InvalidHeader)
    else Success(Header(b[..32], Encapsulated(b[48..], b[32..48])))
  }

  lemma HeaderRoundTrip(s: Suite, h: Header)
    requires |h.routing.routing| == s.RoutingInfoSize()
    ensures HeaderFromBytes(s, HeaderToBytes(h)) == Success(h)
  {
    var b := HeaderToBytes(h);
    assert b[..32] == h.secret && b[32..48] == h.routing.mac && b[48..] == h.routing.routing;
  }

  /** And bytes of the right length are the bytes of exactly one header. */
  lemma HeaderBytesRoundTrip(s: Suite, b: Bytes)
    ensures HeaderFromBytes(s, b).Success? <==> |b| == HeaderSize(s)
    ensures |b| == HeaderSize(s) ==> HeaderToBytes(HeaderFromBytes(s, b).value) == b
  {
    if |b| == HeaderSize(s) {
      assert b[..32] + (b[32..48] + b[48..]) == b;
    }
  }
}
