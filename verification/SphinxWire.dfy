/** Sphinx byte by byte: what every node checks, decrypts and passes on, in the terms of the primitives and in numbers
    (sphinx/src). The other modules say that sender and nodes agree with each other; this one says on what. */
module SphinxWire {
  import opened Wrappers
  import opened Octets
  import opened Bincode
  import opened SphinxSuite
  import opened SphinxDelays
  import opened SphinxKeys
  import opened SphinxFiller
  import opened SphinxRouting
  import opened SphinxHeader
  import Payloads = SphinxPayload
  import Packets = SphinxPacket
  import Surbs = SphinxSurb

  // ---------- one node, for every header and packet ----------

  /** All keystream that is ever used of a key. */
  function Keystream(s: Suite, key: Bytes16): (b: Bytes)
    ensures |b| == 60 * (s.maxPathLength + 1)
  {
    s.keystream(key, 60 * (s.maxPathLength + 1))
  }

  lemma DelayLayout(d: Delay)
    ensures forall i: nat :: i < 8 ==> DelayBytes(d)[i] == U64(d)[7 - i]
  {
  }

  /** `process` on any header. Out of 256 derived bytes, the first 16 are the keystream's key, the next 16 the MAC's,
      then 192 for the payload, and 32 for the blinding. */
  lemma HeaderOutcome(s: Suite, header: Header, sk: PrivateKey)
    requires |header.routing.routing| == 60 * s.maxPathLength
    ensures var (routing, r) := (header.routing.routing, Processed(s, header, sk));
            var derived := s.hkdf(s.act(sk, header.secret));
            var raw := Xor(routing + Zeros(60), Keystream(s, derived[..16]));
            if s.mac(derived[16..32], routing) != header.routing.mac then r == Failure(InvalidHeader)
            else if raw[0] == 1 then
              && r.Success? && r.value.NextHeader?
              && r.value.next == raw[4..36]
              && DelayBytes(r.value.delay) == raw[36..44]
              && r.value.header.secret == s.act(s.scalarOf(derived[224..256]), header.secret)
              && r.value.header.routing.mac == raw[44..60]
              && r.value.header.routing.routing == raw[60..]
              && r.value.key == derived[32..224]
            else if raw[0] == 2 then r == Success(LastHeader(raw[4..36], raw[36..52], derived[32..224]))
            else r == Failure(InvalidRouting)
  {
    hide DelayBytes, DelayOf, Xor;
    var routing := header.routing.routing;
    var derived := s.hkdf(s.act(sk, header.secret));
    var raw := Xor(routing + Zeros(60), Keystream(s, derived[..16]));
    assert raw == Decrypted(s, routing, derived[..16]);
    DelayBytesOf(raw[36..44]);
    assert raw[60..60 + s.RoutingInfoSize()] == raw[60..];
  }

  lemma DelayBytesOf(b: Bytes)
    requires |b| == 8
    ensures DelayBytes(DelayOf(b)) == b
  {
    BytesOfNumber(b);
  }

  lemma {:induction false} BytesOfNumber(b: Bytes)
    ensures Be(FromBe(b), |b|) == b
  {
    if b != [] {
      var n := |b| - 1;
      BytesOfNumber(b[..n]);
      var high := FromBe(b[..n]);
      var all := FromBe(b);
      assert all == 256 * high + b[n] as nat && all / 256 == high && all % 256 == b[n] as nat;
      forall i | 0 <= i < |b|
        ensures Be(all, |b|)[i] == b[i]
      {
        if i < n {
          assert Digit(all, n - i) == Digit(high, n - 1 - i) == Be(high, n)[i];
        } else {
          assert Be(all, |b|)[n] == Digit(all, 0);
        }
      }
    }
  }

  /** `process` on any packet. */
  lemma PacketOutcome(s: Suite, p: Packets.Packet, sk: PrivateKey)
    requires |p.header.routing.routing| == 60 * s.maxPathLength
    ensures var r := Packets.Processed(s, p, sk);
            match Processed(s, p.header, sk)
            case Failure(e) => r == Failure(e)
            case Success(h) =>
              if !s.blockFits(|p.payload|) then r == Failure(InvalidPayload)
              else
                var payload := s.blockDec(h.key, p.payload);
                match h
                case NextHeader(header, next, delay, _) =>
                  r == Success(Packets.Forward(Packets.Packet(header, payload), next, delay))
                case LastHeader(destination, identifier, _) =>
                  r == Success(Packets.Final(destination, identifier, payload))
  {
    hide Processed;
  }

  // ---------- what the sender's headers are made of ----------

  /** The keys that the sender derived for node `i` are cut out of the bytes derived from the point that it shares with that
      node. */
  lemma KeysInDerived(s: Suite, it: Itinerary, sks: seq<PrivateKey>, secret: Scalar, i: nat)
    requires Fits(s, it) && KeyPairs(s, it.route, sks) && i < |it.route|
    ensures var derived := s.hkdf(s.act(sks[i], HeaderAt(s, it, sks, secret, i).secret));
            AllKeys(s, it.route, secret)[i]
            == RoutingKeys(derived[..16], derived[16..32], derived[32..224], derived[224..256])
  {
    hide RoutingAt, SecretAt;
    BlindingAgreement(s, it.route, sks, secret, i);
  }

  lemma FirstSecret(s: Suite, sks: seq<PrivateKey>, secret: Scalar)
    ensures SecretAt(s, sks, secret, 0) == s.act(secret, s.base)
  {
  }

  lemma NextSecret(s: Suite, sks: seq<PrivateKey>, secret: Scalar, i: nat)
    requires i < |sks|
    ensures SecretAt(s, sks, secret, i + 1)
         == s.act(s.scalarOf(s.hkdf(s.act(sks[i], SecretAt(s, sks, secret, i)))[224..256]), SecretAt(s, sks, secret, i))
  {
  }

  /** The header that node `i` receives. Its MAC is over the routing information, which for all nodes but the last is one
      block of keystream on flag, version, address, delay and MAC and truncated routing information for the next. */
  lemma HeaderOnTheWire(s: Suite, it: Itinerary, sks: seq<PrivateKey>, secret: Scalar, i: nat)
    requires Fits(s, it) && KeyPairs(s, it.route, sks) && i < |it.route|
    ensures HeaderAt(s, it, sks, secret, 0).secret == s.act(secret, s.base)
    ensures var h := HeaderAt(s, it, sks, secret, i);
            var derived := s.hkdf(s.act(sks[i], h.secret));
            && h.routing.mac == s.mac(derived[16..32], h.routing.routing)
            && (i + 1 < |it.route| ==>
                  var (n, inner) := (60 * s.maxPathLength, HeaderAt(s, it, sks, secret, i + 1));
                  var plain := [1] + s.version + it.route[i + 1].address + DelayBytes(it.delays[i])
                               + inner.routing.mac + inner.routing.routing[..n - 60];
                  && |plain| == n
                  && h.routing.routing == Xor(plain, Keystream(s, derived[..16])[..n])
                  && inner.secret == s.act(s.scalarOf(derived[224..256]), h.secret))
  {
    hide DelayBytes, SecretAt, Xor, KeysAt;
    var keys := AllKeys(s, it.route, secret);
    FirstSecret(s, sks, secret);
    KeysInDerived(s, it, sks, secret, i);
    MacMatches(s, it, keys, i);
    if i + 1 < |it.route| {
      RoutingStep(s, it, keys, i);
      NextSecret(s, sks, secret, i);
    }
  }

  /** The last node's routing information: keystream on flag, version, destination, identifier and random padding, and after
      that, in the clear, the filler. */
  lemma LastHeaderOnTheWire(s: Suite, it: Itinerary, sks: seq<PrivateKey>, secret: Scalar)
    requires Fits(s, it) && KeyPairs(s, it.route, sks)
    ensures var (n, last) := (60 * (s.maxPathLength - |it.route| + 1), |it.route| - 1);
            var h := HeaderAt(s, it, sks, secret, last);
            var derived := s.hkdf(s.act(sks[last], h.secret));
            var plain := [2] + s.version + it.destination.address + it.destination.identifier + Drawn(it.padding, n - 52);
            && |plain| == n
            && h.routing.routing == Xor(plain, Keystream(s, derived[..16])[..n])
                                    + Filler(s, AllKeys(s, it.route, secret), last)
  {
    hide SecretAt, Xor, KeysAt, Filler;
    KeysInDerived(s, it, sks, secret, |it.route| - 1);
  }

  /** The payload of the packet that node `i` receives: one layer of encryption on the next node's, and in the last one
      sixteen zeros, the message, a 1 and zeros. */
  lemma PayloadOnTheWire(s: Suite, m: Packets.Mission, sks: seq<PrivateKey>, i: nat)
    requires Packets.Feasible(s, m) && KeyPairs(s, m.it.route, sks) && i < |m.it.route|
    ensures var p := Packets.PacketAt(s, m, sks, i);
            var key := s.hkdf(s.act(sks[i], p.header.secret))[32..224];
            p.payload == s.blockEnc(key,
                           if i + 1 < |m.it.route| then Packets.PacketAt(s, m, sks, i + 1).payload
                           else Zeros(16) + m.message + [1] + Zeros(m.payloadSize - 17 - |m.message|))
  {
    hide RoutingAt, SecretAt, KeysAt;
    KeysInDerived(s, m.it, sks, m.secret, i);
    var keys := Packets.MissionKeys(s, m);
    assert Payloads.PayloadAt(s, m.message, keys, m.payloadSize, i)
        == s.blockEnc(keys[i], Payloads.PayloadAt(s, m.message, keys, m.payloadSize, i + 1));
    assert Payloads.PayloadAt(s, m.message, keys, m.payloadSize, |keys|) == Payloads.FinalPayload(m.message, m.payloadSize);
    assert Payloads.FinalPayload(m.message, m.payloadSize)
        == Zeros(16) + m.message + [1] + Zeros(m.payloadSize - 17 - |m.message|);
  }

  /** When a message can be encapsulated at all. */
  lemma EncapsulatesExactly(s: Suite, keys: seq<PayloadKey>, message: Bytes, payloadSize: nat)
    ensures Payloads.Encapsulates(s, keys, message, payloadSize)
       <==> && payloadSize >= 32
            && |message| + 17 <= payloadSize
            && (keys == [] || s.blockFits(payloadSize))
  {
  }

  // ---------- reading bytes ----------

  /** A header is the shared secret, the MAC and the routing information, and nothing else is read as one. */
  lemma HeaderLayout(s: Suite, h: Header, b: Bytes)
    ensures HeaderToBytes(h) == h.secret + h.routing.mac + h.routing.routing
    ensures HeaderFromBytes(s, b)
         == if |b| == 48 + 60 * s.maxPathLength then Success(Header(b[..32], Encapsulated(b[48..], b[32..48])))
            else Failure(InvalidHeader)
  {
  }

  /** A packet is a header and at least seventeen bytes of payload. */
  lemma PacketLayout(s: Suite, p: Packets.Packet, b: Bytes)
    ensures Packets.PacketToBytes(p)
         == p.header.secret + p.header.routing.mac + p.header.routing.routing + p.payload
    ensures var n := 48 + 60 * s.maxPathLength;
            Packets.PacketFromBytes(s, b)
            == if |b| < n + 17 then Failure(InvalidPacket)
               else Success(Packets.Packet(Header(b[..32], Encapsulated(b[48..n], b[32..48])), b[n..]))
  {
    var n := 48 + 60 * s.maxPathLength;
    if |b| >= n + 17 {
      assert b[..n][..32] == b[..32] && b[..n][32..48] == b[32..48] && b[..n][48..] == b[48..n];
    }
  }

  /** A reply block is a header, an address of 32 bytes and one or more keys of 192 bytes. */
  lemma SurbLayout(s: Suite, surb: Surbs.Surb, i: nat)
    requires |surb.header.routing.routing| == 60 * s.maxPathLength && i < |surb.keys|
    ensures var (b, n) := (Surbs.SurbToBytes(surb), 80 + 60 * s.maxPathLength);
            && |b| == n + 192 * |surb.keys|
            && b[..n] == surb.header.secret + surb.header.routing.mac + surb.header.routing.routing + surb.firstHop
            && b[n + 192 * i..n + 192 * i + 192] == surb.keys[i]
  {
    hide Surbs.FlattenKeys;
    var (b, n) := (Surbs.SurbToBytes(surb), 80 + 60 * s.maxPathLength);
    var flat := Surbs.FlattenKeys(surb.keys);
    Surbs.KeyAtFlattened(surb.keys, i);
    assert b[n..] == flat;
    assert b[n + 192 * i..n + 192 * i + 192] == flat[192 * i..192 * i + 192];
  }

  /** What is refused as a reply block, and the only error there is. */
  lemma SurbRefusal(s: Suite, b: Bytes)
    ensures var n := 80 + 60 * s.maxPathLength;
            Surbs.SurbOf(s, b) == Failure(InvalidSURB) <==> |b| < n + 192 || (|b| - n) % 192 != 0
    ensures Surbs.SurbOf(s, b).Success? || Surbs.SurbOf(s, b) == Failure(InvalidSURB)
  {
  }

  /** A new reply block: the first address, the first header and the payload keys of the route; or the error. */
  lemma NewSurbOutcome(s: Suite, it: Itinerary, sks: seq<PrivateKey>, secret: Scalar)
    requires |it.route| <= s.maxPathLength
    requires KeyPairs(s, it.route, sks)
    ensures var r := Surbs.Made(s, it, secret);
            if it.route == [] || |it.route| != |it.delays| then r == Failure(InvalidSURB)
            else && r.Success?
                 && r.value.firstHop == it.route[0].address
                 && r.value.header == HeaderAt(s, it, sks, secret, 0)
                 && |r.value.keys| == |it.route|
                 && forall i :: 0 <= i < |it.route| ==>
                      r.value.keys[i] == s.hkdf(s.act(sks[i], HeaderAt(s, it, sks, secret, i).secret))[32..224]
  {
    hide RoutingAt, KeysAt;
    if it.route != [] && |it.route| == |it.delays| {
      forall i | 0 <= i < |it.route|
        ensures AllKeys(s, it.route, secret)[i].payload
             == s.hkdf(s.act(sks[i], HeaderAt(s, it, sks, secret, i).secret))[32..224]
      {
        KeysInDerived(s, it, sks, secret, i);
      }
    }
  }

  // ---------- replaced routing information ----------

  /** The MAC of `replaced` is wrong, unless its routing information is the original one. */
  ghost predicate NoForgedMac(s: Suite, key: Bytes16, original: Encapsulated, replaced: Encapsulated) {
    s.mac(key, replaced.routing) == replaced.mac ==> replaced.routing == original.routing
  }

  /** Without a forged MAC, node `i` takes what it gets for its routing information exactly if nothing was replaced,
      neither in the routing information nor in its MAC; all else is an invalid header. */
  lemma ReplacedRoutingIsRefused(s: Suite, it: Itinerary, sks: seq<PrivateKey>, secret: Scalar, i: nat,
                                 replaced: Encapsulated)
    requires Fits(s, it) && KeyPairs(s, it.route, sks) && i < |it.route|
    requires |replaced.routing| == 60 * s.maxPathLength
    requires var h := HeaderAt(s, it, sks, secret, i);
             NoForgedMac(s, s.hkdf(s.act(sks[i], h.secret))[16..32], h.routing, replaced)
    ensures var h := HeaderAt(s, it, sks, secret, i);
            var r := Processed(s, Header(h.secret, replaced), sks[i]);
            && (r.Success? <==> replaced == h.routing)
            && (replaced != h.routing <==> r == Failure(InvalidHeader))
  {
    hide RoutingAt, SecretAt, Processed, KeysAt;
    var h := HeaderAt(s, it, sks, secret, i);
    HeaderOutcome(s, Header(h.secret, replaced), sks[i]);
    HeaderOnTheWire(s, it, sks, secret, i);
    if replaced == h.routing {
      if i + 1 < |it.route| {
        HeaderStep(s, it, sks, secret, i);
      } else {
        HeaderEnds(s, it, sks, secret);
      }
    }
  }

  /** So in a run, a packet with replaced routing information is dropped by the next node, with any payload, and nobody
      after it sees anything. */
  lemma ReplacedRoutingIsDropped(s: Suite, nodes: map<Bytes32, PrivateKey>, it: Itinerary, secret: Scalar, i: nat,
                                 replaced: Encapsulated, payload: Bytes, k: nat)
    requires Fits(s, it) && Packets.Consistent(s, nodes, it.route) && i < |it.route| && k > 0
    requires |replaced.routing| == 60 * s.maxPathLength
    requires var sks := Packets.KeysAlong(nodes, it.route);
             var h := HeaderAt(s, it, sks, secret, i);
             NoForgedMac(s, s.hkdf(s.act(sks[i], h.secret))[16..32], h.routing, replaced)
    ensures var h := HeaderAt(s, it, Packets.KeysAlong(nodes, it.route), secret, i);
            var start := Packets.InFlight(it.route[i].address, Packets.Packet(Header(h.secret, replaced), payload));
            && (replaced != h.routing <==> Packets.Run(s, nodes, start, 1).0 == Packets.Dropped(InvalidHeader))
            && (replaced != h.routing ==> Packets.Run(s, nodes, start, k) == (Packets.Dropped(InvalidHeader), []))
    decreases k
  {
    hide RoutingAt, SecretAt, Processed, KeysAt, HeaderAt, KeyPairs, NoForgedMac;
    var sks := Packets.KeysAlong(nodes, it.route);
    var h := HeaderAt(s, it, sks, secret, i);
    var p := Packets.Packet(Header(h.secret, replaced), payload);
    Packets.KeysFit(s, nodes, it.route);
    ReplacedRoutingIsRefused(s, it, sks, secret, i, replaced);
    PacketOutcome(s, p, sks[i]);
    assert Packets.Run(s, nodes, Packets.InFlight(it.route[i].address, p), 0).0 == Packets.InFlight(it.route[i].address, p);
    if k > 1 {
      ReplacedRoutingIsDropped(s, nodes, it, secret, i, replaced, payload, k - 1);
    }
    var none: seq<Packets.Event> := [];
    assert none + none == none;
  }
}
