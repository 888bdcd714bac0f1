/** Whole packets on their way, and single-use reply blocks (sphinx/src/packet, sphinx/src/surb). */
module SphinxPacket {
  import opened Wrappers
  import opened Octets
  import opened SphinxSuite
  import opened SphinxDelays
  import opened SphinxKeys
  import opened SphinxRouting
  import Headers = SphinxHeader
  import Payloads = SphinxPayload

  type Header = Headers.Header

  datatype Packet = Packet(header: Header, payload: Bytes)

  datatype ProcessedPacket =
    | Forward(packet: Packet, next: Bytes32, delay: Delay)
    | Final(destination: Bytes32, identifier: Bytes16, payload: Bytes)

  function Processed(s: Suite, p: Packet, sk: PrivateKey): (r: Result<ProcessedPacket, Error>)
    requires |p.header.routing.routing| == s.RoutingInfoSize()
    ensures r.Success? && r.value.Forward? ==> |r.value.packet.header.routing.routing| == s.RoutingInfoSize()
  {
    match Headers.Processed(s, p.header, sk)
    case Failure(e) => Failure(e)
    case Success(NextHeader(header, next, delay, key)) =>
      (match Payloads.Unwrapped(s, p.payload, key)
       case Failure(e) => Failure(e)
       case Success(payload) => Success(Forward(Packet(header, payload), next, delay)))
    case Success(LastHeader(destination, identifier, key)) =>
      (match Payloads.Unwrapped(s, p.payload, key)
       case Failure(e) => Failure(e)
       case Success(payload) => Success(Final(destination, identifier, payload)))
  }

  method Process(s: Suite, p: Packet, sk: PrivateKey) returns (r: Result<ProcessedPacket, Error>)
    requires |p.header.routing.routing| == s.RoutingInfoSize()
    ensures r == Processed(s, p, sk)
  {
    hide Headers.Processed;
    var header := Headers.Process(s, p.header, sk);
    if header.Failure? {
      return Failure(header.error);
    }
    var payload := Payloads.Unwrapped(s, p.payload, header.value.key);
    if payload.Failure? {
      return Failure(payload.error);
    }
    match header.value {
      case NextHeader(next, address, delay, _) =>
        return Success(Forward(Packet(next, payload.value), address, delay));
      case LastHeader(destination, identifier, _) =>
        return Success(Final(destination, identifier, payload.value));
    }
  }

  // ---------- a run ----------

  datatype State =
    | InFlight(at: Bytes32, packet: Packet)
    | Arrived(destination: Bytes32, identifier: Bytes16, payload: Bytes)
    | Dropped(error: Error)
    | Stray // no node at that address, or routing information of a length that the type of the source excludes

  /** A node sent the packet on, to be delayed as told. */
  datatype Event = Relayed(at: Bytes32, delay: Delay)

  function Step(s: Suite, nodes: map<Bytes32, PrivateKey>, st: State): (State, seq<Event>) {
    match st
    case InFlight(at, packet) =>
      if at !in nodes || |packet.header.routing.routing| != s.RoutingInfoSize() then (Stray, [])
      else
        (match Processed(s, packet, nodes[at])
         case Failure(e) => (Dropped(e), [])
         case Success(Forward(inner, next, delay)) => (InFlight(next, inner), [Relayed(at, delay)])
         case Success(Final(destination, identifier, payload)) => (Arrived(destination, identifier, payload), []))
    case _ => (st, [])
  }

  function Run(s: Suite, nodes: map<Bytes32, PrivateKey>, st: State, k: nat): (State, seq<Event>) {
    if k == 0 then (st, []) else
    var (st1, before) := Run(s, nodes, st, k - 1);
    var (st2, event) := Step(s, nodes, st1);
    (st2, before + event)
  }

  // ---------- the sender's view ----------

  /** A message on a route: the secret, the itinerary, the private keys along it. */
  datatype Mission = Mission(it: Itinerary, secret: Scalar, message: Bytes, payloadSize: nat)

  function KeysAlong(nodes: map<Bytes32, PrivateKey>, route: seq<Node>): (sks: seq<PrivateKey>)
    requires forall i :: 0 <= i < |route| ==> route[i].address in nodes
    ensures |sks| == |route| && forall i :: 0 <= i < |route| ==> sks[i] == nodes[route[i].address]
  {
    seq(|route|, i requires 0 <= i < |route| => nodes[route[i].address])
  }

  ghost predicate Consistent(s: Suite, nodes: map<Bytes32, PrivateKey>, route: seq<Node>) {
    forall i :: 0 <= i < |route| ==>
      route[i].address in nodes && route[i].pubKey == s.act(nodes[route[i].address], s.base)
  }

  function MissionKeys(s: Suite, m: Mission): (k: seq<PayloadKey>)
    ensures |k| == |m.it.route|
  {
    Headers.PayloadKeys(AllKeys(s, m.it.route, m.secret))
  }

  /** The itinerary fits, and `encapsulate_message` succeeds. */
  ghost predicate Feasible(s: Suite, m: Mission) {
    && Headers.Fits(s, m.it)
    && Payloads.Encapsulates(s, MissionKeys(s, m), m.message, m.payloadSize)
  }

  /** The packet as node `i` receives it. */
  function PacketAt(s: Suite, m: Mission, sks: seq<PrivateKey>, i: nat): Packet
    requires 0 < |m.it.route| == |m.it.delays| == |sks| <= s.maxPathLength && i < |m.it.route|
    requires |m.message| + Payloads.OVERHEAD <= m.payloadSize
  {
    Packet(Headers.HeaderAt(s, m.it, sks, m.secret, i),
           Payloads.PayloadAt(s, m.message, MissionKeys(s, m), m.payloadSize, i))
  }

  ghost function Built(s: Suite, m: Mission): Packet
    requires Feasible(s, m)
  {
    Packet(Headers.HeaderAndKeys(s, m.it, m.secret).0,
           Payloads.PayloadAt(s, m.message, MissionKeys(s, m), m.payloadSize, 0))
  }

  /** The header and the payload are made from the same keys. */
  method BuildPacket(s: Suite, m: Mission) returns (r: Result<Packet, Error>)
    requires Headers.Fits(s, m.it)
    ensures r.Success? <==> Feasible(s, m)
    ensures r.Success? ==> r.value == Built(s, m)
  {
    var header, keys := Headers.NewHeader(s, m.it, m.secret);
    var payload := Payloads.EncapsulateMessage(s, m.message, keys, m.payloadSize);
    if payload.Failure? {
      return Failure(payload.error);
    }
    return Success(Packet(header, payload.value));
  }

  lemma BuiltIsFirst(s: Suite, m: Mission, sks: seq<PrivateKey>)
    requires Feasible(s, m) && |sks| == |m.it.route|
    ensures Built(s, m) == PacketAt(s, m, sks, 0)
  {
    hide RoutingAt, Payloads.PayloadAt;
  }

  // ---------- every step ----------

  lemma ForwardStep(s: Suite, m: Mission, sks: seq<PrivateKey>, i: nat)
    requires Feasible(s, m) && KeyPairs(s, m.it.route, sks) && i + 1 < |m.it.route|
    ensures Processed(s, PacketAt(s, m, sks, i), sks[i])
         == Success(Forward(PacketAt(s, m, sks, i + 1), m.it.route[i + 1].address, m.it.delays[i]))
  {
    hide Headers.Processed, Headers.HeaderAt, Payloads.Unwrapped, Payloads.PayloadAt, KeysAt;
    Headers.HeaderStep(s, m.it, sks, m.secret, i);
    Payloads.LayerComesOff(s, m.message, MissionKeys(s, m), m.payloadSize, i);
  }

  lemma FinalStep(s: Suite, m: Mission, sks: seq<PrivateKey>)
    requires Feasible(s, m) && KeyPairs(s, m.it.route, sks)
    ensures var last := |m.it.route| - 1;
            Processed(s, PacketAt(s, m, sks, last), sks[last])
            == Success(Final(m.it.destination.address, m.it.destination.identifier,
                             Payloads.FinalPayload(m.message, m.payloadSize)))
  {
    hide Headers.Processed, Headers.HeaderAt, Payloads.Unwrapped, Payloads.FinalPayload, KeysAt;
    var last := |m.it.route| - 1;
    Headers.HeaderEnds(s, m.it, sks, m.secret);
    Payloads.LayerComesOff(s, m.message, MissionKeys(s, m), m.payloadSize, last);
  }

  function Relays(it: Itinerary, k: nat): (e: seq<Event>)
    requires k <= |it.route| && k <= |it.delays|
    ensures |e| == k
  {
    seq(k, i requires 0 <= i < k => Relayed(it.route[i].address, it.delays[i]))
  }

  lemma KeysFit(s: Suite, nodes: map<Bytes32, PrivateKey>, route: seq<Node>)
    requires Consistent(s, nodes, route)
    ensures KeyPairs(s, route, KeysAlong(nodes, route))
  {
  }

  lemma RelayStep(s: Suite, nodes: map<Bytes32, PrivateKey>, m: Mission, k: nat)
    requires Feasible(s, m) && Consistent(s, nodes, m.it.route) && k + 1 < |m.it.route|
    ensures var sks := KeysAlong(nodes, m.it.route);
            Step(s, nodes, InFlight(m.it.route[k].address, PacketAt(s, m, sks, k)))
            == (InFlight(m.it.route[k + 1].address, PacketAt(s, m, sks, k + 1)),
                [Relayed(m.it.route[k].address, m.it.delays[k])])
  {
    hide Processed, Payloads.PayloadAt, RoutingAt, SecretAt, KeyPairs;
    KeysFit(s, nodes, m.it.route);
    ForwardStep(s, m, KeysAlong(nodes, m.it.route), k);
  }

  /** After `k` steps the packet is at node `k`, as the sender would have computed it for that node. */
  lemma {:induction false} RunReaches(s: Suite, nodes: map<Bytes32, PrivateKey>, m: Mission, k: nat)
    requires Feasible(s, m) && Consistent(s, nodes, m.it.route) && k < |m.it.route|
    ensures var sks := KeysAlong(nodes, m.it.route);
            Run(s, nodes, InFlight(m.it.route[0].address, Built(s, m)), k)
            == (InFlight(m.it.route[k].address, PacketAt(s, m, sks, k)), Relays(m.it, k))
  {
    hide Step, Built, PacketAt, Payloads.Encapsulates;
    if k == 0 {
      BuiltIsFirst(s, m, KeysAlong(nodes, m.it.route));
    } else {
      RunReaches(s, nodes, m, k - 1);
      RelayStep(s, nodes, m, k - 1);
      assert Relays(m.it, k) == Relays(m.it, k - 1) + [Relayed(m.it.route[k - 1].address, m.it.delays[k - 1])];
    }
  }

  /** The whole way: the packet visits the route in order with the sender's delays, arrives with the sender's
      destination and identifier, the message can be recovered there, and nothing happens after that. */
  lemma WholeRoute(s: Suite, nodes: map<Bytes32, PrivateKey>, m: Mission, k: nat)
    requires Feasible(s, m) && Consistent(s, nodes, m.it.route)
    requires k >= |m.it.route|
    ensures var (st, events) := Run(s, nodes, InFlight(m.it.route[0].address, Built(s, m)), k);
            && events == Relays(m.it, |m.it.route| - 1)
            && st.Arrived?
            && st.destination == m.it.destination.address
            && st.identifier == m.it.destination.identifier
            && Payloads.RecoveredPlaintext(st.payload) == Success(m.message)
    decreases k
  {
    hide Processed, Built, Payloads.FinalPayload, Payloads.RecoveredPlaintext, Headers.HeaderAt;
    var last := |m.it.route| - 1;
    if k > |m.it.route| {
      WholeRoute(s, nodes, m, k - 1);
    } else {
      RunReaches(s, nodes, m, last);
      KeysFit(s, nodes, m.it.route);
      FinalStep(s, m, KeysAlong(nodes, m.it.route));
      Payloads.PaddingRoundTrip(m.message, m.payloadSize);
    }
  }

  // ---------- packet bytes ----------

  function PacketToBytes(p: Packet): Bytes {
    Headers.HeaderToBytes(p.header) + p.payload
  }

  function PacketFromBytes(s: Suite, b: Bytes): Result<Packet, Error> {
    var n := Headers.HeaderSize(s);
    if |b| < n + Payloads.OVERHEAD then Failure(InvalidPacket)
    else
      match Headers.HeaderFromBytes(s, b[..n])
      case Failure(e) => Failure(e)
      case Success(header) => Success(Packet(header, b[n..]))
  }

  /** A packet has the same size at every node. */
  lemma PacketKeepsSize(s: Suite, m: Mission, sks: seq<PrivateKey>, i: nat)
    requires Feasible(s, m) && |sks| == |m.it.route| && i < |m.it.route|
    ensures |PacketToBytes(PacketAt(s, m, sks, i))| == Headers.HeaderSize(s) + m.payloadSize
  {
    hide RoutingAt, Payloads.PayloadAt;
  }

  /** A packet survives its byte form exactly when its payload has at least the overhead's length. */
  lemma PacketRoundTrip(s: Suite, p: Packet)
    requires |p.header.routing.routing| == s.RoutingInfoSize()
    ensures PacketFromBytes(s, PacketToBytes(p)) == Success(p) <==> |p.payload| >= Payloads.OVERHEAD
  {
    hide Headers.HeaderFromBytes;
    var b := Headers.HeaderToBytes(p.header);
    Headers.HeaderRoundTrip(s, p.header);
    assert (b + p.payload)[..|b|] == b && (b + p.payload)[|b|..] == p.payload;
  }
}
