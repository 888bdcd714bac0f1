/** The encrypted routing information: nested by the sender, unwrapped by the nodes
    (sphinx/src/header/routing). */
module SphinxRouting {
  import opened Wrappers
  import opened Octets
  import opened SphinxSuite
  import opened SphinxDelays
  import opened SphinxKeys
  import opened SphinxFiller

  const FORWARD_HOP: u8 := 1
  const FINAL_HOP: u8 := 2

  datatype Destination = Destination(address: Bytes32, identifier: Bytes16)

  datatype Encapsulated = Encapsulated(routing: Bytes, mac: Bytes16)

  datatype ParsedRouting =
    | ForwardHop(next: Bytes32, delay: Delay, inner: Encapsulated)
    | FinalHop(destination: Bytes32, identifier: Bytes16)

  /** What the sender puts into a header. The padding of the last hop is random. */
  datatype Itinerary = Itinerary(route: seq<Node>, delays: seq<Delay>, destination: Destination, padding: nat -> u8)

  ghost predicate Travels(s: Suite, it: Itinerary, keys: seq<RoutingKeys>) {
    0 < |it.route| == |it.delays| == |keys| <= s.maxPathLength
  }

  function WithMac(s: Suite, key: Bytes16, routing: Bytes): Encapsulated {
    Encapsulated(routing, s.mac(key, routing))
  }

  // ---------- the last hop ----------

  function PaddingLength(s: Suite, routeLength: nat): nat
    requires 0 < routeLength <= s.maxPathLength
  {
    s.RoutingInfoSize() - STEP * (routeLength - 1) - FINAL_NODE_META_INFO_LENGTH
  }

  function FinalPlain(s: Suite, dest: Destination, routeLength: nat, padding: nat -> u8): (b: Bytes)
    requires 0 < routeLength <= s.maxPathLength
    ensures |b| == s.RoutingInfoSize() - STEP * (routeLength - 1)
  {
    [FINAL_HOP] + s.version + dest.address + dest.identifier + Drawn(padding, PaddingLength(s, routeLength))
  }

  function FinalRouting(s: Suite, dest: Destination, key: Bytes16, filler: Bytes, routeLength: nat, padding: nat -> u8): (b: Bytes)
    requires 0 < routeLength <= s.maxPathLength && |filler| == STEP * (routeLength - 1)
    ensures |b| == s.RoutingInfoSize()
  {
    var plain := FinalPlain(s, dest, routeLength, padding);
    Xor(plain, Stream(s, key)[..|plain|]) + filler
  }

  // ---------- the hops before ----------

  function ForwardPlain(s: Suite, next: Bytes32, delay: Delay, inner: Encapsulated): (b: Bytes)
    requires |inner.routing| == s.RoutingInfoSize()
    ensures |b| == s.RoutingInfoSize()
  {
    [FORWARD_HOP] + s.version + next + DelayBytes(delay) + inner.mac + inner.routing[..s.RoutingInfoSize() - STEP]
  }

  function ForwardRouting(s: Suite, key: Bytes16, plain: Bytes): (b: Bytes)
    requires |plain| == s.RoutingInfoSize()
    ensures |b| == s.RoutingInfoSize()
  {
    Xor(plain, Stream(s, key)[..s.RoutingInfoSize()])
  }

  /** The routing information for node `i`, nested from the last hop outwards. */
  function RoutingAt(s: Suite, it: Itinerary, keys: seq<RoutingKeys>, i: nat): (e: Encapsulated)
    requires 0 < |it.route| == |it.delays| == |keys| <= s.maxPathLength && i < |keys|
    ensures |e.routing| == s.RoutingInfoSize()
    decreases |keys| - i
  {
    if i == |keys| - 1 then
      WithMac(s, keys[i].mac,
              FinalRouting(s, it.destination, keys[i].stream, Filler(s, keys, i), |keys|, it.padding))
    else
      var plain := ForwardPlain(s, it.route[i + 1].address, it.delays[i], RoutingAt(s, it, keys, i + 1));
      WithMac(s, keys[i].mac, ForwardRouting(s, keys[i].stream, plain))
  }

  /** From the last hop outwards: each hop's plain text takes up what was made for the hop after it. */
  method NewRouting(s: Suite, it: Itinerary, keys: seq<RoutingKeys>, filler: Bytes) returns (e: Encapsulated)
    requires 0 < |it.route| == |it.delays| == |keys| <= s.maxPathLength
    requires filler == Filler(s, keys, |keys| - 1)
    ensures e == RoutingAt(s, it, keys, 0)
  {
    hide FinalRouting, ForwardPlain, ForwardRouting, Filler;
    var last := |keys| - 1;
    e := WithMac(s, keys[last].mac, FinalRouting(s, it.destination, keys[last].stream, filler, |keys|, it.padding));
    for i := last downto 0
      invariant e == RoutingAt(s, it, keys, i)
    {
      var plain := ForwardPlain(s, it.route[i + 1].address, it.delays[i], e);
      e := WithMac(s, keys[i].mac, ForwardRouting(s, keys[i].stream, plain));
    }
  }

  // ---------- a node ----------

  /** Zero padding keeps the tail of the next header from being cut off by the shift. */
  function Decrypted(s: Suite, routing: Bytes, key: Bytes16): (raw: Bytes)
    requires |routing| == s.RoutingInfoSize()
    ensures |raw| == s.StreamLength()
  {
    Xor(routing + Zeros(STEP), Stream(s, key))
  }

  function Parsed(s: Suite, raw: Bytes): Result<ParsedRouting, Error>
    requires |raw| == s.StreamLength()
  {
    if raw[0] == FORWARD_HOP then
      Success(ForwardHop(raw[4..36], DelayOf(raw[36..44]), Encapsulated(raw[60..60 + s.RoutingInfoSize()], raw[44..60])))
    else if raw[0] == FINAL_HOP then Success(FinalHop(raw[4..36], raw[36..52]))
    else Failure(InvalidRouting)
  }

  /** The source reads the fields one after the other with a cursor. */
  method Parse(s: Suite, raw: Bytes) returns (r: Result<ParsedRouting, Error>)
    requires |raw| == s.StreamLength()
    ensures r == Parsed(s, raw)
  {
    var flag := raw[0];
    var i := FLAG_LENGTH;
    i := i + VERSION_LENGTH;
    if flag == FORWARD_HOP {
      var next := raw[i..i + NODE_ADDRESS_LENGTH];
      i := i + NODE_ADDRESS_LENGTH;
      var delay := DelayOf(raw[i..i + DELAY_LENGTH]);
      i := i + DELAY_LENGTH;
      var mac := raw[i..i + MAC_SIZE];
      i := i + MAC_SIZE;
      r := Success(ForwardHop(next, delay, Encapsulated(raw[i..i + s.RoutingInfoSize()], mac)));
    } else if flag == FINAL_HOP {
      var destination := raw[i..i + DESTINATION_ADDRESS_LENGTH];
      i := i + DESTINATION_ADDRESS_LENGTH;
      r := Success(FinalHop(destination, raw[i..i + MAC_SIZE]));
    } else {
      r := Failure(InvalidRouting);
    }
  }

  function Unwrapped(s: Suite, routing: Bytes, key: Bytes16): Result<ParsedRouting, Error>
    requires |routing| == s.RoutingInfoSize()
  {
    Parsed(s, Decrypted(s, routing, key))
  }

  method Unwrap(s: Suite, routing: Bytes, key: Bytes16) returns (r: Result<ParsedRouting, Error>)
    requires |routing| == s.RoutingInfoSize()
    ensures r == Unwrapped(s, routing, key)
  {
    var padded := routing + Zeros(STEP);
    r := Parse(s, Xor(padded, Stream(s, key)));
  }

  // ---------- decryption against encryption ----------

  /** A node sees the plain routing information, followed by the part of the keystream that no sender used. */
  lemma DecryptForward(s: Suite, key: Bytes16, plain: Bytes)
    requires |plain| == s.RoutingInfoSize()
    ensures Decrypted(s, ForwardRouting(s, key, plain), key) == plain + Stream(s, key)[s.RoutingInfoSize()..]
  {
    var stream := Stream(s, key);
    var n := s.RoutingInfoSize();
    XorConcat(ForwardRouting(s, key, plain), Zeros(STEP), stream);
    XorCancels(plain, stream[..n]);
    XorZeros(stream[n..]);
  }

  lemma ParsePlain(s: Suite, next: Bytes32, delay: Delay, inner: Encapsulated, tail: Bytes)
    requires |inner.routing| == s.RoutingInfoSize() && |tail| == STEP
    ensures Parsed(s, ForwardPlain(s, next, delay, inner) + tail)
         == Success(ForwardHop(next, delay, Encapsulated(inner.routing[..s.RoutingInfoSize() - STEP] + tail, inner.mac)))
  {
    hide DelayBytes, DelayOf;
    DelayRoundTrip(delay);
    var raw := ForwardPlain(s, next, delay, inner) + tail;
    assert raw[4..36] == next;
    assert raw[36..44] == DelayBytes(delay);
    assert raw[44..60] == inner.mac;
    assert raw[60..] == inner.routing[..s.RoutingInfoSize() - STEP] + tail;
    assert raw[60..60 + s.RoutingInfoSize()] == raw[60..];
  }

  // ---------- the filler lemma ----------

  lemma RoutingStep(s: Suite, it: Itinerary, keys: seq<RoutingKeys>, i: nat)
    requires Travels(s, it, keys) && i + 1 < |keys|
    ensures RoutingAt(s, it, keys, i).routing
         == ForwardRouting(s, keys[i].stream,
                           ForwardPlain(s, it.route[i + 1].address, it.delays[i], RoutingAt(s, it, keys, i + 1)))
  {
  }

  lemma PlainTail(s: Suite, next: Bytes32, delay: Delay, inner: Encapsulated, m: nat)
    requires |inner.routing| == s.RoutingInfoSize() && m <= s.RoutingInfoSize() - STEP
    ensures var n := s.RoutingInfoSize();
            ForwardPlain(s, next, delay, inner)[n - m..n] == inner.routing[n - STEP - m..n - STEP]
  {
    hide DelayBytes;
  }

  lemma ForwardTail(s: Suite, key: Bytes16, next: Bytes32, delay: Delay, inner: Encapsulated, m: nat)
    requires |inner.routing| == s.RoutingInfoSize() && m <= s.RoutingInfoSize() - STEP
    ensures var n := s.RoutingInfoSize();
            ForwardRouting(s, key, ForwardPlain(s, next, delay, inner))[n - m..]
            == Xor(inner.routing[n - STEP - m..n - STEP], Stream(s, key)[n - m..n])
  {
    hide ForwardPlain, Stream;
    var n := s.RoutingInfoSize();
    PlainTail(s, next, delay, inner, m);
    XorSlice(ForwardPlain(s, next, delay, inner), Stream(s, key)[..n], n - m, n);
    assert Stream(s, key)[..n][n - m..n] == Stream(s, key)[n - m..n];
  }

  /** At every node `i`, the last STEP * i bytes of the routing information are the filler after `i` nodes. */
  lemma {:induction false} FillerLemma(s: Suite, it: Itinerary, keys: seq<RoutingKeys>, i: nat)
    requires Travels(s, it, keys) && i < |keys|
    ensures RoutingAt(s, it, keys, i).routing[s.RoutingInfoSize() - STEP * i..] == Filler(s, keys, i)
    decreases |keys| - i
  {
    hide ForwardPlain, ForwardRouting, FinalPlain, Filler, Stream;
    var n := s.RoutingInfoSize();
    if i < |keys| - 1 {
      var inner := RoutingAt(s, it, keys, i + 1);
      FillerLemma(s, it, keys, i + 1);
      RoutingStep(s, it, keys, i);
      ForwardTail(s, keys[i].stream, it.route[i + 1].address, it.delays[i], inner, STEP * i);
      FillerParts(s, keys, i);
      var filler := inner.routing[n - STEP * (i + 1)..];
      assert inner.routing[n - STEP - STEP * i..n - STEP] == filler[..STEP * i];
      XorCancels(Filler(s, keys, i), Stream(s, keys[i].stream)[n - STEP * i..n]);
    }
  }

  /** So a node's zero padding, decrypted, is the tail that the sender cut off. */
  lemma TailRecovered(s: Suite, it: Itinerary, keys: seq<RoutingKeys>, i: nat)
    requires Travels(s, it, keys) && i + 1 < |keys|
    ensures var inner := RoutingAt(s, it, keys, i + 1);
            inner.routing[..s.RoutingInfoSize() - STEP] + Stream(s, keys[i].stream)[s.RoutingInfoSize()..] == inner.routing
  {
    hide RoutingAt, Filler, Stream;
    var inner := RoutingAt(s, it, keys, i + 1).routing;
    var n := s.RoutingInfoSize();
    FillerLemma(s, it, keys, i + 1);
    FillerParts(s, keys, i);
    assert inner[n - STEP * (i + 1)..][STEP * i..] == inner[n - STEP..];
    assert inner == inner[..n - STEP] + inner[n - STEP..];
  }

  /** Node `i` finds the next address, the delay and, byte for byte, the routing information of node `i + 1`. */
  lemma UnwrapForward(s: Suite, it: Itinerary, keys: seq<RoutingKeys>, i: nat)
    requires Travels(s, it, keys) && i + 1 < |keys|
    ensures Unwrapped(s, RoutingAt(s, it, keys, i).routing, keys[i].stream)
         == Success(ForwardHop(it.route[i + 1].address, it.delays[i], RoutingAt(s, it, keys, i + 1)))
  {
    hide ForwardPlain, ForwardRouting, Parsed, Decrypted, Stream;
    var inner := RoutingAt(s, it, keys, i + 1);
    var tail := Stream(s, keys[i].stream)[s.RoutingInfoSize()..];
    RoutingStep(s, it, keys, i);
    DecryptForward(s, keys[i].stream, ForwardPlain(s, it.route[i + 1].address, it.delays[i], inner));
    ParsePlain(s, it.route[i + 1].address, it.delays[i], inner, tail);
    TailRecovered(s, it, keys, i);
  }

  lemma FinalDecrypts(s: Suite, dest: Destination, key: Bytes16, filler: Bytes, routeLength: nat, padding: nat -> u8)
    requires 0 < routeLength <= s.maxPathLength && |filler| == STEP * (routeLength - 1)
    ensures var plain := FinalPlain(s, dest, routeLength, padding);
            && |plain| >= 52
            && Decrypted(s, FinalRouting(s, dest, key, filler, routeLength, padding), key)[..52] == plain[..52]
  {
    hide FinalPlain, Stream;
    var plain := FinalPlain(s, dest, routeLength, padding);
    var stream := Stream(s, key);
    var routing := FinalRouting(s, dest, key, filler, routeLength, padding);
    XorSlice(routing + Zeros(STEP), stream, 0, |plain|);
    assert (routing + Zeros(STEP))[0..|plain|] == Xor(plain, stream[..|plain|]);
    assert stream[0..|plain|] == stream[..|plain|];
    XorCancels(plain, stream[..|plain|]);
    var raw := Decrypted(s, routing, key);
    assert raw[0..|plain|] == plain;
    assert raw[..52] == raw[0..|plain|][..52];
  }

  /** The last node finds the destination and the identifier. */
  lemma UnwrapFinal(s: Suite, it: Itinerary, keys: seq<RoutingKeys>)
    requires Travels(s, it, keys)
    ensures var last := |keys| - 1;
            Unwrapped(s, RoutingAt(s, it, keys, last).routing, keys[last].stream)
            == Success(FinalHop(it.destination.address, it.destination.identifier))
  {
    var last := |keys| - 1;
    var plain := FinalPlain(s, it.destination, |keys|, it.padding);
    FinalDecrypts(s, it.destination, keys[last].stream, Filler(s, keys, last), |keys|, it.padding);
    var raw := Decrypted(s, RoutingAt(s, it, keys, last).routing, keys[last].stream);
    assert raw[..52] == plain[..52];
    assert raw[4..36] == raw[..52][4..36] && raw[36..52] == raw[..52][36..52];
    assert plain[..52][4..36] == it.destination.address && plain[..52][36..52] == it.destination.identifier;
    assert raw[0] == raw[..52][0];
  }
}
