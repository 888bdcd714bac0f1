/** A whole EROR exchange as a state machine: one step is one node's `proc_onion`, followed at the receiver
    by `reply_onion` (src/lib.rs). */
module ErorProtocol {
  import opened Wrappers
  import opened Octets
  import opened Bincode
  import opened ErorPrimitives
  import opened ErorOnion
  import opened ErorLayers
  import opened ErorForming
  import opened ErorInversion

  /** All nodes with their private keys, the sender's store of expected replies, and what receivers answer to the
      onions that reach them. */
  datatype World = World(
    format: Format, keys: map<Address, PrivateKey>, expected: Bytes -> Option<Tag>, replies: Wire -> Bytes)

  datatype State =
    | InFlight(at: Address, onion: Wire)
    | Home(payload: Bytes) // the sender has the reply
    | Lost(error: Error)
    | Stray // no node at that address

  datatype Event =
    | Relayed(at: Address)
    | Delivered(at: Address, payload: Bytes)
    | Returned(at: Address, payload: Bytes)

  function Step(w: World, s: State): (State, seq<Event>) {
    match s
    case InFlight(at, onion) =>
      if at !in w.keys then (Stray, [])
      else
        (match Process(w.format, w.keys[at], w.expected, onion)
         case Failure(e) => (Lost(e), [])
         case Success(Hop(next, inner)) => (InFlight(next, inner), [Relayed(at)])
         case Success(Receiver(payload)) =>
           (match Replied(w.format, w.keys[at], onion, w.replies(onion))
            case Failure(e) => (Lost(e), [Delivered(at, payload)])
            case Success((answer, next)) => (InFlight(next, answer), [Delivered(at, payload)]))
         case Success(Sender(payload)) => (Home(payload), [Returned(at, payload)]))
    case _ => (s, [])
  }

  function Run(w: World, s: State, k: nat): (State, seq<Event>) {
    if k == 0 then (s, []) else
    var (s1, before) := Run(w, s, k - 1);
    var (s2, event) := Step(w, s1);
    (s2, before + event)
  }

  lemma {:induction false} RunAdds(w: World, s: State, a: nat, b: nat)
    ensures var first := Run(w, s, a);
            var second := Run(w, first.0, b);
            Run(w, s, a + b) == (second.0, first.1 + second.1)
  {
    hide Step;
    var first := Run(w, s, a);
    if b == 0 {
      assert first.1 + [] == first.1;
    } else {
      RunAdds(w, s, a, b - 1);
      var (s1, before) := Run(w, first.0, b - 1);
      var (s2, event) := Step(w, s1);
      assert (first.1 + before) + event == first.1 + (before + event);
    }
  }

  // ---------- a path whose nodes can open their ciphertexts ----------

  ghost predicate RouteAt(w: World, plan: Plan, hops: seq<Address>, meta: Meta, i: nat)
    requires i < |hops| == |plan.keys| == |plan.ciphers|
  {
    hops[i] in w.keys && OpensAt(w.format, plan, i, w.keys[hops[i]], MetaAt(hops, meta, i))
  }

  ghost predicate Routes(w: World, plan: Plan, hops: seq<Address>, meta: Meta) {
    && 0 < |hops| == |plan.keys| == |plan.ciphers| <= w.format.maxPathLength
    && forall i: nat :: i < |hops| ==> RouteAt(w, plan, hops, meta, i)
  }

  /** An address whose public key in the PKI belongs to its private key. */
  ghost predicate Keyed(w: World, at: Address) {
    at in w.keys && at in w.format.pki && w.format.pki[at] == w.format.primitives.publicKey(w.keys[at])
  }

  ghost predicate Consistent(w: World, hops: seq<Address>) {
    forall i :: 0 <= i < |hops| ==> Keyed(w, hops[i])
  }

  ghost predicate DrawOpens(f: Format, keys: seq<SymmetricKey>, hops: seq<Address>, meta: Meta, draws: Draws, i: nat)
    requires i < |keys| == |hops|
  {
    hops[i] in f.pki ==>
      f.primitives.opens(f.pki[hops[i]], draws.pke(i), PackKeyMeta(keys[i], MetaAt(hops, meta, i)))
  }

  /** No public-key draw hits one of the ciphertexts that cannot be opened; the sender can tell. */
  ghost predicate DrawsOpen(f: Format, keys: seq<SymmetricKey>, hops: seq<Address>, meta: Meta, draws: Draws)
    requires |keys| == |hops|
  {
    forall i: nat :: i < |hops| ==> DrawOpens(f, keys, hops, meta, draws, i)
  }

  lemma PlanRoutes(w: World, keys: seq<SymmetricKey>, hops: seq<Address>, meta: Meta, payload: Payload, draws: Draws)
    requires 0 < |keys| == |hops| <= w.format.maxPathLength
    requires Consistent(w, hops) && DrawsOpen(w.format, keys, hops, meta, draws)
    ensures Routes(w, PlanOf(w.format, keys, hops, meta, payload, draws), hops, meta)
  {
    hide PackKeyMeta, UnpackKeyMeta, MetaAt, LastForward;
    var plan := PlanOf(w.format, keys, hops, meta, payload, draws);
    forall i: nat | i < |hops|
      ensures RouteAt(w, plan, hops, meta, i)
    {
      assert Keyed(w, hops[i]) && DrawOpens(w.format, keys, hops, meta, draws, i);
      KeyMetaRoundTrip(keys[i], MetaAt(hops, meta, i));
    }
  }

  // ---------- the hops before the last ----------

  function Relays(hops: seq<Address>, k: nat): (e: seq<Event>)
    requires k <= |hops|
    ensures |e| == k
  {
    seq(k, i requires 0 <= i < k => Relayed(hops[i]))
  }

  lemma RelayStep(w: World, plan: Plan, hops: seq<Address>, meta: Meta, i: nat, bwd: BackwardPart)
    requires Routes(w, plan, hops, meta) && i + 1 < |hops|
    ensures Step(w, InFlight(hops[i], w.format.LayerWire(plan, i, bwd)))
         == (InFlight(hops[i + 1], w.format.LayerWire(plan, i + 1, w.format.AeUnwrapped(plan.keys[i], bwd))),
             [Relayed(hops[i])])
  {
    hide Format.Peeled, Format.Layer, Format.AeUnwrapped, OpensAt;
    assert RouteAt(w, plan, hops, meta, i);
    LayerInversion(w.format, plan, i, w.keys[hops[i]], MetaAt(hops, meta, i), bwd);
  }

  /** From hop `from` on, each step brings the onion one hop further, as the sender's precomputed layer. */
  lemma {:induction false} RunRelays(w: World, plan: Plan, hops: seq<Address>, meta: Meta,
                                     from: nat, k: nat, bwd: BackwardPart)
    requires Routes(w, plan, hops, meta) && from + k < |hops|
    ensures Run(w, InFlight(hops[from], w.format.LayerWire(plan, from, bwd)), k)
         == (InFlight(hops[from + k],
                      w.format.LayerWire(plan, from + k, AeUnwraps(w.format, plan.keys[from..], k, bwd))),
             Relays(hops[from..], k))
  {
    hide Step, Format.LayerWire, Format.AeUnwrapped, OpensAt;
    if k > 0 {
      RunRelays(w, plan, hops, meta, from, k - 1, bwd);
      RelayStep(w, plan, hops, meta, from + k - 1, AeUnwraps(w.format, plan.keys[from..], k - 1, bwd));
      assert Relays(hops[from..], k) == Relays(hops[from..], k - 1) + [Relayed(hops[from + k - 1])];
    }
  }

  // ---------- block and part lengths ----------

  ghost predicate FullCiphers(plan: Plan) {
    forall i :: 0 <= i < |plan.ciphers| ==> |plan.ciphers[i]| == 40 + KEY_META_LENGTH
  }

  lemma {:induction false} GarbageLength(f: Format, keys: seq<SymmetricKey>, i: nat, j: nat)
    requires i <= |keys| && f.maxPathLength - i <= j < f.maxPathLength
    ensures |f.Garbage(keys, i, j)| == SINGLE_HEADER_LENGTH
    decreases i
  {
    if j < f.maxPathLength - 1 {
      GarbageLength(f, keys, i - 1, j + 1);
    }
  }

  /** Every layer's header consists of equally long blocks, and its forward part never changes length. */
  lemma {:induction false} LayerLengths(f: Format, plan: Plan, i: nat)
    requires i < |plan.keys| == |plan.ciphers| && |plan.keys| <= f.maxPathLength
    requires FullCiphers(plan)
    ensures |f.Layer(plan, i).1| == |plan.forward|
    ensures forall j :: 0 <= j < f.maxPathLength ==> |f.Layer(plan, i).0[j]| == SINGLE_HEADER_LENGTH
    decreases |plan.keys| - i
  {
    hide MacInput, Format.MacKey, Format.SymKey;
    if i == |plan.keys| - 1 {
      forall k | 0 <= k < f.maxPathLength - 1
        ensures |f.LastTail(plan)[k]| == SINGLE_HEADER_LENGTH
      {
        if k + 1 > f.maxPathLength - |plan.keys| {
          GarbageLength(f, plan.keys, i, k + 1);
        }
      }
    } else {
      LayerLengths(f, plan, i + 1);
      LayerStep(f, plan, i);
    }
  }

  // ---------- the reply travels as the precomputed backward onion ----------

  /** In a backward onion the wraps cancel the decryptions that the sender applied beforehand, so hop `i` sees
      the forward part that its predecessors' decryptions make of the original. */
  lemma {:induction false} ForwardRestored(f: Format, plan: Plan, data: Bytes, i: nat)
    requires i < |plan.keys| == |plan.ciphers| && |plan.keys| <= f.maxPathLength
    requires plan.forward == LastForward(f, plan.keys, Payload.Backward(data))
    ensures f.Layer(plan, i).1 == Opened(f, plan.keys, i, data)
    decreases |plan.keys| - i
  {
    hide Format.Sealed, Format.EncryptedBlocks, Format.LastTail;
    if i < |plan.keys| - 1 {
      ForwardRestored(f, plan, data, i + 1);
      LayerStep(f, plan, i);
    }
  }

  // ---------- one exchange ----------

  /** What the sender chooses and draws for one repliable onion. */
  datatype Exchange = Exchange(
    hopsForward: seq<Address>, hopsBackward: seq<Address>, payload: Bytes,
    master: SymmetricKey, drawsForward: Draws, drawsBackward: Draws)

  function PrngPart(f: Format, x: Exchange): (b: Bytes)
    requires 0 < |x.hopsForward|
    ensures |b| == f.TotalHeaderLength() + 8 + |x.payload|
  {
    ReplyForward(f, LastForwardKey(f, x), f.TotalHeaderLength() + 8 + |x.payload|)
  }

  function PlanBackward(f: Format, x: Exchange): (p: Plan)
    requires 0 < |x.hopsForward| && 0 < |x.hopsBackward|
    requires forall i :: 0 <= i < |x.hopsBackward| ==> x.hopsBackward[i] in f.pki
  {
    PlanOf(f, BackwardKeys(f, x.master, |x.hopsBackward|), x.hopsBackward,
           MetaBackward(|x.hopsForward|, |x.hopsBackward|), Payload.Backward(PrngPart(f, x)), x.drawsBackward)
  }

  function LastForwardKey(f: Format, x: Exchange): SymmetricKey
    requires 0 < |x.hopsForward|
  {
    f.primitives.derive(KeyRole.Forward(|x.hopsForward| - 1), x.master)
  }

  function ForwardPayload(f: Format, x: Exchange): Bytes
    requires 0 < |x.hopsForward| && 0 < |x.hopsBackward| <= f.maxPathLength
    requires forall i :: 0 <= i < |x.hopsBackward| ==> x.hopsBackward[i] in f.pki
  {
    PackPayload(f.Layer(PlanBackward(f, x), 0).0, x.payload)
  }

  function MetaForward(x: Exchange): Meta
    requires 0 < |x.hopsBackward|
  {
    Meta(Role.Receiver, x.hopsBackward[0])
  }

  function PlanForward(f: Format, x: Exchange): (p: Plan)
    requires 0 < |x.hopsForward| && 0 < |x.hopsBackward| <= f.maxPathLength
    requires forall i :: 0 <= i < |x.hopsBackward| ==> x.hopsBackward[i] in f.pki
    requires forall i :: 0 <= i < |x.hopsForward| ==> x.hopsForward[i] in f.pki
  {
    PlanOf(f, ForwardKeys(f, x.master, |x.hopsForward|), x.hopsForward, MetaForward(x),
           Payload.Forward(ForwardPayload(f, x)), x.drawsForward)
  }

  function GarbageBackward(x: Exchange): BackwardPart {
    BackwardPart(Drawn(x.drawsForward.bytes, |x.payload|), x.drawsForward.tag)
  }

  /** The paths are non-empty and short enough, and their addresses have public keys. */
  ghost predicate Formable(f: Format, x: Exchange) {
    && 0 < |x.hopsForward| <= f.maxPathLength
    && 0 < |x.hopsBackward| <= f.maxPathLength
    && Known(f, x.hopsForward)
    && Known(f, x.hopsBackward)
  }

  /** The onion as the sender expects the receiver to see it. */
  ghost function AtReceiver(f: Format, x: Exchange): Wire
    requires Formable(f, x)
  {
    var n := |x.hopsForward|;
    f.LayerWire(PlanForward(f, x), n - 1, AeUnwraps(f, ForwardKeys(f, x.master, n), n - 1, GarbageBackward(x)))
  }

  /** The onion can be formed, its nodes have the private keys, the draws can be opened, and the forward payload has a
      length that fits 64 bits. */
  ghost predicate Admissible(w: World, x: Exchange) {
    && w.format.maxPathLength + 1 < U32_LIMIT
    && Formable(w.format, x)
    && w.format.TotalHeaderLength() + 8 + |x.payload| < U64_LIMIT
    && Consistent(w, x.hopsForward)
    && Consistent(w, x.hopsBackward)
    && DrawsOpen(w.format, ForwardKeys(w.format, x.master, |x.hopsForward|), x.hopsForward, MetaForward(x), x.drawsForward)
    && DrawsOpen(w.format, BackwardKeys(w.format, x.master, |x.hopsBackward|), x.hopsBackward,
                 MetaBackward(|x.hopsForward|, |x.hopsBackward|), x.drawsBackward)
  }

  ghost function Form(f: Format, x: Exchange): Result<(Wire, Expected), Error>
    requires 0 < |x.hopsForward| && 0 < |x.hopsBackward|
  {
    Formed(f, x.master, x.drawsBackward, x.drawsForward, x.hopsForward, x.hopsBackward, x.payload)
  }

  /** The run starts with the formed onion at the first hop. */
  ghost function Start(f: Format, x: Exchange): State
    requires 0 < |x.hopsForward| && 0 < |x.hopsBackward|
    requires Form(f, x).Success?
  {
    InFlight(x.hopsForward[0], Form(f, x).value.0)
  }

  /** The tag that is left of the garbage backward part once the receiver has unwrapped it. */
  function ReceiverTag(f: Format, x: Exchange): Tag
    requires 0 < |x.hopsForward|
  {
    var keys := ForwardKeys(f, x.master, |x.hopsForward|);
    f.AeUnwrapped(LastForwardKey(f, x), AeUnwraps(f, keys, |x.hopsForward| - 1, GarbageBackward(x))).tag
  }

  lemma FormedOnion(f: Format, x: Exchange)
    requires Formable(f, x)
    ensures Form(f, x) == Success((
              f.LayerWire(PlanForward(f, x), 0, GarbageBackward(x)),
              Expected(Flatten(f.Layer(PlanBackward(f, x), |x.hopsBackward| - 1).0), AtReceiver(f, x), ReceiverTag(f, x))))
  {
    hide Format.Layer, PlanOf, PackPayload, Flatten, Format.AeUnwrapped, AeUnwraps;
  }

  /** `form_onion` fails only for a path that is too long or an address without a public key. */
  lemma FormOutcome(f: Format, x: Exchange)
    requires 0 < |x.hopsForward| && 0 < |x.hopsBackward|
    ensures Form(f, x).Success? <==> Formable(f, x)
    ensures Form(f, x) == Failure(PathTooLong)
            <==> |x.hopsForward| > f.maxPathLength || |x.hopsBackward| > f.maxPathLength
    ensures Form(f, x) == Failure(KeyNotFound)
            <==> |x.hopsForward| <= f.maxPathLength && |x.hopsBackward| <= f.maxPathLength
                 && !(Known(f, x.hopsForward) && Known(f, x.hopsBackward))
  {
    hide Format.Layer, PlanOf, PackPayload, Flatten, Format.AeUnwrapped, AeUnwraps;
    if Formable(f, x) {
      FormedOnion(f, x);
    }
  }
}
