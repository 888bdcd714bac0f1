/** The whole exchange: forth along one path, back along the other (src/lib.rs). */
module ErorRun {
  import opened Wrappers
  import opened Octets
  import opened Bincode
  import opened ErorPrimitives
  import opened ErorOnion
  import opened ErorLayers
  import opened ErorForming
  import opened ErorInversion
  import opened ErorProtocol

  lemma ForwardRoutes(w: World, x: Exchange)
    requires Admissible(w, x)
    ensures Routes(w, PlanForward(w.format, x), x.hopsForward, MetaForward(x))
  {
    hide ForwardPayload, ForwardKeys, MetaForward;
    PlanRoutes(w, ForwardKeys(w.format, x.master, |x.hopsForward|), x.hopsForward, MetaForward(x),
               Payload.Forward(ForwardPayload(w.format, x)), x.drawsForward);
  }

  lemma BackwardRoutes(w: World, x: Exchange)
    requires Admissible(w, x)
    ensures Routes(w, PlanBackward(w.format, x), x.hopsBackward, MetaBackward(|x.hopsForward|, |x.hopsBackward|))
  {
    hide PrngPart, BackwardKeys, MetaBackward;
    PlanRoutes(w, BackwardKeys(w.format, x.master, |x.hopsBackward|), x.hopsBackward,
               MetaBackward(|x.hopsForward|, |x.hopsBackward|), Payload.Backward(PrngPart(w.format, x)), x.drawsBackward);
  }

  // ---------- at the receiver ----------

  lemma ForwardPayloadLength(w: World, x: Exchange)
    requires Admissible(w, x)
    ensures Encodable(w.format.Layer(PlanBackward(w.format, x), 0).0)
    ensures |ForwardPayload(w.format, x)| == w.format.TotalHeaderLength() + 8 + |x.payload|
  {
    hide Format.Layer, PlanOf, LastForward;
    var header := w.format.Layer(PlanBackward(w.format, x), 0).0;
    LayerLengths(w.format, PlanBackward(w.format, x), 0);
    PackAllLength(header, SINGLE_HEADER_LENGTH);
  }

  /** The receiver finds the payload, and next to it the header of the backward onion. */
  lemma ReceiverOpens(w: World, x: Exchange, bwd: BackwardPart)
    requires Admissible(w, x)
    ensures var f := w.format;
            var last := |x.hopsForward| - 1;
            var peeled := f.Peeled(w.keys[x.hopsForward[last]], f.LayerWire(PlanForward(f, x), last, bwd));
            && peeled.Success?
            && peeled.value.0 == LastForwardKey(f, x)
            && peeled.value.1 == MetaForward(x)
            && peeled.value.2.forward == ForwardPayload(f, x)
            && peeled.value.2.backward == f.AeUnwrapped(LastForwardKey(f, x), bwd)
  {
    hide MetaForward, ForwardPayload, Format.AeUnwrapped, Format.PeeledHeader, CipherAt, DrawsOpen;
    var f := w.format;
    var last := |x.hopsForward| - 1;
    var plan := PlanForward(f, x);
    var keys := ForwardKeys(f, x.master, |x.hopsForward|);
    ForwardRoutes(w, x);
    assert keys[last] == LastForwardKey(f, x);
    assert RouteAt(w, plan, x.hopsForward, MetaForward(x), last);
    LastLayerOpens(f, plan, w.keys[x.hopsForward[last]], MetaForward(x), bwd);
    assert f.Layer(plan, last).1 == plan.forward;
  }

  /** The forward part arrives with the length that the receiver's PRNG output has to have, and the
      precomputed backward onion starts with exactly that output. */
  lemma ForwardParts(w: World, x: Exchange)
    requires Admissible(w, x)
    ensures var f := w.format;
            && |f.Layer(PlanForward(f, x), |x.hopsForward| - 1).1| == f.TotalHeaderLength() + 8 + |x.payload|
            && f.Layer(PlanBackward(f, x), 0).1 == PrngPart(f, x)
  {
    hide Format.Layer, ForwardPayload, PrngPart, DrawsOpen;
    var f := w.format;
    ForwardPayloadLength(w, x);
    LayerLengths(f, PlanForward(f, x), |x.hopsForward| - 1);
    ForwardRestored(f, PlanBackward(f, x), PrngPart(f, x), 0);
  }

  /** The reply that the receiver sends off has the header and the forward part that the sender precomputed,
      byte for byte, whatever it answers and whatever backward part it was given. */
  lemma ReplySubstitution(w: World, x: Exchange, bwd: BackwardPart, reply: Bytes)
    requires Admissible(w, x)
    ensures var f := w.format;
            var last := |x.hopsForward| - 1;
            var (key, ad) := (LastForwardKey(f, x), f.AeUnwrapped(LastForwardKey(f, x), bwd).tag);
            Replied(f, w.keys[x.hopsForward[last]], f.LayerWire(PlanForward(f, x), last, bwd), reply)
            == Success((f.LayerWire(PlanBackward(f, x), 0, f.AeEncrypted(key, ad, reply)), x.hopsBackward[0]))
  {
    hide Format.Peeled, Format.Layer, Format.AeUnwrapped, Format.AeEncrypted, PackPayload, SplitReplyHeader, PlanOf,
         DrawsOpen, Encodable, ReplyForward;
    ReceiverOpens(w, x, bwd);
    ForwardPayloadLength(w, x);
    ForwardParts(w, x);
    SplitRecoversPacked(w.format.Layer(PlanBackward(w.format, x), 0).0, x.payload);
  }

  lemma ReceiverStep(w: World, x: Exchange, bwd: BackwardPart)
    requires Admissible(w, x)
    ensures var f := w.format;
            var last := |x.hopsForward| - 1;
            var (key, ad) := (LastForwardKey(f, x), f.AeUnwrapped(LastForwardKey(f, x), bwd).tag);
            Step(w, InFlight(x.hopsForward[last], f.LayerWire(PlanForward(f, x), last, bwd)))
            == (InFlight(x.hopsBackward[0],
                         f.LayerWire(PlanBackward(f, x), 0,
                                     f.AeEncrypted(key, ad, w.replies(f.LayerWire(PlanForward(f, x), last, bwd))))),
                [Delivered(x.hopsForward[last], x.payload)])
  {
    hide Format.Peeled, Format.Layer, Format.AeUnwrapped, Format.AeEncrypted, PackPayload, SplitReplyHeader, PlanOf,
         DrawsOpen, Encodable, Replied;
    ReceiverOpens(w, x, bwd);
    ForwardPayloadLength(w, x);
    SplitRecoversPacked(w.format.Layer(PlanBackward(w.format, x), 0).0, x.payload);
    ReplySubstitution(w, x, bwd, w.replies(w.format.LayerWire(PlanForward(w.format, x), |x.hopsForward| - 1, bwd)));
  }

  // ---------- the sender puts the hops' wraps back on ----------

  /** Putting `from + k` wraps on undoes the `k` unwraps since hop `from`, and puts on those of the hops before. */
  lemma {:induction false} RewrapInvertsUnwraps(f: Format, master: SymmetricKey, n: nat, from: nat, k: nat, bwd: BackwardPart)
    requires from + k < n <= U32_LIMIT
    ensures Rewrapped(f, master, from + k, AeUnwraps(f, BackwardKeys(f, master, n)[from..], k, bwd))
         == Rewrapped(f, master, from, bwd)
  {
    hide Format.AeWrapped, Format.AeUnwrapped;
    if k > 0 {
      var keys := BackwardKeys(f, master, n)[from..];
      AeWrapInvertsUnwrap(f, keys[k - 1], AeUnwraps(f, keys, k - 1, bwd));
      RewrapInvertsUnwraps(f, master, n, from, k - 1, bwd);
    }
  }

  lemma {:induction false} UnwrapsInvertRewrap(f: Format, master: SymmetricKey, n: nat, k: nat, bwd: BackwardPart)
    requires k < n <= U32_LIMIT
    ensures AeUnwraps(f, BackwardKeys(f, master, n), k, Rewrapped(f, master, k, bwd)) == bwd
  {
    hide Format.AeWrapped, Format.AeUnwrapped;
    if k > 0 {
      var keys := BackwardKeys(f, master, n);
      UnwrapsInvertRewrap(f, master, n, k - 1, f.AeWrapped(keys[k - 1], bwd));
      AeUnwrapInvertsWrap(f, keys[k - 1], bwd);
    }
  }

  // ---------- at the sender ----------

  /** The sender's store knows the tag for the header that this exchange comes home with. */
  ghost predicate Remembers(w: World, x: Exchange)
    requires Admissible(w, x)
  {
    && Form(w.format, x).Success?
    && w.expected(Form(w.format, x).value.1.identifier) == Some(Form(w.format, x).value.1.tag)
  }

  /** The header that comes home. */
  function LastHeader(f: Format, x: Exchange): seq<Bytes>
    requires Formable(f, x)
  {
    f.Layer(PlanBackward(f, x), |x.hopsBackward| - 1).0
  }

  /** What the sender makes of a backward part once all hops' unwraps are undone, whatever its store holds. */
  ghost function Judgement(w: World, x: Exchange, bwd: BackwardPart): State
    requires Formable(w.format, x)
  {
    match w.expected(Flatten(LastHeader(w.format, x)))
    case None => Lost(UnexpectedReply)
    case Some(tag) =>
      match w.format.AeDecrypted(LastForwardKey(w.format, x), tag, bwd)
      case None => Lost(AeError)
      case Some(payload) => Home(payload)
  }

  /** The same for a store that knows the exchange. */
  function Verdict(f: Format, x: Exchange, bwd: BackwardPart): State
    requires 0 < |x.hopsForward|
  {
    match f.AeDecrypted(LastForwardKey(f, x), ReceiverTag(f, x), bwd)
    case None => Lost(AeError)
    case Some(payload) => Home(payload)
  }

  /** The backward onion at hop `j`, with `bwd` as its backward part. */
  ghost function HandedTo(f: Format, x: Exchange, j: nat, bwd: BackwardPart): State
    requires Formable(f, x) && j < |x.hopsBackward|
  {
    InFlight(x.hopsBackward[j], f.LayerWire(PlanBackward(f, x), j, bwd))
  }

  /** The onion at the sender once hop `j` was handed `bwd`, and what the sender's step then ends in. */
  ghost function Arrival(w: World, x: Exchange, j: nat, bwd: BackwardPart): State
    requires Formable(w.format, x) && j < |x.hopsBackward|
  {
    Run(w, HandedTo(w.format, x, j, bwd), |x.hopsBackward| - 1 - j).0
  }

  ghost function Outcome(w: World, x: Exchange, j: nat, bwd: BackwardPart): (State, seq<Event>)
    requires Formable(w.format, x) && j < |x.hopsBackward|
  {
    Run(w, HandedTo(w.format, x, j, bwd), |x.hopsBackward| - j)
  }

  function Ending(x: Exchange, s: State): seq<Event>
    requires 0 < |x.hopsBackward|
  {
    if s.Home? then [Returned(x.hopsBackward[|x.hopsBackward| - 1], s.payload)] else []
  }

  lemma SenderOpens(w: World, x: Exchange, bwd: BackwardPart)
    requires Admissible(w, x)
    ensures var f := w.format;
            var last := |x.hopsBackward| - 1;
            var peeled := f.Peeled(w.keys[x.hopsBackward[last]], f.LayerWire(PlanBackward(f, x), last, bwd));
            && peeled.Success?
            && peeled.value.0 == x.master
            && peeled.value.1 == MetaBackward(|x.hopsForward|, |x.hopsBackward|)
  {
    hide MetaBackward, PrngPart, Format.AeUnwrapped, Format.PeeledHeader, CipherAt, DrawsOpen;
    var f := w.format;
    var last := |x.hopsBackward| - 1;
    var meta := MetaBackward(|x.hopsForward|, |x.hopsBackward|);
    BackwardRoutes(w, x);
    assert RouteAt(w, PlanBackward(f, x), x.hopsBackward, meta, last);
    LastLayerOpens(f, PlanBackward(f, x), w.keys[x.hopsBackward[last]], meta, bwd);
  }

  lemma SenderStep(w: World, x: Exchange, bwd: BackwardPart)
    requires Admissible(w, x)
    ensures var f := w.format;
            var last := |x.hopsBackward| - 1;
            var judgement := Judgement(w, x, Rewrapped(f, x.master, last, bwd));
            Step(w, InFlight(x.hopsBackward[last], f.LayerWire(PlanBackward(f, x), last, bwd)))
            == (judgement, Ending(x, judgement))
  {
    hide Format.Peeled, Format.Layer, Format.AeUnwrapped, Format.AeDecrypted, PlanOf, DrawsOpen, Rewrapped,
         PackCounts, UnpackCounts, Flatten, PlanForward;
    SenderOpens(w, x, bwd);
    CountsRoundTrip(|x.hopsForward|, |x.hopsBackward|);
  }

  lemma JudgedByTheStoredTag(w: World, x: Exchange, bwd: BackwardPart)
    requires Admissible(w, x) && Remembers(w, x)
    ensures Judgement(w, x, bwd) == Verdict(w.format, x, bwd)
  {
    hide Form, Flatten, Format.AeDecrypted, ReceiverTag, Format.Layer, AtReceiver, PlanForward, PlanBackward, DrawsOpen;
    FormedOnion(w.format, x);
  }

  // ---------- whole runs ----------

  /** Whatever backward part `bwd` is handed to backward hop `j`, it comes home after the remaining hops under the
      header that the sender precomputed, and is judged as the part that the receiver would have had to send. */
  lemma WayBack(w: World, x: Exchange, j: nat, bwd: BackwardPart)
    requires Admissible(w, x)
    requires j < |x.hopsBackward|
    ensures Arrival(w, x, j, bwd).InFlight?
    ensures Arrival(w, x, j, bwd).onion.header == LastHeader(w.format, x)
    ensures var judgement := Judgement(w, x, Rewrapped(w.format, x.master, j, bwd));
            Outcome(w, x, j, bwd)
            == (judgement, Relays(x.hopsBackward[j..], |x.hopsBackward| - 1 - j) + Ending(x, judgement))
  {
    hide Step, Format.Layer, Format.AeUnwrapped, DrawsOpen, Rewrapped, Judgement, Ending,
         AeUnwraps, PrngPart, LastForward, Routes, BackwardKeys, CipherAt;
    var f := w.format;
    var n := |x.hopsBackward|;
    var left := n - 1 - j;
    var keys := BackwardKeys(f, x.master, n);
    var meta := MetaBackward(|x.hopsForward|, n);
    BackwardRoutes(w, x);
    RunRelays(w, PlanBackward(f, x), x.hopsBackward, meta, j, left, bwd);
    var arrived := AeUnwraps(f, keys[j..], left, bwd);
    SenderStep(w, x, arrived);
    RewrapInvertsUnwraps(f, x.master, n, j, left, bwd);
  }

  /** Up to the receiver, step `k` finds the onion at forward hop `k`, as layer `k` of what the sender formed. */
  lemma WayForth(w: World, x: Exchange, k: nat)
    requires Admissible(w, x) && k < |x.hopsForward|
    ensures Form(w.format, x).Success?
    ensures var f := w.format;
            Run(w, Start(f, x), k)
            == (InFlight(x.hopsForward[k], f.LayerWire(PlanForward(f, x), k,
                           AeUnwraps(f, ForwardKeys(f, x.master, |x.hopsForward|), k, GarbageBackward(x)))),
                Relays(x.hopsForward, k))
  {
    hide Step, Format.Layer, Format.AeUnwrapped, DrawsOpen, Form, AeUnwraps, LastForward, ForwardPayload, Routes,
         ForwardKeys, CipherAt, ReceiverTag;
    var f := w.format;
    var keys := ForwardKeys(f, x.master, |x.hopsForward|);
    ForwardRoutes(w, x);
    RunRelays(w, PlanForward(f, x), x.hopsForward, MetaForward(x), 0, k, GarbageBackward(x));
    assert keys[0..] == keys && x.hopsForward[0..] == x.hopsForward;
    FormedOnion(w.format, x);
  }

  /** So the onion that reaches the receiver is the one that the sender expects it to see. */
  lemma ReceiverSeesExpected(w: World, x: Exchange)
    requires Admissible(w, x)
    ensures var last := |x.hopsForward| - 1;
            && Form(w.format, x).Success?
            && Run(w, Start(w.format, x), last)
               == (InFlight(x.hopsForward[last], Form(w.format, x).value.1.onion), Relays(x.hopsForward, last))
  {
    hide Step, Format.Layer, Format.LayerWire, DrawsOpen, Form, AeUnwraps, PlanForward, PlanBackward, Run;
    WayForth(w, x, |x.hopsForward| - 1);
    FormedOnion(w.format, x);
  }

  /** What the receiver answers to this onion. */
  ghost function Reply(w: World, x: Exchange): Bytes
    requires Formable(w.format, x)
  {
    w.replies(AtReceiver(w.format, x))
  }

  /** The reply as the receiver sends it off. */
  ghost function Answer(w: World, x: Exchange): BackwardPart
    requires Formable(w.format, x)
  {
    w.format.AeEncrypted(LastForwardKey(w.format, x), ReceiverTag(w.format, x), Reply(w, x))
  }

  ghost function Journey(w: World, x: Exchange): seq<Event>
    requires Formable(w.format, x)
  {
    var (nf, nb) := (|x.hopsForward|, |x.hopsBackward|);
    Relays(x.hopsForward, nf - 1) + [Delivered(x.hopsForward[nf - 1], x.payload)]
    + Relays(x.hopsBackward, nb - 1) + [Returned(x.hopsBackward[nb - 1], Reply(w, x))]
  }

  lemma ToTheFirstBackwardHop(w: World, x: Exchange)
    requires Admissible(w, x)
    ensures var f := w.format;
            var nf := |x.hopsForward|;
            && Form(f, x).Success?
            && Run(w, Start(f, x), nf)
               == (InFlight(x.hopsBackward[0], f.LayerWire(PlanBackward(f, x), 0, Answer(w, x))),
                   Relays(x.hopsForward, nf - 1) + [Delivered(x.hopsForward[nf - 1], x.payload)])
  {
    hide Step, Format.Layer, Format.LayerWire, Format.AeUnwrapped, Format.AeEncrypted, DrawsOpen, Form, AeUnwraps,
         PlanForward, PlanBackward, LastForwardKey;
    var f := w.format;
    var last := |x.hopsForward| - 1;
    WayForth(w, x, last);
    ReceiverStep(w, x, AeUnwraps(f, ForwardKeys(f, x.master, last + 1), last, GarbageBackward(x)));
  }

  /** After the receiver, step `nf + k` finds the onion at backward hop `k`. */
  lemma OnTheWayBack(w: World, x: Exchange, k: nat)
    requires Admissible(w, x) && k < |x.hopsBackward|
    ensures Form(w.format, x).Success?
    ensures var f := w.format;
            Run(w, Start(f, x), |x.hopsForward| + k).0
            == InFlight(x.hopsBackward[k], f.LayerWire(PlanBackward(f, x), k,
                          AeUnwraps(f, BackwardKeys(f, x.master, |x.hopsBackward|), k, Answer(w, x))))
  {
    hide Step, Format.Layer, Format.LayerWire, Format.AeUnwrapped, DrawsOpen, Form, AeUnwraps, LastForward, PrngPart,
         Routes, BackwardKeys, CipherAt, Answer;
    var f := w.format;
    var keys := BackwardKeys(f, x.master, |x.hopsBackward|);
    ToTheFirstBackwardHop(w, x);
    BackwardRoutes(w, x);
    RunRelays(w, PlanBackward(f, x), x.hopsBackward, MetaBackward(|x.hopsForward|, |x.hopsBackward|), 0, k, Answer(w, x));
    assert keys[0..] == keys;
    RunAdds(w, Start(f, x), |x.hopsForward|, k);
  }

  /** The identifier that the sender stored is the packed header of the onion that comes home. */
  lemma ReplyIsRecognised(w: World, x: Exchange)
    requires Admissible(w, x)
    ensures Form(w.format, x).Success?
    ensures var s := Run(w, Start(w.format, x), |x.hopsForward| + |x.hopsBackward| - 1).0;
            s.InFlight? && Flatten(s.onion.header) == Form(w.format, x).value.1.identifier
  {
    hide Step, Run, Format.Layer, DrawsOpen, Form, AeUnwraps, PlanForward, PlanBackward, Answer, Flatten, ReceiverTag;
    OnTheWayBack(w, x, |x.hopsBackward| - 1);
    FormedOnion(w.format, x);
  }

  lemma JourneyParts(w: World, x: Exchange)
    requires Formable(w.format, x)
    ensures var (nf, nb) := (|x.hopsForward|, |x.hopsBackward|);
            Relays(x.hopsForward, nf - 1) + [Delivered(x.hopsForward[nf - 1], x.payload)]
            + (Relays(x.hopsBackward, nb - 1) + [Returned(x.hopsBackward[nb - 1], Reply(w, x))])
            == Journey(w, x)
    ensures Journey(w, x) + [] == Journey(w, x)
  {
    hide Reply, Formable;
  }

  lemma AnswerAuthenticates(w: World, x: Exchange)
    requires Formable(w.format, x)
    ensures Rewrapped(w.format, x.master, 0, Answer(w, x)) == Answer(w, x)
    ensures Verdict(w.format, x, Answer(w, x)) == Home(Reply(w, x))
  {
    hide Reply, Format.AeEncrypted, Format.AeDecrypted, ReceiverTag;
    AeRoundTrip(w.format, LastForwardKey(w.format, x), ReceiverTag(w.format, x), Reply(w, x));
  }

  lemma {:induction false} EndIsFinal(w: World, s: State, k: nat)
    requires s.Home? || s.Lost?
    ensures Run(w, s, k) == (s, [])
  {
    if k > 0 {
      EndIsFinal(w, s, k - 1);
      var none: seq<Event> := [];
      assert none + none == none;
    }
  }

  /** The whole exchange: the onion visits the forward path and then the backward path in order, the receiver
      gets the payload, the sender gets the reply, and nothing happens after that. */
  lemma WholeRun(w: World, x: Exchange, k: nat)
    requires Admissible(w, x) && Remembers(w, x)
    requires k >= |x.hopsForward| + |x.hopsBackward|
    ensures Run(w, Start(w.format, x), k) == (Home(Reply(w, x)), Journey(w, x))
  {
    hide Step, Format.Layer, Format.LayerWire, DrawsOpen, Form, PlanBackward, Answer, Consistent, Remembers, Judgement,
         LastHeader;
    var f := w.format;
    var (nf, nb) := (|x.hopsForward|, |x.hopsBackward|);
    ToTheFirstBackwardHop(w, x);
    var start := Start(f, x);
    WayBack(w, x, 0, Answer(w, x));
    JudgedByTheStoredTag(w, x, Answer(w, x));
    AnswerAuthenticates(w, x);
    assert x.hopsBackward[0..] == x.hopsBackward;
    JourneyParts(w, x);
    RunAdds(w, start, nf, nb);
    EndIsFinal(w, Home(Reply(w, x)), k - nf - nb);
    RunAdds(w, start, nf + nb, k - nf - nb);
  }

  // ---------- a replaced backward part ----------

  /** What hop `j` on the way back receives if nobody interferes. */
  ghost function Untouched(w: World, x: Exchange, j: nat): BackwardPart
    requires Formable(w.format, x) && j < |x.hopsBackward|
  {
    AeUnwraps(w.format, BackwardKeys(w.format, x.master, |x.hopsBackward|), j, Answer(w, x))
  }

  /** Other data than the receiver's, with a tag that the sender takes for genuine. */
  ghost predicate Forged(w: World, x: Exchange, bwd: BackwardPart)
    requires Formable(w.format, x)
  {
    var f := w.format;
    && bwd.data != Answer(w, x).data
    && bwd.tag == f.primitives.xorTag(f.primitives.tag(f.MacKey(LastForwardKey(f, x)), bwd.data), ReceiverTag(f, x))
  }

  /** The sender gets the receiver's reply from the receiver's pair alone, some other payload from a forged pair, and
      an error from everything else. */
  lemma VerdictExactly(w: World, x: Exchange, bwd: BackwardPart)
    requires Formable(w.format, x)
    ensures Verdict(w.format, x, bwd) == Home(Reply(w, x)) <==> bwd == Answer(w, x)
    ensures Verdict(w.format, x, bwd).Home? <==> bwd == Answer(w, x) || Forged(w, x, bwd)
    ensures Verdict(w.format, x, bwd).Home? || Verdict(w.format, x, bwd) == Lost(AeError)
  {
    hide Reply, ReceiverTag, LastForwardKey;
    var f := w.format;
    var key := f.SymKey(LastForwardKey(f, x));
    AnswerAuthenticates(w, x);
    assert f.primitives.symEnc(key, NONCE_AE, f.primitives.symDec(key, NONCE_AE, bwd.data)) == bwd.data;
  }

  lemma UntouchedExactly(w: World, x: Exchange, j: nat, bwd: BackwardPart)
    requires Formable(w.format, x) && |x.hopsBackward| <= U32_LIMIT && j < |x.hopsBackward|
    ensures Rewrapped(w.format, x.master, j, bwd) == Answer(w, x) <==> bwd == Untouched(w, x, j)
  {
    hide Answer, Formable;
    var n := |x.hopsBackward|;
    UnwrapsInvertRewrap(w.format, x.master, n, j, bwd);
    RewrapInvertsUnwraps(w.format, x.master, n, 0, j, Answer(w, x));
    assert BackwardKeys(w.format, x.master, n)[0..] == BackwardKeys(w.format, x.master, n);
  }

  /** If the backward part is replaced by `bwd` before hop `j`, no later hop notices. The sender ends with the
      receiver's reply exactly if nothing was replaced; otherwise it reports an error, unless the replacement
      amounts to a forged pair. */
  lemma TamperingReachesTheSender(w: World, x: Exchange, j: nat, bwd: BackwardPart)
    requires Admissible(w, x) && Remembers(w, x)
    requires j < |x.hopsBackward|
    ensures var final := Outcome(w, x, j, bwd).0;
            && (final == Home(Reply(w, x)) <==> bwd == Untouched(w, x, j))
            && (final.Home? <==> bwd == Untouched(w, x, j) || Forged(w, x, Rewrapped(w.format, x.master, j, bwd)))
            && (!final.Home? ==> final == Lost(AeError))
  {
    hide Step, Format.Layer, Format.LayerWire, DrawsOpen, Form, PlanBackward, Answer, Remembers, Verdict, Judgement,
         LastHeader, Forged, Consistent, Reply;
    WayBack(w, x, j, bwd);
    JudgedByTheStoredTag(w, x, Rewrapped(w.format, x.master, j, bwd));
    UntouchedExactly(w, x, j, bwd);
    VerdictExactly(w, x, Rewrapped(w.format, x.master, j, bwd));
  }

  /** So as long as nobody forges a pair, a reply that comes home is the receiver's. */
  lemma WithoutForgery(w: World, x: Exchange, j: nat, bwd: BackwardPart)
    requires Admissible(w, x) && Remembers(w, x)
    requires j < |x.hopsBackward|
    ensures !Forged(w, x, Rewrapped(w.format, x.master, j, bwd)) ==>
              Outcome(w, x, j, bwd).0 == if bwd == Untouched(w, x, j) then Home(Reply(w, x)) else Lost(AeError)
  {
    hide Step, Run, Format.LayerWire, DrawsOpen, Form, PlanBackward, Remembers, Forged, Consistent, Reply, Untouched,
         Rewrapped;
    TamperingReachesTheSender(w, x, j, bwd);
  }

  // ---------- a store that does not know the exchange ----------

  /** The outcome for every store: a lookup of the packed header that comes home, then authenticated decryption under
      the receiver's key and the tag that was found. */
  lemma OutcomeForEveryStore(w: World, x: Exchange, j: nat, bwd: BackwardPart)
    requires Admissible(w, x) && j < |x.hopsBackward|
    ensures Arrival(w, x, j, bwd).InFlight?
    ensures var p := w.format.primitives;
            var key := p.derive(KeyRole.Forward(|x.hopsForward| - 1), x.master);
            var part := Rewrapped(w.format, x.master, j, bwd);
            var final := Outcome(w, x, j, bwd).0;
            match w.expected(Flatten(Arrival(w, x, j, bwd).onion.header))
            case None => final == Lost(UnexpectedReply)
            case Some(tag) =>
              if part.tag == p.xorTag(p.tag(p.derive(KeyRole.Mac, key), part.data), tag)
              then final == Home(p.symDec(p.derive(KeyRole.SymEnc, key), 0xFAFAFAFA, part.data))
              else final == Lost(AeError)
  {
    hide Step, Run, Format.Layer, Format.LayerWire, DrawsOpen, PlanBackward, LastHeader, Rewrapped, Flatten, Consistent;
    WayBack(w, x, j, bwd);
  }

  /** So a reply that nobody waits for is refused, tampered with or not: the run ends in that error exactly if the store
      does not have the packed header that comes home, and then nothing but relays was seen. */
  lemma UnexpectedReplyIsRefused(w: World, x: Exchange, j: nat, bwd: BackwardPart)
    requires Admissible(w, x) && j < |x.hopsBackward|
    ensures Arrival(w, x, j, bwd).InFlight?
    ensures w.expected(Flatten(Arrival(w, x, j, bwd).onion.header)) == None
       <==> Outcome(w, x, j, bwd).0 == Lost(UnexpectedReply)
    ensures Outcome(w, x, j, bwd).0 == Lost(UnexpectedReply) ==>
              Outcome(w, x, j, bwd).1 == Relays(x.hopsBackward[j..], |x.hopsBackward| - 1 - j)
  {
    hide Step, Run, Format.Layer, Format.LayerWire, DrawsOpen, PlanBackward, LastHeader, Rewrapped, Flatten, Consistent,
         Format.AeDecrypted, LastForwardKey;
    WayBack(w, x, j, bwd);
  }

  /** The whole exchange at a sender that has forgotten it, or never expects replies: both paths are visited and the
      payload is delivered, but nothing is returned. */
  lemma NobodyWaits(w: World, x: Exchange, k: nat)
    requires Admissible(w, x) && Form(w.format, x).Success?
    requires w.expected(Form(w.format, x).value.1.identifier) == None
    requires k >= |x.hopsForward| + |x.hopsBackward|
    ensures var (nf, nb) := (|x.hopsForward|, |x.hopsBackward|);
            Run(w, Start(w.format, x), k)
            == (Lost(UnexpectedReply),
                Relays(x.hopsForward, nf - 1) + [Delivered(x.hopsForward[nf - 1], x.payload)]
                + Relays(x.hopsBackward, nb - 1))
  {
    hide Step, Format.Layer, Format.LayerWire, DrawsOpen, Form, PlanBackward, Answer, Consistent, Flatten;
    var f := w.format;
    var (nf, nb) := (|x.hopsForward|, |x.hopsBackward|);
    ToTheFirstBackwardHop(w, x);
    FormedOnion(f, x);
    WayBack(w, x, 0, Answer(w, x));
    assert x.hopsBackward[0..] == x.hopsBackward;
    var back := Relays(x.hopsBackward, nb - 1);
    assert back + [] == back;
    RunAdds(w, Start(f, x), nf, nb);
    var events := Run(w, Start(f, x), nf + nb).1;
    assert events + [] == events;
    EndIsFinal(w, Lost(UnexpectedReply), k - nf - nb);
    RunAdds(w, Start(f, x), nf + nb, k - nf - nb);
  }

  // ---------- several exchanges at once ----------

  lemma FullBackward(f: Format, x: Exchange)
    requires Formable(f, x)
    ensures |LastHeader(f, x)| == f.maxPathLength
    ensures forall j :: 0 <= j < f.maxPathLength ==> |LastHeader(f, x)[j]| == SINGLE_HEADER_LENGTH
  {
    hide PrngPart, BackwardKeys, MetaBackward, LastForward;
    LayerLengths(f, PlanBackward(f, x), |x.hopsBackward| - 1);
  }

  lemma IdentifiersDiffer(f: Format, x: Exchange, y: Exchange)
    requires Formable(f, x) && Formable(f, y)
    requires LastHeader(f, x) != LastHeader(f, y)
    ensures Flatten(LastHeader(f, x)) != Flatten(LastHeader(f, y))
  {
    hide Format.Layer, PlanOf, Flatten, PrngPart, BackwardKeys, MetaBackward;
    FullBackward(f, x);
    FullBackward(f, y);
    if Flatten(LastHeader(f, x)) == Flatten(LastHeader(f, y)) {
      PackedHeaderInjective(LastHeader(f, x), LastHeader(f, y), SINGLE_HEADER_LENGTH);
    }
  }

  lemma FormIdentifies(f: Format, x: Exchange)
    requires Formable(f, x)
    ensures Form(f, x).Success? && Form(f, x).value.1.identifier == Flatten(LastHeader(f, x))
  {
    hide Format.Layer, PlanOf, Flatten, Form, ReceiverTag, AeUnwraps;
    FormedOnion(f, x);
  }

  /** What the sender stores for an exchange. */
  ghost function Entry(f: Format, x: Exchange): Expected
    requires Formable(f, x)
  {
    FormIdentifies(f, x);
    Form(f, x).value.1
  }

  /** The sender's store after forming the onions of all exchanges, one insertion each. */
  ghost function Store(f: Format, xs: seq<Exchange>): map<Bytes, Tag>
    requires forall i :: 0 <= i < |xs| ==> Formable(f, xs[i])
  {
    hide Formable, Entry;
    if xs == [] then map[] else
    var entry := Entry(f, xs[|xs| - 1]);
    Store(f, xs[..|xs| - 1])[entry.identifier := entry.tag]
  }

  ghost predicate DistinctHeaders(f: Format, xs: seq<Exchange>)
    requires forall i :: 0 <= i < |xs| ==> Formable(f, xs[i])
  {
    forall i, j :: 0 <= i < j < |xs| ==> LastHeader(f, xs[i]) != LastHeader(f, xs[j])
  }

  /** No insertion overwrites the entry of another exchange. */
  lemma {:induction false} StoreKeeps(f: Format, xs: seq<Exchange>, i: nat)
    requires forall j :: 0 <= j < |xs| ==> Formable(f, xs[j])
    requires DistinctHeaders(f, xs) && i < |xs|
    ensures Form(f, xs[i]).Success?
    ensures var e := Form(f, xs[i]).value.1;
            e.identifier in Store(f, xs) && Store(f, xs)[e.identifier] == e.tag
  {
    hide Form, LastHeader, Formable, Flatten;
    var n := |xs| - 1;
    FormIdentifies(f, xs[i]);
    FormIdentifies(f, xs[n]);
    if i < n {
      StoreKeeps(f, xs[..n], i);
      IdentifiersDiffer(f, xs[i], xs[n]);
    }
  }

  ghost predicate AllAdmissible(w: World, xs: seq<Exchange>)
    ensures AllAdmissible(w, xs) ==> forall j :: 0 <= j < |xs| ==> Formable(w.format, xs[j])
  {
    forall j :: 0 <= j < |xs| ==> Admissible(w, xs[j])
  }

  /** So a sender with any number of exchanges under way gets every one of its replies, each receiver answering as it
      pleases. */
  lemma EveryReplyComesHome(w: World, xs: seq<Exchange>, i: nat, k: nat)
    requires AllAdmissible(w, xs)
    requires DistinctHeaders(w.format, xs) && i < |xs|
    requires forall id :: w.expected(id) == if id in Store(w.format, xs) then Some(Store(w.format, xs)[id]) else None
    requires k >= |xs[i].hopsForward| + |xs[i].hopsBackward|
    ensures Form(w.format, xs[i]).Success?
    ensures Run(w, Start(w.format, xs[i]), k) == (Home(Reply(w, xs[i])), Journey(w, xs[i]))
  {
    hide Form, Store, Formable, DistinctHeaders, Run, Journey, Consistent, DrawsOpen, Start;
    StoreKeeps(w.format, xs, i);
    WholeRun(w, xs[i], k);
  }
}
