/** Sizes on the wire: nothing about the paths or the position shows in the length of an onion (src/lib.rs). */
module ErorSizes {
  import opened Octets
  import opened Bincode
  import opened ErorPrimitives
  import opened ErorOnion
  import opened ErorLayers
  import opened ErorForming
  import opened ErorProtocol
  import opened ErorRun

  ghost predicate FullHeader(f: Format, header: seq<Bytes>) {
    |header| == f.maxPathLength && forall j :: 0 <= j < |header| ==> |header[j]| == SINGLE_HEADER_LENGTH
  }

  lemma SerializedLength(f: Format, w: Wire)
    requires FullHeader(f, w.header)
    ensures |SerializeOnion(w)| == 40 + 124 * f.maxPathLength + |w.forward| + |w.backward.data|
  {
    PackAllLength(w.header, SINGLE_HEADER_LENGTH);
  }

  lemma LayerIsFull(f: Format, plan: Plan, i: nat, bwd: BackwardPart)
    requires i < |plan.keys| == |plan.ciphers| && |plan.keys| <= f.maxPathLength
    requires FullCiphers(plan)
    ensures FullHeader(f, f.LayerWire(plan, i, bwd).header)
    ensures |SerializeOnion(f.LayerWire(plan, i, bwd))|
         == 40 + 124 * f.maxPathLength + |plan.forward| + |bwd.data|
  {
    hide Format.Layer, SerializeOnion;
    LayerLengths(f, plan, i);
    SerializedLength(f, f.LayerWire(plan, i, bwd));
  }

  lemma PeeledHeaderFull(f: Format, key: SymmetricKey, header: seq<Bytes>)
    requires 0 < f.maxPathLength && FullHeader(f, header)
    ensures FullHeader(f, f.PeeledHeader(key, header))
  {
    forall j | 0 <= j < f.maxPathLength
      ensures |f.PeeledHeader(key, header)[j]| == SINGLE_HEADER_LENGTH
    {
      if j < f.maxPathLength - 1 {
        assert f.PeeledHeader(key, header)[j] == f.primitives.symDec(f.SymKey(key), j + 2, header[j + 1]);
      } else {
        assert f.PeeledHeader(key, header)[j] == f.AppendedBlock(key);
      }
    }
  }

  /** Stripping a layer keeps the number and the length of the blocks and both payload lengths. */
  lemma PeelKeepsSize(f: Format, sk: PrivateKey, w: Wire)
    requires FullHeader(f, w.header)
    requires f.Peeled(sk, w).Success?
    ensures var inner := f.Peeled(sk, w).value.2;
            && FullHeader(f, inner.header)
            && |inner.forward| == |w.forward|
            && |inner.backward.data| == |w.backward.data|
            && |SerializeOnion(inner)| == |SerializeOnion(w)|
  {
    var inner := f.Peeled(sk, w).value.2;
    hide SerializeOnion, UnpackBlock, UnpackKeyMeta, MacInput, FullHeader, Format.PeeledHeader;
    PeeledHeaderFull(f, f.Peeled(sk, w).value.0, w.header);
    SerializedLength(f, w);
    SerializedLength(f, inner);
  }

  lemma {:induction false} AeUnwrapsLength(f: Format, keys: seq<SymmetricKey>, k: nat, bwd: BackwardPart)
    requires k <= |keys|
    ensures |AeUnwraps(f, keys, k, bwd).data| == |bwd.data|
  {
    if k > 0 {
      AeUnwrapsLength(f, keys, k - 1, bwd);
    }
  }

  lemma ForwardPayloadSize(f: Format, x: Exchange)
    requires Formable(f, x)
    ensures |ForwardPayload(f, x)| == 16 + 124 * f.maxPathLength + |x.payload|
  {
    hide BackwardKeys, Format.Layer, PrngPart, MetaBackward, LastForward;
    LayerIsFull(f, PlanBackward(f, x), 0, NO_BACKWARD);
    PackAllLength(f.Layer(PlanBackward(f, x), 0).0, SINGLE_HEADER_LENGTH);
  }

  lemma FullPlans(f: Format, x: Exchange)
    requires Formable(f, x)
    ensures FullCiphers(PlanForward(f, x)) && FullCiphers(PlanBackward(f, x))
    ensures |PlanForward(f, x).forward| == |ForwardPayload(f, x)| == 16 + 124 * f.maxPathLength + |x.payload|
    ensures |PlanBackward(f, x).forward| == 16 + 124 * f.maxPathLength + |x.payload|
  {
    hide ForwardKeys, BackwardKeys, Format.Layer, PackVecs, PackVec;
    ForwardPayloadSize(f, x);
  }

  /** Whenever `form_onion` succeeds, the size of the onion depends on the maximal path length and the payload
      length alone. */
  lemma FormedSize(f: Format, x: Exchange)
    requires 0 < |x.hopsForward| && 0 < |x.hopsBackward|
    requires Form(f, x).Success?
    ensures |SerializeOnion(Form(f, x).value.0)| == 56 + 248 * f.maxPathLength + 2 * |x.payload|
  {
    hide Form, SerializeOnion, Format.LayerWire, AeUnwraps, PlanOf, ForwardPayload;
    FormOutcome(f, x);
    FormedOnion(f, x);
    FullPlans(f, x);
    LayerIsFull(f, PlanForward(f, x), 0, GarbageBackward(x));
  }

  lemma AnswerLength(w: World, x: Exchange)
    requires Formable(w.format, x)
    ensures |Answer(w, x).data| == |Reply(w, x)|
    ensures |GarbageBackward(x).data| == |x.payload|
  {
  }

  /** The size of every onion in a run: it never changes on the way forth or back, and a reply as long as the
      payload makes an onion as long as the original one. */
  lemma RunKeepsSize(w: World, x: Exchange, k: nat)
    requires Admissible(w, x)
    requires k < |x.hopsForward| + |x.hopsBackward|
    ensures Form(w.format, x).Success?
    ensures var s := Run(w, Start(w.format, x), k).0;
            && s.InFlight?
            && |SerializeOnion(s.onion)| == 56 + 248 * w.format.maxPathLength + |x.payload|
                                            + if k < |x.hopsForward| then |x.payload| else |Reply(w, x)|
  {
    hide SerializeOnion, Step, Format.Layer, Format.LayerWire, AeUnwraps, Form, Run, FullHeader, PlanOf, DrawsOpen,
         Answer, Relays, GarbageBackward, LastForwardKey, ReceiverTag, PrngPart;
    var f := w.format;
    var nf := |x.hopsForward|;
    FullPlans(f, x);
    AnswerLength(w, x);
    if k < nf {
      WayForth(w, x, k);
      var bwd := AeUnwraps(f, ForwardKeys(f, x.master, nf), k, GarbageBackward(x));
      AeUnwrapsLength(f, ForwardKeys(f, x.master, nf), k, GarbageBackward(x));
      LayerIsFull(f, PlanForward(f, x), k, bwd);
    } else {
      OnTheWayBack(w, x, k - nf);
      var keys := BackwardKeys(f, x.master, |x.hopsBackward|);
      AeUnwrapsLength(f, keys, k - nf, Answer(w, x));
      LayerIsFull(f, PlanBackward(f, x), k - nf, AeUnwraps(f, keys, k - nf, Answer(w, x)));
    }
  }
}
