/** Removing a layer undoes adding it, for every layer of every onion. */
module ErorInversion {
  import opened Wrappers
  import opened Octets
  import opened Bincode
  import opened ErorPrimitives
  import opened ErorOnion
  import opened ErorLayers

  // ---------- the backward part ----------

  lemma AeUnwrapInvertsWrap(f: Format, key: SymmetricKey, bwd: BackwardPart)
    ensures f.AeUnwrapped(key, f.AeWrapped(key, bwd)) == bwd
  {
    var buffer := f.primitives.symEnc(f.SymKey(key), NONCE_BWD, bwd.tag + bwd.data);
    assert buffer[..16] + buffer[16..] == buffer;
    assert (bwd.tag + bwd.data)[..16] == bwd.tag && (bwd.tag + bwd.data)[16..] == bwd.data;
  }

  lemma AeWrapInvertsUnwrap(f: Format, key: SymmetricKey, bwd: BackwardPart)
    ensures f.AeWrapped(key, f.AeUnwrapped(key, bwd)) == bwd
  {
    var buffer := f.primitives.symDec(f.SymKey(key), NONCE_BWD, bwd.tag + bwd.data);
    assert buffer[..16] + buffer[16..] == buffer;
    assert (bwd.tag + bwd.data)[..16] == bwd.tag && (bwd.tag + bwd.data)[16..] == bwd.data;
  }

  lemma AeRoundTrip(f: Format, key: SymmetricKey, ad: Tag, payload: Bytes)
    ensures f.AeDecrypted(key, ad, f.AeEncrypted(key, ad, payload)) == Some(payload)
  {
  }

  // ---------- one layer ----------

  lemma PeelSealed(f: Format, sk: PrivateKey, key: SymmetricKey, meta: Meta,
                   cipher: Bytes, tail: seq<Bytes>, forward: Bytes, bwd: BackwardPart)
    requires 0 < f.maxPathLength <= |tail| + 1
    requires |cipher| < U64_LIMIT
    requires UnpackKeyMeta(f.primitives.pkDec(sk, cipher)) == Some((key, meta))
    ensures var w := Wire(f.Sealed(key, cipher, tail, forward), forward, bwd);
            f.Peeled(sk, w) == Success((key, meta, f.PeeledWith(key, w)))
  {
    var tag := f.primitives.tag(f.MacKey(key), MacInput(cipher, tail, forward));
    BlockRoundTrip(HeaderBlock(tag, cipher));
    var header := f.Sealed(key, cipher, tail, forward);
    assert header[1..] == tail;
  }

  /** `unwrap` after `wrap` gives back every block but the popped one, and in its place the block that
      every node appends. */
  lemma PeelInvertsWrap(f: Format, sk: PrivateKey, key: SymmetricKey, meta: Meta,
                        cipher: Bytes, header: seq<Bytes>, forward: Bytes, bwd: BackwardPart)
    requires 0 < f.maxPathLength == |header|
    requires |cipher| < U64_LIMIT
    requires UnpackKeyMeta(f.primitives.pkDec(sk, cipher)) == Some((key, meta))
    ensures var outer := f.Wrapped(key, cipher, header[..f.maxPathLength - 1], forward);
            f.Peeled(sk, Wire(outer.0, outer.1, bwd))
            == Success((key, meta, Wire(header[..f.maxPathLength - 1] + [f.AppendedBlock(key)], forward,
                                        f.AeUnwrapped(key, bwd))))
  {
    var kept := header[..f.maxPathLength - 1];
    var tail := f.EncryptedBlocks(key, kept);
    var outer := f.Wrapped(key, cipher, kept, forward);
    PeelSealed(f, sk, key, meta, cipher, tail, outer.1, bwd);
    assert f.PeeledHeader(key, outer.0) == kept + [f.AppendedBlock(key)] by {
      forall i | 0 <= i < f.maxPathLength - 1
        ensures f.PeeledHeader(key, outer.0)[i] == kept[i]
      {
        assert outer.0[i + 1] == tail[i];
      }
    }
  }

  /** So the inner onion comes back whole exactly when the popped block is the one a node appends. */
  lemma PeelRestoresExactly(f: Format, sk: PrivateKey, key: SymmetricKey, meta: Meta,
                            cipher: Bytes, header: seq<Bytes>, forward: Bytes, bwd: BackwardPart)
    requires 0 < f.maxPathLength == |header|
    requires |cipher| < U64_LIMIT
    requires UnpackKeyMeta(f.primitives.pkDec(sk, cipher)) == Some((key, meta))
    ensures var outer := f.Wrapped(key, cipher, header[..f.maxPathLength - 1], forward);
            f.Peeled(sk, Wire(outer.0, outer.1, bwd))
            == Success((key, meta, Wire(header, forward, f.AeUnwrapped(key, bwd))))
            <==> header[f.maxPathLength - 1] == f.AppendedBlock(key)
  {
    PeelInvertsWrap(f, sk, key, meta, cipher, header, forward, bwd);
    var kept := header[..f.maxPathLength - 1];
    assert header == kept + [header[f.maxPathLength - 1]];
    assert (kept + [f.AppendedBlock(key)])[f.maxPathLength - 1] == f.AppendedBlock(key);
  }

  /** Conversely, whatever a node accepts is the wrapping of what it passes on: the layer it removed can be
      rebuilt from its own key and ciphertext. All blocks but the first come back to the last byte, and so does the
      forward part; of the first block, tag and data come back. */
  lemma WrapInvertsPeel(f: Format, sk: PrivateKey, w: Wire)
    requires f.maxPathLength == |w.header|
    requires f.Peeled(sk, w).Success?
    ensures var (key, meta, inner) := f.Peeled(sk, w).value;
            var block := UnpackBlock(w.header[0]).value;
            var outer := f.Wrapped(key, block.data, inner.header[..f.maxPathLength - 1], inner.forward);
            && outer.1 == w.forward
            && outer.0[1..] == w.header[1..]
            && UnpackBlock(w.header[0]) == Some(HeaderBlock(
                 f.primitives.tag(f.MacKey(key), MacInput(block.data, outer.0[1..], outer.1)), block.data))
            && f.AeWrapped(key, inner.backward) == w.backward
  {
    var (key, meta, inner) := f.Peeled(sk, w).value;
    var kept := inner.header[..f.maxPathLength - 1];
    assert f.EncryptedBlocks(key, kept) == w.header[1..];
    AeWrapInvertsUnwrap(f, key, w.backward);
  }

  /** An onion carries no valid tag for anything but the accepted onion's fields: nobody forged one. */
  ghost predicate NoForgedTag(f: Format, key: SymmetricKey, data: Bytes, w: Wire, w': Wire)
    requires w.header != [] && w'.header != [] && UnpackBlock(w'.header[0]).Some?
  {
    var covered := MacInput(data, w.header[1..], w.forward);
    var covered' := MacInput(data, w'.header[1..], w'.forward);
    UnpackBlock(w'.header[0]).value.tag == f.primitives.tag(f.MacKey(key), covered') ==> covered' == covered
  }

  /** Take an onion that shares the ciphertext of its first block with an accepted one, and does not carry a forged
      tag. It is accepted exactly if it has the same tag, the same blocks after the first and the same forward part,
      and is reported as a MAC mismatch otherwise. */
  lemma CoveredFieldsAreChecked(f: Format, sk: PrivateKey, w: Wire, w': Wire)
    requires f.Peeled(sk, w).Success?
    requires f.maxPathLength <= |w'.header|
    requires UnpackBlock(w'.header[0]).Some?
    requires UnpackBlock(w'.header[0]).value.data == UnpackBlock(w.header[0]).value.data
    requires |UnpackBlock(w.header[0]).value.data| < U64_LIMIT
    requires Encodable(w.header) && |w.forward| < U64_LIMIT && Encodable(w'.header) && |w'.forward| < U64_LIMIT
    requires NoForgedTag(f, f.Peeled(sk, w).value.0, UnpackBlock(w.header[0]).value.data, w, w')
    ensures f.Peeled(sk, w').Success?
       <==> && UnpackBlock(w'.header[0]) == UnpackBlock(w.header[0])
            && w'.header[1..] == w.header[1..]
            && w'.forward == w.forward
    ensures f.Peeled(sk, w').Failure? ==> f.Peeled(sk, w') == Failure(MacMismatch)
  {
    hide MacInput, Format.PeeledWith, UnpackKeyMeta, UnpackBlock;
    var data := UnpackBlock(w.header[0]).value.data;
    if f.Peeled(sk, w').Success? {
      MacInputInjective(data, w.header[1..], w.forward, data, w'.header[1..], w'.forward);
    }
  }

  /** Without that premise: any blocks and any forward part are accepted together with the tag made for them. */
  lemma RetaggedIsAccepted(f: Format, sk: PrivateKey, w: Wire, tail: seq<Bytes>, forward: Bytes, bwd: BackwardPart)
    requires f.Peeled(sk, w).Success?
    requires f.maxPathLength <= |tail| + 1
    requires |UnpackBlock(w.header[0]).value.data| < U64_LIMIT
    ensures var key := f.Peeled(sk, w).value.0;
            var sealed := f.Sealed(key, UnpackBlock(w.header[0]).value.data, tail, forward);
            f.Peeled(sk, Wire(sealed, forward, bwd)).Success?
  {
    hide MacInput, Format.PeeledWith, Format.Sealed, UnpackKeyMeta;
    var (key, meta, inner) := f.Peeled(sk, w).value;
    PeelSealed(f, sk, key, meta, UnpackBlock(w.header[0]).value.data, tail, forward, bwd);
  }

  /** The first block itself is only read, never passed on, and bytes after its data go unnoticed. */
  lemma FirstBlockIsMalleable(f: Format, sk: PrivateKey, w: Wire, extra: Bytes)
    requires f.maxPathLength == |w.header| > 0 && UnpackBlock(w.header[0]).Some?
    ensures f.Peeled(sk, w.(header := w.header[0 := w.header[0] + extra])) == f.Peeled(sk, w)
  {
    hide MacInput, UnpackKeyMeta, UnpackBlock, Format.AeUnwrapped;
    var w' := w.(header := w.header[0 := w.header[0] + extra]);
    UnpackBlockIgnoresRest(w.header[0], extra);
    assert w'.header[1..] == w.header[1..];
    forall key: SymmetricKey
      ensures f.PeeledHeader(key, w'.header) == f.PeeledHeader(key, w.header)
    {
    }
  }

  // ---------- all layers ----------

  lemma LayerStep(f: Format, plan: Plan, i: nat)
    requires i + 1 < |plan.keys| == |plan.ciphers| && |plan.keys| <= f.maxPathLength
    ensures var inner := f.Layer(plan, i + 1);
            f.Layer(plan, i) == f.Wrapped(plan.keys[i], plan.ciphers[i], inner.0[..f.maxPathLength - 1], inner.1)
  {
  }

  /** Block `k` of layer `i + 1` travels in layer `i` one position higher, encrypted under its position. */
  lemma LayerAt(f: Format, plan: Plan, i: nat, k: nat)
    requires i + 1 < |plan.keys| == |plan.ciphers| && |plan.keys| <= f.maxPathLength
    requires k + 1 < f.maxPathLength
    ensures f.Layer(plan, i).0[k + 1]
         == f.primitives.symEnc(f.SymKey(plan.keys[i]), k + 2, f.Layer(plan, i + 1).0[k])
  {
    LayerStep(f, plan, i);
  }

  lemma LastLayer(f: Format, plan: Plan)
    requires 0 < |plan.keys| == |plan.ciphers| && |plan.keys| <= f.maxPathLength
    ensures var i := |plan.keys| - 1;
            f.Layer(plan, i) == (f.Sealed(plan.keys[i], plan.ciphers[i], f.LastTail(plan), plan.forward), plan.forward)
  {
  }

  lemma LastLayerAt(f: Format, plan: Plan, k: nat)
    requires 0 < |plan.keys| == |plan.ciphers| && |plan.keys| <= f.maxPathLength
    requires k + 1 < f.maxPathLength
    ensures f.Layer(plan, |plan.keys| - 1).0[k + 1] == f.LastTail(plan)[k]
  {
  }

  lemma GarbageStep(f: Format, keys: seq<SymmetricKey>, i: nat, j: nat)
    requires i < |keys| && f.maxPathLength - i - 1 <= j < f.maxPathLength - 1
    ensures f.primitives.symEnc(f.SymKey(keys[i]), j + 2, f.Garbage(keys, i + 1, j)) == f.Garbage(keys, i, j + 1)
  {
  }

  /** At every hop `i`, the last `i` blocks of the header are the precomputed garbage of row `i`, whatever
      lies before them. */
  lemma {:induction false} GarbageInvariant(f: Format, plan: Plan, i: nat, j: nat)
    requires i < |plan.keys| == |plan.ciphers| && |plan.keys| <= f.maxPathLength
    requires f.maxPathLength - i <= j < f.maxPathLength
    ensures f.Layer(plan, i).0[j] == f.Garbage(plan.keys, i, j)
    decreases |plan.keys| - i
  {
    hide Format.Layer;
    if i == |plan.keys| - 1 {
      LastLayerAt(f, plan, j - 1);
    } else {
      LayerAt(f, plan, i, j - 1);
      GarbageInvariant(f, plan, i + 1, j - 1);
      GarbageStep(f, plan.keys, i, j - 1);
    }
  }

  ghost predicate OpensAt(f: Format, plan: Plan, i: nat, sk: PrivateKey, meta: Meta)
    requires i < |plan.keys| == |plan.ciphers|
  {
    && |plan.ciphers[i]| < U64_LIMIT
    && UnpackKeyMeta(f.primitives.pkDec(sk, plan.ciphers[i])) == Some((plan.keys[i], meta))
  }

  /** Hop `i` turns layer `i` into layer `i + 1`, byte for byte. */
  lemma LayerInversion(f: Format, plan: Plan, i: nat, sk: PrivateKey, meta: Meta, bwd: BackwardPart)
    requires i + 1 < |plan.keys| == |plan.ciphers| && |plan.keys| <= f.maxPathLength
    requires OpensAt(f, plan, i, sk, meta)
    ensures f.Peeled(sk, f.LayerWire(plan, i, bwd))
         == Success((plan.keys[i], meta, f.LayerWire(plan, i + 1, f.AeUnwrapped(plan.keys[i], bwd))))
  {
    hide Format.Layer, Format.Peeled, Format.Wrapped, Format.AeUnwrapped, UnpackKeyMeta;
    var inner := f.Layer(plan, i + 1);
    LayerStep(f, plan, i);
    GarbageInvariant(f, plan, i + 1, f.maxPathLength - 1);
    var key := plan.keys[i];
    assert inner.0[f.maxPathLength - 1] == f.AppendedBlock(key) by {
      assert plan.keys[(i + 1) - 1] == key;
    }
    PeelRestoresExactly(f, sk, key, meta, plan.ciphers[i], inner.0, inner.1, bwd);
  }

  /** The last hop recovers the forward part under its own key. */
  lemma LastLayerOpens(f: Format, plan: Plan, sk: PrivateKey, meta: Meta, bwd: BackwardPart)
    requires 0 < |plan.keys| == |plan.ciphers| && |plan.keys| <= f.maxPathLength
    requires OpensAt(f, plan, |plan.keys| - 1, sk, meta)
    ensures var i := |plan.keys| - 1;
            var w := f.LayerWire(plan, i, bwd);
            f.Peeled(sk, w) == Success((plan.keys[i], meta, f.PeeledWith(plan.keys[i], w)))
  {
    var i := |plan.keys| - 1;
    PeelSealed(f, sk, plan.keys[i], meta, plan.ciphers[i], f.LastTail(plan), plan.forward, bwd);
  }
}
