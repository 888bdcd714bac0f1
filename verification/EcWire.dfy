/** EROR with the concrete primitives: what ends up in the hash, cipher and MAC calls of src/primitives.rs. */
module EcWire {
  import opened Octets
  import opened Bincode
  import opened ErorPrimitives
  import opened EcPrimitives
  import opened ErorOnion
  import opened ErorLayers
  import opened ErorForming
  import opened ErorProtocol
  import opened ErorWire

  /** The four bytes of a nonce or hop number, the lowest first. */
  function Four(n: nat): (b: Bytes) {
    [(n % 256) as u8, (n / 0x100 % 256) as u8, (n / 0x1_0000 % 256) as u8, (n / 0x100_0000 % 256) as u8]
  }

  /** AEZ, which is not called on nothing. */
  function Aez(e: Ec, key: SymmetricKey, nonce: nat, data: Bytes): Bytes {
    if data == [] then [] else e.ciphers.aezEnc(key, e.ciphers.hash16(Four(nonce)), data)
  }

  function AezInverse(e: Ec, key: SymmetricKey, nonce: nat, data: Bytes): Bytes {
    if data == [] then [] else e.ciphers.aezDec(key, e.ciphers.hash16(Four(nonce)), data)
  }

  lemma SuiteInTheseTerms(e: Ec, key: SymmetricKey, nonce: nat, data: Bytes)
    ensures e.Suite().symEnc(key, nonce, data) == Aez(e, key, nonce, data)
    ensures e.Suite().symDec(key, nonce, data) == AezInverse(e, key, nonce, data)
    ensures e.Suite().derive(KeyRole.SymEnc, key) == e.ciphers.hash16([1, 0, 0, 0, 0] + key)
    ensures e.Suite().derive(KeyRole.Mac, key) == e.ciphers.hash16([2, 0, 0, 0, 0] + key)
    ensures e.Suite().derive(KeyRole.Prng, key) == e.ciphers.hash16([5, 0, 0, 0, 0] + key)
    ensures e.Suite().derive(KeyRole.Forward(nonce), key) == e.ciphers.hash16([6] + Four(nonce) + key)
    ensures e.Suite().derive(KeyRole.Backward(nonce), key) == e.ciphers.hash16([7] + Four(nonce) + key)
    ensures e.Suite().tag(key, data) == e.ciphers.hmac(key, data)
    ensures e.Suite().prng(key, nonce) == e.ciphers.chacha(key + Zeros(16), nonce)
  {
    U32Bytes(nonce);
    hide Le;
  }

  /** Every hop's key is a hash of six or seven, the hop's number and the master key; the sender's is the master key. */
  lemma HopKeys(e: Ec, w: World, x: Exchange, i: nat)
    requires Admissible(w, x) && w.format.primitives == e.Suite()
    requires i < |x.hopsForward| + |x.hopsBackward|
    ensures After(w, x, i).InFlight? && After(w, x, i).at in w.keys
    ensures var s := After(w, x, i);
            var nf := |x.hopsForward|;
            var peeled := w.format.Peeled(w.keys[s.at], s.onion);
            && peeled.Success?
            && peeled.value.0
               == if i < nf then e.ciphers.hash16([6] + Four(i) + x.master)
                  else if i + 1 < nf + |x.hopsBackward| then e.ciphers.hash16([7] + Four(i - nf) + x.master)
                  else x.master
  {
    hide After, Format.Peeled, DrawsOpen, Consistent, Four, Ec.Suite;
    var nf := |x.hopsForward|;
    if i < nf {
      ForwardHopLearns(w, x, i);
      SuiteInTheseTerms(e, x.master, i, []);
    } else {
      BackwardHopLearns(w, x, i - nf);
      SuiteInTheseTerms(e, x.master, i - nf, []);
    }
  }

  /** `inner` is what a node with this key passes on. */
  ghost predicate IsInner(e: Ec, maxPathLength: nat, key: SymmetricKey, w: Wire, inner: Wire) {
    var (sym, n) := (e.ciphers.hash16([1, 0, 0, 0, 0] + key), |w.header|);
    && n > 0 && |inner.header| == n
    && (forall j {:trigger inner.header[j]} :: 0 <= j < n - 1 && j < maxPathLength - 1 ==>
          inner.header[j] == AezInverse(e, sym, j + 2, w.header[j + 1]))
    && inner.header[n - 1] == AezInverse(e, sym, maxPathLength + 1, Zeros(116))
    && inner.forward == AezInverse(e, sym, 0xAAFFAAFF, w.forward)
    && inner.backward.tag + inner.backward.data == AezInverse(e, sym, 0xFFAAFFAA, w.backward.tag + w.backward.data)
  }

  ghost predicate Authentic(e: Ec, key: SymmetricKey, w: Wire) {
    && w.header != []
    && var block := w.header[0];
    && |block| >= 24 && FromLe(block[16..24]) <= |block| - 24
    && block[..16] == e.ciphers.hmac(e.ciphers.hash16([2, 0, 0, 0, 0] + key),
                                     MacInput(block[24..24 + FromLe(block[16..24])], w.header[1..], w.forward))
  }

  lemma StrippedInTheseTerms(e: Ec, f: Format, key: SymmetricKey, w: Wire, inner: Wire)
    requires f.primitives == e.Suite() && w.header != []
    requires Stripped(f, key, w, inner)
    ensures IsInner(e, f.maxPathLength, key, w, inner)
  {
    hide Four, Ec.Suite, AezInverse, Aez;
    var sym := e.Suite().derive(KeyRole.SymEnc, key);
    forall nonce: nat, data: Bytes
      ensures e.Suite().symDec(sym, nonce, data) == AezInverse(e, sym, nonce, data)
    {
      SuiteInTheseTerms(e, sym, nonce, data);
    }
    SuiteInTheseTerms(e, key, 0, []);
  }

  /** What a node checks and passes on. */
  lemma AcceptedOnion(e: Ec, f: Format, sk: PrivateKey, w: Wire)
    requires f.primitives == e.Suite()
    requires f.Peeled(sk, w).Success?
    ensures var peeled := f.Peeled(sk, w).value;
            Authentic(e, peeled.0, w) && IsInner(e, f.maxPathLength, peeled.0, w, peeled.2)
  {
    hide Format.Peeled, MacInput, FromLe, Four, Ec.Suite, AezInverse, Aez, Stripped, IsInner;
    var peeled := f.Peeled(sk, w).value;
    UnwrapOutcome(f, sk, w);
    StrippedInTheseTerms(e, f, peeled.0, w, peeled.2);
    var data := w.header[0][24..24 + FromLe(w.header[0][16..24])];
    SuiteInTheseTerms(e, peeled.0, 0, []);
    SuiteInTheseTerms(e, e.ciphers.hash16([2, 0, 0, 0, 0] + peeled.0), 0, MacInput(data, w.header[1..], w.forward));
  }

  /** The reply of a receiver with this key, to an onion with a forward part of this length and this tag. */
  ghost predicate IsReply(e: Ec, key: SymmetricKey, length: nat, tag: Tag, payload: Bytes, reply: Wire) {
    && reply.forward == e.ciphers.chacha(e.ciphers.hash16([5, 0, 0, 0, 0] + key) + Zeros(16), length)
    && reply.backward.data == Aez(e, e.ciphers.hash16([1, 0, 0, 0, 0] + key), 0xFAFAFAFA, payload)
    && reply.backward.tag == Xor(e.ciphers.hmac(e.ciphers.hash16([2, 0, 0, 0, 0] + key), reply.backward.data), tag)
  }

  /** What a receiver sends off. */
  lemma SentReply(e: Ec, f: Format, sk: PrivateKey, w: Wire, payload: Bytes)
    requires f.primitives == e.Suite()
    ensures Replied(f, sk, w, payload).Success? ==>
              && f.Peeled(sk, w).Success?
              && var peeled := f.Peeled(sk, w).value;
              IsReply(e, peeled.0, |w.forward|, peeled.2.backward.tag, payload, Replied(f, sk, w, payload).value.0)
  {
    hide Format.Peeled, Replied, Four, Aez, ReadVecs, ReadVec, Ec.DeriveKey, Ec.Prng, Ec.SymmetricEncrypt;
    ReplyOutcome(f, sk, w, payload);
    if Replied(f, sk, w, payload).Success? {
      var key := f.Peeled(sk, w).value.0;
      var reply := Replied(f, sk, w, payload).value.0;
      SuiteInTheseTerms(e, key, 0, []);
      SuiteInTheseTerms(e, e.ciphers.hash16([5, 0, 0, 0, 0] + key), |w.forward|, []);
      SuiteInTheseTerms(e, e.ciphers.hash16([1, 0, 0, 0, 0] + key), 0xFAFAFAFA, payload);
      SuiteInTheseTerms(e, e.ciphers.hash16([2, 0, 0, 0, 0] + key), 0, reply.backward.data);
    }
  }
}
