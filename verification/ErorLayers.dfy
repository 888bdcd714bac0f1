/** What one layer of an EROR onion is: the functions that the methods of `OnionFormat` compute
    (src/lib.rs), on the bytes of an onion. */
module ErorLayers {
  import opened Wrappers
  import opened Octets
  import opened ErorPrimitives
  import opened ErorOnion

  const NONCE_BWD: nat := 0xFFAAFFAA
  const NONCE_FWD: nat := 0xAAFFAAFF
  const NONCE_AE: nat := 0xFAFAFAFA

  const SYMMETRIC_KEY_LENGTH: nat := 16
  const ADDRESS_LENGTH: nat := 32

  /** Tag, key, address, role, key-encapsulation point and two vector lengths. */
  const SINGLE_HEADER_LENGTH: nat := 16 + SYMMETRIC_KEY_LENGTH + ADDRESS_LENGTH + 4 + 32 + 8 + 8

  type Block = b: Bytes | |b| == SINGLE_HEADER_LENGTH witness Zeros(SINGLE_HEADER_LENGTH)

  /** Everything that fixes the layers of one onion: a key and a public-key ciphertext for each hop, the
      arbitrary blocks that fill up the last header, and the forward part that the last hop sees. */
  datatype Plan = Plan(keys: seq<SymmetricKey>, ciphers: seq<Bytes>, filling: nat -> Block, forward: Bytes)

  datatype Format = Format(primitives: Primitives, pki: map<Address, PublicKey>, maxPathLength: nat) {

    function TotalHeaderLength(): nat {
      8 + maxPathLength * (8 + SINGLE_HEADER_LENGTH)
    }

    function SymKey(key: SymmetricKey): SymmetricKey {
      primitives.derive(KeyRole.SymEnc, key)
    }

    function MacKey(key: SymmetricKey): SymmetricKey {
      primitives.derive(KeyRole.Mac, key)
    }

    // ---------- the backward part ----------

    function AeUnwrapped(key: SymmetricKey, bwd: BackwardPart): BackwardPart {
      var buffer := primitives.symDec(SymKey(key), NONCE_BWD, bwd.tag + bwd.data);
      BackwardPart(buffer[16..], buffer[..16])
    }

    function AeWrapped(key: SymmetricKey, bwd: BackwardPart): BackwardPart {
      var buffer := primitives.symEnc(SymKey(key), NONCE_BWD, bwd.tag + bwd.data);
      BackwardPart(buffer[16..], buffer[..16])
    }

    function AeEncrypted(key: SymmetricKey, ad: Tag, payload: Bytes): BackwardPart {
      var ciphertext := primitives.symEnc(SymKey(key), NONCE_AE, payload);
      BackwardPart(ciphertext, primitives.xorTag(primitives.tag(MacKey(key), ciphertext), ad))
    }

    function AeDecrypted(key: SymmetricKey, ad: Tag, bwd: BackwardPart): Option<Bytes> {
      if primitives.xorTag(primitives.tag(MacKey(key), bwd.data), ad) != bwd.tag then None
      else Some(primitives.symDec(SymKey(key), NONCE_AE, bwd.data))
    }

    // ---------- adding a layer ----------

    /** The header that starts with a hop's own block, whose tag covers the rest. */
    function Sealed(key: SymmetricKey, cipher: Bytes, tail: seq<Bytes>, forward: Bytes): (h: seq<Bytes>)
      ensures |h| == |tail| + 1
    {
      [PackBlock(HeaderBlock(primitives.tag(MacKey(key), MacInput(cipher, tail, forward)), cipher))] + tail
    }

    function EncryptedBlocks(key: SymmetricKey, blocks: seq<Bytes>): (e: seq<Bytes>)
      ensures |e| == |blocks|
    {
      seq(|blocks|, i requires 0 <= i < |blocks| => primitives.symEnc(SymKey(key), i + 2, blocks[i]))
    }

    function Wrapped(key: SymmetricKey, cipher: Bytes, blocks: seq<Bytes>, forward: Bytes): (w: (seq<Bytes>, Bytes))
      ensures |w.0| == |blocks| + 1
    {
      var fwd := primitives.symEnc(SymKey(key), NONCE_FWD, forward);
      (Sealed(key, cipher, EncryptedBlocks(key, blocks), fwd), fwd)
    }

    // ---------- removing a layer ----------

    /** The block that a node appends. */
    function AppendedBlock(key: SymmetricKey): Bytes {
      primitives.symDec(SymKey(key), maxPathLength + 1, Zeros(SINGLE_HEADER_LENGTH))
    }

    /** The header moves down by one position, and each moved block is decrypted under its position. A header
        longer than `maxPathLength` keeps its surplus blocks, all but the last. */
    function PeeledHeader(key: SymmetricKey, header: seq<Bytes>): (h: seq<Bytes>)
      requires 0 < maxPathLength <= |header|
      ensures |h| == |header|
    {
      seq(|header|, i requires 0 <= i < |header| =>
        if i == |header| - 1 then AppendedBlock(key)
        else if i < maxPathLength - 1 then primitives.symDec(SymKey(key), i + 2, header[i + 1])
        else header[i])
    }

    function PeeledWith(key: SymmetricKey, w: Wire): (r: Wire)
      requires 0 < maxPathLength <= |w.header|
      ensures |r.header| == |w.header|
    {
      Wire(PeeledHeader(key, w.header),
           primitives.symDec(SymKey(key), NONCE_FWD, w.forward),
           AeUnwrapped(key, w.backward))
    }

    /** One node's processing: open its own block, check the tag, strip the layer. Only a header that passed the
        check and is too short is then indexed out of range. */
    function Peeled(sk: PrivateKey, w: Wire): (r: Result<(SymmetricKey, Meta, Wire), Error>)
      ensures r.Success? ==> 0 < maxPathLength <= |w.header| == |r.value.2.header|
    {
      if w.header == [] then Failure(Panic)
      else
        match UnpackBlock(w.header[0])
        case None => Failure(SerializationError)
        case Some(block) =>
          match UnpackKeyMeta(primitives.pkDec(sk, block.data))
          case None => Failure(MacMismatch)
          case Some((key, meta)) =>
            if primitives.tag(MacKey(key), MacInput(block.data, w.header[1..], w.forward)) != block.tag
            then Failure(MacMismatch)
            else if maxPathLength == 0 || |w.header| < maxPathLength then Failure(Panic)
            else Success((key, meta, PeeledWith(key, w)))
    }

    // ---------- all layers of an onion ----------

    /** The predictable block at position `j` of the header that hop `i` receives: it began as the block
        appended by an earlier hop and was moved and decrypted since. */
    function Garbage(keys: seq<SymmetricKey>, i: nat, j: nat): Bytes
      requires i <= |keys| && maxPathLength - i <= j < maxPathLength
      decreases i
    {
      if j == maxPathLength - 1 then AppendedBlock(keys[i - 1])
      else primitives.symDec(SymKey(keys[i - 1]), j + 2, Garbage(keys, i - 1, j + 1))
    }

    /** Blocks 1 to N - 1 of the header for the last hop. */
    function LastTail(plan: Plan): (t: seq<Bytes>)
      requires 0 < |plan.keys| <= maxPathLength
      ensures |t| == maxPathLength - 1
    {
      var n := |plan.keys|;
      seq(maxPathLength - 1, k requires 0 <= k < maxPathLength - 1 =>
        if k + 1 <= maxPathLength - n then plan.filling(k + 1) else Garbage(plan.keys, n - 1, k + 1))
    }

    /** Header and forward part as hop `i` receives them, nested from the last hop outwards. */
    function Layer(plan: Plan, i: nat): (l: (seq<Bytes>, Bytes))
      requires i < |plan.keys| == |plan.ciphers| && |plan.keys| <= maxPathLength
      ensures |l.0| == maxPathLength
      decreases |plan.keys| - i
    {
      if i == |plan.keys| - 1 then
        (Sealed(plan.keys[i], plan.ciphers[i], LastTail(plan), plan.forward), plan.forward)
      else
        var inner := Layer(plan, i + 1);
        Wrapped(plan.keys[i], plan.ciphers[i], inner.0[..maxPathLength - 1], inner.1)
    }

    function LayerWire(plan: Plan, i: nat, bwd: BackwardPart): (w: Wire)
      requires i < |plan.keys| == |plan.ciphers| && |plan.keys| <= maxPathLength
      ensures |w.header| == maxPathLength
    {
      Wire(Layer(plan, i).0, Layer(plan, i).1, bwd)
    }
  }
}
