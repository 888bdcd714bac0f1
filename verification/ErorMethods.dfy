/** The methods of `OnionFormat` (src/lib.rs), step by step, each proved to compute what `ErorForming` and
    `ErorLayers` say. */
module ErorMethods {
  import opened Wrappers
  import opened Octets
  import opened Bincode
  import opened ErorPrimitives
  import opened ErorOnion
  import opened ErorLayers
  import opened ErorForming
  import opened ErorInversion

  // ---------- buffers ----------

  method CopyFromSlice(data: array<u8>, source: Bytes)
    requires data.Length == |source|
    modifies data
    ensures data[..] == source
  {
    for i := 0 to data.Length
      invariant forall k :: 0 <= k < i ==> data[k] == source[k]
    {
      data[i] := source[i];
    }
  }

  method SymmetricEncrypt(f: Format, key: SymmetricKey, nonce: nat, data: array<u8>)
    modifies data
    ensures data[..] == f.primitives.symEnc(key, nonce, old(data[..]))
  {
    var ciphertext := f.primitives.symEnc(key, nonce, data[..]);
    CopyFromSlice(data, ciphertext);
  }

  method SymmetricDecrypt(f: Format, key: SymmetricKey, nonce: nat, data: array<u8>)
    modifies data
    ensures data[..] == f.primitives.symDec(key, nonce, old(data[..]))
  {
    var plaintext := f.primitives.symDec(key, nonce, data[..]);
    CopyFromSlice(data, plaintext);
  }

  method Buffer(b: Bytes) returns (a: array<u8>)
    ensures fresh(a) && a[..] == b
  {
    a := new u8[|b|](i requires 0 <= i < |b| => b[i]);
  }

  // ---------- the backward part ----------

  method AeEnc(f: Format, key: SymmetricKey, ad: Tag, payload: Bytes) returns (bwd: BackwardPart)
    ensures bwd == f.AeEncrypted(key, ad, payload)
  {
    var ciphertext := Buffer(payload);
    SymmetricEncrypt(f, f.SymKey(key), NONCE_AE, ciphertext);
    var mac := f.primitives.tag(f.MacKey(key), ciphertext[..]);
    bwd := BackwardPart(ciphertext[..], f.primitives.xorTag(mac, ad));
  }

  method AeDec(f: Format, key: SymmetricKey, ad: Tag, bwd: BackwardPart) returns (payload: Option<Bytes>)
    ensures payload == f.AeDecrypted(key, ad, bwd)
  {
    var tag := f.primitives.xorTag(f.primitives.tag(f.MacKey(key), bwd.data), ad);
    if tag != bwd.tag {
      return None;
    }
    var data := Buffer(bwd.data);
    SymmetricDecrypt(f, f.SymKey(key), NONCE_AE, data);
    return Some(data[..]);
  }

  method AeUnwrap(f: Format, key: SymmetricKey, bwd: BackwardPart) returns (r: BackwardPart)
    ensures r == f.AeUnwrapped(key, bwd)
  {
    var buffer := Buffer(bwd.tag + bwd.data);
    SymmetricDecrypt(f, f.SymKey(key), NONCE_BWD, buffer);
    r := BackwardPart(buffer[16..], buffer[..16]);
    assert buffer[..][..16] == buffer[..16] && buffer[..][16..] == buffer[16..];
  }

  method AeWrap(f: Format, key: SymmetricKey, bwd: BackwardPart) returns (r: BackwardPart)
    ensures r == f.AeWrapped(key, bwd)
  {
    var buffer := Buffer(bwd.tag + bwd.data);
    SymmetricEncrypt(f, f.SymKey(key), NONCE_BWD, buffer);
    r := BackwardPart(buffer[16..], buffer[..16]);
    assert buffer[..][..16] == buffer[..16] && buffer[..][16..] == buffer[16..];
  }

  // ---------- wrap and unwrap ----------

  lemma SealedHeader(f: Format, key: SymmetricKey, cipher: Bytes, tail: seq<Header>, forward: Bytes)
    ensures var tag := f.primitives.tag(f.MacKey(key), MacInput(cipher, HeaderBytes(tail), forward));
            HeaderBytes([Parsed(HeaderBlock(tag, cipher))] + tail) == f.Sealed(key, cipher, HeaderBytes(tail), forward)
  {
  }

  method Wrap(f: Format, key: SymmetricKey, ciphertext: Bytes, headers: seq<Header>, payload: Bytes)
    returns (newHeaders: seq<Header>, newPayload: Bytes)
    ensures (HeaderBytes(newHeaders), newPayload) == f.Wrapped(key, ciphertext, HeaderBytes(headers), payload)
  {
    hide MacInput, PackBlock, Format.Sealed, Format.MacKey;
    newHeaders := seq(|headers|, i requires 0 <= i < |headers| =>
      Raw(f.primitives.symEnc(f.SymKey(key), i + 2, headers[i].IntoBytes())));
    assert HeaderBytes(newHeaders) == f.EncryptedBlocks(key, HeaderBytes(headers));
    newPayload := f.primitives.symEnc(f.SymKey(key), NONCE_FWD, payload);
    var tag := f.primitives.tag(f.MacKey(key), MacInput(ciphertext, HeaderBytes(newHeaders), newPayload));
    var firstBlock := HeaderBlock(tag, ciphertext);
    SealedHeader(f, key, ciphertext, newHeaders, newPayload);
    newHeaders := [Parsed(firstBlock)] + newHeaders;
  }

  function MovedSlot(f: Format, key: SymmetricKey, was: seq<Header>, k: nat): Header
    requires k + 1 < |was|
  {
    Raw(f.primitives.symDec(f.SymKey(key), k + 2, was[k + 1].IntoBytes()))
  }

  lemma PeeledSlots(f: Format, key: SymmetricKey, was: seq<Header>, now: seq<Header>)
    requires 0 < f.maxPathLength <= |was| == |now|
    requires forall k {:trigger now[k]} :: 0 <= k < f.maxPathLength - 1 && k < |was| - 1 ==> now[k] == MovedSlot(f, key, was, k)
    requires forall k {:trigger now[k]} :: f.maxPathLength - 1 <= k < |was| - 1 ==> now[k] == was[k]
    requires now[|was| - 1].IntoBytes() == f.AppendedBlock(key)
    ensures HeaderBytes(now) == f.PeeledHeader(key, HeaderBytes(was))
  {
    hide Format.SymKey, Format.AppendedBlock;
    forall k | 0 <= k < |was|
      ensures HeaderBytes(now)[k] == f.PeeledHeader(key, HeaderBytes(was))[k]
    {
      assert HeaderBytes(now)[k] == now[k].IntoBytes();
    }
  }

  /** The header is overwritten from front to back: slot `i` takes what slot `i + 1` held on entry, because no
      slot is read after it was written. */
  method PeelHeader(f: Format, key: SymmetricKey, header: array<Header>)
    requires 0 < f.maxPathLength <= header.Length
    modifies header
    ensures HeaderBytes(header[..]) == f.PeeledHeader(key, HeaderBytes(old(header[..])))
  {
    hide Format.SymKey;
    var n := f.maxPathLength;
    ghost var was := header[..];
    for i := 0 to n - 1
      invariant forall k :: 0 <= k < i ==> header[k] == MovedSlot(f, key, was, k)
      invariant forall k :: i <= k < header.Length ==> header[k] == was[k]
    {
      header[i] := Raw(f.primitives.symDec(f.SymKey(key), i + 2, header[i + 1].IntoBytes()));
    }
    header[header.Length - 1] := Raw(f.primitives.symDec(f.SymKey(key), n + 1, Zeros(SINGLE_HEADER_LENGTH)));
    PeeledSlots(f, key, was, header[..]);
  }

  method Unwrap(f: Format, sk: PrivateKey, onion: Onion) returns (r: Result<(SymmetricKey, Meta, Onion), Error>)
    ensures r.Success? <==> f.Peeled(sk, onion.OnWire()).Success?
    ensures r.Failure? ==> f.Peeled(sk, onion.OnWire()) == Failure(r.error)
    ensures r.Success? ==>
      f.Peeled(sk, onion.OnWire()) == Success((r.value.0, r.value.1, r.value.2.OnWire()))
  {
    if |onion.header| == 0 {
      return Failure(Panic);
    }
    var parsed := onion.header[0].IntoParsed();
    if parsed.None? {
      return Failure(SerializationError);
    }
    var own := parsed.value;
    var decrypted := UnpackKeyMeta(f.primitives.pkDec(sk, own.data));
    if decrypted.None? {
      return Failure(MacMismatch);
    }
    var (key, meta) := decrypted.value;
    assert HeaderBytes(onion.header[1..]) == onion.OnWire().header[1..];
    var tag := f.primitives.tag(f.MacKey(key), MacInput(own.data, HeaderBytes(onion.header[1..]), onion.forward));
    if tag != own.tag {
      return Failure(MacMismatch);
    }
    if f.maxPathLength == 0 || |onion.header| < f.maxPathLength {
      return Failure(Panic);
    }
    var header := new Header[|onion.header|](i requires 0 <= i < |onion.header| => onion.header[i]);
    assert header[..] == onion.header;
    PeelHeader(f, key, header);
    var forward := f.primitives.symDec(f.SymKey(key), NONCE_FWD, onion.forward);
    var backward := AeUnwrap(f, key, onion.backward);
    return Success((key, meta, Onion(header[..], forward, backward)));
  }

  // ---------- onionize ----------

  method MetaCiphers(f: Format, keys: seq<SymmetricKey>, hops: seq<Address>, meta: Meta, draws: Draws)
    returns (r: Result<seq<Bytes>, Error>)
    requires |keys| == |hops|
    ensures r == Failure(KeyNotFound) || r.Success?
    ensures r.Success? <==> Known(f, hops)
    ensures r.Success? ==> |r.value| == |keys|
    ensures r.Success? ==> forall i :: 0 <= i < |keys| ==> r.value[i] == CipherAt(f, keys, hops, meta, draws, i)
  {
    var ciphers := [];
    for i := 0 to |hops|
      invariant |ciphers| == i
      invariant forall k :: 0 <= k < i ==> hops[k] in f.pki
      invariant forall k :: 0 <= k < i ==> ciphers[k] == CipherAt(f, keys, hops, meta, draws, k)
    {
      if hops[i] !in f.pki {
        return Failure(KeyNotFound);
      }
      var blockData := PackKeyMeta(keys[i], MetaAt(hops, meta, i));
      ciphers := ciphers + [f.primitives.pkEnc(f.pki[hops[i]], draws.pke(i), blockData)];
    }
    return Success(ciphers);
  }

  /** Row `row` holds its garbage blocks up to column `to`. */
  ghost predicate RowFilled(f: Format, keys: seq<SymmetricKey>, table: array2<Header>, row: nat, to: nat)
    requires row <= |keys| && row < table.Length0 && to <= table.Length1 == f.maxPathLength
    reads table
  {
    forall j: nat :: f.maxPathLength - row <= j < to ==> table[row, j].IntoBytes() == f.Garbage(keys, row, j)
  }

  lemma GarbageRow(f: Format, keys: seq<SymmetricKey>, i: nat, j: nat)
    requires i < |keys| && f.maxPathLength - i - 1 <= j < f.maxPathLength
    ensures f.Garbage(keys, i + 1, j)
         == if j == f.maxPathLength - 1 then f.AppendedBlock(keys[i])
            else f.primitives.symDec(f.SymKey(keys[i]), j + 2, f.Garbage(keys, i, j + 1))
  {
  }

  method FillRow(f: Format, keys: seq<SymmetricKey>, table: array2<Header>, i: nat)
    requires i + 1 < |keys| <= f.maxPathLength == table.Length0 == table.Length1
    requires RowFilled(f, keys, table, i, f.maxPathLength)
    modifies table
    ensures RowFilled(f, keys, table, i + 1, f.maxPathLength)
  {
    hide Format.Garbage, Format.SymKey;
    var size := f.maxPathLength;
    for j := size - i - 1 to size - 1
      invariant RowFilled(f, keys, table, i, size)
      invariant RowFilled(f, keys, table, i + 1, j)
    {
      var data := f.primitives.symDec(f.SymKey(keys[i]), j + 2, table[i, j + 1].IntoBytes());
      GarbageRow(f, keys, i, j);
      table[i + 1, j] := Raw(data);
    }
    GarbageRow(f, keys, i, size - 1);
    table[i + 1, size - 1] := Raw(f.primitives.symDec(f.SymKey(keys[i]), size + 1, Zeros(SINGLE_HEADER_LENGTH)));
  }

  /** The triangle of garbage blocks, row by row; an entry is only read after it was filled. */
  method FillGarbage(f: Format, keys: seq<SymmetricKey>, table: array2<Header>)
    requires 0 < |keys| <= f.maxPathLength == table.Length0 == table.Length1
    modifies table
    ensures RowFilled(f, keys, table, |keys| - 1, f.maxPathLength)
  {
    for i := 0 to |keys| - 1
      invariant RowFilled(f, keys, table, i, f.maxPathLength)
    {
      FillRow(f, keys, table, i);
    }
  }

  /** Blocks 1 to N - 1 of the last header: random ones first, then the garbage of the last row. */
  method LastBlocks(f: Format, plan: Plan) returns (tail: seq<Header>)
    requires 0 < |plan.keys| <= f.maxPathLength
    ensures HeaderBytes(tail) == f.LastTail(plan)
  {
    var n, size := |plan.keys|, f.maxPathLength;
    var table := new Header[size, size]((i, j) => Raw([]));
    FillGarbage(f, plan.keys, table);
    for j := 1 to size - n + 1
      invariant RowFilled(f, plan.keys, table, n - 1, size)
      invariant forall k :: 1 <= k < j ==> table[n - 1, k] == Raw(plan.filling(k))
    {
      table[n - 1, j] := Raw(plan.filling(j));
    }
    tail := seq(size - 1, k requires 0 <= k < size - 1 reads table => table[n - 1, k + 1]);
    forall k | 0 <= k < size - 1
      ensures HeaderBytes(tail)[k] == f.LastTail(plan)[k]
    {
      assert tail[k] == table[n - 1, k + 1];
    }
  }

  method EndParts(f: Format, keys: seq<SymmetricKey>, payload: Payload, backwardLength: nat, draws: Draws)
    returns (forwardN: Bytes, backward1: BackwardPart, backwardN: BackwardPart, tag: Tag)
    requires 0 < |keys|
    ensures forwardN == LastForward(f, keys, payload)
    ensures backward1 == FirstBackward(payload, backwardLength, draws)
    ensures (backwardN, tag) == LastBackward(f, keys, payload, backwardLength, draws)
  {
    var n := |keys|;
    match payload {
      case Forward(data) =>
        forwardN := f.primitives.symEnc(f.SymKey(keys[n - 1]), NONCE_FWD, data);
        backward1 := BackwardPart(Drawn(draws.bytes, backwardLength), draws.tag);
        backwardN := backward1;
        for k := 0 to n - 1
          invariant backwardN == AeUnwraps(f, keys, k, backward1)
        {
          backwardN := AeUnwrap(f, keys[k], backwardN);
        }
        var beyond := AeUnwrap(f, keys[n - 1], backwardN);
        tag := beyond.tag;
      case Backward(data) =>
        forwardN := data;
        for k := 0 to n - 1
          invariant forwardN == Opened(f, keys, k, data)
        {
          forwardN := f.primitives.symDec(f.SymKey(keys[k]), NONCE_FWD, forwardN);
        }
        backward1, backwardN, tag := NO_BACKWARD, NO_BACKWARD, Zeros(16);
    }
  }

  /** From the last hop outwards: pop one block, encrypt the rest one position higher, insert a new first block. */
  method WrapAll(f: Format, plan: Plan, headersN: seq<Header>) returns (headers: seq<Header>, forward: Bytes)
    requires 0 < |plan.keys| == |plan.ciphers| && |plan.keys| <= f.maxPathLength
    requires (HeaderBytes(headersN), plan.forward) == f.Layer(plan, |plan.keys| - 1)
    ensures (HeaderBytes(headers), forward) == f.Layer(plan, 0)
  {
    hide Format.Layer, Format.Wrapped;
    headers, forward := headersN, plan.forward;
    for i := |plan.keys| - 1 downto 0
      invariant (HeaderBytes(headers), forward) == f.Layer(plan, i)
    {
      ghost var inner := HeaderBytes(headers);
      headers := headers[..|headers| - 1];
      assert HeaderBytes(headers) == inner[..f.maxPathLength - 1];
      LayerStep(f, plan, i);
      headers, forward := Wrap(f, plan.keys[i], plan.ciphers[i], headers, forward);
    }
  }

  /** Matches an onion result with its byte view. */
  ghost predicate SameOnions(r: Result<(Onion, Onion, Tag), Error>, w: Result<(Wire, Wire, Tag), Error>) {
    match r
    case Failure(e) => w == Failure(e)
    case Success((first, last, tag)) => w == Success((first.OnWire(), last.OnWire(), tag))
  }

  method Onionize(f: Format, keys: seq<SymmetricKey>, hops: seq<Address>, meta: Meta, payload: Payload,
                  backwardLength: nat, draws: Draws)
    returns (r: Result<(Onion, Onion, Tag), Error>)
    requires 0 < |keys| == |hops|
    ensures SameOnions(r, Onionized(f, keys, hops, meta, payload, backwardLength, draws))
  {
    hide Format.Layer, MacInput, PackBlock, Format.Sealed, Format.LastTail, LastForward, LastBackward, FirstBackward,
         CipherAt;
    if |hops| > f.maxPathLength {
      return Failure(PathTooLong);
    }
    var n := |keys|;
    var ciphers := MetaCiphers(f, keys, hops, meta, draws);
    if ciphers.Failure? {
      return Failure(ciphers.error);
    }
    var forwardN, backward1, backwardN, tag := EndParts(f, keys, payload, backwardLength, draws);
    var plan := Plan(keys, ciphers.value, draws.filling, forwardN);
    assert plan == PlanOf(f, keys, hops, meta, payload, draws);
    var tail := LastBlocks(f, plan);
    var lastTag := f.primitives.tag(f.MacKey(keys[n - 1]), MacInput(plan.ciphers[n - 1], HeaderBytes(tail), forwardN));
    var headersN := [Parsed(HeaderBlock(lastTag, plan.ciphers[n - 1]))] + tail;
    SealedHeader(f, keys[n - 1], plan.ciphers[n - 1], tail, forwardN);
    LastLayer(f, plan);
    var headers1, forward1 := WrapAll(f, plan, headersN);
    return Success((Onion(headers1, forward1, backward1), Onion(headersN, forwardN, backwardN), tag));
  }

  // ---------- the three operations of the protocol ----------

  datatype ExpectedResponse = ExpectedResponse(identifier: Bytes, onion: Onion, tag: Tag)

  ghost predicate SameFormed(r: Result<(Onion, ExpectedResponse), Error>, w: Result<(Wire, Expected), Error>) {
    match r
    case Failure(e) => w == Failure(e)
    case Success((onion, x)) => w == Success((onion.OnWire(), Expected(x.identifier, x.onion.OnWire(), x.tag)))
  }

  method FormOnion(f: Format, master: SymmetricKey, drawsBackward: Draws, drawsForward: Draws,
                   hopsForward: seq<Address>, hopsBackward: seq<Address>, payload: Bytes)
    returns (r: Result<(Onion, ExpectedResponse), Error>)
    requires 0 < |hopsForward| && 0 < |hopsBackward|
    ensures SameFormed(r, Formed(f, master, drawsBackward, drawsForward, hopsForward, hopsBackward, payload))
  {
    hide Onionized, ReplyForward, PackPayload, Flatten;
    if |hopsForward| > f.maxPathLength || |hopsBackward| > f.maxPathLength {
      return Failure(PathTooLong);
    }
    var keysForward := ForwardKeys(f, master, |hopsForward|);
    var keysBackward := BackwardKeys(f, master, |hopsBackward|);
    var randomPayload := ReplyForward(f, keysForward[|hopsForward| - 1], f.TotalHeaderLength() + 8 + |payload|);
    var metaBackward := MetaBackward(|hopsForward|, |hopsBackward|);
    var backward := Onionize(f, keysBackward, hopsBackward, metaBackward, Payload.Backward(randomPayload), 0, drawsBackward);
    if backward.Failure? {
      return Failure(backward.error);
    }
    var (backward1, backwardN, _) := backward.value;
    var metaForward := Meta(Role.Receiver, hopsBackward[0]);
    var data := PackPayload(HeaderBytes(backward1.header), payload);
    var forward := Onionize(f, keysForward, hopsForward, metaForward, Payload.Forward(data), |payload|, drawsForward);
    if forward.Failure? {
      return Failure(forward.error);
    }
    var (forward1, forwardN, tag) := forward.value;
    var identifier := backwardN.PackedHeader();
    return Success((forward1, ExpectedResponse(identifier, forwardN, tag)));
  }

  method ReplyOnion(f: Format, sk: PrivateKey, onion: Onion, payload: Bytes) returns (r: Result<(Onion, Address), Error>)
    ensures r.Success? ==> Replied(f, sk, onion.OnWire(), payload) == Success((r.value.0.OnWire(), r.value.1))
    ensures r.Failure? ==> Replied(f, sk, onion.OnWire(), payload) == Failure(r.error)
  {
    hide Format.Peeled, SplitReplyHeader, ReplyForward, Format.AeEncrypted;
    var payloadLength := |onion.forward|;
    var unwrapped := Unwrap(f, sk, onion);
    if unwrapped.Failure? {
      return Failure(unwrapped.error);
    }
    var (key, meta, nextOnion) := unwrapped.value;
    if meta.role != Role.Receiver {
      return Failure(NotTheReceiver);
    }
    var split := SplitReplyHeader(nextOnion.forward);
    if split.Failure? {
      return Failure(split.error);
    }
    var newMessage := ReplyForward(f, key, payloadLength);
    var backward := AeEnc(f, key, nextOnion.backward.tag, payload);
    return Success((Onion(split.value.0, newMessage, backward), meta.next));
  }

  /** The sender's branch: put the hops' wraps back on, last hop first, then authenticate and decrypt. */
  method ReceiveReply(f: Format, master: SymmetricKey, counts: (nat, nat), expected: Bytes -> Option<Tag>, onion: Onion)
    returns (r: Result<Bytes, Error>)
    ensures ProcessedReply(f, master, counts, onion.OnWire(), expected)
         == if r.Success? then Success(Processed.Sender(r.value)) else Failure(r.error)
  {
    hide Format.AeWrapped, Format.AeDecrypted, HeaderBytes, Flatten;
    var (nForward, nBackward) := counts;
    var identifier := onion.PackedHeader();
    var bwd := onion.backward;
    if nBackward == 0 {
      return Failure(Panic);
    }
    for i := nBackward - 1 downto 0
      invariant Rewrapped(f, master, i, bwd) == Rewrapped(f, master, nBackward - 1, onion.backward)
    {
      bwd := AeWrap(f, f.primitives.derive(KeyRole.Backward(i % U32_LIMIT), master), bwd);
    }
    if nForward % U32_LIMIT == 0 {
      return Failure(Panic);
    }
    var keyForward := f.primitives.derive(KeyRole.Forward(nForward % U32_LIMIT - 1), master);
    var tag := expected(identifier);
    if tag.None? {
      return Failure(UnexpectedReply);
    }
    var payload := AeDec(f, keyForward, tag.value, bwd);
    if payload.None? {
      return Failure(AeError);
    }
    return Success(payload.value);
  }

  datatype ProcessedOnion =
    | NextHop(address: Address, onion: Onion)
    | AtReceiver(payload: Bytes)
    | AtSender(payload: Bytes)
  {
    function OnWire(): Processed {
      match this
      case NextHop(address, onion) => Processed.Hop(address, onion.OnWire())
      case AtReceiver(payload) => Processed.Receiver(payload)
      case AtSender(payload) => Processed.Sender(payload)
    }
  }

  method ProcOnion(f: Format, sk: PrivateKey, expected: Bytes -> Option<Tag>, onion: Onion)
    returns (r: Result<ProcessedOnion, Error>)
    ensures r.Success? ==> Process(f, sk, expected, onion.OnWire()) == Success(r.value.OnWire())
    ensures r.Failure? ==> Process(f, sk, expected, onion.OnWire()) == Failure(r.error)
  {
    hide Format.Peeled, SplitReplyHeader, ProcessedReply;
    var unwrapped := Unwrap(f, sk, onion);
    if unwrapped.Failure? {
      return Failure(unwrapped.error);
    }
    var (masterKey, meta, nextOnion) := unwrapped.value;
    match meta.role {
      case Hop =>
        return Success(NextHop(meta.next, nextOnion));
      case Receiver =>
        var split := SplitReplyHeader(nextOnion.forward);
        if split.Failure? {
          return Failure(split.error);
        }
        return Success(AtReceiver(split.value.1));
      case Sender =>
        var reply := ReceiveReply(f, masterKey, UnpackCounts(meta.next), expected, onion);
        if reply.Failure? {
          return Failure(reply.error);
        }
        return Success(AtSender(reply.value));
    }
  }
}
