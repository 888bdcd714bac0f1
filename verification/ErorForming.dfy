/** What `onionize`, `form_onion`, `reply_onion` and `proc_onion` return (src/lib.rs), on the bytes of an
    onion. Every random draw is an argument. */
module ErorForming {
  import opened Wrappers
  import opened Octets
  import opened Bincode
  import opened ErorPrimitives
  import opened ErorOnion
  import opened ErorLayers

  /** The draws of one call of `onionize`: public-key randomness by hop, header filling by position, and the
      garbage backward part. */
  datatype Draws = Draws(pke: nat -> Scalar, filling: nat -> Block, bytes: nat -> u8, tag: Tag)

  datatype Payload = Forward(data: Bytes) | Backward(data: Bytes)

  /** What identifies a reply and the tag it must authenticate, with the onion that the receiver will see. */
  datatype Expected = Expected(identifier: Bytes, onion: Wire, tag: Tag)

  datatype Processed = Hop(next: Address, onion: Wire) | Receiver(payload: Bytes) | Sender(payload: Bytes)

  // ---------- onionize ----------

  function MetaAt(hops: seq<Address>, meta: Meta, i: nat): Meta {
    if i + 1 < |hops| then Meta(Role.Hop, hops[i + 1]) else meta
  }

  ghost predicate Known(f: Format, hops: seq<Address>) {
    forall i :: 0 <= i < |hops| ==> hops[i] in f.pki
  }

  function CipherAt(f: Format, keys: seq<SymmetricKey>, hops: seq<Address>, meta: Meta, draws: Draws, i: nat): (c: Bytes)
    requires i < |keys| == |hops| && hops[i] in f.pki
    ensures |c| == 40 + KEY_META_LENGTH
  {
    f.primitives.pkEnc(f.pki[hops[i]], draws.pke(i), PackKeyMeta(keys[i], MetaAt(hops, meta, i)))
  }

  /** `data` with the forward layers of the first `k` keys taken off. */
  function Opened(f: Format, keys: seq<SymmetricKey>, k: nat, data: Bytes): (d: Bytes)
    requires k <= |keys|
    ensures |d| == |data|
  {
    if k == 0 then data else f.primitives.symDec(f.SymKey(keys[k - 1]), NONCE_FWD, Opened(f, keys, k - 1, data))
  }

  /** The backward part after the first `k` hops. */
  function AeUnwraps(f: Format, keys: seq<SymmetricKey>, k: nat, bwd: BackwardPart): BackwardPart
    requires k <= |keys|
  {
    if k == 0 then bwd else f.AeUnwrapped(keys[k - 1], AeUnwraps(f, keys, k - 1, bwd))
  }

  function LastForward(f: Format, keys: seq<SymmetricKey>, payload: Payload): Bytes
    requires 0 < |keys|
  {
    match payload
    case Forward(data) => f.primitives.symEnc(f.SymKey(keys[|keys| - 1]), NONCE_FWD, data)
    case Backward(data) => Opened(f, keys, |keys| - 1, data)
  }

  function PlanOf(f: Format, keys: seq<SymmetricKey>, hops: seq<Address>, meta: Meta, payload: Payload, draws: Draws): (p: Plan)
    requires 0 < |keys| == |hops|
    requires forall i :: 0 <= i < |hops| ==> hops[i] in f.pki
    ensures p.keys == keys && |p.ciphers| == |keys|
    ensures forall i :: 0 <= i < |keys| ==> p.ciphers[i] == CipherAt(f, keys, hops, meta, draws, i)
  {
    Plan(keys, seq(|keys|, i requires 0 <= i < |keys| => CipherAt(f, keys, hops, meta, draws, i)),
         draws.filling, LastForward(f, keys, payload))
  }

  const NO_BACKWARD: BackwardPart := BackwardPart([], Zeros(16))

  function FirstBackward(payload: Payload, backwardLength: nat, draws: Draws): BackwardPart {
    if payload.Forward? then BackwardPart(Drawn(draws.bytes, backwardLength), draws.tag) else NO_BACKWARD
  }

  /** The backward part as it arrives at the last hop, and the tag that is left after the last hop. */
  function LastBackward(f: Format, keys: seq<SymmetricKey>, payload: Payload, backwardLength: nat, draws: Draws): (BackwardPart, Tag)
    requires 0 < |keys|
  {
    if payload.Forward? then
      var bwd := AeUnwraps(f, keys, |keys| - 1, FirstBackward(payload, backwardLength, draws));
      (bwd, f.AeUnwrapped(keys[|keys| - 1], bwd).tag)
    else (NO_BACKWARD, Zeros(16))
  }

  ghost function Onionized(f: Format, keys: seq<SymmetricKey>, hops: seq<Address>, meta: Meta, payload: Payload,
                           backwardLength: nat, draws: Draws): Result<(Wire, Wire, Tag), Error>
    requires 0 < |keys| == |hops|
  {
    if |hops| > f.maxPathLength then Failure(PathTooLong)
    else if !Known(f, hops) then Failure(KeyNotFound)
    else
      var plan := PlanOf(f, keys, hops, meta, payload, draws);
      var (bwd, tag) := LastBackward(f, keys, payload, backwardLength, draws);
      Success((f.LayerWire(plan, 0, FirstBackward(payload, backwardLength, draws)),
               f.LayerWire(plan, |keys| - 1, bwd),
               tag))
  }

  // ---------- form_onion ----------

  function ForwardKeys(f: Format, master: SymmetricKey, n: nat): (k: seq<SymmetricKey>)
    ensures |k| == n
  {
    seq<SymmetricKey>(n, i requires 0 <= i < n => f.primitives.derive(KeyRole.Forward(i), master))
  }

  /** The sender, last on the backward path, finds the master key itself in its own block. */
  function BackwardKeys(f: Format, master: SymmetricKey, n: nat): (k: seq<SymmetricKey>)
    requires 0 < n
    ensures |k| == n
  {
    seq<SymmetricKey>(n - 1, i requires 0 <= i < n - 1 => f.primitives.derive(KeyRole.Backward(i), master)) + [master]
  }

  function ReplyForward(f: Format, key: SymmetricKey, length: nat): (b: Bytes)
    ensures |b| == length
  {
    f.primitives.prng(f.primitives.derive(KeyRole.Prng, key), length)
  }

  function MetaBackward(nForward: nat, nBackward: nat): Meta {
    Meta(Role.Sender, PackCounts(nForward, nBackward))
  }

  /** The onion that the reply is going to be: formed by the sender, sent off by the receiver. */
  ghost function ReplyOnions(f: Format, master: SymmetricKey, draws: Draws, hopsForward: seq<Address>,
                             hopsBackward: seq<Address>, payloadLength: nat): Result<(Wire, Wire, Tag), Error>
    requires 0 < |hopsForward| && 0 < |hopsBackward|
  {
    var keysForward := ForwardKeys(f, master, |hopsForward|);
    var random := ReplyForward(f, keysForward[|hopsForward| - 1], f.TotalHeaderLength() + 8 + payloadLength);
    Onionized(f, BackwardKeys(f, master, |hopsBackward|), hopsBackward,
              MetaBackward(|hopsForward|, |hopsBackward|), Payload.Backward(random), 0, draws)
  }

  ghost function Formed(f: Format, master: SymmetricKey, drawsBackward: Draws, drawsForward: Draws,
                        hopsForward: seq<Address>, hopsBackward: seq<Address>, payload: Bytes): Result<(Wire, Expected), Error>
    requires 0 < |hopsForward| && 0 < |hopsBackward|
  {
    if |hopsForward| > f.maxPathLength || |hopsBackward| > f.maxPathLength then Failure(PathTooLong)
    else
      match ReplyOnions(f, master, drawsBackward, hopsForward, hopsBackward, |payload|)
      case Failure(e) => Failure(e)
      case Success((first, last, _)) =>
        match Onionized(f, ForwardKeys(f, master, |hopsForward|), hopsForward, Meta(Role.Receiver, hopsBackward[0]),
                        Payload.Forward(PackPayload(first.header, payload)), |payload|, drawsForward)
        case Failure(e) => Failure(e)
        case Success((onion, atReceiver, tag)) =>
          Success((onion, Expected(Flatten(last.header), atReceiver, tag)))
  }

  // ---------- reply_onion ----------

  function Replied(f: Format, sk: PrivateKey, w: Wire, payload: Bytes): Result<(Wire, Address), Error>
  {
    match f.Peeled(sk, w)
    case Failure(e) => Failure(e)
    case Success((key, meta, inner)) =>
      if meta.role != Role.Receiver then Failure(NotTheReceiver)
      else
        match SplitReplyHeader(inner.forward)
        case Failure(e) => Failure(e)
        case Success((header, _)) =>
          Success((Wire(HeaderBytes(header), ReplyForward(f, key, |w.forward|),
                        f.AeEncrypted(key, inner.backward.tag, payload)),
                   meta.next))
  }

  // ---------- proc_onion ----------

  /** The backward part with the wraps of hops `k - 1` down to 0 put back on, from the master key alone. */
  function Rewrapped(f: Format, master: SymmetricKey, k: nat, bwd: BackwardPart): BackwardPart
    decreases k
  {
    if k == 0 then bwd
    else Rewrapped(f, master, k - 1, f.AeWrapped(f.primitives.derive(KeyRole.Backward((k - 1) % U32_LIMIT), master), bwd))
  }

  function ProcessedReply(f: Format, master: SymmetricKey, counts: (nat, nat), w: Wire,
                          expected: Bytes -> Option<Tag>): Result<Processed, Error>
  {
    if counts.1 == 0 then Failure(Panic)
    else
      var bwd := Rewrapped(f, master, counts.1 - 1, w.backward);
      if counts.0 % U32_LIMIT == 0 then Failure(Panic)
      else
        var key := f.primitives.derive(KeyRole.Forward(counts.0 % U32_LIMIT - 1), master);
        match expected(Flatten(w.header))
        case None => Failure(UnexpectedReply)
        case Some(tag) =>
          match f.AeDecrypted(key, tag, bwd)
          case None => Failure(AeError)
          case Some(payload) => Success(Processed.Sender(payload))
  }

  function Process(f: Format, sk: PrivateKey, expected: Bytes -> Option<Tag>, w: Wire): Result<Processed, Error>
  {
    match f.Peeled(sk, w)
    case Failure(e) => Failure(e)
    case Success((key, meta, inner)) =>
      match meta.role
      case Hop => Success(Processed.Hop(meta.next, inner))
      case Receiver =>
        (match SplitReplyHeader(inner.forward)
         case Failure(e) => Failure(e)
         case Success((_, message)) => Success(Processed.Receiver(message)))
      case Sender => ProcessedReply(f, key, UnpackCounts(meta.next), w, expected)
  }
}
