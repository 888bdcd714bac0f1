/** EROR onions byte by byte: what every node reads, checks, derives and sends off, in the terms of the primitives and in
    numbers (src/lib.rs). The other modules say that sender and nodes agree with each other; this one says on what. */
module ErorWire {
  import opened Wrappers
  import opened Octets
  import opened Bincode
  import opened ErorPrimitives
  import opened ErorOnion
  import opened ErorLayers
  import opened ErorForming
  import opened ErorInversion
  import opened ErorProtocol
  import opened ErorRun

  // ---------- one node, for every onion ----------

  /** `inner` is `w` without a layer: blocks, forward part and backward part, each under its own nonce. */
  ghost predicate Stripped(f: Format, key: SymmetricKey, w: Wire, inner: Wire)
    requires w.header != []
  {
    var (p, n) := (f.primitives, |w.header|);
    var sym := p.derive(KeyRole.SymEnc, key);
    && |inner.header| == n
    && (forall j {:trigger inner.header[j]} :: 0 <= j < n - 1 ==>
          inner.header[j] == if j < f.maxPathLength - 1 then p.symDec(sym, j + 2, w.header[j + 1]) else w.header[j])
    && inner.header[n - 1] == p.symDec(sym, f.maxPathLength + 1, Zeros(116))
    && inner.forward == p.symDec(sym, 0xAAFFAAFF, w.forward)
    && inner.backward.tag + inner.backward.data == p.symDec(sym, 0xFFAAFFAA, w.backward.tag + w.backward.data)
  }

  lemma StripsOneLayer(f: Format, key: SymmetricKey, w: Wire)
    requires 0 < f.maxPathLength <= |w.header|
    ensures Stripped(f, key, w, f.PeeledWith(key, w))
  {
    var buffer := f.primitives.symDec(f.SymKey(key), NONCE_BWD, w.backward.tag + w.backward.data);
    assert buffer[..16] + buffer[16..] == buffer;
    assert Zeros(SINGLE_HEADER_LENGTH) == Zeros(116);
    var n := |w.header|;
    assert f.PeeledHeader(key, w.header)[n - 1] == f.AppendedBlock(key);
  }

  lemma BlockFields(block: Bytes)
    ensures UnpackBlock(block)
         == if |block| < 24 || |block| - 24 < FromLe(block[16..24]) then None
            else Some(HeaderBlock(block[..16], block[24..24 + FromLe(block[16..24])]))
  {
    hide FromLe;
    if |block| >= 24 {
      assert block[16..][..8] == block[16..24] && block[16..][8..] == block[24..];
      if |block| - 24 >= FromLe(block[16..24]) {
        assert block[24..][..FromLe(block[16..24])] == block[24..24 + FromLe(block[16..24])];
      }
    }
  }

  ghost predicate IsRole(role: Role, number: nat) {
    && (role == Role.Sender <==> number == 0)
    && (role == Role.Receiver <==> number == 1)
    && (role == Role.Hop <==> number == 2)
  }

  /** `unwrap` on any onion. The first block is a tag of 16 bytes, a length of 8 and a ciphertext; its plain text is a key of
      16 bytes, a role number of 4 and an address of 32. */
  lemma UnwrapOutcome(f: Format, sk: PrivateKey, w: Wire)
    ensures var (p, r) := (f.primitives, f.Peeled(sk, w));
            if w.header == [] then r == Failure(Panic)
            else
              var block := w.header[0];
              if |block| < 24 || |block| - 24 < FromLe(block[16..24]) then r == Failure(SerializationError)
              else
                var data := block[24..24 + FromLe(block[16..24])];
                var plain := p.pkDec(sk, data);
                if |plain| < 52 || FromLe(plain[16..20]) > 2 then r == Failure(MacMismatch)
                else
                  var key := plain[..16];
                  if p.tag(p.derive(KeyRole.Mac, key), MacInput(data, w.header[1..], w.forward)) != block[..16]
                  then r == Failure(MacMismatch)
                  else if f.maxPathLength == 0 || |w.header| < f.maxPathLength then r == Failure(Panic)
                  else && r.Success?
                       && r.value.0 == key
                       && IsRole(r.value.1.role, FromLe(plain[16..20]))
                       && r.value.1.next == plain[20..52]
                       && Stripped(f, key, w, r.value.2)
  {
    hide MacInput, FromLe, UnpackBlock, Stripped, Format.PeeledWith;
    if w.header != [] {
      BlockFields(w.header[0]);
      if 0 < f.maxPathLength <= |w.header| {
        forall key: SymmetricKey
          ensures Stripped(f, key, w, f.PeeledWith(key, w))
        {
          StripsOneLayer(f, key, w);
        }
      }
    }
  }

  /** `reply_onion` on any onion. */
  lemma ReplyOutcome(f: Format, sk: PrivateKey, w: Wire, payload: Bytes)
    ensures var (p, r) := (f.primitives, Replied(f, sk, w, payload));
            match f.Peeled(sk, w)
            case Failure(e) => r == Failure(e)
            case Success((key, meta, inner)) =>
              if meta.role != Role.Receiver then r == Failure(NotTheReceiver)
              else if ReadVecs(inner.forward).None? || ReadVec(ReadVecs(inner.forward).value.1).None?
              then r == Failure(SerializationError)
              else && r.Success?
                   && r.value.0.header == ReadVecs(inner.forward).value.0
                   && r.value.0.forward == p.prng(p.derive(KeyRole.Prng, key), |w.forward|)
                   && r.value.0.backward.data == p.symEnc(p.derive(KeyRole.SymEnc, key), 0xFAFAFAFA, payload)
                   && r.value.0.backward.tag
                      == p.xorTag(p.tag(p.derive(KeyRole.Mac, key), r.value.0.backward.data), inner.backward.tag)
                   && r.value.1 == meta.next
  {
    hide Format.Peeled, ReadVecs, ReadVec;
    if Replied(f, sk, w, payload).Success? {
      var (_, _, inner) := f.Peeled(sk, w).value;
      var header := SplitReplyHeader(inner.forward).value.0;
      assert HeaderBytes(header) == ReadVecs(inner.forward).value.0;
    }
  }

  /** Each wrap that the sender puts back on: the key of hop `k - 1`, from the last hop to the first. */
  lemma RewrapStep(f: Format, master: SymmetricKey, k: nat, bwd: BackwardPart)
    requires 0 < k <= U32_LIMIT
    ensures var p := f.primitives;
            var key := p.derive(KeyRole.Backward(k - 1), master);
            var buffer := p.symEnc(p.derive(KeyRole.SymEnc, key), 0xFFAAFFAA, bwd.tag + bwd.data);
            Rewrapped(f, master, k, bwd) == Rewrapped(f, master, k - 1, BackwardPart(buffer[16..], buffer[..16]))
    ensures Rewrapped(f, master, 0, bwd) == bwd
  {
  }

  /** `proc_onion` on any onion. */
  lemma ProcOutcome(f: Format, sk: PrivateKey, expected: Bytes -> Option<Tag>, w: Wire)
    ensures var (p, r) := (f.primitives, Process(f, sk, expected, w));
            match f.Peeled(sk, w)
            case Failure(e) => r == Failure(e)
            case Success((key, meta, inner)) =>
              match meta.role
              case Hop => r == Success(Processed.Hop(meta.next, inner))
              case Receiver =>
                (if ReadVecs(inner.forward).None? || ReadVec(ReadVecs(inner.forward).value.1).None?
                 then r == Failure(SerializationError)
                 else r == Success(Processed.Receiver(ReadVec(ReadVecs(inner.forward).value.1).value.0)))
              case Sender =>
                var (nf, nb) := (FromLe(meta.next[..8]), FromLe(meta.next[8..16]));
                if nb == 0 || nf % U32_LIMIT == 0 then r == Failure(Panic)
                else
                  match expected(Flatten(w.header))
                  case None => r == Failure(UnexpectedReply)
                  case Some(tag) =>
                    var part := Rewrapped(f, key, nb - 1, w.backward);
                    var receiver := p.derive(KeyRole.Forward(nf % U32_LIMIT - 1), key);
                    if part.tag == p.xorTag(p.tag(p.derive(KeyRole.Mac, receiver), part.data), tag)
                    then r == Success(Processed.Sender(p.symDec(p.derive(KeyRole.SymEnc, receiver), 0xFAFAFAFA, part.data)))
                    else r == Failure(AeError)
  {
    hide Format.Peeled, ReadVecs, ReadVec, Flatten, FromLe, Rewrapped;
  }

  // ---------- lengths and positions ----------

  /** `b` is a count, and then each block of 116 bytes behind its length. */
  ghost predicate IsVecs(b: Bytes, blocks: seq<Bytes>) {
    && |b| == 8 + 124 * |blocks|
    && b[..8] == U64(|blocks|)
    && forall i {:trigger blocks[i]} :: 0 <= i < |blocks| ==>
         b[8 + 124 * i..16 + 124 * i] == U64(116) && b[16 + 124 * i..132 + 124 * i] == blocks[i]
  }

  ghost predicate Blocks(blocks: seq<Bytes>) {
    forall i :: 0 <= i < |blocks| ==> |blocks[i]| == 116
  }

  lemma {:induction false} PackAllLayout(blocks: seq<Bytes>, i: nat)
    requires Blocks(blocks)
    ensures |PackAll(blocks)| == 124 * |blocks|
    ensures i < |blocks| ==> PackAll(blocks)[124 * i..8 + 124 * i] == U64(116)
    ensures i < |blocks| ==> PackAll(blocks)[8 + 124 * i..124 + 124 * i] == blocks[i]
  {
    hide U64;
    if blocks != [] {
      var (first, rest) := (PackVec(blocks[0]), PackAll(blocks[1..]));
      var b := PackAll(blocks);
      assert b == first + rest && |first| == 124;
      if i == 0 {
        PackAllLayout(blocks[1..], 0);
        assert b[..8] == U64(116) && b[8..124] == blocks[0];
      } else {
        PackAllLayout(blocks[1..], i - 1);
        if i < |blocks| {
          assert b[124 * i..8 + 124 * i] == rest[124 * (i - 1)..8 + 124 * (i - 1)];
          assert b[8 + 124 * i..124 + 124 * i] == rest[8 + 124 * (i - 1)..124 + 124 * (i - 1)];
        }
      }
    }
  }

  lemma VecsLayout(blocks: seq<Bytes>)
    requires Blocks(blocks)
    ensures IsVecs(PackVecs(blocks), blocks)
  {
    hide U64, PackAll;
    var (b, all) := (PackVecs(blocks), PackAll(blocks));
    PackAllLayout(blocks, 0);
    forall i | 0 <= i < |blocks|
      ensures b[8 + 124 * i..16 + 124 * i] == U64(116) && b[16 + 124 * i..132 + 124 * i] == blocks[i]
    {
      PackAllLayout(blocks, i);
      assert b[8 + 124 * i..16 + 124 * i] == all[124 * i..8 + 124 * i];
      assert b[16 + 124 * i..132 + 124 * i] == all[8 + 124 * i..124 + 124 * i];
    }
  }

  /** A serialized onion: header, forward part, backward data, each behind its length, and the backward tag. */
  lemma OnionLayout(w: Wire)
    requires Blocks(w.header)
    ensures var (b, n) := (SerializeOnion(w), 8 + 124 * |w.header|);
            && n <= |b|
            && IsVecs(b[..n], w.header)
            && b[n..] == U64(|w.forward|) + w.forward + U64(|w.backward.data|) + w.backward.data + w.backward.tag
  {
    hide U64, PackVecs;
    VecsLayout(w.header);
    assert SerializeOnion(w)[..|PackVecs(w.header)|] == PackVecs(w.header);
  }

  /** What a tag covers: the ciphertext, the blocks after the first and the forward part, each behind its length. */
  lemma MacInputLayout(data: Bytes, tail: seq<Bytes>, forward: Bytes)
    requires Blocks(tail)
    ensures var (b, m) := (MacInput(data, tail, forward), 8 + |data|);
            var n := m + 8 + 124 * |tail|;
            && n <= |b|
            && b[..m] == U64(|data|) + data
            && IsVecs(b[m..n], tail)
            && b[n..] == U64(|forward|) + forward
  {
    hide U64, PackVecs;
    VecsLayout(tail);
    var b := MacInput(data, tail, forward);
    assert b[8 + |data|..8 + |data| + |PackVecs(tail)|] == PackVecs(tail);
  }

  /** The forward payload: the header of the reply, and then the payload behind its length. */
  lemma PayloadLayout(header: seq<Bytes>, payload: Bytes)
    requires Blocks(header)
    ensures var (b, n) := (PackPayload(header, payload), 8 + 124 * |header|);
            && n <= |b|
            && IsVecs(b[..n], header)
            && b[n..] == U64(|payload|) + payload
  {
    hide U64, PackVecs;
    VecsLayout(header);
    assert PackPayload(header, payload)[..|PackVecs(header)|] == PackVecs(header);
  }

  // ---------- the keys of an exchange ----------

  /** Where the exchange is after `i` steps. */
  ghost function After(w: World, x: Exchange, i: nat): State
    requires Formable(w.format, x)
  {
    FormOutcome(w.format, x);
    Run(w, Start(w.format, x), i).0
  }

  /** The onion is at `at`, and the node there finds this key and these instructions. */
  ghost predicate Learns(w: World, s: State, at: Address, key: SymmetricKey, meta: Meta) {
    && s.InFlight? && s.at == at && at in w.keys
    && w.format.Peeled(w.keys[at], s.onion).Success?
    && w.format.Peeled(w.keys[at], s.onion).value.0 == key
    && w.format.Peeled(w.keys[at], s.onion).value.1 == meta
  }

  lemma HopOpens(w: World, plan: Plan, hops: seq<Address>, meta: Meta, k: nat, bwd: BackwardPart)
    requires Routes(w, plan, hops, meta) && k < |hops|
    ensures Learns(w, InFlight(hops[k], w.format.LayerWire(plan, k, bwd)), hops[k], plan.keys[k], MetaAt(hops, meta, k))
  {
    hide Format.Peeled, Format.Layer, Format.AeUnwrapped, OpensAt, MetaAt;
    assert RouteAt(w, plan, hops, meta, k);
    if k < |hops| - 1 {
      LayerInversion(w.format, plan, k, w.keys[hops[k]], MetaAt(hops, meta, k), bwd);
    } else {
      LastLayerOpens(w.format, plan, w.keys[hops[k]], MetaAt(hops, meta, k), bwd);
    }
  }

  /** Forward hop `k` finds the master key's derivative for the role Forward(k), and where to go next. */
  lemma ForwardHopLearns(w: World, x: Exchange, k: nat)
    requires Admissible(w, x) && k < |x.hopsForward|
    ensures Learns(w, After(w, x, k), x.hopsForward[k],
                   w.format.primitives.derive(KeyRole.Forward(k), x.master),
                   if k + 1 < |x.hopsForward| then Meta(Role.Hop, x.hopsForward[k + 1])
                   else Meta(Role.Receiver, x.hopsBackward[0]))
  {
    hide Step, Run, Format.LayerWire, Routes, Learns, DrawsOpen, Form, PlanBackward, AeUnwraps, CipherAt, ForwardPayload,
         LastForward;
    WayForth(w, x, k);
    ForwardRoutes(w, x);
    HopOpens(w, PlanForward(w.format, x), x.hopsForward, MetaForward(x), k,
             AeUnwraps(w.format, ForwardKeys(w.format, x.master, |x.hopsForward|), k, GarbageBackward(x)));
  }

  function BackwardKey(f: Format, x: Exchange, k: nat): SymmetricKey {
    if k + 1 < |x.hopsBackward| then f.primitives.derive(KeyRole.Backward(k), x.master) else x.master
  }

  function BackwardMeta(x: Exchange, k: nat): Meta {
    if k + 1 < |x.hopsBackward| then Meta(Role.Hop, x.hopsBackward[k + 1])
    else Meta(Role.Sender, U64(|x.hopsForward|) + U64(|x.hopsBackward|) + Zeros(16))
  }

  /** Backward hop `k` finds the derivative for Backward(k); the last one, the sender, finds the master key and the lengths
      of both paths. */
  lemma BackwardHopLearns(w: World, x: Exchange, k: nat)
    requires Admissible(w, x) && k < |x.hopsBackward|
    ensures Learns(w, After(w, x, |x.hopsForward| + k), x.hopsBackward[k], BackwardKey(w.format, x, k), BackwardMeta(x, k))
  {
    hide Step, Run, Format.LayerWire, Routes, Learns, DrawsOpen, Form, PlanForward, AeUnwraps, CipherAt, PrngPart,
         LastForward, Answer;
    OnTheWayBack(w, x, k);
    BackwardRoutes(w, x);
    HopOpens(w, PlanBackward(w.format, x), x.hopsBackward, MetaBackward(|x.hopsForward|, |x.hopsBackward|), k,
             AeUnwraps(w.format, BackwardKeys(w.format, x.master, |x.hopsBackward|), k, Answer(w, x)));
  }

  /** Deriving two different roles' keys from this key never gives the same key, unless the discriminants are the same. */
  ghost predicate CollisionFree(p: Primitives, master: SymmetricKey) {
    forall a: KeyRole, b: KeyRole {:trigger p.derive(a, master), p.derive(b, master)} ::
      a.Valid() && b.Valid() && p.derive(a, master) == p.derive(b, master) ==> a.Discriminant() == b.Discriminant()
  }

  function RoleAfter(x: Exchange, i: nat): KeyRole {
    if i < |x.hopsForward| then KeyRole.Forward(i) else KeyRole.Backward(i - |x.hopsForward|)
  }

  /** Then no two hops of an exchange, on either path, get the same key. */
  lemma HopKeysDiffer(w: World, x: Exchange, i: nat, j: nat)
    requires Admissible(w, x) && CollisionFree(w.format.primitives, x.master)
    requires i < j < |x.hopsForward| + |x.hopsBackward| - 1
    ensures var s := After(w, x, i);
            var t := After(w, x, j);
            && s.InFlight? && t.InFlight? && s.at in w.keys && t.at in w.keys
            && var (first, second) := (w.format.Peeled(w.keys[s.at], s.onion), w.format.Peeled(w.keys[t.at], t.onion));
            first.Success? && second.Success? && first.value.0 != second.value.0
  {
    hide Run, Form, Format.Peeled, DrawsOpen, Consistent, KeyRole.Discriminant;
    LearnsAfter(w, x, i);
    LearnsAfter(w, x, j);
    var (a, b) := (RoleAfter(x, i), RoleAfter(x, j));
    var p := w.format.primitives;
    if p.derive(a, x.master) == p.derive(b, x.master) {
      DiscriminantInjective(a, b);
    }
  }

  lemma LearnsAfter(w: World, x: Exchange, i: nat)
    requires Admissible(w, x) && i < |x.hopsForward| + |x.hopsBackward| - 1
    ensures var s := After(w, x, i);
            && s.InFlight? && s.at in w.keys
            && w.format.Peeled(w.keys[s.at], s.onion).Success?
            && w.format.Peeled(w.keys[s.at], s.onion).value.0 == w.format.primitives.derive(RoleAfter(x, i), x.master)
  {
    hide Run, Form, Format.Peeled, DrawsOpen, Consistent;
    if i < |x.hopsForward| {
      ForwardHopLearns(w, x, i);
    } else {
      BackwardHopLearns(w, x, i - |x.hopsForward|);
    }
  }

  // ---------- what travels ----------

  /** A hop's block: the tag under its key, the ciphertext's length and the ciphertext. */
  ghost predicate StartsWith(f: Format, onion: Wire, key: SymmetricKey, cipher: Bytes) {
    && onion.header != []
    && onion.header[0]
       == f.primitives.tag(f.primitives.derive(KeyRole.Mac, key), MacInput(cipher, onion.header[1..], onion.forward))
          + U64(92) + cipher
  }

  lemma LayerFront(f: Format, plan: Plan, i: nat, bwd: BackwardPart)
    requires i < |plan.keys| == |plan.ciphers| && |plan.keys| <= f.maxPathLength
    requires |plan.ciphers[i]| == 92
    ensures StartsWith(f, f.LayerWire(plan, i, bwd), plan.keys[i], plan.ciphers[i])
  {
    hide MacInput, Format.EncryptedBlocks, Format.LastTail, U64;
    var w := f.LayerWire(plan, i, bwd);
    if i == |plan.keys| - 1 {
      assert w.header[1..] == f.LastTail(plan);
    } else {
      LayerStep(f, plan, i);
      var blocks := f.Layer(plan, i + 1).0[..f.maxPathLength - 1];
      assert w.header[1..] == f.EncryptedBlocks(plan.keys[i], blocks);
    }
  }

  lemma RoleBytes(role: Role)
    ensures PackRole(role) == match role
                              case Sender => [0, 0, 0, 0]
                              case Receiver => [1, 0, 0, 0]
                              case Hop => [2, 0, 0, 0]
  {
    U32Bytes(RoleNumber(role));
  }

  /** Key, role and next address of forward hop `k`, encrypted with the draw for this hop under its public key. */
  ghost function ForwardCipher(f: Format, x: Exchange, k: nat): Bytes
    requires Formable(f, x) && k < |x.hopsForward|
  {
    var key := f.primitives.derive(KeyRole.Forward(k), x.master);
    var instructions := if k + 1 < |x.hopsForward| then [2, 0, 0, 0] + x.hopsForward[k + 1]
                        else [1, 0, 0, 0] + x.hopsBackward[0];
    f.primitives.pkEnc(f.pki[x.hopsForward[k]], x.drawsForward.pke(k), key + instructions)
  }

  ghost function BackwardCipher(f: Format, x: Exchange, k: nat): Bytes
    requires Formable(f, x) && k < |x.hopsBackward|
  {
    var instructions := if k + 1 < |x.hopsBackward| then [2, 0, 0, 0] + x.hopsBackward[k + 1]
                        else [0, 0, 0, 0] + (U64(|x.hopsForward|) + U64(|x.hopsBackward|) + Zeros(16));
    f.primitives.pkEnc(f.pki[x.hopsBackward[k]], x.drawsBackward.pke(k), BackwardKey(f, x, k) + instructions)
  }

  lemma CiphersAreThose(f: Format, x: Exchange, k: nat)
    requires Formable(f, x)
    ensures k < |x.hopsForward| ==> PlanForward(f, x).ciphers[k] == ForwardCipher(f, x, k)
    ensures k < |x.hopsBackward| ==> PlanBackward(f, x).ciphers[k] == BackwardCipher(f, x, k)
  {
    hide LastForward, ForwardPayload, PrngPart, PackRole, U64;
    if k < |x.hopsForward| {
      var meta := MetaAt(x.hopsForward, MetaForward(x), k);
      var key := ForwardKeys(f, x.master, |x.hopsForward|)[k];
      RoleBytes(meta.role);
      assert PackKeyMeta(key, meta) == key + (PackRole(meta.role) + meta.next);
    }
    if k < |x.hopsBackward| {
      var meta := MetaAt(x.hopsBackward, MetaBackward(|x.hopsForward|, |x.hopsBackward|), k);
      var key := BackwardKeys(f, x.master, |x.hopsBackward|)[k];
      RoleBytes(meta.role);
      assert PackKeyMeta(key, meta) == key + (PackRole(meta.role) + meta.next);
    }
  }

  /** The first block at forward hop `k`. */
  lemma ForwardBlock(w: World, x: Exchange, k: nat)
    requires Admissible(w, x) && k < |x.hopsForward|
    ensures After(w, x, k).InFlight?
    ensures StartsWith(w.format, After(w, x, k).onion, w.format.primitives.derive(KeyRole.Forward(k), x.master),
                       ForwardCipher(w.format, x, k))
  {
    hide Step, Run, Format.LayerWire, StartsWith, DrawsOpen, Form, PlanBackward, AeUnwraps, ForwardPayload, LastForward,
         ForwardCipher, BackwardCipher;
    var f := w.format;
    WayForth(w, x, k);
    LayerFront(f, PlanForward(f, x), k, AeUnwraps(f, ForwardKeys(f, x.master, |x.hopsForward|), k, GarbageBackward(x)));
    CiphersAreThose(f, x, k);
  }

  /** The first block at backward hop `k`. */
  lemma BackwardBlock(w: World, x: Exchange, k: nat)
    requires Admissible(w, x) && k < |x.hopsBackward|
    ensures After(w, x, |x.hopsForward| + k).InFlight?
    ensures StartsWith(w.format, After(w, x, |x.hopsForward| + k).onion, BackwardKey(w.format, x, k),
                       BackwardCipher(w.format, x, k))
  {
    hide Step, Run, Format.LayerWire, StartsWith, DrawsOpen, Form, PlanForward, AeUnwraps, PrngPart, LastForward, Answer,
         ForwardCipher, BackwardCipher;
    var f := w.format;
    OnTheWayBack(w, x, k);
    LayerFront(f, PlanBackward(f, x), k,
               AeUnwraps(f, BackwardKeys(f, x.master, |x.hopsBackward|), k, Answer(w, x)));
    CiphersAreThose(f, x, k);
  }

  /** The first onion's backward part is drawn at random, as long as the payload. */
  lemma GarbageOnTheWire(w: World, x: Exchange)
    requires Admissible(w, x)
    ensures After(w, x, 0).InFlight?
    ensures |After(w, x, 0).onion.backward.data| == |x.payload|
    ensures forall i: nat :: i < |x.payload| ==> After(w, x, 0).onion.backward.data[i] == x.drawsForward.bytes(i)
    ensures After(w, x, 0).onion.backward.tag == x.drawsForward.tag
  {
    hide Step, Run, DrawsOpen, Form, PlanForward, PlanBackward, Format.Layer;
    WayForth(w, x, 0);
  }

  lemma LastFilling(f: Format, plan: Plan, j: nat)
    requires 0 < |plan.keys| == |plan.ciphers| && |plan.keys| <= f.maxPathLength
    ensures 1 <= j <= f.maxPathLength - |plan.keys| ==>
              f.Layer(plan, |plan.keys| - 1).0[j] == plan.filling(j)
  {
    hide PackBlock, Format.MacKey;
    LastLayer(f, plan);
  }

  /** At the end of each path, the blocks that no hop's garbage takes are the sender's draws. */
  lemma FillingOnTheWire(w: World, x: Exchange, j: nat)
    requires Admissible(w, x) && 1 <= j <= w.format.maxPathLength - |x.hopsForward|
    ensures After(w, x, |x.hopsForward| - 1).InFlight?
    ensures |After(w, x, |x.hopsForward| - 1).onion.header| == w.format.maxPathLength
    ensures After(w, x, |x.hopsForward| - 1).onion.header[j] == x.drawsForward.filling(j)
  {
    hide Step, Run, DrawsOpen, Form, AeUnwraps, LastForward, CipherAt, ForwardPayload, Format.Layer, PlanBackward;
    WayForth(w, x, |x.hopsForward| - 1);
    LastFilling(w.format, PlanForward(w.format, x), j);
  }

  lemma BackwardFillingOnTheWire(w: World, x: Exchange, j: nat)
    requires Admissible(w, x) && 1 <= j <= w.format.maxPathLength - |x.hopsBackward|
    ensures After(w, x, |x.hopsForward| + |x.hopsBackward| - 1).InFlight?
    ensures |After(w, x, |x.hopsForward| + |x.hopsBackward| - 1).onion.header| == w.format.maxPathLength
    ensures After(w, x, |x.hopsForward| + |x.hopsBackward| - 1).onion.header[j] == x.drawsBackward.filling(j)
  {
    hide Step, Run, DrawsOpen, Form, AeUnwraps, LastForward, CipherAt, PrngPart, Format.Layer, PlanForward, Answer;
    OnTheWayBack(w, x, |x.hopsBackward| - 1);
    LastFilling(w.format, PlanBackward(w.format, x), j);
  }

  /** The onion that the receiver sends off: its forward part is PRNG output under the receiver's key, as long as all onions
      of this exchange, and its backward part is the authenticated encryption of the reply. */
  lemma ReplyOnTheWire(w: World, x: Exchange)
    requires Admissible(w, x)
    ensures var (p, nf) := (w.format.primitives, |x.hopsForward|);
            var received := After(w, x, nf - 1);
            var sent := After(w, x, nf);
            var key := p.derive(KeyRole.Forward(nf - 1), x.master);
            && received.InFlight? && sent.InFlight? && sent.at == x.hopsBackward[0]
            && sent.onion.forward == p.prng(p.derive(KeyRole.Prng, key), 16 + 124 * w.format.maxPathLength + |x.payload|)
            && sent.onion.backward.data == p.symEnc(p.derive(KeyRole.SymEnc, key), 0xFAFAFAFA, w.replies(received.onion))
  {
    hide Step, Run, DrawsOpen, Form, AeUnwraps, LastForward, CipherAt, ForwardPayload, Format.Layer, ReceiverTag,
         PlanForward, PlanBackward;
    WayForth(w, x, |x.hopsForward| - 1);
    ToTheFirstBackwardHop(w, x);
    ForwardParts(w, x);
  }
}
