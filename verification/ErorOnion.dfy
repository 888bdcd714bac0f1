/** Onions, their header blocks and their wire format (src/lib.rs). */
module ErorOnion {
  import opened Wrappers
  import opened Octets
  import opened Bincode
  import opened ErorPrimitives

  type Address = Bytes32

  datatype Error =
    | PathTooLong
    | KeyNotFound
    | MacMismatch
    | NotTheReceiver
    | UnexpectedReply
    | SerializationError
    | AeError
    | Panic // the source panics: an index out of range, or checked arithmetic that underflows

  // ---------- per-hop data ----------

  datatype Role = Sender | Receiver | Hop

  datatype Meta = Meta(role: Role, next: Address)

  function RoleNumber(role: Role): nat {
    match role
    case Sender => 0
    case Receiver => 1
    case Hop => 2
  }

  function RoleOf(n: nat): Option<Role> {
    if n == 0 then Some(Sender) else if n == 1 then Some(Receiver) else if n == 2 then Some(Hop) else None
  }

  function PackRole(role: Role): (b: Bytes)
    ensures |b| == 4
  {
    Le(RoleNumber(role), 4)
  }

  lemma RoleRoundTrip(role: Role)
    ensures RoleOf(FromLe(PackRole(role))) == Some(role)
  {
    Limits();
    LeRoundTrip(RoleNumber(role), 4);
  }

  const KEY_META_LENGTH: nat := 52

  function PackKeyMeta(key: SymmetricKey, meta: Meta): (b: Bytes)
    ensures |b| == KEY_META_LENGTH
  {
    key + PackRole(meta.role) + meta.next
  }

  function UnpackKeyMeta(b: Bytes): Option<(SymmetricKey, Meta)> {
    if |b| < KEY_META_LENGTH then None else
    match RoleOf(FromLe(b[16..20]))
    case None => None
    case Some(role) => Some((b[..16], Meta(role, b[20..52])))
  }

  lemma KeyMetaFields(key: Bytes16, role: Bytes, next: Bytes32)
    requires |role| == 4
    ensures (key + role + next)[..16] == key
    ensures (key + role + next)[16..20] == role
    ensures (key + role + next)[20..52] == next
  {
  }

  lemma KeyMetaRoundTrip(key: SymmetricKey, meta: Meta)
    ensures UnpackKeyMeta(PackKeyMeta(key, meta)) == Some((key, meta))
  {
    RoleRoundTrip(meta.role);
    KeyMetaFields(key, PackRole(meta.role), meta.next);
  }

  /** The sender's own hop carries the two path lengths in its address field. */
  function PackCounts(forward: nat, backward: nat): (a: Address) {
    U64(forward) + U64(backward) + Zeros(16)
  }

  function UnpackCounts(a: Address): (nat, nat) {
    (FromLe(a[..8]), FromLe(a[8..16]))
  }

  lemma CountsRoundTrip(forward: nat, backward: nat)
    requires forward < U64_LIMIT && backward < U64_LIMIT
    ensures UnpackCounts(PackCounts(forward, backward)) == (forward, backward)
  {
    var a := PackCounts(forward, backward);
    assert a[..8] == U64(forward) && a[8..16] == U64(backward);
    Limits();
    LeRoundTrip(forward, 8);
    LeRoundTrip(backward, 8);
  }

  // ---------- header blocks ----------

  datatype HeaderBlock = HeaderBlock(tag: Tag, data: Bytes)

  function PackBlock(block: HeaderBlock): (b: Bytes)
    ensures |b| == 24 + |block.data|
  {
    block.tag + PackVec(block.data)
  }

  function UnpackBlock(b: Bytes): Option<HeaderBlock> {
    if |b| < 16 then None else
    match ReadVec(b[16..])
    case None => None
    case Some((data, _)) => Some(HeaderBlock(b[..16], data))
  }

  /** Reading a block stops at the end of its data, whatever follows. */
  lemma UnpackBlockIgnoresRest(b: Bytes, extra: Bytes)
    requires UnpackBlock(b).Some?
    ensures UnpackBlock(b + extra) == UnpackBlock(b)
  {
    var c := b[16..];
    assert (b + extra)[..16] == b[..16] && (b + extra)[16..] == c + extra;
    assert (c + extra)[..8] == c[..8] && (c + extra)[8..] == c[8..] + extra;
    var len := FromLe(c[..8]);
    assert (c[8..] + extra)[..len] == c[8..][..len];
  }

  lemma BlockRoundTrip(block: HeaderBlock)
    requires |block.data| < U64_LIMIT
    ensures UnpackBlock(PackBlock(block)) == Some(block)
  {
    var b := PackBlock(block);
    assert b[..16] == block.tag && b[16..] == PackVec(block.data) + [];
    VecRoundTrip(block.data, []);
  }

  /** A header element is either opaque bytes or a parsed block; two are equal when their bytes are. */
  datatype Header = Raw(bytes: Bytes) | Parsed(block: HeaderBlock) {
    function IntoBytes(): Bytes {
      match this
      case Raw(v) => v
      case Parsed(block) => PackBlock(block)
    }

    function IntoParsed(): Option<HeaderBlock> {
      match this
      case Raw(v) => UnpackBlock(v)
      case Parsed(block) => UnpackBlock(PackBlock(block))
    }
  }

  function HeaderBytes(headers: seq<Header>): (b: seq<Bytes>)
    ensures |b| == |headers| && forall i :: 0 <= i < |headers| ==> b[i] == headers[i].IntoBytes()
  {
    seq(|headers|, i requires 0 <= i < |headers| => headers[i].IntoBytes())
  }

  // ---------- onions ----------

  datatype BackwardPart = BackwardPart(data: Bytes, tag: Tag)

  datatype Onion = Onion(header: seq<Header>, forward: Bytes, backward: BackwardPart) {
    /** What equality of onions compares and what is transmitted. */
    function OnWire(): Wire {
      Wire(HeaderBytes(header), forward, backward)
    }

    method PackedHeader() returns (result: Bytes)
      ensures result == Flatten(OnWire().header)
    {
      result := [];
      for i := 0 to |header|
        invariant result == Flatten(HeaderBytes(header)[..i])
      {
        FlattenSnoc(HeaderBytes(header)[..i], header[i].IntoBytes());
        assert HeaderBytes(header)[..i] + [header[i].IntoBytes()] == HeaderBytes(header)[..i + 1];
        result := result + header[i].IntoBytes();
      }
      assert HeaderBytes(header)[..|header|] == HeaderBytes(header);
    }
  }

  datatype Wire = Wire(header: seq<Bytes>, forward: Bytes, backward: BackwardPart)

  function Flatten(blocks: seq<Bytes>): Bytes {
    if blocks == [] then [] else blocks[0] + Flatten(blocks[1..])
  }

  lemma {:induction false} FlattenSnoc(blocks: seq<Bytes>, last: Bytes)
    ensures Flatten(blocks + [last]) == Flatten(blocks) + last
  {
    if blocks == [] {
      assert blocks + [last] == [last];
      assert Flatten([last]) == last + Flatten([]);
    } else {
      FlattenSnoc(blocks[1..], last);
      assert (blocks + [last])[1..] == blocks[1..] + [last];
    }
  }

  /** Headers of equally long blocks never share an identifier: the packed header determines the blocks. */
  lemma {:induction false} PackedHeaderInjective(a: seq<Bytes>, b: seq<Bytes>, block: nat)
    requires |a| == |b|
    requires forall i :: 0 <= i < |a| ==> |a[i]| == block && |b[i]| == block
    requires Flatten(a) == Flatten(b)
    ensures a == b
  {
    if a != [] {
      var x, y := Flatten(a), Flatten(b);
      assert x[..block] == a[0] && x[block..] == Flatten(a[1..]);
      assert y[..block] == b[0] && y[block..] == Flatten(b[1..]);
      PackedHeaderInjective(a[1..], b[1..], block);
      assert a == [a[0]] + a[1..] && b == [b[0]] + b[1..];
    }
  }

  // ---------- wire format of whole onions ----------

  function SerializeOnion(w: Wire): Bytes {
    PackVecs(w.header) + (PackVec(w.forward) + (PackVec(w.backward.data) + w.backward.tag))
  }

  function DeserializeOnion(b: Bytes): (r: Result<Onion, Error>)
    ensures r.Failure? ==> r.error == SerializationError
  {
    match ReadVecs(b)
    case None => Failure(SerializationError)
    case Some((header, b1)) =>
      match ReadVec(b1)
      case None => Failure(SerializationError)
      case Some((forward, b2)) =>
        match ReadVec(b2)
        case None => Failure(SerializationError)
        case Some((data, b3)) =>
          if |b3| < 16 then Failure(SerializationError) else
          Success(Onion(seq(|header|, i requires 0 <= i < |header| => Raw(header[i])), forward, BackwardPart(data, b3[..16])))
  }

  lemma OnionRoundTrip(w: Wire)
    requires Encodable(w.header) && |w.forward| < U64_LIMIT && |w.backward.data| < U64_LIMIT
    ensures DeserializeOnion(SerializeOnion(w)).Success?
    ensures DeserializeOnion(SerializeOnion(w)).value.OnWire() == w
  {
    var b3 := w.backward.tag;
    var b2 := PackVec(w.backward.data) + b3;
    var b1 := PackVec(w.forward) + b2;
    assert ReadVecs(PackVecs(w.header) + b1) == Some((w.header, b1)) by {
      VecsRoundTrip(w.header, b1);
    }
    assert ReadVec(b1) == Some((w.forward, b2)) by {
      VecRoundTrip(w.forward, b2);
    }
    assert ReadVec(b2) == Some((w.backward.data, b3)) by {
      VecRoundTrip(w.backward.data, b3);
    }
    assert b3[..16] == b3;
    var onion := DeserializeOnion(SerializeOnion(w)).value;
    assert HeaderBytes(onion.header) == w.header;
  }

  ghost predicate Transmittable(w: Wire) {
    Encodable(w.header) && |w.forward| < U64_LIMIT && |w.backward.data| < U64_LIMIT
  }

  lemma DeserializedIsThere(b: Bytes)
    requires DeserializeOnion(b).Success?
    ensures var w := DeserializeOnion(b).value.OnWire();
            Transmittable(w) && SerializeOnion(w) <= b
  {
    hide PackVec, PackVecs, ReadVec, ReadVecs, Encodable;
    var (header, b1) := ReadVecs(b).value;
    var (forward, b2) := ReadVec(b1).value;
    var (data, b3) := ReadVec(b2).value;
    ReadVecsInverts(b);
    ReadVecInverts(b1);
    ReadVecInverts(b2);
    var w := DeserializeOnion(b).value.OnWire();
    assert w.header == header;
    assert b3 == b3[..16] + b3[16..];
    assert b == PackVecs(header) + (PackVec(forward) + (PackVec(data) + (b3[..16] + b3[16..])));
    assert b == SerializeOnion(w) + b3[16..];
  }

  lemma PrefixIsDeserialized(w: Wire, b: Bytes)
    requires Transmittable(w) && SerializeOnion(w) <= b
    ensures DeserializeOnion(b).Success? && DeserializeOnion(b).value.OnWire() == w
  {
    hide PackVec, PackVecs, ReadVec, ReadVecs, Encodable;
    var rest := b[|SerializeOnion(w)|..];
    var b3 := w.backward.tag + rest;
    var b2 := PackVec(w.backward.data) + b3;
    var b1 := PackVec(w.forward) + b2;
    assert b == PackVecs(w.header) + b1;
    VecsRoundTrip(w.header, b1);
    VecRoundTrip(w.forward, b2);
    VecRoundTrip(w.backward.data, b3);
    assert b3[..16] == w.backward.tag;
    assert HeaderBytes(DeserializeOnion(b).value.header) == w.header;
  }

  /** Bytes are read as an onion exactly if they begin with that onion's serialization; what follows is not looked at. */
  lemma DeserializesExactly(b: Bytes, w: Wire)
    requires Transmittable(w)
    ensures DeserializeOnion(b).Success? && DeserializeOnion(b).value.OnWire() == w <==> SerializeOnion(w) <= b
  {
    hide SerializeOnion, DeserializeOnion, Transmittable, Onion.OnWire;
    if DeserializeOnion(b).Success? {
      DeserializedIsThere(b);
    }
    if SerializeOnion(w) <= b {
      PrefixIsDeserialized(w, b);
    }
  }

  // ---------- the bytes a MAC covers ----------

  function MacInput(data: Bytes, tail: seq<Bytes>, forward: Bytes): Bytes {
    PackVec(data) + (PackVecs(tail) + PackVec(forward))
  }

  lemma MacInputRead(data: Bytes, tail: seq<Bytes>, forward: Bytes)
    requires |data| < U64_LIMIT && Encodable(tail) && |forward| < U64_LIMIT
    ensures var b1 := PackVecs(tail) + PackVec(forward);
            && ReadVec(MacInput(data, tail, forward)) == Some((data, b1))
            && ReadVecs(b1) == Some((tail, PackVec(forward)))
            && ReadVec(PackVec(forward)) == Some((forward, []))
  {
    VecRoundTrip(data, PackVecs(tail) + PackVec(forward));
    VecsRoundTrip(tail, PackVec(forward));
    VecRoundTrip(forward, []);
    assert PackVec(forward) + [] == PackVec(forward);
  }

  /** Equal MAC inputs cover equal fields, wherever the boundaries between the fields lie. */
  lemma MacInputInjective(data: Bytes, tail: seq<Bytes>, forward: Bytes,
                          data': Bytes, tail': seq<Bytes>, forward': Bytes)
    requires |data| < U64_LIMIT && Encodable(tail) && |forward| < U64_LIMIT
    requires |data'| < U64_LIMIT && Encodable(tail') && |forward'| < U64_LIMIT
    requires MacInput(data, tail, forward) == MacInput(data', tail', forward')
    ensures data == data' && tail == tail' && forward == forward'
  {
    MacInputRead(data, tail, forward);
    MacInputRead(data', tail', forward');
  }

  // ---------- the reply header inside the forward payload ----------

  function PackPayload(header: seq<Bytes>, payload: Bytes): Bytes {
    PackVecs(header) + PackVec(payload)
  }

  function SplitReplyHeader(data: Bytes): (r: Result<(seq<Header>, Bytes), Error>)
    ensures r.Failure? ==> r.error == SerializationError
  {
    match ReadVecs(data)
    case None => Failure(SerializationError)
    case Some((header, rest)) =>
      match ReadVec(rest)
      case None => Failure(SerializationError)
      case Some((payload, _)) =>
        Success((seq(|header|, i requires 0 <= i < |header| => Raw(header[i])), payload))
  }

  lemma SplitRecoversPacked(header: seq<Bytes>, payload: Bytes)
    requires Encodable(header) && |payload| < U64_LIMIT
    ensures SplitReplyHeader(PackPayload(header, payload)).Success?
    ensures HeaderBytes(SplitReplyHeader(PackPayload(header, payload)).value.0) == header
    ensures SplitReplyHeader(PackPayload(header, payload)).value.1 == payload
  {
    VecsRoundTrip(header, PackVec(payload));
    VecRoundTrip(payload, []);
    assert PackVec(payload) + [] == PackVec(payload);
  }

  /** A forward payload is split into a header and a payload exactly if it begins with the two packed. */
  lemma SplitsExactly(data: Bytes, header: seq<Bytes>, payload: Bytes)
    requires Encodable(header) && |payload| < U64_LIMIT
    ensures SplitReplyHeader(data).Success? && HeaderBytes(SplitReplyHeader(data).value.0) == header
            && SplitReplyHeader(data).value.1 == payload
       <==> PackPayload(header, payload) <= data
  {
    hide PackVec, PackVecs, ReadVec, ReadVecs, Encodable;
    if SplitReplyHeader(data).Success? {
      var (blocks, rest) := ReadVecs(data).value;
      ReadVecsInverts(data);
      ReadVecInverts(rest);
      assert HeaderBytes(SplitReplyHeader(data).value.0) == blocks;
      var (message, end) := ReadVec(rest).value;
      assert data == PackPayload(blocks, message) + end;
    }
    if PackPayload(header, payload) <= data {
      var end := data[|PackPayload(header, payload)|..];
      assert data == PackVecs(header) + (PackVec(payload) + end);
      VecsRoundTrip(header, PackVec(payload) + end);
      VecRoundTrip(payload, end);
      assert HeaderBytes(SplitReplyHeader(data).value.0) == header;
    }
  }
}
