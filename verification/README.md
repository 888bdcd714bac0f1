# Onions that unwrap to what their sender computed

This project models two onion formats and proves that they work.

**EROR** (`src/lib.rs`, `src/primitives.rs`) is a repliable format. A sender forms one onion for a forward path and hides
in its payload the header of a second onion for the way back. Each node opens its own header block, strips a layer,
moves the header down by one block and appends a block of its own. The receiver answers with an onion that it
assembles without knowing the path, and every node on the way back processes it like any other.

**Sphinx** (`sphinx/src`) is the format that EROR is measured against. Headers are nested from the last hop outwards,
nodes pad with zeros before they decrypt, and the sender computes ahead what the padding turns into (the filler). Shared
secrets are blinded from hop to hop, payloads are encrypted in layers, and a reply block lets somebody else send on a
route of one's own.

In both, the sender predicts in one pass every byte that a chain of independent nodes will see. The main results say
that the prediction is right, and what follows for a whole run:

- `ErorRun.WholeRun`: the EROR exchange visits both paths in order, delivers the payload, brings the reply home and
  stops. `ErorRun.EveryReplyComesHome` lifts this to any number of exchanges, each with a reply of its own, that share one
  store of expected replies.
- `ErorRun.TamperingReachesTheSender`: a backward part replaced anywhere on the way back goes unnoticed by the hops. The
  sender ends with the receiver's reply exactly if nothing was replaced, with another payload exactly if the replacement
  amounts to a forged pair of data and tag, and with an authentication error otherwise.
- `ErorRun.OutcomeForEveryStore`: how such a run ends for any store of expected replies; `ErorRun.NobodyWaits` is the whole
  exchange at a sender that has forgotten it.
- `ErorInversion.LayerInversion` and `ErorInversion.GarbageInvariant`: each node reproduces the sender's next layer.
- `SphinxRouting.FillerLemma`, `SphinxPacket.WholeRoute` and `SphinxSurb.SurbRoute`: the same for Sphinx.
- `SphinxWire.ReplacedRoutingIsDropped`: a Sphinx packet with replaced routing information ends at the next node.

These say that the parties agree. What they agree on is said by the modules ErorWire, EcWire and SphinxWire, in the terms of
the primitives and in numbers: which key every hop learns (`ErorWire.ForwardHopLearns`, `ErorWire.BackwardHopLearns`), that
no two are the same if derivation does not collide (`ErorWire.HopKeysDiffer`), what is on the wire at every step, and the
outcome of unwrapping, processing and replying for every input, errors included.

## How it is laid out

| file | what it holds |
|---|---|
| Wrappers, Octets, Bincode | results, bytes with their exclusive or, the part of the bincode format that is used |
| ErorPrimitives, EcPrimitives | the contract of the primitives, and the concrete ones that keep it |
| ErorOnion, ErorLayers, ErorForming | onions and their bytes; one layer and all layers; what the operations return |
| ErorMethods | the operations as the source carries them out, proved to return that |
| ErorInversion, ErorProtocol, ErorRun, ErorSizes | layers undone, the protocol as a state machine, whole runs, sizes |
| ErorWire, EcWire | what EROR onions are made of, byte by byte, for any primitives and for the concrete ones |
| SphinxSuite, SphinxDelays, SphinxKeys, SphinxFiller, SphinxRouting, SphinxHeader, SphinxPayload, SphinxPacket, SphinxSurb | Sphinx, file by file |
| SphinxWire | what Sphinx packets are made of, byte by byte, and replaced routing information |

Primitives are records of functions, and the types `ErorPrimitives.Primitives`, `EcPrimitives.Curve` and
`SphinxSuite.Suite` are the records that keep the stated laws: under each key and nonce a cipher is a length-preserving
permutation, MACs and key derivations are functions, scalars act on the multiples of the base point. Each of these types
has a small instance as its witness, so the laws are consistent. Random draws are arguments. The maximal path lengths
(`maxPathLength`) are fields, so the results hold for all of them.

Methods work on onions whose header elements are raw or parsed, as in the source; functions and lemmas speak of an
onion's bytes (`Onion.OnWire`), which is also what equality of onions compares in the source. In-place steps keep their
form: `ErorMethods.PeelHeader` overwrites an array from front to back, `ErorMethods.FillRow` fills a two-dimensional
table, `Octets.XorWith` changes its first argument.

## Where comments and code disagree

The model follows the code.

- src/lib.rs:33-36 describes the nonces for the forward and the backward payload the wrong way round; the code uses each
  as its name says.
- sphinx/src/header/routing/destination.rs:62 gives a formula with steps of 48 bytes; the constants make them 60.
- sphinx/src/payload/mod.rs:141-149 says that the trailing padding is zero. The code accepts any bytes but 1 there;
  `SphinxPayload.RecoversExactly` gives the exact condition.
- sphinx/src/header/keys.rs:121-122 means to skip the last iteration, but its condition always holds. The extra
  multiplication has no effect on the keys.
- src/primitives.rs:117-126 promises decryption without a condition. On every curve, every message and every draw have a
  private key for which it decrypts under the identity's key instead of the encryptor's: the one that cancels the hash of
  the ciphertext (`EcPrimitives.CancellingKey`). The exact condition on the recovered point is `Ec.Opens`, which the
  encryptor can check with the public key before it sends anything: hash and public key do not add up to the identity, or
  the draw gives the identity. `EcPrimitives.NotEveryDrawOpens` works out one instance, small enough to calculate,
  in which another message comes back.
- src/lib.rs:407 covers the ciphertext, the blocks after the first and the forward part with the tag. The first block itself
  is read by bincode, which ignores what follows its data, so bytes appended to it go unnoticed
  (`ErorInversion.FirstBlockIsMalleable`). They do not reach the next hop, as the block is overwritten.

## Model

| member | source | states |
|---|---|---|
| Octets.XorCancels | sphinx/src/utils/bytes.rs:18-22 | adding the same key string twice gives back the original, at every length |
| Octets.XorWith | sphinx/src/utils/bytes.rs:25-32 | the in-place form leaves in its first argument the bytewise exclusive or of the old contents and the second |
| Octets.XorByteExactly | sphinx/src/utils/bytes.rs:18-22 | the exclusive or of two bytes is the only byte whose eight binary digits are the sums modulo 2 of theirs |
| Bincode.U32Bytes | src/primitives.rs:57-67 | a 32-bit number is its four bytes, the lowest first |
| Bincode.U64Bytes | src/lib.rs:189-218 | a 64-bit number is the bytes of its low half and then of its high half |
| Bincode.VecsRoundTrip | src/lib.rs:189-218 | a vector of byte vectors is read back from its length-prefixed form, whatever follows it |
| Bincode.ReadVecsInverts | src/lib.rs:189-218 | whatever is read as a vector of byte vectors is its packed form, followed by the rest |
| ErorPrimitives.DiscriminantInjective | src/primitives.rs:47-70 | different key roles, with 32-bit hop numbers, have different discriminants |
| ErorPrimitives.XorSuiteLawful | src/primitives.rs:81-162 | the laws demanded of primitives hold for a keyed XOR, so they are consistent |
| EcPrimitives.PointRecovered | src/primitives.rs:224-250 | dividing the transmitted point by hash plus private key gives the point behind the symmetric key if and only if hash and key do not cancel or that point is the identity; if they cancel it gives the identity |
| EcPrimitives.SumIsIdentity | src/primitives.rs:235-249 | hash and private key cancel if and only if the encryptor's sum of hash and public key is the identity |
| EcPrimitives.PublicKeyRoundTrip | src/primitives.rs:224-258 | public-key decryption inverts encryption for every message and every draw that opens, a condition on public values only |
| EcPrimitives.DecryptionExact | src/primitives.rs:224-258 | without that condition the outcome is decryption under the identity's key, so the message comes back if and only if the draw opens or both keys encrypt this message alike |
| EcPrimitives.CancellingKey | src/primitives.rs:224-258 | for every curve, message and draw there is a private key that does not open the ciphertext, unless the draw gives the identity |
| EcPrimitives.NotEveryDrawOpens | src/primitives.rs:224-258 | a small lawful instance of such a key, worked out: another message comes back |
| EcPrimitives.CiphertextLayout | src/primitives.rs:224-236 | point, length and body of a ciphertext, and what each is calculated from |
| EcPrimitives.DecryptOutcome | src/primitives.rs:238-258 | decryption of any bytes, of those that are no ciphertext too |
| EcPrimitives.DerivedKeysCollide | src/primitives.rs:260-272 | two derivations with the same result exhibit two different hash inputs with the same hash |
| EcPrimitives.EcLawful | src/primitives.rs:187-327 | the concrete primitives keep the contract of `Primitives`, including the early return on empty input |
| ErorOnion.KeyMetaRoundTrip | src/lib.rs:449-459 | the decrypted block content is read back as the key and meta data that were packed |
| ErorOnion.CountsRoundTrip | src/lib.rs:654-654 | the two path lengths packed into the sender's address field are read back |
| ErorOnion.BlockRoundTrip | src/lib.rs:71-81 | a header block is read back from its bytes |
| ErorOnion.Onion.PackedHeader | src/lib.rs:230-236 | the loop returns the concatenation of all header blocks |
| ErorOnion.PackedHeaderInjective | src/lib.rs:230-236 | headers of equally long blocks with the same packed header are the same |
| ErorOnion.OnionRoundTrip | src/lib.rs:189-218 | a deserialized onion equals the serialized one, up to how header blocks are held |
| ErorOnion.DeserializesExactly | src/lib.rs:189-218 | bytes are read as an onion if and only if they begin with its serialization |
| ErorOnion.MacInputInjective | src/lib.rs:407-407 | equal MAC inputs cover equal ciphertext, blocks and forward part |
| ErorOnion.SplitRecoversPacked | src/lib.rs:687-692 | the reply header and the payload are recovered from the packed forward payload |
| ErorOnion.SplitsExactly | src/lib.rs:687-692 | a forward payload is split into these parts if and only if it begins with them packed |
| ErorInversion.PeelInvertsWrap | src/lib.rs:386-575 | `unwrap` after `wrap` returns the key, the meta data, all kept blocks, the forward part, and as last block the one a node appends |
| ErorInversion.PeelRestoresExactly | src/lib.rs:386-575 | the inner onion comes back whole if and only if the popped block is the one that a node appends |
| ErorInversion.WrapInvertsPeel | src/lib.rs:386-575 | whatever a node accepts is the wrapping of what it passes on: all blocks after the first, the forward and the backward part to the byte, and the first block's tag and data |
| ErorInversion.CoveredFieldsAreChecked | src/lib.rs:545-559 | an onion with the ciphertext of an accepted one and no forged tag is accepted if and only if its tag, the blocks after the first and its forward part are the same; else it is a MAC mismatch |
| ErorInversion.RetaggedIsAccepted | src/lib.rs:545-559 | the premise is needed: any blocks and any forward part are accepted with the tag made for them |
| ErorInversion.FirstBlockIsMalleable | src/lib.rs:545-575 | bytes appended to the first block change nothing in what the node returns |
| ErorInversion.AeUnwrapInvertsWrap | src/lib.rs:358-384 | wrapping and then unwrapping the backward part changes nothing |
| ErorInversion.AeWrapInvertsUnwrap | src/lib.rs:358-384 | unwrapping and then wrapping the backward part changes nothing |
| ErorInversion.GarbageInvariant | src/lib.rs:462-523 | at every hop i the last i header blocks are row i of the precomputed table |
| ErorInversion.LayerInversion | src/lib.rs:423-575 | hop i turns layer i into layer i + 1, byte for byte, and learns its key and meta data |
| ErorInversion.LastLayerOpens | src/lib.rs:423-575 | the last hop's block opens, its tag matches, and it gets the last key and meta data |
| ErorMethods.AeEnc | src/lib.rs:326-339 | the buffer steps compute authenticated encryption as the lemmas use it |
| ErorMethods.AeDec | src/lib.rs:341-356 | nothing on a wrong tag, otherwise the decryption |
| ErorMethods.AeUnwrap | src/lib.rs:358-370 | tag and data are decrypted as one buffer and split again |
| ErorMethods.AeWrap | src/lib.rs:372-384 | tag and data are encrypted as one buffer and split again |
| ErorMethods.Wrap | src/lib.rs:386-412 | the new headers and payload are those of one more layer |
| ErorMethods.PeelHeader | src/lib.rs:560-569 | overwriting the header in place gives the decrypted old tail and one decrypted zero block, no slot being read after it was written |
| ErorMethods.Unwrap | src/lib.rs:545-575 | for every onion, the result, the error or the panic is that of processing the onion's bytes |
| ErorMethods.MetaCiphers | src/lib.rs:445-460 | one ciphertext for each hop with its successor's address, or the error exactly if a key is missing |
| ErorMethods.FillGarbage | src/lib.rs:462-473 | the last row of the table holds exactly the garbage blocks of the last hop, with no placeholder among them |
| ErorMethods.LastBlocks | src/lib.rs:462-479 | the tail of the last header: random blocks first, then the garbage of the last row |
| ErorMethods.EndParts | src/lib.rs:481-510 | forward and backward parts at both ends of the path and the expected tag, for both kinds of payload |
| ErorMethods.WrapAll | src/lib.rs:516-523 | popping and wrapping from the last hop outwards ends in layer 0 |
| ErorMethods.Onionize | src/lib.rs:423-538 | both onions and the tag are those of the nested layers, or the error is the right one |
| ErorMethods.FormOnion | src/lib.rs:623-684 | the onion and the expected response that the lemmas speak of |
| ErorMethods.ReplyOnion | src/lib.rs:582-611 | for every onion, the reply and its first address, or the error or panic |
| ErorMethods.ReceiveReply | src/lib.rs:714-733 | the sender's branch, with its descending loop of wraps, its errors and its checked subtractions |
| ErorMethods.ProcOnion | src/lib.rs:697-736 | for every onion, one of the three kinds of result, or the error or panic |
| ErorProtocol.FormOutcome | src/lib.rs:545-675 | forming an onion succeeds if and only if both paths are short enough and all addresses have keys, and each failure has its own error |
| ErorProtocol.FormedOnion | src/lib.rs:623-684 | the formed onion is layer 0 of the forward plan, together with the identifier, the receiver's onion and the tag to expect |
| ErorProtocol.RunRelays | src/lib.rs:697-710 | from any hop on, each step brings the precomputed next layer to the next address |
| ErorProtocol.LayerLengths | src/lib.rs:304-316 | every layer has blocks of one fixed length and a forward part of unchanged length |
| ErorProtocol.ForwardRestored | src/lib.rs:498-523 | in a backward onion all wraps cancel the earlier decryptions |
| ErorRun.ReceiverOpens | src/lib.rs:545-611 | the receiver finds the sender's packed payload and the key for the reply |
| ErorRun.ReplySubstitution | src/lib.rs:582-662 | the reply onion has the header and forward part of the precomputed backward onion, for every reply and every backward part received |
| ErorRun.RewrapInvertsUnwraps | src/lib.rs:714-722 | the sender's wraps from the master key cancel the unwraps of all hops passed |
| ErorRun.UnwrapsInvertRewrap | src/lib.rs:714-722 | and the hops' unwraps cancel the sender's wraps |
| ErorRun.SenderStep | src/lib.rs:714-733 | for every store, the sender looks up the packed header that comes home, and authenticates the rewrapped backward part under the tag it finds |
| ErorRun.JudgedByTheStoredTag | src/lib.rs:675-733 | for a store that remembers the exchange, the tag it finds is the one computed at formation |
| ErorRun.WayForth | src/lib.rs:697-710 | after k steps the onion is at forward hop k as layer k with k unwraps of the backward part |
| ErorRun.ReceiverSeesExpected | src/lib.rs:675-684 | what reaches the receiver is the onion stored at formation, in header, forward and backward part |
| ErorRun.OnTheWayBack | src/lib.rs:582-710 | after the receiver, the onion is at backward hop k as layer k with k unwraps of the reply |
| ErorRun.ReplyIsRecognised | src/lib.rs:677-727 | the identifier stored at formation is the packed header of the onion that comes home |
| ErorRun.WholeRun | src/lib.rs:545-736 | the whole exchange, for all paths, payloads and replies: every hop in order, payload delivered, reply returned, and nothing afterwards |
| ErorRun.WayBack | src/lib.rs:697-733 | for every store, any backward part handed to any backward hop comes home under the precomputed header and is judged as its rewrapping |
| ErorRun.VerdictExactly | src/lib.rs:341-356 | the sender gets the receiver's reply from the receiver's pair alone, another payload from a forged pair, and an error from all other pairs |
| ErorRun.UntouchedExactly | src/lib.rs:714-722 | rewrapping gives the receiver's pair if and only if the backward part at hop j is the one that arrives there when nobody interferes |
| ErorRun.TamperingReachesTheSender | src/lib.rs:697-733 | with any backward part put in at any hop, the run ends with the receiver's reply if and only if nothing was replaced, with some payload if and only if that or the pair is forged, and with the authentication error otherwise |
| ErorRun.WithoutForgery | src/lib.rs:697-733 | unless a pair was forged, the sender has the receiver's reply if nothing was replaced and an error if anything was |
| ErorRun.OutcomeForEveryStore | src/lib.rs:714-733 | the exact final state for every store and backward part: refused, an authentication error, or decrypted |
| ErorRun.UnexpectedReplyIsRefused | src/lib.rs:724-726 | the run ends in `UnexpectedReply` if and only if the store does not have the header that comes home, and then nothing was returned |
| ErorRun.NobodyWaits | src/lib.rs:739-746 | without a stored reply the exchange visits both paths and delivers the payload, and ends in `UnexpectedReply` |
| ErorRun.StoreKeeps | src/lib.rs:237-250 | exchanges with different headers never overwrite each other's entry in the store |
| ErorRun.EveryReplyComesHome | src/lib.rs:545-736 | with any number of exchanges in one store, each of them completes with its own receiver's reply |
| ErorSizes.PeelKeepsSize | src/lib.rs:545-575 | stripping a layer keeps block count, block length, both payload lengths and the serialized size |
| ErorSizes.FormedSize | src/lib.rs:304-316 | a formed onion has 56 + 248 N + 2 p bytes, whatever the paths |
| ErorSizes.RunKeepsSize | src/lib.rs:582-736 | every onion of a run has that size, with the reply's length in place of the payload's on the way back |
| ErorWire.UnwrapOutcome | src/lib.rs:545-575 | `unwrap` for every onion, byte by byte: each error and when it occurs, the key and instructions read, and every part of what is passed on under its key and nonce |
| ErorWire.ReplyOutcome | src/lib.rs:582-611 | `reply_onion` for every onion: each error, and header, forward part, backward data and tag of the reply |
| ErorWire.RewrapStep | src/lib.rs:719-722 | the key and nonce of each wrap that the sender puts back on, last hop first |
| ErorWire.ProcOutcome | src/lib.rs:697-736 | `proc_onion` for every onion and store: each role's result and each error |
| ErorWire.VecsLayout | src/lib.rs:189-218 | position of the count and of each block and its length in a packed header |
| ErorWire.OnionLayout | src/lib.rs:189-218 | the bytes of a serialized onion |
| ErorWire.MacInputLayout | src/lib.rs:407-407 | the bytes that a tag covers |
| ErorWire.PayloadLayout | src/lib.rs:670-675 | the bytes of the forward payload |
| ErorWire.ForwardHopLearns | src/lib.rs:636-673 | after k steps forward hop k finds the master key's derivative for Forward(k), its role and the next address |
| ErorWire.BackwardHopLearns | src/lib.rs:640-662 | backward hop k finds the derivative for Backward(k), the sender the master key and both path lengths |
| ErorWire.HopKeysDiffer | src/primitives.rs:47-70 | if derivation is injective in the discriminant, no two hops of an exchange learn the same key |
| ErorWire.ForwardBlock | src/lib.rs:445-460 | the first block at forward hop k: its tag, and its key, role and next address under its public key with the draw for this hop |
| ErorWire.BackwardBlock | src/lib.rs:445-460 | the same at backward hop k |
| ErorWire.GarbageOnTheWire | src/lib.rs:487-488 | the backward part of the first onion is the sender's draws |
| ErorWire.FillingOnTheWire | src/lib.rs:476-479 | the blocks of the last forward header that hold no garbage are the sender's draws |
| ErorWire.BackwardFillingOnTheWire | src/lib.rs:476-479 | the same for the last backward header |
| ErorWire.ReplyOnTheWire | src/lib.rs:582-611 | the reply sent off has PRNG output under the receiver's derived key as forward part, 16 + 124 N + p bytes of it, and the encrypted reply as backward data |
| EcWire.SuiteInTheseTerms | src/primitives.rs:205-326 | every primitive as a call of hash, cipher, MAC or stream on written-out bytes |
| EcWire.HopKeys | src/lib.rs:636-643 | every hop's key is a hash of 6 or 7, its number's four bytes and the master key |
| EcWire.AcceptedOnion | src/lib.rs:545-575 | an accepted onion carries the right HMAC, and every part passed on is the AEZ decryption under its key and nonce |
| EcWire.SentReply | src/lib.rs:582-611 | the reply is ChaCha output, an AEZ ciphertext, and its HMAC added to the tag received |
| SphinxSuite.ToyLawful | sphinx/src/crypto/keys.rs:58-103 | the laws demanded of the Sphinx primitives hold for a small instance, for every maximal path length |
| SphinxDelays.DelayRoundTrip | sphinx/src/header/delays.rs:45-53 | a delay is read back from its eight bytes |
| SphinxKeys.Derive | sphinx/src/header/keys.rs:48-79 | the cursor cuts the four keys out of the HKDF output |
| SphinxKeys.KeysPartitionOutput | sphinx/src/header/keys.rs:48-79 | the four keys are the whole output, nothing shared and nothing left |
| SphinxKeys.DeriveKeyMaterial | sphinx/src/header/keys.rs:110-147 | the loop with the blinded accumulator returns the keys of every hop |
| SphinxKeys.SecretsAgree | sphinx/src/header/keys.rs:110-147 | the accumulator acting on the base point is the blinded secret that node i receives |
| SphinxKeys.BlindingAgreement | sphinx/src/header/mod.rs:142-148 | each node derives exactly the sender's keys for it |
| SphinxFiller.FillerStep | sphinx/src/header/filler.rs:53-77 | extending by zeros and adding the keystream's end in place is one filler step |
| SphinxFiller.NewFiller | sphinx/src/header/filler.rs:28-51 | the fold returns the filler of all keys |
| SphinxFiller.FillerOfPrefix | sphinx/src/header/mod.rs:60-60 | the filler made from the keys of all hops but the last is the one that the nesting of all keys needs |
| SphinxFiller.FillerClosedForm | sphinx/src/header/filler.rs:28-77 | byte t is the exclusive or, over every step j that covers it, of byte 60 (R - j) + t of the 60 (R + 1) bytes of AES-CTR keystream under key j |
| SphinxRouting.NewRouting | sphinx/src/header/routing/mod.rs:76-150 | the reversed fold over addresses, keys and delays ends in the first hop's nested routing information |
| SphinxRouting.Parse | sphinx/src/header/routing/nodes.rs:197-271 | the cursor reads the fields of both kinds of hop, and other flags are an error |
| SphinxRouting.Unwrap | sphinx/src/header/routing/nodes.rs:135-185 | zero padding, decryption and parsing in this order |
| SphinxRouting.DecryptForward | sphinx/src/header/routing/nodes.rs:77-185 | zero padding and the full keystream give the plain routing information and the unused end of the keystream |
| SphinxRouting.ParsePlain | sphinx/src/header/routing/nodes.rs:67-250 | parsing recovers address, delay, MAC and the inner routing information from the concatenated components |
| SphinxRouting.FillerLemma | sphinx/src/header/filler.rs:28-77 | at every node i the last STEP i bytes of the routing information are the filler after i steps |
| SphinxRouting.TailRecovered | sphinx/src/header/routing/nodes.rs:123-185 | a node's decrypted padding is the tail that truncation cut off |
| SphinxRouting.UnwrapForward | sphinx/src/header/routing/mod.rs:117-150 | node i finds the next address, the delay and all of node i + 1's routing information and MAC |
| SphinxRouting.UnwrapFinal | sphinx/src/header/routing/destination.rs:66-147 | the last node finds the destination and the identifier |
| SphinxHeader.NewHeader | sphinx/src/header/mod.rs:52-80 | deriving keys, filler and nested routing information gives the header that `HeaderStep` and `HeaderEnds` speak of, with all payload keys |
| SphinxHeader.Process | sphinx/src/header/mod.rs:150-196 | derive, verify, unwrap, blind: the results and errors that `HeaderStep` and `HeaderEnds` speak of |
| SphinxHeader.HeaderStep | sphinx/src/header/mod.rs:150-186 | each node verifies the MAC and passes on the sender's header for its successor |
| SphinxHeader.HeaderEnds | sphinx/src/header/mod.rs:187-196 | the last node verifies the MAC and gets the destination and the identifier |
| SphinxHeader.HeaderRoundTrip | sphinx/src/header/mod.rs:198-234 | a header is read back from its bytes |
| SphinxHeader.HeaderBytesRoundTrip | sphinx/src/header/mod.rs:207-234 | bytes are accepted if and only if they have the header's length, and are then reproduced |
| SphinxPayload.RecoversExactly | sphinx/src/payload/mod.rs:138-177 | a message is recovered if and only if the payload is sixteen zeros, the message, a 1 and a tail without a 1 |
| SphinxPayload.PaddingRoundTrip | sphinx/src/payload/mod.rs:91-177 | every message that fits is recovered from its padded form, whatever it ends in |
| SphinxPayload.EncapsulateMessage | sphinx/src/payload/mod.rs:39-87 | success exactly for valid parameters, and then the payload with all layers in reverse order of the keys |
| SphinxPacket.BuildPacket | sphinx/src/packet/builder.rs:31-48 | a packet is built if and only if the message can be encapsulated |
| SphinxPacket.Process | sphinx/src/packet/mod.rs:96-120 | header first, then one payload layer: the results and errors that the runs are made of |
| SphinxPacket.ForwardStep | sphinx/src/packet/mod.rs:96-120 | a node passes on the sender's packet for its successor, with address and delay |
| SphinxPacket.FinalStep | sphinx/src/packet/mod.rs:96-120 | the last node ends with destination, identifier and the padded message |
| SphinxPacket.RunReaches | sphinx/src/packet/mod.rs:96-120 | after k steps the packet is at node k as the sender would have computed it |
| SphinxPacket.WholeRoute | sphinx/src/packet/mod.rs:96-120 | the whole route: nodes and delays in order, the sender's destination and identifier, the message recovered, and nothing afterwards |
| SphinxPacket.PacketKeepsSize | sphinx/src/packet/mod.rs:52-55 | a packet has the same size at every node |
| SphinxPacket.PacketRoundTrip | sphinx/src/packet/mod.rs:122-152 | a packet survives its byte form if and only if its payload has the overhead's length |
| SphinxSurb.NewSurb | sphinx/src/surb/mod.rs:61-96 | both errors, or the reply block that `SurbRoute` speaks of |
| SphinxSurb.UseSurb | sphinx/src/surb/mod.rs:98-111 | using a reply block succeeds exactly if the message can be encapsulated, and gives its header, layered payload and first hop |
| SphinxSurb.SurbRoute | sphinx/src/surb/mod.rs:61-111 | whoever uses a reply block starts a packet that runs its maker's whole route, with the message recovered at the end |
| SphinxSurb.SurbFromBytes | sphinx/src/surb/mod.rs:122-161 | the chunking loop returns header, first hop and all keys, or the error |
| SphinxSurb.SurbRoundTrip | sphinx/src/surb/mod.rs:113-161 | a reply block survives its byte form if and only if it has a payload key |
| SphinxSurb.SurbBytesRoundTrip | sphinx/src/surb/mod.rs:113-161 | accepted bytes are the byte form of what they are read as |
| SphinxWire.HeaderOutcome | sphinx/src/header/mod.rs:150-196 | `process` for every header: `InvalidHeader` exactly for a wrong MAC, `InvalidRouting` for another flag, and every field of what is passed on |
| SphinxWire.PacketOutcome | sphinx/src/packet/mod.rs:96-120 | `process` for every packet: the header's error, the payload's, or one layer less |
| SphinxWire.KeysInDerived | sphinx/src/header/keys.rs:48-79 | where the sender's keys for node i lie in the bytes derived from the point it shares with that node |
| SphinxWire.HeaderOnTheWire | sphinx/src/header/routing/nodes.rs:67-98 | the header at node i: its MAC, its routing information as keystream on the written-out plain bytes, and the blinded secret |
| SphinxWire.LastHeaderOnTheWire | sphinx/src/header/routing/destination.rs:66-147 | the header at the last node: keystream on flag, version, destination, identifier and the drawn padding, and then the filler |
| SphinxWire.PayloadOnTheWire | sphinx/src/payload/mod.rs:39-105 | each node's payload is one layer under its derived key, the innermost sixteen zeros, the message, a 1 and zeros |
| SphinxWire.EncapsulatesExactly | sphinx/src/payload/mod.rs:60-87 | the exact bounds on payload size and message length |
| SphinxWire.DelayLayout | sphinx/src/header/delays.rs:45-49 | a delay is sent with its highest byte first |
| SphinxWire.HeaderLayout | sphinx/src/header/mod.rs:198-234 | the bytes of a header, what is read from bytes and which error |
| SphinxWire.PacketLayout | sphinx/src/packet/mod.rs:122-152 | the same for packets |
| SphinxWire.SurbLayout | sphinx/src/surb/mod.rs:113-120 | the bytes of a reply block |
| SphinxWire.SurbRefusal | sphinx/src/surb/mod.rs:122-161 | exactly which bytes are no reply block |
| SphinxWire.NewSurbOutcome | sphinx/src/surb/mod.rs:61-96 | both errors, or first address, first header and every node's payload key |
| SphinxWire.ReplacedRoutingIsRefused | sphinx/src/header/mod.rs:150-161 | without a forged MAC, node i accepts routing information and MAC if and only if neither was replaced; all else is `InvalidHeader` |
| SphinxWire.ReplacedRoutingIsDropped | sphinx/src/packet/mod.rs:96-120 | in a run, such a packet is dropped by the next node with that error, whatever its payload |

## Left out

- The insides of AEZ, AES-CTR, HMAC, HKDF, Lioness, ChaCha20, SHA-3 and the curves: library calls, present as functions
  with the laws named above.
- Security claims such as unlinkability or unforgeability: `ErorInversion.CoveredFieldsAreChecked` and
  `SphinxWire.ReplacedRoutingIsRefused` take the absence of a forged tag as a premise.
- EcPrimitives.EcLawful: the panic on malformed ciphertexts of fewer than 40 bytes is not modelled; such input decrypts to
  the empty string, which no node accepts.
- ErorMethods.ReceiveReply: arithmetic that underflows for the counts 0 yields the error `Panic`, as with overflow checks;
  without them the source wraps around. The counts that a sender packs are never 0.
- ErorMethods.Unwrap: an index out of range, for an empty header or an authenticated one shorter than the maximal path length,
  yields the error `Panic`. So does a maximal path length of 0, as with overflow checks.
  The header is an array and so are the buffers of the backward part; the forward part is replaced as a value rather
  than changed in place.
- ErorMethods.FormOnion: empty paths panic in the source and are excluded by a precondition. Lengths are bounded by 64 bits and
  the maximal path length by 32 bits where the wire format needs it.
- SphinxPayload.EncapsulateMessage: the buffer of a payload layer is replaced as a value rather than changed in place. The debug assertion
  in `recover_plaintext` on the payload's length is not modelled.
- SphinxRouting.Parse: the version bytes are skipped, as in the source, which never looks at them.
- SphinxHeader.HeaderFromBytes: the inner length check of the routing information cannot fail after the outer one and is
  merged with it.
- Routes longer than the maximal path length, for which the source panics: excluded by preconditions.
- Key generation, delay sampling and scaling, the PKI beyond lookup, base58 text, Debug and Display, examples, benches
  and scripts: no property that spans operations.
- `process_with_derived_keys`: the same steps as `process` with the keys handed in.
