/** Sizes and primitives of the Sphinx packet format (sphinx/src/constants.rs, sphinx/src/crypto).

    The maximal path length is a build-time constant of the source; here it is a field, and every result holds
    for all its values. */
module SphinxSuite {
  import opened Octets

  const SECURITY_PARAMETER: nat := 16
  const NODE_ADDRESS_LENGTH: nat := 2 * SECURITY_PARAMETER
  const DESTINATION_ADDRESS_LENGTH: nat := 2 * SECURITY_PARAMETER
  const IDENTIFIER_LENGTH: nat := SECURITY_PARAMETER
  const MAC_SIZE: nat := SECURITY_PARAMETER
  const DELAY_LENGTH: nat := 8
  const FLAG_LENGTH: nat := 1
  const VERSION_LENGTH: nat := 3
  const NODE_META_INFO_SIZE: nat := NODE_ADDRESS_LENGTH + FLAG_LENGTH + DELAY_LENGTH + VERSION_LENGTH
  const FINAL_NODE_META_INFO_LENGTH: nat := DESTINATION_ADDRESS_LENGTH + IDENTIFIER_LENGTH + FLAG_LENGTH + VERSION_LENGTH

  /** What each hop adds to the filler and takes off the routing information. */
  const STEP: nat := NODE_META_INFO_SIZE + MAC_SIZE

  const STREAM_KEY_SIZE: nat := 16
  const MAC_KEY_SIZE: nat := SECURITY_PARAMETER
  const PAYLOAD_KEY_SIZE: nat := 192
  const BLINDING_FACTOR_SIZE: nat := 2 * SECURITY_PARAMETER
  const ROUTING_KEYS_LENGTH: nat := STREAM_KEY_SIZE + MAC_KEY_SIZE + PAYLOAD_KEY_SIZE + BLINDING_FACTOR_SIZE

  type Bytes3 = b: Bytes | |b| == 3 witness Zeros(3)
  type PayloadKey = b: Bytes | |b| == PAYLOAD_KEY_SIZE witness Zeros(PAYLOAD_KEY_SIZE)

  type Scalar = nat
  type PrivateKey = Scalar
  type Point = Bytes32

  datatype Error = InvalidRouting | InvalidHeader | InvalidPayload | InvalidSURB | InvalidPacket

  datatype SuiteOps = SuiteOps(
    maxPathLength: nat,
    version: Bytes3,
    // AES-CTR under a fixed initialization vector
    keystream: (Bytes16, nat) -> Bytes,
    mac: (Bytes16, Bytes) -> Bytes16,
    // HKDF of a shared point, expanded to the length of all routing keys
    hkdf: Point -> Bytes,
    // Lioness, which refuses blocks that are too short
    blockFits: nat -> bool,
    blockEnc: (PayloadKey, Bytes) -> Bytes,
    blockDec: (PayloadKey, Bytes) -> Bytes,
    // the curve: multiples of `base`, and the reading of 32 bytes as a scalar
    base: Point,
    act: (Scalar, Point) -> Point,
    mul: (Scalar, Scalar) -> Scalar,
    scalarOf: Bytes32 -> Scalar)
  {
    ghost predicate CurveLaws() {
      && (forall a, b {:trigger act(b, act(a, base))} :: act(b, act(a, base)) == act(mul(a, b), base))
      && (forall a, b {:trigger mul(a, b)} :: mul(a, b) == mul(b, a))
    }

    ghost predicate CipherLaws() {
      && (forall k, n {:trigger keystream(k, n)} :: |keystream(k, n)| == n)
      && (forall p {:trigger hkdf(p)} :: |hkdf(p)| == ROUTING_KEYS_LENGTH)
      && (forall k, x {:trigger blockEnc(k, x)} :: |blockEnc(k, x)| == |x|)
      && (forall k, x {:trigger blockDec(k, x)} :: |blockDec(k, x)| == |x|)
      && (forall k, x {:trigger blockDec(k, blockEnc(k, x))} ::
            blockFits(|x|) ==> blockDec(k, blockEnc(k, x)) == x)
    }

    ghost predicate Lawful() {
      maxPathLength >= 1 && CurveLaws() && CipherLaws()
    }

    function StreamLength(): nat {
      STEP * (maxPathLength + 1)
    }

    function RoutingInfoSize(): nat {
      STEP * maxPathLength
    }
  }

  type Suite = s: SuiteOps | s.Lawful() ghost witness (ToyLawful(1); Toy(1))

  function Stream(s: Suite, key: Bytes16): (k: Bytes)
    ensures |k| == s.StreamLength() == s.RoutingInfoSize() + STEP
  {
    s.keystream(key, s.StreamLength())
  }

  // ---------- the laws are consistent for every maximal path length ----------

  predicate Odd(a: Scalar) {
    a % 2 == 1
  }

  function ToyAct(a: Scalar, p: Point): Point {
    if Odd(a) then p else Zeros(32)
  }

  function ToyMul(a: Scalar, b: Scalar): Scalar {
    if Odd(a) && Odd(b) then 1 else 0
  }

  function ToyBlock(k: PayloadKey, x: Bytes): (y: Bytes)
    ensures |y| == |x|
  {
    Xor(x, seq(|x|, i requires 0 <= i < |x| => k[i % PAYLOAD_KEY_SIZE]))
  }

  function Toy(r: nat): SuiteOps {
    SuiteOps(
      r,
      Zeros(3),
      (k: Bytes16, n: nat) => seq(n, i requires 0 <= i < n => k[i % 16]),
      (k: Bytes16, x: Bytes) => k,
      (p: Point) => Zeros(ROUTING_KEYS_LENGTH),
      (n: nat) => true,
      ToyBlock,
      ToyBlock,
      [1] + Zeros(31),
      ToyAct,
      ToyMul,
      (b: Bytes32) => b[0] as nat)
  }

  lemma ToyBlockCancels(k: PayloadKey, x: Bytes)
    ensures ToyBlock(k, ToyBlock(k, x)) == x
  {
    XorCancels(x, seq(|x|, i requires 0 <= i < |x| => k[i % PAYLOAD_KEY_SIZE]));
  }

  lemma ToyLawful(r: nat)
    requires r >= 1
    ensures Toy(r).Lawful()
  {
    assert Odd(1) && !Odd(0);
    hide Odd, ToyBlock;
    forall k: PayloadKey, x: Bytes
      ensures ToyBlock(k, ToyBlock(k, x)) == x
    {
      ToyBlockCancels(k, x);
    }
  }
}
