/** The contract that EROR places on its cryptographic primitives (src/primitives.rs).

    The trait becomes a record of functions; what it promises is `Lawful`, and `Primitives` is the type of
    all records that keep the promise. Everything proved about onions holds for every such record. Random
    draws are explicit arguments. */
module ErorPrimitives {
  import opened Octets
  import opened Bincode

  type Tag = Bytes16
  type SymmetricKey = Bytes16
  type PublicKey = Bytes32
  type Scalar = nat
  type PrivateKey = Scalar

  /** What a key derived from another key is for. */
  datatype KeyRole = SymEnc | Mac | AuthEnc | End2End | Prng | Forward(hop: nat) | Backward(hop: nat) | Uhf {
    function Discriminant(): (d: Bytes)
      ensures |d| == 5
    {
      match this
      case SymEnc => [1, 0, 0, 0, 0]
      case Mac => [2, 0, 0, 0, 0]
      case AuthEnc => [3, 0, 0, 0, 0]
      case End2End => [4, 0, 0, 0, 0]
      case Prng => [5, 0, 0, 0, 0]
      case Forward(i) => [6] + Le(i, 4)
      case Backward(i) => [7] + Le(i, 4)
      case Uhf => [8, 0, 0, 0, 0]
    }

    /** Hop numbers are 32-bit in the source. */
    predicate Valid() {
      match this
      case Forward(i) => i < U32_LIMIT
      case Backward(i) => i < U32_LIMIT
      case _ => true
    }
  }

  /** The discriminants that go into the key derivation hash never collide. */
  lemma DiscriminantInjective(a: KeyRole, b: KeyRole)
    requires a.Valid() && b.Valid()
    requires a.Discriminant() == b.Discriminant()
    ensures a == b
  {
    var d, e := a.Discriminant(), b.Discriminant();
    assert d[0] == e[0] && d[1..] == e[1..];
    Limits();
    if a.Forward? || a.Backward? {
      LeRoundTrip(a.hop, 4);
      LeRoundTrip(b.hop, 4);
    }
  }

  datatype Suite = Suite(
    symEnc: (SymmetricKey, nat, Bytes) -> Bytes,
    symDec: (SymmetricKey, nat, Bytes) -> Bytes,
    tag: (SymmetricKey, Bytes) -> Tag,
    xorTag: (Tag, Tag) -> Tag,
    derive: (KeyRole, SymmetricKey) -> SymmetricKey,
    prng: (SymmetricKey, nat) -> Bytes,
    publicKey: PrivateKey -> PublicKey,
    pkEnc: (PublicKey, Scalar, Bytes) -> Bytes,
    pkDec: (PrivateKey, Bytes) -> Bytes,
    // the draws with which a ciphertext for this public key can be opened again, as far as the encryptor can tell
    opens: (PublicKey, Scalar, Bytes) -> bool)
  {
    /** Under each key and nonce, encryption and decryption are length-preserving and inverse to each other. */
    ghost predicate CipherLaws() {
      && (forall k, n, x {:trigger symEnc(k, n, x)} :: |symEnc(k, n, x)| == |x|)
      && (forall k, n, x {:trigger symDec(k, n, x)} :: |symDec(k, n, x)| == |x|)
      && (forall k, n, x {:trigger symDec(k, n, symEnc(k, n, x))} :: symDec(k, n, symEnc(k, n, x)) == x)
      && (forall k, n, x {:trigger symEnc(k, n, symDec(k, n, x))} :: symEnc(k, n, symDec(k, n, x)) == x)
    }

    ghost predicate Lawful() {
      && CipherLaws()
      && (forall k, n {:trigger prng(k, n)} :: |prng(k, n)| == n)
      && (forall pk, r, m {:trigger pkEnc(pk, r, m)} :: |pkEnc(pk, r, m)| == 40 + |m|)
      && (forall sk, r, m {:trigger pkEnc(publicKey(sk), r, m)} ::
            opens(publicKey(sk), r, m) ==> pkDec(sk, pkEnc(publicKey(sk), r, m)) == m)
    }
  }

  type Primitives = s: Suite | s.Lawful() ghost witness (XorSuiteLawful(); XorSuite())

  // ---------- the laws are consistent: a keyed XOR keeps them ----------

  function Keystream(k: SymmetricKey, n: nat, len: nat): (s: Bytes)
    ensures |s| == len
  {
    seq(len, i requires 0 <= i < len => XorByte(k[i % 16], ((n + i) % 256) as u8))
  }

  function KeyedXor(k: SymmetricKey, n: nat, x: Bytes): (y: Bytes)
    ensures |y| == |x|
  {
    Xor(x, Keystream(k, n, |x|))
  }

  function XorSuite(): Suite {
    Suite(
      KeyedXor,
      KeyedXor,
      (k: SymmetricKey, x: Bytes) => k,
      (a: Tag, b: Tag) => Xor(a, b),
      (role: KeyRole, k: SymmetricKey) => Xor(k, role.Discriminant() + Zeros(11)),
      (k: SymmetricKey, n: nat) => Keystream(k, 0, n),
      (sk: PrivateKey) => Le(sk, 32),
      (pk: PublicKey, r: Scalar, m: Bytes) => Zeros(40) + m,
      (sk: PrivateKey, c: Bytes) => if |c| < 40 then [] else c[40..],
      (pk: PublicKey, r: Scalar, m: Bytes) => true)
  }

  lemma KeyedXorCancels(k: SymmetricKey, n: nat, x: Bytes)
    ensures KeyedXor(k, n, KeyedXor(k, n, x)) == x
  {
    XorCancels(x, Keystream(k, n, |x|));
  }

  lemma XorSuiteLawful()
    ensures XorSuite().Lawful()
  {
    hide KeyedXor, Keystream;
    forall k: SymmetricKey, n: nat, x: Bytes
      ensures KeyedXor(k, n, KeyedXor(k, n, x)) == x
    {
      KeyedXorCancels(k, n, x);
    }
  }
}
