/** The concrete primitives of src/primitives.rs on top of a curve, a block cipher mode and hash functions that
    are library calls there and records of functions here. They meet the contract of `ErorPrimitives`. */
module EcPrimitives {
  import opened Octets
  import opened Bincode
  import opened ErorPrimitives

  type Point = Bytes32 // a compressed Edwards point

  /** Scalars act on points; `base` generates. Only multiples of `base` occur in an honest exchange, so the laws
      speak of those alone. */
  datatype CurveOps = CurveOps(
    base: Point,
    act: (Scalar, Point) -> Point,
    plus: (Point, Point) -> Point,
    add: (Scalar, Scalar) -> Scalar,
    mul: (Scalar, Scalar) -> Scalar,
    neg: Scalar -> Scalar,
    invert: Scalar -> Scalar, // of zero: some scalar, as the library does not fail
    onCurve: Point -> bool)
  {
    function Identity(): Point {
      act(0, base)
    }

    ghost predicate Commutes(a: Scalar, b: Scalar) {
      mul(a, b) == mul(b, a)
    }

    ghost predicate Associates(a: Scalar, b: Scalar, c: Scalar) {
      mul(mul(a, b), c) == mul(a, mul(b, c))
    }

    ghost predicate ScalarLaws() {
      && (forall a, b :: Commutes(a, b))
      && (forall a, b, c :: Associates(a, b, c))
      && (forall r {:trigger mul(0, r)} :: mul(0, r) == 0)
      && (forall a {:trigger neg(a)} :: add(a, neg(a)) == 0)
      && (forall a, b {:trigger invert(add(a, b))} :: add(a, b) != 0 ==> mul(add(a, b), invert(add(a, b))) == 1)
    }

    ghost predicate PointLaws() {
      && (forall a {:trigger onCurve(act(a, base))} :: onCurve(act(a, base)))
      && (forall a, b {:trigger plus(act(a, base), act(b, base))} ::
            plus(act(a, base), act(b, base)) == act(add(a, b), base))
      && (forall a, r {:trigger act(r, act(a, base))} :: act(r, act(a, base)) == act(mul(a, r), base))
      && (forall r {:trigger act(mul(r, 1), base)} :: act(mul(r, 1), base) == act(r, base))
      && act(1, base) != act(0, base)
    }

    ghost predicate Lawful() {
      ScalarLaws() && PointLaws()
    }
  }

  type Curve = c: CurveOps | c.Lawful() ghost witness (ParityCurveLawful(); ParityCurve())

  /** AEZ, HMAC, hashing and ChaCha. AEZ is never called on an empty input. */
  datatype Ciphers = Ciphers(
    aezEnc: (SymmetricKey, Bytes16, Bytes) -> Bytes,
    aezDec: (SymmetricKey, Bytes16, Bytes) -> Bytes,
    hmac: (SymmetricKey, Bytes) -> Bytes16,
    hash16: Bytes -> Bytes16,        // SHA3-256, cut to 16 bytes
    hashToScalar: Bytes -> Scalar,   // SHA3-512
    chacha: (Bytes32, nat) -> Bytes)
  {
    ghost predicate Lawful() {
      && (forall k, iv, x {:trigger aezEnc(k, iv, x)} :: |aezEnc(k, iv, x)| == |x|)
      && (forall k, iv, x {:trigger aezDec(k, iv, x)} :: |aezDec(k, iv, x)| == |x|)
      && (forall k, iv, x {:trigger aezDec(k, iv, aezEnc(k, iv, x))} :: x != [] ==> aezDec(k, iv, aezEnc(k, iv, x)) == x)
      && (forall k, iv, x {:trigger aezEnc(k, iv, aezDec(k, iv, x))} :: x != [] ==> aezEnc(k, iv, aezDec(k, iv, x)) == x)
      && (forall seed, n {:trigger chacha(seed, n)} :: |chacha(seed, n)| == n)
    }
  }

  /** `EcPrimitives` of the source. */
  datatype Ec = Ec(curve: Curve, ciphers: Ciphers) {

    function SymmetricEncrypt(key: SymmetricKey, nonce: nat, data: Bytes): Bytes {
      if data == [] then [] else ciphers.aezEnc(key, ciphers.hash16(Le(nonce, 4)), data)
    }

    function SymmetricDecrypt(key: SymmetricKey, nonce: nat, data: Bytes): Bytes {
      if data == [] then [] else ciphers.aezDec(key, ciphers.hash16(Le(nonce, 4)), data)
    }

    function DeriveKey(role: KeyRole, key: SymmetricKey): SymmetricKey {
      ciphers.hash16(role.Discriminant() + key)
    }

    function Prng(seed: SymmetricKey, n: nat): Bytes {
      ciphers.chacha(seed + Zeros(16), n)
    }

    function PublicKeyOf(sk: PrivateKey): PublicKey {
      curve.act(sk, curve.base)
    }

    function EncryptedData(r: Scalar, data: Bytes): Bytes {
      SymmetricEncrypt(ciphers.hash16(curve.act(r, curve.base)), 0, data)
    }

    function AsymmetricEncrypt(pk: PublicKey, r: Scalar, data: Bytes): Bytes {
      var c := EncryptedData(r, data);
      var u := curve.act(r, curve.plus(curve.act(ciphers.hashToScalar(c), curve.base), pk));
      u + PackVec(c)
    }

    /** Bytes that hold no point and vector are taken for a mauled ciphertext and give garbage; fewer than 40 of
        them make the source panic. */
    function AsymmetricDecrypt(sk: PrivateKey, data: Bytes): Bytes {
      if |data| >= 32 && curve.onCurve(data[..32]) && ReadVec(data[32..]).Some? then
        var payload := ReadVec(data[32..]).value.0;
        var point := curve.act(curve.invert(curve.add(ciphers.hashToScalar(payload), sk)), data[..32]);
        SymmetricDecrypt(ciphers.hash16(point), 0, payload)
      else if |data| >= 40 then SymmetricDecrypt(ciphers.hash16(data[..32]), 0, data[40..])
      else []
    }

    /** The ciphertext's hash and the public key do not add up to the identity. The encryptor knows all of this
        before it sends anything. A draw that gives the identity itself does no harm. */
    predicate Opens(pk: PublicKey, r: Scalar, data: Bytes) {
      && |data| < U64_LIMIT
      && (|| curve.plus(curve.act(ciphers.hashToScalar(EncryptedData(r, data)), curve.base), pk) != curve.Identity()
          || curve.act(r, curve.base) == curve.Identity())
    }

    function Suite(): Suite {
      ErorPrimitives.Suite.Suite(
        (k: SymmetricKey, n: nat, x: Bytes) => SymmetricEncrypt(k, n, x),
        (k: SymmetricKey, n: nat, x: Bytes) => SymmetricDecrypt(k, n, x),
        (k: SymmetricKey, x: Bytes) => ciphers.hmac(k, x),
        (a: Tag, b: Tag) => Xor(a, b),
        (role: KeyRole, k: SymmetricKey) => DeriveKey(role, k),
        (k: SymmetricKey, n: nat) => Prng(k, n),
        (sk: PrivateKey) => PublicKeyOf(sk),
        (pk: PublicKey, r: Scalar, m: Bytes) => AsymmetricEncrypt(pk, r, m),
        (sk: PrivateKey, c: Bytes) => AsymmetricDecrypt(sk, c),
        (pk: PublicKey, r: Scalar, m: Bytes) => Opens(pk, r, m))
    }
  }

  /** The public sum is the identity exactly if hash and private key cancel. */
  lemma SumIsIdentity(c: Curve, h: Scalar, sk: Scalar)
    ensures c.add(h, sk) == 0 <==> c.plus(c.act(h, c.base), c.act(sk, c.base)) == c.Identity()
  {
    var s := c.add(h, sk);
    var inv := c.invert(s);
    assert c.plus(c.act(h, c.base), c.act(sk, c.base)) == c.act(s, c.base);
    assert c.act(inv, c.act(s, c.base)) == c.act(c.mul(s, inv), c.base);
    assert c.act(inv, c.act(0, c.base)) == c.act(c.mul(0, inv), c.base) == c.Identity();
  }

  /** The point that the receiver recovers is the one the symmetric key came from exactly if hash and private key do
      not cancel, or that point is the identity. If they cancel, every draw leads the receiver to the identity. */
  lemma PointRecovered(c: Curve, h: Scalar, sk: Scalar, r: Scalar)
    ensures var u := c.act(r, c.plus(c.act(h, c.base), c.act(sk, c.base)));
            var recovered := c.act(c.invert(c.add(h, sk)), u);
            && c.onCurve(u)
            && (recovered == c.act(r, c.base) <==> c.add(h, sk) != 0 || c.act(r, c.base) == c.Identity())
            && (c.add(h, sk) == 0 ==> recovered == c.Identity())
  {
    var s := c.add(h, sk);
    var inv := c.invert(s);
    var u := c.act(r, c.plus(c.act(h, c.base), c.act(sk, c.base)));
    assert u == c.act(c.mul(s, r), c.base);
    assert c.act(inv, u) == c.act(c.mul(c.mul(s, r), inv), c.base);
    if s == 0 {
      assert c.mul(c.mul(0, r), inv) == 0;
    } else {
      assert c.Commutes(s, r) && c.Associates(r, s, inv);
      assert c.mul(c.mul(s, r), inv) == c.mul(r, 1);
    }
  }

  lemma SymmetricInverse(e: Ec, key: SymmetricKey, nonce: nat, data: Bytes)
    requires e.ciphers.Lawful()
    ensures e.SymmetricDecrypt(key, nonce, e.SymmetricEncrypt(key, nonce, data)) == data
    ensures e.SymmetricEncrypt(key, nonce, e.SymmetricDecrypt(key, nonce, data)) == data
  {
  }

  lemma DecryptsWithRecoveredPoint(e: Ec, sk: PrivateKey, r: Scalar, data: Bytes)
    requires e.ciphers.Lawful() && |data| < U64_LIMIT
    ensures var c := e.EncryptedData(r, data);
            var h := e.ciphers.hashToScalar(c);
            var u := e.curve.act(r, e.curve.plus(e.curve.act(h, e.curve.base), e.PublicKeyOf(sk)));
            var recovered := e.curve.act(e.curve.invert(e.curve.add(h, sk)), u);
            && |c| == |data|
            && e.AsymmetricDecrypt(sk, e.AsymmetricEncrypt(e.PublicKeyOf(sk), r, data))
               == e.SymmetricDecrypt(e.ciphers.hash16(recovered), 0, c)
  {
    var c := e.EncryptedData(r, data);
    PointRecovered(e.curve, e.ciphers.hashToScalar(c), sk, r);
    VecRoundTrip(c, []);
    var whole := e.AsymmetricEncrypt(e.PublicKeyOf(sk), r, data);
    assert whole[32..] == PackVec(c) + [];
    assert whole[..32] + whole[32..] == whole;
  }

  /** Decryption inverts encryption for every message and every draw that opens. */
  lemma PublicKeyRoundTrip(e: Ec, sk: PrivateKey, r: Scalar, data: Bytes)
    requires e.ciphers.Lawful() && e.Opens(e.PublicKeyOf(sk), r, data)
    ensures e.AsymmetricDecrypt(sk, e.AsymmetricEncrypt(e.PublicKeyOf(sk), r, data)) == data
    ensures |e.AsymmetricEncrypt(e.PublicKeyOf(sk), r, data)| == 40 + |data|
  {
    hide Ec.AsymmetricDecrypt;
    var h := e.ciphers.hashToScalar(e.EncryptedData(r, data));
    DecryptsWithRecoveredPoint(e, sk, r, data);
    PointRecovered(e.curve, h, sk, r);
    SumIsIdentity(e.curve, h, sk);
  }

  /** Any other draw makes the receiver decrypt under the identity's key, which is public. So the message comes
      back exactly if the draw opens, or both keys happen to encrypt this message alike. */
  lemma DecryptionExact(e: Ec, sk: PrivateKey, r: Scalar, data: Bytes)
    requires e.ciphers.Lawful() && |data| < U64_LIMIT
    ensures var pk := e.PublicKeyOf(sk);
            var publicKey := e.ciphers.hash16(e.curve.Identity());
            var decrypted := e.AsymmetricDecrypt(sk, e.AsymmetricEncrypt(pk, r, data));
            && (!e.Opens(pk, r, data) ==> decrypted == e.SymmetricDecrypt(publicKey, 0, e.EncryptedData(r, data)))
            && (decrypted == data
                <==> e.Opens(pk, r, data) || e.SymmetricEncrypt(publicKey, 0, data) == e.EncryptedData(r, data))
  {
    hide Ec.AsymmetricDecrypt, Ec.AsymmetricEncrypt, Ec.SymmetricEncrypt, Ec.SymmetricDecrypt, Ec.EncryptedData;
    var publicKey := e.ciphers.hash16(e.curve.Identity());
    SymmetricInverse(e, publicKey, 0, data);
    SymmetricInverse(e, publicKey, 0, e.EncryptedData(r, data));
    if e.Opens(e.PublicKeyOf(sk), r, data) {
      PublicKeyRoundTrip(e, sk, r, data);
    } else {
      var h := e.ciphers.hashToScalar(e.EncryptedData(r, data));
      DecryptsWithRecoveredPoint(e, sk, r, data);
      PointRecovered(e.curve, h, sk, r);
      SumIsIdentity(e.curve, h, sk);
    }
  }

  /** On every curve, each message and draw have a private key that does not open the ciphertext, unless the draw
      gives the identity: the one that cancels the ciphertext's hash. */
  lemma CancellingKey(e: Ec, r: Scalar, data: Bytes) returns (sk: PrivateKey)
    requires e.ciphers.Lawful() && |data| < U64_LIMIT
    ensures e.Opens(e.PublicKeyOf(sk), r, data) <==> e.curve.act(r, e.curve.base) == e.curve.Identity()
    ensures e.AsymmetricDecrypt(sk, e.AsymmetricEncrypt(e.PublicKeyOf(sk), r, data))
         == e.SymmetricDecrypt(e.ciphers.hash16(e.curve.Identity()), 0, e.EncryptedData(r, data))
  {
    hide Ec.AsymmetricDecrypt, Ec.AsymmetricEncrypt;
    var h := e.ciphers.hashToScalar(e.EncryptedData(r, data));
    sk := e.curve.neg(h);
    SumIsIdentity(e.curve, h, sk);
    DecryptsWithRecoveredPoint(e, sk, r, data);
    PointRecovered(e.curve, h, sk, r);
  }

  // ---------- bytes ----------

  /** A ciphertext is a point, the message's length and the message under the key behind the draw; the point is the
      draw times the sum of hash and public key. */
  lemma CiphertextLayout(e: Ec, pk: PublicKey, r: Scalar, data: Bytes)
    requires e.ciphers.Lawful()
    ensures var c := e.AsymmetricEncrypt(pk, r, data);
            && |c| == 40 + |data|
            && c[32..40] == U64(|data|)
            && c[40..] == e.SymmetricEncrypt(e.ciphers.hash16(e.curve.act(r, e.curve.base)), 0, data)
            && c[..32]
               == e.curve.act(r, e.curve.plus(e.curve.act(e.ciphers.hashToScalar(c[40..]), e.curve.base), pk))
  {
    hide Ec.SymmetricEncrypt, U64;
    var c := e.AsymmetricEncrypt(pk, r, data);
    var body := e.EncryptedData(r, data);
    EncryptedLength(e, e.ciphers.hash16(e.curve.act(r, e.curve.base)), 0, data);
    assert c[40..] == body && c[32..40] == U64(|data|);
  }

  lemma EncryptedLength(e: Ec, key: SymmetricKey, nonce: nat, data: Bytes)
    requires e.ciphers.Lawful()
    ensures |e.SymmetricEncrypt(key, nonce, data)| == |data|
  {
  }

  /** Decryption of any bytes: of what reads as a point and a vector; of longer garbage under a hash of its first 32
      bytes. */
  lemma DecryptOutcome(e: Ec, sk: PrivateKey, data: Bytes)
    requires |data| >= 40
    ensures var len := FromLe(data[32..40]);
            e.AsymmetricDecrypt(sk, data)
            == if e.curve.onCurve(data[..32]) && len <= |data| - 40 then
                 var payload := data[40..40 + len];
                 e.SymmetricDecrypt(
                   e.ciphers.hash16(
                     e.curve.act(e.curve.invert(e.curve.add(e.ciphers.hashToScalar(payload), sk)), data[..32])),
                   0, payload)
               else e.SymmetricDecrypt(e.ciphers.hash16(data[..32]), 0, data[40..])
  {
    hide FromLe, Ec.SymmetricDecrypt;
    var len := FromLe(data[32..40]);
    assert data[32..][..8] == data[32..40] && data[32..][8..] == data[40..];
    if len <= |data| - 40 {
      assert data[40..][..len] == data[40..40 + len];
    }
  }

  /** Two different derivations with the same result exhibit two different inputs with the same hash. */
  lemma DerivedKeysCollide(e: Ec, a: KeyRole, k: SymmetricKey, b: KeyRole, l: SymmetricKey) returns (x: Bytes, y: Bytes)
    requires a.Valid() && b.Valid() && (a, k) != (b, l)
    requires e.DeriveKey(a, k) == e.DeriveKey(b, l)
    ensures x != y && |x| == |y| == 21 && x[5..] == k && y[5..] == l && e.ciphers.hash16(x) == e.ciphers.hash16(y)
  {
    hide KeyRole.Discriminant;
    x, y := a.Discriminant() + k, b.Discriminant() + l;
    assert x[..5] == a.Discriminant() && y[..5] == b.Discriminant();
    if x == y {
      DiscriminantInjective(a, b);
    }
  }

  lemma EcCipherLaws(e: Ec)
    requires e.ciphers.Lawful()
    ensures e.Suite().CipherLaws()
  {
    hide Ec.AsymmetricEncrypt, Ec.AsymmetricDecrypt, Ec.PublicKeyOf, Ec.Opens, Ec.DeriveKey, Ec.Prng;
    forall key: SymmetricKey, nonce: nat, data: Bytes
      ensures e.SymmetricDecrypt(key, nonce, e.SymmetricEncrypt(key, nonce, data)) == data
      ensures e.SymmetricEncrypt(key, nonce, e.SymmetricDecrypt(key, nonce, data)) == data
    {
      SymmetricInverse(e, key, nonce, data);
    }
    hide Ec.SymmetricEncrypt, Ec.SymmetricDecrypt;
  }

  /** So the concrete primitives keep the contract, and every theorem about onions holds for them. */
  lemma EcLawful(e: Ec)
    requires e.ciphers.Lawful()
    ensures e.Suite().Lawful()
  {
    hide Ec.AsymmetricDecrypt, Ec.PublicKeyOf, Ec.Opens, Ec.SymmetricDecrypt, Suite.CipherLaws;
    EcCipherLaws(e);
    var s := e.Suite();
    forall sk: PrivateKey, r: Scalar, m: Bytes | e.Opens(e.PublicKeyOf(sk), r, m)
      ensures s.pkDec(sk, s.pkEnc(s.publicKey(sk), r, m)) == m
    {
      PublicKeyRoundTrip(e, sk, r, m);
    }
  }

  // ---------- the curve laws are consistent: arithmetic modulo 2 keeps them ----------

  predicate Odd(a: Scalar) {
    a % 2 == 1
  }

  function Bit(on: bool): (a: Scalar)
    ensures Odd(a) <==> on
    ensures a == 0 <==> !on
    ensures a == 1 <==> on
  {
    if on then 1 else 0
  }

  function ParityBase(): (p: Point)
    ensures p != Zeros(32)
  {
    assert ([1] + Zeros(31))[0] == 1;
    [1] + Zeros(31)
  }

  function ParityAct(a: Scalar, p: Point): Point {
    if Odd(a) then p else Zeros(32)
  }

  function ParityPlus(p: Point, q: Point): Point {
    if p == Zeros(32) then q else if q == Zeros(32) then p else Zeros(32)
  }

  function ParityAdd(a: Scalar, b: Scalar): Scalar {
    Bit(Odd(a) != Odd(b))
  }

  function ParityMul(a: Scalar, b: Scalar): Scalar {
    Bit(Odd(a) && Odd(b))
  }

  function ParityNeg(a: Scalar): Scalar {
    Bit(Odd(a))
  }

  function ParityInvert(a: Scalar): Scalar {
    Bit(Odd(a))
  }

  predicate Anywhere(p: Point) {
    true
  }

  function ParityCurve(): CurveOps {
    CurveOps(ParityBase(), ParityAct, ParityPlus, ParityAdd, ParityMul, ParityNeg, ParityInvert, Anywhere)
  }

  lemma ParityScalars()
    ensures ParityCurve().ScalarLaws()
  {
    assert !Odd(0);
    hide Odd, Bit;
  }

  lemma ParityPoints()
    ensures ParityCurve().PointLaws()
  {
    assert Odd(1) && !Odd(0);
    hide Odd, Bit, Zeros, ParityBase;
    forall a, b
      ensures ParityPlus(ParityAct(a, ParityBase()), ParityAct(b, ParityBase())) == ParityAct(ParityAdd(a, b), ParityBase())
    {
    }
    hide ParityPlus;
  }

  lemma ParityCurveLawful()
    ensures ParityCurve().Lawful()
  {
    hide ParityCurve;
    ParityScalars();
    ParityPoints();
  }

  function ToyCiphers(): Ciphers {
    Ciphers(
      (k: SymmetricKey, iv: Bytes16, x: Bytes) => KeyedXor(k, 0, x),
      (k: SymmetricKey, iv: Bytes16, x: Bytes) => KeyedXor(k, 0, x),
      (k: SymmetricKey, x: Bytes) => k,
      (x: Bytes) => if |x| >= 16 then x[..16] else Zeros(16),
      (x: Bytes) => 1,
      (seed: Bytes32, n: nat) => Zeros(n))
  }

  lemma ToyCiphersLawful()
    ensures ToyCiphers().Lawful()
  {
    hide KeyedXor;
    forall k: SymmetricKey, x: Bytes
      ensures KeyedXor(k, 0, KeyedXor(k, 0, x)) == x
    {
      KeyedXorCancels(k, 0, x);
    }
  }

  // ---------- the condition on the draw is needed: an instance in full ----------

  lemma ToyBytes()
    ensures XorByte(0, 0) == 0 && XorByte(1, 0) == 1 && XorByte(0, 1) == 1
  {
    assert XorBits(0, 0, 8) == 0;
    assert XorBits(1, 0, 8) == 1;
    assert XorBits(0, 1, 8) == 1;
  }

  function ToyEc(): Ec {
    ParityCurveLawful();
    Ec(ParityCurve(), ToyCiphers())
  }

  lemma ToyCiphertext()
    ensures ToyEc().EncryptedData(1, [0]) == [1]
    ensures ToyEc().AsymmetricEncrypt(ToyEc().PublicKeyOf(1), 1, [0]) == Zeros(32) + PackVec([1])
  {
    ToyBytes();
    hide XorByte;
    var e := ToyEc();
    assert e.EncryptedData(1, [0]) == [1];
    assert e.curve.plus(ParityBase(), ParityBase()) == Zeros(32);
  }

  lemma ToyDecrypts()
    ensures ToyEc().AsymmetricDecrypt(1, Zeros(32) + PackVec([1])) == [1]
  {
    ToyBytes();
    hide XorByte;
    var (u, c) := (Zeros(32), [1]);
    var whole := u + PackVec(c);
    assert whole[..32] == u && whole[32..] == PackVec(c) + [];
    VecRoundTrip(c, []);
    assert KeyedXor(Zeros(16), 0, [1]) == [1];
  }

  /** Under the small instance the key that cancels the hash indeed leads to another message. */
  lemma NotEveryDrawOpens()
    ensures ToyEc().ciphers.Lawful()
    ensures !ToyEc().Opens(ToyEc().PublicKeyOf(1), 1, [0])
    ensures ToyEc().AsymmetricDecrypt(1, ToyEc().AsymmetricEncrypt(ToyEc().PublicKeyOf(1), 1, [0])) == [1]
  {
    hide Ec.AsymmetricEncrypt, Ec.AsymmetricDecrypt, Ec.EncryptedData;
    ToyCiphersLawful();
    ToyCiphertext();
    ToyDecrypts();
  }
}
