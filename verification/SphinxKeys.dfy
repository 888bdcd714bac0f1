/** Key derivation and blinding (sphinx/src/header/keys.rs). */
module SphinxKeys {
  import opened Octets
  import opened SphinxSuite

  datatype RoutingKeys = RoutingKeys(stream: Bytes16, mac: Bytes16, payload: PayloadKey, blinding: Bytes32)

  datatype Node = Node(address: Bytes32, pubKey: Point)

  function Derived(s: Suite, shared: Point): RoutingKeys {
    var output := s.hkdf(shared);
    RoutingKeys(output[..16], output[16..32], output[32..224], output[224..256])
  }

  /** The four keys split up the whole HKDF output: no byte is used twice and none is left over. */
  lemma KeysPartitionOutput(s: Suite, shared: Point)
    ensures var k := Derived(s, shared);
            k.stream + k.mac + k.payload + k.blinding == s.hkdf(shared)
  {
  }

  method Derive(s: Suite, shared: Point) returns (k: RoutingKeys)
    ensures k == Derived(s, shared)
  {
    var i := 0;
    var output := s.hkdf(shared);
    var stream := output[i..i + STREAM_KEY_SIZE];
    i := i + STREAM_KEY_SIZE;
    var mac := output[i..i + MAC_KEY_SIZE];
    i := i + MAC_KEY_SIZE;
    var payload := output[i..i + PAYLOAD_KEY_SIZE];
    i := i + PAYLOAD_KEY_SIZE;
    var blinding := output[i..i + BLINDING_FACTOR_SIZE];
    k := RoutingKeys(stream, mac, payload, blinding);
  }

  // ---------- the sender's side ----------

  /** The sender's secret after `i` blindings. */
  function Accumulator(s: Suite, route: seq<Node>, secret: Scalar, i: nat): Scalar
    requires i <= |route|
    decreases i, 0
  {
    if i == 0 then secret
    else s.mul(Accumulator(s, route, secret, i - 1), s.scalarOf(KeysAt(s, route, secret, i - 1).blinding))
  }

  function KeysAt(s: Suite, route: seq<Node>, secret: Scalar, i: nat): RoutingKeys
    requires i < |route|
    decreases i, 1
  {
    Derived(s, s.act(Accumulator(s, route, secret, i), route[i].pubKey))
  }

  function AllKeys(s: Suite, route: seq<Node>, secret: Scalar): (k: seq<RoutingKeys>)
    ensures |k| == |route|
    ensures forall i :: 0 <= i < |route| ==> k[i] == KeysAt(s, route, secret, i)
  {
    seq(|route|, i requires 0 <= i < |route| => KeysAt(s, route, secret, i))
  }

  method DeriveKeyMaterial(s: Suite, route: seq<Node>, secret: Scalar) returns (initial: Point, keys: seq<RoutingKeys>)
    ensures initial == s.act(secret, s.base)
    ensures keys == AllKeys(s, route, secret)
  {
    hide Derived;
    initial := s.act(secret, s.base);
    keys := [];
    var accumulator := secret;
    for i := 0 to |route|
      invariant |keys| == i && forall k :: 0 <= k < i ==> keys[k] == KeysAt(s, route, secret, k)
      invariant accumulator == Accumulator(s, route, secret, i)
    {
      var nodeKeys := Derive(s, s.act(accumulator, route[i].pubKey));
      if i != |route| + 1 {
        accumulator := s.mul(accumulator, s.scalarOf(nodeKeys.blinding));
      }
      keys := keys + [nodeKeys];
    }
  }

  // ---------- the nodes' side ----------

  /** Node `i`'s keys from the shared secret in the header it received. */
  function NodeKeys(s: Suite, sk: PrivateKey, shared: Point): RoutingKeys {
    Derived(s, s.act(sk, shared))
  }

  function Blinded(s: Suite, shared: Point, keys: RoutingKeys): Point {
    s.act(s.scalarOf(keys.blinding), shared)
  }

  /** The shared secret as it arrives at node `i`, after each node before it blinded what it got. */
  function SecretAt(s: Suite, sks: seq<PrivateKey>, secret: Scalar, i: nat): Point
    requires i <= |sks|
  {
    if i == 0 then s.act(secret, s.base)
    else
      var before := SecretAt(s, sks, secret, i - 1);
      Blinded(s, before, NodeKeys(s, sks[i - 1], before))
  }

  ghost predicate KeyPairs(s: Suite, route: seq<Node>, sks: seq<PrivateKey>) {
    |route| == |sks| && forall i :: 0 <= i < |route| ==> route[i].pubKey == s.act(sks[i], s.base)
  }

  lemma SameSharedPoint(s: Suite, a: Scalar, sk: PrivateKey)
    ensures s.act(sk, s.act(a, s.base)) == s.act(a, s.act(sk, s.base))
  {
    assert s.mul(a, sk) == s.mul(sk, a);
  }

  /** The accumulator and the blinded secrets stay in step. */
  lemma {:induction false} SecretsAgree(s: Suite, route: seq<Node>, sks: seq<PrivateKey>, secret: Scalar, i: nat)
    requires KeyPairs(s, route, sks) && i <= |route|
    ensures SecretAt(s, sks, secret, i) == s.act(Accumulator(s, route, secret, i), s.base)
  {
    hide Derived;
    if i > 0 {
      SecretsAgree(s, route, sks, secret, i - 1);
      SameSharedPoint(s, Accumulator(s, route, secret, i - 1), sks[i - 1]);
    }
  }

  /** Each node derives exactly the keys that the sender derived for it. */
  lemma BlindingAgreement(s: Suite, route: seq<Node>, sks: seq<PrivateKey>, secret: Scalar, i: nat)
    requires KeyPairs(s, route, sks) && i < |route|
    ensures NodeKeys(s, sks[i], SecretAt(s, sks, secret, i)) == KeysAt(s, route, secret, i)
  {
    hide Derived;
    SecretsAgree(s, route, sks, secret, i);
    SameSharedPoint(s, Accumulator(s, route, secret, i), sks[i]);
  }
}
