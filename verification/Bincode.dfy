/** The part of the bincode wire format that the onions rely on: fixed-width little-endian integers,
    and byte vectors and vectors of byte vectors prefixed by a 64-bit length.
    A reader consumes a prefix and hands back the rest; `None` is an end of input. */
module Bincode {
  import opened Wrappers
  import opened Octets

  const U32_LIMIT: nat := 0x1_0000_0000
  const U64_LIMIT: nat := 0x1_0000_0000_0000_0000

  // ---------- integers ----------

  /** Digit `i` of a number to base 256, the lowest first. */
  function Digit(n: nat, i: nat): u8 {
    if i == 0 then (n % 256) as u8 else Digit(n / 256, i - 1)
  }

  function Le(n: nat, width: nat): (b: Bytes)
    ensures |b| == width
  {
    seq(width, i requires 0 <= i < width => Digit(n, i))
  }

  function FromLe(b: Bytes): nat {
    if b == [] then 0 else b[0] as nat + 256 * FromLe(b[1..])
  }

  function Pow256(width: nat): nat {
    if width == 0 then 1 else 256 * Pow256(width - 1)
  }

  lemma {:induction false} LeRoundTrip(n: nat, width: nat)
    requires n < Pow256(width)
    ensures FromLe(Le(n, width)) == n
  {
    if width > 0 {
      LeRoundTrip(n / 256, width - 1);
      var b := Le(n, width);
      assert b[1..] == Le(n / 256, width - 1);
      assert b[0] == (n % 256) as u8;
    }
  }

  /** Any bytes are the bytes of the number that is read from them. */
  lemma {:induction false} LeOfBytes(b: Bytes)
    ensures FromLe(b) < Pow256(|b|)
    ensures Le(FromLe(b), |b|) == b
  {
    if b != [] {
      var rest := FromLe(b[1..]);
      LeOfBytes(b[1..]);
      assert FromLe(b) % 256 == b[0] as nat && FromLe(b) / 256 == rest;
      forall i | 0 <= i < |b|
        ensures Le(FromLe(b), |b|)[i] == b[i]
      {
        if i > 0 {
          assert Digit(FromLe(b), i) == Digit(rest, i - 1) == Le(rest, |b| - 1)[i - 1];
        }
      }
    }
  }

  lemma Limits()
    ensures Pow256(4) == U32_LIMIT && Pow256(8) == U64_LIMIT
  {
    assert Pow256(4) == U32_LIMIT;
  }

  function U64(n: nat): (b: Bytes)
    ensures |b| == 8
  {
    Le(n, 8)
  }

  function ReadU64(b: Bytes): Option<(nat, Bytes)> {
    if |b| < 8 then None else Some((FromLe(b[..8]), b[8..]))
  }

  lemma U64RoundTrip(n: nat, rest: Bytes)
    requires n < U64_LIMIT
    ensures ReadU64(U64(n) + rest) == Some((n, rest))
  {
    Limits();
    LeRoundTrip(n, 8);
    assert (U64(n) + rest)[..8] == U64(n);
  }

  /** Digit `i` is what is left of dividing by 256 to the `i`, the lowest byte first. */
  lemma U32Bytes(n: nat)
    ensures Le(n, 4)
         == [(n % 256) as u8, (n / 0x100 % 256) as u8, (n / 0x1_0000 % 256) as u8, (n / 0x100_0000 % 256) as u8]
  {
    var n1 := n / 256;
    var n2 := n1 / 256;
    var n3 := n2 / 256;
    assert n2 == n / 0x1_0000 && n3 == n / 0x100_0000;
    assert Digit(n, 1) == Digit(n1, 0);
    assert Digit(n, 2) == Digit(n1, 1) == Digit(n2, 0);
    assert Digit(n, 3) == Digit(n1, 2) == Digit(n2, 1) == Digit(n3, 0);
    hide Digit;
  }

  lemma U64Bytes(n: nat)
    ensures U64(n) == Le(n, 4) + Le(n / U32_LIMIT, 4)
  {
    var high := n / 256 / 256 / 256 / 256;
    assert high == n / U32_LIMIT;
    forall i | 4 <= i < 8
      ensures Digit(n, i) == Digit(high, i - 4)
    {
      assert Digit(n, i) == Digit(n / 256 / 256, i - 2) == Digit(high, i - 4);
    }
  }

  // ---------- byte vectors ----------

  function PackVec(v: Bytes): (b: Bytes)
    ensures |b| == 8 + |v|
  {
    U64(|v|) + v
  }

  function ReadVec(b: Bytes): (r: Option<(Bytes, Bytes)>)
    ensures r.Some? ==> |r.value.1| < |b|
  {
    match ReadU64(b)
    case None => None
    case Some((len, rest)) => if |rest| < len then None else Some((rest[..len], rest[len..]))
  }

  lemma VecRoundTrip(v: Bytes, rest: Bytes)
    requires |v| < U64_LIMIT
    ensures ReadVec(PackVec(v) + rest) == Some((v, rest))
  {
    U64RoundTrip(|v|, v + rest);
    assert PackVec(v) + rest == U64(|v|) + (v + rest);
  }

  /** What is read is what was there. */
  lemma ReadVecInverts(b: Bytes)
    requires ReadVec(b).Some?
    ensures var (v, rest) := ReadVec(b).value;
            |v| < U64_LIMIT && b == PackVec(v) + rest
  {
    Limits();
    LeOfBytes(b[..8]);
    var len := FromLe(b[..8]);
    assert b == b[..8] + (b[8..][..len] + b[8..][len..]);
  }

  // ---------- vectors of byte vectors ----------

  function PackAll(vs: seq<Bytes>): Bytes {
    if vs == [] then [] else PackVec(vs[0]) + PackAll(vs[1..])
  }

  function ReadAll(b: Bytes, count: nat): Option<(seq<Bytes>, Bytes)>
    decreases count
  {
    if count == 0 then Some(([], b)) else
    match ReadVec(b)
    case None => None
    case Some((v, rest)) =>
      match ReadAll(rest, count - 1)
      case None => None
      case Some((vs, end)) => Some(([v] + vs, end))
  }

  function PackVecs(vs: seq<Bytes>): Bytes {
    U64(|vs|) + PackAll(vs)
  }

  function ReadVecs(b: Bytes): Option<(seq<Bytes>, Bytes)> {
    match ReadU64(b)
    case None => None
    case Some((count, rest)) => ReadAll(rest, count)
  }

  ghost predicate Encodable(vs: seq<Bytes>) {
    |vs| < U64_LIMIT && forall i :: 0 <= i < |vs| ==> |vs[i]| < U64_LIMIT
  }

  lemma ReadAllStep(head: Bytes, b: Bytes, v: Bytes, vs: seq<Bytes>, rest: Bytes)
    requires ReadVec(head + b) == Some((v, b))
    requires ReadAll(b, |vs|) == Some((vs, rest))
    ensures ReadAll(head + b, |vs| + 1) == Some(([v] + vs, rest))
  {
  }

  lemma {:induction false} ConsRoundTrip(v: Bytes, vs: seq<Bytes>, rest: Bytes)
    requires |v| < U64_LIMIT
    requires forall i :: 0 <= i < |vs| ==> |vs[i]| < U64_LIMIT
    ensures ReadAll(PackAll([v] + vs) + rest, |vs| + 1) == Some(([v] + vs, rest))
    decreases |vs|, 1
  {
    var b := PackAll(vs) + rest;
    assert PackAll([v] + vs) + rest == PackVec(v) + b by {
      assert ([v] + vs)[1..] == vs;
    }
    assert ReadVec(PackVec(v) + b) == Some((v, b)) by {
      VecRoundTrip(v, b);
    }
    assert ReadAll(b, |vs|) == Some((vs, rest)) by {
      AllRoundTrip(vs, rest);
    }
    ReadAllStep(PackVec(v), b, v, vs, rest);
  }

  lemma {:induction false} AllRoundTrip(vs: seq<Bytes>, rest: Bytes)
    requires forall i :: 0 <= i < |vs| ==> |vs[i]| < U64_LIMIT
    ensures ReadAll(PackAll(vs) + rest, |vs|) == Some((vs, rest))
    decreases |vs|, 0
  {
    if vs == [] {
      assert PackAll(vs) + rest == rest;
    } else {
      ConsRoundTrip(vs[0], vs[1..], rest);
      assert [vs[0]] + vs[1..] == vs;
    }
  }

  lemma VecsRoundTrip(vs: seq<Bytes>, rest: Bytes)
    requires Encodable(vs)
    ensures ReadVecs(PackVecs(vs) + rest) == Some((vs, rest))
  {
    U64RoundTrip(|vs|, PackAll(vs) + rest);
    AllRoundTrip(vs, rest);
    assert PackVecs(vs) + rest == U64(|vs|) + (PackAll(vs) + rest);
  }

  lemma {:induction false} ReadAllInverts(b: Bytes, count: nat)
    requires ReadAll(b, count).Some?
    ensures var (vs, rest) := ReadAll(b, count).value;
            && |vs| == count
            && (forall i :: 0 <= i < |vs| ==> |vs[i]| < U64_LIMIT)
            && b == PackAll(vs) + rest
    decreases count
  {
    hide PackVec, ReadVec;
    if count > 0 {
      var (v, rest) := ReadVec(b).value;
      ReadVecInverts(b);
      ReadAllInverts(rest, count - 1);
      var (vs, end) := ReadAll(rest, count - 1).value;
      assert ([v] + vs)[1..] == vs;
      assert PackVec(v) + (PackAll(vs) + end) == (PackVec(v) + PackAll(vs)) + end;
    }
  }

  lemma ReadVecsInverts(b: Bytes)
    requires ReadVecs(b).Some?
    ensures var (vs, rest) := ReadVecs(b).value;
            Encodable(vs) && b == PackVecs(vs) + rest
  {
    Limits();
    LeOfBytes(b[..8]);
    ReadAllInverts(b[8..], FromLe(b[..8]));
    var (vs, rest) := ReadVecs(b).value;
    assert b == U64(|vs|) + (PackAll(vs) + rest);
  }

  lemma Distribute(n: nat, unit: nat)
    ensures (n + 1) * unit == n * unit + unit
  {
  }

  lemma {:induction false} PackAllLength(vs: seq<Bytes>, block: nat)
    requires forall i :: 0 <= i < |vs| ==> |vs[i]| == block
    ensures |PackAll(vs)| == |vs| * (8 + block)
  {
    if vs != [] {
      PackAllLength(vs[1..], block);
      Distribute(|vs| - 1, 8 + block);
    }
  }
}
