/** Byte strings and their bitwise sum (sphinx/src/utils/bytes.rs). */
module Octets {

  newtype u8 = x: int | 0 <= x < 256
  type Bytes = seq<u8>

  // ---------- exclusive or of two numbers, digit by binary digit ----------

  function Pow2(k: nat): nat {
    if k == 0 then 1 else 2 * Pow2(k - 1)
  }

  function XorBits(a: nat, b: nat, k: nat): (c: nat)
    ensures c < Pow2(k)
  {
    if k == 0 then 0 else (if a % 2 == b % 2 then 0 else 1) + 2 * XorBits(a / 2, b / 2, k - 1)
  }

  lemma {:induction false} XorBitsCancels(a: nat, b: nat, k: nat)
    requires a < Pow2(k)
    ensures XorBits(XorBits(a, b, k), b, k) == a
  {
    if k > 0 {
      var rest := XorBits(a / 2, b / 2, k - 1);
      var low := if a % 2 == b % 2 then 0 else 1;
      var c := XorBits(a, b, k);
      assert c == low + 2 * rest;
      assert c / 2 == rest && c % 2 == low;
      XorBitsCancels(a / 2, b / 2, k - 1);
      assert XorBits(c, b, k) == (if c % 2 == b % 2 then 0 else 1) + 2 * XorBits(rest, b / 2, k - 1);
    }
  }

  lemma {:induction false} XorBitsZero(b: nat, k: nat)
    requires b < Pow2(k)
    ensures XorBits(0, b, k) == b
  {
    if k > 0 {
      XorBitsZero(b / 2, k - 1);
    }
  }

  lemma ByteRange()
    ensures Pow2(8) == 256
  {
    assert Pow2(4) == 16;
  }

  function XorByte(a: u8, b: u8): u8 {
    ByteRange();
    XorBits(a as nat, b as nat, 8) as u8
  }

  /** Binary digit `k` of a number, the lowest first. */
  function BinaryDigit(n: nat, k: nat): (d: nat)
    ensures d < 2
  {
    if k == 0 then n % 2 else BinaryDigit(n / 2, k - 1)
  }

  lemma {:induction false} DigitOfXorBits(a: nat, b: nat, width: nat, k: nat)
    requires k < width
    ensures BinaryDigit(XorBits(a, b, width), k) == (BinaryDigit(a, k) + BinaryDigit(b, k)) % 2
  {
    var rest := XorBits(a / 2, b / 2, width - 1);
    var low := if a % 2 == b % 2 then 0 else 1;
    assert XorBits(a, b, width) == low + 2 * rest;
    assert (low + 2 * rest) / 2 == rest && (low + 2 * rest) % 2 == low;
    if k > 0 {
      DigitOfXorBits(a / 2, b / 2, width - 1, k - 1);
    }
  }

  lemma {:induction false} DigitsDetermine(a: nat, b: nat, width: nat)
    requires a < Pow2(width) && b < Pow2(width)
    requires forall k: nat :: k < width ==> BinaryDigit(a, k) == BinaryDigit(b, k)
    ensures a == b
  {
    if width > 0 {
      assert BinaryDigit(a, 0) == BinaryDigit(b, 0);
      forall k: nat | k < width - 1
        ensures BinaryDigit(a / 2, k) == BinaryDigit(b / 2, k)
      {
        assert BinaryDigit(a, k + 1) == BinaryDigit(b, k + 1);
      }
      DigitsDetermine(a / 2, b / 2, width - 1);
    }
  }

  ghost predicate SumOfDigits(a: nat, b: nat, c: nat) {
    forall k: nat :: k < 8 ==> BinaryDigit(c, k) == (BinaryDigit(a, k) + BinaryDigit(b, k)) % 2
  }

  /** The exclusive or of two bytes is the only byte whose eight digits are the sums modulo 2 of theirs. */
  lemma XorByteExactly(a: u8, b: u8, c: u8)
    ensures c == XorByte(a, b) <==> SumOfDigits(a as nat, b as nat, c as nat)
  {
    ByteRange();
    var (x, y, z) := (a as nat, b as nat, c as nat);
    var sum := XorBits(x, y, 8);
    forall k: nat | k < 8
      ensures BinaryDigit(sum, k) == (BinaryDigit(x, k) + BinaryDigit(y, k)) % 2
    {
      DigitOfXorBits(x, y, 8, k);
    }
    if SumOfDigits(x, y, z) {
      DigitsDetermine(z, sum, 8);
    }
  }

  // ---------- byte strings ----------

  function Zeros(n: nat): (z: Bytes)
    ensures |z| == n && forall i :: 0 <= i < n ==> z[i] == 0
  {
    seq(n, _ => 0)
  }

  /** The first `n` bytes of a random source. */
  function Drawn(source: nat -> u8, n: nat): (b: Bytes)
    ensures |b| == n && forall i: nat :: i < n ==> b[i] == source(i)
  {
    seq(n, i requires 0 <= i < n => source(i))
  }

  type Bytes16 = b: Bytes | |b| == 16 witness Zeros(16)
  type Bytes32 = b: Bytes | |b| == 32 witness Zeros(32)

  function Xor(a: Bytes, b: Bytes): (c: Bytes)
    requires |a| == |b|
    ensures |c| == |a| && forall i :: 0 <= i < |a| ==> c[i] == XorByte(a[i], b[i])
  {
    seq(|a|, i requires 0 <= i < |a| => XorByte(a[i], b[i]))
  }

  lemma XorCancels(a: Bytes, k: Bytes)
    requires |a| == |k|
    ensures Xor(Xor(a, k), k) == a
  {
    ByteRange();
    forall i | 0 <= i < |a|
      ensures XorByte(XorByte(a[i], k[i]), k[i]) == a[i]
    {
      XorBitsCancels(a[i] as nat, k[i] as nat, 8);
    }
  }

  lemma XorZeros(k: Bytes)
    ensures Xor(Zeros(|k|), k) == k
  {
    ByteRange();
    forall i | 0 <= i < |k|
      ensures XorByte(0, k[i]) == k[i]
    {
      XorBitsZero(k[i] as nat, 8);
    }
  }

  lemma XorSlice(a: Bytes, b: Bytes, lo: nat, hi: nat)
    requires |a| == |b| && lo <= hi <= |a|
    ensures Xor(a, b)[lo..hi] == Xor(a[lo..hi], b[lo..hi])
  {
  }

  lemma XorConcat(a: Bytes, b: Bytes, k: Bytes)
    requires |a| + |b| == |k|
    ensures Xor(a + b, k) == Xor(a, k[..|a|]) + Xor(b, k[|a|..])
  {
  }

  /** The in-place form: every byte of `a` is overwritten once, from left to right. */
  method XorWith(a: array<u8>, b: Bytes)
    requires a.Length == |b|
    modifies a
    ensures a[..] == Xor(old(a[..]), b)
  {
    for i := 0 to a.Length
      invariant forall k :: 0 <= k < i ==> a[k] == XorByte(old(a[k]), b[k])
      invariant forall k :: i <= k < a.Length ==> a[k] == old(a[k])
    {
      a[i] := XorByte(a[i], b[i]);
    }
  }
}
