/** A delay is a 64-bit number of nanoseconds, sent big-endian (sphinx/src/header/delays.rs). */
module SphinxDelays {
  import opened Octets
  import opened Bincode

  type Delay = n: nat | n < U64_LIMIT

  function Be(n: nat, width: nat): (b: Bytes)
    ensures |b| == width
  {
    seq(width, i requires 0 <= i < width => Digit(n, width - 1 - i))
  }

  function FromBe(b: Bytes): (n: nat)
    ensures n < Pow256(|b|)
  {
    if b == [] then 0 else 256 * FromBe(b[..|b| - 1]) + b[|b| - 1] as nat
  }

  lemma {:induction false} BeRoundTrip(n: nat, width: nat)
    requires n < Pow256(width)
    ensures FromBe(Be(n, width)) == n
  {
    if width > 0 {
      var b := Be(n, width);
      BeRoundTrip(n / 256, width - 1);
      forall i | 0 <= i < width - 1
        ensures b[i] == Be(n / 256, width - 1)[i]
      {
        assert b[i] == Digit(n, width - 1 - i);
      }
      assert b[..width - 1] == Be(n / 256, width - 1);
      assert b[width - 1] == Digit(n, 0);
    }
  }

  function DelayBytes(d: Delay): (b: Bytes)
    ensures |b| == 8
  {
    Be(d, 8)
  }

  function DelayOf(b: Bytes): Delay
    requires |b| == 8
  {
    Limits();
    FromBe(b)
  }

  lemma DelayRoundTrip(d: Delay)
    ensures DelayOf(DelayBytes(d)) == d
  {
    Limits();
    BeRoundTrip(d, 8);
  }
}
