/** The filler string: what the zero padding of all nodes turns into, computed ahead by the sender
    (sphinx/src/header/filler.rs). */
module SphinxFiller {
  import opened Octets
  import opened SphinxSuite
  import opened SphinxKeys

  function FillerStepped(s: Suite, filler: Bytes, i: nat, pseudorandom: Bytes): (f: Bytes)
    requires 0 < i <= s.maxPathLength + 1
    requires |filler| == STEP * (i - 1) && |pseudorandom| == s.StreamLength()
    ensures |f| == STEP * i
  {
    Xor(filler + Zeros(STEP), pseudorandom[|pseudorandom| - i * STEP..])
  }

  /** The filler after the first `n` nodes. */
  function Filler(s: Suite, keys: seq<RoutingKeys>, n: nat): (f: Bytes)
    requires n <= |keys| && n <= s.maxPathLength
    ensures |f| == STEP * n
  {
    if n == 0 then [] else FillerStepped(s, Filler(s, keys, n - 1), n, Stream(s, keys[n - 1].stream))
  }

  method FillerStep(s: Suite, accumulator: Bytes, i: nat, pseudorandom: Bytes) returns (filler: Bytes)
    requires 0 < i <= s.maxPathLength + 1
    requires |accumulator| == STEP * (i - 1) && |pseudorandom| == s.StreamLength()
    ensures filler == FillerStepped(s, accumulator, i, pseudorandom)
  {
    var extended := accumulator + Zeros(STEP);
    var buffer := new u8[|extended|](k requires 0 <= k < |extended| => extended[k]);
    assert buffer[..] == extended;
    XorWith(buffer, pseudorandom[|pseudorandom| - i * STEP..]);
    filler := buffer[..];
  }

  method NewFiller(s: Suite, keys: seq<RoutingKeys>) returns (filler: Bytes)
    requires |keys| <= s.maxPathLength
    ensures filler == Filler(s, keys, |keys|)
  {
    filler := [];
    for i := 0 to |keys|
      invariant filler == Filler(s, keys, i)
    {
      filler := FillerStep(s, filler, i + 1, Stream(s, keys[i].stream));
    }
  }

  /** Keys beyond the first `n` have no part in the filler. */
  lemma {:induction false} FillerOfPrefix(s: Suite, keys: seq<RoutingKeys>, m: nat, n: nat)
    requires n <= m <= |keys| && n <= s.maxPathLength
    ensures Filler(s, keys[..m], n) == Filler(s, keys, n)
  {
    hide FillerStepped, Stream;
    if n > 0 {
      FillerOfPrefix(s, keys, m, n - 1);
    }
  }

  // ---------- closed form ----------

  /** The exclusive or of what the steps `from` to `n - 1` contribute to byte `t`: step `j` contributes byte
      60 * (R - j) + t of the 60 * (R + 1) bytes of keystream under key `j`, R being the maximal path length. */
  function Contributions(s: Suite, keys: seq<RoutingKeys>, t: nat, from: nat, n: nat): u8
    requires n <= |keys| && n <= s.maxPathLength && from <= n
    requires t < 60 * (from + 1)
    decreases n - from
  {
    if from == n then 0
    else
      var j := n - 1;
      XorByte(Contributions(s, keys, t, from, j),
              s.keystream(keys[j].stream, 60 * (s.maxPathLength + 1))[60 * (s.maxPathLength - j) + t])
  }

  lemma FillerByte(s: Suite, keys: seq<RoutingKeys>, n: nat, t: nat)
    requires 0 < n <= |keys| && n <= s.maxPathLength && t < STEP * n
    ensures Filler(s, keys, n)[t]
         == XorByte(if t < STEP * (n - 1) then Filler(s, keys, n - 1)[t] else 0,
                    s.keystream(keys[n - 1].stream, 60 * (s.maxPathLength + 1))[60 * (s.maxPathLength - (n - 1)) + t])
  {
    hide XorByte;
  }

  /** Byte `t` of the filler is the exclusive or over every step that covers it, the first being step
      `t / STEP`. */
  lemma {:induction false} FillerClosedForm(s: Suite, keys: seq<RoutingKeys>, n: nat, t: nat)
    requires n <= |keys| && n <= s.maxPathLength && t < 60 * n
    ensures Filler(s, keys, n)[t] == Contributions(s, keys, t, t / 60, n)
  {
    hide XorByte, Stream, Filler;
    FillerByte(s, keys, n, t);
    assert STEP == 60;
    assert t / 60 < n;
    if t < 60 * (n - 1) {
      assert t / 60 < n - 1;
      FillerClosedForm(s, keys, n - 1, t);
    } else {
      assert t / 60 == n - 1;
    }
  }

  /** Node `n`'s zero padding is encrypted into the last STEP bytes of the next filler; the bytes before those
      are the old filler under the same keystream. */
  lemma FillerParts(s: Suite, keys: seq<RoutingKeys>, n: nat)
    requires n < |keys| && n < s.maxPathLength
    ensures var stream := Stream(s, keys[n].stream);
            && Filler(s, keys, n + 1)[..STEP * n]
               == Xor(Filler(s, keys, n), stream[s.RoutingInfoSize() - STEP * n..s.RoutingInfoSize()])
            && Filler(s, keys, n + 1)[STEP * n..] == stream[s.RoutingInfoSize()..]
  {
    hide Stream;
    var stream := Stream(s, keys[n].stream);
    var (filler, size) := (Filler(s, keys, n), s.RoutingInfoSize());
    assert Filler(s, keys, n + 1) == FillerStepped(s, filler, n + 1, stream);
    hide Filler;
    var used := stream[size - STEP * n..];
    XorConcat(filler, Zeros(STEP), used);
    assert used[..STEP * n] == stream[size - STEP * n..size];
    assert used[STEP * n..] == stream[size..];
    XorZeros(stream[size..]);
  }
}
