/**
 * Fixed-width machine integers as the knapsack program uses them: the `u64`
 * subset mask, its bits and right shifts, the per-item 0/1 characteristic
 * vector decoded from it, and the range of `i32`.
 */
module Bits {

  /** Width of the mask type `u64`: at most this many items have a bit. */
  const MaskWidth: nat := 64

  const I32Min: int := -0x8000_0000
  const I32Max: int := 0x7fff_ffff

  function Pow2(k: nat): (r: nat)
    ensures r >= 1
  {
    if k == 0 then 1 else 2 * Pow2(k - 1)
  }

  lemma {:induction false} Pow2Monotone(j: nat, k: nat)
    requires j <= k
    ensures Pow2(j) <= Pow2(k)
  {
    if j < k {
      Pow2Monotone(j, k - 1);
    }
  }

  /** `m >> i` on an unsigned mask: `i` halvings. */
  function Shr(m: nat, i: nat): nat
  {
    if i == 0 then m else Shr(m / 2, i - 1)
  }

  /**
   * Bit `i` of `m`, that is `(m >> i) & 1`; `m & (1 << i) != 0` is the
   * same test written as `BitOf(m, i) == 1`.
   */
  function BitOf(m: nat, i: nat): (b: nat)
    ensures b == 0 || b == 1
  {
    Shr(m, i) % 2
  }

  /** No bit of the empty mask is set. */
  lemma {:induction false} BitOfZero(i: nat)
    ensures BitOf(0, i) == 0
  {
    if i > 0 {
      BitOfZero(i - 1);
    }
  }

  /**
   * The characteristic vector of `mask` over `n` items:
   * `(0..n).map(|i| ((mask >> i) & 1) as u8)`.
   */
  function Decode(mask: nat, n: nat): (v: seq<nat>)
    ensures |v| == n
    ensures forall i :: 0 <= i < n ==> v[i] <= 1
  {
    seq(n, i requires 0 <= i < n => BitOf(mask, i))
  }

  /** The number whose binary digits, least significant first, are `v`. */
  function FromBits(v: seq<nat>): nat
  {
    if v == [] then 0 else v[0] + 2 * FromBits(v[1..])
  }

  /** The positional reading of a digit vector, the sum of `v[i] * 2^i`. */
  function PositionalSum(v: seq<nat>): nat
  {
    if v == [] then 0 else PositionalSum(v[..|v| - 1]) + v[|v| - 1] * Pow2(|v| - 1)
  }

  /** Appending a most significant digit `b` adds `b * 2^|v|`. */
  lemma {:induction false} FromBitsSnoc(v: seq<nat>, b: nat)
    ensures FromBits(v + [b]) == FromBits(v) + b * Pow2(|v|)
  {
    if v == [] {
      assert [b][1..] == [];
    } else {
      assert (v + [b])[1..] == v[1..] + [b];
      FromBitsSnoc(v[1..], b);
      var p := Pow2(|v| - 1);
      assert 2 * (b * p) == b * (2 * p);
    }
  }

  /** The recursive reading of a digit vector is the sum of `v[i] * 2^i`. */
  lemma {:induction false} FromBitsIsPositionalSum(v: seq<nat>)
    ensures FromBits(v) == PositionalSum(v)
  {
    if v != [] {
      var init := v[..|v| - 1];
      assert v == init + [v[|v| - 1]];
      FromBitsSnoc(init, v[|v| - 1]);
      FromBitsIsPositionalSum(init);
    }
  }

  /** A vector of `n` binary digits denotes a number below `2^n`. */
  lemma {:induction false} FromBitsBound(v: seq<nat>)
    requires forall i :: 0 <= i < |v| ==> v[i] <= 1
    ensures FromBits(v) < Pow2(|v|)
  {
    if v != [] {
      FromBitsBound(v[1..]);
    }
  }

  /** Bit 0 of the vector is the low bit, the rest is the vector of the halved mask. */
  lemma DecodeStep(mask: nat, n: nat)
    ensures Decode(mask, n + 1) == [mask % 2] + Decode(mask / 2, n)
  {
    var d, e := Decode(mask, n + 1), [mask % 2] + Decode(mask / 2, n);
    forall i | 0 <= i < n + 1
      ensures d[i] == e[i]
    {
      if i > 0 {
        assert Shr(mask, i) == Shr(mask / 2, i - 1);
      }
    }
  }

  /** Decoding a mask below `2^n` and reading the vector back gives the mask. */
  lemma {:induction false} DecodeRoundTrip(mask: nat, n: nat)
    requires mask < Pow2(n)
    ensures FromBits(Decode(mask, n)) == mask
  {
    if n > 0 {
      DecodeStep(mask, n - 1);
      DecodeRoundTrip(mask / 2, n - 1);
      var d := [mask % 2] + Decode(mask / 2, n - 1);
      assert d[1..] == Decode(mask / 2, n - 1);
    }
  }

  /** Reading a 0/1 vector as a mask and decoding it gives the vector back. */
  lemma {:induction false} EncodeRoundTrip(v: seq<nat>)
    requires forall i :: 0 <= i < |v| ==> v[i] <= 1
    ensures Decode(FromBits(v), |v|) == v
  {
    if v != [] {
      var m := FromBits(v);
      assert m % 2 == v[0] && m / 2 == FromBits(v[1..]);
      DecodeStep(m, |v| - 1);
      EncodeRoundTrip(v[1..]);
      assert v == [v[0]] + v[1..];
    }
  }

  /** Bits at positions `n` and above do not show in the first `n` entries. */
  lemma {:induction false} DecodeIgnoresHighBits(mask: nat, k: nat, n: nat)
    ensures Decode(mask + k * Pow2(n), n) == Decode(mask, n)
  {
    if n > 0 {
      var t := k * Pow2(n - 1);
      var big := mask + k * Pow2(n);
      assert k * Pow2(n) == 2 * t;
      assert big % 2 == mask % 2 && big / 2 == mask / 2 + t;
      DecodeStep(big, n - 1);
      DecodeStep(mask, n - 1);
      DecodeIgnoresHighBits(mask / 2, k, n - 1);
    }
  }
}
