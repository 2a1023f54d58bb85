/** A 64-bit limb seen as its sequence of bits, least significant first, with the
    shifts and the disjunction that the sieve of primesieve.c uses. */
module Limbs {

  type Limb = x: seq<bool> | |x| == 64 witness seq(64, i => false)

  /** C leaves a shift by the full width undefined; here it may not happen. */
  function Shl(x: Limb, k: nat): (r: Limb)
    requires k < 64
    ensures forall j :: 0 <= j < 64 ==> r[j] == (k <= j && x[j - k])
  {
    seq(64, j requires 0 <= j < 64 => k <= j && x[j - k])
  }

  function Shr(x: Limb, k: nat): (r: Limb)
    requires k < 64
    ensures forall j :: 0 <= j < 64 ==> r[j] == (j + k < 64 && x[j + k])
  {
    seq(64, j requires 0 <= j < 64 => j + k < 64 && x[j + k])
  }

  function Or(x: Limb, y: Limb): (r: Limb)
    ensures forall j :: 0 <= j < 64 ==> r[j] == (x[j] || y[j])
  {
    seq(64, j requires 0 <= j < 64 => x[j] || y[j])
  }

  function OneHot(k: nat): (r: Limb)
    requires k < 64
    ensures forall j :: 0 <= j < 64 ==> r[j] == (j == k)
  {
    seq(64, j requires 0 <= j < 64 => j == k)
  }

  function AllOnes(): (r: Limb)
    ensures forall j :: 0 <= j < 64 ==> r[j]
  {
    seq(64, j => true)
  }

  /** Rotation of a one-bit mask, as x << k | x >> (64 - k). */
  lemma RotateOneHot(b: nat, k: nat)
    requires b < 64 && 1 <= k < 64
    ensures Or(Shl(OneHot(b), k), Shr(OneHot(b), 64 - k)) == OneHot((b + k) % 64)
  {
    var r := Or(Shl(OneHot(b), k), Shr(OneHot(b), 64 - k));
    forall j | 0 <= j < 64
      ensures r[j] == OneHot((b + k) % 64)[j]
    {
    }
  }

  /** Bit j of a number. */
  function NatBit(n: nat, j: nat): bool
    decreases j
  {
    if j == 0 then n % 2 == 1 else NatBit(n / 2, j - 1)
  }

  /** The limb of a constant. */
  function FromNat(n: nat): (r: Limb)
    ensures forall j :: 0 <= j < 64 ==> r[j] == NatBit(n, j)
  {
    seq(64, j requires 0 <= j < 64 => NatBit(n, j))
  }
}
