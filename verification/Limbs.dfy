// Numbers as sequences of 32-bit limbs, the lowest first.
module Limbs {
  import opened Numbers

  const WIDTH: nat := 8
  const BASE: nat := 0x1_0000_0000

  predicate AreLimbs(s: seq<nat>) {
    |s| == WIDTH && forall i :: 0 <= i < WIDTH ==> s[i] < BASE
  }

  // The weight of a limb.
  function Weight(i: nat): (w: nat)
    ensures w > 0
  {
    if i == 0 then 1 else BASE * Weight(i - 1)
  }

  // The number in the first i limbs.
  function Low(s: seq<nat>, i: nat): nat
    requires i <= |s|
  {
    if i == 0 then 0 else Low(s, i - 1) + s[i - 1] * Weight(i - 1)
  }

  function Value(s: seq<nat>): nat
    requires |s| == WIDTH
  {
    Low(s, WIDTH)
  }

  const ZERO: seq<nat> := [0, 0, 0, 0, 0, 0, 0, 0]

  // One past the largest number.
  function Modulus(): nat {
    Weight(WIDTH)
  }

  lemma {:induction false} WeightAdd(i: nat, j: nat)
    ensures Weight(i + j) == Weight(i) * Weight(j)
    decreases j
  {
    if j > 0 {
      WeightAdd(i, j - 1);
      assert BASE * (Weight(i) * Weight(j - 1)) == Weight(i) * (BASE * Weight(j - 1));
    }
  }

  lemma {:induction false} LowBound(s: seq<nat>, i: nat)
    requires i <= |s| && forall k :: 0 <= k < i ==> s[k] < BASE
    ensures Low(s, i) < Weight(i)
  {
    if i > 0 {
      LowBound(s, i - 1);
      MulMonotone(s[i - 1] + 1, BASE, Weight(i - 1));
      assert (s[i - 1] + 1) * Weight(i - 1) == s[i - 1] * Weight(i - 1) + Weight(i - 1);
    }
  }

  lemma ValueBound(s: seq<nat>)
    requires AreLimbs(s)
    ensures Value(s) < Modulus()
  {
    LowBound(s, WIDTH);
  }

  lemma {:induction false} LowUpdate(s: seq<nat>, k: nat, v: nat, i: nat)
    requires k < |s| && i <= |s|
    ensures Low(s[k := v], i) == Low(s, i) + if k < i then (v - s[k]) * Weight(k) else 0
  {
    hide Weight;
    if i > 0 {
      LowUpdate(s, k, v, i - 1);
      if k == i - 1 {
        assert v * Weight(k) == s[k] * Weight(k) + (v - s[k]) * Weight(k);
      }
    }
  }

  // What changing one limb does to the number.
  lemma ValueUpdate(s: seq<nat>, k: nat, v: nat)
    requires |s| == WIDTH && k < WIDTH
    ensures Value(s[k := v]) == Value(s) + (v - s[k]) * Weight(k)
  {
    hide Weight, Low;
    LowUpdate(s, k, v, WIDTH);
  }

  lemma {:induction false} LowOfZeros(s: seq<nat>, i: nat)
    requires i <= |s| && forall k :: 0 <= k < i ==> s[k] == 0
    ensures Low(s, i) == 0
  {
    if i > 0 {
      LowOfZeros(s, i - 1);
    }
  }

  lemma ZeroIsZero()
    ensures AreLimbs(ZERO) && Value(ZERO) == 0
  {
    LowOfZeros(ZERO, WIDTH);
  }

  // The limbs from i on contribute a multiple of their weight.
  lemma {:induction false} LowSplit(s: seq<nat>, i: nat, j: nat) returns (q: nat)
    requires i <= j <= |s|
    ensures Low(s, j) == Low(s, i) + q * Weight(i)
    decreases j
  {
    hide Weight;
    if i == j {
      return 0;
    }
    var r := LowSplit(s, i, j - 1);
    WeightAdd(i, j - 1 - i);
    var u, w := Weight(i), Weight(j - 1 - i);
    q := r + s[j - 1] * w;
    assert s[j - 1] * (u * w) == (s[j - 1] * w) * u;
    assert q * u == r * u + (s[j - 1] * w) * u;
  }

  // The only number below the modulus that differs from x by a multiple of it.
  lemma Reduced(x: nat, r: nat, q: int)
    requires r + q * Modulus() == x && r < Modulus()
    ensures r == x % Modulus() && q >= 0
  {
    hide Weight;
    var m := Modulus();
    assert q >= 0;
    Floor(x, m, q);
    assert x == m * (x / m) + x % m;
  }
}
