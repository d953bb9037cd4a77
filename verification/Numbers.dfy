// Arithmetic and finite sets, shared by the other modules.
module Numbers {

  function Pow2(k: nat): (p: nat)
    ensures p > 0
  {
    if k == 0 then 1 else 2 * Pow2(k - 1)
  }

  lemma Distribute(a: int, b: int, c: int)
    ensures (a + b) * c == a * c + b * c
  {
  }

  lemma Regroup(a: int, b: int, c: int)
    ensures a * b * c == a * (b * c) && a * b == b * a && b * c == c * b
  {
  }

  lemma {:induction false} MulMonotone(a: nat, b: nat, d: nat)
    requires a <= b
    ensures a * d <= b * d
    decreases b
  {
    if a < b {
      MulMonotone(a, b - 1, d);
      assert (b - 1) * d + d == b * d;
    }
  }

  // A quotient is the only number with these bounds.
  lemma Floor(x: nat, d: nat, q: nat)
    requires d > 0
    ensures x / d * d <= x < x / d * d + d
    ensures q * d <= x < q * d + d ==> q == x / d
  {
    var f := x / d;
    assert x == d * f + x % d;
    assert f * d == d * f;
    if q < f {
      MulMonotone(q + 1, f, d);
      assert (q + 1) * d == q * d + d;
    } else if f < q {
      MulMonotone(f + 1, q, d);
      assert (f + 1) * d == f * d + d;
    }
  }

  lemma DivMod(x: nat, d: nat)
    requires d > 0
    ensures x == x / d * d + x % d && x % d < d
    ensures x > 0 && d > 1 ==> x / d < x
  {
    var q := x / d;
    assert x == d * q + x % d;
    Regroup(d, q, 1);
    if d > 1 {
      MulMonotone(2, d, q);
    }
  }

  lemma {:induction false} ModMultiple(x: nat, q: nat, m: nat)
    requires m > 0
    ensures (x + m * q) % m == x % m
    decreases q
  {
    if q > 0 {
      ModMultiple(x, q - 1, m);
      Distribute(q - 1, 1, m);
      Regroup(m, q, 1);
      Regroup(m, q - 1, 1);
      ModOnce(x + m * (q - 1), m);
    }
  }

  lemma ModOnce(x: nat, m: nat)
    requires m > 0
    ensures (x + m) % m == x % m
  {
    DivMod(x, m);
    Distribute(x / m, 1, m);
    Remainder(x + m, m, x / m + 1, x % m);
  }

  lemma Remainder(x: nat, d: nat, q: nat, r: nat)
    requires x == q * d + r && r < d
    ensures x % d == r && x / d == q
  {
    Floor(x, d, q);
    DivMod(x, d);
  }

  predicate Distinct<T(==)>(s: seq<T>) {
    forall i, j :: 0 <= i < j < |s| ==> s[i] != s[j]
  }

  lemma Member<T>(s: set<T>) returns (x: T)
    requires s != {}
    ensures x in s
  {
    x :| x in s;
  }

  lemma {:induction false} SubsetSize<T>(a: set<T>, b: set<T>)
    requires a <= b
    ensures |a| <= |b| && (|a| == |b| ==> a == b)
  {
    if b - a != {} {
      var x := Member(b - a);
      SubsetSize(a, b - {x});
    } else {
      forall x | x in b ensures x in a {
        assert x !in b - a;
      }
      assert a == b;
    }
  }
}
