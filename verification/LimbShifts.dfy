// Shifting limbs, joining bits, and the length of a number in bits.
module LimbShifts {
  import opened Numbers
  import opened Limbs

  lemma {:induction false} Pow2Add(a: nat, b: nat)
    ensures Pow2(a + b) == Pow2(a) * Pow2(b)
    decreases b
  {
    if b > 0 {
      Pow2Add(a, b - 1);
      assert 2 * (Pow2(a) * Pow2(b - 1)) == Pow2(a) * (2 * Pow2(b - 1));
    }
  }

  lemma Pow2Of8()
    ensures Pow2(8) == 256
  {
  }

  lemma Pow2Base()
    ensures Pow2(32) == BASE
  {
    Pow2Of8();
    hide Pow2;
    Pow2Add(8, 8);
    Pow2Add(16, 16);
  }

  lemma {:induction false} Pow2Weight(k: nat)
    ensures Pow2(32 * k) == Weight(k)
  {
    if k > 0 {
      Pow2Weight(k - 1);
      Pow2Add(32 * (k - 1), 32);
      Pow2Base();
      assert Weight(k - 1) * BASE == BASE * Weight(k - 1);
    }
  }

  lemma {:induction false} Pow2Monotone(a: nat, b: nat)
    requires a <= b
    ensures Pow2(a) <= Pow2(b)
    decreases b
  {
    if a < b {
      Pow2Monotone(a, b - 1);
    }
  }

  // ------------------------------------------------------------ joining bits

  // Bitwise or.
  function Or(x: nat, y: nat): nat
    decreases x + y
  {
    if x == 0 then y else if y == 0 then x
    else (if x % 2 == 1 || y % 2 == 1 then 1 else 0) + 2 * Or(x / 2, y / 2)
  }

  // Bits in different places do not interfere.
  lemma {:induction false} OrDisjoint(x: nat, y: nat, s: nat)
    requires x < Pow2(s) && y % Pow2(s) == 0
    ensures Or(x, y) == x + y && Or(y, x) == x + y
    decreases s
  {
    if s > 0 && x > 0 && y > 0 {
      var h := Pow2(s - 1);
      assert y == 2 * h * (y / (2 * h));
      Halved(y, h);
      OrDisjoint(x / 2, y / 2, s - 1);
    }
  }

  lemma Halved(y: nat, h: nat)
    requires h > 0 && y % (2 * h) == 0
    ensures y % 2 == 0 && (y / 2) % h == 0
  {
    var q := y / (2 * h);
    assert y == (2 * h) * q;
    assert y == 2 * (h * q);
    assert y / 2 == h * q;
    Multiple(h, q);
  }

  lemma Multiple(h: nat, q: nat)
    requires h > 0
    ensures (h * q) % h == 0 && (q * h) % h == 0 && (q * h) / h == q
  {
    assert h * q == q * h;
    Floor(q * h, h, q);
    assert q * h == h * ((q * h) / h) + (q * h) % h;
  }

  // ---------------------------------------------------------- shifted limbs

  function Quotient(x: nat, d: nat): nat
    requires d > 0
  {
    x / d
  }

  // Shifted right by s.
  function Down(x: nat, s: nat): nat {
    Quotient(x, Pow2(s))
  }

  // The part of a limb that a shift by s < 32 moves into the next limb.
  function High(x: nat, s: nat): nat
    requires s < 32
  {
    if s == 0 then 0 else Down(x, 32 - s)
  }

  // The part that stays.
  function Stays(x: nat, s: nat): nat {
    x * Pow2(s) % BASE
  }

  lemma ShiftedLimb(x: nat, s: nat)
    requires x < BASE && s < 32
    ensures High(x, s) < Pow2(s) && High(x, s) < BASE
    ensures Stays(x, s) < BASE && Stays(x, s) % Pow2(s) == 0
    ensures High(x, s) * BASE + Stays(x, s) == x * Pow2(s)
  {
    hide Pow2;
    var p := Pow2(s);
    Pow2Base();
    if s == 0 {
      One();
      assert x * 1 == x;
    } else {
      var d := Pow2(32 - s);
      Pow2Add(s, 32 - s);
      ShiftedParts(x, x / d, x % d, d, p);
      Multiple(p, x % d);
      SmallQuotient(x, x / d, d, p);
    }
  }

  // The quotient by d is what passes the base when multiplied by p.
  lemma ShiftedParts(x: nat, h: nat, r: nat, d: nat, p: nat)
    requires d > 0 && p > 0 && p * d == BASE && h == x / d && r == x % d
    ensures x * p == h * BASE + r * p && r * p < BASE && x * p % BASE == r * p && d * h <= x
  {
    assert x == d * h + r;
    Distribute(d * h, r, p);
    Regroup(h, d, p);
    Regroup(d, h, p);
    assert d * h * p == h * BASE;
    MulMonotone(r + 1, d, p);
    Distribute(r, 1, p);
  }

  lemma One()
    ensures Pow2(0) == 1
  {
  }

  lemma SmallQuotient(x: nat, h: nat, d: nat, p: nat)
    requires d > 0 && p > 0 && x < p * d && d * h <= x
    ensures h < p && h <= x
  {
    assert d * h == h * d;
    if h >= p {
      MulMonotone(p, h, d);
      assert false;
    }
    MulMonotone(1, d, h);
  }

  // Where the limb i goes when the number is shifted left by 32 k + s, and how
  // often the modulus fits into what is shifted out.
  lemma LeftStep(x: nat, i: nat, k: nat, s: nat) returns (q: nat)
    requires x < BASE && s < 32 && i < WIDTH
    ensures x * Weight(i) * (Pow2(s) * Weight(k))
            == (if i + k + 1 < WIDTH then High(x, s) * Weight(i + k + 1) else 0)
             + (if i + k < WIDTH then Stays(x, s) * Weight(i + k) else 0)
             + q * Modulus()
  {
    hide Pow2, Weight, High, Stays;
    ShiftedLimb(x, s);
    WeightAdd(i, k);
    var h, l, w := High(x, s), Stays(x, s), Weight(i + k);
    var p, wi, wk := Pow2(s), Weight(i), Weight(k);
    Moved(x, wi, p, wk);
    Distribute(h * BASE, l, w);
    Regroup(h, BASE, w);
    NextIs(i + k);
    if i + k + 1 < WIDTH {
      q := 0;
    } else if i + k < WIDTH {
      q := h;
    } else {
      WeightAdd(WIDTH, i + k - WIDTH);
      var rest := Weight(i + k - WIDTH);
      q := (x * p) * rest;
      Regroup(x * p, rest, Modulus());
    }
  }

  lemma Moved(x: nat, wi: nat, p: nat, wk: nat)
    ensures x * wi * (p * wk) == (x * p) * (wi * wk)
  {
    Regroup(x, wi, p * wk);
    Regroup(wi, p, wk);
    Regroup(p, wi, wk);
    Regroup(x, p, wi * wk);
  }

  lemma NextIs(i: nat)
    ensures Weight(i + 1) == BASE * Weight(i)
  {
  }

  // The limb i, above the k-th, when the number is shifted right.
  lemma RightStep(x: nat, i: nat, k: nat, s: nat)
    requires x < BASE && 0 < s < 32 && k < i < WIDTH
    ensures x * Weight(i)
            == (Down(x, s) * Weight(i - k) + Stays(x, 32 - s) * Weight(i - k - 1)) * (Pow2(s) * Weight(k))
    ensures Down(x, s) < Pow2(32 - s) && Stays(x, 32 - s) < BASE && Stays(x, 32 - s) % Pow2(32 - s) == 0
  {
    hide Pow2, Weight, Stays, Down;
    ShiftedLimb(x, 32 - s);
    assert Down(x, s) == High(x, 32 - s);
    NextIs(i - k - 1);
    NextIs(i - 1);
    WeightAdd(k, i - k - 1);
    Pow2Add(s, 32 - s);
    Pow2Base();
    Rejoined(x, Down(x, s), Stays(x, 32 - s), Pow2(s), Pow2(32 - s),
             Weight(k), Weight(i - k - 1), Weight(i - k), Weight(i));
  }

  // The weights are those of limbs k, i - k - 1, i - k and i.
  lemma Rejoined(x: nat, h: nat, l: nat, p: nat, r: nat, wk: nat, w: nat, next: nat, all: nat)
    requires h * BASE + l == x * r && p * r == BASE
    requires next == BASE * w && all == BASE * (wk * w)
    ensures x * all == (h * next + l * w) * (p * wk)
  {
    assert h * next + l * w == (h * BASE + l) * w;
    assert (x * r) * w * (p * wk) == x * ((p * r) * (wk * w));
  }

  // --------------------------------------------------------- length in bits

  function BitLength(v: nat): nat {
    if v == 0 then 0 else 1 + BitLength(v / 2)
  }

  lemma {:induction false} BitLengthIs(v: nat)
    ensures v < Pow2(BitLength(v)) && (v > 0 <==> BitLength(v) > 0)
    ensures v > 0 ==> Pow2(BitLength(v) - 1) <= v
  {
    if v > 1 {
      BitLengthIs(v / 2);
    }
  }

  lemma BitLengthUnique(v: nat, n: nat)
    requires n > 0 && Pow2(n - 1) <= v < Pow2(n)
    ensures BitLength(v) == n
  {
    hide Pow2, BitLength;
    BitLengthIs(v);
    var m := BitLength(v);
    if m < n {
      Pow2Monotone(m, n - 1);
    } else if n < m {
      Pow2Monotone(n, m - 1);
    }
  }
}
