// 256-bit unsigned integers: operators that rewrite the limbs in place, against
// arithmetic modulo 2^256.
module ArithUint256 {
  import opened Numbers
  import opened Limbs
  import opened LimbShifts

  class Uint256 {
    const pn: array<nat>

    ghost predicate Valid()
      reads pn
    {
      pn.Length == WIDTH && AreLimbs(pn[..])
    }

    ghost function Value(): nat
      requires Valid()
      reads pn
    {
      Limbs.Value(pn[..])
    }

    constructor ()
      ensures Valid() && pn[..] == ZERO && Value() == 0 && fresh(pn)
    {
      pn := new nat[WIDTH](_ => 0);
      new;
      assert pn[..] == ZERO;
      ZeroIsZero();
    }

    constructor Copy(b: Uint256)
      requires b.Valid()
      ensures Valid() && pn[..] == b.pn[..] && fresh(pn)
    {
      pn := new nat[WIDTH](i requires 0 <= i < WIDTH && b.pn.Length == WIDTH reads b.pn => b.pn[i]);
    }

    // From 64 bits.
    method Assign(b: nat)
      requires Valid() && b < BASE * BASE
      modifies pn
      ensures Valid() && Value() == b && (b == 0 ==> pn[..] == ZERO)
    {
      pn[0] := b % BASE;
      pn[1] := b / BASE;
      for i := 2 to WIDTH
        invariant forall k :: 2 <= k < i ==> pn[k] == 0
        invariant pn[0] == b % BASE && pn[1] == b / BASE
      {
        pn[i] := 0;
      }
      assert pn[..] == ZERO[0 := b % BASE][1 := b / BASE];
      TwoLimbs(b % BASE, b / BASE);
    }

    method SetLimb(i: nat, v: nat)
      requires Valid() && i < WIDTH && v < BASE
      modifies pn
      ensures Valid() && pn[..] == old(pn[..])[i := v]
      ensures Value() == old(Value()) + (v - old(pn[i])) * Weight(i)
    {
      hide Weight, Limbs.Value;
      ValueUpdate(pn[..], i, v);
      pn[i] := v;
    }

    method Add(b: Uint256)
      requires Valid() && b.Valid()
      modifies pn
      ensures Valid() && Value() == (old(Value()) + old(b.Value())) % Modulus()
    {
      hide Weight, Limbs.Value;
      var carry: nat := 0;
      ghost var bs := b.pn[..];
      for i := 0 to WIDTH
        invariant Valid() && carry <= 1
        invariant forall k :: i <= k < WIDTH ==> b.pn[k] == bs[k]
        invariant Value() + carry * Weight(i) == old(Value()) + Low(bs, i)
      {
        var n := carry + pn[i] + b.pn[i];
        LimbStep(n, pn[i], Weight(i));
        Distribute(carry, bs[i], Weight(i));
        NextWeight(bs, i);
        SetLimb(i, n % BASE);
        carry := n / BASE;
      }
      Whole(bs);
      ValueBound(pn[..]);
      Reduced(old(Value()) + old(b.Value()), Value(), carry);
    }

    // Two's complement.
    method Negate() returns (r: Uint256)
      requires Valid()
      ensures fresh(r) && fresh(r.pn) && r.Valid()
      ensures r.Value() == (Modulus() - Value()) % Modulus()
    {
      hide Weight, Limbs.Value;
      r := new Uint256();
      FirstWeight(pn[..]);
      for i := 0 to WIDTH
        invariant r.Valid() && fresh(r.pn)
        invariant forall k :: i <= k < WIDTH ==> r.pn[..][k] == 0
        invariant r.Value() + Low(pn[..], i) == Weight(i) - 1
      {
        NextWeight(pn[..], i);
        Distribute(BASE - 1 - pn[i], pn[i] + 1, Weight(i));
        Distribute(pn[i], 1, Weight(i));
        r.SetLimb(i, BASE - 1 - pn[i]);
      }
      Whole(pn[..]);
      r.Increment();
    }

    method Increment()
      requires Valid()
      modifies pn
      ensures Valid() && Value() == (old(Value()) + 1) % Modulus()
    {
      hide Weight, Limbs.Value;
      var i := 0;
      ghost var q := 0;
      FirstWeight(pn[..]);
      while true
        invariant i < WIDTH && Valid()
        invariant forall k :: 0 <= k < i ==> pn[k] == 0
        invariant Value() + Weight(i) == old(Value()) + 1
        decreases WIDTH - i
      {
        var n := (pn[i] + 1) % BASE;
        ghost var was := pn[i];
        assert (n - was) * Weight(i) == if was == BASE - 1 then Weight(i) - BASE * Weight(i) else Weight(i);
        NextWeight(pn[..], i);
        SetLimb(i, n);
        if !(n == 0 && i < WIDTH - 1) {
          q := if n == 0 then 1 else 0;
          break;
        }
        i := i + 1;
      }
      ValueBound(pn[..]);
      Reduced(old(Value()) + 1, Value(), q);
    }

    method Decrement()
      requires Valid()
      modifies pn
      ensures Valid() && Value() == (old(Value()) + Modulus() - 1) % Modulus()
    {
      hide Weight, Limbs.Value;
      var i := 0;
      ghost var q := 1;
      FirstWeight(pn[..]);
      while true
        invariant i < WIDTH && Valid()
        invariant Value() - Weight(i) == old(Value()) - 1
        decreases WIDTH - i
      {
        var n := if pn[i] == 0 then BASE - 1 else pn[i] - 1;
        ghost var was := pn[i];
        assert (n - was) * Weight(i) == (if was == 0 then BASE * Weight(i) else 0) - Weight(i);
        NextWeight(pn[..], i);
        SetLimb(i, n);
        if !(n == BASE - 1 && i < WIDTH - 1) {
          q := if n == BASE - 1 then 0 else 1;
          break;
        }
        i := i + 1;
      }
      ValueBound(pn[..]);
      Reduced(old(Value()) + Modulus() - 1, Value(), q);
    }

    method Subtract(b: Uint256)
      requires Valid() && b.Valid()
      modifies pn
      ensures Valid() && Value() == (old(Value()) + Modulus() - old(b.Value())) % Modulus()
    {
      hide Weight, Limbs.Value;
      var minus := b.Negate();
      ghost var x, y := Value(), b.Value();
      ValueBound(b.pn[..]);
      Add(minus);
      TwiceReduced(x, Modulus() - y, Modulus());
    }

    // By 32 bits.
    method MultiplySmall(b32: nat)
      requires Valid() && b32 < BASE
      modifies pn
      ensures Valid() && Value() == (old(Value()) * b32) % Modulus()
    {
      hide Weight, Limbs.Value, Low, Scaled;
      var carry: nat := 0;
      ghost var was := pn[..];
      NothingScaled(was, b32, 0);
      for i := 0 to WIDTH
        invariant Valid() && carry < BASE
        invariant forall k :: i <= k < WIDTH ==> pn[..][k] == was[k]
        invariant Value() + carry * Weight(i) == old(Value()) - Low(was, i) + Scaled(was, b32, 0, i)
      {
        var n := carry + b32 * pn[i];
        assert pn[i] == was[i];
        ScaledStep(was, b32, 0, i, carry, 0);
        NextWeight(was, i);
        assert (n % BASE - was[i]) * Weight(i) == n % BASE * Weight(i) - was[i] * Weight(i);
        SetLimb(i, n % BASE);
        carry := n / BASE;
      }
      Whole(was);
      ScaledIsProduct(was, b32, 0, WIDTH);
      assert b32 * Weight(0) == b32;
      ValueBound(pn[..]);
      Reduced(old(Value()) * b32, Value(), carry);
    }

    // Long multiplication, with what goes past the top limb dropped. A number
    // multiplied by itself in place is cleared before it is read, and stays zero.
    method Multiply(b: Uint256)
      requires Valid() && b.Valid()
      modifies pn
      ensures Valid() && Value() == if b.pn == pn then 0 else (old(Value()) * old(b.Value())) % Modulus()
    {
      hide Weight, Limbs.Value, Low, Scaled;
      var a := new Uint256.Copy(this);
      Assign(0);
      ghost var was, bs, q := a.pn[..], b.pn[..], 0;
      NothingScaled(was, 0, 0);
      for j := 0 to WIDTH
        invariant Valid() && a.pn[..] == was && b.pn[..] == bs
        invariant Value() + q * Modulus() == Low(was, j) * Limbs.Value(bs)
      {
        ghost var more := MultiplyRow(b, a.pn[j], j);
        NextWeight(was, j);
        ghost var v, m := Limbs.Value(bs), Modulus();
        Distribute(Low(was, j), was[j] * Weight(j), v);
        Regroup(v, was[j] * Weight(j), 1);
        Distribute(q, more, m);
        q := q + more;
      }
      Whole(was);
      ValueBound(pn[..]);
      Reduced(old(Value()) * Limbs.Value(bs), Value(), q);
    }

    // Adds b times one limb, j limbs further up.
    method MultiplyRow(b: Uint256, x: nat, j: nat) returns (ghost q: nat)
      requires Valid() && b.Valid() && j < WIDTH && x < BASE
      requires b.pn == pn ==> pn[..] == ZERO
      modifies pn
      ensures Valid() && b.pn[..] == old(b.pn[..])
      ensures Value() + q * Modulus() == old(Value()) + b.Value() * (x * Weight(j))
    {
      hide Weight, Limbs.Value, Low, Scaled;
      ghost var bs := b.pn[..];
      var carry: nat := 0;
      NothingScaled(bs, x, j);
      var i := 0;
      while i + j < WIDTH
        invariant i + j <= WIDTH && Valid() && b.pn[..] == bs && carry < BASE && (b.pn == pn ==> carry == 0)
        invariant Value() + carry * Weight(j + i) == old(Value()) + Scaled(bs, x, j, i)
      {
        var n := carry + pn[i + j] + x * b.pn[i];
        assert b.pn[i] == bs[i];
        ScaledStep(bs, x, j, i, carry, pn[i + j]);
        if b.pn == pn {
          assert pn[i + j] == bs[i + j] == 0 && n == 0;
          assert bs[i + j := 0] == bs;
        }
        SetLimb(i + j, n % BASE);
        carry := n / BASE;
        i := i + 1;
      }
      var tail := ScaledTail(bs, x, j, WIDTH);
      ScaledIsProduct(bs, x, j, WIDTH);
      Whole(bs);
      q := tail + carry;
      Distribute(tail, carry, Modulus());
    }

    method Clear()
      requires Valid()
      modifies pn
      ensures Valid() && pn[..] == ZERO && Value() == 0
    {
      for i := 0 to WIDTH
        invariant forall k :: 0 <= k < i ==> pn[k] == 0
      {
        pn[i] := 0;
      }
      assert pn[..] == ZERO;
      ZeroIsZero();
    }

    // Joins bits into a limb that has none in their places.
    method JoinLimb(i: nat, bits: nat, ghost s: nat)
      requires Valid() && i < WIDTH && bits < BASE && pn[i] + bits < BASE
      requires (pn[i] < Pow2(s) && bits % Pow2(s) == 0) || (bits < Pow2(s) && pn[i] % Pow2(s) == 0)
      modifies pn
      ensures Valid() && pn[..] == old(pn[..])[i := old(pn[i]) + bits]
      ensures Value() == old(Value()) + bits * Weight(i)
    {
      if pn[i] < Pow2(s) && bits % Pow2(s) == 0 {
        OrDisjoint(pn[i], bits, s);
      } else {
        OrDisjoint(bits, pn[i], s);
      }
      hide Weight, Limbs.Value, Or;
      SetLimb(i, Or(pn[i], bits));
    }

    method ShiftLeft(shift: nat)
      requires Valid()
      modifies pn
      ensures Valid() && Value() == (old(Value()) * Pow2(shift)) % Modulus()
    {
      hide Weight, Limbs.Value, Low, Pow2, High, Stays, Down;
      var a := new Uint256.Copy(this);
      ghost var was, q := pn[..], 0;
      Clear();
      var k, s := shift / 32, shift % 32;
      ghost var t := Pow2(s) * Weight(k);
      FirstWeight(was);
      for i := 0 to WIDTH
        invariant Valid() && a.pn[..] == was
        invariant Value() + q * Modulus() == Low(was, i) * t
        invariant forall m :: i + k < m < WIDTH ==> pn[..][m] == 0
        invariant i + k < WIDTH ==> pn[..][i + k] < Pow2(s)
      {
        ghost var more := LeftStep(was[i], i, k, s);
        ShiftedLimb(was[i], s);
        NextWeight(was, i);
        ghost var lost, m := q, Modulus();
        Distribute(Low(was, i), was[i] * Weight(i), t);
        Distribute(q, more, m);
        q := q + more;
        ShiftOneLeft(a.pn[i], i, k, s);
      }
      Whole(was);
      SplitShift(shift);
      ValueBound(pn[..]);
      Reduced(old(Value()) * Pow2(shift), Value(), q);
    }

    // Puts one shifted limb where it goes, as far as there is room.
    method ShiftOneLeft(x: nat, i: nat, k: nat, s: nat)
      requires Valid() && x < BASE && i < WIDTH && s < 32
      requires forall m :: i + k < m < WIDTH ==> pn[..][m] == 0
      requires i + k < WIDTH ==> pn[..][i + k] < Pow2(s)
      modifies pn
      ensures Valid()
      ensures Value() == old(Value()) + (if i + k + 1 < WIDTH then High(x, s) * Weight(i + k + 1) else 0)
                                      + (if i + k < WIDTH then Stays(x, s) * Weight(i + k) else 0)
      ensures forall m :: i + k + 1 < m < WIDTH ==> pn[..][m] == 0
      ensures i + k + 1 < WIDTH ==> pn[..][i + k + 1] < Pow2(s)
    {
      hide Weight, Limbs.Value, Pow2, Stays, Down, AreLimbs;
      ShiftedLimb(x, s);
      if i + k + 1 < WIDTH && s != 0 {
        MultipleOfZero(s);
        JoinLimb(i + k + 1, Down(x, 32 - s), s);
      }
      if i + k < WIDTH {
        RoomFor(pn[i + k], Stays(x, s), s);
        JoinLimb(i + k, Stays(x, s), s);
      }
    }

    method ShiftRight(shift: nat)
      requires Valid()
      modifies pn
      ensures Valid() && Value() == old(Value()) / Pow2(shift)
    {
      hide Weight, Limbs.Value, Low, Pow2, High, Stays, Down, Cut;
      var a := new Uint256.Copy(this);
      ghost var was := pn[..];
      Clear();
      var k, s := shift / 32, shift % 32;
      ghost var t := Pow2(s) * Weight(k);
      FirstWeight(was);
      NothingCut(was, k, s, t);
      for i := 0 to WIDTH
        invariant Valid() && a.pn[..] == was
        invariant Low(was, i) == Value() * t + Cut(was, k, s, i) && (i <= k ==> Value() == 0)
        invariant forall m :: 0 <= m < WIDTH && m >= i - k ==> pn[..][m] == 0
        invariant i > k && s > 0 ==> pn[..][i - k - 1] < Pow2(32 - s)
      {
        ghost var v := Value();
        ShiftOneRight(a.pn[i], i, k, s);
        RightAdvance(was, i, k, s, v, Value());
      }
      Whole(was);
      SplitShift(shift);
      RemainderSmall(was, k, s);
      Floor(old(Value()), t, Value());
    }

    // Puts one shifted limb where it goes, as far as it is not shifted out.
    method ShiftOneRight(x: nat, i: nat, k: nat, s: nat)
      requires Valid() && x < BASE && i < WIDTH && s < 32
      requires forall m :: 0 <= m < WIDTH && m >= i - k ==> pn[..][m] == 0
      requires i > k && s > 0 ==> pn[..][i - k - 1] < Pow2(32 - s)
      modifies pn
      ensures Valid()
      ensures Value() == old(Value()) + (if i > k && s > 0 then Stays(x, 32 - s) * Weight(i - k - 1) else 0)
                                      + (if i >= k then Down(x, s) * Weight(i - k) else 0)
      ensures forall m :: 0 <= m < WIDTH && m >= i + 1 - k ==> pn[..][m] == 0
      ensures i >= k && s > 0 ==> pn[..][i - k] < Pow2(32 - s)
      ensures i < k ==> pn[..] == old(pn[..])
    {
      hide Weight, Limbs.Value, Pow2, Stays, Down, AreLimbs;
      DownSmaller(x, s);
      if i > k && s != 0 {
        ShiftedLimb(x, 32 - s);
        RoomFor(pn[i - k - 1], Stays(x, 32 - s), 32 - s);
        JoinLimb(i - k - 1, Stays(x, 32 - s), 32 - s);
      }
      if i >= k {
        One();
        JoinLimb(i - k, Down(x, s), 0);
      }
    }

    // The position of the highest bit set plus one, or zero.
    method Bits() returns (bits: nat)
      requires Valid()
      ensures bits == BitLength(Value())
    {
      hide Weight, Limbs.Value, Low, Pow2, BitLength, Down;
      ghost var s := pn[..];
      var pos := WIDTH - 1;
      while pos >= 0
        invariant -1 <= pos < WIDTH
        invariant forall m :: pos < m < WIDTH ==> s[m] == 0
      {
        if pn[pos] != 0 {
          var bit := 31;
          Pow2Base();
          while bit > 0
            invariant 0 <= bit < 32 && s[pos] < Pow2(bit + 1)
          {
            TopBit(pn[pos], bit);
            if Down(pn[pos], bit) % 2 == 1 {
              TopLimb(s, pos, bit);
              return 32 * pos + bit + 1;
            }
            bit := bit - 1;
          }
          One();
          TopLimb(s, pos, 0);
          return 32 * pos + 1;
        }
        pos := pos - 1;
      }
      assert s == ZERO;
      ZeroIsZero();
      NoBits();
      return 0;
    }

    // Less, equal or greater.
    method CompareTo(b: Uint256) returns (r: int)
      requires Valid() && b.Valid()
      ensures r == if Value() < b.Value() then -1 else if Value() > b.Value() then 1 else 0
      ensures r == 0 ==> pn[..] == b.pn[..]
    {
      hide Limbs.Value;
      ghost var s, t := pn[..], b.pn[..];
      var i := WIDTH - 1;
      while i >= 0
        invariant -1 <= i < WIDTH
        invariant forall m :: i < m < WIDTH ==> s[m] == t[m]
      {
        if pn[i] < b.pn[i] {
          HighestDecides(s, t, i);
          return -1;
        }
        if pn[i] > b.pn[i] {
          HighestDecides(t, s, i);
          return 1;
        }
        i := i - 1;
      }
      assert s == t;
      return 0;
    }

    // Against 64 bits.
    method EqualTo(b: nat) returns (equal: bool)
      requires Valid() && b < BASE * BASE
      ensures equal <==> Value() == b
    {
      hide Limbs.Value;
      ghost var s, t := pn[..], ZERO[0 := b % BASE][1 := b / BASE];
      TwoLimbs(b % BASE, b / BASE);
      for i := WIDTH downto 2
        invariant forall m :: i <= m < WIDTH ==> s[m] == 0
      {
        if pn[i] != 0 {
          HighestDecides(t, s, i);
          return false;
        }
      }
      if pn[1] != b / BASE {
        if s[1] < t[1] {
          HighestDecides(s, t, 1);
        } else {
          HighestDecides(t, s, 1);
        }
        return false;
      }
      if pn[0] != b % BASE {
        if s[0] < t[0] {
          HighestDecides(s, t, 0);
        } else {
          HighestDecides(t, s, 0);
        }
        return false;
      }
      assert s == t;
      return true;
    }

    // The quotient so far: its bits from shift + 1 on, and none below.
    ghost predicate Dividing(num: Uint256, div: Uint256, n: nat, d: nat, shift: int)
      reads pn, num.pn, div.pn
    {
      && -1 <= shift < 32 * WIDTH
      && Valid() && num.Valid() && div.Valid() && num.pn != div.pn && pn != num.pn && pn != div.pn
      && num.Value() + Value() * d == n
      && num.Value() < Scale(d, shift + 1)
      && (shift >= 0 ==> div.Value() == Scale(d, shift))
      && NoBitsBelow(pn[..], shift)
    }

    // At the start the quotient is zero, and the divisor as long as the dividend.
    lemma StartDividing(num: Uint256, div: Uint256, n: nat, d: nat, shift: nat)
      requires pn.Length == WIDTH && pn[..] == ZERO
      requires num.Valid() && div.Valid() && num.pn != div.pn && pn != num.pn && pn != div.pn
      requires num.Value() == n < Scale(d, shift + 1) && div.Value() == Scale(d, shift) && shift < 32 * WIDTH
      ensures Dividing(num, div, n, d, shift)
    {
      hide Limbs.Value, Pow2;
      ZeroIsZero();
      MultipleOfZero(shift % 32 + 1);
      assert pn[..][shift / 32] == 0;
    }

    lemma Divided(num: Uint256, div: Uint256, n: nat, d: nat)
      requires Dividing(num, div, n, d, -1)
      ensures Valid() && d > 0 && Value() == Quotient(n, d)
    {
      hide Limbs.Value, Pow2;
      One();
      assert Scale(d, 0) == d;
      Floor(n, d, Value());
    }

    // Shift and subtract. Fails on zero, with this already cleared.
    method Divide(b: Uint256) returns (ok: bool)
      requires Valid() && b.Valid()
      modifies pn
      ensures Valid() && (ok <==> old(b.Value()) != 0)
      ensures if ok then Value() == old(Value()) / old(b.Value()) else Value() == 0
    {
      hide Weight, Limbs.Value, Pow2, BitLength, Dividing, AreLimbs, Scale, Quotient;
      var div := new Uint256.Copy(b);
      var num := new Uint256.Copy(this);
      ghost var n, d := num.Value(), div.Value();
      ValueBound(num.pn[..]);
      Clear();
      var num_bits := num.Bits();
      var div_bits := div.Bits();
      Lengths(n, d);
      if div_bits == 0 {
        return false;
      }
      QuotientIs(n, d);
      if div_bits > num_bits {
        return true;
      }
      div.ShiftLeft(num_bits - div_bits);
      DivideAligned(num, div, n, d, num_bits - div_bits);
      ok := true;
    }

    method DivideAligned(num: Uint256, div: Uint256, ghost n: nat, ghost d: nat, start: nat)
      requires pn.Length == WIDTH && pn[..] == ZERO
      requires num.Valid() && div.Valid() && num.pn != div.pn && pn != num.pn && pn != div.pn
      requires num.Value() == n < Scale(d, start + 1) && div.Value() == Scale(d, start) && start < 32 * WIDTH
      modifies pn, num.pn, div.pn
      ensures Valid() && d > 0 && Value() == Quotient(n, d)
    {
      hide Dividing, Scale, Quotient, Limbs.Value, AreLimbs;
      var shift: int := start;
      StartDividing(num, div, n, d, shift);
      while shift >= 0
        invariant -1 <= shift && Dividing(num, div, n, d, shift)
        decreases shift
      {
        DivideStep(num, div, n, d, shift);
        shift := shift - 1;
      }
      Divided(num, div, n, d);
    }

    // Subtracts the divisor where it fits, and moves it one place down.
    method DivideStep(num: Uint256, div: Uint256, ghost n: nat, ghost d: nat, shift: nat)
      requires Dividing(num, div, n, d, shift)
      modifies pn, num.pn, div.pn
      ensures Dividing(num, div, n, d, shift - 1)
    {
      hide Weight, Limbs.Value, Pow2, Scale, AreLimbs, NoBitsBelow;
      ScaleTwice(d, shift);
      ghost var quotient, rest, p := Value(), num.Value(), Pow2(shift);
      var compared := num.CompareTo(div);
      if compared >= 0 {
        ValueBound(num.pn[..]);
        SmallDifference(rest, Scale(d, shift));
        num.Subtract(div);
        SetQuotientBit(shift);
        Distribute(quotient, p, d);
      } else {
        StillNoBits(pn[..], shift);
      }
      div.ShiftRight(1);
      if shift > 0 {
        ScaleTwice(d, shift - 1);
      }
    }

    // Sets one bit of the quotient, below all that are set.
    method SetQuotientBit(shift: nat)
      requires Valid() && shift < 32 * WIDTH && NoBitsBelow(pn[..], shift)
      modifies pn
      ensures Valid() && Value() == old(Value()) + Pow2(shift)
      ensures NoBitsBelow(pn[..], shift - 1)
    {
      hide Weight, Limbs.Value, Pow2;
      var e := shift % 32;
      ghost var was := pn[..];
      BitBelow(was[shift / 32], e);
      SplitShift(shift);
      JoinLimb(shift / 32, Pow2(e), e + 1);
      OneBitLower(pn[..], shift);
    }
  }

  // What of the first i limbs is shifted out.
  function Cut(s: seq<nat>, k: nat, sh: nat, i: nat): nat
    requires i <= |s|
  {
    if i <= k then Low(s, i) else Low(s, k) + s[k] % Pow2(sh) * Weight(k)
  }

  lemma NothingCut(s: seq<nat>, k: nat, sh: nat, t: nat)
    ensures Cut(s, k, sh, 0) == 0 && 0 * t == 0
  {
  }

  lemma RightAdvance(s: seq<nat>, i: nat, k: nat, sh: nat, v: nat, v': nat)
    requires AreLimbs(s) && i < WIDTH && sh < 32 && (i <= k ==> v == 0)
    requires Low(s, i) == v * (Pow2(sh) * Weight(k)) + Cut(s, k, sh, i)
    requires v' == v + (if i > k && sh > 0 then Stays(s[i], 32 - sh) * Weight(i - k - 1) else 0)
                     + (if i >= k then Down(s[i], sh) * Weight(i - k) else 0)
    ensures Low(s, i + 1) == v' * (Pow2(sh) * Weight(k)) + Cut(s, k, sh, i + 1)
    ensures i + 1 <= k ==> v' == 0
  {
    hide Weight, Pow2, Stays, Down, Low;
    NextWeight(s, i);
    var t := Pow2(sh) * Weight(k);
    if i == k {
      KthLimb(s[k], Weight(k), sh);
    } else if i > k {
      HigherLimb(s[i], i, k, sh);
      Distribute(v, v' - v, t);
    }
  }

  lemma KthLimb(x: nat, w: nat, s: nat)
    ensures x * w == Down(x, s) * Weight(0) * (Pow2(s) * w) + x % Pow2(s) * w
  {
    hide Pow2;
    var p := Pow2(s);
    var q, r := x / p, x % p;
    assert x == p * q + r;
    assert (p * q + r) * w == q * (p * w) + r * w;
    assert q * Weight(0) == q;
  }

  lemma HigherLimb(x: nat, i: nat, k: nat, s: nat)
    requires x < BASE && s < 32 && k < i < WIDTH
    ensures x * Weight(i) == ((if s > 0 then Stays(x, 32 - s) * Weight(i - k - 1) else 0) + Down(x, s) * Weight(i - k))
                             * (Pow2(s) * Weight(k))
  {
    hide Weight, Pow2, Stays, Down;
    if s > 0 {
      RightStep(x, i, k, s);
    } else {
      WeightAdd(i - k, k);
      One();
      DownNothing(x);
      assert x * (Weight(i - k) * Weight(k)) == x * Weight(i - k) * (1 * Weight(k));
    }
  }

  lemma DownNothing(x: nat)
    ensures Down(x, 0) == x
  {
  }

  lemma DownSmaller(x: nat, s: nat)
    requires x < BASE && s < 32
    ensures Down(x, s) < BASE && Down(x, s) < Pow2(32 - s) && Down(x, s) % Pow2(0) == 0
  {
    hide Pow2;
    One();
    Pow2Base();
    if s > 0 {
      ShiftedLimb(x, 32 - s);
    }
  }

  // What is shifted out is less than what one unit was worth.
  lemma RemainderSmall(s: seq<nat>, k: nat, sh: nat)
    requires AreLimbs(s)
    ensures Cut(s, k, sh, WIDTH) < Pow2(sh) * Weight(k)
  {
    hide Pow2, Weight, Low;
    if WIDTH <= k {
      LowBound(s, WIDTH);
      WeightAdd(WIDTH, k - WIDTH);
      MulMonotone(1, Weight(k - WIDTH), Weight(WIDTH));
      MulMonotone(1, Pow2(sh), Weight(k));
    } else {
      LowBound(s, k);
      var x, p, w := s[k] % Pow2(sh), Pow2(sh), Weight(k);
      MulMonotone(x + 1, p, w);
      assert (x + 1) * w == x * w + w;
    }
  }

  lemma TopBit(x: nat, bit: nat)
    requires x < Pow2(bit + 1)
    ensures Down(x, bit) % 2 == 1 <==> x >= Pow2(bit)
  {
    var p := Pow2(bit);
    if x >= p {
      Floor(x, p, 1);
    } else {
      Floor(x, p, 0);
    }
  }

  lemma TopLimb(s: seq<nat>, pos: nat, bit: nat)
    requires AreLimbs(s) && pos < WIDTH && forall m :: pos < m < WIDTH ==> s[m] == 0
    requires Pow2(bit) <= s[pos] < Pow2(bit + 1)
    ensures BitLength(Limbs.Value(s)) == 32 * pos + bit + 1
  {
    hide Pow2, Weight, Low, BitLength;
    ZerosAbove(s, pos + 1, WIDTH);
    NextWeight(s, pos);
    LowBound(s, pos);
    Pow2Weight(pos);
    Pow2Add(bit, 32 * pos);
    Pow2Add(bit + 1, 32 * pos);
    var w := Weight(pos);
    MulMonotone(Pow2(bit), s[pos], w);
    MulMonotone(s[pos] + 1, Pow2(bit + 1), w);
    assert (s[pos] + 1) * w == s[pos] * w + w;
    BitLengthUnique(Limbs.Value(s), 32 * pos + bit + 1);
  }

  lemma {:induction false} ZerosAbove(s: seq<nat>, i: nat, j: nat)
    requires i <= j <= |s| && forall m :: i <= m < j ==> s[m] == 0
    ensures Low(s, j) == Low(s, i)
    decreases j
  {
    hide Weight;
    if i < j {
      ZerosAbove(s, i, j - 1);
    }
  }

  lemma NoBits()
    ensures BitLength(0) == 0
  {
  }

  lemma {:induction false} EqualAbove(s: seq<nat>, t: seq<nat>, i: nat, j: nat)
    requires i <= j <= |s| == |t| && forall m :: i <= m < j ==> s[m] == t[m]
    ensures Low(s, j) - Low(s, i) == Low(t, j) - Low(t, i)
    decreases j
  {
    hide Weight;
    if i < j {
      EqualAbove(s, t, i, j - 1);
    }
  }

  // The highest limb that differs decides.
  lemma HighestDecides(s: seq<nat>, t: seq<nat>, i: nat)
    requires AreLimbs(s) && AreLimbs(t) && i < WIDTH && s[i] < t[i] && forall m :: i < m < WIDTH ==> s[m] == t[m]
    ensures Limbs.Value(s) < Limbs.Value(t)
  {
    hide Weight, Low;
    EqualAbove(s, t, i + 1, WIDTH);
    NextWeight(s, i);
    NextWeight(t, i);
    LowBound(s, i);
    var w := Weight(i);
    MulMonotone(s[i] + 1, t[i], w);
    assert (s[i] + 1) * w == s[i] * w + w;
  }

  // ---------------------------------------------------------------- division

  lemma Twice(k: nat)
    ensures Pow2(k + 1) == 2 * Pow2(k)
  {
  }

  // Shifted left by e bits.
  function Scale(d: nat, e: nat): nat {
    d * Pow2(e)
  }

  lemma ScaleTwice(d: nat, e: nat)
    ensures Scale(d, e + 1) == 2 * Scale(d, e) && Scale(d, e + 1) / Pow2(1) == Scale(d, e)
    ensures Pow2(e) * d == Scale(d, e)
  {
    hide Pow2;
    Twice(e);
    Twice(0);
    One();
    Regroup(d, Pow2(e), 2);
  }

  // The divisor, shifted to the length of the dividend, still fits and is more
  // than half of it.
  lemma Aligned(n: nat, d: nat, nb: nat, db: nat)
    requires 0 < db <= nb && Pow2(nb - 1) <= n < Pow2(nb) && Pow2(db - 1) <= d < Pow2(db) && n < Modulus()
    ensures n < Scale(d, nb - db + 1) && nb <= 32 * WIDTH
    ensures (d * Pow2(nb - db)) % Modulus() == Scale(d, nb - db)
  {
    hide Pow2, Weight;
    Pow2Add(db - 1, nb - db + 1);
    MulMonotone(Pow2(db - 1), d, Pow2(nb - db + 1));
    BitsFit(n, nb);
    FitsShifted(d, nb, db);
  }

  lemma FitsShifted(d: nat, nb: nat, db: nat)
    requires 0 < db <= nb <= 32 * WIDTH && d < Pow2(db)
    ensures (d * Pow2(nb - db)) % Modulus() == d * Pow2(nb - db)
  {
    hide Pow2, Weight;
    Pow2Add(db, nb - db);
    Pow2Monotone(nb, 32 * WIDTH);
    Pow2Weight(WIDTH);
    MulMonotone(d + 1, Pow2(db), Pow2(nb - db));
    Distribute(d, 1, Pow2(nb - db));
    Reduced(d * Pow2(nb - db), d * Pow2(nb - db), 0);
  }

  // What the lengths of dividend and divisor say.
  lemma Lengths(n: nat, d: nat)
    requires n < Modulus()
    ensures var nb, db := BitLength(n), BitLength(d);
            && (db == 0 <==> d == 0)
            && (0 < db <= nb ==>
                  && n < Scale(d, nb - db + 1) && nb <= 32 * WIDTH
                  && (d * Pow2(nb - db)) % Modulus() == Scale(d, nb - db))
            && (nb < db ==> Quotient(n, d) == 0)
  {
    hide Pow2, BitLength, Weight, Scale;
    BitLengthIs(n);
    BitLengthIs(d);
    var nb, db := BitLength(n), BitLength(d);
    if 0 < db <= nb {
      Aligned(n, d, nb, db);
    } else if nb < db {
      Pow2Monotone(nb, db - 1);
      Floor(n, d, 0);
    }
  }

  lemma QuotientIs(n: nat, d: nat)
    requires d > 0
    ensures Quotient(n, d) == n / d
  {
  }

  lemma BitsFit(n: nat, nb: nat)
    requires nb > 0 && n < Modulus() && Pow2(nb - 1) <= n
    ensures nb <= 32 * WIDTH
  {
    hide Pow2, Weight;
    Pow2Weight(WIDTH);
    if nb > 32 * WIDTH {
      Pow2Monotone(32 * WIDTH, nb - 1);
      assert false;
    }
  }

  lemma SmallDifference(x: nat, y: nat)
    requires y <= x < Modulus()
    ensures (x + Modulus() - y) % Modulus() == x - y
  {
    hide Weight;
    Reduced(x + Modulus() - y, x - y, 1);
  }

  // The quotient has no bits up to and including the given place.
  predicate NoBitsBelow(s: seq<nat>, shift: int)
    requires |s| == WIDTH
  {
    && -1 <= shift < 32 * WIDTH
    && (shift >= 0 ==> s[shift / 32] % Pow2(shift % 32 + 1) == 0)
    && forall m :: 0 <= m < WIDTH && 32 * m + 32 <= shift ==> s[m] == 0
  }

  lemma OneBitLower(s: seq<nat>, shift: nat)
    requires |s| == WIDTH && shift < 32 * WIDTH && s[shift / 32] % Pow2(shift % 32) == 0
    requires forall m :: 0 <= m < WIDTH && 32 * m + 32 <= shift ==> s[m] == 0
    ensures NoBitsBelow(s, shift - 1)
  {
    hide Pow2;
    if shift > 0 && shift % 32 == 0 {
      MultipleOfZero((shift - 1) % 32 + 1);
      assert s[(shift - 1) / 32] == 0;
    }
  }

  lemma StillNoBits(s: seq<nat>, shift: nat)
    requires |s| == WIDTH && NoBitsBelow(s, shift)
    ensures NoBitsBelow(s, shift - 1)
  {
    hide Pow2;
    KeepsMultiple(s[shift / 32], shift % 32);
    OneBitLower(s, shift);
  }

  // A multiple of twice a power is one of the power, and has no bit there.
  lemma KeepsMultiple(x: nat, e: nat)
    requires x % Pow2(e + 1) == 0
    ensures x % Pow2(e) == 0
  {
    hide Pow2;
    Twice(e);
    var q := x / Pow2(e + 1);
    assert x == 2 * Pow2(e) * q;
    assert 2 * Pow2(e) * q == Pow2(e) * (2 * q);
    Multiple(Pow2(e), 2 * q);
  }

  lemma BitBelow(x: nat, e: nat)
    requires e < 32 && x < BASE && x % Pow2(e + 1) == 0
    ensures Pow2(e) < Pow2(e + 1) && x + Pow2(e) < BASE && (x + Pow2(e)) % Pow2(e) == 0
  {
    hide Pow2;
    Twice(e);
    if e < 31 {
      RoomFor(Pow2(e), x, e + 1);
    } else {
      Pow2Base();
      Twice(31);
    }
    var q := x / Pow2(e + 1);
    assert x == 2 * Pow2(e) * q;
    assert 2 * Pow2(e) * q + Pow2(e) == Pow2(e) * (2 * q + 1);
    Multiple(Pow2(e), 2 * q + 1);
  }

  lemma MultipleOfZero(s: nat)
    ensures 0 % Pow2(s) == 0 && 0 < Pow2(s)
  {
  }

  // Joining a small number and a multiple stays within a limb.
  lemma RoomFor(x: nat, y: nat, s: nat)
    requires s < 32 && x < Pow2(s) && y < BASE && y % Pow2(s) == 0
    ensures x + y < BASE
  {
    hide Pow2;
    var p, r := Pow2(s), Pow2(32 - s);
    Pow2Add(32 - s, s);
    Pow2Base();
    var q := y / p;
    assert y == p * q;
    if q >= r {
      MulMonotone(r, q, p);
      assert false;
    }
    MulMonotone(q + 1, r, p);
    assert (q + 1) * p == q * p + p;
  }

  lemma SplitShift(shift: nat)
    ensures Pow2(shift) == Pow2(shift % 32) * Weight(shift / 32)
  {
    hide Pow2;
    Pow2Weight(shift / 32);
    Pow2Add(shift % 32, 32 * (shift / 32));
  }

  // b times the number in the first i limbs, limb by limb, j limbs further up.
  function Scaled(s: seq<nat>, b: nat, j: nat, i: nat): nat
    requires i <= |s|
  {
    if i == 0 then 0 else Scaled(s, b, j, i - 1) + b * s[i - 1] * Weight(j + i - 1)
  }

  lemma NothingScaled(s: seq<nat>, b: nat, j: nat)
    ensures Scaled(s, b, j, 0) == 0 && Low(s, 0) == 0 && Weight(0) == 1
  {
  }

  lemma {:induction false} ScaledIsProduct(s: seq<nat>, b: nat, j: nat, i: nat)
    requires i <= |s|
    ensures Scaled(s, b, j, i) == Low(s, i) * (b * Weight(j))
  {
    hide Weight;
    if i > 0 {
      ScaledIsProduct(s, b, j, i - 1);
      WeightAdd(j, i - 1);
      ProductTerm(b, s[i - 1], Weight(j), Weight(i - 1));
      Distribute(Low(s, i - 1), s[i - 1] * Weight(i - 1), b * Weight(j));
    }
  }

  lemma ProductTerm(b: nat, x: nat, u: nat, w: nat)
    ensures b * x * (u * w) == (x * w) * (b * u)
  {
    Regroup(b * x, u, w);
    Regroup(b, x, u);
    Regroup(x, b, u);
    Regroup(x * (b * u), w, 1);
    Regroup(x, b * u, w);
    Regroup(x, w, b * u);
  }

  lemma ScaledNext(s: seq<nat>, b: nat, j: nat, i: nat)
    requires i < |s|
    ensures Scaled(s, b, j, i + 1) == Scaled(s, b, j, i) + b * s[i] * Weight(j + i)
    ensures Weight(j + i + 1) == BASE * Weight(j + i)
  {
  }

  // Multiplying one limb by b, on top of what is there.
  lemma ScaledStep(s: seq<nat>, b: nat, j: nat, i: nat, carry: nat, there: nat)
    requires i < |s| && s[i] < BASE && b < BASE && carry < BASE && there < BASE
    ensures var n := carry + there + b * s[i];
            && 0 <= n < BASE * BASE && n / BASE < BASE
            && (n % BASE - there) * Weight(j + i) + n / BASE * Weight(j + i + 1)
               == carry * Weight(j + i) + Scaled(s, b, j, i + 1) - Scaled(s, b, j, i)
  {
    hide Weight, Scaled;
    NoOverflow(b, s[i], carry, there);
    ScaledNext(s, b, j, i);
    var y := b * s[i];
    AddedAndCarried(carry + there + y, there, carry, y, Weight(j + i));
  }

  // Keeping the low part of a sum in a limb and carrying the rest.
  lemma AddedAndCarried(n: nat, there: nat, carry: nat, y: nat, w: nat)
    requires n == carry + there + y
    ensures (n % BASE - there) * w + n / BASE * (BASE * w) == carry * w + y * w
    ensures n < BASE * BASE ==> n / BASE < BASE
  {
    LimbStep(n, there, w);
    Distribute(carry, y, w);
  }

  lemma TailTerm(y: nat, u: nat, m: nat) returns (q: nat)
    ensures y * (m * u) == q * m
  {
    q := y * u;
    Regroup(y, u, m);
  }

  // Limbs that would go past the top contribute multiples of the modulus.
  lemma {:induction false} ScaledTail(s: seq<nat>, b: nat, j: nat, i: nat) returns (q: nat)
    requires j <= WIDTH && WIDTH - j <= i <= |s|
    ensures Scaled(s, b, j, i) == Scaled(s, b, j, WIDTH - j) + q * Modulus()
    decreases i
  {
    hide Weight;
    if i == WIDTH - j {
      return 0;
    }
    var r := ScaledTail(s, b, j, i - 1);
    WeightAdd(WIDTH, j + i - 1 - WIDTH);
    var term := TailTerm(b * s[i - 1], Weight(j + i - 1 - WIDTH), Modulus());
    q := r + term;
    Distribute(r, term, Modulus());
  }

  // Storing the low part of n in a limb and carrying the rest adds n - was.
  lemma LimbStep(n: nat, was: nat, w: nat)
    ensures (n % BASE - was) * w + n / BASE * (BASE * w) == (n - was) * w
  {
    var q := n / BASE;
    Regroup(q, BASE, w);
    Distribute(n % BASE - was, q * BASE, w);
    assert n % BASE - was + q * BASE == n - was;
  }

  lemma Whole(s: seq<nat>)
    requires |s| == WIDTH
    ensures Low(s, WIDTH) == Limbs.Value(s) && Weight(WIDTH) == Modulus()
  {
  }

  lemma FirstWeight(s: seq<nat>)
    ensures Weight(0) == 1 && Low(s, 0) == 0
  {
  }

  lemma NextWeight(s: seq<nat>, i: nat)
    requires i < |s|
    ensures Weight(i + 1) == BASE * Weight(i)
    ensures Low(s, i + 1) == Low(s, i) + s[i] * Weight(i)
  {
  }

  lemma TwoLimbs(low: nat, high: nat)
    requires low < BASE && high < BASE
    ensures var s := ZERO[0 := low][1 := high]; AreLimbs(s) && Limbs.Value(s) == low + high * BASE
  {
    hide Low;
    ZeroIsZero();
    ValueUpdate(ZERO, 0, low);
    ValueUpdate(ZERO[0 := low], 1, high);
    assert Weight(1) == BASE * Weight(0);
  }

  lemma TwiceReduced(x: nat, y: nat, m: nat)
    requires m > 0
    ensures (x + y % m) % m == (x + y) % m
  {
    assert y == m * (y / m) + y % m;
    assert x + y == (x + y % m) + m * (y / m);
    ModMultiple(x + y % m, y / m, m);
  }

  // The 64-bit intermediate results do not overflow.
  lemma NoOverflow(a: nat, b: nat, c: nat, d: nat)
    requires a < BASE && b < BASE && c < BASE && d < BASE
    ensures c + d + a * b < BASE * BASE
  {
    MulMonotone(a, BASE - 1, b);
    MulMonotone(b, BASE - 1, BASE - 1);
  }

  // Two times itself, in place.
  method TwoTimesItself() returns (x: Uint256)
    ensures x.Valid() && x.Value() == 0
  {
    x := new Uint256();
    x.Assign(2);
    x.Multiply(x);
  }
}
