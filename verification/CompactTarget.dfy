// Compact targets: a truncating floating format for 256-bit numbers.
module CompactTarget {
  import opened Numbers
  import opened Limbs
  import opened LimbShifts
  import opened ArithUint256

  const SIGN: nat := 0x80_0000
  const EXPONENT_UNIT: nat := 0x100_0000
  const WORD32: nat := 0x1_0000_0000

  // ---------------------------------------------------------------- decoding

  function Exponent(c: nat): nat {
    c / EXPONENT_UNIT
  }

  // The word that counts: small exponents cut it off.
  function Mantissa(c: nat): nat {
    var nWord := c % SIGN;
    if Exponent(c) <= 3 then Down(nWord, 8 * (3 - Exponent(c))) else nWord
  }

  // The number that a compact form denotes, however large.
  function Denoted(c: nat): nat {
    if Exponent(c) <= 3 then Mantissa(c) else Mantissa(c) * Pow2(8 * (Exponent(c) - 3))
  }

  function Signed(c: nat): bool {
    c / SIGN % 2 == 1
  }

  predicate Overflows(c: nat) {
    var nWord, nSize := Mantissa(c), Exponent(c);
    nWord != 0 && (nSize > 34 || (nWord > 0xff && nSize > 33) || (nWord > 0xffff && nSize > 32))
  }

  // The flag is exact: set when the number does not fit.
  lemma OverflowIsExact(c: nat)
    ensures Overflows(c) <==> Denoted(c) >= Modulus()
  {
    hide Pow2, Weight, Down;
    var m, n := Mantissa(c), Exponent(c);
    Pow2Weight(WIDTH);
    WordSmall(c);
    if n <= 3 {
      Pow2Monotone(24, 8 * 32);
      BytePower(24);
    } else if n > 34 {
      Pow2Monotone(8 * 32, 8 * (n - 3));
      MulMonotone(if m == 0 then 0 else 1, m, Pow2(8 * (n - 3)));
    } else if n > 32 {
      TopWord(m, n);
    } else {
      Pow2Monotone(8 * (n - 3), 8 * 29);
      MulMonotone(m, SIGN, Pow2(8 * (n - 3)));
      TopByte();
      MulMonotone(Pow2(8 * (n - 3)), Pow2(8 * 29), SIGN);
      assert SIGN * Pow2(8 * (n - 3)) == Pow2(8 * (n - 3)) * SIGN;
    }
  }

  lemma WordSmall(c: nat)
    ensures Mantissa(c) < SIGN
  {
    hide Pow2;
    if Exponent(c) <= 3 {
      Floor(c % SIGN, Pow2(8 * (3 - Exponent(c))), 0);
      MulMonotone(1, Pow2(8 * (3 - Exponent(c))), Mantissa(c));
    }
  }

  // A common factor cancels.
  lemma Cancel(w: nat, a: nat, b: nat)
    requires a > 0 && b > 0
    ensures a * b > 0 && w * a / (a * b) == w / b
  {
    var q := w / b;
    Floor(w, b, 0);
    MulMonotone(q * b, w, a);
    MulMonotone(w + 1, q * b + b, a);
    Distribute(w, 1, a);
    Distribute(q * b, b, a);
    Regroup(q, b, a);
    Regroup(b, a, 1);
    Floor(w * a, a * b, q);
  }

  // In one formula: the 23-bit mantissa times 256 to the power of the exponent less
  // three, rounded down.
  lemma DenotesMantissa(c: nat)
    ensures Denoted(c) == c % SIGN * Pow2(8 * Exponent(c)) / Pow2(24)
  {
    hide Pow2;
    var w, e := c % SIGN, Exponent(c);
    if e <= 3 {
      Pow2Add(8 * e, 8 * (3 - e));
      Cancel(w, Pow2(8 * e), Pow2(8 * (3 - e)));
    } else {
      var p := Pow2(8 * (e - 3));
      Pow2Add(8 * (e - 3), 24);
      Regroup(w, p, Pow2(24));
      Floor(w * p * Pow2(24), Pow2(24), w * p);
    }
  }

  lemma BytePower(e: nat)
    requires e == 24
    ensures Pow2(e) == EXPONENT_UNIT && 2 * SIGN == Pow2(e)
  {
    Pow2Of8();
    hide Pow2;
    Pow2Add(8, 8);
    Pow2Add(16, 8);
  }

  // The powers around the limit.
  lemma TopByte()
    ensures Pow2(8 * 32) == 0x100_0000 * Pow2(8 * 29)
    ensures Pow2(8 * 30) == 0x100 * Pow2(8 * 29) && Pow2(8 * 31) == 0x1_0000 * Pow2(8 * 29)
  {
    Pow2Of8();
    hide Pow2;
    Pow2Add(8 * 29, 8);
    Pow2Add(8 * 30, 8);
    Pow2Add(8 * 31, 8);
  }

  lemma TopWord(m: nat, n: nat)
    requires 33 <= n <= 34
    ensures m * Pow2(8 * (n - 3)) >= Pow2(8 * 32) <==> if n == 33 then m > 0xffff else m > 0xff
  {
    hide Pow2;
    TopByte();
    var u := Pow2(8 * 29);
    var limit, p := if n == 33 then 0x1_0000 else 0x100, Pow2(8 * (n - 3));
    assert limit * p == 0x100_0000 * u;
    if m >= limit {
      MulMonotone(limit, m, p);
    } else {
      MulMonotone(m + 1, limit, p);
      Distribute(m, 1, p);
    }
  }

  method SetCompact(t: Uint256, nCompact: nat) returns (fNegative: bool, fOverflow: bool)
    requires t.Valid() && nCompact < WORD32
    modifies t.pn
    ensures t.Valid() && t.Value() == Denoted(nCompact) % Modulus()
    ensures fOverflow <==> Denoted(nCompact) >= Modulus()
    ensures fNegative <==> Mantissa(nCompact) != 0 && Signed(nCompact)
  {
    hide Pow2, Weight, Down;
    var nSize := nCompact / EXPONENT_UNIT;
    var nWord := nCompact % SIGN;
    WordSmall(nCompact);
    OverflowIsExact(nCompact);
    if nSize <= 3 {
      nWord := Down(nWord, 8 * (3 - nSize));
      t.Assign(nWord);
      BelowModulus(nWord);
    } else {
      t.Assign(nWord);
      t.ShiftLeft(8 * (nSize - 3));
    }
    fNegative := nWord != 0 && nCompact / SIGN % 2 == 1;
    fOverflow := nWord != 0 && (nSize > 34 || (nWord > 0xff && nSize > 33) || (nWord > 0xffff && nSize > 32));
  }

  lemma BelowModulus(x: nat)
    requires x < BASE
    ensures x % Modulus() == x
  {
    hide Weight;
    NextIs(0);
    WeightAdd(1, WIDTH - 1);
    MulMonotone(1, Weight(WIDTH - 1), Weight(1));
    FirstWeight(ZERO);
    Reduced(x, x, 0);
  }

  // ---------------------------------------------------------------- encoding

  function ByteLength(v: nat): nat {
    (BitLength(v) + 7) / 8
  }

  // The leading three bytes.
  function Leading(v: nat): nat {
    var nSize := ByteLength(v);
    if nSize <= 3 then v * Pow2(8 * (3 - nSize)) else Down(v, 8 * (nSize - 3))
  }

  function Compact(v: nat, fNegative: bool): nat {
    var top := Leading(v);
    var word, nSize := if top >= SIGN then top / 256 else top, ByteLength(v) + if top >= SIGN then 1 else 0;
    nSize * EXPONENT_UNIT + word + if fNegative && word != 0 then SIGN else 0
  }

  // A mantissa with the exponent that puts it into [2^15, 2^23): there is only
  // one such exponent.
  predicate IsForm(v: nat, n: nat, m: nat) {
    && n >= 1 && 0x8000 <= m < SIGN
    && m == if n <= 3 then v * Pow2(8 * (3 - n)) else Down(v, 8 * (n - 3))
  }

  lemma ByteLengthIs(v: nat)
    requires v > 0
    ensures ByteLength(v) >= 1 && Pow2(8 * (ByteLength(v) - 1)) <= v < Pow2(8 * ByteLength(v))
  {
    hide Pow2, BitLength;
    BitLengthIs(v);
    var b, n := BitLength(v), ByteLength(v);
    Pow2Monotone(8 * (n - 1), b - 1);
    Pow2Monotone(b, 8 * n);
  }

  lemma LeadingIs(v: nat)
    requires v > 0
    ensures 0x1_0000 <= Leading(v) < EXPONENT_UNIT
  {
    hide Pow2, ByteLength;
    ByteLengthIs(v);
    var n := ByteLength(v);
    BytePower(24);
    Pow2Of8();
    Pow2Add(8, 8);
    if n <= 3 {
      var p := Pow2(8 * (3 - n));
      Pow2Add(8 * (n - 1), 8 * (3 - n));
      Pow2Add(8 * n, 8 * (3 - n));
      MulMonotone(Pow2(8 * (n - 1)), v, p);
      MulMonotone(v + 1, Pow2(8 * n), p);
      Distribute(v, 1, p);
    } else {
      var d := Pow2(8 * (n - 3));
      Pow2Add(16, 8 * (n - 3));
      Pow2Add(24, 8 * (n - 3));
      DividedBounds(v, d, 0x1_0000, EXPONENT_UNIT);
    }
  }

  lemma DividedBounds(v: nat, d: nat, lo: nat, hi: nat)
    requires d > 0 && lo * d <= v < hi * d
    ensures lo <= v / d < hi
  {
    Floor(v, d, 0);
    var q := v / d;
    if q < lo {
      MulMonotone(q + 1, lo, d);
      Distribute(q, 1, d);
      assert false;
    }
    if hi <= q {
      MulMonotone(hi, q, d);
      assert false;
    }
  }

  // One more byte of exponent, one byte less of mantissa.
  lemma NextForm(v: nat, n: nat)
    requires n >= 1
    ensures var at := if n <= 3 then v * Pow2(8 * (3 - n)) else Down(v, 8 * (n - 3));
            var next := if n + 1 <= 3 then v * Pow2(8 * (3 - (n + 1))) else Down(v, 8 * (n + 1 - 3));
            next == at / 256
  {
    hide Pow2;
    Pow2Of8();
    One();
    if n < 3 {
      Pow2Add(8 * (2 - n), 8);
      var y := v * Pow2(8 * (2 - n));
      Regroup(v, Pow2(8 * (2 - n)), 256);
    } else if n == 3 {
      assert v * 1 == v;
    } else {
      Pow2Add(8 * (n - 3), 8);
      DivTwice(v, Pow2(8 * (n - 3)), 256);
    }
  }

  lemma DivTwice(v: nat, a: nat, b: nat)
    requires a > 0 && b > 0
    ensures a * b > 0 && v / a / b == v / (a * b)
  {
    var q, r := v / a, v % a;
    Recomposed(v, q, r, q / b, q % b, a, b);
    Floor(v, a * b, q / b);
  }

  lemma Recomposed(v: nat, q: nat, r: nat, p: nat, s: nat, a: nat, b: nat)
    requires v == a * q + r && q == b * p + s && r < a && s < b
    ensures a * b > 0 && p * (a * b) <= v < p * (a * b) + a * b
  {
    MulMonotone(1, b, a);
    Regroup(a, b, 1);
    Regroup(a, q, 1);
    Distribute(b * p, s, a);
    Regroup(b, p, a);
    Regroup(p, a, b);
    Regroup(p * a, b, 1);
    MulMonotone(s + 1, b, a);
    Distribute(s, 1, a);
  }

  // What the encoder makes of a positive number.
  lemma CompactForm(v: nat) returns (n: nat, m: nat)
    requires v > 0
    ensures IsForm(v, n, m) && Compact(v, false) == n * EXPONENT_UNIT + m
    ensures Compact(v, true) == n * EXPONENT_UNIT + m + SIGN
    ensures n == ByteLength(v) + if Leading(v) >= SIGN then 1 else 0
  {
    hide Pow2, BitLength, Down;
    LeadingIs(v);
    ByteLengthIs(v);
    n, m := ByteLength(v), Leading(v);
    if m >= SIGN {
      NextForm(v, n);
      n, m := n + 1, m / 256;
    }
  }

  lemma {:induction false} FormShrinks(v: nat, n: nat, k: nat)
    requires 1 <= n < k
    ensures var at := if n <= 3 then v * Pow2(8 * (3 - n)) else Down(v, 8 * (n - 3));
            var later := if k <= 3 then v * Pow2(8 * (3 - k)) else Down(v, 8 * (k - 3));
            later <= at / 256
    decreases k
  {
    hide Pow2, Down;
    NextForm(v, k - 1);
    if n < k - 1 {
      FormShrinks(v, n, k - 1);
    }
  }

  lemma FormGrows(u: nat, v: nat, n: nat)
    requires u <= v
    ensures (if n <= 3 then u * Pow2(8 * (3 - n)) else Down(u, 8 * (n - 3)))
         <= (if n <= 3 then v * Pow2(8 * (3 - n)) else Down(v, 8 * (n - 3)))
  {
    hide Pow2;
    if n <= 3 {
      MulMonotone(u, v, Pow2(8 * (3 - n)));
    } else {
      DivMonotone(u, v, Pow2(8 * (n - 3)));
    }
  }

  lemma DivMonotone(u: nat, v: nat, d: nat)
    requires u <= v && d > 0
    ensures u / d <= v / d
  {
    Floor(u, d, 0);
    Floor(v, d, 0);
    if v / d < u / d {
      MulMonotone(v / d + 1, u / d, d);
      Distribute(v / d, 1, d);
      assert false;
    }
  }

  lemma FormsOrdered(u: nat, v: nat, n: nat, m: nat, k: nat, l: nat)
    requires u <= v && IsForm(u, n, m) && IsForm(v, k, l)
    ensures n < k || (n == k && m <= l)
  {
    hide Pow2, Down;
    if k < n {
      FormShrinks(v, k, n);
      FormGrows(u, v, n);
      assert false;
    } else if n == k {
      FormGrows(u, v, n);
    }
  }

  // Larger targets never have smaller compact forms.
  lemma CompactIsMonotone(u: nat, v: nat)
    requires u <= v
    ensures Compact(u, false) <= Compact(v, false)
  {
    hide Compact, IsForm;
    if u == 0 {
      CompactZero();
    } else {
      var n, m := CompactForm(u);
      var k, l := CompactForm(v);
      FormsOrdered(u, v, n, m, k, l);
      FormRange(u, n, m);
    }
  }

  lemma CompactZero()
    ensures Compact(0, false) == 0
  {
  }

  lemma FormRange(v: nat, n: nat, m: nat)
    requires IsForm(v, n, m)
    ensures m < SIGN
  {
  }

  lemma FormFields(n: nat, m: nat)
    requires m < SIGN
    ensures var c := n * EXPONENT_UNIT + m; Exponent(c) == n && c % SIGN == m && !Signed(c)
  {
    var c := n * EXPONENT_UNIT + m;
    assert c == (2 * n) * SIGN + m;
    Remainder(c, SIGN, 2 * n, m);
    Remainder(c, EXPONENT_UNIT, n, m);
  }

  // The form denotes the number rounded down to a multiple of its last place.
  lemma FormDenotes(v: nat, n: nat, m: nat)
    requires IsForm(v, n, m)
    ensures var c := n * EXPONENT_UNIT + m;
            && Exponent(c) == n && Denoted(c) <= v && (v - Denoted(c)) * 0x8000 < v
            && IsForm(Denoted(c), n, m) && Mantissa(c) != 0 && !Signed(c)
  {
    hide Pow2, Exponent, Signed;
    FormFields(n, m);
    if n <= 3 {
      ExactForm(v, n, m);
    } else {
      RoundedForm(v, n, m);
    }
  }

  lemma ExactForm(v: nat, n: nat, m: nat)
    requires IsForm(v, n, m) && n <= 3
    ensures Down(m, 8 * (3 - n)) == v && v > 0
  {
    hide Pow2;
    var p := Pow2(8 * (3 - n));
    Multiple(p, v);
    Regroup(v, p, 1);
  }

  lemma RoundedForm(v: nat, n: nat, m: nat)
    requires IsForm(v, n, m) && n > 3
    ensures var q := Pow2(8 * (n - 3));
            m * q <= v && (v - m * q) * 0x8000 < v && Down(m * q, 8 * (n - 3)) == m
  {
    hide Pow2;
    var q := Pow2(8 * (n - 3));
    Floor(v, q, m);
    Multiple(q, m);
    MulMonotone(0x8000, m, q);
    Regroup(m, q, 1);
  }

  // Encoding and decoding a positive number keeps at least its leading 15 bits,
  // never rounds up, and doing it again changes nothing.
  lemma CompactRounds(v: nat)
    requires v > 0
    ensures var w := Denoted(Compact(v, false));
            && w <= v && (v - w) * 0x8000 < v
            && Compact(w, false) == Compact(v, false)
            && !Signed(Compact(v, false))
  {
    hide Compact, Denoted, IsForm, Mantissa, Signed, Exponent;
    var n, m := CompactForm(v);
    FormDenotes(v, n, m);
    var w := Denoted(Compact(v, false));
    var k, l := CompactForm(w);
    FormsOrdered(w, w, n, m, k, l);
    FormsOrdered(w, w, k, l, n, m);
  }

  lemma SignIgnored(n: nat, m: nat)
    requires m < SIGN
    ensures var c := n * EXPONENT_UNIT + m;
            && Exponent(c + SIGN) == Exponent(c) && (c + SIGN) % SIGN == c % SIGN && Signed(c + SIGN)
  {
    var c := n * EXPONENT_UNIT + m;
    Floor(c, EXPONENT_UNIT, n);
    Floor(c + SIGN, EXPONENT_UNIT, n);
    Floor(c, SIGN, 2 * n);
    Floor(c + SIGN, SIGN, 2 * n + 1);
  }

  // With the sign, the same number comes back and is reported as negative.
  lemma NegativeForm(v: nat)
    requires v > 0
    ensures var c := Compact(v, true);
            Denoted(c) == Denoted(Compact(v, false)) && Mantissa(c) != 0 && Signed(c)
  {
    hide Pow2, Compact, Down, IsForm, Exponent, Signed;
    var n, m := CompactForm(v);
    FormRange(v, n, m);
    FormDenotes(v, n, m);
    SignIgnored(n, m);
  }

  // The form of a 256-bit number never overflows.
  lemma CompactFits(v: nat)
    requires 0 < v < Modulus()
    ensures !Overflows(Compact(v, false)) && Compact(v, true) < WORD32
    ensures ByteLength(v) <= 32
  {
    hide Pow2, Weight, Compact, Denoted, IsForm, BitLength, Leading;
    var n, m := CompactForm(v);
    FormDenotes(v, n, m);
    FormRange(v, n, m);
    OverflowIsExact(Compact(v, false));
    ByteLengthIs(v);
    Pow2Weight(WIDTH);
    if ByteLength(v) > 32 {
      Pow2Monotone(8 * 32, 8 * (ByteLength(v) - 1));
      assert false;
    }
  }

  method GetLow64(t: Uint256) returns (low: nat)
    requires t.Valid()
    ensures low == t.Value() % (BASE * BASE)
  {
    hide Low;
    low := t.pn[0] + t.pn[1] * BASE;
    LowLimbs(t.pn[..]);
  }

  lemma LowLimbs(s: seq<nat>)
    requires AreLimbs(s)
    ensures Limbs.Value(s) % (BASE * BASE) == s[0] + s[1] * BASE
  {
    hide Low, Weight;
    var q := LowSplit(s, 2, WIDTH);
    NextWeight(s, 0);
    NextWeight(s, 1);
    FirstWeight(s);
    var low := s[0] + s[1] * BASE;
    assert Low(s, 2) == low;
    assert Limbs.Value(s) == low + q * (BASE * BASE);
    Floor(Limbs.Value(s), BASE * BASE, q);
  }

  method GetCompact(t: Uint256, fNegative: bool) returns (nCompact: nat)
    requires t.Valid()
    ensures nCompact == Compact(t.Value(), fNegative) && nCompact < WORD32
  {
    hide Pow2, Weight, Limbs.Value, BitLength, Down, Leading, Compact;
    ghost var v := t.Value();
    ValueBound(t.pn[..]);
    LeadingFits(v);
    var bits := t.Bits();
    var nSize := (bits + 7) / 8;
    if nSize <= 3 {
      var low := GetLow64(t);
      Short(v);
      nCompact := low * Pow2(8 * (3 - nSize)) % WORD32;
    } else {
      var bn := new Uint256.Copy(t);
      bn.ShiftRight(8 * (nSize - 3));
      Long(v);
      nCompact := GetLow64(bn);
      nCompact := nCompact % WORD32;
    }
    Packed(v, fNegative);
    if nCompact >= SIGN {
      nCompact := nCompact / 256;
      nSize := nSize + 1;
    }
    assert nCompact < SIGN && nSize < 256;
    nCompact := nCompact + nSize * EXPONENT_UNIT;
    if fNegative && nCompact % SIGN != 0 {
      nCompact := nCompact + SIGN;
    }
  }

  lemma LeadingFits(v: nat)
    requires v < Modulus()
    ensures Leading(v) < EXPONENT_UNIT && ByteLength(v) <= 32
  {
    hide Pow2, Weight;
    if v > 0 {
      LeadingIs(v);
      CompactFits(v);
    }
  }

  lemma Packed(v: nat, fNegative: bool)
    requires Leading(v) < EXPONENT_UNIT && ByteLength(v) <= 32
    ensures var bump := if Leading(v) >= SIGN then 1 else 0;
            var word, size := if bump == 1 then Leading(v) / 256 else Leading(v), ByteLength(v) + bump;
            && Compact(v, fNegative) == word + size * EXPONENT_UNIT + (if fNegative && word != 0 then SIGN else 0)
            && word < SIGN && size < 256 && (word + size * EXPONENT_UNIT) % SIGN == word
            && Compact(v, fNegative) < WORD32
  {
    hide Leading, ByteLength;
  }

  lemma Short(v: nat)
    requires ByteLength(v) <= 3 && (v > 0 ==> Leading(v) < EXPONENT_UNIT)
    ensures v % (BASE * BASE) == v && v * Pow2(8 * (3 - ByteLength(v))) % WORD32 == Leading(v)
    ensures Leading(v) < EXPONENT_UNIT
  {
    hide Pow2, ByteLength;
    if v > 0 {
      MulMonotone(1, Pow2(8 * (3 - ByteLength(v))), v);
    }
  }

  lemma Long(v: nat)
    requires ByteLength(v) > 3 && Leading(v) < EXPONENT_UNIT
    ensures v / Pow2(8 * (ByteLength(v) - 3)) == Leading(v)
    ensures Leading(v) % (BASE * BASE) % WORD32 == Leading(v)
  {
    hide Pow2, ByteLength;
  }

  // The forms that the program's own tests list.
  lemma TestForms()
    ensures Denoted(0x01123456) == 0x12 && Denoted(0x02123456) == 0x1234 && Denoted(0x03123456) == 0x123456
    ensures Denoted(0x04123456) == 0x12345600 && Denoted(0x05009234) == 0x92340000
    ensures Denoted(0x01003456) == 0 && Denoted(0x02000056) == 0 && Denoted(0x01fedcba) == 0x7e
    ensures Signed(0x01fedcba) && Signed(0x04923456) && Denoted(0x04923456) == 0x12345600
    ensures Overflows(0xff123456) && !Overflows(0x20123456)
  {
    hide Pow2, Mantissa;
    SmallPowers();
    Word(0x01123456, 1, 0x123456);
    Word(0x02123456, 2, 0x123456);
    Word(0x03123456, 3, 0x123456);
    Word(0x04123456, 4, 0x123456);
    Word(0x05009234, 5, 0x9234);
    Word(0x01003456, 1, 0x3456);
    Word(0x02000056, 2, 0x56);
    Word(0x01fedcba, 1, 0x7edcba);
    Word(0x04923456, 4, 0x123456);
    Word(0xff123456, 0xff, 0x123456);
    Word(0x20123456, 0x20, 0x123456);
  }

  lemma SmallPowers()
    ensures Pow2(0) == 1 && Pow2(8) == 0x100 && Pow2(16) == 0x1_0000
  {
    Pow2Of8();
    Pow2Add(8, 8);
  }

  lemma Word(c: nat, e: nat, w: nat)
    requires c / EXPONENT_UNIT == e && c % SIGN == w
    ensures Exponent(c) == e && Mantissa(c) == if e <= 3 then w / Pow2(8 * (3 - e)) else w
  {
    hide Pow2;
  }

  // A form is the only one of its number.
  lemma CompactOf(v: nat, n: nat, m: nat)
    requires v > 0 && IsForm(v, n, m)
    ensures Compact(v, false) == n * EXPONENT_UNIT + m
  {
    hide Compact, IsForm;
    var k, l := CompactForm(v);
    FormsOrdered(v, v, n, m, k, l);
    FormsOrdered(v, v, k, l, n, m);
  }

  // The documented examples, and the one in the tests that avoids the sign bit.
  lemma DocumentedForms()
    ensures Compact(0x12_3456_0000, false) == 0x05123456 && Compact(0xc0_de00_0000, false) == 0x0600c0de
    ensures Compact(0x80, false) == 0x02008000
  {
    hide Pow2;
    SmallPowers();
    assert Pow2(24) == EXPONENT_UNIT by { BytePower(24); }
    CompactOf(0x12_3456_0000, 5, 0x123456);
    CompactOf(0xc0_de00_0000, 6, 0xc0de);
    CompactOf(0x80, 2, 0x8000);
  }
}
