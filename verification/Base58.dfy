// Base58 strings: buffers of a size fixed beforehand, and both round trips.
module Base58 {
  import opened Coins
  import opened Numbers

  // Digits and letters in ascending order, but for 0, I, O and l.
  function CharOf(d: nat): char
    requires d < 58
  {
    if d < 9 then '1' + d as char
    else if d < 17 then 'A' + (d - 9) as char
    else if d < 22 then 'J' + (d - 17) as char
    else if d < 33 then 'P' + (d - 22) as char
    else if d < 44 then 'a' + (d - 33) as char
    else 'm' + (d - 44) as char
  }

  function DigitOf(c: char): (d: Option<nat>)
    ensures d.Some? ==> d.value < 58 && CharOf(d.value) == c
    ensures d.None? ==> forall k :: 0 <= k < 58 ==> CharOf(k) != c
  {
    if '1' <= c <= '9' then Some((c - '1') as nat)
    else if 'A' <= c <= 'H' then Some(9 + (c - 'A') as nat)
    else if 'J' <= c <= 'N' then Some(17 + (c - 'J') as nat)
    else if 'P' <= c <= 'Z' then Some(22 + (c - 'P') as nat)
    else if 'a' <= c <= 'k' then Some(33 + (c - 'a') as nat)
    else if 'm' <= c <= 'z' then Some(44 + (c - 'm') as nat)
    else None
  }

  lemma DigitOfChar(d: nat)
    requires d < 58
    ensures DigitOf(CharOf(d)) == Some(d) && !IsSpace(CharOf(d)) && (CharOf(d) == '1' <==> d == 0)
  {
  }

  predicate IsAlphanumeric(c: char) {
    '0' <= c <= '9' || 'A' <= c <= 'Z' || 'a' <= c <= 'z'
  }

  // The alphabet in ascending order: all digits and letters but four.
  lemma Alphabet(c: char, d: nat, e: nat)
    requires d < e < 58
    ensures CharOf(d) < CharOf(e)
    ensures (exists k :: 0 <= k < 58 && CharOf(k) == c)
            <==> IsAlphanumeric(c) && c != '0' && c != 'I' && c != 'O' && c != 'l'
  {
    if DigitOf(c).Some? {
      assert CharOf(DigitOf(c).value) == c;
    }
  }

  predicate IsSpace(c: char) {
    c == ' ' || '\t' <= c <= '\r'
  }

  // ------------------------------------------------------------ positional

  predicate AreDigits(s: seq<nat>, base: nat) {
    forall i :: 0 <= i < |s| ==> s[i] < base
  }

  // The number with these digits, the highest first.
  function Number(s: seq<nat>, base: nat): nat {
    if s == [] then 0 else Number(s[..|s| - 1], base) * base + s[|s| - 1]
  }

  // The digits of a number, without leading zeros.
  function Digits(n: nat, base: nat): (s: seq<nat>)
    requires base >= 2
    ensures AreDigits(s, base)
    decreases n
  {
    if n == 0 then []
    else
      DivMod(n, base);
      Digits(n / base, base) + [n % base]
  }

  predicate Minimal(s: seq<nat>) {
    s != [] ==> s[0] != 0
  }

  lemma DigitsNext(n: nat, base: nat)
    requires base >= 2 && n > 0
    ensures Digits(n, base) == Digits(n / base, base) + [n % base]
    ensures n / base < n && n == n / base * base + n % base
  {
    DivMod(n, base);
  }

  lemma NoDigits(base: nat)
    requires base >= 2
    ensures Digits(0, base) == [] && Number([], base) == 0
  {
  }

  lemma {:induction false} DigitsNumber(n: nat, base: nat)
    requires base >= 2
    ensures Number(Digits(n, base), base) == n && Minimal(Digits(n, base))
    decreases n
  {
    hide Digits, Number;
    NoDigits(base);
    if n > 0 {
      DigitsNext(n, base);
      DigitsNumber(n / base, base);
      NumberAppend(Digits(n / base, base), n % base, base);
    }
  }

  lemma NumberAppend(s: seq<nat>, d: nat, base: nat)
    ensures Number(s + [d], base) == Number(s, base) * base + d
  {
    assert (s + [d])[..|s|] == s;
  }

  lemma OneMoreDigit(n: nat, last: nat, base: nat)
    requires base >= 2 && last < base && (n > 0 || last > 0)
    ensures Digits(n * base + last, base) == Digits(n, base) + [last]
  {
    var x := n * base + last;
    MulMonotone(if n > 0 then 1 else 0, n, base);
    Floor(x, base, n);
    assert x == base * (x / base) + x % base;
    Regroup(base, n, 1);
    assert x > 0 && x / base == n && x % base == last;
  }

  lemma {:induction false} NumberDigits(s: seq<nat>, base: nat)
    requires base >= 2 && AreDigits(s, base) && Minimal(s)
    ensures Digits(Number(s, base), base) == s
  {
    hide Digits;
    if s == [] {
      NoDigits(base);
    } else {
      var front, last := s[..|s| - 1], s[|s| - 1];
      NumberDigits(front, base);
      if front != [] {
        NonZero(front, base);
      }
      OneMoreDigit(Number(front, base), last, base);
      assert s == front + [last];
    }
  }

  lemma {:induction false} NonZero(s: seq<nat>, base: nat)
    requires base >= 1 && s != [] && s[0] != 0
    ensures Number(s, base) > 0
  {
    if |s| > 1 {
      NonZero(s[..|s| - 1], base);
      MulMonotone(1, Number(s[..|s| - 1], base), base);
    }
  }

  function Power(base: nat, k: nat): nat {
    if k == 0 then 1 else base * Power(base, k - 1)
  }

  lemma {:induction false} PowerPositive(base: nat, k: nat)
    requires base > 0
    ensures Power(base, k) > 0
  {
    if k > 0 {
      PowerPositive(base, k - 1);
      MulMonotone(1, base, Power(base, k - 1));
    }
  }

  lemma {:induction false} NumberBound(s: seq<nat>, base: nat)
    requires AreDigits(s, base)
    ensures Number(s, base) < Power(base, |s|)
  {
    if s != [] {
      NumberBound(s[..|s| - 1], base);
      var n, p := Number(s[..|s| - 1], base), Power(base, |s| - 1);
      MulMonotone(n + 1, p, base);
      Distribute(n, 1, base);
      Regroup(base, p, 1);
    }
  }

  // --------------------------------------------------------- buffer sizes

  lemma {:induction false} PowerAdd(base: nat, a: nat, b: nat)
    ensures Power(base, a + b) == Power(base, a) * Power(base, b)
    decreases b
  {
    if b > 0 {
      PowerAdd(base, a, b - 1);
      Regroup(base, Power(base, a), Power(base, b - 1));
      Regroup(Power(base, a), base, Power(base, b - 1));
    }
  }

  lemma {:induction false} PowerOfPower(base: nat, a: nat, b: nat)
    ensures Power(Power(base, a), b) == Power(base, a * b)
    decreases b
  {
    if b > 0 {
      PowerOfPower(base, a, b - 1);
      PowerAdd(base, a, a * (b - 1));
      assert a + a * (b - 1) == a * b;
    }
  }

  lemma {:induction false} PowerMonotone(x: nat, y: nat, k: nat)
    requires x <= y
    ensures Power(x, k) <= Power(y, k)
  {
    if k > 0 {
      PowerMonotone(x, y, k - 1);
      MulMonotone(Power(x, k - 1), Power(y, k - 1), x);
      MulMonotone(x, y, Power(y, k - 1));
      Regroup(x, Power(x, k - 1), 1);
      Regroup(x, Power(y, k - 1), 1);
    }
  }

  lemma {:induction false} PowerStrict(x: nat, y: nat, k: nat)
    requires x < y && k > 0
    ensures Power(x, k) < Power(y, k)
  {
    PowerMonotone(x, y, k - 1);
    PowerPositive(y, k - 1);
    MulMonotone(Power(x, k - 1), Power(y, k - 1), x);
    Distribute(x, 1, Power(y, k - 1));
    MulMonotone(x + 1, y, Power(y, k - 1));
    Regroup(x, Power(x, k - 1), 1);
    Regroup(x, Power(y, k - 1), 1);
  }

  lemma {:induction false} PowerGrows(base: nat, a: nat, b: nat)
    requires base >= 1 && a <= b
    ensures Power(base, a) <= Power(base, b)
    decreases b
  {
    if a < b {
      PowerGrows(base, a, b - 1);
      MulMonotone(1, base, Power(base, b - 1));
    }
  }

  lemma RootMonotone(x: nat, y: nat, d: nat)
    requires d > 0 && Power(x, d) <= Power(y, d)
    ensures x <= y
  {
    hide Power;
    if y < x {
      PowerStrict(y, x, d);
      assert false;
    }
  }

  // base^(a b), either way round.
  lemma PowerTwice(base: nat, a: nat, b: nat, ab: nat)
    requires ab == a * b
    ensures Power(Power(base, a), b) == Power(base, ab) && Power(Power(base, b), a) == Power(base, ab)
  {
    hide Power;
    PowerOfPower(base, a, b);
    PowerOfPower(base, b, a);
    Regroup(a, b, 1);
  }

  lemma PowerBelow(from: nat, to: nat, c: nat, d: nat, n: nat, cn: nat, dn: nat)
    requires Power(from, d) <= Power(to, c) && cn == c * n && dn == d * n
    ensures Power(Power(from, n), d) <= Power(to, cn)
  {
    hide Power;
    PowerTwice(from, d, n, dn);
    PowerTwice(to, c, n, cn);
    PowerMonotone(Power(from, d), Power(to, c), n);
  }

  lemma PowerAbove(to: nat, d: nat, k: nat, cn: nat, dk: nat)
    requires to >= 1 && dk == d * k && cn <= dk
    ensures Power(to, cn) <= Power(Power(to, k), d)
  {
    hide Power;
    PowerTwice(to, d, k, dk);
    PowerGrows(to, cn, dk);
  }

  // c digits of one base hold d digits of the other; then so do as many more
  // as the ratio says.
  lemma RatioSuffices(from: nat, to: nat, c: nat, d: nat, n: nat, k: nat, cn: nat, dn: nat, dk: nat)
    requires to >= 1 && d >= 1 && Power(from, d) <= Power(to, c)
    requires cn == c * n && dn == d * n && dk == d * k && cn <= dk
    ensures Power(from, n) <= Power(to, k)
  {
    hide Power;
    PowerBelow(from, to, c, d, n, cn, dn);
    PowerAbove(to, d, k, cn, dk);
    RootMonotone(Power(from, n), Power(to, k), d);
  }

  // 256^8 <= 58^11.
  lemma BytesRatio()
    ensures Power(256, 8) <= Power(58, 11)
  {
  }

  lemma Squared(base: nat, k: nat, v: nat)
    requires Power(base, k) == v
    ensures Power(base, k + k) == v * v
  {
    PowerAdd(base, k, k);
  }

  lemma Joined(base: nat, k: nat, v: nat, l: nat, w: nat)
    requires Power(base, k) == v && Power(base, l) == w
    ensures Power(base, k + l) == v * w
  {
    PowerAdd(base, k, l);
  }

  const CHARS8: nat := 128063081718016
  const CHARS16: nat := CHARS8 * CHARS8
  const CHARS32: nat := CHARS16 * CHARS16
  const CHARS64: nat := CHARS32 * CHARS32
  const CHARS7: nat := 2207984167552
  const BYTES13: nat := 0x100_0000_0000_0000_0000_0000_0000

  lemma SmallPowers()
    ensures Power(58, 8) == CHARS8 && Power(58, 7) == CHARS7 && Power(256, 13) == BYTES13
  {
  }

  // 58^71 <= 256^52.
  lemma CharsRatio()
    ensures Power(58, 71) <= Power(256, 52)
  {
    SmallPowers();
    hide Power;
    Squared(58, 8, CHARS8);
    Squared(58, 16, CHARS16);
    Squared(58, 32, CHARS32);
    Joined(58, 64, CHARS64, 7, CHARS7);
    Squared(256, 13, BYTES13);
    Squared(256, 26, BYTES13 * BYTES13);
    assert CHARS64 * CHARS7 <= (BYTES13 * BYTES13) * (BYTES13 * BYTES13);
  }

  // The buffer for the digits of n bytes is large enough.
  lemma EncodeBufferSuffices(n: nat)
    ensures Power(256, n) <= Power(58, n * 138 / 100 + 1)
  {
    hide Power;
    BytesRatio();
    var k := n * 138 / 100 + 1;
    RatioSuffices(256, 58, 11, 8, n, k, 11 * n, 8 * n, 8 * k);
  }

  // And so is the one for the bytes of n characters.
  lemma DecodeBufferSuffices(n: nat)
    ensures Power(58, n) <= Power(256, n * 733 / 1000 + 1)
  {
    hide Power;
    CharsRatio();
    var k := n * 733 / 1000 + 1;
    RatioSuffices(58, 256, 52, 71, n, k, 52 * n, 71 * n, 71 * k);
  }

  // ------------------------------------------------------- the digit buffer

  // The number in the digits from position i on.
  function Tail(s: seq<nat>, base: nat, i: nat): nat
    requires i <= |s|
    decreases |s| - i
  {
    if i == |s| then 0 else s[i] * Power(base, |s| - 1 - i) + Tail(s, base, i + 1)
  }

  lemma {:induction false} NumberSplit(s: seq<nat>, base: nat, i: nat)
    requires i <= |s|
    ensures Number(s, base) == Number(s[..i], base) * Power(base, |s| - i) + Tail(s, base, i)
    decreases |s| - i
  {
    hide Power;
    if i == |s| {
      assert s[..i] == s;
      NoPower(base);
      assert Number(s, base) * 1 == Number(s, base);
    } else {
      NumberSplit(s, base, i + 1);
      assert s[..i + 1][..i] == s[..i];
      var n, d, p := Number(s[..i], base), s[i], Power(base, |s| - 1 - i);
      NextPower(base, |s| - 1 - i);
      Distribute(n * base, d, p);
      Regroup(n, base, p);
    }
  }

  lemma NoPower(base: nat)
    ensures Power(base, 0) == 1
  {
  }

  lemma NextPower(base: nat, k: nat)
    ensures Power(base, k + 1) == base * Power(base, k)
  {
  }

  lemma NumberIsTail(s: seq<nat>, base: nat)
    ensures Number(s, base) == Tail(s, base, 0)
  {
    hide Power;
    NumberSplit(s, base, 0);
    assert s[..0] == [];
    assert Number([], base) == 0;
  }

  lemma {:induction false} SameTail(s: seq<nat>, t: seq<nat>, base: nat, i: nat)
    requires |s| == |t| && i <= |s| && s[i..] == t[i..]
    ensures Tail(s, base, i) == Tail(t, base, i)
    decreases |s| - i
  {
    if i < |s| {
      assert s[i] == s[i..][0] && t[i] == t[i..][0];
      assert s[i + 1..] == s[i..][1..] && t[i + 1..] == t[i..][1..];
      SameTail(s, t, base, i + 1);
    }
  }

  // One digit of a multiplication: what stays and what is carried.
  lemma DigitStep(old_: nat, digit: nat, factor: nat, carry: nat, base: nat, w: nat)
    requires base > 0 && old_ == carry + factor * digit
    ensures old_ % base * w + old_ / base * (base * w) == carry * w + factor * (digit * w)
  {
    var q, r := old_ / base, old_ % base;
    assert old_ == base * q + r;
    Regroup(base, q, 1);
    Regroup(q, base, w);
    Distribute(q * base, r, w);
    Distribute(carry, factor * digit, w);
    Regroup(factor, digit, w);
  }

  // Multiplies the number in the buffer and adds to it, from the last digit on.
  method MultiplyAdd(buffer: array<nat>, base: nat, factor: nat, add: nat) returns (carry: nat)
    requires base >= 2 && AreDigits(buffer[..], base)
    modifies buffer
    ensures AreDigits(buffer[..], base)
    ensures Number(buffer[..], base) + carry * Power(base, buffer.Length)
            == factor * Number(old(buffer[..]), base) + add
  {
    hide Power, Tail;
    ghost var was := buffer[..];
    carry := add;
    var i := buffer.Length;
    TailsEmpty(was, base);
    while i > 0
      invariant 0 <= i <= buffer.Length && AreDigits(buffer[..], base)
      invariant buffer[..i] == was[..i]
      invariant Tail(buffer[..], base, i) + carry * Power(base, buffer.Length - i) == factor * Tail(was, base, i) + add
    {
      i := i - 1;
      assert buffer[..i + 1][i] == was[..i + 1][i];
      ghost var before := buffer[..];
      var digit := buffer[i];
      carry := carry + factor * digit;
      TailStep(before, was, base, i, factor, add, carry);
      buffer[i] := carry % base;
      carry := carry / base;
      assert buffer[..] == before[i := buffer[i]];
    }
    NumberIsTail(buffer[..], base);
    NumberIsTail(was, base);
  }

  lemma TailsEmpty(s: seq<nat>, base: nat)
    ensures Tail(s, base, |s|) == 0 && Power(base, 0) == 1
  {
  }

  lemma TailStep(s: seq<nat>, was: seq<nat>, base: nat, i: nat, factor: nat, add: int, sum: nat)
    requires base >= 2 && i < |s| == |was| && s[i] == was[i] && sum >= factor * s[i]
    requires Tail(s, base, i + 1) + (sum - factor * s[i]) * Power(base, |s| - (i + 1))
             == factor * Tail(was, base, i + 1) + add
    ensures Tail(s[i := sum % base], base, i) + sum / base * Power(base, |s| - i) == factor * Tail(was, base, i) + add
  {
    hide Power;
    var w := Power(base, |s| - 1 - i);
    NextPower(base, |s| - 1 - i);
    DigitStep(sum, s[i], factor, sum - factor * s[i], base, w);
    SameTail(s, s[i := sum % base], base, i + 1);
    Distribute(was[i] * w, Tail(was, base, i + 1), factor);
    Regroup(factor, was[i] * w + Tail(was, base, i + 1), 1);
    Regroup(factor, was[i] * w, 1);
    Regroup(factor, Tail(was, base, i + 1), 1);
  }

  // ------------------------------------------------------------- the strings

  // How many of the first elements equal x.
  function Leading<T(==)>(s: seq<T>, x: T): (n: nat)
    ensures n <= |s| && (n < |s| ==> s[n] != x) && forall i :: 0 <= i < n ==> s[i] == x
  {
    if s == [] || s[0] != x then 0 else 1 + Leading(s[1..], x)
  }

  lemma {:induction false} LeadingIs<T>(s: seq<T>, x: T, n: nat)
    requires n <= |s| && (n < |s| ==> s[n] != x) && forall i :: 0 <= i < n ==> s[i] == x
    ensures Leading(s, x) == n
  {
    if n > 0 {
      LeadingIs(s[1..], x, n - 1);
    }
  }

  function Repeat<T>(x: T, n: nat): (s: seq<T>)
    ensures |s| == n && forall i :: 0 <= i < n ==> s[i] == x
  {
    seq(n, _ => x)
  }

  function Chars(ds: seq<nat>): (s: string)
    requires AreDigits(ds, 58)
    ensures |s| == |ds| && forall i :: 0 <= i < |ds| ==> s[i] == CharOf(ds[i])
  {
    if ds == [] then [] else Chars(ds[..|ds| - 1]) + [CharOf(ds[|ds| - 1])]
  }

  // Leading zero bytes as ones, then the digits of the rest.
  function Encode(v: seq<nat>): string {
    var zeroes := Leading(v, 0);
    Repeat('1', zeroes) + Chars(Digits(Number(v[zeroes..], 256), 58))
  }

  function SpacesFront(s: string): (n: nat)
    ensures n <= |s| && (n < |s| ==> !IsSpace(s[n])) && forall i :: 0 <= i < n ==> IsSpace(s[i])
  {
    if s == "" || !IsSpace(s[0]) then 0 else 1 + SpacesFront(s[1..])
  }

  // Up to the first space.
  function WordLength(s: string): (n: nat)
    ensures n <= |s| && (n < |s| ==> IsSpace(s[n])) && forall i :: 0 <= i < n ==> !IsSpace(s[i])
  {
    if s == "" || IsSpace(s[0]) then 0 else 1 + WordLength(s[1..])
  }

  function DigitsOf(s: string): (r: Option<seq<nat>>)
    ensures r.Some? ==> AreDigits(r.value, 58) && Chars(r.value) == s
  {
    if s == "" then Some([])
    else
      var before, d := DigitsOf(s[..|s| - 1]), DigitOf(s[|s| - 1]);
      if before.None? || d.None? then None
      else
        var ds := before.value + [d.value];
        assert ds[..|ds| - 1] == before.value && s == s[..|s| - 1] + [s[|s| - 1]];
        Some(ds)
  }

  // The string without spaces around it.
  function Word(s: string): string {
    var front := SpacesFront(s);
    s[front..][..WordLength(s[front..])]
  }

  // Leading ones as zero bytes, then the bytes of the rest; None for anything
  // but one word of the alphabet between spaces.
  function Decode(s: string): Option<seq<nat>> {
    var rest := s[SpacesFront(s) + |Word(s)|..];
    var ones := Leading(Word(s), '1');
    var digits := DigitsOf(Word(s)[ones..]);
    if digits.None? || SpacesFront(rest) != |rest| then None
    else Some(Repeat(0, ones) + Digits(Number(digits.value, 58), 256))
  }

  lemma {:induction false} DigitsOfChars(ds: seq<nat>)
    requires AreDigits(ds, 58)
    ensures DigitsOf(Chars(ds)) == Some(ds)
  {
    hide DigitsOf, Chars, CharOf, DigitOf;
    if ds != [] {
      var front, last := ds[..|ds| - 1], ds[|ds| - 1];
      DigitsOfChars(front);
      DigitOfChar(last);
      CharsMore(ds);
      DigitsMore(Chars(front), CharOf(last));
      assert front + [last] == ds;
    } else {
      NoChars();
    }
  }

  lemma NoChars()
    ensures DigitsOf(Chars([])) == Some([])
  {
  }

  lemma {:induction false} CharsMore(ds: seq<nat>)
    requires AreDigits(ds, 58) && ds != []
    ensures Chars(ds) == Chars(ds[..|ds| - 1]) + [CharOf(ds[|ds| - 1])]
  {
    hide CharOf;
  }

  lemma {:induction false} DigitsMore(s: string, c: char)
    requires DigitsOf(s).Some? && DigitOf(c).Some?
    ensures DigitsOf(s + [c]) == Some(DigitsOf(s).value + [DigitOf(c).value])
  {
    hide CharOf, DigitOf, Chars;
    assert (s + [c])[..|s + [c]| - 1] == s;
  }

  lemma WholeWord(s: string)
    requires forall i :: 0 <= i < |s| ==> !IsSpace(s[i])
    ensures SpacesFront(s) == 0 && Word(s) == s
  {
  }

  lemma EncodedWord(v: seq<nat>)
    ensures forall i :: 0 <= i < |Encode(v)| ==> !IsSpace(Encode(v)[i])
    ensures Leading(Encode(v), '1') == Leading(v, 0)
  {
    var zeroes := Leading(v, 0);
    var ds := Digits(Number(v[zeroes..], 256), 58);
    DigitsNumber(Number(v[zeroes..], 256), 58);
    forall i | 0 <= i < |ds| ensures !IsSpace(Chars(ds)[i]) && (Chars(ds)[i] == '1' <==> ds[i] == 0) {
      DigitOfChar(ds[i]);
    }
    LeadingIs(Encode(v), '1', zeroes);
  }

  // What was encoded decodes to the same bytes.
  lemma DecodeEncode(v: seq<nat>)
    requires AreDigits(v, 256)
    ensures Decode(Encode(v)) == Some(v)
  {
    hide Digits, DigitsOf, Chars, Leading, Number, Word, SpacesFront, Encode;
    var zeroes := Leading(v, 0);
    var n := Number(v[zeroes..], 256);
    EncodedWord(v);
    WholeWord(Encode(v));
    EncodedDigits(v);
    DigitsOfChars(Digits(n, 58));
    DigitsNumber(n, 58);
    NumberDigits(v[zeroes..], 256);
    assert v == Repeat(0, zeroes) + v[zeroes..];
  }

  lemma EncodedDigits(v: seq<nat>)
    ensures var zeroes := Leading(v, 0);
            |Encode(v)| >= zeroes && Encode(v)[zeroes..] == Chars(Digits(Number(v[zeroes..], 256), 58))
  {
    hide Digits, Chars, Leading, Number;
  }

  // What decodes is, apart from spaces around it, the encoding of its bytes.
  lemma EncodeDecode(s: string)
    requires Decode(s).Some?
    ensures Encode(Decode(s).value) == Word(s)
  {
    hide Digits, DigitsOf, Chars, Leading, Word;
    var word := Word(s);
    var ones := Leading(word, '1');
    var ds := DigitsOf(word[ones..]).value;
    var n := Number(ds, 58);
    var bytes := Digits(n, 256);
    var v := Decode(s).value;
    assert v == Repeat(0, ones) + bytes;
    DigitsNumber(n, 256);
    LeadingIs(v, 0, ones);
    assert v[ones..] == bytes;
    NotOneFirst(word, ones, ds);
    NumberDigits(ds, 58);
    assert word == Repeat('1', ones) + word[ones..];
  }

  lemma NotOneFirst(word: string, ones: nat, ds: seq<nat>)
    requires ones == Leading(word, '1') && AreDigits(ds, 58) && Chars(ds) == word[ones..]
    ensures Minimal(ds)
  {
    if ds != [] {
      DigitOfChar(ds[0]);
      assert word[ones] == word[ones..][0];
    }
  }

  // Without spaces, encoding is the exact inverse.
  lemma EncodeDecodeExact(s: string)
    requires Decode(s).Some? && forall i :: 0 <= i < |s| ==> !IsSpace(s[i])
    ensures Encode(Decode(s).value) == s
  {
    hide Encode, Decode;
    EncodeDecode(s);
    WholeWord(s);
  }

  // -------------------------------------------------------------- the loops

  // Skips the zeros a buffer starts with.
  method WithoutZeros(buffer: array<nat>, base: nat) returns (digits: seq<nat>)
    requires base >= 2 && AreDigits(buffer[..], base)
    ensures digits == Digits(Number(buffer[..], base), base)
  {
    hide Number, Digits;
    var it := 0;
    while it != buffer.Length && buffer[it] == 0
      invariant it <= buffer.Length && forall i :: 0 <= i < it ==> buffer[i] == 0
    {
      it := it + 1;
    }
    digits := buffer[it..];
    ZerosFront(buffer[..], base, it);
    assert buffer[..][it..] == digits;
    NumberDigits(digits, base);
  }

  lemma {:induction false} ZerosFront(s: seq<nat>, base: nat, n: nat)
    requires n <= |s| && forall i :: 0 <= i < n ==> s[i] == 0
    ensures Number(s[n..], base) == Number(s, base)
    decreases |s|
  {
    if n < |s| {
      var front := s[..|s| - 1];
      ZerosFront(front, base, n);
      assert s[n..][..|s| - n - 1] == front[n..];
    } else {
      NumberOfZeros(s, base);
    }
  }

  lemma {:induction false} NumberOfZeros(s: seq<nat>, base: nat)
    requires forall i :: 0 <= i < |s| ==> s[i] == 0
    ensures Number(s, base) == 0
  {
    if s != [] {
      NumberOfZeros(s[..|s| - 1], base);
    }
  }

  // A number that fits leaves no carry.
  lemma NoCarry(n: nat, carry: nat, limit: nat)
    requires n + carry * limit < limit
    ensures carry == 0
  {
    if carry > 0 {
      MulMonotone(1, carry, limit);
      assert false;
    }
  }

  lemma {:induction false} PrefixBound(s: seq<nat>, base: nat, k: nat, limit: nat)
    requires base >= 1 && AreDigits(s, base) && k <= |s| && Power(base, |s|) <= limit
    ensures Number(s[..k], base) < limit
  {
    hide Power;
    NumberBound(s[..k], base);
    PowerGrows(base, k, |s|);
  }

  method EncodeBase58(v: seq<nat>) returns (str: string)
    requires AreDigits(v, 256)
    ensures str == Encode(v)
  {
    hide Number, Digits, Power, Chars;
    var zeroes := CountLeading(v);
    var rest := v[zeroes..];
    var b58 := new nat[|rest| * 138 / 100 + 1](_ => 0);
    ZeroDigits(b58[..], 58);
    EncodeBufferSuffices(|rest|);
    NothingRead(rest, 256);
    for i := 0 to |rest|
      invariant AreDigits(b58[..], 58) && Number(b58[..], 58) == Number(rest[..i], 256)
    {
      assert rest[..i + 1] == rest[..i] + [rest[i]];
      NumberAppend(rest[..i], rest[i], 256);
      PrefixBound(rest, 256, i + 1, Power(58, b58.Length));
      var carry := MultiplyAdd(b58, 58, 256, rest[i]);
      NoCarry(Number(b58[..], 58), carry, Power(58, b58.Length));
      assert carry == 0;
    }
    assert rest[..|rest|] == rest;
    var digits := WithoutZeros(b58, 58);
    str := Repeat('1', zeroes) + Chars(digits);
  }

  method CountLeading(v: seq<nat>) returns (zeroes: nat)
    ensures zeroes == Leading(v, 0)
  {
    zeroes := 0;
    while zeroes != |v| && v[zeroes] == 0
      invariant zeroes <= |v| && forall i :: 0 <= i < zeroes ==> v[i] == 0
    {
      zeroes := zeroes + 1;
    }
    LeadingIs(v, 0, zeroes);
  }

  lemma NothingRead(s: seq<nat>, base: nat)
    ensures Number(s[..0], base) == 0
  {
  }

  method SkipSpaces(psz: string, start: nat) returns (i: nat)
    requires start <= |psz|
    ensures i == start + SpacesFront(psz[start..]) <= |psz|
  {
    i := start;
    while i < |psz| && IsSpace(psz[i])
      invariant start <= i <= |psz| && forall k :: start <= k < i ==> IsSpace(psz[k])
    {
      i := i + 1;
    }
    SpacesAre(psz[start..], i - start);
  }

  // Reads the word after its leading ones into a buffer, up to a space or a
  // character that does not belong.
  method ReadDigits(psz: string, body: nat) returns (end: nat, b256: array<nat>, ghost ds: seq<nat>)
    requires body <= |psz|
    ensures fresh(b256) && AreDigits(b256[..], 256) && Number(b256[..], 256) == Number(ds, 58)
    ensures body <= end <= |psz| && DigitsOf(psz[body..][..end - body]) == Some(ds)
    ensures forall k :: body <= k < end ==> !IsSpace(psz[k])
    ensures end < |psz| ==> IsSpace(psz[end]) || DigitOf(psz[end]) == None
  {
    hide Number, Digits, Power, Chars, DigitsOf, DigitOf, AreDigits;
    var n := |psz| - body;
    b256 := new nat[n * 733 / 1000 + 1](_ => 0);
    ZeroDigits(b256[..], 256);
    DecodeBufferSuffices(n);
    ds := [];
    NothingDecoded(psz[body..]);
    end := body;
    while end < |psz| && !IsSpace(psz[end])
      invariant body <= end <= |psz| && |ds| == end - body
      invariant forall k :: body <= k < end ==> !IsSpace(psz[k])
      invariant DigitsOf(psz[body..][..end - body]) == Some(ds)
      invariant AreDigits(b256[..], 256) && Number(b256[..], 256) == Number(ds, 58)
    {
      var ch := DigitOf(psz[end]);
      if ch == None {
        return;
      }
      DigitRead(psz[body..], end - body, ds);
      NumberAppend(ds, ch.value, 58);
      ds := ds + [ch.value];
      SmallNumber(psz[body..], ds, Power(256, b256.Length));
      var carry := MultiplyAdd(b256, 256, 58, ch.value);
      NoCarry(Number(b256[..], 256), carry, Power(256, b256.Length));
      assert carry == 0;
      end := end + 1;
    }
  }

  // A string without terminators, as one that ends at its first terminator.
  method DecodeBase58(psz: string) returns (ok: bool, vch: seq<nat>)
    ensures if ok then Decode(psz) == Some(vch) else Decode(psz) == None
  {
    hide Number, Digits, Power, Chars, DigitsOf, DigitOf, SpacesFront, Word, Leading, AreDigits, Decode;
    vch := [];
    assert psz[0..] == psz;
    var start := SkipSpaces(psz, 0);
    var i := start;
    while i < |psz| && psz[i] == '1'
      invariant start <= i <= |psz| && forall k :: start <= k < i ==> psz[k] == '1'
    {
      i := i + 1;
    }
    var zeroes := i - start;
    OnesInWord(psz, start, zeroes);
    var end, b256, ds := ReadDigits(psz, i);
    if end < |psz| && !IsSpace(psz[end]) {
      DigitRead(psz[i..], end - i, ds);
      InWord(psz, start, end + 1);
      BadDigit(psz, start, zeroes, end + 1 - i);
      NotDecoded(psz, zeroes);
      return false, [];
    }
    WordEnds(psz, start, end);
    WordRead(psz, start, i, end, ds);
    var last := SkipSpaces(psz, end);
    if last < |psz| {
      return false, [];
    }
    var digits := WithoutZeros(b256, 256);
    return true, Repeat(0, zeroes) + digits;
  }

  lemma {:induction false} SpacesAre(s: string, n: nat)
    requires n <= |s| && (n < |s| ==> !IsSpace(s[n])) && forall k :: 0 <= k < n ==> IsSpace(s[k])
    ensures SpacesFront(s) == n
  {
    if n > 0 {
      SpacesAre(s[1..], n - 1);
    }
  }

  lemma {:induction false} WordLengthIs(s: string, n: nat)
    requires n <= |s| && (n < |s| ==> IsSpace(s[n])) && forall k :: 0 <= k < n ==> !IsSpace(s[k])
    ensures WordLength(s) == n
  {
    if n > 0 {
      WordLengthIs(s[1..], n - 1);
    }
  }

  lemma WordAt(s: string, i: nat)
    requires SpacesFront(s) + i < |s|
    ensures i < |Word(s)| ==> Word(s)[i] == s[SpacesFront(s) + i]
    ensures |Word(s)| <= |s| - SpacesFront(s)
    ensures i == |Word(s)| ==> IsSpace(s[SpacesFront(s) + i])
  {
  }

  lemma {:induction false} WordAtLeast(s: string, m: nat)
    requires m <= |s| && forall k :: 0 <= k < m ==> !IsSpace(s[k])
    ensures WordLength(s) >= m
  {
    if m > 0 {
      WordAtLeast(s[1..], m - 1);
    }
  }

  // What is read without a space is part of the word.
  lemma InWord(s: string, start: nat, end: nat)
    requires start == SpacesFront(s) && start <= end <= |s| && forall k :: start <= k < end ==> !IsSpace(s[k])
    ensures end - start <= |Word(s)| <= |s| - start && Word(s)[..end - start] == s[start..end]
  {
    hide SpacesFront, WordLength, IsSpace;
    var rest := s[start..];
    assert forall k :: 0 <= k < |rest| ==> rest[k] == s[start + k];
    WordAtLeast(rest, end - start);
    assert Word(s) == rest[..WordLength(rest)];
    assert rest[..end - start] == s[start..end];
  }

  lemma WordEnds(s: string, start: nat, end: nat)
    requires start == SpacesFront(s) && start <= end <= |s| && forall k :: start <= k < end ==> !IsSpace(s[k])
    requires end < |s| ==> IsSpace(s[end])
    ensures Word(s) == s[start..end]
  {
    hide SpacesFront, WordLength;
    NoSpacesThere(s, start, end);
    WordLengthIs(s[start..], end - start);
    assert s[start..][..end - start] == s[start..end];
  }

  lemma NoSpacesThere(s: string, start: nat, end: nat)
    requires start <= end <= |s| && forall k :: start <= k < end ==> !IsSpace(s[k])
    ensures forall k :: 0 <= k < end - start ==> !IsSpace(s[start..][k])
  {
  }

  // What is known once the whole word is read.
  lemma WordRead(s: string, start: nat, body: nat, end: nat, ds: seq<nat>)
    requires start <= body <= end <= |s| && start == SpacesFront(s) && Word(s) == s[start..end]
    requires Leading(Word(s), '1') == body - start && DigitsOf(s[body..][..end - body]) == Some(ds)
    ensures Decode(s) == if SpacesFront(s[end..]) != |s[end..]| then None
                         else Some(Repeat(0, body - start) + Digits(Number(ds, 58), 256))
  {
    hide Number, Digits, DigitsOf, SpacesFront, Word, Leading;
    assert s[start..end][body - start..] == s[body..][..end - body];
  }

  lemma OnesInWord(s: string, start: nat, ones: nat)
    requires start == SpacesFront(s) && start + ones <= |s| && forall k :: start <= k < start + ones ==> s[k] == '1'
    requires start + ones < |s| ==> s[start + ones] != '1'
    ensures Leading(Word(s), '1') == ones
  {
    hide Word, Leading, WordLength;
    InWord(s, start, start + ones);
    forall i | 0 <= i < ones ensures Word(s)[i] == '1' {
      assert Word(s)[i] == s[start..start + ones][i];
    }
    if ones < |Word(s)| {
      WordAt(s, ones);
    }
    LeadingIs(Word(s), '1', ones);
  }

  lemma {:induction false} DigitsPrefix(s: string, k: nat)
    requires k <= |s| && DigitsOf(s[..k]) == None
    ensures DigitsOf(s) == None
  {
    if k < |s| {
      assert s[..|s| - 1][..k] == s[..k];
      DigitsPrefix(s[..|s| - 1], k);
    } else {
      assert s[..k] == s;
    }
  }

  lemma BadDigit(s: string, start: nat, ones: nat, n: nat)
    requires start + ones + n <= |s| && ones + n <= |Word(s)| && Word(s)[..ones + n] == s[start..start + ones + n]
    requires DigitsOf(s[start + ones..][..n]) == None
    ensures DigitsOf(Word(s)[ones..]) == None
  {
    hide Word, DigitsOf;
    var w := Word(s);
    assert w[ones..][..n] == w[..ones + n][ones..];
    assert s[start + ones..][..n] == s[start..start + ones + n][ones..];
    DigitsPrefix(w[ones..], n);
  }

  lemma NotDecoded(s: string, ones: nat)
    requires ones == Leading(Word(s), '1') && DigitsOf(Word(s)[ones..]) == None
    ensures Decode(s) == None
  {
    hide Number, Digits, DigitsOf, SpacesFront, Word, Leading;
  }

  lemma NothingDecoded(body: string)
    ensures DigitsOf(body[..0]) == Some([]) && Number([], 58) == 0
  {
  }

  lemma DigitRead(body: string, n: nat, ds: seq<nat>)
    requires n < |body| && DigitsOf(body[..n]) == Some(ds)
    ensures DigitsOf(body[..n + 1])
            == if DigitOf(body[n]).None? then None else Some(ds + [DigitOf(body[n]).value])
    ensures |ds| == n
  {
    assert body[..n + 1][..n] == body[..n];
  }

  lemma ZeroDigits(s: seq<nat>, base: nat)
    requires base > 0 && forall i :: 0 <= i < |s| ==> s[i] == 0
    ensures AreDigits(s, base) && Number(s, base) == 0
  {
    NumberOfZeros(s, base);
  }

  lemma SmallNumber(body: string, ds: seq<nat>, limit: nat)
    requires |ds| <= |body| && DigitsOf(body[..|ds|]) == Some(ds) && Power(58, |body|) <= limit
    ensures Number(ds, 58) < limit
  {
    hide Power;
    NumberBound(ds, 58);
    PowerGrows(58, |ds|, |body|);
  }
}
