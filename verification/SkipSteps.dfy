// How many steps the walk along skip pointers takes.
module SkipSteps {
  import opened Numbers

  // The number with its lowest one bit cleared.
  function InvertLowestOne(n: nat): nat {
    if n == 0 then 0 else if n % 2 == 1 then n - 1 else 2 * InvertLowestOne(n / 2)
  }

  lemma {:induction false} InvertLowers(n: nat)
    requires n > 0
    ensures InvertLowestOne(n) < n
  {
    if n % 2 == 0 {
      InvertLowers(n / 2);
    }
  }

  // What is cleared is the largest power of two that divides the number.
  lemma {:induction false} InvertClears(n: nat) returns (k: nat)
    requires n > 0
    ensures InvertLowestOne(n) == n - Pow2(k)
    ensures n % Pow2(k) == 0 && n % Pow2(k + 1) != 0
  {
    if n % 2 == 1 {
      k := 0;
      assert Pow2(0) == 1 && Pow2(1) == 2;
    } else {
      var j := InvertClears(n / 2);
      k := j + 1;
      DivMod(n / 2, Pow2(j));
      DivMod(n / 2, Pow2(j + 1));
      DoubleRest(n / 2, Pow2(j));
      DoubleRest(n / 2, Pow2(j + 1));
    }
  }

  lemma {:induction false} DoubleRest(n: nat, d: nat)
    requires d > 0
    ensures 2 * n % (2 * d) == 2 * (n % d)
  {
    var q, r := n / d, n % d;
    DivMod(n, d);
    assert q * (2 * d) == 2 * (q * d);
    Remainder(2 * n, 2 * d, q, 2 * r);
  }

  function GetSkipHeight(height: int): nat {
    if height < 2 then 0
    else if height % 2 == 1 then InvertLowestOne(InvertLowestOne(height - 1)) + 1
    else InvertLowestOne(height)
  }

  lemma {:induction false} SkipGoesBack(height: int)
    requires height >= 1
    ensures GetSkipHeight(height) < height
  {
    if height >= 2 {
      InvertLowers(if height % 2 == 1 then height - 1 else height);
      if height % 2 == 1 && InvertLowestOne(height - 1) > 0 {
        InvertLowers(InvertLowestOne(height - 1));
      }
    }
  }

  // Whether the skip pointer is followed on the way to a lower height.
  predicate FollowsSkip(walk: nat, height: nat) {
    var heightSkip, heightSkipPrev := GetSkipHeight(walk), GetSkipHeight(walk - 1);
    heightSkip == height || (heightSkip > height && !(heightSkipPrev < heightSkip - 2 && heightSkipPrev >= height))
  }

  // The next height of the walk.
  function Hop(walk: nat, height: nat): (next: nat)
    requires height < walk
    ensures height <= next < walk
  {
    SkipGoesBack(walk);
    if FollowsSkip(walk, height) then GetSkipHeight(walk) else walk - 1
  }

  function Hops(walk: nat, height: nat): nat
    requires height <= walk
    decreases walk
  {
    if walk == height then 0 else 1 + Hops(Hop(walk, height), height)
  }

  // ------------------------------------------------------------------ one bits

  function Ones(n: nat): nat {
    if n == 0 then 0 else n % 2 + Ones(n / 2)
  }

  lemma {:induction false} OnesBounded(n: nat, k: nat)
    requires n < Pow2(k)
    ensures Ones(n) <= k
  {
    if n > 0 {
      OnesBounded(n / 2, k - 1);
    }
  }

  lemma {:induction false} SomeOne(n: nat)
    requires n > 0
    ensures Ones(n) > 0
  {
    if n % 2 == 0 {
      SomeOne(n / 2);
    }
  }

  lemma {:induction false} InvertTakesOne(n: nat)
    requires n > 0
    ensures Ones(InvertLowestOne(n)) == Ones(n) - 1
  {
    if n % 2 == 0 {
      InvertTakesOne(n / 2);
    } else if n > 1 {
      assert (n - 1) / 2 == n / 2;
    }
  }

  // Below a power of two the bits above do not matter.
  lemma {:induction false} InvertBelow(mid: nat, x: nat, k: nat)
    requires mid % Pow2(k) == 0 && 0 < x < Pow2(k)
    ensures InvertLowestOne(mid + x) == mid + InvertLowestOne(x)
    decreases k
  {
    HalfOfMultiple(mid, k);
    if x % 2 == 0 {
      InvertBelow(mid / 2, x / 2, k - 1);
      assert (mid + x) / 2 == mid / 2 + x / 2;
    }
  }

  lemma {:induction false} HalfOfMultiple(mid: nat, k: nat)
    requires k > 0 && mid % Pow2(k) == 0
    ensures mid % 2 == 0 && (mid / 2) % Pow2(k - 1) == 0
  {
    var d := Pow2(k - 1);
    var q := mid / Pow2(k);
    DivMod(mid, Pow2(k));
    assert q * (2 * d) == 2 * (q * d);
    assert mid / 2 == q * d;
    Remainder(mid / 2, d, q, 0);
  }

  // The lowest one bit of the middle of a block is all it has in the block.
  lemma {:induction false} InvertMiddle(base: nat, k: nat)
    requires base % Pow2(k + 1) == 0
    ensures InvertLowestOne(base + Pow2(k)) == base
    decreases k
  {
    HalfOfMultiple(base, k + 1);
    if k > 0 {
      InvertMiddle(base / 2, k - 1);
      assert (base + Pow2(k)) / 2 == base / 2 + Pow2(k - 1);
    }
  }

  // ---------------------------------------------------- one block of heights

  // h is in the upper half, from mid on, of a block of 2^(k + 1) heights, and t in
  // the lower half.
  predicate Across(base: nat, k: nat, h: nat, t: nat) {
    base % Pow2(k + 1) == 0 && base <= t < base + Pow2(k) <= h < base + Pow2(k + 1)
  }

  // A step leaves the upper half or takes away a one bit.
  predicate Gains(base: nat, k: nat, h: nat, next: nat)
    requires base + Pow2(k) <= h
  {
    next < base + Pow2(k) || Ones(next - base - Pow2(k)) < Ones(h - base - Pow2(k))
  }

  lemma {:induction false} MidIsMultiple(base: nat, k: nat)
    requires base % Pow2(k + 1) == 0
    ensures (base + Pow2(k)) % Pow2(k) == 0 && base % Pow2(k) == 0
  {
    var d, q := Pow2(k), base / Pow2(k + 1);
    DivMod(base, Pow2(k + 1));
    assert q * (2 * d) == (2 * q) * d;
    Distribute(2 * q, 1, d);
    Remainder(base, d, 2 * q, 0);
    Remainder(base + d, d, 2 * q + 1, 0);
  }

  // Two one bits less below an even height of the upper half, and one more on top.
  lemma {:induction false} TwoCleared(base: nat, k: nat, x: nat)
    requires base % Pow2(k + 1) == 0 && x < Pow2(k) && x % 2 == 0 && k > 0
    ensures var y, mid := InvertLowestOne(x), base + Pow2(k);
            var z := InvertLowestOne(InvertLowestOne(mid + x)) + 1;
            if x == 0 || y == 0 then z < mid
            else z == mid + InvertLowestOne(y) + 1 && Ones(z - mid) == Ones(x) - 1
  {
    hide Pow2, InvertLowestOne, Ones;
    var mid, y := base + Pow2(k), InvertLowestOne(x);
    MidIsMultiple(base, k);
    InvertMiddle(base, k);
    EvenPower(k);
    InvertNotAbove(base);
    if x > 0 {
      InvertBelow(mid, x, k);
      InvertTakesOne(x);
      if y > 0 {
        InvertLowers(x);
        InvertBelow(mid, y, k);
        InvertTakesOne(y);
        EvenStays(x);
        EvenStays(y);
      }
    }
  }

  lemma {:induction false} EvenPower(k: nat)
    requires k > 0
    ensures Pow2(k) % 2 == 0 && Pow2(k) >= 2 && Pow2(k + 1) == 2 * Pow2(k)
  {
  }

  lemma {:induction false} InvertNotAbove(n: nat)
    ensures InvertLowestOne(n) <= n
  {
    if n > 0 {
      InvertLowers(n);
    }
  }

  lemma {:induction false} EvenStays(x: nat)
    requires x % 2 == 0
    ensures InvertLowestOne(x) % 2 == 0
    ensures Ones(InvertLowestOne(x) + 1) == Ones(InvertLowestOne(x)) + 1
  {
    hide InvertLowestOne, Ones;
    InvertTwice(x / 2);
    OneMoreBit(InvertLowestOne(x));
  }

  // Both skips that a step looks at.
  lemma {:induction false} SkipsAre(h: nat)
    requires h >= 3
    ensures h % 2 == 1 ==> GetSkipHeight(h) == InvertLowestOne(InvertLowestOne(h - 1)) + 1
                           && GetSkipHeight(h - 1) == InvertLowestOne(h - 1)
    ensures h % 2 == 0 ==> GetSkipHeight(h) == InvertLowestOne(h)
                           && GetSkipHeight(h - 1) == InvertLowestOne(InvertLowestOne(h - 2)) + 1
  {
    hide InvertLowestOne;
  }

  // An odd height always skips as far as that is not too far.
  lemma {:induction false} OddSkips(h: nat, t: nat)
    requires h >= 3 && h % 2 == 1 && t < h
    ensures var z := InvertLowestOne(InvertLowestOne(h - 1)) + 1; Hop(h, t) == if z >= t then z else h - 1
  {
    hide InvertLowestOne, GetSkipHeight;
    SkipsAre(h);
    InvertNotAbove(InvertLowestOne(h - 1));
  }

  lemma {:induction false} OddGains(base: nat, k: nat, h: nat, t: nat)
    requires Across(base, k, h, t) && h % 2 == 1 && k > 0
    ensures Gains(base, k, h, Hop(h, t))
  {
    hide Pow2, InvertLowestOne, Ones, Hop;
    var mid := base + Pow2(k);
    HalfOfMultiple(base, k + 1);
    EvenPower(k);
    var x := h - 1 - mid;
    TwoCleared(base, k, x);
    OneMoreBit(x);
    OddSkips(h, t);
  }

  lemma {:induction false} OneMoreBit(x: nat)
    requires x % 2 == 0
    ensures Ones(x + 1) == Ones(x) + 1
  {
    assert (x + 1) / 2 == x / 2;
  }

  // The lowest one bit of an even height of the upper half is one of the lower bits.
  lemma {:induction false} UpperHalf(base: nat, k: nat, h: nat)
    requires base % Pow2(k + 1) == 0 && base + Pow2(k) < h < base + Pow2(k + 1) && h % 2 == 0 && k > 0
    ensures var mid := base + Pow2(k);
            && 2 <= mid && 2 <= h - mid < Pow2(k) && (h - mid) % 2 == 0
            && InvertLowestOne(h) == mid + InvertLowestOne(h - mid)
            && Ones(InvertLowestOne(h - mid)) == Ones(h - mid) - 1
  {
    hide Pow2, InvertLowestOne, Ones;
    var mid := base + Pow2(k);
    MidIsEven(base, k);
    EvenRest(h, mid);
    assert h - mid < Pow2(k) by { EvenPower(k); }
    assert mid % Pow2(k) == 0 by { MidIsMultiple(base, k); }
    InvertBelow(mid, h - mid, k);
    InvertTakesOne(h - mid);
  }

  lemma {:induction false} MidIsEven(base: nat, k: nat)
    requires base % Pow2(k + 1) == 0 && k > 0
    ensures (base + Pow2(k)) % 2 == 0 && base + Pow2(k) >= 2
  {
    hide Pow2;
    HalfOfMultiple(base, k + 1);
    EvenPower(k);
  }

  lemma {:induction false} EvenRest(h: nat, mid: nat)
    requires h % 2 == 0 && mid % 2 == 0 && mid < h
    ensures (h - mid) % 2 == 0 && h - mid >= 2
  {
  }

  // An even height of the upper half does so in one step or in two.
  lemma {:induction false} EvenGains(base: nat, k: nat, h: nat, t: nat)
    requires Across(base, k, h, t) && h % 2 == 0 && base + Pow2(k) < h
    ensures var next := Hop(h, t);
            Gains(base, k, h, next) || (t < next == h - 1 && Gains(base, k, h, Hop(next, t)))
  {
    hide Pow2, InvertLowestOne, Ones, GetSkipHeight;
    InnerPower(base, k, h);
    UpperHalf(base, k, h);
    SkipsAre(h);
    if !FollowsSkip(h, t) {
      OddSkips(h - 1, t);
      TwoLower(base, k, h, t);
    }
  }

  // Where an even height does not skip, the step after that gains.
  lemma {:induction false} TwoLower(base: nat, k: nat, h: nat, t: nat)
    requires Across(base, k, h, t) && h % 2 == 0 && base + Pow2(k) < h && k > 0
    requires InvertLowestOne(InvertLowestOne(h - 2)) + 1 < InvertLowestOne(h) - 2
    ensures Gains(base, k, h, InvertLowestOne(InvertLowestOne(h - 2)) + 1)
  {
    hide Pow2, InvertLowestOne, Ones;
    var r := h - (base + Pow2(k));
    UpperHalf(base, k, h);
    TwoCleared(base, k, r - 2);
    if r > 2 && InvertLowestOne(r - 2) > 0 {
      if r % 8 == 0 {
        FromEight(r);
      }
      OnesBefore(r);
    }
  }

  lemma {:induction false} InnerPower(base: nat, k: nat, h: nat)
    requires base + Pow2(k) < h < base + Pow2(k + 1)
    ensures k > 0
  {
    assert Pow2(0) == 1 && Pow2(1) == 2;
  }

  // Two less has at most as many one bits, but for multiples of eight.
  lemma {:induction false} OnesBefore(r: nat)
    requires r >= 2 && r % 2 == 0 && r % 8 != 0
    ensures Ones(r - 2) <= Ones(r)
  {
    hide Ones;
    var q := r / 2;
    var p := q / 2;
    var n := p / 2;
    assert r == 2 * q;
    if q % 2 == 1 {
      assert r == 4 * p + 2;
      OnesOfTwo(p);
    } else if p % 2 == 1 {
      assert r == 8 * n + 4;
      OnesOfFour(n);
    } else {
      Remainder(r, 8, n, 0);
      assert false;
    }
  }

  lemma {:induction false} OnesOfTwo(n: nat)
    ensures Ones(4 * n + 2) == Ones(4 * n) + 1
  {
    hide Ones;
    OnesTwice(2 * n + 1, 0);
    OnesTwice(2 * n, 0);
    OnesTwice(n, 0);
    OnesTwice(n, 1);
  }

  lemma {:induction false} OnesOfFour(n: nat)
    ensures Ones(8 * n + 4) == Ones(8 * n + 2)
  {
    hide Ones;
    OnesTwice(4 * n + 2, 0);
    OnesTwice(4 * n + 1, 0);
    OnesTwice(2 * n + 1, 0);
    OnesTwice(2 * n, 1);
    OnesTwice(n, 0);
    OnesTwice(n, 1);
  }

  lemma {:induction false} OnesTwice(n: nat, b: nat)
    requires b < 2
    ensures Ones(2 * n + b) == Ones(n) + b
  {
    assert (2 * n + b) / 2 == n;
  }

  // Two below a multiple of eight, two cleared bits lead no further down than one does
  // from there.
  lemma {:induction false} FromEight(r: nat)
    requires r > 0 && r % 8 == 0
    ensures InvertLowestOne(InvertLowestOne(r - 2)) >= InvertLowestOne(r)
  {
    hide InvertLowestOne;
    var q := r / 8 - 1;
    assert r - 2 == 2 * (4 * q + 3) && r == 2 * (2 * (2 * (q + 1)));
    InvertTwice(4 * q + 3);
    assert 2 * (4 * q + 2) == 2 * (2 * (2 * q + 1));
    InvertTwice(2 * (2 * q + 1));
    InvertTwice(2 * q + 1);
    InvertTwice(2 * (2 * (q + 1)));
    InvertTwice(2 * (q + 1));
    InvertTwice(q + 1);
    InvertLowers(q + 1);
  }

  lemma {:induction false} InvertTwice(n: nat)
    ensures InvertLowestOne(2 * n) == 2 * InvertLowestOne(n)
    ensures n % 2 == 1 ==> InvertLowestOne(n) == n - 1
  {
  }

  // ------------------------------------------------------------------- results

  // From the upper half to the lower in two steps for each one bit and one more.
  lemma {:induction false} Descends(base: nat, k: nat, h: nat, t: nat)
    requires Across(base, k, h, t)
    ensures Hops(h, t) <= 2 * Ones(h - base - Pow2(k)) + 1 + k * k
    decreases 2 * k + 1, h
  {
    hide Pow2, InvertLowestOne, Ones, Hop;
    var next := Hop(h, t);
    if h == base + Pow2(k) {
      Reaches(base, k, h, next, t);
    } else {
      InnerPower(base, k, h);
      if h % 2 == 1 {
        OddGains(base, k, h, t);
        Reaches(base, k, h, next, t);
      } else {
        EvenGains(base, k, h, t);
        if Gains(base, k, h, next) {
          Reaches(base, k, h, next, t);
        } else {
          Reaches(base, k, h, Hop(next, t), t);
          assert Hops(next, t) == 1 + Hops(Hop(next, t), t);
          SomeOne(h - base - Pow2(k));
        }
      }
    }
  }

  // The rest of the way from a height that has gained.
  lemma {:induction false} Reaches(base: nat, k: nat, h: nat, next: nat, t: nat)
    requires Across(base, k, h, t) && t <= next < h
    requires next < base + Pow2(k) || Ones(next - base - Pow2(k)) < Ones(h - base - Pow2(k))
    ensures Hops(next, t) <= k * k + if next < base + Pow2(k) then 0 else 2 * Ones(h - base - Pow2(k)) - 1
    decreases 2 * k + 1, h, 0
  {
    hide Ones, Hop, Hops;
    if next < base + Pow2(k) {
      MidIsMultiple(base, k);
      HopsInBlock(base, k, next, t);
    } else {
      Descends(base, k, next, t);
    }
  }

  // Between two heights of one block of 2^k heights it takes k * k steps at most.
  lemma {:induction false} HopsInBlock(base: nat, k: nat, h: nat, t: nat)
    requires base % Pow2(k) == 0 && base <= t <= h < base + Pow2(k)
    ensures Hops(h, t) <= k * k
    decreases 2 * k, h
  {
    hide Hop, Ones;
    if k > 0 {
      var mid := base + Pow2(k - 1);
      MidIsMultiple(base, k - 1);
      if h < mid {
        HopsInBlock(base, k - 1, h, t);
      } else if t >= mid {
        HopsInBlock(mid, k - 1, h, t);
      } else {
        Descends(base, k - 1, h, t);
        OnesBounded(h - mid, k - 1);
      }
      assert (k - 1) * (k - 1) + 2 * (k - 1) + 1 == k * k;
    }
  }

  // So below height 2^k any ancestor is reached in k * k steps.
  lemma {:induction false} HopsBounded(h: nat, t: nat, k: nat)
    requires t <= h < Pow2(k)
    ensures Hops(h, t) <= k * k
  {
    HopsInBlock(0, k, h, t);
  }
}
