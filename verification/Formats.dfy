// The stored formats against their documentation: its formula, its size classes and
// its examples.
module Formats {
  import opened Coins
  import opened Numbers
  import opened VarInt
  import opened Compressor
  import opened CoinsCodec

  // ------------------------------------------------------ variable-length integers

  // The digits of all but the last byte, one more than their low bits say.
  function Leading(a: seq<nat>): nat {
    if a == [] then 0 else a[|a| - 1] % 128 + 1 + 128 * Leading(a[..|a| - 1])
  }

  lemma NothingLeads()
    ensures Leading([]) == 0
  {
  }

  lemma LeadingMore(a: seq<nat>, x: nat)
    ensures Leading(a + [x]) == x % 128 + 1 + 128 * Leading(a)
  {
    assert (a + [x])[..|a|] == a;
  }

  // The number a byte sequence encodes, by the documented formula.
  function Encodes(a: seq<nat>): nat
    requires a != []
  {
    a[|a| - 1] % 128 + 128 * Leading(a[..|a| - 1])
  }

  lemma {:induction false} FlaggedLeads(n: nat)
    ensures Leading(Flagged(n, 0x80)) == n + 1
    ensures forall i :: 0 <= i < |Flagged(n, 0x80)| ==> 128 <= Flagged(n, 0x80)[i] < 256
  {
    hide Flagged, Leading;
    FlaggedParts(n, 0x80);
    Low(n, 0x80);
    NothingLeads();
    var high := if n <= 0x7f then [] else Flagged(n / 128 - 1, 0x80);
    LeadingMore(high, n % 128 + 0x80);
    if n > 0x7f {
      FlaggedLeads(n / 128 - 1);
    }
  }

  lemma Low(n: nat, flag: nat)
    requires flag == 0 || flag == 0x80
    ensures (n % 128 + flag) % 128 == n % 128 && n == n % 128 + 128 * (n / 128)
  {
  }

  // What is written follows the formula: every byte but the last has bit 128 set.
  lemma WrittenEncodes(n: nat)
    ensures var a := Write(n);
            && Encodes(a) == n && a[|a| - 1] < 128
            && forall i :: 0 <= i < |a| - 1 ==> 128 <= a[i] < 256
  {
    hide Flagged;
    FlaggedParts(n, 0);
    Low(n, 0);
    var high := if n <= 0x7f then [] else Flagged(n / 128 - 1, 0x80);
    assert (high + [n % 128 + 0])[..|high|] == high;
    if n > 0x7f {
      FlaggedLeads(n / 128 - 1);
    }
  }

  // The smallest number of so many bytes.
  function Smallest(k: nat): nat {
    if k <= 1 then 0 else 128 * (Smallest(k - 1) + 1)
  }

  lemma {:induction false} SizeFrom(n: nat, flag: nat, k: nat)
    requires k >= 1
    ensures |Flagged(n, flag)| == k <==> Smallest(k) <= n < Smallest(k + 1)
    decreases n
  {
    hide Flagged;
    FlaggedParts(n, flag);
    if n > 0x7f && k > 1 {
      SizeFrom(n / 128 - 1, 0x80, k - 1);
    }
  }

  // The size classes: 1 byte up to 127, 2 up to 16511, 3 up to 2113663, and so on.
  lemma SizeClasses(n: nat, k: nat)
    requires k >= 1
    ensures |Write(n)| == k <==> Smallest(k) <= n < Smallest(k + 1)
    ensures |Write(n)| == 1 <==> n <= 127
    ensures |Write(n)| == 2 <==> 128 <= n <= 16511
    ensures |Write(n)| == 3 <==> 16512 <= n <= 2113663
  {
    hide Flagged;
    SizeFrom(n, 0, k);
    SizeFrom(n, 0, 1);
    SizeFrom(n, 0, 2);
    SizeFrom(n, 0, 3);
    assert Smallest(1) == 0 && Smallest(2) == 128 && Smallest(3) == 16512 && Smallest(4) == 2113664;
  }

  lemma WriteMore(n: nat)
    requires n > 0x7f
    ensures Write(n) == Flagged(n / 128 - 1, 0x80) + [n % 128]
  {
  }

  lemma FlaggedMore(n: nat)
    ensures n <= 0x7f ==> Flagged(n, 0x80) == [n + 128]
    ensures n > 0x7f ==> Flagged(n, 0x80) == Flagged(n / 128 - 1, 0x80) + [n % 128 + 128]
  {
  }

  // The documented table; for 16511 and 65535 it gives other bytes, which are the
  // encodings of 32895 and 65407.
  lemma Table()
    ensures Write(0) == [0x00] && Write(1) == [0x01] && Write(127) == [0x7f]
    ensures Write(128) == [0x80, 0x00] && Write(255) == [0x80, 0x7f] && Write(256) == [0x81, 0x00]
    ensures Write(16383) == [0xfe, 0x7f] && Write(16384) == [0xff, 0x00]
    ensures Write(0x1_0000_0000) == [0x8e, 0xfe, 0xfe, 0xff, 0x00]
    ensures Write(16511) == [0xff, 0x7f] && Write(32895) == [0x80, 0xff, 0x7f]
    ensures Write(65535) == [0x82, 0xfe, 0x7f] && Write(65407) == [0x82, 0xfd, 0x7f]
  {
    hide Flagged, Write;
    TwoBytes(128);
    TwoBytes(255);
    TwoBytes(256);
    TwoBytes(16383);
    TwoBytes(16384);
    TwoBytes(16511);
    ThreeBytes(32895);
    ThreeBytes(65407);
    ThreeBytes(65535);
    WriteMore(0x1_0000_0000);
    FlaggedMore(33554431);
    FlaggedMore(262142);
    FlaggedMore(2046);
    FlaggedMore(14);
    OneByte(0);
    OneByte(1);
    OneByte(127);
  }

  lemma OneByte(n: nat)
    requires n <= 127
    ensures Write(n) == [n]
  {
  }

  lemma TwoBytes(n: nat)
    requires 128 <= n <= 16511
    ensures Write(n) == [n / 128 + 127, n % 128]
  {
    WriteMore(n);
    FlaggedMore(n / 128 - 1);
  }

  lemma ThreeBytes(n: nat)
    requires 16512 <= n <= 2113663
    ensures Write(n) == [(n / 128 - 1) / 128 + 127, (n / 128 - 1) % 128 + 128, n % 128]
  {
    hide Flagged, Write;
    WriteMore(n);
    FlaggedMore(n / 128 - 1);
    FlaggedMore((n / 128 - 1) / 128 - 1);
  }

  // ----------------------------------------------------------------------- amounts

  lemma OneTen(x: nat, e: nat)
    requires x > 0 && e < 9
    ensures TakeTens(10 * x, e) == TakeTens(x, e + 1)
  {
    assert 10 * x % 10 == 0 && 10 * x / 10 == x;
  }

  lemma {:induction false} TensOut(m: nat, k: nat, e: nat)
    requires m > 0 && e <= k <= 9
    ensures m * Power10(k - e) > 0
    ensures var s := TakeTens(m * Power10(k - e), e); k <= s.e <= 9 && 0 < s.m <= m && (s.e < 9 ==> s.m % 10 > 0)
    decreases k - e
  {
    hide TakeTens;
    if e < k {
      TensOut(m, k, e + 1);
      ScaledUp(m, k - e - 1);
      OneTen(m * Power10(k - e - 1), e);
    } else {
      assert m * Power10(0) == m;
      TensTaken(m, e);
      var s := TakeTens(m, e);
      PowerPositive10(s.e - e);
      MulMonotone(1, Power10(s.e - e), s.m);
    }
  }

  // An amount of few digits in a round unit gets a small number: ten times the digits
  // at most, up to a unit of 10^9.
  lemma RoundAmountsShrink(m: nat, e: nat)
    requires m > 0 && e <= 9
    ensures Compress(m * Power10(e)) <= 10 * m
  {
    hide Power10, TakeTens;
    TensOut(m, e, 0);
    var s := TakeTens(m * Power10(e), 0);
    PackedBelow(s.m, s.e);
  }

  lemma PackedBelow(m: nat, e: nat)
    requires m > 0 && e <= 9 && (e < 9 ==> m % 10 > 0)
    ensures Packed(m, e) <= 10 * m
  {
  }

  // The pairs that the program's own tests list.
  lemma AmountPairs()
    ensures Compress(0) == 0 && Compress(1) == 1 && Compress(COIN / 100) == 0x7 && Compress(COIN) == 0x9
    ensures Compress(50 * COIN) == 0x32 && Compress(21_000_000 * COIN) == 0x1406f40
  {
    hide Compress;
    FromParts(1, 0);
    FromParts(1, 6);
    FromParts(1, 8);
    FromParts(5, 9);
    FromParts(2_100_000, 9);
    NothingCompressed();
    Powers();
  }

  lemma NothingCompressed()
    ensures Compress(0) == 0
  {
  }

  lemma Powers()
    ensures Power10(0) == 1 && Power10(6) == 1_000_000 && Power10(8) == 100_000_000 && Power10(9) == 1_000_000_000
  {
    assert Power10(3) == 1000;
    assert Power10(6) == 1000 * Power10(3);
  }

  lemma FromParts(m: nat, e: nat)
    requires m > 0 && e <= 9 && (e < 9 ==> m % 10 > 0)
    ensures Compress(m * Power10(e)) == Packed(m, e)
  {
    hide TakeTens, Power10, Packed;
    TensPut(m, 0, e);
  }

  // ------------------------------------------------------------------------- coins

  // Pays to the hash of a key.
  function ToKeyHash(hash: seq<nat>): Script {
    [OP_DUP, OP_HASH160, 20] + hash + [OP_EQUALVERIFY, OP_CHECKSIG]
  }

  lemma KeyHashWritten(curve: Curve, hash: seq<nat>, value: int, amount: seq<nat>)
    requires |hash| == 20 && 0 <= value < WORD64 && Compress(value) < WORD64 && Write(Compress(value)) == amount
    ensures WriteTxOut(curve, TxOut(value, ToKeyHash(hash))) == amount + [0x00] + hash
  {
    hide Compress, Write;
    assert ToKeyHash(hash)[3..23] == hash;
    assert amount + ([0] + hash) == amount + [0] + hash;
  }

  // Null outputs leave no bytes.
  lemma {:induction false} NullsSkipped(curve: Curve, vout: seq<TxOut>, i: nat, j: nat)
    requires i <= j <= |vout| && forall k :: i <= k < j ==> vout[k].IsNull()
    ensures WriteOuts(curve, vout, i) == WriteOuts(curve, vout, j)
    decreases j - i
  {
    hide WriteTxOut;
    if i < j {
      NullsSkipped(curve, vout, i + 1, j);
    }
  }

  lemma OutWritten(curve: Curve, vout: seq<TxOut>, i: nat)
    requires i < |vout| && !vout[i].IsNull()
    ensures WriteOuts(curve, vout, i) == WriteTxOut(curve, vout[i]) + WriteOuts(curve, vout, i + 1)
  {
    hide WriteTxOut;
  }

  lemma NoMoreOuts(curve: Curve, vout: seq<TxOut>)
    ensures WriteOuts(curve, vout, |vout|) == []
  {
  }

  // The first documented example: the second output of two is left.
  lemma FirstExample(curve: Curve, hash: seq<nat>)
    requires |hash| == 20
    ensures var c := Coins(false, [NULL_OUT, TxOut(600 * COIN, ToKeyHash(hash))], 203998, 1);
            && !c.IsPruned()
            && Serialized(curve, c) == [0x01, 0x04, 0x83, 0x58, 0x00] + hash + [0x8b, 0xb8, 0x5e]
  {
    hide Compress, Write, WriteOuts, WriteTxOut, ToKeyHash, MaskByte;
    var vout := [NULL_OUT, TxOut(600 * COIN, ToKeyHash(hash))];
    var c := Coins(false, vout, 203998, 1);
    assert !vout[1].IsNull();
    SomethingHasCode(c);
    Powers();
    FromParts(60, 9);
    TwoBytes(600);
    KeyHashWritten(curve, hash, 600 * COIN, [0x83, 0x58]);
    NullsSkipped(curve, vout, 0, 1);
    OutWritten(curve, vout, 1);
    NoMoreOuts(curve, vout);
    OneByte(1);
    OneByte(4);
    ThreeBytes(203998);
    assert Chunks(vout) == 0 && MaskBytes(vout, 0, 0) == [];
    assert Code(c) == 4;
    var out := [0x83, 0x58] + [0x00] + hash;
    assert WriteOuts(curve, vout, 0) == out;
    assert Serialized(curve, c) == [0x01] + ([0x04] + ([] + (out + [0x8b, 0xb8, 0x5e])));
  }

  // The outputs of the second one.
  function SecondOuts(a: TxOut, b: TxOut): seq<TxOut> {
    [NULL_OUT, NULL_OUT, NULL_OUT, NULL_OUT, a] + seq(11, _ => NULL_OUT) + [b]
  }

  lemma SecondMask(a: TxOut, b: TxOut)
    requires !a.IsNull() && !b.IsNull()
    ensures var vout := SecondOuts(a, b);
            && MaskByte(vout, 0) == 0x04 && MaskByte(vout, 1) == 0x40
            && Chunks(vout) == 2 && MaskSize(vout) == 2 && MaskCode(vout) == 2
            && MaskBytes(vout, 0, 2) == [0x04, 0x40]
  {
    hide MaskByte;
    var vout := SecondOuts(a, b);
    OneBit(vout, 0, 2);
    OneBit(vout, 1, 6);
    assert Chunks(vout) == 2;
    assert LastUsed(vout, 2) == 2;
    assert NonZero(vout, 1) == 1 && NonZero(vout, 2) == 2;
    assert MaskBytes(vout, 1, 2) == [MaskByte(vout, 1)] + MaskBytes(vout, 2, 2);
  }

  // A byte of which one bit is set.
  lemma OneBit(vout: seq<TxOut>, b: nat, p: nat)
    requires p < 8
    requires forall i :: 2 + b * 8 <= i < 2 + b * 8 + 8 ==> (Unspent(vout, i) <==> i == 2 + b * 8 + p)
    ensures MaskByte(vout, b) == Pow2(p)
  {
    var bits := seq(8, q requires q >= 0 => Unspent(vout, 2 + b * 8 + q));
    BitAlone(bits, p);
  }

  lemma {:induction false} BitAlone(bits: seq<bool>, p: nat)
    requires p < |bits| && forall q :: 0 <= q < |bits| ==> (bits[q] <==> q == p)
    ensures ByteOf(bits) == Pow2(p)
  {
    if p > 0 {
      BitAlone(bits[1..], p - 1);
    } else {
      BitsOfByte(bits[1..]);
    }
  }

  // The second one: a coinbase with its fifth and seventeenth output left.
  lemma SecondExample(curve: Curve, hash4: seq<nat>, hash16: seq<nat>)
    requires |hash4| == 20 && |hash16| == 20
    ensures var vout := SecondOuts(TxOut(234925952, ToKeyHash(hash4)), TxOut(110397, ToKeyHash(hash16)));
            var c := Coins(true, vout, 120891, 1);
            && !c.IsPruned()
            && Serialized(curve, c) == [0x01, 0x09, 0x04, 0x40] + [0x86, 0xef, 0x97, 0xd5, 0x79, 0x00] + hash4
                                       + [0xbb, 0xd1, 0x23, 0x00] + hash16 + [0x86, 0xaf, 0x3b]
  {
    hide Compress, Write, WriteOuts, WriteTxOut, ToKeyHash, MaskByte, MaskBytes, MaskSize, MaskCode;
    var a, b := TxOut(234925952, ToKeyHash(hash4)), TxOut(110397, ToKeyHash(hash16));
    var vout := SecondOuts(a, b);
    var c := Coins(true, vout, 120891, 1);
    assert !vout[4].IsNull();
    SomethingHasCode(c);
    SecondMask(a, b);
    assert Code(c) == 9;
    OneByte(1);
    OneByte(9);
    ThreeBytes(120891);
    SecondOutsWritten(curve, hash4, hash16);
    var out4, out16 := [0x86, 0xef, 0x97, 0xd5, 0x79] + [0x00] + hash4, [0xbb, 0xd1, 0x23] + [0x00] + hash16;
    assert Serialized(curve, c) == [0x01] + ([0x09] + ([0x04, 0x40] + ((out4 + out16) + [0x86, 0xaf, 0x3b])));
  }

  lemma SecondOutsWritten(curve: Curve, hash4: seq<nat>, hash16: seq<nat>)
    requires |hash4| == 20 && |hash16| == 20
    ensures WriteOuts(curve, SecondOuts(TxOut(234925952, ToKeyHash(hash4)), TxOut(110397, ToKeyHash(hash16))), 0)
            == [0x86, 0xef, 0x97, 0xd5, 0x79] + [0x00] + hash4 + ([0xbb, 0xd1, 0x23] + [0x00] + hash16)
  {
    hide Compress, Write, WriteOuts, WriteTxOut, ToKeyHash;
    var a, b := TxOut(234925952, ToKeyHash(hash4)), TxOut(110397, ToKeyHash(hash16));
    var vout := SecondOuts(a, b);
    NullsSkipped(curve, vout, 0, 4);
    OutWritten(curve, vout, 4);
    NullsSkipped(curve, vout, 5, 16);
    OutWritten(curve, vout, 16);
    NoMoreOuts(curve, vout);
    SecondAmounts();
    KeyHashWritten(curve, hash4, 234925952, [0x86, 0xef, 0x97, 0xd5, 0x79]);
    KeyHashWritten(curve, hash16, 110397, [0xbb, 0xd1, 0x23]);
    var out16 := [0xbb, 0xd1, 0x23] + [0x00] + hash16;
    assert out16 + [] == out16;
  }

  lemma SecondAmounts()
    ensures Compress(234925952) == 2114333561 && Write(2114333561) == [0x86, 0xef, 0x97, 0xd5, 0x79]
    ensures Compress(110397) == 993571 && Write(993571) == [0xbb, 0xd1, 0x23]
  {
    hide Compress, Write, Flagged;
    Powers();
    FromParts(234925952, 0);
    FromParts(110397, 0);
    ThreeBytes(993571);
    WriteMore(2114333561);
    FlaggedMore(16518229);
    FlaggedMore(129047);
    FlaggedMore(1007);
    FlaggedMore(6);
  }
}
