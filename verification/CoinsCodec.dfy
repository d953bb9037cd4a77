// Coins as they are stored: a code, a bitvector of what is unspent, and the
// unspent outputs in short form.
module CoinsCodec {
  import opened Coins
  import opened Numbers
  import opened VarInt
  import opened Compressor
  import opened LimbShifts

  // -------------------------------------------------------------- bitvectors

  function Bit(b: bool): nat {
    if b then 1 else 0
  }

  // The byte with these bits, the lowest first.
  function ByteOf(bits: seq<bool>): nat {
    if bits == [] then 0 else Bit(bits[0]) + 2 * ByteOf(bits[1..])
  }

  function BitsOf(x: nat, k: nat): (bits: seq<bool>)
    ensures |bits| == k
  {
    if k == 0 then [] else [x % 2 == 1] + BitsOf(x / 2, k - 1)
  }

  lemma {:induction false} BitsOfByte(bits: seq<bool>)
    ensures BitsOf(ByteOf(bits), |bits|) == bits
    ensures ByteOf(bits) == 0 <==> forall i :: 0 <= i < |bits| ==> !bits[i]
  {
    if bits != [] {
      BitsOfByte(bits[1..]);
      assert bits == [bits[0]] + bits[1..];
    }
  }

  predicate Unspent(vout: seq<TxOut>, i: nat) {
    i < |vout| && !vout[i].IsNull()
  }

  // Eight outputs to a byte, from the third on.
  function MaskByte(vout: seq<TxOut>, b: nat): nat {
    ByteOf(seq(8, p requires p >= 0 => Unspent(vout, 2 + b * 8 + p)))
  }

  function MaskBytes(vout: seq<TxOut>, lo: nat, hi: nat): (s: seq<nat>)
    requires lo <= hi
    ensures |s| == hi - lo
    decreases hi - lo
  {
    if lo == hi then [] else [MaskByte(vout, lo)] + MaskBytes(vout, lo + 1, hi)
  }

  // How many bytes there are up to the last output.
  function Chunks(vout: seq<TxOut>): nat {
    if |vout| <= 2 then 0 else (|vout| - 2 + 7) / 8
  }

  // One past the last byte that is not zero, and how many are not.
  function LastUsed(vout: seq<TxOut>, n: nat): (r: nat)
    ensures r <= n
  {
    if n == 0 then 0 else if MaskByte(vout, n - 1) != 0 then n else LastUsed(vout, n - 1)
  }

  function NonZero(vout: seq<TxOut>, n: nat): nat {
    if n == 0 then 0 else NonZero(vout, n - 1) + Bit(MaskByte(vout, n - 1) != 0)
  }

  function MaskSize(vout: seq<TxOut>): nat {
    LastUsed(vout, Chunks(vout))
  }

  function MaskCode(vout: seq<TxOut>): nat {
    NonZero(vout, Chunks(vout))
  }

  lemma {:induction false} LastIsUsed(vout: seq<TxOut>, n: nat)
    ensures var k := LastUsed(vout, n);
            && NonZero(vout, k) == NonZero(vout, n) && (k > 0 ==> MaskByte(vout, k - 1) != 0)
            && forall b :: k <= b < n ==> MaskByte(vout, b) == 0
  {
    if n > 0 && MaskByte(vout, n - 1) == 0 {
      LastIsUsed(vout, n - 1);
    }
  }

  lemma MaskByteIs(vout: seq<TxOut>, b: nat)
    ensures BitsOf(MaskByte(vout, b), 8) == seq(8, p requires p >= 0 => Unspent(vout, 2 + b * 8 + p))
    ensures MaskByte(vout, b) == 0 <==> forall i :: 2 + b * 8 <= i < 2 + b * 8 + 8 ==> !Unspent(vout, i)
  {
    var bits := seq(8, p requires p >= 0 => Unspent(vout, 2 + b * 8 + p));
    BitsOfByte(bits);
    if MaskByte(vout, b) == 0 {
      forall i | 2 + b * 8 <= i < 2 + b * 8 + 8 ensures !Unspent(vout, i) {
        assert !bits[i - (2 + b * 8)];
      }
    }
  }

  // Beyond the mask nothing is unspent.
  lemma MaskCovers(vout: seq<TxOut>, i: nat)
    requires i >= 2 + 8 * MaskSize(vout)
    ensures !Unspent(vout, i)
  {
    hide MaskByte, LastUsed, NonZero;
    LastIsUsed(vout, Chunks(vout));
    if i < |vout| {
      var b := (i - 2) / 8;
      MaskByteIs(vout, b);
      assert MaskSize(vout) <= b < Chunks(vout);
    }
  }

  // Some byte is used unless the first two outputs are all that is unspent.
  lemma SomethingCoded(vout: seq<TxOut>)
    requires exists i :: Unspent(vout, i)
    ensures Unspent(vout, 0) || Unspent(vout, 1) || MaskCode(vout) > 0
  {
    hide MaskByte;
    var i :| Unspent(vout, i);
    if i >= 2 {
      if MaskSize(vout) == 0 {
        MaskCovers(vout, i);
      }
      LastIsUsed(vout, Chunks(vout));
    }
  }

  // ----------------------------------------------------------------- writing

  function Code(c: Coins): nat
    requires Unspent(c.vout, 0) || Unspent(c.vout, 1) || MaskCode(c.vout) > 0
  {
    var first, second := Unspent(c.vout, 0), Unspent(c.vout, 1);
    8 * (MaskCode(c.vout) - if first || second then 0 else 1) + Bit(c.coinbase) + 2 * Bit(first) + 4 * Bit(second)
  }

  // Values are in range, but for the null ones.
  predicate Payable(vout: seq<TxOut>) {
    forall i :: 0 <= i < |vout| && !vout[i].IsNull() ==> MoneyRange(vout[i].value)
  }

  function WriteOuts(curve: Curve, vout: seq<TxOut>, i: nat): seq<nat>
    decreases |vout| - i
  {
    if i >= |vout| then []
    else (if vout[i].IsNull() then [] else WriteTxOut(curve, vout[i])) + WriteOuts(curve, vout, i + 1)
  }

  // What comes back from storage, but for the version.
  ghost predicate Storable(c: Coins) {
    c.height >= 0 && Payable(c.vout) && !c.IsPruned()
  }

  lemma SomethingHasCode(c: Coins)
    requires !c.IsPruned()
    ensures Unspent(c.vout, 0) || Unspent(c.vout, 1) || MaskCode(c.vout) > 0
  {
    hide MaskCode;
    var i :| 0 <= i < |c.vout| && !c.vout[i].IsNull();
    assert Unspent(c.vout, i);
    SomethingCoded(c.vout);
  }

  ghost function Serialized(curve: Curve, c: Coins): seq<nat>
    requires !c.IsPruned()
  {
    SomethingHasCode(c);
    Write(Kept(c.version)) + (Write(Code(c)) + (MaskBytes(c.vout, 0, MaskSize(c.vout))
                                                + (WriteOuts(curve, c.vout, 0) + Write(Kept(c.height)))))
  }

  // ----------------------------------------------------------------- reading

  // Bytes until so many were not zero, as bits after those already known.
  function ReadMask(s: seq<nat>, pos: nat, nMaskCode: nat, vAvail: seq<bool>): (r: Option<Parsed<seq<bool>>>)
    ensures r.Some? && pos <= |s| ==> pos <= r.value.next <= |s|
    decreases |s| - pos
  {
    if nMaskCode == 0 then Some(Parsed(vAvail, pos))
    else if pos >= |s| then None
    else ReadMask(s, pos + 1, if s[pos] != 0 then nMaskCode - 1 else nMaskCode, vAvail + BitsOf(s[pos], 8))
  }

  // The outputs from the i-th on; those not available stay null.
  function ReadOuts(curve: Curve, s: seq<nat>, pos: nat, vAvail: seq<bool>, i: nat): (r: Option<Parsed<seq<TxOut>>>)
    requires i <= |vAvail|
    ensures r.Some? ==> |r.value.value| == |vAvail| - i
    decreases |vAvail| - i
  {
    if i == |vAvail| then Some(Parsed([], pos))
    else
      var out := if vAvail[i] then ReadTxOut(curve, s, pos) else Some(Parsed(NULL_OUT, pos));
      if out.None? then None
      else
        var rest := ReadOuts(curve, s, out.value.next, vAvail, i + 1);
        if rest.None? then None else Some(Parsed([out.value.value] + rest.value.value, rest.value.next))
  }

  function Unserialized(curve: Curve, s: seq<nat>, pos: nat): Option<Parsed<Coins>> {
    var version := Read(s, pos);
    if version.None? then None
    else
      var code := Read(s, version.value.next);
      if code.None? then None
      else
        var n := code.value.value;
        var first, second := n / 2 % 2 == 1, n / 4 % 2 == 1;
        var mask := ReadMask(s, code.value.next, n / 8 + if first || second then 0 else 1, [first, second]);
        if mask.None? then None
        else
          var outs := ReadOuts(curve, s, mask.value.next, mask.value.value, 0);
          if outs.None? then None
          else
            var height := Read(s, outs.value.next);
            if height.None? then None
            else Some(Parsed(Coins(n % 2 == 1, TrimNulls(outs.value.value), height.value.value, version.value.value),
                             height.value.next))
  }

  // -------------------------------------------------------------- round trip

  // The bits say which of the first outputs are unspent.
  predicate Marks(vAvail: seq<bool>, vout: seq<TxOut>) {
    forall i :: 0 <= i < |vAvail| ==> vAvail[i] == Unspent(vout, i)
  }

  lemma {:induction false} NonZeroGrows(vout: seq<TxOut>, b: nat, n: nat)
    requires b < n && MaskByte(vout, n - 1) != 0
    ensures NonZero(vout, b) < NonZero(vout, n)
    decreases n
  {
    hide MaskByte;
    NonZeroMonotone(vout, b, n - 1);
  }

  lemma {:induction false} NonZeroMonotone(vout: seq<TxOut>, b: nat, n: nat)
    requires b <= n
    ensures NonZero(vout, b) <= NonZero(vout, n)
    decreases n
  {
    hide MaskByte;
    if b < n {
      NonZeroMonotone(vout, b, n - 1);
    }
  }

  // Reading stops right after the last byte that was written, for that one is
  // not zero.
  lemma {:induction false} ReadMaskWritten(s: seq<nat>, pos: nat, vout: seq<TxOut>, b: nat, n: nat, vAvail: seq<bool>)
    requires b <= n && (n > 0 ==> MaskByte(vout, n - 1) != 0) && Holds(s, pos, MaskBytes(vout, b, n))
    requires |vAvail| == 2 + 8 * b && Marks(vAvail, vout) && NonZero(vout, b) <= NonZero(vout, n)
    ensures var r := ReadMask(s, pos, NonZero(vout, n) - NonZero(vout, b), vAvail);
            r.Some? && |r.value.value| == 2 + 8 * n && Marks(r.value.value, vout) && r.value.next == pos + n - b
    decreases n - b
  {
    hide MaskByte, NonZero, BitsOf, Marks;
    if b < n {
      NonZeroGrows(vout, b, n);
      NonZeroMonotone(vout, b + 1, n);
      NonZeroNext(vout, b);
      HoldsParts(s, pos, [MaskByte(vout, b)], MaskBytes(vout, b + 1, n));
      assert s[pos..pos + 1][0] == s[pos];
      MarksMore(vout, b, vAvail);
      ReadMaskWritten(s, pos + 1, vout, b + 1, n, vAvail + BitsOf(s[pos], 8));
    }
  }

  // One more byte marks eight more outputs.
  lemma MarksMore(vout: seq<TxOut>, b: nat, vAvail: seq<bool>)
    requires |vAvail| == 2 + 8 * b && Marks(vAvail, vout)
    ensures var more := vAvail + BitsOf(MaskByte(vout, b), 8); |more| == 2 + 8 * (b + 1) && Marks(more, vout)
  {
    hide MaskByte, BitsOf;
    MaskByteIs(vout, b);
  }

  lemma NonZeroNext(vout: seq<TxOut>, b: nat)
    ensures NonZero(vout, b + 1) == NonZero(vout, b) + Bit(MaskByte(vout, b) != 0)
  {
  }

  function OutAt(vout: seq<TxOut>, i: nat): TxOut {
    if i < |vout| then vout[i] else NULL_OUT
  }

  lemma {:induction false} NothingWritten(curve: Curve, vout: seq<TxOut>, i: nat)
    requires forall k :: i <= k ==> !Unspent(vout, k)
    ensures WriteOuts(curve, vout, i) == []
    decreases |vout| - i
  {
    if i < |vout| {
      assert !Unspent(vout, i);
      NothingWritten(curve, vout, i + 1);
    }
  }

  lemma {:induction false} ReadOutsWritten(curve: Curve, s: seq<nat>, pos: nat, vout: seq<TxOut>, vAvail: seq<bool>,
                                           i: nat)
    requires curve.Sound() && Payable(vout) && NormalNulls(vout) && Marks(vAvail, vout) && i <= |vAvail|
    requires (forall k :: |vAvail| <= k ==> !Unspent(vout, k)) && Holds(s, pos, WriteOuts(curve, vout, i))
    ensures var r := ReadOuts(curve, s, pos, vAvail, i);
            && r.Some? && r.value.next == pos + |WriteOuts(curve, vout, i)|
            && forall k :: i <= k < |vAvail| ==> r.value.value[k - i] == OutAt(vout, k)
    decreases |vAvail| - i
  {
    hide WriteTxOut, ReadTxOut, Curve.Sound, Holds;
    if i == |vAvail| {
      NothingWritten(curve, vout, i);
    } else if i >= |vout| {
      assert !Unspent(vout, i);
      assert WriteOuts(curve, vout, i + 1) == [];
      ReadOutsWritten(curve, s, pos, vout, vAvail, i + 1);
    } else {
      var bytes := if vout[i].IsNull() then [] else WriteTxOut(curve, vout[i]);
      HoldsParts(s, pos, bytes, WriteOuts(curve, vout, i + 1));
      assert vAvail[i] == Unspent(vout, i);
      if vAvail[i] {
        ReadTxOutWritten(curve, s, pos, vout[i]);
      }
      ReadOutsWritten(curve, s, pos + |bytes|, vout, vAvail, i + 1);
    }
  }

  // What differs only in nulls at the end is the same when cleaned.
  lemma CleanedAlike(a: seq<TxOut>, b: seq<TxOut>)
    requires NormalNulls(a) && NormalNulls(b) && forall i :: OutAt(a, i) == OutAt(b, i)
    ensures TrimNulls(a) == TrimNulls(b)
  {
    hide TrimNulls;
    TrimNullsCuts(a);
    TrimNullsCuts(b);
    var x, y := TrimNulls(a), TrimNulls(b);
    assert forall i :: 0 <= i < |x| ==> x[i] == OutAt(a, i);
    assert forall i :: 0 <= i < |y| ==> y[i] == OutAt(b, i);
    assert |x| <= |y| && |y| <= |x|;
    assert x == y;
  }

  lemma FourParts(m: nat, a: bool, b: bool, c: bool)
    ensures var n := 8 * m + Bit(a) + 2 * Bit(b) + 4 * Bit(c);
            n % 2 == Bit(a) && (n / 2 % 2 == 1 <==> b) && (n / 4 % 2 == 1 <==> c) && n / 8 == m
  {
    var n := 8 * m + Bit(a) + 2 * Bit(b) + 4 * Bit(c);
    assert n / 2 == 4 * m + Bit(b) + 2 * Bit(c);
    assert n / 4 == 2 * m + Bit(c);
  }

  lemma CodeParts(c: Coins)
    requires !c.IsPruned()
    ensures Unspent(c.vout, 0) || Unspent(c.vout, 1) || MaskCode(c.vout) > 0
    ensures var n := Code(c);
            && n % 2 == Bit(c.coinbase)
            && (n / 2 % 2 == 1 <==> Unspent(c.vout, 0)) && (n / 4 % 2 == 1 <==> Unspent(c.vout, 1))
            && n / 8 + (if Unspent(c.vout, 0) || Unspent(c.vout, 1) then 0 else 1) == MaskCode(c.vout)
  {
    hide MaskCode, Unspent, Bit;
    SomethingHasCode(c);
    var first, second := Unspent(c.vout, 0), Unspent(c.vout, 1);
    FourParts(MaskCode(c.vout) - if first || second then 0 else 1, c.coinbase, first, second);
  }

  // The mask and the outputs after it are read back.
  lemma OutsReadBack(curve: Curve, vout: seq<TxOut>, s: seq<nat>, pos: nat)
    requires curve.Sound() && Payable(vout) && NormalNulls(vout)
    requires Holds(s, pos, MaskBytes(vout, 0, MaskSize(vout)))
    requires Holds(s, pos + MaskSize(vout), WriteOuts(curve, vout, 0))
    ensures var two := [Unspent(vout, 0), Unspent(vout, 1)];
            var mask := ReadMask(s, pos, MaskCode(vout), two);
            && mask.Some? && mask.value.next == pos + MaskSize(vout)
            && var outs := ReadOuts(curve, s, mask.value.next, mask.value.value, 0);
               && outs.Some? && outs.value.next == pos + MaskSize(vout) + |WriteOuts(curve, vout, 0)|
               && TrimNulls(outs.value.value) == TrimNulls(vout)
  {
    hide MaskBytes, WriteOuts, ReadMask, ReadOuts, MaskByte, LastUsed, NonZero, TrimNulls, NormalNulls, Curve.Sound,
         Payable, Unspent, Chunks, OutAt, Holds;
    var n := MaskSize(vout);
    LastIsUsed(vout, Chunks(vout));
    NoneBefore(vout, n);
    var two := [Unspent(vout, 0), Unspent(vout, 1)];
    assert Marks(two, vout);
    ReadMaskWritten(s, pos, vout, 0, n, two);
    var vAvail := ReadMask(s, pos, MaskCode(vout), two).value.value;
    forall k | |vAvail| <= k ensures !Unspent(vout, k) {
      MaskCovers(vout, k);
    }
    ReadOutsWritten(curve, s, pos + n, vout, vAvail, 0);
    var read := ReadOuts(curve, s, pos + n, vAvail, 0).value.value;
    AsMarked(read, vout, vAvail);
    CleanedAlike(read, vout);
  }

  // Coins that were written are read back cleaned, with what is kept of their
  // version, and nothing after them is consumed.
  lemma CoinsRoundTrip(curve: Curve, c: Coins, s: seq<nat>, pos: nat)
    requires curve.Sound() && Storable(c) && NormalNulls(c.vout) && Holds(s, pos, Serialized(curve, c))
    ensures Unserialized(curve, s, pos)
            == Some(Parsed(Stored(c.(vout := TrimNulls(c.vout))), pos + |Serialized(curve, c)|))
  {
    hide Write, Read, Code, MaskBytes, MaskSize, MaskCode, WriteOuts, ReadMask, ReadOuts, TrimNulls, NormalNulls,
         Curve.Sound, Payable, Coins.IsPruned, Unspent, Serialized, Holds;
    CodeParts(c);
    CoinsParts(curve, c, s, pos);
    OutsReadBack(curve, c.vout, s, pos + |Write(Kept(c.version))| + |Write(Code(c))|);
  }

  lemma AsMarked(read: seq<TxOut>, vout: seq<TxOut>, vAvail: seq<bool>)
    requires |read| == |vAvail| && (forall k :: 0 <= k < |vAvail| ==> read[k] == OutAt(vout, k))
    requires (forall k :: |vAvail| <= k ==> !Unspent(vout, k)) && NormalNulls(vout)
    ensures NormalNulls(read) && forall i :: OutAt(read, i) == OutAt(vout, i)
  {
    forall i: nat ensures OutAt(read, i) == OutAt(vout, i) {
      if i >= |vAvail| {
        assert !Unspent(vout, i);
      }
    }
  }

  lemma NoneBefore(vout: seq<TxOut>, n: nat)
    ensures NonZero(vout, 0) == 0 <= NonZero(vout, n)
  {
  }

  // Where the parts of written coins are, and what reading numbers gives.
  lemma CoinsParts(curve: Curve, c: Coins, s: seq<nat>, pos: nat)
    requires Storable(c) && Holds(s, pos, Serialized(curve, c))
    ensures Unspent(c.vout, 0) || Unspent(c.vout, 1) || MaskCode(c.vout) > 0
    ensures Payable(c.vout) && c.height >= 0
    ensures var p1 := pos + |Write(Kept(c.version))|;
            var p2 := p1 + |Write(Code(c))|;
            var p3 := p2 + MaskSize(c.vout);
            var p4 := p3 + |WriteOuts(curve, c.vout, 0)|;
            && Read(s, pos) == Some(Parsed(Kept(c.version), p1)) && Read(s, p1) == Some(Parsed(Code(c), p2))
            && Holds(s, p2, MaskBytes(c.vout, 0, MaskSize(c.vout))) && Holds(s, p3, WriteOuts(curve, c.vout, 0))
            && Read(s, p4) == Some(Parsed(c.height as nat, pos + |Serialized(curve, c)|))
  {
    hide Write, Read, Code, MaskBytes, WriteOuts, MaskSize, MaskCode, Holds;
    SomethingHasCode(c);
    var outs, height := WriteOuts(curve, c.vout, 0), Write(Kept(c.height));
    var mask := MaskBytes(c.vout, 0, MaskSize(c.vout));
    HoldsParts(s, pos, Write(Kept(c.version)), Write(Code(c)) + (mask + (outs + height)));
    var p1 := pos + |Write(Kept(c.version))|;
    HoldsParts(s, p1, Write(Code(c)), mask + (outs + height));
    var p2 := p1 + |Write(Code(c))|;
    HoldsParts(s, p2, mask, outs + height);
    HoldsParts(s, p2 + |mask|, outs, height);
    ReadWritten(s, pos, Kept(c.version));
    ReadWritten(s, p1, Code(c));
    ReadWritten(s, p2 + |mask| + |outs|, c.height);
  }

  // --------------------------------------------------------------- the loops

  method CalcMaskSize(vout: seq<TxOut>) returns (nBytes: nat, nNonzeroBytes: nat)
    ensures nBytes == MaskSize(vout) && nNonzeroBytes == MaskCode(vout)
  {
    hide MaskByte;
    nBytes, nNonzeroBytes := 0, 0;
    var b := 0;
    while 2 + b * 8 < |vout|
      invariant 0 <= b <= Chunks(vout) && nBytes == LastUsed(vout, b) && nNonzeroBytes == NonZero(vout, b)
      decreases |vout| - b
    {
      var fZero := true;
      var i := 0;
      while i < 8 && 2 + b * 8 + i < |vout|
        invariant 0 <= i <= 8
        invariant fZero <==> forall k :: 2 + b * 8 <= k < 2 + b * 8 + i ==> !Unspent(vout, k)
      {
        if !vout[2 + b * 8 + i].IsNull() {
          assert Unspent(vout, 2 + b * 8 + i);
          fZero := false;
        }
        i := i + 1;
      }
      MaskByteIs(vout, b);
      if !fZero {
        nBytes := b + 1;
        nNonzeroBytes := nNonzeroBytes + 1;
      }
      b := b + 1;
    }
  }

  lemma {:induction false} ByteOfMore(bits: seq<bool>, bit: bool)
    ensures ByteOf(bits + [bit]) == ByteOf(bits) + Bit(bit) * Pow2(|bits|) && ByteOf(bits) < Pow2(|bits|)
  {
    if bits != [] {
      ByteOfMore(bits[1..], bit);
      assert (bits + [bit])[1..] == bits[1..] + [bit];
    }
  }

  lemma {:induction false} ByteOfPadded(bits: seq<bool>, more: seq<bool>)
    requires forall i :: 0 <= i < |more| ==> !more[i]
    ensures ByteOf(bits + more) == ByteOf(bits)
  {
    if bits != [] {
      ByteOfPadded(bits[1..], more);
      assert (bits + more)[1..] == bits[1..] + more;
    } else {
      assert bits + more == more;
      BitsOfByte(more);
    }
  }

  method GetMaskByte(vout: seq<TxOut>, b: nat) returns (chAvail: nat)
    ensures chAvail == MaskByte(vout, b)
  {
    hide Or, Pow2, ByteOf;
    chAvail := 0;
    var i: nat := 0;
    ghost var bits: seq<bool> := [];
    NoByte();
    while i < 8 && 2 + b * 8 + i < |vout|
      invariant i <= 8 && |bits| == i && chAvail == ByteOf(bits)
      invariant forall p :: 0 <= p < i ==> bits[p] == Unspent(vout, 2 + b * 8 + p)
    {
      ByteOfMore(bits, !vout[2 + b * 8 + i].IsNull());
      if !vout[2 + b * 8 + i].IsNull() {
        Multiple(Pow2(i), 1);
        OrDisjoint(chAvail, Pow2(i), i);
        chAvail := Or(chAvail, Pow2(i));
      }
      bits := bits + [!vout[2 + b * 8 + i].IsNull()];
      i := i + 1;
    }
    var none := seq(8 - i, p => false);
    ByteOfPadded(bits, none);
    var all := seq(8, p requires p >= 0 => Unspent(vout, 2 + b * 8 + p));
    forall p | 0 <= p < 8 ensures (bits + none)[p] == all[p] {
      assert p >= i ==> !Unspent(vout, 2 + b * 8 + p);
    }
    assert bits + none == all;
  }

  lemma NoByte()
    ensures ByteOf([]) == 0
  {
  }

  method Serialize(curve: Curve, c: Coins) returns (s: seq<nat>)
    requires !c.IsPruned()
    ensures s == Serialized(curve, c)
  {
    hide Write, MaskByte, MaskSize, MaskCode, MaskBytes, WriteOuts, WriteTxOut;
    SomethingHasCode(c);
    var nMaskSize, nMaskCode := CalcMaskSize(c.vout);
    var fFirst, fSecond := |c.vout| > 0 && !c.vout[0].IsNull(), |c.vout| > 1 && !c.vout[1].IsNull();
    assert fFirst || fSecond || nMaskCode > 0;
    var nCode := 8 * (nMaskCode - if fFirst || fSecond then 0 else 1)
                 + (if c.coinbase then 1 else 0) + (if fFirst then 2 else 0) + (if fSecond then 4 else 0);
    assert nCode == Code(c);
    var version := WriteVarInt(c.version);
    var code := WriteVarInt(nCode);
    var height := WriteVarInt(c.height);
    var mask := GetMask(c.vout, nMaskSize);
    var outs := GetOuts(curve, c.vout);
    s := version + (code + (mask + (outs + height)));
  }

  method GetMask(vout: seq<TxOut>, nMaskSize: nat) returns (mask: seq<nat>)
    ensures mask == MaskBytes(vout, 0, nMaskSize)
  {
    hide MaskByte;
    mask := [];
    for b := 0 to nMaskSize
      invariant mask + MaskBytes(vout, b, nMaskSize) == MaskBytes(vout, 0, nMaskSize)
    {
      var chAvail := GetMaskByte(vout, b);
      mask := mask + [chAvail];
    }
  }

  method GetOuts(curve: Curve, vout: seq<TxOut>) returns (outs: seq<nat>)
    ensures outs == WriteOuts(curve, vout, 0)
  {
    hide WriteTxOut, WriteOuts;
    outs := [];
    assert [] + WriteOuts(curve, vout, 0) == WriteOuts(curve, vout, 0);
    for i := 0 to |vout|
      invariant outs + WriteOuts(curve, vout, i) == WriteOuts(curve, vout, 0)
    {
      WriteOutsNext(curve, vout, i);
      ghost var rest := WriteOuts(curve, vout, i + 1);
      if !vout[i].IsNull() {
        var out := SaveTxOut(curve, vout[i]);
        assert outs + (out + rest) == outs + out + rest;
        outs := outs + out;
      }
    }
    WriteOutsEnd(curve, vout);
  }

  lemma WriteOutsNext(curve: Curve, vout: seq<TxOut>, i: nat)
    requires i < |vout|
    ensures WriteOuts(curve, vout, i)
            == if vout[i].IsNull() then WriteOuts(curve, vout, i + 1)
               else WriteTxOut(curve, vout[i]) + WriteOuts(curve, vout, i + 1)
  {
    hide WriteTxOut;
    assert [] + WriteOuts(curve, vout, i + 1) == WriteOuts(curve, vout, i + 1);
  }

  lemma WriteOutsEnd(curve: Curve, vout: seq<TxOut>)
    ensures WriteOuts(curve, vout, |vout|) == []
  {
  }

  // The size agrees with what is written.
  method GetSerializeSize(curve: Curve, c: Coins) returns (nSize: nat)
    requires !c.IsPruned()
    ensures nSize == |Serialized(curve, c)|
  {
    hide Write, MaskByte, MaskSize, MaskCode, MaskBytes, WriteTxOut, WriteOuts;
    SomethingHasCode(c);
    var nMaskSize, nMaskCode := CalcMaskSize(c.vout);
    var fFirst, fSecond := |c.vout| > 0 && !c.vout[0].IsNull(), |c.vout| > 1 && !c.vout[1].IsNull();
    var nCode := 8 * (nMaskCode - if fFirst || fSecond then 0 else 1)
                 + (if c.coinbase then 1 else 0) + (if fFirst then 2 else 0) + (if fSecond then 4 else 0);
    assert nCode == Code(c);
    var version := GetSizeOfVarInt(c.version);
    var code := GetSizeOfVarInt(nCode);
    var height := GetSizeOfVarInt(c.height);
    nSize := version + code + nMaskSize;
    ghost var head := nSize;
    for i := 0 to |c.vout|
      invariant nSize + |WriteOuts(curve, c.vout, i)| == head + |WriteOuts(curve, c.vout, 0)|
    {
      WriteOutsNext(curve, c.vout, i);
      if !c.vout[i].IsNull() {
        var size := GetTxOutSize(curve, c.vout[i]);
        nSize := nSize + size;
      }
    }
    WriteOutsEnd(curve, c.vout);
    nSize := nSize + height;
  }

  method Unserialize(curve: Curve, s: seq<nat>, pos: nat) returns (r: Option<Parsed<Coins>>)
    ensures r == Unserialized(curve, s, pos)
  {
    hide Read, ReadTxOut, BitsOf, ReadMask, ReadOuts;
    var version := Read(s, pos);
    if version == None {
      return None;
    }
    var nCode := Read(s, version.value.next);
    if nCode == None {
      return None;
    }
    var n := nCode.value.value;
    var mask := LoadMask(s, nCode.value.next, n / 8 + (if n / 2 % 2 == 1 || n / 4 % 2 == 1 then 0 else 1),
                         [n / 2 % 2 == 1, n / 4 % 2 == 1]);
    if mask == None {
      return None;
    }
    var outs := LoadOuts(curve, s, mask.value.next, mask.value.value);
    if outs == None {
      return None;
    }
    var nHeight := Read(s, outs.value.next);
    if nHeight == None {
      return None;
    }
    var vout := Cleanup(outs.value.value);
    return Some(Parsed(Coins(n % 2 == 1, vout, nHeight.value.value, version.value.value), nHeight.value.next));
  }

  method LoadMask(s: seq<nat>, pos: nat, nMaskCode: nat, start: seq<bool>) returns (r: Option<Parsed<seq<bool>>>)
    ensures r == ReadMask(s, pos, nMaskCode, start)
  {
    hide BitsOf;
    var left, next, vAvail := nMaskCode, pos, start;
    while left > 0
      invariant ReadMask(s, pos, nMaskCode, start) == ReadMask(s, next, left, vAvail)
      decreases |s| - next
    {
      if next >= |s| {
        return None;
      }
      var chAvail := s[next];
      ghost var before := vAvail;
      var rest: nat := chAvail;
      for p := 0 to 8
        invariant vAvail + BitsOf(rest, 8 - p) == before + BitsOf(chAvail, 8)
      {
        BitsNext(rest, 8 - p);
        vAvail := vAvail + [rest % 2 == 1];
        rest := rest / 2;
      }
      BitsEnd(rest);
      assert vAvail == before + BitsOf(chAvail, 8);
      if chAvail != 0 {
        left := left - 1;
      }
      next := next + 1;
    }
    return Some(Parsed(vAvail, next));
  }

  lemma BitsNext(x: nat, k: nat)
    requires k > 0
    ensures BitsOf(x, k) == [x % 2 == 1] + BitsOf(x / 2, k - 1)
  {
  }

  lemma BitsEnd(x: nat)
    ensures BitsOf(x, 0) == []
  {
  }

  method LoadOuts(curve: Curve, s: seq<nat>, pos: nat, vAvail: seq<bool>) returns (r: Option<Parsed<seq<TxOut>>>)
    ensures r == ReadOuts(curve, s, pos, vAvail, 0)
  {
    hide ReadTxOut, ReadOuts;
    var vout, next := seq(|vAvail|, i => NULL_OUT), pos;
    ghost var whole := ReadOuts(curve, s, pos, vAvail, 0);
    NothingBefore(whole);
    for i := 0 to |vAvail|
      invariant |vout| == |vAvail| && forall k :: i <= k < |vout| ==> vout[k] == NULL_OUT
      invariant whole == Behind(vout[..i], ReadOuts(curve, s, next, vAvail, i))
    {
      ReadOutsNext(curve, s, next, vAvail, i);
      ghost var done := vout[..i];
      if vAvail[i] {
        var out := LoadTxOut(curve, s, next);
        if out == None {
          return None;
        }
        vout, next := vout[i := out.value.value], out.value.next;
      }
      assert vout[..i + 1] == done + [vout[i]];
      OneMoreBefore(done, vout[i], ReadOuts(curve, s, next, vAvail, i + 1));
    }
    ReadOutsEnd(curve, s, next, vAvail);
    assert vout[..|vAvail|] + [] == vout;
    return Some(Parsed(vout, next));
  }

  // With these outputs in front.
  function Behind(outs: seq<TxOut>, rest: Option<Parsed<seq<TxOut>>>): Option<Parsed<seq<TxOut>>> {
    if rest.None? then None else Some(Parsed(outs + rest.value.value, rest.value.next))
  }

  lemma NothingBefore(rest: Option<Parsed<seq<TxOut>>>)
    ensures Behind([], rest) == rest
  {
    if rest.Some? {
      assert [] + rest.value.value == rest.value.value;
    }
  }

  lemma OneMoreBefore(outs: seq<TxOut>, out: TxOut, rest: Option<Parsed<seq<TxOut>>>)
    ensures Behind(outs, Behind([out], rest)) == Behind(outs + [out], rest)
  {
    if rest.Some? {
      assert outs + [out] + rest.value.value == outs + ([out] + rest.value.value);
    }
  }

  lemma ReadOutsNext(curve: Curve, s: seq<nat>, pos: nat, vAvail: seq<bool>, i: nat)
    requires i < |vAvail|
    ensures ReadOuts(curve, s, pos, vAvail, i)
            == var out := if vAvail[i] then ReadTxOut(curve, s, pos) else Some(Parsed(NULL_OUT, pos));
               if out.None? then None
               else Behind([out.value.value], ReadOuts(curve, s, out.value.next, vAvail, i + 1))
  {
    hide ReadTxOut;
  }

  lemma ReadOutsEnd(curve: Curve, s: seq<nat>, pos: nat, vAvail: seq<bool>)
    ensures ReadOuts(curve, s, pos, vAvail, |vAvail|) == Some(Parsed([], pos))
  {
  }
}
