// Amounts and scripts in their short forms.
module Compressor {
  import opened Coins
  import opened Numbers
  import opened VarInt

  const WORD64: nat := 0x1_0000_0000_0000_0000

  // ----------------------------------------------------------------- amounts

  function Power10(e: nat): nat {
    if e == 0 then 1 else 10 * Power10(e - 1)
  }

  datatype Scaled = Scaled(m: nat, e: nat)

  // Powers of ten taken out, but not more than nine in all.
  function TakeTens(n: nat, e: nat): Scaled {
    if n > 0 && n % 10 == 0 && e < 9 then TakeTens(n / 10, e + 1) else Scaled(n, e)
  }

  function Packed(m: nat, e: nat): nat
    requires m > 0 && (e < 9 ==> m % 10 > 0)
  {
    if e < 9 then 1 + (m / 10 * 9 + m % 10 - 1) * 10 + e else 1 + (m - 1) * 10 + 9
  }

  function Compress(n: nat): nat {
    if n == 0 then 0
    else
      TensTaken(n, 0);
      var s := TakeTens(n, 0);
      Packed(s.m, s.e)
  }

  function Unpacked(x: nat): (s: Scaled)
    requires x > 0
    ensures s.m > 0 && s.e <= 9
  {
    var e, y := (x - 1) % 10, (x - 1) / 10;
    Scaled(if e < 9 then y / 9 * 10 + y % 9 + 1 else y + 1, e)
  }

  function Decompress(x: nat): nat {
    if x == 0 then 0 else Unpacked(x).m * Power10(Unpacked(x).e)
  }

  lemma {:induction false} TensTaken(n: nat, e: nat)
    requires n > 0 && e <= 9
    ensures var s := TakeTens(n, e);
            && s.m > 0 && e <= s.e <= 9 && (s.e < 9 ==> s.m % 10 > 0)
            && s.m * Power10(s.e - e) == n
    decreases n
  {
    if n % 10 == 0 && e < 9 {
      TensTaken(n / 10, e + 1);
      var s := TakeTens(n / 10, e + 1);
      Regroup(10, s.m, Power10(s.e - e - 1));
      Regroup(s.m, 10, Power10(s.e - e - 1));
    }
  }

  lemma {:induction false} TensPut(m: nat, e: nat, k: nat)
    requires m > 0 && e <= k <= 9 && (k < 9 ==> m % 10 > 0)
    ensures m * Power10(k - e) > 0 && TakeTens(m * Power10(k - e), e) == Scaled(m, k)
    decreases k - e
  {
    if e < k {
      TensPut(m, e + 1, k);
      var p := Power10(k - e - 1);
      Regroup(m, 10, p);
      Regroup(10, m, p);
      assert m * Power10(k - e) == 10 * (m * p);
    }
  }

  // Digit and exponent are recovered.
  lemma PackedUnpacks(m: nat, e: nat)
    requires m > 0 && e <= 9 && (e < 9 ==> m % 10 > 0)
    ensures Packed(m, e) > 0 && Unpacked(Packed(m, e)) == Scaled(m, e)
  {
    var y := if e < 9 then m / 10 * 9 + m % 10 - 1 else m - 1;
    assert (Packed(m, e) - 1) % 10 == e && (Packed(m, e) - 1) / 10 == y;
    if e < 9 {
      assert y / 9 == m / 10 && y % 9 == m % 10 - 1;
    }
  }

  lemma UnpackedPacks(x: nat)
    requires x > 0
    ensures var s := Unpacked(x); (s.e < 9 ==> s.m % 10 > 0) && Packed(s.m, s.e) == x
  {
    var s, y := Unpacked(x), (x - 1) / 10;
    if s.e < 9 {
      assert s.m / 10 == y / 9 && s.m % 10 == y % 9 + 1;
    }
  }

  // The two are inverse to each other, on all numbers.
  lemma AmountsRoundTrip(n: nat)
    ensures Decompress(Compress(n)) == n && Compress(Decompress(n)) == n
  {
    hide Packed, Unpacked, TakeTens;
    if n > 0 {
      TensTaken(n, 0);
      var s := TakeTens(n, 0);
      PackedUnpacks(s.m, s.e);
      UnpackedPacks(n);
      var u := Unpacked(n);
      TensPut(u.m, 0, u.e);
      NotZero(n);
    }
  }

  lemma NotZero(x: nat)
    requires x > 0
    ensures Decompress(x) == Unpacked(x).m * Power10(Unpacked(x).e)
  {
  }

  // Amounts in range stay within 64 bits.
  lemma AmountFits(n: nat)
    requires MoneyRange(n)
    ensures Compress(n) < WORD64
  {
    if n > 0 {
      TensTaken(n, 0);
      var s := TakeTens(n, 0);
      PowerPositive10(s.e);
      MulMonotone(1, Power10(s.e), s.m);
    }
  }

  lemma {:induction false} PowerPositive10(e: nat)
    ensures Power10(e) >= 1
  {
    if e > 0 {
      PowerPositive10(e - 1);
    }
  }

  method CompressAmount(nAmount: nat) returns (x: nat)
    ensures x == Compress(nAmount) % WORD64
  {
    var n, e := nAmount, 0;
    if n == 0 {
      return 0;
    }
    while n % 10 == 0 && e < 9
      invariant n > 0 && e <= 9 && TakeTens(n, e) == TakeTens(nAmount, 0)
      decreases n
    {
      n := n / 10;
      e := e + 1;
    }
    if e < 9 {
      var d := n % 10;
      assert 1 <= d <= 9;
      n := n / 10;
      return (1 + (n * 9 + d - 1) * 10 + e) % WORD64;
    } else {
      return (1 + (n - 1) * 10 + 9) % WORD64;
    }
  }

  method DecompressAmount(nVal: nat) returns (n: nat)
    ensures n == Decompress(nVal) % WORD64
  {
    hide Unpacked, Wrapped;
    if nVal == 0 {
      return 0;
    }
    var x := nVal - 1;
    var e := x % 10;
    x := x / 10;
    if e < 9 {
      var d := x % 9 + 1;
      x := x / 9;
      n := x * 10 + d;
    } else {
      n := x + 1;
    }
    UnpackedIs(nVal);
    ghost var m, taken := n, 0;
    WrappedStart(m);
    n := n % WORD64;
    while e > 0
      invariant 0 <= e && taken + e == Unpacked(nVal).e
      invariant n == Wrapped(m, taken)
    {
      WrappedNext(m, taken);
      n := n * 10 % WORD64;
      e := e - 1;
      taken := taken + 1;
    }
    WrappedWhole(nVal);
  }

  // A multiple of a power of ten in 64 bits.
  function Wrapped(m: nat, e: nat): nat {
    m * Power10(e) % WORD64
  }

  lemma WrappedStart(m: nat)
    ensures Wrapped(m, 0) == m % WORD64
  {
    assert m * Power10(0) == m;
  }

  lemma WrappedNext(m: nat, e: nat)
    ensures Wrapped(m, e) * 10 % WORD64 == Wrapped(m, e + 1)
  {
    hide Power10;
    TimesTen(m * Power10(e));
    ScaledUp(m, e);
  }

  lemma WrappedWhole(x: nat)
    requires x > 0
    ensures Wrapped(Unpacked(x).m, Unpacked(x).e) == Decompress(x) % WORD64
  {
    hide Unpacked, Power10;
  }

  lemma ScaledUp(m: nat, e: nat)
    ensures m * Power10(e + 1) == 10 * (m * Power10(e))
  {
    Regroup(10, m, Power10(e));
    Regroup(m, 10, Power10(e));
  }

  lemma UnpackedIs(x: nat)
    requires x > 0
    ensures var e, y := (x - 1) % 10, (x - 1) / 10;
            Unpacked(x) == Scaled(if e < 9 then y / 9 * 10 + (y % 9 + 1) else y + 1, e)
  {
  }

  lemma TimesTen(x: nat)
    ensures x % WORD64 * 10 % WORD64 == 10 * x % WORD64
  {
    DivMod(x, WORD64);
    ModMultiple(x % WORD64 * 10, x / WORD64 * 10, WORD64);
  }

  // ----------------------------------------------------------------- scripts

  const OP_DUP: nat := 0x76
  const OP_EQUAL: nat := 0x87
  const OP_EQUALVERIFY: nat := 0x88
  const OP_HASH160: nat := 0xa9
  const OP_CHECKSIG: nat := 0xac
  const SPECIAL_SCRIPTS: nat := 6

  // Public key arithmetic, as far as it is called: whether an uncompressed key
  // is valid, and what a compressed one expands to.
  datatype Curve = Curve(isFullyValid: seq<nat> -> bool, decompress: seq<nat> -> Option<seq<nat>>) {
    // Expanding undoes compressing.
    ghost predicate Sound() {
      forall key :: |key| == 65 && key[0] == 4 && isFullyValid(key) ==>
        decompress([2 + key[64] % 2] + key[1..33]) == Some(key)
    }
  }

  predicate IsToKeyID(script: Script) {
    |script| == 25 && script[0] == OP_DUP && script[1] == OP_HASH160 && script[2] == 20
    && script[23] == OP_EQUALVERIFY && script[24] == OP_CHECKSIG
  }

  predicate IsToScriptID(script: Script) {
    |script| == 23 && script[0] == OP_HASH160 && script[1] == 20 && script[22] == OP_EQUAL
  }

  predicate IsToShortKey(script: Script) {
    |script| == 35 && script[0] == 33 && script[34] == OP_CHECKSIG && (script[1] == 2 || script[1] == 3)
  }

  predicate IsToLongKey(curve: Curve, script: Script) {
    && |script| == 67 && script[0] == 65 && script[66] == OP_CHECKSIG
    && script[1] == 4 && curve.isFullyValid(script[1..66])
  }

  // The short form of a script that has one.
  function CompressScript(curve: Curve, script: Script): Option<seq<nat>> {
    if IsToKeyID(script) then Some([0] + script[3..23])
    else if IsToScriptID(script) then Some([1] + script[2..22])
    else if IsToShortKey(script) then Some([script[1]] + script[2..34])
    else if IsToLongKey(curve, script) then Some([4 + script[65] % 2] + script[2..34])
    else None
  }

  function SpecialSize(nSize: nat): nat {
    if nSize == 0 || nSize == 1 then 20
    else if nSize == 2 || nSize == 3 || nSize == 4 || nSize == 5 then 32
    else 0
  }

  // None where the key does not expand.
  function DecompressScript(curve: Curve, nSize: nat, vch: seq<nat>): Option<Script>
    requires |vch| == SpecialSize(nSize)
  {
    if nSize == 0 then Some([OP_DUP, OP_HASH160, 20] + vch + [OP_EQUALVERIFY, OP_CHECKSIG])
    else if nSize == 1 then Some([OP_HASH160, 20] + vch + [OP_EQUAL])
    else if nSize == 2 || nSize == 3 then Some([33, nSize] + vch + [OP_CHECKSIG])
    else if nSize == 4 || nSize == 5 then
      var key := curve.decompress([nSize - 2] + vch);
      if key.None? then None else Some([65] + key.value + [OP_CHECKSIG])
    else None
  }

  lemma ScriptRoundTrip(curve: Curve, script: Script)
    requires curve.Sound() && CompressScript(curve, script).Some?
    ensures var out := CompressScript(curve, script).value;
            && |out| > 0 && out[0] < SPECIAL_SCRIPTS && |out| - 1 == SpecialSize(out[0])
            && DecompressScript(curve, out[0], out[1..]) == Some(script)
  {
    var out := CompressScript(curve, script).value;
    if IsToKeyID(script) {
      assert out[1..] == script[3..23];
      assert script == [OP_DUP, OP_HASH160, 20] + script[3..23] + [OP_EQUALVERIFY, OP_CHECKSIG];
    } else if IsToScriptID(script) {
      assert out[1..] == script[2..22];
      assert script == [OP_HASH160, 20] + script[2..22] + [OP_EQUAL];
    } else if IsToShortKey(script) {
      assert out[1..] == script[2..34];
      assert script == [33, script[1]] + script[2..34] + [OP_CHECKSIG];
    } else {
      var key := script[1..66];
      assert out[1..] == script[2..34] == key[1..33];
      assert script == [65] + key + [OP_CHECKSIG];
      assert key[64] == script[65];
    }
  }

  // As it goes to a stream.
  function WriteScript(curve: Curve, script: Script): seq<nat> {
    var out := CompressScript(curve, script);
    if out.Some? then out.value else Write(|script| + SPECIAL_SCRIPTS) + script
  }

  // A key that does not expand leaves the script as it was, empty.
  function ReadScript(curve: Curve, s: seq<nat>, pos: nat): (r: Option<Parsed<Script>>)
    ensures r.Some? ==> pos < r.value.next <= |s|
  {
    var nSize := Read(s, pos);
    if nSize.None? then None
    else
      var n, start := nSize.value.value, nSize.value.next;
      var length := if n < SPECIAL_SCRIPTS then SpecialSize(n) else n - SPECIAL_SCRIPTS;
      if start + length > |s| then None
      else
        var bytes := s[start..start + length];
        if n >= SPECIAL_SCRIPTS then Some(Parsed(bytes, start + length))
        else
          var script := DecompressScript(curve, n, bytes);
          Some(Parsed(if script.Some? then script.value else [], start + length))
  }

  lemma ReadScriptWritten(curve: Curve, s: seq<nat>, pos: nat, script: Script)
    requires curve.Sound() && Holds(s, pos, WriteScript(curve, script))
    ensures ReadScript(curve, s, pos) == Some(Parsed(script, pos + |WriteScript(curve, script)|))
  {
    hide CompressScript, DecompressScript, Write, Read;
    var out := CompressScript(curve, script);
    if out.Some? {
      ScriptRoundTrip(curve, script);
      SmallWrite(out.value[0]);
      assert out.value == Write(out.value[0]) + out.value[1..];
      HoldsParts(s, pos, Write(out.value[0]), out.value[1..]);
      ReadWritten(s, pos, out.value[0]);
    } else {
      HoldsParts(s, pos, Write(|script| + SPECIAL_SCRIPTS), script);
      ReadWritten(s, pos, |script| + SPECIAL_SCRIPTS);
    }
  }

  lemma SmallWrite(n: nat)
    requires n < SPECIAL_SCRIPTS
    ensures Write(n) == [n]
  {
  }

  // ----------------------------------------------------------------- outputs

  // Signed 64-bit amounts as unsigned ones, and back.
  function Unsigned(value: int): nat {
    value % WORD64
  }

  function Signed(value: nat): int {
    if value < WORD64 / 2 then value else value - WORD64
  }

  function WriteTxOut(curve: Curve, txout: TxOut): seq<nat> {
    Write(Compress(Unsigned(txout.value)) % WORD64) + WriteScript(curve, txout.script)
  }

  function ReadTxOut(curve: Curve, s: seq<nat>, pos: nat): (r: Option<Parsed<TxOut>>)
    ensures r.Some? ==> pos < r.value.next <= |s|
  {
    var nVal := Read(s, pos);
    if nVal.None? then None
    else
      var script := ReadScript(curve, s, nVal.value.next);
      if script.None? then None
      else Some(Parsed(TxOut(Signed(Decompress(nVal.value.value % WORD64) % WORD64), script.value.value),
                       script.value.next))
  }

  lemma ReadTxOutWritten(curve: Curve, s: seq<nat>, pos: nat, txout: TxOut)
    requires curve.Sound() && MoneyRange(txout.value) && Holds(s, pos, WriteTxOut(curve, txout))
    ensures ReadTxOut(curve, s, pos) == Some(Parsed(txout, pos + |WriteTxOut(curve, txout)|))
  {
    hide Compress, Decompress, WriteScript, ReadScript, Write, Read;
    var nVal := Compress(Unsigned(txout.value)) % WORD64;
    HoldsParts(s, pos, Write(nVal), WriteScript(curve, txout.script));
    ReadWritten(s, pos, nVal);
    AmountFits(txout.value);
    AmountsRoundTrip(txout.value);
    ReadScriptWritten(curve, s, pos + |Write(nVal)|, txout.script);
  }

  // ---------------------------------------------------- outputs, step by step

  method SaveTxOut(curve: Curve, txout: TxOut) returns (s: seq<nat>)
    ensures s == WriteTxOut(curve, txout)
  {
    hide Compress, CompressScript, Write;
    var nVal := CompressAmount(Unsigned(txout.value));
    s := WriteVarInt(nVal);
    var out := CompressScript(curve, txout.script);
    if out.Some? {
      return s + out.value;
    }
    var size := WriteVarInt(|txout.script| + SPECIAL_SCRIPTS);
    s := s + (size + txout.script);
  }

  // The size computed is what is written.
  method GetTxOutSize(curve: Curve, txout: TxOut) returns (nSize: nat)
    ensures nSize == |WriteTxOut(curve, txout)|
  {
    hide Compress, CompressScript, Write;
    var nVal := CompressAmount(Unsigned(txout.value));
    nSize := GetSizeOfVarInt(nVal);
    var out := CompressScript(curve, txout.script);
    if out.Some? {
      return nSize + |out.value|;
    }
    var size := GetSizeOfVarInt(|txout.script| + SPECIAL_SCRIPTS);
    nSize := nSize + (|txout.script| + size);
  }

  method LoadTxOut(curve: Curve, s: seq<nat>, pos: nat) returns (r: Option<Parsed<TxOut>>)
    ensures r == ReadTxOut(curve, s, pos)
  {
    hide Decompress, ReadScript, Read;
    var ok, nVal, next := ReadVarInt(s, pos, WORD64);
    if !ok {
      return None;
    }
    var script := ReadScript(curve, s, next);
    if script == None {
      return None;
    }
    var value := DecompressAmount(nVal);
    return Some(Parsed(TxOut(Signed(value), script.value.value), script.value.next));
  }
}
