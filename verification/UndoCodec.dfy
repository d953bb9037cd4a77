// Undo records as they are stored.
module UndoCodec {
  import opened Coins
  import opened Ledger
  import opened VarInt
  import opened Compressor
  import opened CoinsCodec

  // The version goes along only with a height.
  function WriteUndo(curve: Curve, undo: TxInUndo): seq<nat>
    requires undo.height >= 0
  {
    Write(undo.height * 2 + Bit(undo.coinbase))
    + ((if undo.height > 0 then Write(Kept(undo.version)) else []) + WriteTxOut(curve, undo.txout))
  }

  function ReadUndo(curve: Curve, s: seq<nat>, pos: nat): Option<Parsed<TxInUndo>> {
    var code := Read(s, pos);
    if code.None? then None
    else
      var height, coinbase := code.value.value / 2, code.value.value % 2 == 1;
      var version := if height > 0 then Read(s, code.value.next) else Some(Parsed(0, code.value.next));
      if version.None? then None
      else
        var out := ReadTxOut(curve, s, version.value.next);
        if out.None? then None
        else Some(Parsed(TxInUndo(out.value.value, coinbase, height, version.value.value), out.value.next))
  }

  // What is read back of a record is its stored form.
  lemma UndoRoundTrip(curve: Curve, undo: TxInUndo, s: seq<nat>, pos: nat)
    requires curve.Sound() && undo.height >= 0 && MoneyRange(undo.txout.value)
    requires Holds(s, pos, WriteUndo(curve, undo))
    ensures ReadUndo(curve, s, pos) == Some(Parsed(StoredUndo(undo), pos + |WriteUndo(curve, undo)|))
  {
    hide Write, Read, WriteTxOut, ReadTxOut, Curve.Sound, Holds;
    var code := undo.height * 2 + Bit(undo.coinbase);
    var version := if undo.height > 0 then Write(Kept(undo.version)) else [];
    var out := WriteTxOut(curve, undo.txout);
    HoldsParts(s, pos, Write(code), version + out);
    HoldsParts(s, pos + |Write(code)|, version, out);
    ReadWritten(s, pos, code);
    if undo.height > 0 {
      ReadWritten(s, pos + |Write(code)|, Kept(undo.version));
    }
    ReadTxOutWritten(curve, s, pos + |Write(code)| + |version|, undo.txout);
  }
}
