// What the chain state reads back is what the byte formats give, for all coins
// and undo records that it ever writes.
module Storage {
  import opened Coins
  import opened Ledger
  import opened VarInt
  import opened Compressor
  import opened CoinsCodec
  import opened UndoCodec
  import LedgerUndo
  import Chain = ChainState

  // All values are in range.
  predicate AllPayable(u: Utxo) {
    forall h :: h in u ==> Payable(u[h].vout)
  }

  predicate Recorded(undo: TxUndo) {
    forall i :: 0 <= i < |undo| ==> undo[i].height >= 0 && MoneyRange(undo[i].txout.value)
  }

  lemma SpendOnePayable(u: Utxo, out: OutPoint)
    requires AllPayable(u) && LedgerUndo.Buried(u) && Available(u, out)
    ensures AllPayable(SpendOne(u, out)) && LedgerUndo.Buried(SpendOne(u, out)) && Recorded([UndoFor(u, out)])
  {
    var nulled := u[out.hash].vout[out.n := NULL_OUT];
    TrimNullsCuts(nulled);
    assert Payable(u[out.hash].vout);
    assert Payable(TrimNulls(nulled));
  }

  lemma {:induction false} SpendAllPayable(u: Utxo, vin: seq<OutPoint>)
    requires AllPayable(u) && LedgerUndo.Buried(u) && SpendAll(u, vin).Some?
    ensures var s := SpendAll(u, vin).value; AllPayable(s.utxo) && LedgerUndo.Buried(s.utxo) && Recorded(s.undo)
  {
    hide AllPayable, LedgerUndo.Buried, SpendOne, UndoFor, Available;
    if vin != [] {
      var k := |vin| - 1;
      SpendAllPayable(u, vin[..k]);
      SpendOnePayable(SpendAll(u, vin[..k]).value.utxo, vin[k]);
    }
  }

  lemma MadePayable(tx: Tx, height: int)
    requires TxValid(tx)
    ensures Payable(FromTx(tx, height).vout)
  {
    var outs := Spendable(tx.vout);
    forall i | 0 <= i < |outs| && !outs[i].IsNull() ensures MoneyRange(outs[i].value) {
      assert tx.vout[i] in tx.vout;
    }
    TrimNullsCuts(outs);
  }

  lemma {:induction false} TxsPayable(u: Utxo, vtx: seq<Tx>, k: nat, height: nat)
    requires AllPayable(u) && LedgerUndo.Buried(u) && height >= 1
    requires k <= |vtx| && ConnectTxs(u, vtx, k, height).Some? && forall i :: 0 <= i < k ==> TxValid(vtx[i])
    ensures var c := ConnectTxs(u, vtx, k, height).value;
            && AllPayable(c.utxo) && LedgerUndo.Buried(c.utxo)
            && forall i :: 0 <= i < |c.undo| ==> Recorded(c.undo[i])
  {
    hide ConnectTx, TxValid, Recorded, SpendAll, TrimNulls, Spendable, Payable;
    if k > 0 {
      TxsPayable(u, vtx, k - 1, height);
      var before, tx := ConnectTxs(u, vtx, k - 1, height).value, vtx[k - 1];
      LedgerUndo.ConnectTxUpdates(before, tx, k == 1, height);
      MadePayable(tx, height);
      if !tx.IsCoinBase() {
        SpendAllPayable(before.utxo, tx.vin);
      } else {
        NothingRecorded();
      }
    }
  }

  lemma NothingRecorded()
    ensures Recorded([])
  {
  }

  lemma {:induction false} ReplayPayable(p: Chain.BlockIndex)
    requires Chain.Replay(p).Some? && p.CollisionFree()
    ensures AllPayable(Chain.Replay(p).value)
    ensures p.Child? ==> forall i :: 0 <= i < |Chain.UndoOf(p)| ==> Recorded(Chain.UndoOf(p)[i])
  {
    hide ConnectTxs, TxValid, Recorded, AllPayable, LedgerUndo.Buried, Canonical, DisconnectBlock;
    if p.Child? {
      ReplayPayable(p.prev);
      Chain.ReplaySound(p.prev);
      TxsPayable(Chain.Replay(p.prev).value, p.vtx, |p.vtx|, p.Height());
    } else {
      NothingPayable();
    }
  }

  lemma NothingPayable()
    ensures AllPayable(map[])
  {
  }

  // Coins of a chain, whether or not they have been through the database
  // before, come back from it in their stored form.
  lemma CoinsReadBack(curve: Curve, p: Chain.BlockIndex, exact: set<Hash>, h: Hash)
    requires curve.Sound() && Chain.Replay(p).Some? && p.CollisionFree() && h in Chain.Replay(p).value
    ensures var c := Faded(Chain.Replay(p).value, exact)[h];
            && !c.IsPruned()
            && Unserialized(curve, Serialized(curve, c), 0) == Some(Parsed(Stored(c), |Serialized(curve, c)|))
  {
    hide Chain.Replay, Serialized, Unserialized, Curve.Sound, DisconnectBlock;
    var c := Faded(Chain.Replay(p).value, exact)[h];
    ReplayPayable(p);
    Chain.ReplaySound(p);
    TidyMeansTrimmed(c.vout);
    assert !c.IsPruned();
    var s := Serialized(curve, c);
    assert s[0..|s|] == s;
    CoinsRoundTrip(curve, c, s, 0);
    assert c.(vout := TrimNulls(c.vout)) == c;
  }

  // And so do the undo records of its blocks from their files.
  lemma UndoReadsBack(curve: Curve, p: Chain.BlockIndex, i: nat, j: nat)
    requires curve.Sound() && p.Child? && Chain.Replay(p).Some? && p.CollisionFree()
    requires i < |Chain.UndoOf(p)| && j < |Chain.UndoOf(p)[i]|
    ensures var undo := Chain.UndoOf(p)[i][j];
            && undo.height >= 0
            && ReadUndo(curve, WriteUndo(curve, undo), 0)
               == Some(Parsed(StoredBlockUndo(Chain.UndoOf(p))[i][j], |WriteUndo(curve, undo)|))
  {
    hide Chain.Replay, Chain.UndoOf, ReadUndo, WriteUndo, Curve.Sound;
    ReplayPayable(p);
    var undo := Chain.UndoOf(p)[i][j];
    assert Recorded(Chain.UndoOf(p)[i]);
    var s := WriteUndo(curve, undo);
    assert s[0..|s|] == s;
    UndoRoundTrip(curve, undo, s, 0);
  }
}
