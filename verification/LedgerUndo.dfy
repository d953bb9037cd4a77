// Disconnecting a block undoes connecting it, exactly.
module LedgerUndo {
  import opened Coins
  import opened Ledger

  // Coins come from blocks at height 1 or more: the genesis coinbase is never
  // added. Undo records use height 0 to mean "not the last output".
  predicate Buried(u: Utxo) {
    forall h :: h in u ==> u[h].height >= 1
  }

  lemma TrimKeeps(vout: seq<TxOut>, w: seq<TxOut>)
    requires TrimNulls(w) == vout
    ensures |vout| <= |w| && w[..|vout|] == vout
    ensures NormalNulls(w) ==> Tidy(vout)
    ensures forall i :: |vout| <= i < |w| ==> w[i].IsNull()
  {
    TrimNullsCuts(w);
  }

  // Spending output n and putting it back gives the same outputs.
  lemma RestoreSpent(vout: seq<TxOut>, n: nat)
    requires Tidy(vout) && n < |vout| && !vout[n].IsNull()
    ensures TrimNulls(RestoreOutput(TrimNulls(vout[n := NULL_OUT]), n, vout[n])) == vout
  {
    var spent := vout[n := NULL_OUT];
    var w := TrimNulls(spent);
    TrimKeeps(w, spent);
    TidyMeansTrimmed(vout);
    if n < |vout| - 1 {
      assert !spent[|spent| - 1].IsNull();
      assert RestoreOutput(w, n, vout[n]) == vout;
    } else {
      assert |w| <= n;
      var padded := w + seq(n + 1 - |w|, _ => NULL_OUT);
      assert forall i :: 0 <= i < n ==> padded[i] == vout[i];
      assert padded[n := vout[n]] == vout;
    }
  }

  // Spending the only unspent output leaves nothing, and the record alone
  // rebuilds the coins.
  lemma RestoreLast(vout: seq<TxOut>, n: nat)
    requires Tidy(vout) && n < |vout| && !vout[n].IsNull()
    requires TrimNulls(vout[n := NULL_OUT]) == []
    ensures TrimNulls(RestoreOutput([], n, vout[n])) == vout
  {
    RestoreSpent(vout, n);
  }

  lemma SpendOneUndone(u: Utxo, out: OutPoint)
    requires Canonical(u) && Buried(u) && Available(u, out)
    ensures Canonical(SpendOne(u, out)) && Buried(SpendOne(u, out))
    ensures ApplyTxInUndo(SpendOne(u, out), UndoFor(u, out), out) == Some(u)
  {
    var c := u[out.hash];
    var left := SpendOutput(c, out.n);
    TidyTrim(c.vout[out.n := NULL_OUT]);
    TrimKeeps(left.vout, c.vout[out.n := NULL_OUT]);
    RestoreSpent(c.vout, out.n);
    assert u[out.hash := c] == u;
    if left.vout == [] {
      RestoreLast(c.vout, out.n);
      assert (u - {out.hash})[out.hash := c] == u;
    } else {
      assert u[out.hash := left][out.hash := c] == u;
      assert !left.IsAvailable(out.n);
    }
  }

  lemma {:induction false} SpendAllUndone(u: Utxo, vin: seq<OutPoint>)
    requires Canonical(u) && Buried(u) && SpendAll(u, vin).Some?
    ensures var s := SpendAll(u, vin).value;
            && Canonical(s.utxo) && Buried(s.utxo) && |s.undo| == |vin|
            && UnspendAll(s.utxo, s.undo, vin) == Some(u)
  {
    if vin != [] {
      var k := |vin| - 1;
      SpendAllUndone(u, vin[..k]);
      var before := SpendAll(u, vin[..k]).value;
      SpendOneUndone(before.utxo, vin[k]);
      var s := SpendAll(u, vin).value;
      assert s.undo[..k] == before.undo;
    }
  }

  lemma FromTxTidy(tx: Tx, height: int)
    requires TxValid(tx)
    ensures Tidy(FromTx(tx, height).vout)
    ensures TrimNulls(Spendable(FromTx(tx, height).vout)) == FromTx(tx, height).vout
  {
    var made := FromTx(tx, height).vout;
    forall i | 0 <= i < |tx.vout| && Spendable(tx.vout)[i].IsNull() ensures Spendable(tx.vout)[i] == NULL_OUT {
      assert tx.vout[i] in tx.vout;
    }
    TidyTrim(Spendable(tx.vout));
    TrimKeeps(made, Spendable(tx.vout));
    assert Spendable(made) == made;
    TidyMeansTrimmed(made);
  }

  lemma TrimNothing()
    ensures TrimNulls([]) == []
  {
  }

  lemma MadeOutputsMatch(u: Utxo, tx: Tx, height: int)
    requires TxValid(tx) && tx.hash !in u
    ensures OutputsMatch(Put(u, tx.hash, FromTx(tx, height)), tx, height)
    ensures Put(u, tx.hash, FromTx(tx, height)) - {tx.hash} == u
  {
    hide TxValid, TrimNulls, Tidy;
    var made := FromTx(tx, height);
    FromTxTidy(tx, height);
    assert Spendable([]) == [];
    assert TrimNulls([]) == [] by { TrimNothing(); }
    if made.vout != [] {
      assert Get(Put(u, tx.hash, made), tx.hash) == made;
    }
  }

  // The undo record of a transaction goes to the end, but a coinbase has none.
  lemma ConnectTxUpdates(c: Connected, tx: Tx, first: bool, height: int)
    requires ConnectTx(c, tx, first, height).Some?
    ensures var s := UpdateCoins(c.utxo, tx, height);
            var r := ConnectTx(c, tx, first, height).value;
            && s.Some? && r.utxo == s.value.utxo
            && r.undo == (if first then c.undo else c.undo + [s.value.undo])
  {
    hide UpdateCoins, InputsOk;
  }

  lemma PutKeeps(u: Utxo, h: Hash, c: Coins)
    requires Canonical(u) && Buried(u) && Tidy(c.vout) && c.height >= 1
    ensures Canonical(Put(u, h, c)) && Buried(Put(u, h, c))
  {
  }

  lemma TxUndone(u: Utxo, tx: Tx, i: nat, height: int)
    requires Canonical(u) && Buried(u) && height >= 1 && TxValid(tx)
    requires tx.IsCoinBase() <==> i == 0
    requires tx.hash !in u
    requires UpdateCoins(u, tx, height).Some?
    ensures var s := UpdateCoins(u, tx, height).value;
            && Canonical(s.utxo) && Buried(s.utxo)
            && |s.undo| == (if i == 0 then 0 else |tx.vin|)
            && DisconnectTx(s.utxo, tx, i, s.undo, height) == Some(u)
  {
    hide TxValid, OutputsMatch, Put, Canonical, Buried, Tidy, TrimNulls;
    var spent := if tx.IsCoinBase() then Spent(u, []) else SpendAll(u, tx.vin).value;
    if i > 0 {
      SpendAllUndone(u, tx.vin);
      SpendAddsNothing(u, tx.vin);
    }
    FromTxTidy(tx, height);
    MadeOutputsMatch(spent.utxo, tx, height);
    PutKeeps(spent.utxo, tx.hash, FromTx(tx, height));
  }

  lemma {:induction false} SpendAddsNothing(u: Utxo, vin: seq<OutPoint>)
    requires SpendAll(u, vin).Some?
    ensures SpendAll(u, vin).value.utxo.Keys <= u.Keys
  {
    if vin != [] {
      SpendAddsNothing(u, vin[..|vin| - 1]);
    }
  }

  // ---------------------------------------------------- distinct transactions

  // Hashes identify transactions.
  predicate CollisionFree(vtx: seq<Tx>) {
    forall i, j :: 0 <= i < |vtx| && 0 <= j < |vtx| && vtx[i].hash == vtx[j].hash ==> vtx[i] == vtx[j]
  }

  function After(u: Utxo, vtx: seq<Tx>, k: nat, height: int): Utxo
    requires k <= |vtx| && ConnectTxs(u, vtx, k, height).Some?
  {
    ConnectTxs(u, vtx, k, height).value.utxo
  }

  // Every prefix of a block that connects, connects.
  lemma {:induction false} PrefixConnects(u: Utxo, vtx: seq<Tx>, j: nat, k: nat, height: int)
    requires j <= k <= |vtx| && ConnectTxs(u, vtx, k, height).Some?
    ensures ConnectTxs(u, vtx, j, height).Some?
  {
    hide ConnectTx;
    if j < k {
      PrefixConnects(u, vtx, j, k - 1, height);
    }
  }

  lemma {:induction false} StaysSpent(u: Utxo, vin: seq<OutPoint>, out: OutPoint)
    requires SpendAll(u, vin).Some? && (!Available(u, out) || out in vin)
    ensures !Available(SpendAll(u, vin).value.utxo, out)
  {
    if vin != [] {
      var k := |vin| - 1;
      var before := SpendAll(u, vin[..k]).value.utxo;
      if !Available(u, out) || out in vin[..k] {
        StaysSpent(u, vin[..k], out);
      }
      TrimNullsCuts(before[vin[k].hash].vout[vin[k].n := NULL_OUT]);
    }
  }

  // What one transaction can change: it adds entries and makes outputs
  // available under its own txid only, and what it spends is gone.
  lemma OneTx(c: Connected, tx: Tx, first: bool, height: int, out: OutPoint)
    requires ConnectTx(c, tx, first, height).Some?
    ensures var r := ConnectTx(c, tx, first, height).value.utxo;
            && r.Keys <= c.utxo.Keys + {tx.hash}
            && (out.hash != tx.hash && !Available(c.utxo, out) ==> !Available(r, out))
            && (!tx.IsCoinBase() && out in tx.vin ==>
                  Available(c.utxo, out) && (out.hash != tx.hash ==> !Available(r, out)))
  {
    if !tx.IsCoinBase() {
      var spent := SpendAll(c.utxo, tx.vin).value.utxo;
      SpendAddsNothing(c.utxo, tx.vin);
      if !Available(c.utxo, out) || out in tx.vin {
        StaysSpent(c.utxo, tx.vin, out);
      }
    }
  }

  // What is there came with the initial map or with an earlier transaction.
  lemma {:induction false} Origin(u: Utxo, vtx: seq<Tx>, k: nat, height: int, h: Hash) returns (l: nat)
    requires k <= |vtx| && ConnectTxs(u, vtx, k, height).Some? && h in After(u, vtx, k, height) && h !in u
    ensures l < k && vtx[l].hash == h
  {
    hide ConnectTx;
    if vtx[k - 1].hash == h {
      return k - 1;
    }
    OneTx(ConnectTxs(u, vtx, k - 1, height).value, vtx[k - 1], k == 1, height, OutPoint(h, 0));
    l := Origin(u, vtx, k - 1, height, h);
  }

  // An output that was spent comes back only with a transaction of its txid.
  lemma {:induction false} Revived(u: Utxo, vtx: seq<Tx>, j: nat, k: nat, height: int, out: OutPoint)
    returns (l: nat)
    requires j < k <= |vtx| && ConnectTxs(u, vtx, k, height).Some? && ConnectTxs(u, vtx, j, height).Some?
    requires !Available(After(u, vtx, j, height), out) && Available(After(u, vtx, k, height), out)
    ensures j <= l < k && vtx[l].hash == out.hash
  {
    hide ConnectTx;
    if vtx[k - 1].hash == out.hash {
      return k - 1;
    }
    OneTx(ConnectTxs(u, vtx, k - 1, height).value, vtx[k - 1], k == 1, height, out);
    l := Revived(u, vtx, j, k - 1, height, out);
  }

  // No txid occurs twice in a block that connects, although no check says so
  // directly: a second copy would need its inputs spent twice.
  lemma {:induction false} TxidsDistinct(u: Utxo, vtx: seq<Tx>, k: nat, height: int)
    requires k <= |vtx| && ConnectTxs(u, vtx, k, height).Some?
    requires NoOverwrite(u, vtx) && CollisionFree(vtx)
    requires forall i :: 0 <= i < |vtx| ==> vtx[i].vin != [] && (vtx[i].IsCoinBase() <==> i == 0)
    ensures forall i, j :: 0 <= i < j < k ==> vtx[i].hash != vtx[j].hash
  {
    hide ConnectTx, TxValid;
    if k > 0 {
      PrefixConnects(u, vtx, k - 1, k, height);
      TxidsDistinct(u, vtx, k - 1, height);
      forall i | 0 <= i < k - 1 ensures vtx[i].hash != vtx[k - 1].hash {
        if vtx[i].hash == vtx[k - 1].hash {
          NoSecondCopy(u, vtx, i, k - 1, height);
        }
      }
    }
  }

  lemma NoSecondCopy(u: Utxo, vtx: seq<Tx>, i: nat, k: nat, height: int)
    requires i < k < |vtx| && ConnectTxs(u, vtx, k + 1, height).Some?
    requires NoOverwrite(u, vtx) && CollisionFree(vtx)
    requires forall i :: 0 <= i < |vtx| ==> vtx[i].vin != [] && (vtx[i].IsCoinBase() <==> i == 0)
    requires forall i, j :: 0 <= i < j < k ==> vtx[i].hash != vtx[j].hash
    ensures vtx[i].hash != vtx[k].hash
  {
    hide ConnectTx;
    if vtx[i].hash == vtx[k].hash {
      var tx := vtx[k];
      var out := tx.vin[0];
      PrefixConnects(u, vtx, k, k + 1, height);
      PrefixConnects(u, vtx, i + 1, k, height);
      OneTx(ConnectTxs(u, vtx, i, height).value, tx, i == 0, height, out);
      OneTx(ConnectTxs(u, vtx, k, height).value, tx, k == 0, height, out);
      var m := i;
      if out.hash != tx.hash {
        m := Revived(u, vtx, i + 1, k, height, out);
      }
      var l := Origin(u, vtx, i, height, out.hash);
      assert false;
    }
  }

  // ------------------------------------------------------------------ blocks

  // Nothing is overwritten, so one more transaction can be undone.
  lemma FreshTxid(u: Utxo, block: Block, k: nat, height: nat)
    requires 0 < k <= |block.vtx|
    requires ConnectTxs(u, block.vtx, k, height).Some? && ConnectTxs(u, block.vtx, k - 1, height).Some?
    requires BlockValid(block) && NoOverwrite(u, block.vtx) && CollisionFree(block.vtx)
    ensures block.vtx[k - 1].hash !in ConnectTxs(u, block.vtx, k - 1, height).value.utxo
  {
    hide ConnectTx;
    TxidsDistinct(u, block.vtx, k, height);
    if block.vtx[k - 1].hash in After(u, block.vtx, k - 1, height) {
      var l := Origin(u, block.vtx, k - 1, height, block.vtx[k - 1].hash);
      assert false;
    }
  }

  lemma {:induction false} TxsKeep(u: Utxo, block: Block, k: nat, height: nat)
    requires Canonical(u) && Buried(u) && height >= 1 && k <= |block.vtx|
    requires BlockValid(block) && NoOverwrite(u, block.vtx) && CollisionFree(block.vtx)
    requires ConnectTxs(u, block.vtx, k, height).Some?
    ensures var c := ConnectTxs(u, block.vtx, k, height).value;
            && Canonical(c.utxo) && Buried(c.utxo) && |c.undo| == (if k == 0 then 0 else k - 1)
            && (forall i :: 0 < i < k ==> |c.undo[i - 1]| == |block.vtx[i].vin|)
  {
    hide DisconnectTx, ConnectTx, UpdateCoins, Canonical, Buried, TxValid, Put, NoOverwrite, CollisionFree;
    if k > 0 {
      PrefixConnects(u, block.vtx, k - 1, k, height);
      TxsKeep(u, block, k - 1, height);
      FreshTxid(u, block, k, height);
      ConnectTxUpdates(ConnectTxs(u, block.vtx, k - 1, height).value, block.vtx[k - 1], k == 1, height);
      TxUndone(After(u, block.vtx, k - 1, height), block.vtx[k - 1], k - 1, height);
    }
  }

  lemma {:induction false} TxsUndone(u: Utxo, block: Block, undo: BlockUndo, k: nat, height: nat)
    requires Canonical(u) && Buried(u) && height >= 1 && k <= |block.vtx|
    requires BlockValid(block) && NoOverwrite(u, block.vtx) && CollisionFree(block.vtx)
    requires ConnectTxs(u, block.vtx, k, height).Some?
    requires UndoFits(block, undo) && ConnectTxs(u, block.vtx, k, height).value.undo <= undo
    ensures DisconnectTxs(After(u, block.vtx, k, height), block, undo, k, height) == Some(u)
  {
    hide DisconnectTx, ConnectTx, UpdateCoins, Canonical, Buried, TxValid, NoOverwrite, CollisionFree;
    if k > 0 {
      PrefixConnects(u, block.vtx, k - 1, k, height);
      TxsKeep(u, block, k - 1, height);
      TxsKeep(u, block, k, height);
      FreshTxid(u, block, k, height);
      var before := ConnectTxs(u, block.vtx, k - 1, height).value;
      ConnectTxUpdates(before, block.vtx[k - 1], k == 1, height);
      TxUndone(before.utxo, block.vtx[k - 1], k - 1, height);
      TxsUndone(u, block, undo, k - 1, height);
    }
  }

  // The main result: whatever block connects, its undo data takes the map back
  // to exactly what it was, and disconnecting reports no inconsistency.
  lemma DisconnectUndoesConnect(u: Utxo, block: Block, height: nat)
    requires Canonical(u) && Buried(u) && 1 <= height < HEIGHT_LIMIT && CollisionFree(block.vtx)
    requires ConnectBlock(u, block, height).Some?
    ensures var c := ConnectBlock(u, block, height).value;
            && Canonical(c.utxo) && Buried(c.utxo)
            && DisconnectBlock(c.utxo, block, c.undo, height) == Some(u)
  {
    hide DisconnectTxs, ConnectTxs;
    TxsKeep(u, block, |block.vtx|, height);
    TxsUndone(u, block, ConnectBlock(u, block, height).value.undo, |block.vtx|, height);
  }
}
