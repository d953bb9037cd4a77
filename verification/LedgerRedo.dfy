// The other way round: whatever undo data a block is disconnected with, if that is
// clean, connecting its transactions again leads back.
module LedgerRedo {
  import opened Coins
  import opened Ledger
  import opened LedgerUndo

  // No output that is provably unspendable is kept.
  predicate AllSpendable(vout: seq<TxOut>) {
    forall i :: 0 <= i < |vout| ==> !IsUnspendable(vout[i].script)
  }

  predicate Clear(u: Utxo) {
    Canonical(u) && forall h :: h in u ==> AllSpendable(u[h].vout)
  }

  // An output that was there to be spent.
  predicate WasThere(undo: TxInUndo) {
    !undo.txout.IsNull() && !IsUnspendable(undo.txout.script)
  }

  // An output put back where there was none, with nulls before it.
  lemma RestoredAlone(n: nat, txout: TxOut)
    requires !txout.IsNull()
    ensures var vout := RestoreOutput([], n, txout);
            && |vout| == n + 1 && TrimNulls(vout) == vout && vout[n] == txout
            && Tidy(vout) && TrimNulls(vout[n := NULL_OUT]) == []
  {
    var vout := RestoreOutput([], n, txout);
    TrimKeeps(TrimNulls(vout[n := NULL_OUT]), vout[n := NULL_OUT]);
    TrimNullsCuts(vout[n := NULL_OUT]);
    assert forall out: TxOut :: out in vout[n := NULL_OUT] ==> out.IsNull();
  }

  // An output put back among others.
  lemma RestoredAmong(vout: seq<TxOut>, n: nat, txout: TxOut)
    requires Tidy(vout) && vout != [] && (n < |vout| ==> vout[n].IsNull()) && !txout.IsNull()
    ensures var all := RestoreOutput(vout, n, txout);
            && n < |all| && all[n] == txout && Tidy(all) && TrimNulls(all) == all
            && TrimNulls(all[n := NULL_OUT]) == vout
            && (forall i :: 0 <= i < |all| && i != n ==> (i < |vout| && all[i] == vout[i]) || all[i] == NULL_OUT)
  {
    var all := RestoreOutput(vout, n, txout);
    TidyMeansTrimmed(all);
    var w := all[n := NULL_OUT];
    if n < |vout| {
      assert w == vout;
      TidyMeansTrimmed(vout);
    } else {
      NullsTrimmed(vout, w);
    }
  }

  lemma {:induction false} NullsTrimmed(vout: seq<TxOut>, w: seq<TxOut>)
    requires vout <= w && vout != [] && !vout[|vout| - 1].IsNull()
    requires forall i :: |vout| <= i < |w| ==> w[i].IsNull()
    ensures TrimNulls(w) == vout
    decreases |w|
  {
    if |w| > |vout| {
      NullsTrimmed(vout, w[..|w| - 1]);
    }
  }

  // What one record puts back, spending takes away again.
  lemma ApplyOneRedone(u: Utxo, undo: TxInUndo, out: OutPoint)
    requires Clear(u) && WasThere(undo) && ApplyTxInUndo(u, undo, out).Some?
    ensures var r := ApplyTxInUndo(u, undo, out).value;
            Clear(r) && Available(r, out) && SpendOne(r, out) == u
  {
    hide TrimNulls, RestoreOutput;
    if undo.height != 0 {
      RestoredAlone(out.n, undo.txout);
      AloneSpendable(out.n, undo.txout);
      var c := Coins(undo.coinbase, RestoreOutput([], out.n, undo.txout), undo.height, undo.version);
      assert u[out.hash := c] - {out.hash} == u;
    } else {
      var c := u[out.hash];
      RestoredAmong(c.vout, out.n, undo.txout);
      var d := c.(vout := RestoreOutput(c.vout, out.n, undo.txout));
      assert u[out.hash := d][out.hash := c] == u;
    }
  }

  lemma AloneSpendable(n: nat, txout: TxOut)
    requires !IsUnspendable(txout.script)
    ensures AllSpendable(RestoreOutput([], n, txout))
  {
  }

  lemma {:induction false} UnspendAllRedone(u: Utxo, undo: TxUndo, vin: seq<OutPoint>)
    requires Clear(u) && |undo| == |vin| && (forall i :: 0 <= i < |undo| ==> WasThere(undo[i]))
    requires UnspendAll(u, undo, vin).Some?
    ensures var v := UnspendAll(u, undo, vin).value;
            Clear(v) && SpendAll(v, vin).Some? && SpendAll(v, vin).value.utxo == u
    decreases |vin|
  {
    hide Clear, ApplyTxInUndo, WasThere, Available, UndoFor;
    if vin != [] {
      var k := |vin| - 1;
      ApplyOneRedone(u, undo[k], vin[k]);
      UnspendAllRedone(ApplyTxInUndo(u, undo[k], vin[k]).value, undo[..k], vin[..k]);
    }
  }

  // ------------------------------------------------- the same but for versions

  // Coins of the odd txids may differ in version, all others are the same.
  predicate Alike(u: Utxo, w: Utxo, odd: set<Hash>) {
    && w.Keys == u.Keys
    && forall h :: h in u ==>
         w[h].(version := 0) == u[h].(version := 0) && (h !in odd ==> w[h] == u[h])
  }

  lemma AlikeTwice(u: Utxo, v: Utxo, w: Utxo, odd: set<Hash>)
    requires Alike(u, v, odd) && Alike(v, w, odd)
    ensures Alike(u, w, odd)
  {
    assert forall h :: h in u ==> h in v.Keys;
  }

  lemma LikeAvailable(u: Utxo, w: Utxo, odd: set<Hash>, out: OutPoint)
    requires Alike(u, w, odd)
    ensures Available(w, out) <==> Available(u, out)
    ensures Available(u, out) ==> w[out.hash].vout == u[out.hash].vout
  {
    assert out.hash in u ==> out.hash in w.Keys;
    if out.hash in u {
      assert w[out.hash].(version := 0).vout == w[out.hash].vout;
      assert u[out.hash].(version := 0).vout == u[out.hash].vout;
    }
  }

  lemma LikeSpendOne(u: Utxo, w: Utxo, odd: set<Hash>, out: OutPoint)
    requires Alike(u, w, odd) && Available(u, out)
    ensures Available(w, out) && Alike(SpendOne(u, out), SpendOne(w, out), odd)
  {
    hide TrimNulls;
    LikeAvailable(u, w, odd, out);
    var left := TrimNulls(u[out.hash].vout[out.n := NULL_OUT]);
    var c, d := u[out.hash].(vout := left), w[out.hash].(vout := left);
    assert d.(version := 0) == w[out.hash].(version := 0).(vout := left);
    assert c.(version := 0) == u[out.hash].(version := 0).(vout := left);
  }

  lemma {:induction false} LikeSpendAll(u: Utxo, w: Utxo, odd: set<Hash>, vin: seq<OutPoint>)
    requires Alike(u, w, odd) && SpendAll(u, vin).Some?
    ensures SpendAll(w, vin).Some? && Alike(SpendAll(u, vin).value.utxo, SpendAll(w, vin).value.utxo, odd)
  {
    hide Alike, Available, SpendOne, UndoFor;
    if vin != [] {
      var k := |vin| - 1;
      LikeSpendAll(u, w, odd, vin[..k]);
      LikeSpendOne(SpendAll(u, vin[..k]).value.utxo, SpendAll(w, vin[..k]).value.utxo, odd, vin[k]);
    }
  }

  lemma LikePut(u: Utxo, w: Utxo, odd: set<Hash>, h: Hash, c: Coins)
    requires Alike(u, w, odd)
    ensures Alike(Put(u, h, c), Put(w, h, c), odd)
  {
  }

  lemma LikeUpdate(u: Utxo, w: Utxo, odd: set<Hash>, tx: Tx, height: int)
    requires Alike(u, w, odd) && UpdateCoins(u, tx, height).Some?
    ensures UpdateCoins(w, tx, height).Some?
    ensures Alike(UpdateCoins(u, tx, height).value.utxo, UpdateCoins(w, tx, height).value.utxo, odd)
  {
    hide Alike, SpendAll, Put, FromTx;
    var v, x := u, w;
    if !tx.IsCoinBase() {
      LikeSpendAll(u, w, odd, tx.vin);
      v, x := SpendAll(u, tx.vin).value.utxo, SpendAll(w, tx.vin).value.utxo;
    }
    LikePut(v, x, odd, tx.hash, FromTx(tx, height));
  }

  // ------------------------------------------------------------- transactions

  // Where the outputs match they are those of the transaction, but for a negative
  // version.
  lemma MatchMeansMade(u: Utxo, tx: Tx, height: int, odd: set<Hash>)
    requires Clear(u) && TxValid(tx) && OutputsMatch(u, tx, height)
    requires tx.version < 0 ==> tx.hash in odd
    ensures Alike(u, Put(u - {tx.hash}, tx.hash, FromTx(tx, height)), odd)
  {
    hide TxValid, TrimNulls, FromTx, Clear, Tidy, Alike;
    var made, c := FromTx(tx, height), Get(u, tx.hash);
    FromTxTidy(tx, height);
    TidyMeansTrimmed(made.vout);
    ClearOutputs(u, tx.hash);
    NotPruned(u, tx.hash);
    MadeVersion(tx, height);
    PutAlike(u, tx.hash, made, odd);
  }

  lemma MadeVersion(tx: Tx, height: int)
    ensures FromTx(tx, height).version == tx.version
  {
  }

  // Coins put in place of others that differ in version at most.
  lemma PutAlike(u: Utxo, h: Hash, c: Coins, odd: set<Hash>)
    requires h in u ==> c.vout != [] && c.(version := 0) == u[h].(version := 0) && (h !in odd ==> c == u[h])
    requires h !in u ==> c.vout == []
    ensures Alike(u, Put(u - {h}, h, c), odd)
  {
  }

  lemma ClearOutputs(u: Utxo, h: Hash)
    requires Clear(u)
    ensures Spendable(Get(u, h).vout) == Get(u, h).vout && TrimNulls(Get(u, h).vout) == Get(u, h).vout
  {
    TidyMeansTrimmed(Get(u, h).vout);
  }

  lemma NotPruned(u: Utxo, h: Hash)
    requires Clear(u)
    ensures h in u ==> !u[h].IsPruned()
  {
  }

  lemma TxRedone(u: Utxo, tx: Tx, i: nat, undo: TxUndo, height: int, odd: set<Hash>)
    requires Clear(u) && TxValid(tx) && (tx.IsCoinBase() <==> i == 0) && (tx.version < 0 ==> tx.hash in odd)
    requires (i > 0 ==> |undo| == |tx.vin|) && (forall k :: 0 <= k < |undo| ==> WasThere(undo[k]))
    requires DisconnectTx(u, tx, i, undo, height).Some?
    ensures var v := DisconnectTx(u, tx, i, undo, height).value;
            && Clear(v) && UpdateCoins(v, tx, height).Some?
            && Alike(u, UpdateCoins(v, tx, height).value.utxo, odd)
  {
    hide TxValid, OutputsMatch, Alike, FromTx, WasThere, Put, Clear;
    MatchMeansMade(u, tx, height, odd);
    StillClear(u, tx.hash);
    if i > 0 {
      UnspendAllRedone(u - {tx.hash}, undo, tx.vin);
    }
  }

  lemma StillClear(u: Utxo, h: Hash)
    requires Clear(u)
    ensures Clear(u - {h})
  {
  }

  // -------------------------------------------------------------------- blocks

  // The first k transactions applied without any check.
  function Redo(u: Utxo, vtx: seq<Tx>, k: nat, height: int): Option<Utxo>
    requires k <= |vtx|
  {
    if k == 0 then Some(u)
    else
      var before := Redo(u, vtx, k - 1, height);
      if before.None? then None
      else
        var r := UpdateCoins(before.value, vtx[k - 1], height);
        if r.None? then None else Some(r.value.utxo)
  }

  // The txids of the transactions with a negative version.
  function OddTxids(vtx: seq<Tx>): set<Hash> {
    set i | 0 <= i < |vtx| && vtx[i].version < 0 :: vtx[i].hash
  }

  lemma {:induction false} TxsRedone(u: Utxo, block: Block, undo: BlockUndo, k: nat, height: int)
    requires Clear(u) && BlockValid(block) && UndoFits(block, undo) && k <= |block.vtx|
    requires forall i, j :: 0 <= i < |undo| && 0 <= j < |undo[i]| ==> WasThere(undo[i][j])
    requires DisconnectTxs(u, block, undo, k, height).Some?
    ensures var r := Redo(DisconnectTxs(u, block, undo, k, height).value, block.vtx, k, height);
            r.Some? && Alike(u, r.value, OddTxids(block.vtx))
    decreases k
  {
    hide Clear, TxValid, DisconnectTx, UpdateCoins, Alike, WasThere, OddTxids;
    var odd := OddTxids(block.vtx);
    if k == 0 {
      AlikeItself(u, odd);
    } else {
      var tx, record := block.vtx[k - 1], if k == 1 then [] else undo[k - 2];
      IsOdd(block.vtx, k - 1);
      TxRedone(u, tx, k - 1, record, height, odd);
      var before := DisconnectTx(u, tx, k - 1, record, height).value;
      TxsRedone(before, block, undo, k - 1, height);
      var again := Redo(DisconnectTxs(u, block, undo, k, height).value, block.vtx, k - 1, height).value;
      LikeUpdate(before, again, odd, tx, height);
      AlikeTwice(u, UpdateCoins(before, tx, height).value.utxo, UpdateCoins(again, tx, height).value.utxo, odd);
    }
  }

  lemma AlikeItself(u: Utxo, odd: set<Hash>)
    ensures Alike(u, u, odd)
  {
  }

  lemma IsOdd(vtx: seq<Tx>, i: nat)
    requires i < |vtx|
    ensures vtx[i].version < 0 ==> vtx[i].hash in OddTxids(vtx)
  {
  }

  // A clean disconnect means that the outputs of the block were there as it made them
  // and that the undo data fits: from any map without unspendable outputs, with any
  // records of outputs that can be spent, applying the transactions again gives the
  // map back, but for the versions of transactions that have a negative one.
  lemma CleanMeansRedone(u: Utxo, block: Block, undo: BlockUndo, height: int)
    requires Clear(u) && BlockValid(block)
    requires forall i, j :: 0 <= i < |undo| && 0 <= j < |undo[i]| ==> WasThere(undo[i][j])
    requires DisconnectBlock(u, block, undo, height).Some?
    ensures var r := Redo(DisconnectBlock(u, block, undo, height).value, block.vtx, |block.vtx|, height);
            && r.Some? && Alike(u, r.value, OddTxids(block.vtx))
            && ((forall i :: 0 <= i < |block.vtx| ==> block.vtx[i].version >= 0) ==> r == Some(u))
  {
    hide Clear, TxValid, DisconnectTxs, UpdateCoins, WasThere, Redo;
    TxsRedone(u, block, undo, |block.vtx|, height);
    var r := Redo(DisconnectBlock(u, block, undo, height).value, block.vtx, |block.vtx|, height).value;
    if forall i :: 0 <= i < |block.vtx| ==> block.vtx[i].version >= 0 {
      assert OddTxids(block.vtx) == {};
      assert r == u;
    }
  }
}
