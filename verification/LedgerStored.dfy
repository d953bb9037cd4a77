// Connecting and disconnecting when coins and undo records go through storage,
// where negative versions are lost.
module LedgerStored {
  import opened Coins
  import opened Ledger
  import opened LedgerUndo

  // ------------------------------------------------------ connecting on top

  // Spending does not look at versions.
  lemma FadedSpend(u: Utxo, exact: set<Hash>, out: OutPoint)
    ensures Available(Faded(u, exact), out) <==> Available(u, out)
    ensures Available(u, out) ==>
              && SpendOne(Faded(u, exact), out) == Faded(SpendOne(u, out), exact)
              && StoredUndo(UndoFor(Faded(u, exact), out)) == StoredUndo(UndoFor(u, out))
              && OutputFor(Faded(u, exact), out) == OutputFor(u, out)
  {
    hide TrimNulls;
    if Available(u, out) {
      var h, f := out.hash, Faded(u, exact);
      var left := SpendOutput(u[h], out.n);
      assert SpendOutput(f[h], out.n).vout == left.vout;
      var l, r := SpendOne(f, out), Faded(SpendOne(u, out), exact);
      assert l.Keys == r.Keys;
      assert forall k :: k in l ==> l[k] == r[k];
      assert l == r;
    }
  }

  lemma {:induction false} FadedSpendAll(u: Utxo, exact: set<Hash>, vin: seq<OutPoint>)
    ensures SpendAll(Faded(u, exact), vin).Some? <==> SpendAll(u, vin).Some?
    ensures SpendAll(u, vin).Some? ==>
              var s, f := SpendAll(u, vin).value, SpendAll(Faded(u, exact), vin).value;
              f.utxo == Faded(s.utxo, exact) && StoredTxUndo(f.undo) == StoredTxUndo(s.undo)
  {
    hide SpendOne, UndoFor, Available, Faded, StoredUndo;
    if vin != [] {
      var k := |vin| - 1;
      FadedSpendAll(u, exact, vin[..k]);
      if SpendAll(u, vin[..k]).Some? {
        var before, faded := SpendAll(u, vin[..k]).value, SpendAll(Faded(u, exact), vin[..k]).value;
        FadedSpend(before.utxo, exact, vin[k]);
        if Available(before.utxo, vin[k]) {
          StoredAppend(before.undo, faded.undo, UndoFor(before.utxo, vin[k]), UndoFor(faded.utxo, vin[k]));
        }
      }
    }
  }

  lemma StoredAppend(a: TxUndo, b: TxUndo, x: TxInUndo, y: TxInUndo)
    requires StoredTxUndo(a) == StoredTxUndo(b) && StoredUndo(x) == StoredUndo(y)
    ensures StoredTxUndo(a + [x]) == StoredTxUndo(b + [y])
  {
    hide StoredUndo;
    assert StoredTxUndo(a + [x]) == StoredTxUndo(a) + [StoredUndo(x)];
    assert StoredTxUndo(b + [y]) == StoredTxUndo(b) + [StoredUndo(y)];
  }

  lemma StoredBlockAppend(a: BlockUndo, b: BlockUndo, x: TxUndo, y: TxUndo)
    requires StoredBlockUndo(a) == StoredBlockUndo(b)
    ensures StoredTxUndo(x) == StoredTxUndo(y) ==> StoredBlockUndo(a + [x]) == StoredBlockUndo(b + [y])
  {
    hide StoredTxUndo;
    assert StoredBlockUndo(a + [x]) == StoredBlockUndo(a) + [StoredTxUndo(x)];
    assert StoredBlockUndo(b + [y]) == StoredBlockUndo(b) + [StoredTxUndo(y)];
  }

  lemma {:induction false} FadedValueIn(u: Utxo, exact: set<Hash>, vin: seq<OutPoint>)
    requires HaveInputs(u, vin)
    ensures HaveInputs(Faded(u, exact), vin) && ValueIn(Faded(u, exact), vin) == ValueIn(u, vin)
  {
    if vin != [] {
      FadedValueIn(u, exact, vin[..|vin| - 1]);
    }
  }

  // The input checks do not look at versions.
  lemma FadedInputsOk(u: Utxo, exact: set<Hash>, tx: Tx, spendHeight: int)
    ensures InputsOk(Faded(u, exact), tx, spendHeight) <==> InputsOk(u, tx, spendHeight)
  {
    hide ValueIn;
    var f := Faded(u, exact);
    forall i | 0 <= i < |tx.vin| ensures Available(f, tx.vin[i]) == Available(u, tx.vin[i]) {
      FadedSpend(u, exact, tx.vin[i]);
    }
    if HaveInputs(u, tx.vin) {
      FadedValueIn(u, exact, tx.vin);
    }
  }

  lemma FadedPut(u: Utxo, exact: set<Hash>, h: Hash, c: Coins)
    ensures Put(Faded(u, exact), h, c) == Faded(Put(u, h, c), exact + {h})
  {
    var l, r := Put(Faded(u, exact), h, c), Faded(Put(u, h, c), exact + {h});
    assert l.Keys == r.Keys;
    assert forall k :: k in l ==> l[k] == r[k];
  }

  // The new coins are exact.
  lemma FadedConnectTx(c: Connected, exact: set<Hash>, undo: BlockUndo, tx: Tx, first: bool, height: int)
    requires StoredBlockUndo(undo) == StoredBlockUndo(c.undo)
    ensures var f := ConnectTx(Connected(Faded(c.utxo, exact), undo, c.fees), tx, first, height);
            var r := ConnectTx(c, tx, first, height);
            && (f.Some? <==> r.Some?)
            && (r.Some? ==>
                  && f.value.utxo == Faded(r.value.utxo, exact + {tx.hash}) && f.value.fees == r.value.fees
                  && StoredBlockUndo(f.value.undo) == StoredBlockUndo(r.value.undo))
  {
    hide Faded, InputsOk, SpendAll, Put, FromTx, StoredTxUndo, StoredBlockUndo, ValueIn, ValueOut;
    var spent, faded := Spent(c.utxo, []), Spent(Faded(c.utxo, exact), []);
    if !tx.IsCoinBase() {
      FadedInputsOk(c.utxo, exact, tx, height);
      FadedSpendAll(c.utxo, exact, tx.vin);
      if InputsOk(c.utxo, tx, height) && SpendAll(c.utxo, tx.vin).Some? {
        InputsAreThere(c.utxo, tx, height);
        FadedValueIn(c.utxo, exact, tx.vin);
        spent, faded := SpendAll(c.utxo, tx.vin).value, SpendAll(Faded(c.utxo, exact), tx.vin).value;
      }
    }
    FadedPut(spent.utxo, exact, tx.hash, FromTx(tx, height));
    StoredBlockAppend(undo, c.undo, faded.undo, spent.undo);
  }

  lemma InputsAreThere(u: Utxo, tx: Tx, height: int)
    requires InputsOk(u, tx, height)
    ensures HaveInputs(u, tx.vin)
  {
  }

  function Txids(vtx: seq<Tx>, k: nat): set<Hash>
    requires k <= |vtx|
  {
    set i | 0 <= i < k :: vtx[i].hash
  }

  lemma {:induction false} FadedConnectTxs(u: Utxo, exact: set<Hash>, vtx: seq<Tx>, k: nat, height: int)
    requires k <= |vtx|
    ensures var f, r := ConnectTxs(Faded(u, exact), vtx, k, height), ConnectTxs(u, vtx, k, height);
            && (f.Some? <==> r.Some?)
            && (r.Some? ==>
                  && f.value.utxo == Faded(r.value.utxo, exact + Txids(vtx, k)) && f.value.fees == r.value.fees
                  && StoredBlockUndo(f.value.undo) == StoredBlockUndo(r.value.undo))
  {
    hide ConnectTx, Faded, StoredBlockUndo;
    if k == 0 {
      assert exact + Txids(vtx, 0) == exact;
    } else {
      FadedConnectTxs(u, exact, vtx, k - 1, height);
      if ConnectTxs(u, vtx, k - 1, height).Some? {
        FadedConnectTx(ConnectTxs(u, vtx, k - 1, height).value, exact + Txids(vtx, k - 1),
                       ConnectTxs(Faded(u, exact), vtx, k - 1, height).value.undo, vtx[k - 1], k == 1, height);
        assert exact + Txids(vtx, k) == exact + Txids(vtx, k - 1) + {vtx[k - 1].hash};
      }
    }
  }

  // A block connects on coins that went through storage exactly if it connects
  // on the exact ones, with the same result but for their versions, and with
  // the same undo records once these are stored.
  lemma FadedConnectBlock(u: Utxo, exact: set<Hash>, block: Block, height: nat)
    requires height < HEIGHT_LIMIT
    ensures var f, r := ConnectBlock(Faded(u, exact), block, height), ConnectBlock(u, block, height);
            && (f.Some? <==> r.Some?)
            && (r.Some? ==>
                  && f.value.utxo == Faded(r.value.utxo, exact + Txids(block.vtx, |block.vtx|))
                  && f.value.fees == r.value.fees
                  && StoredBlockUndo(f.value.undo) == StoredBlockUndo(r.value.undo))
  {
    hide ConnectTxs, BlockValid, StoredBlockUndo, GetBlockSubsidy;
    FadedConnectTxs(u, exact, block.vtx, |block.vtx|, height);
    assert NoOverwrite(Faded(u, exact), block.vtx) == NoOverwrite(u, block.vtx);
  }

  // ---------------------------------------------------------- whose versions

  predicate AllKept(u: Utxo) {
    forall h :: h in u ==> u[h].version >= 0
  }

  lemma {:induction false} SpendVersions(u: Utxo, vin: seq<OutPoint>)
    requires SpendAll(u, vin).Some? && AllKept(u)
    ensures AllKept(SpendAll(u, vin).value.utxo)
  {
    if vin != [] {
      SpendVersions(u, vin[..|vin| - 1]);
    }
  }

  lemma PutVersions(u: Utxo, h: Hash, c: Coins)
    requires AllKept(u) && c.version >= 0
    ensures AllKept(Put(u, h, c))
  {
  }

  lemma {:induction false} TxsVersions(u: Utxo, vtx: seq<Tx>, k: nat, height: int)
    requires k <= |vtx| && ConnectTxs(u, vtx, k, height).Some? && AllKept(u)
    requires forall i :: 0 <= i < k ==> vtx[i].version >= 0
    ensures AllKept(ConnectTxs(u, vtx, k, height).value.utxo)
  {
    hide ConnectTx, AllKept, Put, SpendAll, Spendable, TrimNulls;
    if k > 0 {
      TxsVersions(u, vtx, k - 1, height);
      ConnectTxUpdates(ConnectTxs(u, vtx, k - 1, height).value, vtx[k - 1], k == 1, height);
      var before, tx := ConnectTxs(u, vtx, k - 1, height).value.utxo, vtx[k - 1];
      if !tx.IsCoinBase() {
        SpendVersions(before, tx.vin);
        before := SpendAll(before, tx.vin).value.utxo;
      }
      PutVersions(before, tx.hash, FromTx(tx, height));
    }
  }

  // Versions that storage keeps stay such.
  lemma BlockVersions(u: Utxo, block: Block, height: nat)
    requires height < HEIGHT_LIMIT && ConnectBlock(u, block, height).Some? && AllKept(u)
    requires forall i :: 0 <= i < |block.vtx| ==> block.vtx[i].version >= 0
    ensures AllKept(ConnectBlock(u, block, height).value.utxo)
  {
    hide ConnectTxs;
    TxsVersions(u, block.vtx, |block.vtx|, height);
  }

  // ------------------------------------------------------------- taking back

  // A stored record applies where the record itself does, and the coins that
  // it alone rebuilds are stored ones.
  lemma FadedApply(u: Utxo, exact: set<Hash>, undo: TxInUndo, out: OutPoint)
    requires undo.height >= 0 && (undo.height > 0 ==> out.hash !in exact)
    requires ApplyTxInUndo(u, undo, out).Some?
    ensures ApplyTxInUndo(Faded(u, exact), StoredUndo(undo), out)
            == Some(Faded(ApplyTxInUndo(u, undo, out).value, exact))
  {
    hide TrimNulls, RestoreOutput;
    var h := out.hash;
    var vout := TrimNulls(RestoreOutput(if undo.height > 0 then [] else u[h].vout, out.n, undo.txout));
    if undo.height > 0 {
      FadedPutStored(u, exact, h, Coins(undo.coinbase, vout, undo.height, undo.version));
    } else {
      FadedPutBack(u, exact, h, vout);
    }
  }

  lemma FadedPutStored(u: Utxo, exact: set<Hash>, h: Hash, c: Coins)
    requires h !in exact
    ensures Put(Faded(u, exact), h, Stored(c)) == Faded(Put(u, h, c), exact)
  {
  }

  lemma FadedPutBack(u: Utxo, exact: set<Hash>, h: Hash, vout: seq<TxOut>)
    requires h in u
    ensures Put(Faded(u, exact), h, Faded(u, exact)[h].(vout := vout)) == Faded(Put(u, h, u[h].(vout := vout)), exact)
  {
  }

  // One spent output put back from its stored record. Coins of which it was
  // the last output come back as stored ones.
  lemma StoredOneUndone(u: Utxo, exact: set<Hash>, out: OutPoint)
    requires Canonical(u) && Buried(u) && Available(u, out)
    requires out.hash in exact ==> out.hash in SpendOne(u, out)
    ensures Canonical(SpendOne(u, out)) && Buried(SpendOne(u, out))
    ensures ApplyTxInUndo(Faded(SpendOne(u, out), exact), StoredUndo(UndoFor(u, out)), out) == Some(Faded(u, exact))
  {
    hide Faded, ApplyTxInUndo, Canonical, TrimNulls;
    SpendOneUndone(u, out);
    FadedApply(SpendOne(u, out), exact, UndoFor(u, out), out);
  }

  // Putting a spent output back from its stored record is exact if and only if
  // there are outputs left, or the version is not negative.
  lemma StoredOneIsExact(u: Utxo, out: OutPoint)
    requires Canonical(u) && Buried(u) && Available(u, out)
    ensures ApplyTxInUndo(SpendOne(u, out), StoredUndo(UndoFor(u, out)), out) == Some(u)
            <==> out.hash in SpendOne(u, out) || u[out.hash].version >= 0
  {
    hide Faded, ApplyTxInUndo, Canonical, Buried, TrimNulls, StoredUndo, UndoFor;
    var left := SpendOne(u, out);
    StoredOneUndone(u, left.Keys, out);
    FadedIsExact(left, left.Keys);
    FadedIsExact(u, left.Keys);
  }

  lemma {:induction false} StoredAllUndone(u: Utxo, exact: set<Hash>, vin: seq<OutPoint>)
    requires Canonical(u) && Buried(u) && SpendAll(u, vin).Some?
    requires exact * u.Keys <= SpendAll(u, vin).value.utxo.Keys
    ensures var s := SpendAll(u, vin).value;
            |s.undo| == |vin| && UnspendAll(Faded(s.utxo, exact), StoredTxUndo(s.undo), vin) == Some(Faded(u, exact))
  {
    hide SpendOne, UndoFor, Available, Faded, StoredUndo, ApplyTxInUndo, Canonical, Buried;
    if vin != [] {
      var k := |vin| - 1;
      SpendAllUndone(u, vin[..k]);
      SpendAddsNothing(u, vin[..k]);
      var before, s := SpendAll(u, vin[..k]).value, SpendAll(u, vin).value;
      SpendOneKeys(before.utxo, vin[k]);
      StoredAllUndone(u, exact, vin[..k]);
      StoredOneUndone(before.utxo, exact, vin[k]);
      assert StoredTxUndo(s.undo)[..k] == StoredTxUndo(before.undo);
      assert StoredTxUndo(s.undo)[k] == StoredUndo(UndoFor(before.utxo, vin[k]));
    } else {
      assert StoredTxUndo([]) == [];
    }
  }

  lemma SpendOneKeys(u: Utxo, out: OutPoint)
    requires Available(u, out)
    ensures SpendOne(u, out).Keys <= u.Keys && out.hash in u
  {
    hide TrimNulls;
  }

  // Also a faded entry passes for what the block made.
  lemma FadedMatch(u: Utxo, exact: set<Hash>, tx: Tx, height: int)
    requires TxValid(tx) && tx.hash !in u
    ensures OutputsMatch(Faded(Put(u, tx.hash, FromTx(tx, height)), exact), tx, height)
    ensures Faded(Put(u, tx.hash, FromTx(tx, height)), exact) - {tx.hash} == Faded(u, exact)
  {
    hide TxValid, TrimNulls, Tidy, Spendable, FromTx;
    var made := FromTx(tx, height);
    var w := Put(u, tx.hash, made);
    MadeOutputsMatch(u, tx, height);
    assert (Faded(w, exact) - {tx.hash}).Keys == Faded(u, exact).Keys;
    assert Faded(w, exact) - {tx.hash} == Faded(u, exact);
    var c, f := Get(w, tx.hash), Get(Faded(w, exact), tx.hash);
    assert f == c || f == Stored(c);
    assert c == if made.vout == [] then NO_COINS else made;
  }

  lemma StoredTxUndone(u: Utxo, exact: set<Hash>, tx: Tx, i: nat, height: int)
    requires Canonical(u) && Buried(u) && height >= 1 && TxValid(tx)
    requires tx.IsCoinBase() <==> i == 0
    requires tx.hash !in u
    requires UpdateCoins(u, tx, height).Some?
    requires exact * u.Keys <= UpdateCoins(u, tx, height).value.utxo.Keys
    ensures var s := UpdateCoins(u, tx, height).value;
            && |s.undo| == (if i == 0 then 0 else |tx.vin|)
            && DisconnectTx(Faded(s.utxo, exact), tx, i, StoredTxUndo(s.undo), height) == Some(Faded(u, exact))
  {
    hide TxValid, OutputsMatch, Put, Canonical, Buried, Tidy, TrimNulls, Faded;
    var spent := if tx.IsCoinBase() then Spent(u, []) else SpendAll(u, tx.vin).value;
    PutKeys(spent.utxo, tx.hash, FromTx(tx, height));
    if i > 0 {
      SpendAddsNothing(u, tx.vin);
      StoredAllUndone(u, exact, tx.vin);
    }
    FadedMatch(spent.utxo, exact, tx, height);
  }

  lemma PutKeys(u: Utxo, h: Hash, c: Coins)
    ensures Put(u, h, c).Keys <= u.Keys + {h}
  {
  }

  // What is gone in the middle of a block is gone at its end: coins do not come
  // back under a txid that was there before.
  lemma {:induction false} GoneForGood(u: Utxo, block: Block, j: nat, k: nat, height: nat, h: Hash)
    requires j <= k <= |block.vtx|
    requires BlockValid(block) && NoOverwrite(u, block.vtx) && CollisionFree(block.vtx)
    requires ConnectTxs(u, block.vtx, k, height).Some? && ConnectTxs(u, block.vtx, j, height).Some?
    requires (h in u || exists i :: 0 <= i < j && block.vtx[i].hash == h) && h !in After(u, block.vtx, j, height)
    ensures h !in After(u, block.vtx, k, height)
  {
    hide ConnectTx;
    if j < k {
      PrefixConnects(u, block.vtx, k - 1, k, height);
      GoneForGood(u, block, j, k - 1, height, h);
      TxidsDistinct(u, block.vtx, k, height);
      OneTx(ConnectTxs(u, block.vtx, k - 1, height).value, block.vtx[k - 1], k == 1, height, OutPoint(h, 0));
    }
  }

  lemma {:induction false} StoredTxsUndone(u: Utxo, exact: set<Hash>, block: Block, undo: BlockUndo, k: nat,
                                           height: nat)
    requires Canonical(u) && Buried(u) && height >= 1 && k <= |block.vtx|
    requires BlockValid(block) && NoOverwrite(u, block.vtx) && CollisionFree(block.vtx)
    requires ConnectTxs(u, block.vtx, |block.vtx|, height).Some? && ConnectTxs(u, block.vtx, k, height).Some?
    requires exact <= After(u, block.vtx, |block.vtx|, height).Keys
    requires UndoFits(block, undo) && UndoFits(block, StoredBlockUndo(undo))
    requires ConnectTxs(u, block.vtx, k, height).value.undo <= undo
    ensures DisconnectTxs(Faded(After(u, block.vtx, k, height), exact), block, StoredBlockUndo(undo), k, height)
            == Some(Faded(u, exact))
  {
    hide DisconnectTx, ConnectTx, UpdateCoins, Canonical, Buried, TxValid, NoOverwrite, CollisionFree, Faded,
         StoredTxUndo;
    if k > 0 {
      PrefixConnects(u, block.vtx, k - 1, k, height);
      TxsKeep(u, block, k - 1, height);
      TxsKeep(u, block, k, height);
      FreshTxid(u, block, k, height);
      var before := ConnectTxs(u, block.vtx, k - 1, height).value;
      ConnectTxUpdates(before, block.vtx[k - 1], k == 1, height);
      forall h | h in exact * before.utxo.Keys ensures h in After(u, block.vtx, k, height) {
        if h !in After(u, block.vtx, k, height) {
          if h !in u {
            var l := Origin(u, block.vtx, k - 1, height, h);
          }
          GoneForGood(u, block, k, |block.vtx|, height, h);
        }
      }
      StoredTxUndone(before.utxo, exact, block.vtx[k - 1], k - 1, height);
      StoredTxsUndone(u, exact, block, undo, k - 1, height);
      if k == 1 {
        NothingStored();
      } else {
        assert StoredBlockUndo(undo)[k - 2] == StoredTxUndo(undo[k - 2]);
      }
    }
  }

  lemma NothingStored()
    ensures StoredTxUndo([]) == []
  {
  }

  lemma StoredFits(block: Block, undo: BlockUndo)
    requires UndoFits(block, undo)
    ensures UndoFits(block, StoredBlockUndo(undo))
  {
  }

  // Disconnecting from the undo file, with any coins already faded, always is
  // clean. It restores the map before the block, but coins that were spent to
  // the last output come back as stored.
  lemma StoredDisconnect(u: Utxo, exact: set<Hash>, block: Block, height: nat)
    requires Canonical(u) && Buried(u) && 1 <= height < HEIGHT_LIMIT && CollisionFree(block.vtx)
    requires ConnectBlock(u, block, height).Some?
    ensures var c := ConnectBlock(u, block, height).value;
            DisconnectBlock(Faded(c.utxo, exact), block, StoredBlockUndo(c.undo), height)
            == Some(Faded(u, exact * c.utxo.Keys))
  {
    hide DisconnectTxs, ConnectTxs, Faded, StoredBlockUndo;
    var c, n := ConnectBlock(u, block, height).value, |block.vtx|;
    TxsKeep(u, block, n, height);
    StoredFits(block, c.undo);
    StoredTxsUndone(u, exact * c.utxo.Keys, block, c.undo, n, height);
    OnlyKeysFade(c.utxo, exact);
  }

  lemma OnlyKeysFade(u: Utxo, exact: set<Hash>)
    ensures Faded(u, exact * u.Keys) == Faded(u, exact)
  {
  }

  // Disconnecting from the undo file undoes connecting exactly if every
  // transaction that the block spends to its last output has a version that
  // storage keeps.
  lemma StoredDisconnectIsExact(u: Utxo, block: Block, height: nat)
    requires Canonical(u) && Buried(u) && 1 <= height < HEIGHT_LIMIT && CollisionFree(block.vtx)
    requires ConnectBlock(u, block, height).Some?
    ensures var c := ConnectBlock(u, block, height).value;
            DisconnectBlock(c.utxo, block, StoredBlockUndo(c.undo), height) == Some(u)
            <==> forall h :: h in u && h !in c.utxo ==> u[h].version >= 0
  {
    hide DisconnectBlock, ConnectBlock, Faded, StoredBlockUndo;
    var c := ConnectBlock(u, block, height).value;
    StoredDisconnect(u, c.utxo.Keys, block, height);
    FadedIsExact(c.utxo, c.utxo.Keys);
    FadedIsExact(u, c.utxo.Keys);
    assert c.utxo.Keys * c.utxo.Keys == c.utxo.Keys;
  }

  // ------------------------------------------------------- what gets lost

  // Coins of a transaction of version -1, and a block that spends them.
  const OLD_COINS := Coins(false, [TxOut(5, [])], 1, -1)
  const MINT := Tx(8, 1, [OutPoint(NULL_HASH, NULL_INDEX)], [TxOut(6, [])])
  const SPENDER := Tx(9, 1, [OutPoint(7, 0)], [TxOut(4, [])])
  const SPENDING := Block(10, [MINT, SPENDER], true)

  lemma SpendingIsValid()
    ensures BlockValid(SPENDING) && CollisionFree(SPENDING.vtx)
  {
    assert MINT.vout == [TxOut(6, [])] && SPENDER.vout == [TxOut(4, [])];
    assert ValueOut(MINT.vout) == 6 && ValueOut(SPENDER.vout) == 4;
    assert TxValid(MINT) && MINT.IsCoinBase();
    assert TxValid(SPENDER) && !SPENDER.IsCoinBase();
    assert SPENDING.vtx[0] == MINT && SPENDING.vtx[1] == SPENDER;
  }

  lemma NothingLeft()
    ensures OLD_COINS.IsAvailable(0) && SpendOutput(OLD_COINS, 0).vout == []
  {
    var left := OLD_COINS.vout[0 := NULL_OUT];
    assert left == [NULL_OUT] && left[..0] == [];
    assert TrimNulls(left) == TrimNulls(left[..0]);
  }

  lemma OneInput(u: Utxo, out: OutPoint)
    requires Available(u, out)
    ensures HaveInputs(u, [out]) && ValueIn(u, [out]) == OutputFor(u, out).value
    ensures SpendAll(u, [out]) == Some(Spent(SpendOne(u, out), [UndoFor(u, out)]))
  {
    hide Available, SpendOne, UndoFor, OutputFor;
    assert [out][..0] == [];
    assert ValueIn(u, []) == 0 && SpendAll(u, []) == Some(Spent(u, []));
    assert [] + [UndoFor(u, out)] == [UndoFor(u, out)];
  }

  lemma OneOutput(out: TxOut)
    ensures ValueOut([out]) == out.value
  {
    assert [out][..0] == [];
  }

  // Its coinbase, then the transaction that spends.
  lemma SpendingSteps(c: Connected)
    requires c.utxo == map[7 := OLD_COINS] && c.fees == 0
    ensures var c1 := ConnectTx(c, MINT, true, 2);
            && c1.Some? && c1.value.fees == 0
            && var c2 := ConnectTx(c1.value, SPENDER, false, 2);
               c2.Some? && c2.value.fees == 1 && 7 !in c2.value.utxo
  {
    hide SpendAll, ValueIn, ValueOut, FromTx, SpendOutput;
    var c1 := ConnectTx(c, MINT, true, 2).value;
    var out := OutPoint(7, 0);
    assert c1.utxo[7] == OLD_COINS && Available(c1.utxo, out) && OutputFor(c1.utxo, out) == TxOut(5, []);
    OneInput(c1.utxo, out);
    OneOutput(TxOut(4, []));
    NothingLeft();
    assert SpendOne(c1.utxo, out) == c1.utxo - {7};
  }

  lemma SpendingConnects()
    ensures ConnectBlock(map[7 := OLD_COINS], SPENDING, 2).Some?
    ensures 7 !in ConnectBlock(map[7 := OLD_COINS], SPENDING, 2).value.utxo
  {
    hide BlockValid, ConnectTx, ValueOut;
    SpendingIsValid();
    var u, vtx := map[7 := OLD_COINS], SPENDING.vtx;
    SpendingSteps(Connected(u, [], 0));
    assert ConnectTxs(u, vtx, 0, 2) == Some(Connected(u, [], 0));
    assert ConnectTxs(u, vtx, 1, 2) == ConnectTx(Connected(u, [], 0), MINT, true, 2);
    assert ConnectTxs(u, vtx, 2, 2) == ConnectTx(ConnectTxs(u, vtx, 1, 2).value, SPENDER, false, 2);
    assert NoOverwrite(u, vtx);
    OneOutput(TxOut(6, []));
    FirstEra(2);
  }

  lemma FirstEra(height: nat)
    requires height < SUBSIDY_HALVING_INTERVAL
    ensures GetBlockSubsidy(height) == 50 * COIN
  {
    assert Halvings(height) == 0;
  }

  // The block connects and is cleanly disconnected, but version -1 has become
  // 127.
  lemma NegativeVersionIsLost()
    ensures ConnectBlock(map[7 := OLD_COINS], SPENDING, 2).Some?
    ensures var c := ConnectBlock(map[7 := OLD_COINS], SPENDING, 2).value;
            DisconnectBlock(c.utxo, SPENDING, StoredBlockUndo(c.undo), 2)
            == Some(map[7 := OLD_COINS.(version := 127)])
  {
    hide ConnectBlock, DisconnectBlock;
    SpendingIsValid();
    SpendingConnects();
    var u := map[7 := OLD_COINS];
    var c := ConnectBlock(u, SPENDING, 2).value;
    StoredDisconnect(u, c.utxo.Keys, SPENDING, 2);
    FadedIsExact(c.utxo, c.utxo.Keys);
    assert c.utxo.Keys * c.utxo.Keys == c.utxo.Keys;
    assert Faded(u, c.utxo.Keys) == map[7 := OLD_COINS.(version := 127)];
  }
}
