// Checking, connecting and disconnecting blocks on a coins cache, step by
// step, against the ledger rules.
module Validation {
  import opened Coins
  import opened CoinsCache
  import opened Numbers
  import Ledger
  import LedgerUndo
  import Supply

  // ------------------------------------------------------------------ checks

  lemma {:induction false} ValueOutGrows(vout: seq<TxOut>, k: nat)
    requires k <= |vout| && forall out :: out in vout ==> out.value >= 0
    ensures 0 <= Ledger.ValueOut(vout[..k]) <= Ledger.ValueOut(vout)
    decreases |vout|
  {
    if k < |vout| {
      var n := |vout| - 1;
      ValueOutGrows(vout[..n], k);
      assert vout[..n][..k] == vout[..k];
      assert vout[n] in vout;
    } else {
      assert vout[..k] == vout;
      if k > 0 {
        ValueOutGrows(vout[..k - 1], k - 1);
        assert vout[..k - 1][..k - 1] == vout[..k - 1];
        assert vout[k - 1] in vout;
      }
    }
  }

  method GetValueOut(tx: Tx) returns (total: int)
    ensures total == Ledger.ValueOut(tx.vout)
  {
    total := 0;
    for i := 0 to |tx.vout|
      invariant total == Ledger.ValueOut(tx.vout[..i])
    {
      assert tx.vout[..i + 1][..i] == tx.vout[..i];
      total := total + tx.vout[i].value;
    }
    assert tx.vout[..|tx.vout|] == tx.vout;
  }

  method CheckTransaction(tx: Tx) returns (ok: bool)
    ensures ok == Ledger.TxValid(tx)
  {
    if tx.vin == [] || tx.vout == [] {
      return false;
    }
    var total := 0;
    for i := 0 to |tx.vout|
      invariant total == Ledger.ValueOut(tx.vout[..i]) && MoneyRange(total)
      invariant forall k :: 0 <= k < i ==> MoneyRange(tx.vout[k].value)
    {
      assert tx.vout[..i + 1][..i] == tx.vout[..i];
      if tx.vout[i].value < 0 || tx.vout[i].value > MAX_MONEY {
        assert tx.vout[i] in tx.vout;
        return false;
      }
      total := total + tx.vout[i].value;
      if !MoneyRange(total) {
        if forall out :: out in tx.vout ==> MoneyRange(out.value) {
          ValueOutGrows(tx.vout, i + 1);
        }
        return false;
      }
    }
    assert tx.vout[..|tx.vout|] == tx.vout;
    var seen: set<OutPoint> := {};
    for i := 0 to |tx.vin|
      invariant seen == set k | 0 <= k < i :: tx.vin[k]
      invariant Distinct(tx.vin[..i])
    {
      if tx.vin[i] in seen {
        var k :| 0 <= k < i && tx.vin[k] == tx.vin[i];
        return false;
      }
      seen := seen + {tx.vin[i]};
    }
    assert tx.vin[..|tx.vin|] == tx.vin;
    if !tx.IsCoinBase() {
      for i := 0 to |tx.vin|
        invariant forall k :: 0 <= k < i ==> !tx.vin[k].IsNull()
      {
        if tx.vin[i].IsNull() {
          assert tx.vin[i] in tx.vin;
          return false;
        }
      }
    }
    return true;
  }

  method CheckBlock(block: Ledger.Block) returns (ok: bool)
    ensures ok == Ledger.BlockValid(block)
  {
    hide Ledger.TxValid;
    if !block.checksPass || block.vtx == [] || !block.vtx[0].IsCoinBase() {
      return false;
    }
    for i := 1 to |block.vtx|
      invariant forall k :: 1 <= k < i ==> !block.vtx[k].IsCoinBase()
    {
      if block.vtx[i].IsCoinBase() {
        return false;
      }
    }
    for i := 0 to |block.vtx|
      invariant forall k :: 0 <= k < i ==> Ledger.TxValid(block.vtx[k])
    {
      var valid := CheckTransaction(block.vtx[i]);
      if !valid {
        return false;
      }
    }
    return true;
  }

  // ------------------------------------------------------------------ inputs

  method AccessOutput(view: CoinsViewCache, out: OutPoint) returns (have: bool, coins: Coins)
    requires view.Ready()
    modifies view.Repr
    ensures view.Ready() && view.View() == old(view.View()) && view.Best() == old(view.Best())
    ensures view.BaseView() == old(view.BaseView()) && view.BaseBest() == old(view.BaseBest())
    ensures have == Ledger.Available(view.View(), out)
    ensures have ==> coins == view.View()[out.hash]
  {
    have, coins := view.GetCoins(out.hash);
    have := have && coins.IsAvailable(out.n);
  }

  method HaveInputs(view: CoinsViewCache, tx: Tx) returns (have: bool)
    requires view.Ready()
    modifies view.Repr
    ensures view.Ready() && view.View() == old(view.View()) && view.Best() == old(view.Best())
    ensures view.BaseView() == old(view.BaseView()) && view.BaseBest() == old(view.BaseBest())
    ensures have == (tx.IsCoinBase() || Ledger.HaveInputs(view.View(), tx.vin))
  {
    hide CoinsViewCache.Valid, CoinsViewCache.View, CoinsViewCache.Best, CoinsViewCache.BaseView,
         CoinsViewCache.BaseBest, CoinsViewCache.Layered;
    if !tx.IsCoinBase() {
      for i := 0 to |tx.vin|
        invariant view.Ready() && view.View() == old(view.View()) && view.Best() == old(view.Best())
        invariant view.BaseView() == old(view.BaseView()) && view.BaseBest() == old(view.BaseBest())
        invariant Ledger.HaveInputs(view.View(), tx.vin[..i])
      {
        var ok, _ := AccessOutput(view, tx.vin[i]);
        if !ok {
          return false;
        }
      }
      assert tx.vin[..|tx.vin|] == tx.vin;
    }
    return true;
  }

  method GetValueIn(view: CoinsViewCache, tx: Tx) returns (total: int)
    requires view.Ready() && (tx.IsCoinBase() || Ledger.HaveInputs(view.View(), tx.vin))
    modifies view.Repr
    ensures view.Ready() && view.View() == old(view.View()) && view.Best() == old(view.Best())
    ensures view.BaseView() == old(view.BaseView()) && view.BaseBest() == old(view.BaseBest())
    ensures total == if tx.IsCoinBase() then 0 else Ledger.ValueIn(view.View(), tx.vin)
  {
    hide CoinsViewCache.Valid, CoinsViewCache.View, CoinsViewCache.Best, CoinsViewCache.BaseView,
         CoinsViewCache.BaseBest, CoinsViewCache.Layered;
    total := 0;
    if !tx.IsCoinBase() {
      for i := 0 to |tx.vin|
        invariant view.Ready() && view.View() == old(view.View()) && view.Best() == old(view.Best())
        invariant view.BaseView() == old(view.BaseView()) && view.BaseBest() == old(view.BaseBest())
        invariant total == Ledger.ValueIn(view.View(), tx.vin[..i])
      {
        var have, coins := AccessOutput(view, tx.vin[i]);
        assert tx.vin[..i + 1][..i] == tx.vin[..i];
        total := total + coins.vout[tx.vin[i].n].value;
      }
      assert tx.vin[..|tx.vin|] == tx.vin;
    }
  }

  lemma {:induction false} ValueInGrows(u: Utxo, vin: seq<OutPoint>, k: nat)
    requires k <= |vin| && Ledger.HaveInputs(u, vin)
    requires forall i :: 0 <= i < |vin| ==> Ledger.OutputFor(u, vin[i]).value >= 0
    ensures Ledger.ValueIn(u, vin[..k]) <= Ledger.ValueIn(u, vin)
    decreases |vin|
  {
    if k < |vin| {
      var n := |vin| - 1;
      ValueInGrows(u, vin[..n], k);
      assert vin[..n][..k] == vin[..k];
    } else {
      assert vin[..k] == vin;
    }
  }

  // Whether input i alone is acceptable.
  predicate InputOk(u: Utxo, out: OutPoint, spendHeight: int)
    requires Ledger.Available(u, out)
  {
    && (u[out.hash].coinbase ==> spendHeight - u[out.hash].height >= Ledger.COINBASE_MATURITY)
    && MoneyRange(Ledger.OutputFor(u, out).value)
  }

  method CheckInputs(view: CoinsViewCache, tx: Tx, spendHeight: int) returns (ok: bool)
    requires view.Ready() && !tx.IsCoinBase()
    modifies view.Repr
    ensures view.Ready() && view.View() == old(view.View()) && view.Best() == old(view.Best())
    ensures view.BaseView() == old(view.BaseView()) && view.BaseBest() == old(view.BaseBest())
    ensures ok == Ledger.InputsOk(view.View(), tx, spendHeight)
  {
    hide CoinsViewCache.Valid, CoinsViewCache.View, CoinsViewCache.Best, CoinsViewCache.BaseView,
         CoinsViewCache.BaseBest, CoinsViewCache.Layered;
    var have := HaveInputs(view, tx);
    if !have {
      return false;
    }
    var valueIn := 0;
    for i := 0 to |tx.vin|
      invariant view.Ready() && view.View() == old(view.View()) && view.Best() == old(view.Best())
      invariant view.BaseView() == old(view.BaseView()) && view.BaseBest() == old(view.BaseBest())
      invariant valueIn == Ledger.ValueIn(view.View(), tx.vin[..i]) && MoneyRange(valueIn)
      invariant forall k :: 0 <= k < i ==> InputOk(view.View(), tx.vin[k], spendHeight)
    {
      var _, coins := AccessOutput(view, tx.vin[i]);
      if coins.coinbase && spendHeight - coins.height < Ledger.COINBASE_MATURITY {
        assert !InputOk(view.View(), tx.vin[i], spendHeight);
        return false;
      }
      assert tx.vin[..i + 1][..i] == tx.vin[..i];
      var value := coins.vout[tx.vin[i].n].value;
      valueIn := valueIn + value;
      if !MoneyRange(value) || !MoneyRange(valueIn) {
        if Ledger.InputsOk(view.View(), tx, spendHeight) {
          ValueInGrows(view.View(), tx.vin, i + 1);
        }
        return false;
      }
    }
    assert tx.vin[..|tx.vin|] == tx.vin;
    var valueOut := GetValueOut(tx);
    if valueIn < valueOut {
      return false;
    }
    var fee := valueIn - valueOut;
    return fee >= 0;
  }

  // ------------------------------------------------ connecting transactions

  lemma {:induction false} SpendPrefix(u: Utxo, vin: seq<OutPoint>, k: nat)
    requires k <= |vin| && Ledger.SpendAll(u, vin).Some?
    ensures Ledger.SpendAll(u, vin[..k]).Some?
    decreases |vin|
  {
    if k < |vin| {
      var n := |vin| - 1;
      SpendPrefix(u, vin[..n], k);
      assert vin[..n][..k] == vin[..k];
    } else {
      assert vin[..k] == vin;
    }
  }

  lemma TrimTwice(vout: seq<TxOut>)
    ensures TrimNulls(TrimNulls(vout)) == TrimNulls(vout)
  {
    TrimNullsCuts(vout);
  }

  // Spends one input and records how to undo it.
  method SpendInput(view: CoinsViewCache, out: OutPoint) returns (undo: Ledger.TxInUndo)
    requires view.Ready() && Ledger.Available(view.View(), out)
    modifies view.Repr
    ensures view.Ready() && view.Best() == old(view.Best())
    ensures view.BaseView() == old(view.BaseView()) && view.BaseBest() == old(view.BaseBest())
    ensures view.View() == Ledger.SpendOne(old(view.View()), out)
    ensures undo == Ledger.UndoFor(old(view.View()), out)
  {
    hide CoinsViewCache.Valid, CoinsViewCache.View, CoinsViewCache.Best, CoinsViewCache.BaseView,
         CoinsViewCache.BaseBest, CoinsViewCache.Layered;
    var coins, usage := view.ModifyCoins(out.hash);
    if out.n >= |coins.vout| || coins.vout[out.n].IsNull() {
      assert false;
    }
    undo := Ledger.TxInUndo(coins.vout[out.n], false, 0, 0);
    var _, spent := Spend(coins, out.n);
    if |spent.vout| == 0 {
      undo := undo.(height := spent.height, coinbase := spent.coinbase, version := spent.version);
    }
    TrimNullsCuts(coins.vout[out.n := NULL_OUT]);
    TrimTwice(coins.vout[out.n := NULL_OUT]);
    view.CloseModifier(out.hash, spent, usage);
  }

  method UpdateCoins(view: CoinsViewCache, tx: Tx, height: int) returns (undo: Ledger.TxUndo)
    requires view.Ready() && Ledger.UpdateCoins(view.View(), tx, height).Some?
    requires NormalNulls(Spendable(tx.vout))
    modifies view.Repr
    ensures view.Ready() && view.Best() == old(view.Best())
    ensures view.BaseView() == old(view.BaseView()) && view.BaseBest() == old(view.BaseBest())
    ensures Ledger.UpdateCoins(old(view.View()), tx, height) == Some(Ledger.Spent(view.View(), undo))
  {
    hide CoinsViewCache.Valid, CoinsViewCache.View, CoinsViewCache.Best, CoinsViewCache.BaseView,
         CoinsViewCache.BaseBest, CoinsViewCache.Layered, Ledger.SpendOne, Ledger.UndoFor, FromTx;
    undo := [];
    if !tx.IsCoinBase() {
      for i := 0 to |tx.vin|
        invariant view.Ready() && view.Best() == old(view.Best())
        invariant view.BaseView() == old(view.BaseView()) && view.BaseBest() == old(view.BaseBest())
        invariant Ledger.SpendAll(old(view.View()), tx.vin[..i]) == Some(Ledger.Spent(view.View(), undo))
      {
        SpendPrefix(old(view.View()), tx.vin, i + 1);
        assert tx.vin[..i + 1][..i] == tx.vin[..i];
        var inUndo := SpendInput(view, tx.vin[i]);
        undo := undo + [inUndo];
      }
      assert tx.vin[..|tx.vin|] == tx.vin;
    }
    AddOutputs(view, tx, height);
  }

  method AddOutputs(view: CoinsViewCache, tx: Tx, height: int)
    requires view.Ready() && NormalNulls(Spendable(tx.vout))
    modifies view.Repr
    ensures view.Ready() && view.Best() == old(view.Best())
    ensures view.BaseView() == old(view.BaseView()) && view.BaseBest() == old(view.BaseBest())
    ensures view.View() == Put(old(view.View()), tx.hash, FromTx(tx, height))
  {
    hide CoinsViewCache.Valid, CoinsViewCache.View, CoinsViewCache.Best, CoinsViewCache.BaseView,
         CoinsViewCache.BaseBest, CoinsViewCache.Layered, TrimNulls, Spendable, Put;
    var _, usage := view.ModifyCoins(tx.hash);
    var vout := ClearUnspendable(tx.vout);
    TidyTrim(Spendable(tx.vout));
    TrimTwice(Spendable(tx.vout));
    view.CloseModifier(tx.hash, Coins(tx.IsCoinBase(), vout, height, tx.version), usage);
  }

  // ---------------------------------------------- disconnecting transactions

  // Puts one spent output back; false when the record does not fit.
  method ApplyTxInUndo(undo: Ledger.TxInUndo, view: CoinsViewCache, out: OutPoint) returns (clean: bool)
    requires view.Ready() && !undo.txout.IsNull()
    modifies view.Repr
    ensures view.Ready() && view.Best() == old(view.Best())
    ensures view.BaseView() == old(view.BaseView()) && view.BaseBest() == old(view.BaseBest())
    ensures clean == Ledger.ApplyTxInUndo(old(view.View()), undo, out).Some?
    ensures clean ==> view.View() == Ledger.ApplyTxInUndo(old(view.View()), undo, out).value
  {
    hide CoinsViewCache.Valid, CoinsViewCache.View, CoinsViewCache.Best, CoinsViewCache.BaseView,
         CoinsViewCache.BaseBest, CoinsViewCache.Layered;
    clean := true;
    var coins, usage := view.ModifyCoins(out.hash);
    TidyMeansTrimmed(coins.vout);
    view.ViewIsCanonical();
    if undo.height != 0 {
      if !coins.IsPruned() {
        clean := false;
      }
      coins := Coins(undo.coinbase, [], undo.height, undo.version);
    } else {
      if coins.IsPruned() {
        clean := false;
      }
    }
    if coins.IsAvailable(out.n) {
      clean := false;
    }
    var vout := coins.vout;
    if |vout| < out.n + 1 {
      vout := vout + seq(out.n + 1 - |vout|, _ => NULL_OUT);
    }
    vout := vout[out.n := undo.txout];
    assert vout == Ledger.RestoreOutput(coins.vout, out.n, undo.txout);
    view.CloseModifier(out.hash, coins.(vout := vout), usage);
  }

  predicate NoNulls(undo: Ledger.TxUndo) {
    forall i :: 0 <= i < |undo| ==> !undo[i].txout.IsNull()
  }

  method RestoreInputs(view: CoinsViewCache, tx: Tx, undo: Ledger.TxUndo) returns (clean: bool)
    requires view.Ready() && |undo| == |tx.vin| && NoNulls(undo)
    modifies view.Repr
    ensures view.Ready() && view.Best() == old(view.Best())
    ensures view.BaseView() == old(view.BaseView()) && view.BaseBest() == old(view.BaseBest())
    ensures clean == Ledger.UnspendAll(old(view.View()), undo, tx.vin).Some?
    ensures clean ==> view.View() == Ledger.UnspendAll(old(view.View()), undo, tx.vin).value
  {
    hide CoinsViewCache.Valid, CoinsViewCache.View, CoinsViewCache.Best, CoinsViewCache.BaseView,
         CoinsViewCache.BaseBest, CoinsViewCache.Layered, Ledger.ApplyTxInUndo;
    clean := true;
    ghost var target := Ledger.UnspendAll(view.View(), undo, tx.vin);
    var j := |tx.vin|;
    assert undo[..j] == undo && tx.vin[..j] == tx.vin;
    while j > 0
      invariant 0 <= j <= |tx.vin|
      invariant view.Ready() && view.Best() == old(view.Best())
      invariant view.BaseView() == old(view.BaseView()) && view.BaseBest() == old(view.BaseBest())
      invariant if clean then Ledger.UnspendAll(view.View(), undo[..j], tx.vin[..j]) == target else target == None
    {
      j := j - 1;
      assert undo[..j + 1][..j] == undo[..j] && tx.vin[..j + 1][..j] == tx.vin[..j];
      var ok := ApplyTxInUndo(undo[j], view, tx.vin[j]);
      if !ok {
        clean := false;
      }
    }
  }

  // Removes the outputs of a transaction; false when they are not as made.
  method RemoveOutputs(view: CoinsViewCache, tx: Tx, height: int) returns (matches: bool)
    requires view.Ready()
    modifies view.Repr
    ensures view.Ready() && view.Best() == old(view.Best())
    ensures view.BaseView() == old(view.BaseView()) && view.BaseBest() == old(view.BaseBest())
    ensures matches == Ledger.OutputsMatch(old(view.View()), tx, height)
    ensures view.View() == old(view.View()) - {tx.hash}
  {
    hide CoinsViewCache.Valid, CoinsViewCache.View, CoinsViewCache.Best, CoinsViewCache.BaseView,
         CoinsViewCache.BaseBest, CoinsViewCache.Layered, Spendable, TrimNulls;
    var coins, usage := view.ModifyCoins(tx.hash);
    var vout := ClearUnspendable(coins.vout);
    var outs := coins.(vout := vout);
    var made := ClearUnspendable(tx.vout);
    var outsBlock := Coins(tx.IsCoinBase(), made, height, tx.version);
    if outsBlock.version < 0 {
      outs := outs.(version := outsBlock.version);
    }
    matches := SameCoins(outs, outsBlock);
    NothingSpendable();
    view.CloseModifier(tx.hash, NO_COINS, usage);
  }

  lemma NothingSpendable()
    ensures TrimNulls([]) == [] && TrimNulls(Spendable([])) == []
  {
  }

  method DisconnectBlock(view: CoinsViewCache, block: Ledger.Block, undo: Ledger.BlockUndo, height: int, prevHash: Hash)
    returns (clean: bool)
    requires view.Ready() && forall i :: 0 <= i < |undo| ==> NoNulls(undo[i])
    modifies view.Repr
    ensures view.Ready()
    ensures view.BaseView() == old(view.BaseView()) && view.BaseBest() == old(view.BaseBest())
    ensures clean == Ledger.DisconnectBlock(old(view.View()), block, undo, height).Some?
    ensures clean ==> view.View() == Ledger.DisconnectBlock(old(view.View()), block, undo, height).value
    ensures clean ==> view.hashBlock == prevHash
  {
    hide CoinsViewCache.Valid, CoinsViewCache.View, CoinsViewCache.Best, CoinsViewCache.BaseView,
         CoinsViewCache.BaseBest, CoinsViewCache.Layered, Ledger.OutputsMatch, Ledger.UnspendAll;
    if |undo| + 1 != |block.vtx| {
      return false;
    }
    clean := true;
    var i := |block.vtx|;
    while i > 0
      invariant 0 <= i <= |block.vtx|
      invariant view.Ready()
      invariant view.BaseView() == old(view.BaseView()) && view.BaseBest() == old(view.BaseBest())
      invariant forall k :: i <= k < |block.vtx| && k > 0 ==> |undo[k - 1]| == |block.vtx[k].vin|
      invariant Ledger.UndoFits(block, undo) ==>
                  var target := Ledger.DisconnectTxs(old(view.View()), block, undo, |block.vtx|, height);
                  if clean then Ledger.DisconnectTxs(view.View(), block, undo, i, height) == target else target == None
    {
      i := i - 1;
      var tx := block.vtx[i];
      var ok := RemoveOutputs(view, tx, height);
      if !ok {
        clean := false;
      }
      if i > 0 {
        if |undo[i - 1]| != |tx.vin| {
          return false;
        }
        ok := RestoreInputs(view, tx, undo[i - 1]);
        if !ok {
          clean := false;
        }
      }
    }
    assert Ledger.UndoFits(block, undo);
    view.SetBestBlock(prevHash);
  }

  // -------------------------------------------------------- connecting blocks

  lemma ValidOutsNormal(tx: Tx)
    requires Ledger.TxValid(tx)
    ensures NormalNulls(Spendable(tx.vout))
  {
    forall i | 0 <= i < |tx.vout| && Spendable(tx.vout)[i].IsNull() ensures Spendable(tx.vout)[i] == NULL_OUT {
      assert tx.vout[i] in tx.vout;
    }
  }

  // No transaction of the block may overwrite unspent outputs.
  method CheckOverwrites(view: CoinsViewCache, vtx: seq<Tx>) returns (ok: bool)
    requires view.Ready()
    modifies view.Repr
    ensures view.Ready() && view.View() == old(view.View()) && view.Best() == old(view.Best())
    ensures view.BaseView() == old(view.BaseView()) && view.BaseBest() == old(view.BaseBest())
    ensures ok == Ledger.NoOverwrite(view.View(), vtx)
  {
    hide CoinsViewCache.Valid, CoinsViewCache.View, CoinsViewCache.Best, CoinsViewCache.BaseView,
         CoinsViewCache.BaseBest, CoinsViewCache.Layered;
    for i := 0 to |vtx|
      invariant view.Ready() && view.View() == old(view.View()) && view.Best() == old(view.Best())
      invariant view.BaseView() == old(view.BaseView()) && view.BaseBest() == old(view.BaseBest())
      invariant forall k :: 0 <= k < i ==> vtx[k].hash !in view.View()
    {
      var have, coins := view.GetCoins(vtx[i].hash);
      if have {
        TidyMeansTrimmed(coins.vout);
        if !coins.IsPruned() {
          return false;
        }
      }
    }
    return true;
  }

  // Checks one transaction against the coins, then spends and adds.
  method ConnectTx(view: CoinsViewCache, tx: Tx, first: bool, height: int, ghost before: Ledger.Connected)
    returns (ok: bool, undo: Ledger.TxUndo, fee: int)
    requires view.Ready() && Ledger.TxValid(tx) && before.utxo == view.View()
    modifies view.Repr
    ensures view.Ready() && view.Best() == old(view.Best())
    ensures view.BaseView() == old(view.BaseView()) && view.BaseBest() == old(view.BaseBest())
    ensures ok == Ledger.ConnectTx(before, tx, first, height).Some?
    ensures ok ==> Ledger.ConnectTx(before, tx, first, height)
                   == Some(Ledger.Connected(view.View(),
                                            if first then before.undo else before.undo + [undo],
                                            before.fees + fee))
  {
    hide CoinsViewCache.Valid, CoinsViewCache.View, CoinsViewCache.Best, CoinsViewCache.BaseView,
         CoinsViewCache.BaseBest, CoinsViewCache.Layered, Ledger.UpdateCoins;
    undo, fee := [], 0;
    if !tx.IsCoinBase() {
      ok := HaveInputs(view, tx);
      if !ok {
        return;
      }
      var valueIn := GetValueIn(view, tx);
      var valueOut := GetValueOut(tx);
      fee := valueIn - valueOut;
      ok := CheckInputs(view, tx, height);
      if !ok {
        return;
      }
    }
    CanUpdate(view.View(), tx, height);
    ValidOutsNormal(tx);
    undo := UpdateCoins(view, tx, height);
    ok := true;
  }

  // The assertion in UpdateCoins cannot fail after the checks.
  lemma CanUpdate(u: Utxo, tx: Tx, height: int)
    requires Ledger.TxValid(tx) && (!tx.IsCoinBase() ==> Ledger.HaveInputs(u, tx.vin))
    ensures Ledger.UpdateCoins(u, tx, height).Some?
  {
    if !tx.IsCoinBase() {
      Supply.SpendAllTakesValue(u, tx.vin);
    }
  }

  method ConnectBlock(view: CoinsViewCache, block: Ledger.Block, height: nat) returns (ok: bool, undo: Ledger.BlockUndo)
    requires view.Ready() && height < Ledger.HEIGHT_LIMIT
    modifies view.Repr
    ensures view.Ready()
    ensures view.BaseView() == old(view.BaseView()) && view.BaseBest() == old(view.BaseBest())
    ensures ok == Ledger.ConnectBlock(old(view.View()), block, height).Some?
    ensures ok ==> var c := Ledger.ConnectBlock(old(view.View()), block, height).value;
                   view.View() == c.utxo && undo == c.undo && view.hashBlock == block.hash
  {
    hide CoinsViewCache.Valid, CoinsViewCache.View, CoinsViewCache.Best, CoinsViewCache.BaseView,
         CoinsViewCache.BaseBest, CoinsViewCache.Layered, Ledger.ConnectTx, Ledger.GetBlockSubsidy;
    undo := [];
    ok := CheckBlock(block);
    if !ok {
      return;
    }
    ok := CheckOverwrites(view, block.vtx);
    if !ok {
      return;
    }
    var fees := 0;
    for i := 0 to |block.vtx|
      invariant view.Ready()
      invariant view.BaseView() == old(view.BaseView()) && view.BaseBest() == old(view.BaseBest())
      invariant Ledger.ConnectTxs(old(view.View()), block.vtx, i, height)
                == Some(Ledger.Connected(view.View(), undo, fees))
    {
      ghost var before := Ledger.Connected(view.View(), undo, fees);
      var txOk, txUndo, fee := ConnectTx(view, block.vtx[i], i == 0, height, before);
      assert Ledger.ConnectTxs(old(view.View()), block.vtx, i + 1, height)
          == Ledger.ConnectTx(before, block.vtx[i], i == 0, height);
      if !txOk {
        if Ledger.ConnectTxs(old(view.View()), block.vtx, |block.vtx|, height).Some? {
          LedgerUndo.PrefixConnects(old(view.View()), block.vtx, i + 1, |block.vtx|, height);
        }
        return false, undo;
      }
      if i > 0 {
        undo := undo + [txUndo];
      }
      fees := fees + fee;
    }
    var claimed := GetValueOut(block.vtx[0]);
    if claimed > fees + Ledger.GetBlockSubsidy(height) {
      return false, undo;
    }
    view.SetBestBlock(block.hash);
    return true, undo;
  }

  // Undo records hold outputs that were there.
  lemma {:induction false} SpentNoNulls(u: Utxo, vin: seq<OutPoint>)
    requires Ledger.SpendAll(u, vin).Some?
    ensures NoNulls(Ledger.SpendAll(u, vin).value.undo)
  {
    if vin != [] {
      SpentNoNulls(u, vin[..|vin| - 1]);
    }
  }

  lemma NothingSpent()
    ensures NoNulls([])
  {
  }

  lemma {:induction false} UndoNoNulls(u: Utxo, vtx: seq<Tx>, k: nat, height: int)
    requires k <= |vtx| && Ledger.ConnectTxs(u, vtx, k, height).Some?
    ensures forall txUndo :: txUndo in Ledger.ConnectTxs(u, vtx, k, height).value.undo ==> NoNulls(txUndo)
  {
    hide Ledger.ConnectTx, NoNulls;
    if k > 0 {
      LedgerUndo.PrefixConnects(u, vtx, k - 1, k, height);
      UndoNoNulls(u, vtx, k - 1, height);
      LedgerUndo.ConnectTxUpdates(Ledger.ConnectTxs(u, vtx, k - 1, height).value, vtx[k - 1], k == 1, height);
      if !vtx[k - 1].IsCoinBase() {
        SpentNoNulls(LedgerUndo.After(u, vtx, k - 1, height), vtx[k - 1].vin);
      } else {
        NothingSpent();
      }
    }
  }

  lemma StoredNoNulls(undo: Ledger.BlockUndo)
    requires forall txUndo :: txUndo in undo ==> NoNulls(txUndo)
    ensures var stored := Ledger.StoredBlockUndo(undo);
            forall i :: 0 <= i < |stored| ==> NoNulls(stored[i])
  {
    var stored := Ledger.StoredBlockUndo(undo);
    forall i | 0 <= i < |stored| ensures NoNulls(stored[i]) {
      assert undo[i] in undo;
    }
  }
}
