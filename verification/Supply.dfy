// Value is conserved by blocks, up to the subsidy.
module Supply {
  import opened Coins
  import opened Numbers
  import opened Ledger
  import opened LedgerUndo

  // The value of the outputs that are still unspent.
  function UnspentValue(vout: seq<TxOut>): int {
    if vout == [] then 0
    else
      var last := vout[|vout| - 1];
      UnspentValue(vout[..|vout| - 1]) + if last.IsNull() then 0 else last.value
  }

  ghost function Total(u: Utxo): int {
    if u == map[] then 0 else
      var h :| h in u;
      UnspentValue(u[h].vout) + Total(u - {h})
  }

  lemma {:induction false} TotalSplit(u: Utxo, h: Hash)
    requires h in u
    ensures Total(u) == UnspentValue(u[h].vout) + Total(u - {h})
    decreases |u|
  {
    var k :| k in u && Total(u) == UnspentValue(u[k].vout) + Total(u - {k});
    if k != h {
      TotalSplit(u - {k}, h);
      TotalSplit(u - {h}, k);
      assert u - {k} - {h} == u - {h} - {k};
    }
  }

  lemma TotalPut(u: Utxo, h: Hash, c: Coins)
    ensures Total(Put(u, h, c)) == Total(u - {h}) + UnspentValue(c.vout)
  {
    if c.vout != [] {
      TotalSplit(u[h := c], h);
      assert u[h := c] - {h} == u - {h};
    }
  }

  // Storage loses no value.
  lemma {:induction false} FadedTotal(u: Utxo, exact: set<Hash>)
    ensures Total(Faded(u, exact)) == Total(u)
    decreases |u|
  {
    if u == map[] {
      assert Faded(u, exact) == map[];
    } else {
      var h :| h in u;
      TotalSplit(u, h);
      TotalSplit(Faded(u, exact), h);
      FadedTotal(u - {h}, exact);
      assert Faded(u, exact) - {h} == Faded(u - {h}, exact);
    }
  }

  lemma {:induction false} TrimKeepsValue(vout: seq<TxOut>)
    ensures UnspentValue(TrimNulls(vout)) == UnspentValue(vout)
  {
    if |vout| > 0 && vout[|vout| - 1].IsNull() {
      TrimKeepsValue(vout[..|vout| - 1]);
    }
  }

  lemma {:induction false} NullingTakesValue(vout: seq<TxOut>, n: nat)
    requires n < |vout| && !vout[n].IsNull()
    ensures UnspentValue(vout[n := NULL_OUT]) == UnspentValue(vout) - vout[n].value
  {
    var k := |vout| - 1;
    if n < k {
      NullingTakesValue(vout[..k], n);
      assert vout[n := NULL_OUT][..k] == vout[..k][n := NULL_OUT];
    } else {
      assert vout[n := NULL_OUT][..k] == vout[..k];
    }
  }

  lemma SpendOneTakesValue(u: Utxo, out: OutPoint)
    requires Available(u, out)
    ensures Total(SpendOne(u, out)) == Total(u) - OutputFor(u, out).value
  {
    var c := u[out.hash];
    TotalSplit(u, out.hash);
    TotalPut(u, out.hash, SpendOutput(c, out.n));
    TrimKeepsValue(c.vout[out.n := NULL_OUT]);
    NullingTakesValue(c.vout, out.n);
  }

  // Spending one output leaves every other where it was.
  lemma SpendOneKeepsOthers(u: Utxo, out: OutPoint, other: OutPoint)
    requires Available(u, out) && Available(u, other) && other != out
    ensures Available(SpendOne(u, out), other)
    ensures OutputFor(SpendOne(u, out), other) == OutputFor(u, other)
  {
    hide TrimNulls;
    if other.hash == out.hash {
      var nulled := u[out.hash].vout[out.n := NULL_OUT];
      var left := TrimNulls(nulled);
      TrimKeeps(left, nulled);
      assert !nulled[other.n].IsNull();
      assert left[other.n] == nulled[..|left|][other.n];
      assert SpendOne(u, out)[out.hash].vout == left;
    }
  }

  // The available outputs of u that are not in vin are in v as in u.
  ghost predicate OthersKept(u: Utxo, v: Utxo, vin: seq<OutPoint>) {
    forall other :: Available(u, other) && other !in vin ==>
      Available(v, other) && OutputFor(v, other) == OutputFor(u, other)
  }

  lemma OneMoreSpent(u: Utxo, v: Utxo, vin: seq<OutPoint>)
    requires vin != [] && OthersKept(u, v, vin[..|vin| - 1]) && Available(v, vin[|vin| - 1])
    ensures OthersKept(u, SpendOne(v, vin[|vin| - 1]), vin)
  {
    var out := vin[|vin| - 1];
    forall other | Available(u, other) && other !in vin
      ensures Available(SpendOne(v, out), other) && OutputFor(SpendOne(v, out), other) == OutputFor(u, other)
    {
      assert out in vin && other !in vin[..|vin| - 1];
      SpendOneKeepsOthers(v, out, other);
    }
  }

  // Available, distinct inputs can all be spent, and take their value out.
  lemma {:induction false} SpendAllTakesValue(u: Utxo, vin: seq<OutPoint>)
    requires HaveInputs(u, vin) && Distinct(vin)
    ensures SpendAll(u, vin).Some?
    ensures Total(SpendAll(u, vin).value.utxo) == Total(u) - ValueIn(u, vin)
    ensures OthersKept(u, SpendAll(u, vin).value.utxo, vin)
  {
    hide SpendOne, UndoFor, Available, OutputFor, Total;
    if vin == [] {
      assert OthersKept(u, u, vin);
    } else {
      var k := |vin| - 1;
      SpendAllTakesValue(u, vin[..k]);
      var before := SpendAll(u, vin[..k]).value.utxo;
      assert vin[k] !in vin[..k] && Available(u, vin[k]);
      assert Available(before, vin[k]) && OutputFor(before, vin[k]) == OutputFor(u, vin[k]);
      SpendOneTakesValue(before, vin[k]);
      OneMoreSpent(u, before, vin);
      assert SpendAll(u, vin).value.utxo == SpendOne(before, vin[k]);
    }
  }

  // The value of a transaction's provably unspendable outputs.
  function Burnt(vout: seq<TxOut>): int {
    if vout == [] then 0
    else
      var last := vout[|vout| - 1];
      Burnt(vout[..|vout| - 1]) + if IsUnspendable(last.script) then last.value else 0
  }

  lemma {:induction false} SpendableValue(vout: seq<TxOut>)
    requires forall out :: out in vout ==> out.value >= 0
    ensures UnspentValue(Spendable(vout)) + Burnt(vout) == ValueOut(vout) && Burnt(vout) >= 0
  {
    if vout != [] {
      SpendableValue(vout[..|vout| - 1]);
    }
  }

  lemma FromTxValue(tx: Tx, height: int)
    requires TxValid(tx)
    ensures UnspentValue(FromTx(tx, height).vout) + Burnt(tx.vout) == ValueOut(tx.vout) && Burnt(tx.vout) >= 0
  {
    SpendableValue(tx.vout);
    TrimKeepsValue(Spendable(tx.vout));
  }

  function BurntBy(vtx: seq<Tx>, k: nat): int
    requires k <= |vtx|
  {
    if k == 0 then 0 else BurntBy(vtx, k - 1) + Burnt(vtx[k - 1].vout)
  }

  // One transaction: what goes in comes out, as outputs, fee or burnt value.
  lemma TxConserves(c: Connected, tx: Tx, first: bool, height: int)
    requires TxValid(tx) && tx.hash !in c.utxo
    requires ConnectTx(c, tx, first, height).Some?
    ensures var r := ConnectTx(c, tx, first, height).value;
            && Burnt(tx.vout) >= 0 && r.fees >= c.fees
            && Total(r.utxo) + Burnt(tx.vout) + r.fees
               == Total(c.utxo) + c.fees + if tx.IsCoinBase() then ValueOut(tx.vout) else 0
  {
    hide Put, FromTx;
    FromTxValue(tx, height);
    var spent := c.utxo;
    if !tx.IsCoinBase() {
      SpendAllTakesValue(c.utxo, tx.vin);
      SpendAddsNothing(c.utxo, tx.vin);
      spent := SpendAll(c.utxo, tx.vin).value.utxo;
    }
    TotalPut(spent, tx.hash, FromTx(tx, height));
    assert spent - {tx.hash} == spent;
  }

  lemma {:induction false} TxsConserve(u: Utxo, block: Block, k: nat, height: nat)
    requires k <= |block.vtx| && ConnectTxs(u, block.vtx, k, height).Some?
    requires BlockValid(block) && NoOverwrite(u, block.vtx) && CollisionFree(block.vtx)
    ensures var c := ConnectTxs(u, block.vtx, k, height).value;
            && BurntBy(block.vtx, k) >= 0 && c.fees >= 0
            && Total(c.utxo) + BurntBy(block.vtx, k) + c.fees
               == Total(u) + if k == 0 then 0 else ValueOut(block.vtx[0].vout)
  {
    hide ConnectTx, TxValid;
    if k > 0 {
      PrefixConnects(u, block.vtx, k - 1, k, height);
      TxsConserve(u, block, k - 1, height);
      FreshTxid(u, block, k, height);
      TxConserves(ConnectTxs(u, block.vtx, k - 1, height).value, block.vtx[k - 1], k == 1, height);
    }
  }

  // Connecting a block conserves value exactly: the unspent total grows by
  // what the coinbase claims, less the fees and what is burnt. So it grows by
  // the subsidy at most, and the fees fit a 64-bit amount.
  lemma BlockConserves(u: Utxo, block: Block, height: nat)
    requires height < HEIGHT_LIMIT && CollisionFree(block.vtx)
    requires ConnectBlock(u, block, height).Some?
    ensures var c := ConnectBlock(u, block, height).value;
            && Total(c.utxo) == Total(u) + ValueOut(block.vtx[0].vout) - c.fees - BurntBy(block.vtx, |block.vtx|)
            && BurntBy(block.vtx, |block.vtx|) >= 0 && c.fees >= 0
            && Total(c.utxo) <= Total(u) + GetBlockSubsidy(height)
  {
    hide ConnectTxs, TxValid;
    TxsConserve(u, block, |block.vtx|, height);
  }

  // ------------------------------------------------------- the issue schedule

  // A quotient halved is a quotient by twice as much.
  lemma HalfQuotient(a: nat, d: nat)
    requires d > 0
    ensures a / d / 2 == a / (2 * d)
  {
    var q := a / d / 2;
    Floor(a, d, 0);
    Floor(a / d, 2, 0);
    MulMonotone(q * 2, a / d, d);
    MulMonotone(a / d + 1, q * 2 + 2, d);
    Distribute(a / d, 1, d);
    Regroup(q, 2, d);
    Distribute(q * 2, 2, d);
    Floor(a, 2 * d, q);
  }

  lemma {:induction false} HalvedIs(amount: nat, times: nat)
    ensures Halved(amount, times) == amount / Pow2(times)
  {
    if times > 0 {
      HalvedIs(amount, times - 1);
      HalfQuotient(amount, Pow2(times - 1));
    }
  }

  // The schedule: 50 coins, divided by two to the number of 840000-block periods
  // that have passed.
  lemma SubsidySchedule(height: nat)
    requires height < 64 * 840_000
    ensures GetBlockSubsidy(height) == 50 * 100_000_000 / Pow2(height / 840_000)
  {
    HalvedIs(50 * COIN, height / 840_000);
  }

  // What the subsidies of the heights below n come to.
  function Issued(n: nat): nat
    requires n <= HEIGHT_LIMIT
  {
    if n == 0 then 0 else Issued(n - 1) + GetBlockSubsidy(n - 1)
  }

  function IssuedEras(n: nat): nat {
    if n == 0 then 0 else IssuedEras(n - 1) + SUBSIDY_HALVING_INTERVAL * Halved(50 * COIN, n - 1)
  }

  lemma SubsidyInEra(n: nat, extra: nat)
    requires extra < SUBSIDY_HALVING_INTERVAL && n * SUBSIDY_HALVING_INTERVAL + extra < HEIGHT_LIMIT
    ensures GetBlockSubsidy(n * SUBSIDY_HALVING_INTERVAL + extra) == Halved(50 * COIN, n)
  {
    assert (n * SUBSIDY_HALVING_INTERVAL + extra) / SUBSIDY_HALVING_INTERVAL == n;
  }

  // A partial era on top of n full ones.
  lemma {:induction false} IssuedByEra(n: nat, extra: nat)
    requires n * SUBSIDY_HALVING_INTERVAL + extra <= HEIGHT_LIMIT && extra <= SUBSIDY_HALVING_INTERVAL
    ensures Issued(n * SUBSIDY_HALVING_INTERVAL + extra) == IssuedEras(n) + extra * Halved(50 * COIN, n)
    decreases n, extra
  {
    hide GetBlockSubsidy, Halved;
    var each := Halved(50 * COIN, n);
    if extra > 0 {
      IssuedByEra(n, extra - 1);
      SubsidyInEra(n, extra - 1);
      assert (extra - 1) * each + each == extra * each;
    } else if n > 0 {
      IssuedByEra(n - 1, SUBSIDY_HALVING_INTERVAL);
    }
  }

  lemma {:induction false} ErasBounded(n: nat)
    ensures IssuedEras(n) + 2 * SUBSIDY_HALVING_INTERVAL * Halved(50 * COIN, n)
            <= 2 * SUBSIDY_HALVING_INTERVAL * 50 * COIN
  {
    if n > 0 {
      ErasBounded(n - 1);
    }
  }

  // Every coin that the schedule ever issues stays within MAX_MONEY.
  lemma IssueStaysWithinMaxMoney(n: nat)
    requires n <= HEIGHT_LIMIT
    ensures Issued(n) <= MAX_MONEY
  {
    hide Issued, IssuedEras, Halved;
    var eras, extra := n / SUBSIDY_HALVING_INTERVAL, n % SUBSIDY_HALVING_INTERVAL;
    var each := Halved(50 * COIN, eras);
    IssuedByEra(eras, extra);
    ErasBounded(eras);
    MulMonotone(extra, SUBSIDY_HALVING_INTERVAL, each);
    assert eras * SUBSIDY_HALVING_INTERVAL + extra == n;
  }
}
