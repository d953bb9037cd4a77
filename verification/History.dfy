// What the transactions of a chain say by themselves: which outputs are unspent and
// which transaction may come next, without any map of coins. The map and the
// rules on it are proved to say the same.
module History {
  import opened Coins
  import opened Ledger
  import opened LedgerUndo
  import opened ChainState
  import opened Numbers
  import Supply

  // A transaction in the block of a height.
  datatype Placed = Placed(tx: Tx, height: nat)

  // ---------------------------------------------------------- unspent outputs

  // The last transaction with this txid made the output, and none after it spent it.
  predicate Unspent(hist: seq<Placed>, out: OutPoint) {
    hist != []
    && var last := hist[|hist| - 1].tx;
       if last.hash == out.hash then out.n < |last.vout| && !IsUnspendable(last.vout[out.n].script)
       else Unspent(hist[..|hist| - 1], out) && !Spends(last, out)
  }

  predicate Spends(tx: Tx, out: OutPoint) {
    !tx.IsCoinBase() && out in tx.vin
  }

  // The last transaction with this txid.
  function Maker(hist: seq<Placed>, h: Hash): Option<Placed> {
    if hist == [] then None
    else if hist[|hist| - 1].tx.hash == h then Some(hist[|hist| - 1])
    else Maker(hist[..|hist| - 1], h)
  }

  function Output(hist: seq<Placed>, out: OutPoint): TxOut
    requires Unspent(hist, out)
  {
    var last := hist[|hist| - 1].tx;
    if last.hash == out.hash then last.vout[out.n] else Output(hist[..|hist| - 1], out)
  }

  lemma {:induction false} MakerMade(hist: seq<Placed>, out: OutPoint)
    requires Unspent(hist, out)
    ensures Maker(hist, out.hash).Some?
    ensures var tx := Maker(hist, out.hash).value.tx;
            out.n < |tx.vout| && Output(hist, out) == tx.vout[out.n] && !IsUnspendable(tx.vout[out.n].script)
  {
    if hist[|hist| - 1].tx.hash != out.hash {
      MakerMade(hist[..|hist| - 1], out);
    }
  }

  // In other words: made at some point, and neither spent nor made anew since.
  lemma {:induction false} UnspentSince(hist: seq<Placed>, out: OutPoint) returns (i: nat)
    requires Unspent(hist, out)
    ensures i < |hist| && Maker(hist, out.hash) == Some(hist[i]) && hist[i].tx.hash == out.hash
    ensures out.n < |hist[i].tx.vout| && !IsUnspendable(hist[i].tx.vout[out.n].script)
    ensures forall j :: i < j < |hist| ==> hist[j].tx.hash != out.hash && !Spends(hist[j].tx, out)
  {
    var k := |hist| - 1;
    if hist[k].tx.hash == out.hash {
      return k;
    }
    i := UnspentSince(hist[..k], out);
    assert forall j :: i < j < k ==> hist[..k][j] == hist[j];
  }

  // ------------------------------------------- the map of coins says the same

  // Coins with the data of a transaction and at most its outputs.
  predicate IsOf(c: Coins, m: Placed) {
    && c.coinbase == m.tx.IsCoinBase() && c.height == m.height && c.version == m.tx.version
    && |c.vout| <= |m.tx.vout|
    && forall n :: 0 <= n < |c.vout| && !c.vout[n].IsNull() ==> c.vout[n] == m.tx.vout[n]
  }

  predicate ComesFrom(c: Coins, hist: seq<Placed>, h: Hash) {
    Maker(hist, h).Some? && IsOf(c, Maker(hist, h).value)
  }

  // Exactly the unspent outputs are available, with the data of their transaction.
  ghost predicate Reflects(u: Utxo, hist: seq<Placed>) {
    && Canonical(u) && Buried(u)
    && (forall out :: Available(u, out) <==> Unspent(hist, out))
    && (forall h :: h in u ==> ComesFrom(u[h], hist, h))
  }

  lemma OutputsAgree(u: Utxo, hist: seq<Placed>, out: OutPoint)
    requires Reflects(u, hist) && Available(u, out)
    ensures Unspent(hist, out) && OutputFor(u, out) == Output(hist, out)
    ensures Maker(hist, out.hash).Some?
    ensures u[out.hash].coinbase == Maker(hist, out.hash).value.tx.IsCoinBase()
    ensures u[out.hash].height == Maker(hist, out.hash).value.height
  {
    hide Canonical, Buried;
    MakerMade(hist, out);
    assert ComesFrom(u[out.hash], hist, out.hash);
  }

  // Coins with fewer outputs left.
  predicate Lessened(c: Coins, d: Coins) {
    && d.coinbase == c.coinbase && d.height == c.height && d.version == c.version && |d.vout| <= |c.vout|
    && forall n :: 0 <= n < |d.vout| && !d.vout[n].IsNull() ==> d.vout[n] == c.vout[n]
  }

  predicate Shrunk(u: Utxo, v: Utxo) {
    forall h :: h in v ==> h in u && Lessened(u[h], v[h])
  }

  lemma SpendOneShrinks(u: Utxo, out: OutPoint)
    requires Available(u, out)
    ensures Shrunk(u, SpendOne(u, out))
    ensures forall other :: Available(SpendOne(u, out), other) <==> Available(u, other) && other != out
  {
    var nulled := u[out.hash].vout[out.n := NULL_OUT];
    TrimKeeps(TrimNulls(nulled), nulled);
    forall other ensures Available(SpendOne(u, out), other) <==> Available(u, other) && other != out {
      if Available(u, other) && other != out {
        Supply.SpendOneKeepsOthers(u, out, other);
      }
    }
  }

  lemma {:induction false} SpendAllShrinks(u: Utxo, vin: seq<OutPoint>)
    requires SpendAll(u, vin).Some?
    ensures var v := SpendAll(u, vin).value.utxo;
            Shrunk(u, v) && forall out :: Available(v, out) <==> Available(u, out) && out !in vin
  {
    hide Available, SpendOne;
    if vin != [] {
      var k := |vin| - 1;
      SpendAllShrinks(u, vin[..k]);
      SpendOneShrinks(SpendAll(u, vin[..k]).value.utxo, vin[k]);
      assert vin == vin[..k] + [vin[k]];
    }
  }

  // What a transaction leaves of its own outputs.
  lemma MadeAvailable(tx: Tx, height: int, n: nat)
    requires TxValid(tx)
    ensures FromTx(tx, height).IsAvailable(n) <==> n < |tx.vout| && !IsUnspendable(tx.vout[n].script)
    ensures FromTx(tx, height).IsAvailable(n) ==> FromTx(tx, height).vout[n] == tx.vout[n]
  {
    TrimKeeps(FromTx(tx, height).vout, Spendable(tx.vout));
    assert n < |tx.vout| ==> tx.vout[n] in tx.vout;
    assert n < |tx.vout| ==> Spendable(tx.vout)[n].IsNull() == IsUnspendable(tx.vout[n].script);
  }

  lemma MadeIsOf(tx: Tx, height: nat)
    requires TxValid(tx)
    ensures IsOf(FromTx(tx, height), Placed(tx, height)) && Tidy(FromTx(tx, height).vout)
  {
    FromTxTidy(tx, height);
    var made := FromTx(tx, height);
    TrimKeeps(made.vout, Spendable(tx.vout));
    forall n | 0 <= n < |made.vout| && !made.vout[n].IsNull() ensures made.vout[n] == tx.vout[n] {
      MadeAvailable(tx, height, n);
    }
  }

  // What is left of the map when the inputs are spent is still from there.
  lemma ShrunkComesFrom(u: Utxo, v: Utxo, hist: seq<Placed>, h: Hash)
    requires Shrunk(u, v) && h in v && (forall k :: k in u ==> ComesFrom(u[k], hist, k))
    ensures ComesFrom(v[h], hist, h)
  {
  }

  // The inputs of a transaction gone, before its outputs are there.
  lemma InputsGone(u: Utxo, hist: seq<Placed>, tx: Tx, height: int) returns (v: Utxo)
    requires Reflects(u, hist) && UpdateCoins(u, tx, height).Some?
    ensures UpdateCoins(u, tx, height).value.utxo == Put(v, tx.hash, FromTx(tx, height))
    ensures Canonical(v) && Buried(v)
    ensures forall out :: Available(v, out) <==> Unspent(hist, out) && !Spends(tx, out)
    ensures forall h :: h in v ==> ComesFrom(v[h], hist, h)
  {
    hide Canonical, Buried, Available, Lessened, ComesFrom, FromTx, Put, Unspent;
    v := u;
    if !tx.IsCoinBase() {
      SpendAllUndone(u, tx.vin);
      SpendAllShrinks(u, tx.vin);
      v := SpendAll(u, tx.vin).value.utxo;
      forall h | h in v ensures ComesFrom(v[h], hist, h) {
        ShrunkComesFrom(u, v, hist, h);
      }
    }
  }

  lemma OutputsThere(v: Utxo, tx: Tx, height: nat, out: OutPoint)
    requires TxValid(tx)
    ensures Available(Put(v, tx.hash, FromTx(tx, height)), out)
            <==> if out.hash == tx.hash then out.n < |tx.vout| && !IsUnspendable(tx.vout[out.n].script)
                 else Available(v, out)
  {
    hide FromTx, TxValid;
    MadeAvailable(tx, height, out.n);
  }

  lemma CoinsThere(v: Utxo, hist: seq<Placed>, tx: Tx, height: nat, h: Hash)
    requires TxValid(tx) && (forall k :: k in v ==> ComesFrom(v[k], hist, k))
    requires h in Put(v, tx.hash, FromTx(tx, height))
    ensures ComesFrom(Put(v, tx.hash, FromTx(tx, height))[h], hist + [Placed(tx, height)], h)
  {
    hide FromTx, TxValid, IsOf;
    MadeIsOf(tx, height);
    assert (hist + [Placed(tx, height)])[..|hist|] == hist;
  }

  // One more transaction on both sides.
  lemma TxReflected(u: Utxo, hist: seq<Placed>, tx: Tx, height: nat)
    requires Reflects(u, hist) && TxValid(tx) && height >= 1 && UpdateCoins(u, tx, height).Some?
    ensures Reflects(UpdateCoins(u, tx, height).value.utxo, hist + [Placed(tx, height)])
  {
    hide TxValid, Canonical, Buried, Available, FromTx, Put, ComesFrom, Reflects, UpdateCoins, Spends, Tidy;
    var v := InputsGone(u, hist, tx, height);
    MadeIsOf(tx, height);
    PutKeepsTidy(v, tx, height);
    var r, more := Put(v, tx.hash, FromTx(tx, height)), hist + [Placed(tx, height)];
    assert more[..|hist|] == hist;
    forall out ensures Available(r, out) <==> Unspent(more, out) {
      OutputsThere(v, tx, height, out);
    }
    forall h | h in r ensures ComesFrom(r[h], more, h) {
      CoinsThere(v, hist, tx, height, h);
    }
    ReflectsIf(r, more);
  }

  lemma PutKeepsTidy(v: Utxo, tx: Tx, height: nat)
    requires Canonical(v) && Buried(v) && Tidy(FromTx(tx, height).vout) && height >= 1
    ensures Canonical(Put(v, tx.hash, FromTx(tx, height))) && Buried(Put(v, tx.hash, FromTx(tx, height)))
  {
    PutKeeps(v, tx.hash, FromTx(tx, height));
  }

  lemma ReflectsIf(u: Utxo, hist: seq<Placed>)
    requires Canonical(u) && Buried(u)
    requires forall out :: Available(u, out) <==> Unspent(hist, out)
    requires forall h :: h in u ==> ComesFrom(u[h], hist, h)
    ensures Reflects(u, hist)
  {
  }

  // ------------------------------------------------------ what may come next

  // The inputs are unspent outputs, what a coinbase made is 100 blocks old, and no
  // more goes out than comes in.
  predicate MayFollow(hist: seq<Placed>, tx: Tx, height: nat) {
    tx.IsCoinBase()
    || (&& (forall i :: 0 <= i < |tx.vin| ==> InputMayGo(hist, tx.vin[i], height))
        && MoneyRange(ValueSpent(hist, tx.vin)) && ValueOut(tx.vout) <= ValueSpent(hist, tx.vin))
  }

  predicate InputMayGo(hist: seq<Placed>, out: OutPoint, height: nat) {
    && Unspent(hist, out) && MoneyRange(Output(hist, out).value)
    && (Maker(hist, out.hash).Some? && Maker(hist, out.hash).value.tx.IsCoinBase() ==>
          height - Maker(hist, out.hash).value.height >= 100)
  }

  // An input that is not unspent counts nothing here; it is refused anyway.
  function ValueSpent(hist: seq<Placed>, vin: seq<OutPoint>): int {
    if vin == [] then 0
    else
      var out := vin[|vin| - 1];
      ValueSpent(hist, vin[..|vin| - 1]) + if Unspent(hist, out) then Output(hist, out).value else 0
  }

  lemma {:induction false} SameValue(u: Utxo, hist: seq<Placed>, vin: seq<OutPoint>)
    requires Reflects(u, hist) && HaveInputs(u, vin)
    ensures ValueIn(u, vin) == ValueSpent(hist, vin)
  {
    hide Reflects, Available, Unspent, OutputFor, Output;
    if vin != [] {
      SameValue(u, hist, vin[..|vin| - 1]);
      OutputsAgree(u, hist, vin[|vin| - 1]);
    }
  }

  lemma SameInput(u: Utxo, hist: seq<Placed>, out: OutPoint, height: nat)
    requires Reflects(u, hist)
    ensures InputMayGo(hist, out, height)
            <==> Available(u, out) && MoneyRange(OutputFor(u, out).value)
                 && (u[out.hash].coinbase ==> height - u[out.hash].height >= COINBASE_MATURITY)
  {
    hide Canonical, Buried, Available, Unspent, OutputFor, Output, ComesFrom, MoneyRange;
    if Available(u, out) {
      OutputsAgree(u, hist, out);
    }
  }

  // The checks on the map let through exactly what may follow.
  lemma SameInputs(u: Utxo, hist: seq<Placed>, tx: Tx, height: nat)
    requires Reflects(u, hist)
    ensures MayFollow(hist, tx, height) <==> tx.IsCoinBase() || InputsOk(u, tx, height)
  {
    hide Reflects, Unspent, OutputFor, Output, MoneyRange, InputMayGo;
    forall i | 0 <= i < |tx.vin|
      ensures InputMayGo(hist, tx.vin[i], height)
              <==> Available(u, tx.vin[i]) && MoneyRange(OutputFor(u, tx.vin[i]).value)
                   && (u[tx.vin[i].hash].coinbase ==> height - u[tx.vin[i].hash].height >= COINBASE_MATURITY)
    {
      SameInput(u, hist, tx.vin[i], height);
    }
    if HaveInputs(u, tx.vin) {
      SameValue(u, hist, tx.vin);
    }
  }

  // ------------------------------------------------------------------- blocks

  // The first k transactions of a block at a height.
  function Placing(vtx: seq<Tx>, k: nat, height: nat): (r: seq<Placed>)
    requires k <= |vtx|
    ensures |r| == k && forall i :: 0 <= i < k ==> r[i] == Placed(vtx[i], height)
  {
    seq(k, i requires 0 <= i < k => Placed(vtx[i], height))
  }

  // All of them may come one after the other.
  predicate AllMayFollow(hist: seq<Placed>, vtx: seq<Tx>, k: nat, height: nat)
    requires k <= |vtx|
  {
    forall j :: 0 <= j < k ==> MayFollow(hist + Placing(vtx, j, height), vtx[j], height)
  }

  // What goes in and does not come out.
  function FeesOf(hist: seq<Placed>, vtx: seq<Tx>, k: nat, height: nat): int
    requires k <= |vtx|
  {
    if k == 0 then 0
    else
      var tx := vtx[k - 1];
      FeesOf(hist, vtx, k - 1, height)
      + if tx.IsCoinBase() then 0
        else ValueSpent(hist + Placing(vtx, k - 1, height), tx.vin) - ValueOut(tx.vout)
  }

  // No output with a txid of the block is unspent.
  ghost predicate NoneUnspent(hist: seq<Placed>, vtx: seq<Tx>) {
    forall i, n: nat :: 0 <= i < |vtx| ==> !Unspent(hist, OutPoint(vtx[i].hash, n))
  }

  ghost predicate BlockMayFollow(hist: seq<Placed>, block: Block, height: nat)
    requires height < HEIGHT_LIMIT
  {
    && BlockValid(block) && NoneUnspent(hist, block.vtx) && AllMayFollow(hist, block.vtx, |block.vtx|, height)
    && ValueOut(block.vtx[0].vout) <= FeesOf(hist, block.vtx, |block.vtx|, height) + GetBlockSubsidy(height)
  }

  lemma NoOverwriteAgrees(u: Utxo, hist: seq<Placed>, vtx: seq<Tx>)
    requires Reflects(u, hist)
    ensures NoOverwrite(u, vtx) <==> NoneUnspent(hist, vtx)
  {
    hide Unspent, Buried, ComesFrom;
    if NoOverwrite(u, vtx) {
      forall i, n: nat | 0 <= i < |vtx| ensures !Unspent(hist, OutPoint(vtx[i].hash, n)) {
        assert !Available(u, OutPoint(vtx[i].hash, n));
      }
    } else {
      var i :| 0 <= i < |vtx| && vtx[i].hash in u;
      var n := |u[vtx[i].hash].vout| - 1;
      assert Available(u, OutPoint(vtx[i].hash, n));
      assert Unspent(hist, OutPoint(vtx[i].hash, n));
    }
  }

  lemma {:induction false} TxsAgree(u: Utxo, hist: seq<Placed>, vtx: seq<Tx>, k: nat, height: nat)
    requires Reflects(u, hist) && height >= 1 && k <= |vtx|
    requires forall i :: 0 <= i < |vtx| ==> TxValid(vtx[i])
    ensures ConnectTxs(u, vtx, k, height).Some? <==> AllMayFollow(hist, vtx, k, height)
    ensures ConnectTxs(u, vtx, k, height).Some? ==>
              var c := ConnectTxs(u, vtx, k, height).value;
              Reflects(c.utxo, hist + Placing(vtx, k, height)) && c.fees == FeesOf(hist, vtx, k, height)
  {
    hide Reflects, MayFollow, TxValid, ConnectTx, ValueSpent;
    if k == 0 {
      assert hist + Placing(vtx, 0, height) == hist;
    } else {
      TxsAgree(u, hist, vtx, k - 1, height);
      var before := ConnectTxs(u, vtx, k - 1, height);
      assert AllMayFollow(hist, vtx, k, height)
        <==> AllMayFollow(hist, vtx, k - 1, height)
             && MayFollow(hist + Placing(vtx, k - 1, height), vtx[k - 1], height);
      if before.Some? {
        TxAgrees(before.value, hist + Placing(vtx, k - 1, height), vtx[k - 1], k == 1, height);
        assert hist + Placing(vtx, k, height) == hist + Placing(vtx, k - 1, height) + [Placed(vtx[k - 1], height)];
      }
    }
  }

  lemma TxAgrees(c: Connected, hist: seq<Placed>, tx: Tx, first: bool, height: nat)
    requires Reflects(c.utxo, hist) && height >= 1 && TxValid(tx)
    ensures ConnectTx(c, tx, first, height).Some? <==> MayFollow(hist, tx, height)
    ensures ConnectTx(c, tx, first, height).Some? ==>
              var r := ConnectTx(c, tx, first, height).value;
              && Reflects(r.utxo, hist + [Placed(tx, height)])
              && r.fees == c.fees + if tx.IsCoinBase() then 0 else ValueSpent(hist, tx.vin) - ValueOut(tx.vout)
  {
    hide Reflects, MayFollow, UpdateCoins, ValueSpent, ValueIn, HaveInputs;
    SameInputs(c.utxo, hist, tx, height);
    if tx.IsCoinBase() || InputsOk(c.utxo, tx, height) {
      CanSpend(c.utxo, tx, height);
      TxReflected(c.utxo, hist, tx, height);
      if !tx.IsCoinBase() {
        SameValue(c.utxo, hist, tx.vin);
      }
    }
  }

  lemma CanSpend(u: Utxo, tx: Tx, height: int)
    requires TxValid(tx) && (!tx.IsCoinBase() ==> HaveInputs(u, tx.vin))
    ensures UpdateCoins(u, tx, height).Some?
  {
    if !tx.IsCoinBase() {
      Supply.SpendAllTakesValue(u, tx.vin);
    }
  }

  lemma BlockAgrees(u: Utxo, hist: seq<Placed>, block: Block, height: nat)
    requires Reflects(u, hist) && 1 <= height < HEIGHT_LIMIT
    ensures ConnectBlock(u, block, height).Some? <==> BlockMayFollow(hist, block, height)
    ensures ConnectBlock(u, block, height).Some? ==>
              Reflects(ConnectBlock(u, block, height).value.utxo, hist + Placing(block.vtx, |block.vtx|, height))
  {
    hide Reflects, NoOverwrite, NoneUnspent, AllMayFollow, FeesOf, GetBlockSubsidy, ConnectTxs;
    NoOverwriteAgrees(u, hist, block.vtx);
    if BlockValid(block) {
      TxsAgree(u, hist, block.vtx, |block.vtx|, height);
    }
  }

  // ------------------------------------------------------------------- chains

  // The transactions of a path, in order. Those of the genesis block do not count.
  function HistoryOf(p: BlockIndex): seq<Placed> {
    if p.Genesis? then [] else HistoryOf(p.prev) + Placing(p.vtx, |p.vtx|, p.Height())
  }

  // Each block of the path may follow what comes before it.
  ghost predicate Follows(p: BlockIndex) {
    p.Genesis?
    || (Follows(p.prev) && p.Height() < HEIGHT_LIMIT && BlockMayFollow(HistoryOf(p.prev), p.Block(), p.Height()))
  }

  // A path can be connected, coins map and all, exactly if its transactions follow
  // each other as they should, and then the map reflects them.
  lemma {:induction false} ReplaysExactly(p: BlockIndex)
    ensures Replay(p).Some? <==> Follows(p)
    ensures Replay(p).Some? ==> Reflects(Replay(p).value, HistoryOf(p))
  {
    hide Reflects, BlockMayFollow, ConnectBlock;
    if p.Child? {
      ReplaysExactly(p.prev);
      if Replay(p.prev).Some? && p.Height() < HEIGHT_LIMIT {
        BlockAgrees(Replay(p.prev).value, HistoryOf(p.prev), p.Block(), p.Height());
      }
    } else {
      NothingReflected();
    }
  }

  lemma NothingReflected()
    ensures Reflects(map[], [])
  {
  }

  // What every transaction of such a path meets.
  ghost predicate Fits(hist: seq<Placed>, k: nat)
    requires k < |hist|
  {
    TxValid(hist[k].tx) && MayFollow(hist[..k], hist[k].tx, hist[k].height)
  }

  lemma {:induction false} EachFits(p: BlockIndex, k: nat)
    requires Follows(p) && k < |HistoryOf(p)|
    ensures Fits(HistoryOf(p), k)
  {
    hide TxValid, MayFollow, NoneUnspent, GetBlockSubsidy, FeesOf;
    var before, hist := HistoryOf(p.prev), HistoryOf(p);
    if k < |before| {
      EachFits(p.prev, k);
      assert hist[..k] == before[..k];
    } else {
      var j := k - |before|;
      assert hist[..k] == before + Placing(p.vtx, j, p.Height());
      assert MayFollow(before + Placing(p.vtx, j, p.Height()), p.vtx[j], p.Height());
      assert TxValid(p.Block().vtx[j]);
    }
  }

  // ------------------------------------------------------------------- results

  // On a chain that connects, every output spent was made by the last transaction
  // with its txid, is not provably unspendable, was not spent since, and is 100
  // blocks old if that was a coinbase.
  lemma SpendsAreSound(p: BlockIndex, k: nat, out: OutPoint) returns (i: nat)
    requires Replay(p).Some? && k < |HistoryOf(p)| && Spends(HistoryOf(p)[k].tx, out)
    ensures var hist := HistoryOf(p);
            && i < k && hist[i].tx.hash == out.hash && out.n < |hist[i].tx.vout|
            && !IsUnspendable(hist[i].tx.vout[out.n].script)
            && (forall j :: i < j < k ==> hist[j].tx.hash != out.hash && !Spends(hist[j].tx, out))
            && (hist[i].tx.IsCoinBase() ==> hist[k].height - hist[i].height >= 100)
  {
    hide Replay, Follows, HistoryOf, TxValid, Unspent, ValueSpent, MoneyRange, Output;
    ReplaysExactly(p);
    EachFits(p, k);
    var hist := HistoryOf(p);
    var a :| 0 <= a < |hist[k].tx.vin| && hist[k].tx.vin[a] == out;
    assert InputMayGo(hist[..k], hist[k].tx.vin[a], hist[k].height);
    i := UnspentSince(hist[..k], out);
    assert forall j :: i < j < k ==> hist[..k][j] == hist[j];
  }

  // No transaction gives out more than the outputs it spends, each was in the money
  // range, and it has no output or input that could upset that.
  lemma NothingFromNothing(p: BlockIndex, k: nat)
    requires Replay(p).Some? && k < |HistoryOf(p)|
    ensures var hist, tx := HistoryOf(p), HistoryOf(p)[k].tx;
            && tx.vin != [] && tx.vout != [] && 0 <= ValueOut(tx.vout) <= MAX_MONEY
            && (forall out :: out in tx.vout ==> 0 <= out.value <= MAX_MONEY)
            && (!tx.IsCoinBase() ==>
                  && (forall a :: 0 <= a < |tx.vin| ==> !tx.vin[a].IsNull())
                  && (forall a, b :: 0 <= a < b < |tx.vin| ==> tx.vin[a] != tx.vin[b])
                  && ValueOut(tx.vout) <= ValueSpent(hist[..k], tx.vin) <= MAX_MONEY)
  {
    hide Replay, Follows, HistoryOf, Unspent, ValueSpent, Output, ValueOut;
    ReplaysExactly(p);
    EachFits(p, k);
  }

  // What the coins of an active chain have available, whatever of them has been
  // through storage, are its unspent outputs with their values.
  lemma AvailableIsUnspent(p: BlockIndex, exact: set<Hash>, out: OutPoint)
    requires Replay(p).Some?
    ensures var u := Faded(Replay(p).value, exact);
            && (Available(u, out) <==> Unspent(HistoryOf(p), out))
            && (Available(u, out) ==> OutputFor(u, out) == Output(HistoryOf(p), out))
  {
    hide Replay, HistoryOf, Unspent, Output;
    ReplaysExactly(p);
    var u := Replay(p).value;
    assert Available(Faded(u, exact), out) <==> Available(u, out);
    if Available(u, out) {
      OutputsAgree(u, HistoryOf(p), out);
    }
  }

  // ---------------------------------------------------- coinbases and ancestors

  // A block of the path, other than genesis.
  predicate OnPath(q: BlockIndex, p: BlockIndex) {
    q.Child? && (q == p || (p.Child? && OnPath(q, p.prev)))
  }

  // Where the i-th transaction of one of its blocks is in the history.
  lemma {:induction false} PlaceInHistory(q: BlockIndex, p: BlockIndex, i: nat) returns (k: nat)
    requires OnPath(q, p) && i < |q.vtx|
    ensures k < |HistoryOf(p)| && HistoryOf(p)[k] == Placed(q.vtx[i], q.Height())
    ensures p.Child? && if q == p then k == |HistoryOf(p.prev)| + i else k < |HistoryOf(p.prev)|
  {
    if q == p {
      k := |HistoryOf(p.prev)| + i;
    } else {
      k := PlaceInHistory(q, p.prev, i);
    }
  }

  lemma {:induction false} HeightsAscend(p: BlockIndex, i: nat, k: nat)
    requires i <= k < |HistoryOf(p)|
    ensures HistoryOf(p)[i].height <= HistoryOf(p)[k].height <= p.Height()
  {
    if k < |HistoryOf(p.prev)| {
      HeightsAscend(p.prev, i, k);
    } else if i < |HistoryOf(p.prev)| {
      HeightsAscend(p.prev, i, i);
    }
  }

  // Each block of a path that connects follows what comes before it.
  lemma {:induction false} EachFollows(p: BlockIndex, q: BlockIndex)
    requires Follows(p) && OnPath(q, p)
    ensures Follows(q)
  {
    hide BlockMayFollow;
    if q != p {
      EachFollows(p.prev, q);
    }
  }

  // Each has passed the checks on blocks alone, its first transaction and no other is
  // a coinbase, which claims the fees and 50 coins halved every 840000 blocks at most,
  // and no txid in it has an unspent output before it.
  lemma BlocksAreSound(p: BlockIndex, q: BlockIndex)
    requires Replay(p).Some? && OnPath(q, p)
    ensures q.checksPass && q.vtx != []
    ensures forall i :: 0 <= i < |q.vtx| ==> (q.vtx[i].IsCoinBase() <==> i == 0)
    ensures forall i, n: nat :: 0 <= i < |q.vtx| ==> !Unspent(HistoryOf(q.prev), OutPoint(q.vtx[i].hash, n))
    ensures ValueOut(q.vtx[0].vout)
            <= FeesOf(HistoryOf(q.prev), q.vtx, |q.vtx|, q.Height()) + 50 * 100_000_000 / Pow2(q.Height() / 840_000)
  {
    hide Replay, HistoryOf, Unspent, FeesOf, AllMayFollow, TxValid, Pow2, GetBlockSubsidy;
    ReplaysExactly(p);
    EachFollows(p, q);
    Supply.SubsidySchedule(q.Height());
  }

  // Txids identify transactions, over the whole path.
  predicate Identified(hist: seq<Placed>) {
    forall i, j :: 0 <= i < |hist| && 0 <= j < |hist| && hist[i].tx.hash == hist[j].tx.hash ==>
      hist[i].tx == hist[j].tx
  }

  // What the coinbase of an ancestor made is spent 100 blocks later at the
  // earliest.
  lemma CoinbasesMature(p: BlockIndex, q: BlockIndex, t: nat, out: OutPoint)
    requires Replay(p).Some? && Identified(HistoryOf(p)) && OnPath(q, p)
    requires 0 < t < |p.vtx| && out in p.vtx[t].vin && |q.vtx| > 0 && out.hash == q.vtx[0].hash
    ensures p.Height() - q.Height() >= 100
  {
    hide Replay, HistoryOf, Identified;
    var hist := HistoryOf(p);
    var k := PlaceInHistory(p, p, t);
    var c := PlaceInHistory(q, p, 0);
    BlocksAreSound(p, p);
    BlocksAreSound(p, q);
    var i := SpendsAreSound(p, k, out);
    assert hist[i].tx == hist[c].tx by { SameTx(hist, i, c); }
    HeightsAscend(p, c, i);
  }

  lemma SameTx(hist: seq<Placed>, i: nat, j: nat)
    requires Identified(hist) && i < |hist| && j < |hist| && hist[i].tx.hash == hist[j].tx.hash
    ensures hist[i].tx == hist[j].tx
  {
  }

  // ------------------------------------------------------------ no double spend

  // No two coinbases of the path have the same txid.
  predicate CoinbasesDistinct(hist: seq<Placed>) {
    forall i, j :: 0 <= i < j < |hist| && hist[i].tx.IsCoinBase() && hist[j].tx.IsCoinBase() ==>
      hist[i].tx.hash != hist[j].tx.hash
  }

  // Then no other transaction comes twice either, though no check says so where all
  // outputs of the first are spent: its inputs would have to come twice before.
  lemma {:induction false} NoRepeats(p: BlockIndex, j: nat, k: nat)
    requires Replay(p).Some? && Identified(HistoryOf(p)) && CoinbasesDistinct(HistoryOf(p))
    requires j < k < |HistoryOf(p)|
    ensures HistoryOf(p)[j].tx.hash != HistoryOf(p)[k].tx.hash
    decreases k
  {
    hide Replay, HistoryOf, ValueSpent, ValueOut;
    var hist := HistoryOf(p);
    if hist[j].tx.hash == hist[k].tx.hash {
      var tx := hist[k].tx;
      assert hist[j].tx == tx;
      NothingFromNothing(p, k);
      assert !tx.IsCoinBase();
      assert tx.vin[0] in tx.vin;
      var first := SpendsAreSound(p, j, tx.vin[0]);
      var again := SpendsAreSound(p, k, tx.vin[0]);
      NoRepeats(p, first, again);
      assert false;
    }
  }

  // And no output is ever spent twice.
  lemma NoDoubleSpend(p: BlockIndex, j: nat, k: nat, out: OutPoint)
    requires Replay(p).Some? && Identified(HistoryOf(p)) && CoinbasesDistinct(HistoryOf(p))
    requires j < k < |HistoryOf(p)| && Spends(HistoryOf(p)[j].tx, out)
    ensures !Spends(HistoryOf(p)[k].tx, out)
  {
    hide Replay, HistoryOf, Spends, Identified, CoinbasesDistinct;
    if Spends(HistoryOf(p)[k].tx, out) {
      var first := SpendsAreSound(p, j, out);
      var again := SpendsAreSound(p, k, out);
      NoRepeats(p, first, again);
      assert false;
    }
  }
}
