// The ledger rules on plain maps of coins: what connecting and disconnecting
// transactions and blocks mean.
module Ledger {
  import opened Coins
  import opened Numbers

  const COINBASE_MATURITY := 100
  const SUBSIDY_HALVING_INTERVAL := 840_000
  // From here on the shift in the subsidy would be by 64 or more, which the
  // program leaves undefined.
  const HEIGHT_LIMIT := 64 * SUBSIDY_HALVING_INTERVAL

  // height 0 means that the transaction keeps other unspent outputs, and the
  // metadata is not recorded.
  datatype TxInUndo = TxInUndo(txout: TxOut, coinbase: bool, height: int, version: int)

  type TxUndo = seq<TxInUndo>
  type BlockUndo = seq<TxUndo>

  // Undo records as they come back from the undo files.
  function StoredUndo(undo: TxInUndo): TxInUndo {
    undo.(version := if undo.height > 0 then Kept(undo.version) else 0)
  }

  function StoredTxUndo(undo: TxUndo): TxUndo {
    seq(|undo|, i requires 0 <= i < |undo| => StoredUndo(undo[i]))
  }

  function StoredBlockUndo(undo: BlockUndo): BlockUndo {
    seq(|undo|, i requires 0 <= i < |undo| => StoredTxUndo(undo[i]))
  }

  // checksPass is the verdict of everything outside this model: proof of
  // work, merkle root, size and sigop limits, scripts.
  datatype Block = Block(hash: Hash, vtx: seq<Tx>, checksPass: bool)

  // ------------------------------------------------------ transaction checks

  function ValueOut(vout: seq<TxOut>): int {
    if vout == [] then 0 else ValueOut(vout[..|vout| - 1]) + vout[|vout| - 1].value
  }

  // What CheckTransaction lets through.
  predicate TxValid(tx: Tx) {
    && tx.vin != [] && tx.vout != []
    && (forall out :: out in tx.vout ==> MoneyRange(out.value))
    && MoneyRange(ValueOut(tx.vout))
    && Distinct(tx.vin)
    && (!tx.IsCoinBase() ==> forall out :: out in tx.vin ==> !out.IsNull())
  }

  // What CheckBlock lets through.
  predicate BlockValid(block: Block) {
    && block.checksPass
    && block.vtx != []
    && (forall i :: 0 <= i < |block.vtx| ==> TxValid(block.vtx[i]) && (block.vtx[i].IsCoinBase() <==> i == 0))
  }

  // ------------------------------------------------------------------ inputs

  predicate Available(u: Utxo, out: OutPoint) {
    out.hash in u && u[out.hash].IsAvailable(out.n)
  }

  predicate HaveInputs(u: Utxo, vin: seq<OutPoint>) {
    forall i :: 0 <= i < |vin| ==> Available(u, vin[i])
  }

  function OutputFor(u: Utxo, out: OutPoint): TxOut
    requires Available(u, out)
  {
    u[out.hash].vout[out.n]
  }

  function ValueIn(u: Utxo, vin: seq<OutPoint>): int
    requires HaveInputs(u, vin)
  {
    if vin == [] then 0
    else ValueIn(u, vin[..|vin| - 1]) + OutputFor(u, vin[|vin| - 1]).value
  }

  // What CheckInputs lets through at the given spending height.
  predicate InputsOk(u: Utxo, tx: Tx, spendHeight: int) {
    && HaveInputs(u, tx.vin)
    && (forall i :: 0 <= i < |tx.vin| ==>
          && (u[tx.vin[i].hash].coinbase ==> spendHeight - u[tx.vin[i].hash].height >= COINBASE_MATURITY)
          && MoneyRange(OutputFor(u, tx.vin[i]).value))
    && MoneyRange(ValueIn(u, tx.vin))
    && ValueOut(tx.vout) <= ValueIn(u, tx.vin)
  }

  // ------------------------------------------------- spending and unspending

  function SpendOne(u: Utxo, out: OutPoint): Utxo
    requires Available(u, out)
  {
    Put(u, out.hash, SpendOutput(u[out.hash], out.n))
  }

  function UndoFor(u: Utxo, out: OutPoint): TxInUndo
    requires Available(u, out)
  {
    var c := u[out.hash];
    if SpendOutput(c, out.n).vout == [] then TxInUndo(c.vout[out.n], c.coinbase, c.height, c.version)
    else TxInUndo(c.vout[out.n], false, 0, 0)
  }

  datatype Spent = Spent(utxo: Utxo, undo: TxUndo)

  // Spends the inputs one after another; None when one is not available.
  function SpendAll(u: Utxo, vin: seq<OutPoint>): Option<Spent> {
    if vin == [] then Some(Spent(u, []))
    else
      var out := vin[|vin| - 1];
      var before := SpendAll(u, vin[..|vin| - 1]);
      if before.None? || !Available(before.value.utxo, out) then None
      else Some(Spent(SpendOne(before.value.utxo, out), before.value.undo + [UndoFor(before.value.utxo, out)]))
  }

  // The outputs, filled up with nulls so that index n exists, with txout there.
  function RestoreOutput(vout: seq<TxOut>, n: nat, txout: TxOut): seq<TxOut> {
    var padded := vout + seq(if |vout| <= n then n + 1 - |vout| else 0, _ => NULL_OUT);
    padded[n := txout]
  }

  // None when the undo record does not fit the coins it is applied to.
  function ApplyTxInUndo(u: Utxo, undo: TxInUndo, out: OutPoint): Option<Utxo> {
    if undo.height != 0 then
      if out.hash in u then None
      else
        var vout := RestoreOutput([], out.n, undo.txout);
        Some(Put(u, out.hash, Coins(undo.coinbase, TrimNulls(vout), undo.height, undo.version)))
    else
      if out.hash !in u || u[out.hash].IsAvailable(out.n) then None
      else
        var c := u[out.hash];
        Some(Put(u, out.hash, c.(vout := TrimNulls(RestoreOutput(c.vout, out.n, undo.txout)))))
  }

  // Restores the inputs, last one first.
  function UnspendAll(u: Utxo, undo: TxUndo, vin: seq<OutPoint>): Option<Utxo>
    requires |undo| == |vin|
    decreases |vin|
  {
    if vin == [] then Some(u)
    else
      var k := |vin| - 1;
      var r := ApplyTxInUndo(u, undo[k], vin[k]);
      if r.None? then None else UnspendAll(r.value, undo[..k], vin[..k])
  }

  // ------------------------------------------------------------ transactions

  // Spends the inputs (unless coinbase) and adds the outputs.
  function UpdateCoins(u: Utxo, tx: Tx, height: int): Option<Spent> {
    var spent := if tx.IsCoinBase() then Some(Spent(u, [])) else SpendAll(u, tx.vin);
    if spent.None? then None
    else Some(Spent(Put(spent.value.utxo, tx.hash, FromTx(tx, height)), spent.value.undo))
  }

  // The outputs of the transaction are in the map as the block made them.
  predicate OutputsMatch(u: Utxo, tx: Tx, height: int) {
    var made := FromTx(tx, height);
    var c := Get(u, tx.hash);
    var outs := Coins(c.coinbase, TrimNulls(Spendable(c.vout)), c.height,
                      if made.version < 0 then made.version else c.version);
    SameCoins(outs, made)
  }

  // Takes the outputs of the i-th transaction out again and, unless it is the
  // first, restores its inputs.
  function DisconnectTx(u: Utxo, tx: Tx, i: nat, undo: TxUndo, height: int): Option<Utxo>
    requires i > 0 ==> |undo| == |tx.vin|
  {
    if !OutputsMatch(u, tx, height) then None
    else if i == 0 then Some(u - {tx.hash})
    else UnspendAll(u - {tx.hash}, undo, tx.vin)
  }

  // ------------------------------------------------------------------ blocks

  function Halvings(height: nat): nat {
    height / SUBSIDY_HALVING_INTERVAL
  }

  function Halved(amount: nat, times: nat): nat {
    if times == 0 then amount else Halved(amount, times - 1) / 2
  }

  // 50 coins shifted right once for every halving interval passed.
  function GetBlockSubsidy(height: nat): nat
    requires height < HEIGHT_LIMIT
  {
    Halved(50 * COIN, Halvings(height))
  }

  datatype Connected = Connected(utxo: Utxo, undo: BlockUndo, fees: int)

  // One more transaction of a block, after the checks CheckInputs makes.
  function ConnectTx(c: Connected, tx: Tx, first: bool, height: int): Option<Connected> {
    if !tx.IsCoinBase() && !InputsOk(c.utxo, tx, height) then None
    else
      var r := UpdateCoins(c.utxo, tx, height);
      if r.None? then None
      else
        Some(Connected(r.value.utxo,
                       if first then c.undo else c.undo + [r.value.undo],
                       if tx.IsCoinBase() then c.fees
                       else c.fees + ValueIn(c.utxo, tx.vin) - ValueOut(tx.vout)))
  }

  // The first k transactions of a block.
  function ConnectTxs(u: Utxo, vtx: seq<Tx>, k: nat, height: int): Option<Connected>
    requires k <= |vtx|
  {
    if k == 0 then Some(Connected(u, [], 0))
    else
      var before := ConnectTxs(u, vtx, k - 1, height);
      if before.None? then None else ConnectTx(before.value, vtx[k - 1], k == 1, height)
  }

  // No transaction of the block overwrites one with unspent outputs (BIP 30).
  predicate NoOverwrite(u: Utxo, vtx: seq<Tx>) {
    forall i :: 0 <= i < |vtx| ==> vtx[i].hash !in u
  }

  function ConnectBlock(u: Utxo, block: Block, height: nat): Option<Connected>
    requires height < HEIGHT_LIMIT
  {
    if !BlockValid(block) || !NoOverwrite(u, block.vtx) then None
    else
      var c := ConnectTxs(u, block.vtx, |block.vtx|, height);
      if c.None? || ValueOut(block.vtx[0].vout) > c.value.fees + GetBlockSubsidy(height) then None
      else c
  }

  // The undo data has the shape the block calls for.
  predicate UndoFits(block: Block, undo: BlockUndo) {
    && |undo| + 1 == |block.vtx|
    && forall i :: 0 < i < |block.vtx| ==> |undo[i - 1]| == |block.vtx[i].vin|
  }

  // Takes the first k transactions of a block back, last one first.
  function DisconnectTxs(u: Utxo, block: Block, undo: BlockUndo, k: nat, height: int): Option<Utxo>
    requires UndoFits(block, undo) && k <= |block.vtx|
    decreases k
  {
    if k == 0 then Some(u)
    else
      var r := DisconnectTx(u, block.vtx[k - 1], k - 1, if k == 1 then [] else undo[k - 2], height);
      if r.None? then None else DisconnectTxs(r.value, block, undo, k - 1, height)
  }

  function DisconnectBlock(u: Utxo, block: Block, undo: BlockUndo, height: int): Option<Utxo> {
    if !UndoFits(block, undo) then None
    else DisconnectTxs(u, block, undo, |block.vtx|, height)
  }
}
