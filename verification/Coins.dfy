// Transactions, coins (the unspent outputs of one transaction) and the plain
// txid-to-coins map that every coins view stands for.
module Coins {

  datatype Option<+T> = None | Some(value: T)

  // A 256-bit hash. Zero is the null hash.
  type Hash = nat

  const NULL_HASH: Hash := 0
  const NULL_INDEX: nat := 0xffff_ffff
  const OP_RETURN: nat := 0x6a
  const COIN: int := 100_000_000
  const MAX_MONEY: int := 84_000_000 * COIN

  predicate MoneyRange(value: int) {
    0 <= value <= MAX_MONEY
  }

  type Script = seq<nat>

  predicate IsUnspendable(script: Script) {
    |script| > 0 && script[0] == OP_RETURN
  }

  datatype TxOut = TxOut(value: int, script: Script) {
    predicate IsNull() {
      value == -1
    }
  }

  const NULL_OUT := TxOut(-1, [])

  datatype OutPoint = OutPoint(hash: Hash, n: nat) {
    predicate IsNull() {
      hash == NULL_HASH && n == NULL_INDEX
    }
  }

  // The hash of a transaction is stored with it, as the program does.
  datatype Tx = Tx(hash: Hash, version: int, vin: seq<OutPoint>, vout: seq<TxOut>) {
    predicate IsCoinBase() {
      |vin| == 1 && vin[0].IsNull()
    }
  }

  // ---------------------------------------------------------------- outputs

  function TrimNulls(vout: seq<TxOut>): seq<TxOut> {
    if |vout| > 0 && vout[|vout| - 1].IsNull() then TrimNulls(vout[..|vout| - 1]) else vout
  }

  // What trimming means: a prefix, whose missing tail is all null, and which
  // does not end in a null output.
  lemma {:induction false} TrimNullsCuts(vout: seq<TxOut>)
    ensures TrimNulls(vout) <= vout
    ensures forall i :: |TrimNulls(vout)| <= i < |vout| ==> vout[i].IsNull()
    ensures TrimNulls(vout) != [] ==> !TrimNulls(vout)[|TrimNulls(vout)| - 1].IsNull()
    ensures TrimNulls(vout) == [] <==> (forall out :: out in vout ==> out.IsNull())
  {
    if |vout| > 0 && vout[|vout| - 1].IsNull() {
      TrimNullsCuts(vout[..|vout| - 1]);
      assert vout == vout[..|vout| - 1] + [vout[|vout| - 1]];
    }
  }

  // Null outputs carry no leftover script.
  predicate NormalNulls(vout: seq<TxOut>) {
    forall i :: 0 <= i < |vout| && vout[i].IsNull() ==> vout[i] == NULL_OUT
  }

  predicate Tidy(vout: seq<TxOut>) {
    NormalNulls(vout) && (vout != [] ==> !vout[|vout| - 1].IsNull())
  }

  method Cleanup(vout: seq<TxOut>) returns (cleaned: seq<TxOut>)
    ensures cleaned == TrimNulls(vout)
  {
    cleaned := vout;
    while |cleaned| > 0 && cleaned[|cleaned| - 1].IsNull()
      invariant TrimNulls(cleaned) == TrimNulls(vout)
      decreases |cleaned|
    {
      cleaned := cleaned[..|cleaned| - 1];
    }
  }

  // The outputs with every provably unspendable one replaced by null.
  function Spendable(vout: seq<TxOut>): (r: seq<TxOut>)
    ensures |r| == |vout|
    ensures forall i :: 0 <= i < |vout| ==> r[i] == if IsUnspendable(vout[i].script) then NULL_OUT else vout[i]
  {
    if vout == [] then []
    else
      var last := vout[|vout| - 1];
      Spendable(vout[..|vout| - 1]) + [if IsUnspendable(last.script) then NULL_OUT else last]
  }

  method ClearUnspendable(vout: seq<TxOut>) returns (cleared: seq<TxOut>)
    ensures cleared == TrimNulls(Spendable(vout))
  {
    cleared := vout;
    for i := 0 to |vout|
      invariant |cleared| == |vout|
      invariant forall k :: 0 <= k < i ==> cleared[k] == Spendable(vout)[k]
      invariant cleared[i..] == vout[i..]
    {
      assert cleared[i] == cleared[i..][0] == vout[i];
      if IsUnspendable(cleared[i].script) {
        cleared := cleared[i := NULL_OUT];
      }
    }
    assert cleared == Spendable(vout);
    cleared := Cleanup(cleared);
  }

  // ------------------------------------------------------------------ coins

  datatype Coins = Coins(coinbase: bool, vout: seq<TxOut>, height: int, version: int) {
    predicate IsAvailable(n: nat) {
      n < |vout| && !vout[n].IsNull()
    }

    predicate IsPruned() {
      forall i :: 0 <= i < |vout| ==> vout[i].IsNull()
    }
  }

  const NO_COINS := Coins(false, [], 0, 0)

  // Two pruned coins are equal whatever metadata they carry.
  predicate SameCoins(a: Coins, b: Coins) {
    (a.IsPruned() && b.IsPruned()) || a == b
  }

  // The coins a transaction leaves when it is confirmed at the given height.
  function FromTx(tx: Tx, height: int): Coins {
    Coins(tx.IsCoinBase(), TrimNulls(Spendable(tx.vout)), height, tx.version)
  }

  function SpendOutput(c: Coins, n: nat): Coins
    requires c.IsAvailable(n)
  {
    c.(vout := TrimNulls(c.vout[n := NULL_OUT]))
  }

  method Spend(c: Coins, n: nat) returns (ok: bool, spent: Coins)
    ensures ok == c.IsAvailable(n)
    ensures spent == if ok then SpendOutput(c, n) else c
  {
    if n >= |c.vout| || c.vout[n].IsNull() {
      return false, c;
    }
    var vout := Cleanup(c.vout[n := NULL_OUT]);
    return true, c.(vout := vout);
  }

  lemma TidyTrim(vout: seq<TxOut>)
    requires NormalNulls(vout)
    ensures Tidy(TrimNulls(vout))
  {
    TrimNullsCuts(vout);
  }

  lemma TidyMeansTrimmed(vout: seq<TxOut>)
    requires Tidy(vout)
    ensures TrimNulls(vout) == vout
    ensures vout == [] <==> (forall i :: 0 <= i < |vout| ==> vout[i].IsNull())
  {
  }

  // --------------------------------------------------- the plain coins map

  type Utxo = map<Hash, Coins>

  // A transaction with nothing left to spend has no entry, and what is stored
  // is cleaned up.
  predicate Canonical(u: Utxo) {
    forall h :: h in u ==> Tidy(u[h].vout) && u[h].vout != []
  }

  function Put(u: Utxo, h: Hash, c: Coins): Utxo {
    if c.vout == [] then u - {h} else u[h := c]
  }

  function Get(u: Utxo, h: Hash): Coins {
    if h in u then u[h] else NO_COINS
  }

  // ---------------------------------------------------------- through storage

  // A version is stored as a variable-length integer, which keeps only the
  // lowest seven bits of a negative one.
  function Kept(version: int): nat {
    if version >= 0 then version else version % 128
  }

  // Coins as they come back from the database.
  function Stored(c: Coins): Coins {
    c.(version := Kept(c.version))
  }

  // The map when all coins but the exact ones have been through storage.
  function Faded(u: Utxo, exact: set<Hash>): Utxo {
    map h | h in u :: if h in exact then u[h] else Stored(u[h])
  }

  // Storage loses nothing exactly when no version in it is negative.
  lemma FadedIsExact(u: Utxo, exact: set<Hash>)
    ensures Faded(u, exact) == u <==> forall h :: h in u && h !in exact ==> u[h].version >= 0
  {
    var f := Faded(u, exact);
    assert f.Keys == u.Keys;
    if f == u {
      forall h | h in u && h !in exact ensures u[h].version >= 0 {
        assert f[h] == u[h];
      }
    } else if forall h :: h in u && h !in exact ==> u[h].version >= 0 {
      assert forall h :: h in u ==> f[h] == u[h];
    }
  }

  lemma FadedTwice(u: Utxo, exact: set<Hash>, still: set<Hash>)
    ensures Faded(Faded(u, exact), still) == Faded(u, exact * still)
  {
  }

  lemma FadedCanonical(u: Utxo, exact: set<Hash>)
    ensures Canonical(Faded(u, exact)) <==> Canonical(u)
  {
    assert forall h :: h in u ==> Faded(u, exact)[h].vout == u[h].vout;
  }
}
