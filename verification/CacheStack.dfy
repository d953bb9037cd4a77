// A stack of caches of any depth behaves like plain maps.
module CacheStack {
  import opened Coins
  import opened CoinsCache

  // Pop drops the top cache with everything in it.
  datatype Op =
    | Edit(txid: Hash, coins: Coins)
    | Read(txid: Hash)
    | Push
    | Flush
    | Pop

  // What an operation means for the maps that the views stand for, from the
  // database up.
  function Apply(views: seq<Utxo>, op: Op): (r: seq<Utxo>)
    requires |views| >= 2
    ensures |r| >= 2
  {
    var n := |views| - 1;
    match op
    case Edit(txid, c) => views[n := Put(views[n], txid, c.(vout := TrimNulls(c.vout)))]
    case Read(_) => views
    case Push => views + [views[n]]
    case Flush =>
      var flushed := if n == 1 then Faded(views[n], {}) else views[n];
      views[n - 1 := flushed][n := flushed]
    case Pop => if n > 1 then views[..n] else views
  }

  function ApplyAll(views: seq<Utxo>, ops: seq<Op>): (r: seq<Utxo>)
    requires |views| >= 2
    ensures |r| >= 2
  {
    if ops == [] then views else Apply(ApplyAll(views, ops[..|ops| - 1]), ops[|ops| - 1])
  }

  function Top(views: seq<Utxo>): Utxo
    requires |views| >= 2
  {
    views[|views| - 1]
  }

  function Lookup(u: Utxo, txid: Hash): Option<Coins> {
    if txid in u then Some(u[txid]) else None
  }

  // What the reads among the operations find.
  function Answers(views: seq<Utxo>, ops: seq<Op>): seq<Option<Coins>>
    requires |views| >= 2
  {
    if ops == [] then []
    else
      var k := |ops| - 1;
      Answers(views, ops[..k])
      + if ops[k].Read? then [Lookup(Top(ApplyAll(views, ops[..k])), ops[k].txid)] else []
  }

  // Runs any sequence of operations on the top of a growing and shrinking
  // stack. All views are the maps that the operations give, every read answers
  // from them, and the counters of all layers stay exact (Ready).
  method Run(db: CoinsViewDB, weight: Coins -> nat, ops: seq<Op>)
    returns (top: CoinsViewCache, answers: seq<Option<Coins>>)
    requires db.Valid()
    requires forall i :: 0 <= i < |ops| && ops[i].Edit? ==> NormalNulls(ops[i].coins.vout)
    modifies db
    ensures top.Ready() && fresh(top.Repr - {db})
    ensures top.Views() == ApplyAll([old(db.coins), old(db.coins)], ops)
    ensures answers == Answers([old(db.coins), old(db.coins)], ops)
  {
    hide CoinsViewCache.Valid, CoinsViewCache.View, CoinsViewCache.Best, CoinsViewCache.BaseBest,
         CoinsViewCache.BaseView, CoinsViewCache.BaseViews, Apply, Faded, Put;
    ghost var start := [db.coins, db.coins];
    top := new CoinsViewCache(Database(db), weight);
    OnDatabase(top);
    answers := [];
    for i := 0 to |ops|
      invariant top.Ready() && fresh(top.Repr - {db})
      invariant top.Views() == ApplyAll(start, ops[..i]) && answers == Answers(start, ops[..i])
    {
      assert ops[..i + 1][..i] == ops[..i];
      var answer;
      top, answer := Step(top, ops[i]);
      assert top.Views() == ApplyAll(start, ops[..i + 1]);
      if ops[i].Read? {
        answers := answers + [answer];
      }
    }
    assert ops[..|ops|] == ops;
  }

  lemma OnDatabase(top: CoinsViewCache)
    requires top.Layered() && top.base.Database? && top.View() == top.BaseView()
    ensures top.Views() == [top.base.db.coins, top.base.db.coins]
  {
    hide CoinsViewCache.View;
  }

  method EditTop(top: CoinsViewCache, txid: Hash, coins: Coins)
    requires top.Ready() && NormalNulls(coins.vout)
    modifies top.Repr
    ensures top.Ready() && top.BaseViews() == old(top.BaseViews())
    ensures top.View() == Put(old(top.View()), txid, coins.(vout := TrimNulls(coins.vout)))
  {
    hide CoinsViewCache.Valid, CoinsViewCache.View, CoinsViewCache.BaseViews, Put, TrimNulls;
    var _, usage := top.ModifyCoins(txid);
    top.CloseModifier(txid, coins, usage);
  }

  method Step(cache: CoinsViewCache, op: Op) returns (top: CoinsViewCache, answer: Option<Coins>)
    requires cache.Ready() && (op.Edit? ==> NormalNulls(op.coins.vout))
    modifies cache.Repr
    ensures top.Ready() && fresh(top.Repr - cache.Repr)
    ensures top.Views() == Apply(old(cache.Views()), op)
    ensures op.Read? ==> answer == Lookup(Top(old(cache.Views())), op.txid)
  {
    hide CoinsViewCache.Valid, CoinsViewCache.View, CoinsViewCache.Best, CoinsViewCache.BaseBest,
         CoinsViewCache.BaseView, CoinsViewCache.BaseViews, Faded, Put, TrimNulls;
    top, answer := cache, None;
    match op {
      case Edit(txid, coins) =>
        EditTop(top, txid, coins);
      case Read(txid) =>
        var have, coins := top.GetCoins(txid);
        answer := if have && coins.vout != [] then Some(coins) else None;
      case Push =>
        top := new CoinsViewCache(Cache(top), top.weight);
        top.StandsOn();
      case Flush =>
        top.Flush();
      case Pop =>
        if top.base.Cache? {
          top.StandsOn();
          top := top.base.cache;
        }
    }
  }

  // ------------------------------------------------------------ one plain map

  // The edits alone, on one map.
  function OnPlainMap(u: Utxo, ops: seq<Op>): Utxo {
    if ops == [] then u
    else
      var before := OnPlainMap(u, ops[..|ops| - 1]);
      match ops[|ops| - 1]
      case Edit(txid, c) => Put(before, txid, c.(vout := TrimNulls(c.vout)))
      case _ => before
  }

  // For each cache from the bottom up, whether it may hold something that the
  // view below lacks.
  function Unflushed(ops: seq<Op>): (dirty: seq<bool>)
    ensures |dirty| >= 1
  {
    if ops == [] then [false] else Touch(Unflushed(ops[..|ops| - 1]), ops[|ops| - 1])
  }

  function Touch(dirty: seq<bool>, op: Op): (r: seq<bool>)
    requires |dirty| >= 1
    ensures |r| >= 1
  {
    var n := |dirty| - 1;
    match op
    case Edit(_, _) => dirty[n := true]
    case Read(_) => dirty
    case Push => dirty + [false]
    case Flush => if n == 0 then [false] else dirty[n - 1 := dirty[n - 1] || dirty[n]][n := false]
    case Pop => if n == 0 then dirty else dirty[..n]
  }

  // A cache is dropped only when nothing in it is unflushed, and versions are
  // such that storage keeps them.
  predicate Careful(ops: seq<Op>) {
    ops != [] ==>
      var before, last := ops[..|ops| - 1], ops[|ops| - 1];
      var dirty := Unflushed(before);
      && Careful(before)
      && (last.Pop? && |dirty| > 1 ==> !dirty[|dirty| - 1])
      && (last.Edit? ==> last.coins.version >= 0)
  }

  // What is flushed is in the view below.
  predicate InStep(views: seq<Utxo>, dirty: seq<bool>) {
    |views| == |dirty| + 1 && forall i :: 0 <= i < |dirty| && !dirty[i] ==> views[i + 1] == views[i]
  }

  lemma StaysInStep(views: seq<Utxo>, dirty: seq<bool>, op: Op)
    requires |dirty| >= 1 && InStep(views, dirty) && Faded(Top(views), {}) == Top(views)
    ensures InStep(Apply(views, op), Touch(dirty, op))
    ensures (op.Pop? && |dirty| > 1 ==> !dirty[|dirty| - 1]) && !op.Edit? ==> Top(Apply(views, op)) == Top(views)
  {
    hide Faded, Put, TrimNulls;
  }

  // Then pushing, flushing and dropping views does not show: the top is the
  // plain map with the edits.
  lemma {:induction false} OneMap(u: Utxo, ops: seq<Op>)
    requires Careful(ops) && forall h :: h in u ==> u[h].version >= 0
    ensures InStep(ApplyAll([u, u], ops), Unflushed(ops))
    ensures Top(ApplyAll([u, u], ops)) == OnPlainMap(u, ops)
    ensures forall h :: h in OnPlainMap(u, ops) ==> OnPlainMap(u, ops)[h].version >= 0
  {
    hide Faded, TrimNulls, Touch, InStep;
    if ops == [] {
      BothAlike(u);
    } else {
      var before := ops[..|ops| - 1];
      OneMap(u, before);
      FadedIsExact(Top(ApplyAll([u, u], before)), {});
      StaysInStep(ApplyAll([u, u], before), Unflushed(before), ops[|ops| - 1]);
    }
  }

  lemma BothAlike(u: Utxo)
    ensures InStep([u, u], [false])
  {
  }

  // ------------------------------------------------------- losing a best block

  // A cache that never read its best block overwrites one that was set below
  // it: flushing it takes the best block back to the database's.
  method LoseBestBlock(db: CoinsViewDB, weight: Coins -> nat, best: Hash) returns (below: CoinsViewCache)
    requires db.Valid() && best != NULL_HASH && best != db.bestBlock
    modifies db
    ensures below.Ready() && below.base == Database(db)
    ensures below.Best() == old(db.bestBlock) != best
  {
    hide CoinsViewCache.Valid, CoinsViewCache.View, CoinsViewCache.BaseView, CoinsViewCache.BaseViews,
         CoinsViewCache.Views;
    below := new CoinsViewCache(Database(db), weight);
    below.SetBestBlock(best);
    var top := new CoinsViewCache(Cache(below), weight);
    top.StandsOn();
    assert below.Best() == best && top.BestAfterFlush() == below.BaseBest() == db.bestBlock;
    top.Flush();
    top.StandsOn();
  }
}
