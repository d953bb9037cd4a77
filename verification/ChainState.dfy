// The active chain and its coins, through connects, disconnects and flushes.
module ChainState {
  import opened Coins
  import opened CoinsCache
  import Ledger
  import LedgerStored
  import LedgerUndo
  import Supply
  import Validation

  type BlockHash = h: Hash | h != NULL_HASH witness 1

  // A block with all its ancestors.
  datatype BlockIndex =
    | Genesis(hash: BlockHash)
    | Child(prev: BlockIndex, hash: BlockHash, vtx: seq<Tx>, checksPass: bool)
  {
    function Height(): nat {
      if Genesis? then 0 else prev.Height() + 1
    }

    function Block(): Ledger.Block
      requires Child?
    {
      Ledger.Block(hash, vtx, checksPass)
    }

    // Within no block of the path do two transactions share a txid.
    predicate CollisionFree() {
      Child? ==> LedgerUndo.CollisionFree(vtx) && prev.CollisionFree()
    }

    // Storage keeps the versions of all transactions of the path.
    predicate VersionsKept() {
      Child? ==> (forall i :: 0 <= i < |vtx| ==> vtx[i].version >= 0) && prev.VersionsKept()
    }

    function Txids(): set<Hash> {
      if Genesis? then {} else LedgerStored.Txids(vtx, |vtx|)
    }
  }

  // The coins after connecting the path from the empty map, block by block.
  // The genesis block is connected without its transactions.
  function Replay(p: BlockIndex): Option<Utxo> {
    if p.Genesis? then Some(map[])
    else
      var u := Replay(p.prev);
      if u.None? || p.Height() >= Ledger.HEIGHT_LIMIT then None
      else
        var c := Ledger.ConnectBlock(u.value, p.Block(), p.Height());
        if c.None? then None else Some(c.value.utxo)
  }

  // The undo data of the last block of a path that replays.
  function UndoOf(p: BlockIndex): Ledger.BlockUndo
    requires p.Child? && Replay(p).Some?
  {
    Ledger.ConnectBlock(Replay(p.prev).value, p.Block(), p.Height()).value.undo
  }

  lemma {:induction false} ReplaySound(p: BlockIndex)
    requires Replay(p).Some? && p.CollisionFree()
    ensures Canonical(Replay(p).value) && LedgerUndo.Buried(Replay(p).value)
    ensures p.Child? ==> Ledger.DisconnectBlock(Replay(p).value, p.Block(), UndoOf(p), p.Height()) == Replay(p.prev)
    ensures p.Child? ==> var stored := Ledger.StoredBlockUndo(UndoOf(p));
                         forall i :: 0 <= i < |stored| ==> Validation.NoNulls(stored[i])
  {
    hide Ledger.DisconnectBlock, Canonical, LedgerUndo.Buried, Ledger.ConnectTxs, Ledger.BlockValid;
    if p.Child? {
      ReplaySound(p.prev);
      LedgerUndo.DisconnectUndoesConnect(Replay(p.prev).value, p.Block(), p.Height());
      Validation.UndoNoNulls(Replay(p.prev).value, p.vtx, |p.vtx|, p.Height());
      Validation.StoredNoNulls(UndoOf(p));
    } else {
      EmptySound();
    }
  }

  lemma EmptySound()
    ensures Canonical(map[]) && LedgerUndo.Buried(map[])
  {
  }

  // Whatever the chain, what is unspent is at most what the subsidies of its
  // heights come to, and that never exceeds MAX_MONEY.
  lemma {:induction false} SupplyBound(p: BlockIndex)
    requires Replay(p).Some? && p.CollisionFree() && p.Height() < Ledger.HEIGHT_LIMIT
    ensures Supply.Total(Replay(p).value) <= Supply.Issued(p.Height() + 1) <= MAX_MONEY
  {
    hide Ledger.GetBlockSubsidy, Ledger.ConnectBlock;
    Supply.IssueStaysWithinMaxMoney(p.Height() + 1);
    if p.Child? {
      SupplyBound(p.prev);
      Supply.BlockConserves(Replay(p.prev).value, p.Block(), p.Height());
    }
  }

  lemma {:induction false} VersionsStay(p: BlockIndex)
    requires Replay(p).Some? && p.VersionsKept()
    ensures forall h :: h in Replay(p).value ==> Replay(p).value[h].version >= 0
  {
    hide Ledger.ConnectBlock;
    if p.Child? {
      VersionsStay(p.prev);
      LedgerStored.BlockVersions(Replay(p.prev).value, p.Block(), p.Height());
    }
  }

  // Connects a block through a temporary cache, which is dropped on failure.
  method ApplyBlock(coinsTip: CoinsViewCache, block: Ledger.Block, height: nat, prevHash: Hash)
    returns (ok: bool, undo: Ledger.BlockUndo)
    requires coinsTip.Ready() && height < Ledger.HEIGHT_LIMIT && block.hash != NULL_HASH
    requires coinsTip.Best() == prevHash
    modifies coinsTip.Repr
    ensures coinsTip.Ready()
    ensures ok == Ledger.ConnectBlock(old(coinsTip.View()), block, height).Some?
    ensures ok ==> var c := Ledger.ConnectBlock(old(coinsTip.View()), block, height).value;
                   coinsTip.View() == c.utxo && undo == c.undo && coinsTip.Best() == block.hash
    ensures !ok ==> coinsTip.View() == old(coinsTip.View()) && coinsTip.Best() == prevHash
  {
    hide CoinsViewCache.Valid, CoinsViewCache.View, CoinsViewCache.Best, CoinsViewCache.BaseView,
         CoinsViewCache.BaseBest, Ledger.ConnectBlock, Ledger.DisconnectBlock;
    var view := new CoinsViewCache(Cache(coinsTip), coinsTip.weight);
    view.StandsOn();
    var best := view.GetBestBlock();
    assert best == prevHash;
    ok, undo := Validation.ConnectBlock(view, block, height);
    view.StandsOn();
    if ok {
      view.Flush();
      view.StandsOn();
    }
  }

  // Disconnects a block the same way.
  method UnapplyBlock(coinsTip: CoinsViewCache, block: Ledger.Block, undo: Ledger.BlockUndo, height: nat,
                      prevHash: Hash)
    returns (clean: bool)
    requires coinsTip.Ready() && coinsTip.Best() == block.hash && prevHash != NULL_HASH
    requires forall i :: 0 <= i < |undo| ==> Validation.NoNulls(undo[i])
    modifies coinsTip.Repr
    ensures coinsTip.Ready()
    ensures clean == Ledger.DisconnectBlock(old(coinsTip.View()), block, undo, height).Some?
    ensures clean ==> coinsTip.View() == Ledger.DisconnectBlock(old(coinsTip.View()), block, undo, height).value
    ensures clean ==> coinsTip.Best() == prevHash
    ensures !clean ==> coinsTip.View() == old(coinsTip.View()) && coinsTip.Best() == old(coinsTip.Best())
  {
    hide CoinsViewCache.Valid, CoinsViewCache.View, CoinsViewCache.Best, CoinsViewCache.BaseView,
         CoinsViewCache.BaseBest, Ledger.ConnectBlock, Ledger.DisconnectBlock;
    var view := new CoinsViewCache(Cache(coinsTip), coinsTip.weight);
    view.StandsOn();
    var best := view.GetBestBlock();
    assert best == block.hash;
    clean := Validation.DisconnectBlock(view, block, undo, height, prevHash);
    view.StandsOn();
    if clean {
      view.Flush();
      view.StandsOn();
    }
  }

  // The genesis block only moves the best block.
  method ApplyGenesis(coinsTip: CoinsViewCache, hash: BlockHash)
    requires coinsTip.Ready() && coinsTip.Best() == NULL_HASH
    modifies coinsTip.Repr
    ensures coinsTip.Ready() && coinsTip.View() == old(coinsTip.View()) && coinsTip.Best() == hash
  {
    hide CoinsViewCache.Valid, CoinsViewCache.View, CoinsViewCache.Best, CoinsViewCache.BaseView,
         CoinsViewCache.BaseBest, Ledger.ConnectBlock, Ledger.DisconnectBlock;
    var view := new CoinsViewCache(Cache(coinsTip), coinsTip.weight);
    view.StandsOn();
    var best := view.GetBestBlock();
    assert best == NULL_HASH;
    view.SetBestBlock(hash);
    view.Flush();
    view.StandsOn();
  }

  // Writes the coins cache to the database below it, which changes coins of
  // negative version and nothing else.
  method FlushTip(coinsTip: CoinsViewCache)
    requires coinsTip.Ready() && coinsTip.base.Database?
    modifies coinsTip.Repr
    ensures coinsTip.Ready() && coinsTip.Best() == old(coinsTip.Best())
    ensures coinsTip.View() == Faded(old(coinsTip.View()), {})
    ensures coinsTip.View() == old(coinsTip.View())
            <==> forall h :: h in old(coinsTip.View()) ==> old(coinsTip.View())[h].version >= 0
  {
    hide CoinsViewCache.Valid, CoinsViewCache.View, Faded;
    FadedIsExact(coinsTip.View(), {});
    coinsTip.FlushKeepsBest();
    coinsTip.Flush();
  }

  datatype Step = Connect(pindex: BlockIndex) | Disconnect | FlushToDisk

  // The tip, and the txids whose coins have not been through storage since they
  // were made.
  datatype Reached = Reached(tip: Option<BlockIndex>, exact: set<Hash>)

  function Before(p: BlockIndex): Option<BlockIndex> {
    if p.Genesis? then None else Some(p.prev)
  }

  // The coins that connecting the blocks of the chain in order gives.
  function CoinsOf(tip: Option<BlockIndex>): Utxo {
    if tip.None? || Replay(tip.value).None? then map[] else Replay(tip.value).value
  }

  // A block is connected if it extends the tip and the rules let it; all but
  // the genesis block can be disconnected; flushing keeps the tip.
  function StepFrom(r: Reached, step: Step): Reached {
    match step
    case Connect(p) =>
      if r.tip == Before(p) && Replay(p).Some? then Reached(Some(p), r.exact + p.Txids()) else r
    case Disconnect =>
      if r.tip.Some? && r.tip.value.Child? then Reached(Before(r.tip.value), r.exact * CoinsOf(r.tip).Keys) else r
    case FlushToDisk => Reached(r.tip, {})
  }

  function AfterSteps(r: Reached, steps: seq<Step>): Reached {
    if steps == [] then r else StepFrom(AfterSteps(r, steps[..|steps| - 1]), steps[|steps| - 1])
  }

  // A block whose coinbase has version -1.
  const OLD_MINT := Tx(8, -1, [OutPoint(NULL_HASH, NULL_INDEX)], [TxOut(6, [])])
  const OLD_COINS := Coins(true, [TxOut(6, [])], 1, -1)
  const GENESIS := Genesis(1)
  const OLD_CHAIN := Child(GENESIS, 2, [OLD_MINT], true)

  lemma OldBlockConnects()
    ensures Replay(OLD_CHAIN) == Some(map[8 := OLD_COINS]) && OLD_CHAIN.CollisionFree()
  {
    hide Ledger.GetBlockSubsidy;
    var vtx := [OLD_MINT];
    assert Ledger.ValueOut(OLD_MINT.vout) == 6 && Ledger.TxValid(OLD_MINT);
    assert FromTx(OLD_MINT, 1) == OLD_COINS;
    assert Ledger.ConnectTxs(map[], vtx, 0, 1) == Some(Ledger.Connected(map[], [], 0));
    assert Ledger.ConnectTxs(map[], vtx, 1, 1) == Some(Ledger.Connected(map[8 := OLD_COINS], [], 0));
    LedgerStored.FirstEra(1);
    var block := OLD_CHAIN.Block();
    assert Ledger.BlockValid(block) && OLD_CHAIN.Height() == 1;
    assert Ledger.ConnectBlock(map[], block, 1) == Some(Ledger.Connected(map[8 := OLD_COINS], [], 0));
    assert Replay(GENESIS) == Some(map[]);
  }

  // Connecting it and flushing leads to coins that are not those of its chain:
  // the version has become 127.
  lemma FlushingShows()
    ensures var r := AfterSteps(Reached(None, {}), [Connect(GENESIS), Connect(OLD_CHAIN), FlushToDisk]);
            && r == Reached(Some(OLD_CHAIN), {})
            && Faded(CoinsOf(r.tip), r.exact) == map[8 := OLD_COINS.(version := 127)] != CoinsOf(r.tip)
  {
    hide Replay;
    OldBlockConnects();
    var steps := [Connect(GENESIS), Connect(OLD_CHAIN), FlushToDisk];
    GenesisReplays();
    assert steps[..2][..1] == steps[..1] && steps[..1][..0] == [];
    assert AfterSteps(Reached(None, {}), steps[..1]) == Reached(Some(GENESIS), {});
    assert steps[..2][1] == Connect(OLD_CHAIN);
    var second := AfterSteps(Reached(None, {}), steps[..2]);
    assert second == StepFrom(Reached(Some(GENESIS), {}), Connect(OLD_CHAIN));
    assert AfterSteps(Reached(None, {}), steps) == StepFrom(second, FlushToDisk);
    var coins := CoinsOf(Some(OLD_CHAIN));
    assert coins == map[8 := OLD_COINS];
    assert Faded(coins, {}) == map[8 := OLD_COINS.(version := 127)];
    assert coins[8].version == -1;
  }

  lemma GenesisReplays()
    ensures Replay(GENESIS).Some?
  {
  }

  class ChainState {
    const pcoinsTip: CoinsViewCache
    // the tip of the active chain
    var tip: Option<BlockIndex>
    // what is read back from the undo files, by block
    var undoFiles: map<BlockIndex, Ledger.BlockUndo>
    // the txids whose coins have not been through storage
    ghost var exact: set<Hash>

    // The blocks of p have undo data, except genesis.
    static ghost predicate StoredIn(files: map<BlockIndex, Ledger.BlockUndo>, p: BlockIndex) {
      p.Child? ==> p in files && StoredIn(files, p.prev)
    }

    // Undo data is what storage keeps of what connecting the block gives,
    // whenever that happened.
    ghost predicate UndoSound()
      reads this`undoFiles
    {
      forall p :: p in undoFiles ==>
        p.Child? && Replay(p).Some? && p.CollisionFree() && undoFiles[p] == Ledger.StoredBlockUndo(UndoOf(p))
    }

    // The coins are those of the active chain, but for what storage lost.
    ghost predicate Valid()
      reads this, pcoinsTip.Repr
    {
      && this !in pcoinsTip.Repr && pcoinsTip.base.Database?
      && pcoinsTip.Ready()
      && UndoSound()
      && pcoinsTip.View() == Faded(CoinsOf(tip), exact)
      && pcoinsTip.Best() == (if tip.None? then NULL_HASH else tip.value.hash)
      && (tip.Some? ==> Replay(tip.value).Some? && tip.value.CollisionFree() && StoredIn(undoFiles, tip.value))
    }

    static lemma {:induction false} StaysStored(files: map<BlockIndex, Ledger.BlockUndo>, q: BlockIndex,
                                                undo: Ledger.BlockUndo, p: BlockIndex)
      requires StoredIn(files, p)
      ensures StoredIn(files[q := undo], p)
    {
      if p.Child? {
        StaysStored(files, q, undo, p.prev);
      }
    }

    constructor (db: CoinsViewDB, weight: Coins -> nat)
      requires db.Valid() && db.coins == map[] && db.bestBlock == NULL_HASH
      ensures Valid() && tip == None && exact == {} && fresh(pcoinsTip)
      ensures pcoinsTip.Repr == {pcoinsTip, db}
    {
      tip, undoFiles, exact := None, map[], {};
      pcoinsTip := new CoinsViewCache(Database(db), weight);
    }

    // Undo data is written the first time only.
    method WriteUndo(p: BlockIndex, undo: Ledger.BlockUndo)
      requires UndoSound() && p.Child? && Replay(p).Some? && p.CollisionFree() && StoredIn(undoFiles, p.prev)
      requires Ledger.StoredBlockUndo(undo) == Ledger.StoredBlockUndo(UndoOf(p))
      modifies this`undoFiles
      ensures UndoSound() && StoredIn(undoFiles, p)
    {
      hide Ledger.StoredBlockUndo, Replay, UndoOf;
      if p !in undoFiles {
        StaysStored(undoFiles, p, Ledger.StoredBlockUndo(undo), p.prev);
        undoFiles := undoFiles[p := Ledger.StoredBlockUndo(undo)];
      }
    }

    // Connects pindexNew on top of the tip. On failure nothing changes.
    method ConnectTip(pindexNew: BlockIndex) returns (ok: bool)
      requires Valid() && pindexNew.CollisionFree() && pindexNew.Height() < Ledger.HEIGHT_LIMIT
      requires tip == Before(pindexNew)
      modifies this, pcoinsTip.Repr
      ensures Valid()
      ensures ok == Replay(pindexNew).Some?
      ensures Reached(tip, exact) == StepFrom(old(Reached(tip, exact)), Connect(pindexNew))
      ensures !ok ==> pcoinsTip.View() == old(pcoinsTip.View())
    {
      hide CoinsViewCache.Valid, CoinsViewCache.View, CoinsViewCache.Best, CoinsViewCache.Ready, Ledger.ConnectBlock,
           Ledger.DisconnectBlock, Faded, Ledger.StoredBlockUndo, UndoSound;
      ok := true;
      if pindexNew.Genesis? {
        FadedIsExact(map[], exact);
        assert exact + pindexNew.Txids() == exact;
        ApplyGenesis(pcoinsTip, pindexNew.hash);
      } else {
        var undo: Ledger.BlockUndo;
        LedgerStored.FadedConnectBlock(CoinsOf(tip), exact, pindexNew.Block(), pindexNew.Height());
        ok, undo := ApplyBlock(pcoinsTip, pindexNew.Block(), pindexNew.Height(), pindexNew.prev.hash);
        if !ok {
          return;
        }
        WriteUndo(pindexNew, undo);
      }
      tip, exact := Some(pindexNew), exact + pindexNew.Txids();
    }

    // Disconnects the tip, which can only fail for the genesis block: it has
    // no undo data.
    method DisconnectTip() returns (ok: bool)
      requires Valid() && tip.Some?
      modifies this, pcoinsTip.Repr
      ensures Valid()
      ensures ok == old(tip).value.Child?
      ensures Reached(tip, exact) == StepFrom(old(Reached(tip, exact)), Disconnect)
      ensures !ok ==> pcoinsTip.View() == old(pcoinsTip.View())
      ensures undoFiles == old(undoFiles)
    {
      hide CoinsViewCache.Valid, CoinsViewCache.View, CoinsViewCache.Best, CoinsViewCache.Ready, Ledger.ConnectBlock,
           Ledger.DisconnectBlock, Faded, Ledger.StoredBlockUndo;
      var pindexDelete := tip.value;
      if pindexDelete !in undoFiles {
        return false;
      }
      ReplaySound(pindexDelete);
      ReplaySound(pindexDelete.prev);
      LedgerStored.StoredDisconnect(CoinsOf(Some(pindexDelete.prev)), exact, pindexDelete.Block(),
                                    pindexDelete.Height());
      ok := UnapplyBlock(pcoinsTip, pindexDelete.Block(), undoFiles[pindexDelete],
                         pindexDelete.Height(), pindexDelete.prev.hash);
      tip, exact := Some(pindexDelete.prev), exact * CoinsOf(Some(pindexDelete)).Keys;
    }

    // Coins of negative versions come back changed, everything else stays.
    method FlushStateToDisk()
      requires Valid()
      modifies this`exact, pcoinsTip.Repr
      ensures Valid() && exact == {}
      ensures pcoinsTip.View() == Faded(old(pcoinsTip.View()), {})
    {
      hide CoinsViewCache.Valid, CoinsViewCache.View, CoinsViewCache.Best, CoinsViewCache.Ready, Replay, Faded;
      FadedTwice(CoinsOf(tip), exact, {});
      FlushTip(pcoinsTip);
      assert exact * {} == {};
      exact := {};
    }

    // So whatever is unspent never exceeds what was issued.
    lemma UnspentBounded()
      requires Valid() && tip.Some? && tip.value.Height() < Ledger.HEIGHT_LIMIT
      ensures Supply.Total(pcoinsTip.View()) <= Supply.Issued(tip.value.Height() + 1) <= MAX_MONEY
    {
      hide CoinsViewCache.Valid, CoinsViewCache.View, CoinsViewCache.Best, CoinsViewCache.Ready, Faded, Supply.Total,
           Supply.Issued, Ledger.ConnectBlock;
      SupplyBound(tip.value);
      Supply.FadedTotal(CoinsOf(tip), exact);
    }

    // Any run of connects, disconnects and flushes, failures included, ends at
    // the tip that the rules lead to, as best block, with the coins that
    // connecting the blocks of its chain in order from the empty map gives, but
    // for what storage has made of those that are not exact. So the coins are
    // exactly those of the chain if and only if no other has a negative version,
    // and always if no transaction of the chain has one.
    method Run(steps: seq<Step>)
      requires Valid()
      requires forall i :: 0 <= i < |steps| && steps[i].Connect? ==>
                 steps[i].pindex.CollisionFree() && steps[i].pindex.Height() < Ledger.HEIGHT_LIMIT
      modifies this, pcoinsTip.Repr
      ensures Valid()
      ensures Reached(tip, exact) == AfterSteps(old(Reached(tip, exact)), steps)
      ensures pcoinsTip.View() == Faded(CoinsOf(tip), exact)
      ensures pcoinsTip.Best() == if tip.None? then NULL_HASH else tip.value.hash
      ensures pcoinsTip.View() == CoinsOf(tip)
              <==> forall h :: h in CoinsOf(tip) && h !in exact ==> CoinsOf(tip)[h].version >= 0
      ensures tip.Some? && tip.value.VersionsKept() ==> Replay(tip.value) == Some(pcoinsTip.View())
    {
      hide CoinsViewCache.Valid, CoinsViewCache.View, CoinsViewCache.Best, CoinsViewCache.Ready, Faded;
      for i := 0 to |steps|
        invariant Valid() && Reached(tip, exact) == AfterSteps(old(Reached(tip, exact)), steps[..i])
      {
        assert steps[..i + 1][..i] == steps[..i];
        match steps[i] {
          case Connect(pindex) =>
            if tip == Before(pindex) {
              var _ := ConnectTip(pindex);
            }
          case Disconnect =>
            if tip.Some? {
              var _ := DisconnectTip();
            }
          case FlushToDisk =>
            FlushStateToDisk();
        }
      }
      assert steps[..|steps|] == steps;
      FadedIsExact(CoinsOf(tip), exact);
      if tip.Some? && tip.value.VersionsKept() {
        VersionsStay(tip.value);
      }
    }
  }
}
