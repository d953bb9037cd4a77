// The write-back coins cache: layers with DIRTY and FRESH flags over a
// database, each standing for one plain map of coins.
module CoinsCache {
  import opened Coins

  // isDirty: possibly different from the parent view.
  // isFresh: the parent view has no unspent output for this txid.
  datatype CacheEntry = CacheEntry(coins: Coins, isDirty: bool, isFresh: bool)

  type CoinsMap = map<Hash, CacheEntry>

  // What a cache over the plain map b stands for: its entries, applied to b.
  ghost function Overlay(b: Utxo, c: CoinsMap): Utxo {
    if c == map[] then b else
      var h :| h in c;
      Put(Overlay(b, c - {h}), h, c[h].coins)
  }

  lemma PutAt(u: Utxo, k: Hash, c: Coins, h: Hash)
    ensures h in Put(u, k, c) <==> if h == k then c.vout != [] else h in u
    ensures h in Put(u, k, c) ==> Put(u, k, c)[h] == if h == k then c else u[h]
  {
  }

  lemma {:induction false} OverlayAt(b: Utxo, c: CoinsMap, h: Hash)
    ensures h in Overlay(b, c) <==> if h in c then c[h].coins.vout != [] else h in b
    ensures h in Overlay(b, c) ==> Overlay(b, c)[h] == if h in c then c[h].coins else b[h]
    decreases |c|
  {
    if c == map[] {
      assert Overlay(b, c) == b;
    } else {
      var k :| k in c && Overlay(b, c) == Put(Overlay(b, c - {k}), k, c[k].coins);
      var c' := c - {k};
      OverlayAt(b, c', h);
      PutAt(Overlay(b, c'), k, c[k].coins, h);
      assert h != k ==> (h in c <==> h in c');
    }
  }

  lemma SameMap(l: Utxo, r: Utxo)
    requires forall k :: (k in l <==> k in r) && (k in l ==> l[k] == r[k])
    ensures l == r
  {
    assert l.Keys == r.Keys;
  }

  // Caching what the map below has, or a pruned entry for what it lacks.
  lemma OverlayPull(b: Utxo, c: CoinsMap, h: Hash, e: CacheEntry)
    requires h !in c
    requires if h in b then e.coins == b[h] && e.coins.vout != [] else e.coins.vout == []
    ensures Overlay(b, c[h := e]) == Overlay(b, c)
  {
    var l, r := Overlay(b, c[h := e]), Overlay(b, c);
    forall k ensures (k in l <==> k in r) && (k in l ==> l[k] == r[k]) {
      OverlayAt(b, c[h := e], k);
      OverlayAt(b, c, k);
    }
    SameMap(l, r);
  }

  lemma OverlayPut(b: Utxo, c: CoinsMap, h: Hash, e: CacheEntry)
    ensures Overlay(b, c[h := e]) == Put(Overlay(b, c), h, e.coins)
  {
    var l, r := Overlay(b, c[h := e]), Put(Overlay(b, c), h, e.coins);
    forall k ensures (k in l <==> k in r) && (k in l ==> l[k] == r[k]) {
      OverlayAt(b, c[h := e], k);
      OverlayAt(b, c, k);
    }
    SameMap(l, r);
  }

  // Only the flags change.
  lemma OverlayTouch(b: Utxo, c: CoinsMap, h: Hash)
    requires h in c
    ensures Overlay(b, c[h := c[h].(isDirty := true)]) == Overlay(b, c)
  {
    OverlayPut(b, c, h, c[h].(isDirty := true));
    OverlayPut(b, c, h, c[h]);
    assert c[h := c[h]] == c;
  }

  // Forgetting an entry that the map below does not know either.
  lemma OverlayDrop(b: Utxo, c: CoinsMap, h: Hash)
    requires h !in b
    ensures Overlay(b, c - {h}) == Overlay(b, c) - {h}
  {
    var l, r := Overlay(b, c - {h}), Overlay(b, c) - {h};
    forall k ensures (k in l <==> k in r) && (k in l ==> l[k] == r[k]) {
      OverlayAt(b, c - {h}, k);
      OverlayAt(b, c, k);
    }
    SameMap(l, r);
  }

  // One entry of a batch, taken first; a clean one changes nothing.
  lemma OverlayTake(b: Utxo, c: CoinsMap, h: Hash)
    requires h in c && EntriesOk(b, c) && Canonical(b)
    ensures Overlay(b, c) == Overlay(Put(b, h, c[h].coins), c - {h})
    ensures EntriesOk(Put(b, h, c[h].coins), c - {h}) && Canonical(Put(b, h, c[h].coins))
    ensures !c[h].isDirty ==> Put(b, h, c[h].coins) == b
  {
    var b' := Put(b, h, c[h].coins);
    assert EntryOk(b, h, c[h]);
    forall k ensures (k in Overlay(b, c) <==> k in Overlay(b', c - {h}))
                     && (k in Overlay(b, c) ==> Overlay(b, c)[k] == Overlay(b', c - {h})[k]) {
      OverlayAt(b, c, k);
      OverlayAt(b', c - {h}, k);
    }
    SameMap(Overlay(b, c), Overlay(b', c - {h}));
    forall k | k in c - {h} ensures EntryOk(b', k, (c - {h})[k]) {
      assert EntryOk(b, k, c[k]);
    }
    if !c[h].isDirty {
      SameMap(b', b);
    }
  }

  lemma OverlayCanonical(b: Utxo, c: CoinsMap)
    requires Canonical(b) && EntriesOk(b, c)
    ensures Canonical(Overlay(b, c))
  {
    forall h ensures h in Overlay(b, c) ==> Tidy(Overlay(b, c)[h].vout) && Overlay(b, c)[h].vout != [] {
      OverlayAt(b, c, h);
    }
  }

  // The promise each flag makes about the map below.
  ghost predicate EntryOk(b: Utxo, h: Hash, e: CacheEntry) {
    && Tidy(e.coins.vout)
    && (e.isFresh ==> h !in b)
    && (!e.isDirty ==> if h in b then e.coins == b[h] else e.coins.vout == [])
  }

  ghost predicate EntriesOk(b: Utxo, c: CoinsMap) {
    forall h :: h in c ==> EntryOk(b, h, c[h])
  }

  // A non-fresh entry was pulled through the parent cache, which still has it.
  ghost predicate Inherited(parent: CoinsMap, c: CoinsMap) {
    forall h :: h in c && !c[h].isFresh ==> h in parent
  }

  // A layer keeps its promises when one entry is replaced by another that
  // keeps them, or is dropped.
  lemma LayerSet(b: Utxo, parent: CoinsMap, c: CoinsMap, h: Hash, e: CacheEntry)
    requires EntriesOk(b, c) && EntryOk(b, h, e)
    ensures EntriesOk(b, c[h := e]) && EntriesOk(b, c - {h})
    ensures Inherited(parent, c) && (e.isFresh || h in parent) ==> Inherited(parent, c[h := e])
    ensures Inherited(parent, c) ==> Inherited(parent, c - {h})
  {
    forall k | k in c ensures EntryOk(b, k, c[k]) {
    }
  }

  // ------------------------------------------------------- memory accounting

  ghost function TotalUsage(weight: Coins -> nat, c: CoinsMap): nat {
    if c == map[] then 0 else
      var h :| h in c;
      weight(c[h].coins) + TotalUsage(weight, c - {h})
  }

  lemma {:induction false} UsageSplit(weight: Coins -> nat, c: CoinsMap, h: Hash)
    requires h in c
    ensures TotalUsage(weight, c) == weight(c[h].coins) + TotalUsage(weight, c - {h})
    decreases |c|
  {
    var k :| k in c && TotalUsage(weight, c) == weight(c[k].coins) + TotalUsage(weight, c - {k});
    if k != h {
      UsageSplit(weight, c - {k}, h);
      UsageSplit(weight, c - {h}, k);
      assert c - {k} - {h} == c - {h} - {k};
    }
  }

  lemma UsageReplace(weight: Coins -> nat, c: CoinsMap, h: Hash, e: CacheEntry)
    ensures TotalUsage(weight, c[h := e]) == weight(e.coins) + TotalUsage(weight, c - {h})
  {
    UsageSplit(weight, c[h := e], h);
    assert c[h := e] - {h} == c - {h};
  }

  lemma UsageWithout(weight: Coins -> nat, c: CoinsMap, h: Hash)
    requires h !in c
    ensures TotalUsage(weight, c - {h}) == TotalUsage(weight, c)
  {
    assert c - {h} == c;
  }

  // ---------------------------------------------------------------- the views

  class CoinsViewDB {
    var coins: Utxo
    var bestBlock: Hash

    // What is read from the disk has no negative version.
    ghost predicate Valid()
      reads this
    {
      Canonical(coins) && forall h :: h in coins ==> coins[h].version >= 0
    }

    constructor ()
      ensures Valid() && coins == map[] && bestBlock == NULL_HASH
    {
      coins, bestBlock := map[], NULL_HASH;
    }

    // The dirty coins are written, which keeps only what storage keeps of them.
    method BatchWrite(mapCoins: CoinsMap, hashBlockIn: Hash)
      requires Valid() && EntriesOk(coins, mapCoins)
      modifies this
      ensures Valid() && coins == Faded(Overlay(old(coins), mapCoins), {})
      ensures bestBlock == if hashBlockIn != NULL_HASH then hashBlockIn else old(bestBlock)
    {
      hide Overlay, EntriesOk;
      var rest := mapCoins;
      ghost var exact := coins;
      FadedIsExact(coins, {});
      while rest != map[]
        invariant Canonical(exact) && EntriesOk(exact, rest) && bestBlock == old(bestBlock)
        invariant Overlay(exact, rest) == Overlay(old(coins), mapCoins) && coins == Faded(exact, {})
        decreases |rest|
      {
        var h :| h in rest;
        OverlayTake(exact, rest, h);
        if rest[h].isDirty {
          FadePut(exact, h, rest[h].coins);
          coins := Put(coins, h, Stored(rest[h].coins));
        }
        exact := Put(exact, h, rest[h].coins);
        rest := rest - {h};
      }
      NothingCached(_ => 0, exact);
      FadedCanonical(exact, {});
      if hashBlockIn != NULL_HASH {
        bestBlock := hashBlockIn;
      }
    }
  }

  lemma FadePut(u: Utxo, h: Hash, c: Coins)
    ensures Put(Faded(u, {}), h, Stored(c)) == Faded(Put(u, h, c), {})
  {
  }

  datatype CoinsView = Database(db: CoinsViewDB) | Cache(cache: CoinsViewCache)

  class CoinsViewCache {
    const base: CoinsView
    // memory taken by one coins value
    const weight: Coins -> nat
    var hasModifier: bool
    var hashBlock: Hash
    var cacheCoins: CoinsMap
    var cachedCoinsUsage: nat

    ghost const Repr: set<object>

    ghost predicate Layered()
      decreases Repr
    {
      && this in Repr
      && match base
         case Database(db) => Repr == {this, db}
         case Cache(cache) =>
           cache in cache.Repr && this !in cache.Repr && Repr == {this} + cache.Repr && cache.Layered()
    }

    // The map of unspent coins this view stands for.
    ghost function View(): Utxo
      requires Layered()
      reads Repr
      decreases Repr, 1
    {
      Overlay(BaseView(), cacheCoins)
    }

    ghost function BaseView(): Utxo
      requires Layered()
      reads Repr - {this}
      decreases Repr, 0
    {
      match base
      case Database(db) => db.coins
      case Cache(cache) => cache.View()
    }

    // What every view of the stack stands for, the database's first.
    ghost function Views(): (views: seq<Utxo>)
      requires Layered()
      reads Repr
      ensures |views| >= 2 && views[|views| - 1] == View()
      decreases Repr, 3
    {
      BaseViews() + [View()]
    }

    ghost function BaseViews(): (views: seq<Utxo>)
      requires Layered()
      reads Repr - {this}
      ensures |views| >= 1 && views[|views| - 1] == BaseView() && (|views| == 1 <==> base.Database?)
      decreases Repr, 2
    {
      match base
      case Database(db) => [db.coins]
      case Cache(cache) => cache.Views()
    }

    ghost function Best(): Hash
      requires Layered()
      reads Repr
      decreases Repr, 1
    {
      if hashBlock != NULL_HASH then hashBlock else BaseBest()
    }

    ghost function BaseBest(): Hash
      requires Layered()
      reads Repr - {this}
      decreases Repr, 0
    {
      match base
      case Database(db) => db.bestBlock
      case Cache(cache) => cache.Best()
    }

    // The view below is in order and no modifier is live on it.
    ghost predicate BaseValid()
      requires Layered()
      reads Repr - {this}
      decreases Repr, 0
    {
      match base
      case Database(db) => db.Valid()
      case Cache(cache) => cache.Valid() && !cache.hasModifier
    }

    ghost function BaseEntries(): CoinsMap
      requires Layered()
      reads Repr - {this}
    {
      if base.Cache? then base.cache.cacheCoins else map[]
    }

    ghost predicate Valid()
      reads Repr
      ensures Valid() ==> Layered() && this in Repr
      decreases Repr, 1
    {
      && Layered()
      && BaseValid()
      && (base.Cache? ==> Inherited(BaseEntries(), cacheCoins))
      && EntriesOk(BaseView(), cacheCoins)
      && (!hasModifier ==> cachedCoinsUsage == TotalUsage(weight, cacheCoins))
    }

    // A child cache stands on the layer below it.
    lemma StandsOn()
      requires base.Cache? && Layered()
      ensures base.cache.Layered() && base.cache.Repr <= Repr - {this}
      ensures BaseView() == base.cache.View() && BaseBest() == base.cache.Best()
      ensures BaseViews() == base.cache.Views()
      ensures Valid() ==> base.cache.Ready()
    {
      if Valid() {
        assert BaseValid();
        assert base.cache.Valid();
      }
    }

    // The best block that the view below has once this one is flushed.
    ghost function BestAfterFlush(): Hash
      requires Layered()
      reads Repr
    {
      if hashBlock != NULL_HASH then hashBlock
      else
        match base
        case Database(db) => db.bestBlock
        case Cache(cache) => cache.BaseBest()
    }

    // Flushing keeps the best block unless this cache never read or set it
    // while the layer below had set one of its own.
    lemma FlushKeepsBest()
      requires Layered()
      ensures BestAfterFlush() == Best() <==>
                hashBlock != NULL_HASH || base.Database? || base.cache.hashBlock == NULL_HASH
                || base.cache.hashBlock == base.cache.BaseBest()
    {
      if base.Cache? {
        StandsOn();
      }
    }

    // In order, and with no modifier live anywhere.
    ghost predicate Ready()
      reads Repr
    {
      Valid() && !hasModifier
    }

    lemma ViewIsCanonical()
      requires Valid()
      ensures Canonical(BaseView()) && Canonical(View())
      decreases Repr
    {
      if base.Cache? {
        base.cache.ViewIsCanonical();
      }
      OverlayCanonical(BaseView(), cacheCoins);
    }

    constructor (base: CoinsView, weight: Coins -> nat)
      requires base.Database? ==> base.db.Valid()
      requires base.Cache? ==> base.cache.Valid() && !base.cache.hasModifier
      ensures Valid() && !hasModifier && this.base == base && this.weight == weight
      ensures Repr == {this} + (match base case Database(db) => {db} case Cache(cache) => cache.Repr)
      ensures View() == BaseView() && Best() == BaseBest() && cacheCoins == map[] && hashBlock == NULL_HASH
    {
      this.base, this.weight := base, weight;
      hasModifier, hashBlock, cacheCoins, cachedCoinsUsage := false, NULL_HASH, map[], 0;
      Repr := {this} + match base case Database(db) => {db} case Cache(cache) => cache.Repr;
      new;
      ViewIsCanonical();
    }

    // Looks a txid up, filling this cache and those below it. Only the new
    // entry is added, and no view changes.
    method FetchCoins(txid: Hash) returns (found: bool)
      requires Valid()
      modifies Repr
      ensures Valid() && hasModifier == old(hasModifier)
      ensures View() == old(View()) && Best() == old(Best()) && BaseBest() == old(BaseBest())
      ensures BaseViews() == old(BaseViews()) && hashBlock == old(hashBlock)
      ensures found == (txid in cacheCoins)
      ensures found ==> cacheCoins == old(cacheCoins)[txid := cacheCoins[txid]]
      ensures old(txid in cacheCoins) ==> found && cacheCoins[txid] == old(cacheCoins[txid])
      ensures !found ==> txid !in View() && cacheCoins == old(cacheCoins)
      ensures found ==> cacheCoins[txid].coins.vout != [] ==> txid in View() && View()[txid] == cacheCoins[txid].coins
      ensures found ==> cacheCoins[txid].coins.vout == [] ==> txid !in View()
      ensures found ==> Tidy(cacheCoins[txid].coins.vout)
      decreases Repr, 1
    {
      OverlayAt(BaseView(), cacheCoins, txid);
      ViewIsCanonical();
      if txid in cacheCoins {
        return true;
      }
      var have, tmp := GetBaseCoins(txid);
      if !have {
        return false;
      }
      KeepFetched(txid, tmp);
      return true;
    }

    // Stores what the view below has; an empty answer makes the entry fresh.
    method KeepFetched(txid: Hash, coins: Coins)
      requires Valid() && txid !in cacheCoins && Tidy(coins.vout)
      requires if coins.vout == [] then txid !in BaseView() else txid in BaseView() && BaseView()[txid] == coins
      requires base.Cache? ==> txid in base.cache.cacheCoins
      modifies this`cacheCoins, this`cachedCoinsUsage
      ensures Valid() && View() == old(View())
      ensures cacheCoins == old(cacheCoins)[txid := CacheEntry(coins, false, coins.vout == [])]
      ensures cachedCoinsUsage - TotalUsage(weight, cacheCoins)
              == old(cachedCoinsUsage) - TotalUsage(weight, old(cacheCoins))
    {
      TidyMeansTrimmed(coins.vout);
      var entry := CacheEntry(coins, false, coins.IsPruned());
      UsageReplace(weight, cacheCoins, txid, entry);
      UsageWithout(weight, cacheCoins, txid);
      OverlayPull(BaseView(), cacheCoins, txid, entry);
      cacheCoins := cacheCoins[txid := entry];
      cachedCoinsUsage := cachedCoinsUsage + weight(coins);
    }

    // The virtual call base->GetCoins.
    method GetBaseCoins(txid: Hash) returns (have: bool, coins: Coins)
      requires Valid()
      modifies Repr - {this}
      ensures Valid() && BaseViews() == old(BaseViews()) && BaseBest() == old(BaseBest())
      ensures !have ==> txid !in BaseView()
      ensures have ==> Tidy(coins.vout)
      ensures have && coins.vout != [] ==> txid in BaseView() && BaseView()[txid] == coins
      ensures have && coins.vout == [] ==> txid !in BaseView()
      ensures have && base.Cache? ==> txid in base.cache.cacheCoins
      decreases Repr, 0
    {
      match base {
        case Database(db) =>
          if txid in db.coins {
            return true, db.coins[txid];
          }
          return false, NO_COINS;
        case Cache(cache) =>
          assert Repr - {this} == cache.Repr;
          have, coins := cache.GetCoins(txid);
      }
    }

    method GetCoins(txid: Hash) returns (have: bool, coins: Coins)
      requires Valid()
      modifies Repr
      ensures Valid() && hasModifier == old(hasModifier)
      ensures View() == old(View()) && Best() == old(Best())
      ensures BaseViews() == old(BaseViews()) && BaseBest() == old(BaseBest())
      ensures old(cacheCoins.Keys) <= cacheCoins.Keys
      ensures !have ==> txid !in View()
      ensures have ==> txid in cacheCoins && Tidy(coins.vout)
      ensures have && coins.vout != [] ==> txid in View() && View()[txid] == coins
      ensures have && coins.vout == [] ==> txid !in View()
      decreases Repr, 2
    {
      have := FetchCoins(txid);
      coins := if have then cacheCoins[txid].coins else NO_COINS;
    }

    method HaveCoins(txid: Hash) returns (have: bool)
      requires Valid()
      modifies Repr
      ensures Valid() && hasModifier == old(hasModifier)
      ensures View() == old(View()) && Best() == old(Best())
      ensures BaseViews() == old(BaseViews()) && BaseBest() == old(BaseBest())
      ensures have == (txid in View())
    {
      have := FetchCoins(txid);
      have := have && cacheCoins[txid].coins.vout != [];
    }

    // Reading the best block caches it, which changes no answer.
    method GetBestBlock() returns (best: Hash)
      requires Valid()
      modifies Repr
      ensures Valid() && hasModifier == old(hasModifier)
      ensures best == Best() && Best() == old(Best()) && View() == old(View())
      ensures BaseViews() == old(BaseViews()) && BaseBest() == old(BaseBest())
      ensures hashBlock == best && cacheCoins == old(cacheCoins)
      ensures cachedCoinsUsage == old(cachedCoinsUsage)
      decreases Repr
    {
      if hashBlock == NULL_HASH {
        match base {
          case Database(db) => hashBlock := db.bestBlock;
          case Cache(cache) =>
            var b := cache.GetBestBlock();
            hashBlock := b;
        }
      }
      best := hashBlock;
    }

    method SetBestBlock(hashBlockIn: Hash)
      requires Valid()
      modifies this`hashBlock
      ensures Valid() && hashBlock == hashBlockIn && View() == old(View())
      ensures BaseView() == old(BaseView()) && BaseBest() == old(BaseBest())
    {
      hashBlock := hashBlockIn;
    }

    // While a modifier is live, the usage counter leaves out the entry being
    // edited, except for what it counted before.
    ghost predicate Modifying(txid: Hash, usage: nat)
      reads this
    {
      && hasModifier && txid in cacheCoins && cacheCoins[txid].isDirty
      && cachedCoinsUsage == TotalUsage(weight, cacheCoins - {txid}) + usage
    }

    // Opens a modifier: hands out the coins to edit.
    method ModifyCoins(txid: Hash) returns (coins: Coins, usage: nat)
      requires Valid() && !hasModifier
      modifies Repr
      ensures Valid() && Modifying(txid, usage)
      ensures View() == old(View()) && Best() == old(Best())
      ensures BaseViews() == old(BaseViews()) && BaseBest() == old(BaseBest())
      ensures coins == cacheCoins[txid].coins && Tidy(coins.vout)
      ensures txid in View() ==> coins == View()[txid]
      ensures txid !in View() ==> coins.vout == []
    {
      if txid !in cacheCoins {
        var have, c := GetBaseCoins(txid);
        var entry :=
          if !have then CacheEntry(NO_COINS, true, true)
          else CacheEntry(c, true, c.IsPruned());
        TidyMeansTrimmed(entry.coins.vout);
        OverlayPull(BaseView(), cacheCoins, txid, entry);
        assert cacheCoins[txid := entry] - {txid} == cacheCoins;
        usage := 0;
        OpenModifier(txid, entry, usage);
      } else {
        usage := weight(cacheCoins[txid].coins);
        UsageSplit(weight, cacheCoins, txid);
        OverlayTouch(BaseView(), cacheCoins, txid);
        assert cacheCoins[txid := cacheCoins[txid].(isDirty := true)] - {txid} == cacheCoins - {txid};
        assert EntryOk(BaseView(), txid, cacheCoins[txid]);
        OpenModifier(txid, cacheCoins[txid].(isDirty := true), usage);
      }
      coins := cacheCoins[txid].coins;
      OverlayAt(BaseView(), cacheCoins, txid);
    }

    method OpenModifier(txid: Hash, entry: CacheEntry, usage: nat)
      requires Valid() && entry.isDirty && EntryOk(BaseView(), txid, entry)
      requires base.Cache? && !entry.isFresh ==> txid in BaseEntries()
      requires cachedCoinsUsage == TotalUsage(weight, cacheCoins[txid := entry] - {txid}) + usage
      modifies this`hasModifier, this`cacheCoins
      ensures Valid() && Modifying(txid, usage) && cacheCoins == old(cacheCoins)[txid := entry]
      ensures BaseView() == old(BaseView()) && BaseBest() == old(BaseBest())
    {
      LayerSet(BaseView(), BaseEntries(), cacheCoins, txid, entry);
      hasModifier, cacheCoins := true, cacheCoins[txid := entry];
    }

    // Closes the modifier: cleans the edited coins up, drops the entry if
    // nobody below knows the txid and nothing is left of it, and accounts for
    // the memory.
    method CloseModifier(txid: Hash, edited: Coins, usage: nat)
      requires Valid() && Modifying(txid, usage) && NormalNulls(edited.vout)
      modifies this
      ensures Valid() && !hasModifier && Best() == old(Best())
      ensures BaseView() == old(BaseView()) && BaseBest() == old(BaseBest())
      ensures View() == Put(old(View()), txid, edited.(vout := TrimNulls(edited.vout)))
    {
      var vout := Cleanup(edited.vout);
      TidyTrim(edited.vout);
      TidyMeansTrimmed(vout);
      var coins := edited.(vout := vout);
      var entry := cacheCoins[txid].(coins := coins);
      assert EntryOk(BaseView(), txid, cacheCoins[txid]);
      LayerSet(BaseView(), BaseEntries(), cacheCoins, txid, entry);
      if entry.isFresh && coins.IsPruned() {
        OverlayDrop(BaseView(), cacheCoins, txid);
        Replace(cacheCoins - {txid}, cachedCoinsUsage - usage);
      } else {
        UsageReplace(weight, cacheCoins, txid, entry);
        OverlayPut(BaseView(), cacheCoins, txid, entry);
        Replace(cacheCoins[txid := entry], cachedCoinsUsage - usage + weight(coins));
      }
    }

    // The one place where a modified layer is stored.
    method Replace(c: CoinsMap, usage: nat)
      requires Valid() && EntriesOk(BaseView(), c) && (base.Cache? ==> Inherited(BaseEntries(), c))
      requires usage == TotalUsage(weight, c)
      modifies this`hasModifier, this`cacheCoins, this`cachedCoinsUsage
      ensures Valid() && !hasModifier && cacheCoins == c
      ensures BaseView() == old(BaseView()) && BaseBest() == old(BaseBest())
    {
      hasModifier, cacheCoins, cachedCoinsUsage := false, c, usage;
    }

    // Takes over the entries of a child cache. The entries must satisfy the
    // flags' promises about this view.
    method BatchWrite(mapCoins: CoinsMap, hashBlockIn: Hash)
      requires Valid() && !hasModifier
      requires EntriesOk(View(), mapCoins) && Inherited(cacheCoins, mapCoins)
      modifies this
      ensures Valid() && !hasModifier && BaseView() == old(BaseView()) && BaseBest() == old(BaseBest())
      ensures View() == Overlay(old(View()), mapCoins)
      ensures hashBlock == hashBlockIn
    {
      ghost var target := Overlay(View(), mapCoins);
      var rest := mapCoins;
      while rest != map[]
        invariant Valid() && !hasModifier && BaseView() == old(BaseView()) && BaseBest() == old(BaseBest())
        invariant EntriesOk(View(), rest) && Inherited(cacheCoins, rest)
        invariant Overlay(View(), rest) == target
        decreases |rest|
      {
        var h :| h in rest;
        ViewIsCanonical();
        OverlayTake(View(), rest, h);
        assert EntryOk(View(), h, rest[h]);
        if rest[h].isDirty {
          WriteEntry(h, rest[h].coins, rest[h].isFresh);
        }
        rest := rest - {h};
      }
      assert Overlay(View(), rest) == View();
      hashBlock := hashBlockIn;
    }

    // One dirty entry of a child cache. Nothing is stored when neither this
    // cache nor the child has anything; an entry nobody below has is dropped.
    method WriteEntry(h: Hash, coins: Coins, isFresh: bool)
      requires Valid() && !hasModifier
      requires Tidy(coins.vout) && (isFresh ==> h !in View()) && (!isFresh ==> h in cacheCoins)
      modifies this`hasModifier, this`cacheCoins, this`cachedCoinsUsage
      ensures Valid() && !hasModifier && BaseView() == old(BaseView()) && BaseBest() == old(BaseBest())
      ensures View() == Put(old(View()), h, coins)
      ensures forall k :: k != h ==> (k in cacheCoins <==> k in old(cacheCoins))
    {
      TidyMeansTrimmed(coins.vout);
      OverlayAt(BaseView(), cacheCoins, h);
      if h !in cacheCoins {
        UsageWithout(weight, cacheCoins, h);
        if !coins.IsPruned() {
          assert isFresh;
          var entry := CacheEntry(coins, true, true);
          OverlayPut(BaseView(), cacheCoins, h, entry);
          LayerSet(BaseView(), BaseEntries(), cacheCoins, h, entry);
          UsageReplace(weight, cacheCoins, h, entry);
          Replace(cacheCoins[h := entry], cachedCoinsUsage + weight(coins));
        }
      } else {
        UsageSplit(weight, cacheCoins, h);
        var others := cachedCoinsUsage - weight(cacheCoins[h].coins);
        assert EntryOk(BaseView(), h, cacheCoins[h]);
        var entry := CacheEntry(coins, true, cacheCoins[h].isFresh);
        LayerSet(BaseView(), BaseEntries(), cacheCoins, h, entry);
        if cacheCoins[h].isFresh && coins.IsPruned() {
          OverlayDrop(BaseView(), cacheCoins, h);
          Replace(cacheCoins - {h}, others);
        } else {
          OverlayPut(BaseView(), cacheCoins, h, entry);
          UsageReplace(weight, cacheCoins, h, entry);
          Replace(cacheCoins[h := entry], others + weight(coins));
        }
      }
    }

    // Pushes everything to the view below, which becomes what this view was,
    // or what storage keeps of it. Its best block becomes the one recorded here,
    // even when that is still null.
    method Flush()
      requires Valid() && !hasModifier
      modifies Repr
      ensures Valid() && !hasModifier && cacheCoins == map[] && cachedCoinsUsage == 0
      ensures View() == BaseView() == if base.Database? then Faded(old(View()), {}) else old(View())
      ensures BaseViews() == old(BaseViews()[..|BaseViews()| - 1]) + [BaseView()]
      ensures hashBlock == old(hashBlock) && BaseBest() == old(BestAfterFlush())
    {
      hide Overlay, TotalUsage, EntriesOk, Canonical;
      NothingCached(weight, BaseView());
      match base {
        case Database(db) => db.BatchWrite(cacheCoins, hashBlock);
        case Cache(cache) =>
          StandsOn();
          cache.BatchWrite(cacheCoins, hashBlock);
      }
      cacheCoins := map[];
      cachedCoinsUsage := 0;
      NothingCached(weight, BaseView());
    }
  }

  // An empty cache.
  lemma NothingCached(weight: Coins -> nat, u: Utxo)
    ensures Overlay(u, map[]) == u && EntriesOk(u, map[]) && TotalUsage(weight, map[]) == 0
  {
  }
}
