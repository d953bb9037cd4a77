// The block tree with skip pointers, the indexed active chain, and locators.
module ChainIndex {
  import opened Numbers
  import opened SkipSteps

  // ------------------------------------------------------------- block index

  class BlockIndex {
    var pprev: BlockIndex?
    var pskip: BlockIndex?
    var nHeight: nat
    // the blocks from genesis to this one, as walking pprev finds them
    ghost var path: seq<BlockIndex>

    // Heights, predecessors and skip pointers of the whole path are right.
    ghost predicate Valid()
      reads this, path
    {
      && |path| == nHeight + 1 && path[nHeight] == this
      && forall i :: 0 <= i < |path| ==> At(path, i)
    }

    static ghost predicate At(path: seq<BlockIndex>, i: nat)
      requires i < |path|
      reads path
    {
      && path[i].nHeight == i && path[i].path == path[..i + 1]
      && (i == 0 ==> path[i].pprev == null && path[i].pskip == null)
      && (i > 0 ==> path[i].pprev == path[i - 1] && GetSkipHeight(i) < i && path[i].pskip == path[GetSkipHeight(i)])
    }

    lemma AncestorsValid(i: nat)
      requires Valid() && i <= nHeight
      ensures path[i].Valid() && path[i].path == path[..i + 1]
    {
      assert At(path, i);
      forall k | 0 <= k < |path[i].path| ensures At(path[i].path, k) {
        assert At(path, k);
        assert path[..i + 1][..k + 1] == path[..k + 1];
      }
    }

    // A new block on top of another, or genesis.
    constructor (pprev: BlockIndex?)
      requires pprev != null ==> pprev.Valid()
      ensures Valid() && this.pprev == pprev
      ensures path == (if pprev == null then [] else pprev.path) + [this]
    {
      this.pprev, pskip := pprev, null;
      nHeight := if pprev == null then 0 else pprev.nHeight + 1;
      path := (if pprev == null then [] else pprev.path) + [this];
      new;
      BuildSkip();
    }

    method BuildSkip()
      requires pprev != null ==> pprev.Valid() && this !in pprev.path && nHeight == pprev.nHeight + 1
      requires pprev == null ==> nHeight == 0 && pskip == null
      requires path == (if pprev == null then [] else pprev.path) + [this]
      modifies this`pskip
      ensures Valid()
    {
      if pprev != null {
        SkipGoesBack(nHeight);
        ghost var hops: nat;
        pskip, hops := pprev.GetAncestor(GetSkipHeight(nHeight));
        forall i | 0 <= i < |path| ensures At(path, i) {
          if i < nHeight {
            assert At(pprev.path, i);
            assert path[..i + 1] == pprev.path[..i + 1];
          }
        }
      }
    }

    // The block at the given height below this one, by skips where that pays,
    // is the one that walking back block by block would find. Below height 2^k it
    // takes k * k passes of the loop at most, however far back that is.
    method GetAncestor(height: int) returns (r: BlockIndex?, ghost hops: nat)
      requires Valid()
      ensures height < 0 || height > nHeight ==> r == null
      ensures 0 <= height <= nHeight ==> r == path[height]
      ensures forall k: nat :: nHeight < Pow2(k) ==> hops <= k * k
    {
      hide Pow2;
      hops := 0;
      if height > nHeight || height < 0 {
        return null, 0;
      }
      var walk: BlockIndex := this;
      var heightWalk := nHeight;
      while heightWalk > height
        invariant height <= heightWalk <= nHeight && walk == path[heightWalk]
        invariant hops + Hops(heightWalk, height) == Hops(nHeight, height)
        decreases heightWalk
      {
        hops := hops + 1;
        assert At(path, heightWalk);
        var heightSkip := GetSkipHeight(heightWalk);
        var heightSkipPrev := GetSkipHeight(heightWalk - 1);
        if heightSkip == height
           || (heightSkip > height && !(heightSkipPrev < heightSkip - 2 && heightSkipPrev >= height))
        {
          walk := walk.pskip;
          heightWalk := heightSkip;
        } else {
          walk := walk.pprev;
          heightWalk := heightWalk - 1;
        }
      }
      forall k: nat | nHeight < Pow2(k) ensures hops <= k * k {
        HopsBounded(nHeight, height, k);
      }
      return walk, hops;
    }
  }

  lemma SamePrefix(a: seq<BlockIndex>, b: seq<BlockIndex>, h: nat)
    requires h < |a| && h < |b| && a[..h + 1] == b[..h + 1]
    ensures forall i :: 0 <= i <= h ==> a[i] == b[i]
  {
    forall i | 0 <= i <= h ensures a[i] == b[i] {
      assert a[i] == a[..h + 1][i];
    }
  }

  // ------------------------------------------------------------------- chain

  class Chain {
    var vChain: seq<BlockIndex?>
    // the same, as the path of the tip
    ghost var blocks: seq<BlockIndex>

    // The chain is the whole path of its tip.
    ghost predicate Valid()
      reads this, blocks
    {
      vChain == blocks && forall i :: 0 <= i < |blocks| ==> BlockIndex.At(blocks, i)
    }

    constructor ()
      ensures Valid() && vChain == []
    {
      vChain, blocks := [], [];
    }

    function Height(): int
      reads this
    {
      |vChain| - 1
    }

    function Get(height: int): BlockIndex?
      reads this
    {
      if height < 0 || height >= |vChain| then null else vChain[height]
    }

    function Tip(): BlockIndex?
      reads this
    {
      Get(|vChain| - 1)
    }

    predicate Contains(pindex: BlockIndex)
      reads this, pindex
    {
      Get(pindex.nHeight) == pindex
    }

    // A block is in the chain exactly when the chain has its whole path.
    lemma ContainsPath(pindex: BlockIndex, h: nat)
      requires Valid() && pindex.Valid() && h <= pindex.nHeight
      ensures Contains(pindex.path[h]) <==> h < |blocks| && blocks[..h + 1] == pindex.path[..h + 1]
      ensures pindex.path[h].nHeight == h
    {
      assert BlockIndex.At(pindex.path, h);
      if h < |blocks| {
        assert BlockIndex.At(blocks, h);
        assert blocks[..h + 1] == pindex.path[..h + 1] ==> blocks[..h + 1][h] == pindex.path[..h + 1][h];
      }
    }

    // Moves the tip, rewriting only down to the first block already there.
    // The result is as if the whole chain had been rebuilt.
    method SetTip(pindex: BlockIndex?)
      requires Valid() && (pindex != null ==> pindex.Valid())
      modifies this
      ensures Valid() && blocks == if pindex == null then [] else pindex.path
    {
      if pindex == null {
        vChain, blocks := [], [];
        return;
      }
      hide GetSkipHeight;
      var n := pindex.nHeight + 1;
      ghost var before := blocks;
      vChain := if n <= |vChain| then vChain[..n] else vChain + seq(n - |vChain|, _ => null);
      var walk: BlockIndex? := pindex;
      ghost var h: int := pindex.nHeight;
      while walk != null && vChain[walk.nHeight] != walk
        invariant -1 <= h < n == |vChain|
        invariant if h < 0 then walk == null else walk == pindex.path[h] && walk.nHeight == h
        invariant forall i :: h < i < n ==> vChain[i] == pindex.path[i]
        invariant forall i :: 0 <= i <= h ==> vChain[i] == if i < |before| then before[i] else null
        invariant pindex.Valid() && Unchanged(before)
        decreases h
      {
        assert BlockIndex.At(pindex.path, h);
        vChain := vChain[walk.nHeight := walk];
        walk := walk.pprev;
        h := h - 1;
        if h >= 0 {
          assert BlockIndex.At(pindex.path, h);
        }
      }
      if walk != null {
        assert BlockIndex.At(before, h) && BlockIndex.At(pindex.path, h);
        SamePrefix(before, pindex.path, h);
      }
      blocks := pindex.path;
    }

    static ghost predicate Unchanged(path: seq<BlockIndex>)
      reads path
    {
      forall i :: 0 <= i < |path| ==> BlockIndex.At(path, i)
    }

    // The highest common block of this chain and a block's path.
    method FindFork(pindex: BlockIndex) returns (fork: BlockIndex?)
      requires Valid() && pindex.Valid()
      ensures forall h :: 0 <= h < |blocks| && h <= pindex.nHeight ==>
                (blocks[h] == pindex.path[h] <==> fork != null && h <= fork.nHeight)
      ensures fork != null ==> fork.nHeight < |blocks| && fork.nHeight <= pindex.nHeight
      ensures fork != null ==> fork == blocks[fork.nHeight] == pindex.path[fork.nHeight]
    {
      hide GetSkipHeight;
      var walk: BlockIndex? := pindex;
      if pindex.nHeight > Height() {
        ghost var hops: nat;
        walk, hops := pindex.GetAncestor(Height());
      }
      ghost var h: int := if pindex.nHeight > Height() then Height() else pindex.nHeight;
      if h >= 0 {
        assert BlockIndex.At(pindex.path, h);
      }
      while walk != null && !Contains(walk)
        invariant -1 <= h <= pindex.nHeight && h < |blocks|
        invariant if h < 0 then walk == null else walk == pindex.path[h] && walk.nHeight == h
        invariant forall i :: h < i < |blocks| && i <= pindex.nHeight ==> blocks[i] != pindex.path[i]
        decreases h
      {
        assert BlockIndex.At(pindex.path, h);
        walk := walk.pprev;
        h := h - 1;
        if h >= 0 {
          assert BlockIndex.At(pindex.path, h);
        }
      }
      fork := walk;
      if fork != null {
        ContainsPath(pindex, h);
        SamePrefix(blocks, pindex.path, h);
      }
    }

    // Blocks at heights ever further back, down to genesis. Starts at the tip
    // when no block is given.
    method GetLocator(start: BlockIndex?) returns (vHave: seq<BlockIndex>)
      requires Valid() && (start != null ==> start.Valid())
      ensures start == null && blocks == [] ==> vHave == []
      ensures start != null || blocks != [] ==>
                var path := if start != null then start.path else blocks;
                var heights := LocatorHeights(|path| - 1, 1, 0);
                && |vHave| == |heights|
                && forall i :: 0 <= i < |heights| ==> heights[i] < |path| && vHave[i] == path[heights[i]]
    {
      hide LocatorHeights, BlockIndex.At;
      var pindex := start;
      if pindex == null {
        pindex := Tip();
      }
      if pindex == null {
        return [];
      }
      if start == null {
        TipIsWhole();
      }
      vHave := LocatorFrom(pindex);
    }

    method LocatorFrom(start: BlockIndex) returns (vHave: seq<BlockIndex>)
      requires Valid() && start.Valid()
      ensures var heights := LocatorHeights(start.nHeight, 1, 0);
              && |vHave| == |heights|
              && forall i :: 0 <= i < |heights| ==> heights[i] < |start.path| && vHave[i] == start.path[heights[i]]
    {
      hide Chain.Valid, BlockIndex.Valid, LocatorHeights, LocatorBlocks, OnPath;
      OwnPath(start);
      LocatorBlocksAt(start.path, start.nHeight, 1, 0);
      ghost var all := LocatorBlocks(start.path, start.nHeight, 1, 0);
      ghost var rest := all;
      var pindex, nStep, done := start, 1, false;
      vHave := [];
      while !done
        invariant nStep >= 1 && OnPath(pindex, start.path)
        invariant pindex.nHeight < |start.path| && pindex == start.path[pindex.nHeight]
        invariant vHave + rest == all
        invariant rest == if done then [] else LocatorBlocks(start.path, pindex.nHeight, nStep, |vHave|)
        decreases |rest|
      {
        ghost var tail := AfterFirst(start.path, pindex.nHeight, nStep, |vHave|);
        LocatorUnfolds(start.path, pindex.nHeight, nStep, |vHave|);
        Regrouped(vHave, pindex, tail);
        vHave, rest := vHave + [pindex], tail;
        if pindex.nHeight == 0 {
          done := true;
        } else {
          pindex := StepBack(pindex, if pindex.nHeight - nStep > 0 then pindex.nHeight - nStep else 0, start.path);
          if |vHave| > 10 {
            nStep := nStep * 2;
          }
        }
      }
    }

    static ghost predicate OnPath(pindex: BlockIndex, path: seq<BlockIndex>)
      reads pindex, pindex.path
    {
      pindex.Valid() && pindex.nHeight < |path| && pindex.path == path[..pindex.nHeight + 1]
    }

    static lemma OwnPath(pindex: BlockIndex)
      requires pindex.Valid()
      ensures OnPath(pindex, pindex.path) && pindex == pindex.path[pindex.nHeight]
    {
    }

    // One jump back, by the chain's own index where it applies.
    method StepBack(pindex: BlockIndex, nHeight: nat, ghost path: seq<BlockIndex>) returns (back: BlockIndex)
      requires Valid() && OnPath(pindex, path) && nHeight < pindex.nHeight
      ensures OnPath(back, path) && back.nHeight == nHeight < |path| && back == path[nHeight]
    {
      hide GetSkipHeight;
      if Contains(pindex) {
        back := Get(nHeight);
        ContainsPath(pindex, pindex.nHeight);
        SamePrefix(blocks, pindex.path, pindex.nHeight);
      } else {
        ghost var hops: nat;
        back, hops := pindex.GetAncestor(nHeight);
      }
      SubPath(pindex.path, nHeight);
      assert pindex.path[..nHeight + 1] == path[..nHeight + 1];
      assert path[..pindex.nHeight + 1][nHeight] == path[nHeight];
    }

    ghost predicate NoneBefore(known: set<BlockIndex>, vHave: seq<BlockIndex>, i: nat)
      requires i <= |vHave|
      reads this, vHave
    {
      forall j :: 0 <= j < i ==> !(vHave[j] in known && Contains(vHave[j]))
    }

    // The first locator entry that is known here and in this chain, else
    // genesis.
    method FindForkInGlobalIndex(known: set<BlockIndex>, vHave: seq<BlockIndex>) returns (r: BlockIndex?)
      ensures forall i :: 0 <= i < |vHave| && NoneBefore(known, vHave, i) && vHave[i] in known && Contains(vHave[i]) ==>
                r == vHave[i]
      ensures NoneBefore(known, vHave, |vHave|) ==> r == Get(0)
    {
      for i := 0 to |vHave|
        invariant NoneBefore(known, vHave, i)
      {
        if vHave[i] in known && Contains(vHave[i]) {
          return vHave[i];
        }
      }
      return Get(0);
    }

    lemma TipIsWhole()
      requires Valid() && blocks != []
      ensures Tip() != null && Tip().Valid() && Tip().path == blocks
    {
      var tip := blocks[|blocks| - 1];
      assert BlockIndex.At(blocks, |blocks| - 1);
      assert blocks[..|blocks|] == blocks;
    }
  }

  lemma SubPath(path: seq<BlockIndex>, h: nat)
    requires h < |path| && path[|path| - 1].Valid() && path[|path| - 1].path == path
    ensures path[h].Valid() && path[h].path == path[..h + 1] && path[h].nHeight == h
  {
    path[|path| - 1].AncestorsValid(h);
    assert BlockIndex.At(path, h);
  }

  // ---------------------------------------------------------------- locators

  // The heights a locator visits from height on, with the current step and
  // the number of entries before.
  function LocatorHeights(height: nat, step: nat, count: nat): seq<nat>
    requires step >= 1
  {
    [height] + if height == 0 then []
               else LocatorHeights(if height > step then height - step else 0,
                                   if count + 1 > 10 then 2 * step else step, count + 1)
  }

  // The blocks of a path at those heights.
  function LocatorBlocks(path: seq<BlockIndex>, height: nat, step: nat, count: nat): seq<BlockIndex>
    requires step >= 1 && height < |path|
    decreases height
  {
    [path[height]] + if height == 0 then []
                     else LocatorBlocks(path, if height > step then height - step else 0,
                                        if count + 1 > 10 then 2 * step else step, count + 1)
  }

  // What follows the first of them.
  function AfterFirst(path: seq<BlockIndex>, height: nat, step: nat, count: nat): seq<BlockIndex>
    requires step >= 1 && height < |path|
  {
    if height == 0 then []
    else LocatorBlocks(path, if height > step then height - step else 0, if count + 1 > 10 then 2 * step else step,
                       count + 1)
  }

  lemma LocatorUnfolds(path: seq<BlockIndex>, height: nat, step: nat, count: nat)
    requires step >= 1 && height < |path|
    ensures LocatorBlocks(path, height, step, count) == [path[height]] + AfterFirst(path, height, step, count)
  {
  }

  lemma Regrouped<T>(a: seq<T>, x: T, b: seq<T>)
    ensures a + ([x] + b) == a + [x] + b && |[x] + b| == 1 + |b|
  {
  }

  lemma {:induction false} LocatorBlocksAt(path: seq<BlockIndex>, height: nat, step: nat, count: nat)
    requires step >= 1 && height < |path|
    ensures var heights, there := LocatorHeights(height, step, count), LocatorBlocks(path, height, step, count);
            && |there| == |heights|
            && forall i :: 0 <= i < |heights| ==> heights[i] < |path| && there[i] == path[heights[i]]
    decreases height
  {
    hide LocatorHeights, LocatorBlocks;
    if height > 0 {
      var next, step' := if height > step then height - step else 0, if count + 1 > 10 then 2 * step else step;
      LocatorBlocksAt(path, next, step', count + 1);
    }
    LocatorUnfolds(path, height, step, count);
    HeightsUnfold(height, step, count);
  }

  lemma HeightsUnfold(height: nat, step: nat, count: nat)
    requires step >= 1
    ensures var next, step' := if height > step then height - step else 0, if count + 1 > 10 then 2 * step else step;
            LocatorHeights(height, step, count)
            == [height] + if height == 0 then [] else LocatorHeights(next, step', count + 1)
  {
  }

  lemma {:induction false} LocatorInRange(height: nat, step: nat, count: nat)
    requires step >= 1
    ensures var hs := LocatorHeights(height, step, count);
            |hs| >= 1 && hs[0] == height && forall i :: 0 <= i < |hs| ==> hs[i] <= height
  {
    if height > 0 {
      LocatorInRange(if height > step then height - step else 0, if count + 1 > 10 then 2 * step else step, count + 1);
    }
  }

  // Once steps double, k more entries are enough for less than twice step*2^k.
  lemma {:induction false} DoublingEntries(height: nat, step: nat, count: nat, k: nat)
    requires step >= 1 && count >= 10 && height <= step * (Pow2(k) - 1)
    ensures |LocatorHeights(height, step, count)| <= 1 + k
    decreases k
  {
    if k == 0 {
      assert height <= 0;
    } else if height > 0 {
      LessToGo(height, step, Pow2(k - 1));
      DoublingEntries(if height > step then height - step else 0, 2 * step, count + 1, k - 1);
    }
  }

  lemma LessToGo(height: nat, step: nat, p: nat)
    requires p >= 1 && height <= step * (2 * p - 1)
    ensures (if height > step then height - step else 0) <= 2 * step * (p - 1)
  {
    Distribute(p - 1, 1, step);
    Regroup(2, step, p - 1);
    assert step * (2 * p - 1) == 2 * (step * (p - 1)) + step;
  }

  lemma {:induction false} FirstEntries(height: nat, count: nat, k: nat)
    requires count <= 10 && height <= (10 - count) + (Pow2(k) - 1)
    ensures |LocatorHeights(height, 1, count)| <= (10 - count) + 1 + k
    decreases 10 - count
  {
    if count == 10 {
      DoublingEntries(height, 1, count, k);
    } else if height > 0 {
      FirstEntries(height - 1, count + 1, k);
    }
  }

  function NotBelowZero(x: int): nat {
    if x > 0 then x else 0
  }

  // From the eleventh entry on, steps double.
  lemma {:induction false} DoublingHeights(height: nat, step: nat, count: nat, i: nat)
    requires step >= 1 && count >= 10 && i < |LocatorHeights(height, step, count)|
    ensures LocatorHeights(height, step, count)[i] == NotBelowZero(height - step * (Pow2(i) - 1))
    decreases i
  {
    hide LocatorHeights;
    HeightsUnfold(height, step, count);
    if i > 0 {
      var p, next := Pow2(i - 1), NotBelowZero(height - step);
      DoublingHeights(next, 2 * step, count + 1, i - 1);
      Regroup(2, step, p - 1);
      assert step * (2 * p - 1) == 2 * (step * (p - 1)) + step;
      MulMonotone(1, p, step);
    } else {
      assert step * (Pow2(0) - 1) == 0;
    }
  }

  lemma {:induction false} HeightsFrom(height: nat, count: nat, i: nat)
    requires count <= 10 && i < |LocatorHeights(height, 1, count)|
    ensures LocatorHeights(height, 1, count)[i]
            == if count + i <= 10 then NotBelowZero(height - i)
               else NotBelowZero(height - (10 - count) - (Pow2(count + i - 10) - 1))
    ensures count + i <= 10 ==> i <= height
    decreases i
  {
    hide LocatorHeights;
    HeightsUnfold(height, 1, count);
    if count == 10 {
      DoublingHeights(height, 1, count, i);
      assert Pow2(0) == 1;
    } else if i > 0 {
      HeightsFrom(height - 1, count + 1, i - 1);
    }
  }

  // The heights of a locator: eleven in a row from the start, and then steps of two,
  // four and so on, to the end at zero.
  lemma LocatorHeightsAre(height: nat, i: nat)
    requires i < |LocatorHeights(height, 1, 0)|
    ensures LocatorHeights(height, 1, 0)[i]
            == if i <= 10 then height - i else NotBelowZero(height - 9 - Pow2(i - 10))
    ensures i == |LocatorHeights(height, 1, 0)| - 1 <==> LocatorHeights(height, 1, 0)[i] == 0
  {
    hide LocatorHeights;
    HeightsFrom(height, 0, i);
    EndsAtZero(height, 1, 0, i);
  }

  lemma {:induction false} EndsAtZero(height: nat, step: nat, count: nat, i: nat)
    requires step >= 1 && i < |LocatorHeights(height, step, count)|
    ensures i == |LocatorHeights(height, step, count)| - 1 <==> LocatorHeights(height, step, count)[i] == 0
    decreases i
  {
    hide LocatorHeights;
    HeightsUnfold(height, step, count);
    if height > 0 {
      var next, step' := if height > step then height - step else 0, if count + 1 > 10 then 2 * step else step;
      HeightsUnfold(next, step', count + 1);
      if i > 0 {
        EndsAtZero(next, step', count + 1, i - 1);
      }
    }
  }

  // A locator for height >= 1 has at most 12 + log2(height) entries.
  lemma LocatorIsShort(height: nat, log: nat)
    requires 1 <= height < Pow2(log + 1)
    ensures |LocatorHeights(height, 1, 0)| <= 12 + log
  {
    FirstEntries(height, 0, log + 1);
  }

  // The first entry at or below a fork is no further below it than the fork is
  // below the start.
  lemma {:induction false} LocatorClose(start: nat, height: nat, step: nat, count: nat, fork: nat) returns (i: nat)
    requires step >= 1 && height <= start && fork <= start && (height > 0 ==> step <= start - height + 1)
    requires height <= fork ==> fork - height <= start - fork
    ensures var hs := LocatorHeights(height, step, count);
            && i < |hs| && hs[i] <= fork && fork - hs[i] <= start - fork
            && forall j :: 0 <= j < i ==> hs[j] > fork
    decreases height
  {
    if height <= fork {
      return 0;
    }
    var next := if height > step then height - step else 0;
    i := LocatorClose(start, next, if count + 1 > 10 then 2 * step else step, count + 1, fork);
    i := i + 1;
  }

  // A sender's locator, looked up by a receiver that shares the blocks up to
  // the fork and knows them, finds a common block, and one no further below
  // the fork than the fork is below the block the locator starts from.
  method LocateFork(sender: Chain, start: BlockIndex, receiver: Chain, known: set<BlockIndex>, ghost fork: nat)
    returns (r: BlockIndex?)
    requires sender.Valid() && start.Valid() && receiver.Valid()
    requires fork <= start.nHeight && fork < |receiver.blocks|
    requires forall h :: 0 <= h <= fork ==> receiver.blocks[h] == start.path[h] && start.path[h] in known
    requires forall h :: fork < h < |receiver.blocks| && h <= start.nHeight ==> receiver.blocks[h] != start.path[h]
    ensures r != null && r.nHeight <= fork && r == start.path[r.nHeight]
    ensures fork - r.nHeight <= start.nHeight - fork
  {
    var vHave := sender.LocatorFrom(start);
    ghost var heights := LocatorHeights(start.nHeight, 1, 0);
    ghost var i := LocatorClose(start.nHeight, start.nHeight, 1, 0, fork);
    LocatorInRange(start.nHeight, 1, 0);
    r := receiver.FindForkInGlobalIndex(known, vHave);
    forall k | 0 <= k <= i ensures receiver.Contains(vHave[k]) <==> heights[k] <= fork {
      assert BlockIndex.At(start.path, heights[k]);
    }
    assert r == vHave[i];
    assert BlockIndex.At(start.path, heights[i]);
  }
}
