// How many flag bits an encoding has, and what the promised sizes are worth.
module MerkleSizes {
  import opened MerkleTree
  import opened MerkleProofs
  import opened Numbers

  // ---------------------------------------------------------- one-child nodes

  // The nodes under a node that are descended into and have one child only.
  function OneChildNodes(height: nat, pos: nat, mask: seq<bool>): nat
    requires First(height, pos) < |mask|
    decreases height
  {
    NodeSpan(|mask|, height, pos);
    if height == 0 || !AnyMatch(mask, First(height, pos), End(|mask|, height, pos)) then 0
    else
      Children(|mask|, height, pos);
      OneChildNodes(height - 1, pos * 2, mask)
      + if pos * 2 + 1 < CalcTreeWidth(|mask|, height - 1) then OneChildNodes(height - 1, pos * 2 + 1, mask) else 1
  }

  // Every encoding has one bit less than twice its hashes, and one more for
  // every node with one child that it descends into.
  lemma {:induction false} BitsCounted(height: nat, pos: nat, txids: seq<Digest>, mask: seq<bool>)
    requires First(height, pos) < |txids| == |mask|
    ensures var b := Build(height, pos, txids, mask);
            |b.bits| == 2 * |b.hashes| - 1 + OneChildNodes(height, pos, mask)
    decreases height
  {
    hide First, End, AnyMatch, CalcTreeWidth, Build;
    NodeSpan(|txids|, height, pos);
    if IsCut(height, pos, txids, mask) {
      CutBuilt(height, pos, txids, mask);
    } else {
      Children(|txids|, height, pos);
      BuildInner(height, pos, txids, mask);
      BitsCounted(height - 1, pos * 2, txids, mask);
      if pos * 2 + 1 < CalcTreeWidth(|txids|, height - 1) {
        BitsCounted(height - 1, pos * 2 + 1, txids, mask);
      }
    }
  }

  // The nodes under a node that are descended into and have two children.
  function TwoChildNodes(height: nat, pos: nat, mask: seq<bool>): nat
    requires First(height, pos) < |mask|
    decreases height
  {
    NodeSpan(|mask|, height, pos);
    if height == 0 || !AnyMatch(mask, First(height, pos), End(|mask|, height, pos)) then 0
    else
      Children(|mask|, height, pos);
      TwoChildNodes(height - 1, pos * 2, mask)
      + if pos * 2 + 1 < CalcTreeWidth(|mask|, height - 1) then 1 + TwoChildNodes(height - 1, pos * 2 + 1, mask) else 0
  }

  // Every encoding has one hash, and one more for every node with two children
  // that it descends into.
  lemma {:induction false} HashesCounted(height: nat, pos: nat, txids: seq<Digest>, mask: seq<bool>)
    requires First(height, pos) < |txids| == |mask|
    ensures |Build(height, pos, txids, mask).hashes| == 1 + TwoChildNodes(height, pos, mask)
    decreases height
  {
    hide First, End, AnyMatch, CalcTreeWidth, Build;
    NodeSpan(|txids|, height, pos);
    if IsCut(height, pos, txids, mask) {
      CutBuilt(height, pos, txids, mask);
    } else {
      Children(|txids|, height, pos);
      BuildInner(height, pos, txids, mask);
      HashesCounted(height - 1, pos * 2, txids, mask);
      if pos * 2 + 1 < CalcTreeWidth(|txids|, height - 1) {
        HashesCounted(height - 1, pos * 2 + 1, txids, mask);
      }
    }
  }

  // -------------------------------------------------------- where they can be

  // The leaves from which on the last node at this height covers all.
  function LastFrom(n: nat, height: nat): nat
    requires n > 0
  {
    WidthPositive(n, height);
    First(height, CalcTreeWidth(n, height) - 1)
  }

  lemma WidthPositive(n: nat, height: nat)
    requires n > 0
    ensures CalcTreeWidth(n, height) > 0 && First(height, CalcTreeWidth(n, height) - 1) < n
  {
    InWidth(n, height, 0);
    InWidth(n, height, CalcTreeWidth(n, height) - 1);
  }

  // The last node at this height has one child, and something under it is
  // matched.
  predicate Lopsided(mask: seq<bool>, height: nat)
    requires height > 0 && |mask| > 0
  {
    CalcTreeWidth(|mask|, height - 1) % 2 == 1
    && (WidthPositive(|mask|, height); AnyMatch(mask, LastFrom(|mask|, height), |mask|))
  }

  function LopsidedLevels(mask: seq<bool>, height: nat): nat
    requires |mask| > 0
  {
    if height == 0 then 0 else LopsidedLevels(mask, height - 1) + if Lopsided(mask, height) then 1 else 0
  }

  lemma WidthHalves(n: nat, height: nat)
    requires n > 0 && height > 0
    ensures CalcTreeWidth(n, height) == (CalcTreeWidth(n, height - 1) + 1) / 2
  {
    var w, half := CalcTreeWidth(n, height - 1), (CalcTreeWidth(n, height - 1) + 1) / 2;
    WidthPositive(n, height - 1);
    TwiceAsFar(height, half);
    TwiceAsFar(height, half - 1);
    InWidth(n, height, half);
    InWidth(n, height, half - 1);
    InWidth(n, height - 1, half * 2);
    InWidth(n, height - 1, half * 2 - 2);
  }

  lemma TwiceAsFar(height: nat, pos: nat)
    requires height > 0
    ensures First(height, pos) == First(height - 1, pos * 2)
  {
    Regroup(pos, 2, Pow2(height - 1));
  }

  // A node that covers a full set of leaves has no one-child node below.
  lemma {:induction false} FullHasNone(height: nat, pos: nat, mask: seq<bool>)
    requires First(height, pos + 1) <= |mask|
    ensures First(height, pos) < |mask| && OneChildNodes(height, pos, mask) == 0
    decreases height
  {
    Distribute(pos, 1, Pow2(height));
    if height > 0 {
      Children(|mask|, height, pos);
      TwiceAsFar(height, pos + 1);
      FullHasNone(height - 1, pos * 2 + 1, mask);
      Distribute(pos * 2 + 1, 1, Pow2(height - 1));
      FullHasNone(height - 1, pos * 2, mask);
    }
  }

  // Where nothing under the last node is matched, no level below is lopsided.
  lemma {:induction false} NoneLopsided(mask: seq<bool>, height: nat)
    requires |mask| > 0 && LastFrom(|mask|, height) < |mask| && !AnyMatch(mask, LastFrom(|mask|, height), |mask|)
    ensures LopsidedLevels(mask, height) == 0
  {
    if height > 0 {
      var n := |mask|;
      WidthPositive(n, height);
      WidthPositive(n, height - 1);
      WidthHalves(n, height);
      var last := CalcTreeWidth(n, height) - 1;
      TwiceAsFar(height, last);
      MulMonotone(last * 2, CalcTreeWidth(n, height - 1) - 1, Pow2(height - 1));
      assert LastFrom(n, height) <= LastFrom(n, height - 1);
      NoneLopsided(mask, height - 1);
    }
  }

  // Only the last node of a level can have one child, so the one-child nodes
  // are counted by the lopsided levels.
  lemma {:induction false} LastCounted(mask: seq<bool>, height: nat)
    requires |mask| > 0
    ensures CalcTreeWidth(|mask|, height) > 0 && LastFrom(|mask|, height) < |mask|
    ensures OneChildNodes(height, CalcTreeWidth(|mask|, height) - 1, mask) == LopsidedLevels(mask, height)
    decreases height
  {
    hide Pow2, AnyMatch;
    var n := |mask|;
    WidthPositive(n, height);
    var pos := CalcTreeWidth(n, height) - 1;
    EndsAtLast(n, height);
    if height == 0 {
      assert LopsidedLevels(mask, height) == 0;
    } else if !AnyMatch(mask, First(height, pos), n) {
      NoneLopsided(mask, height);
    } else {
      WidthHalves(n, height);
      WidthPositive(n, height - 1);
      Children(n, height, pos);
      LastCounted(mask, height - 1);
      if pos * 2 + 1 < CalcTreeWidth(n, height - 1) {
        FullHasNone(height - 1, pos * 2, mask);
      }
    }
  }

  lemma EndsAtLast(n: nat, height: nat)
    requires n > 0
    ensures CalcTreeWidth(n, height) > 0 && End(n, height, CalcTreeWidth(n, height) - 1) == n
  {
    WidthPositive(n, height);
    InWidth(n, height, CalcTreeWidth(n, height));
  }

  // ------------------------------------------------------------ the whole tree

  // The flag bits of a whole encoding, exactly.
  lemma FlagBits(txids: seq<Digest>, mask: seq<bool>)
    requires 0 < |txids| == |mask|
    ensures First(TreeHeight(|txids|), 0) < |txids|
    ensures var b := Build(TreeHeight(|txids|), 0, txids, mask);
            |b.bits| == 2 * |b.hashes| - 1 + LopsidedLevels(mask, TreeHeight(|mask|))
  {
    var height := TreeHeight(|mask|);
    RootSpan(|mask|);
    HeightCovers(|mask|, 0);
    WidthPositive(|mask|, height);
    BitsCounted(height, 0, txids, mask);
    LastCounted(mask, height);
  }

  lemma {:induction false} LevelsCounted(mask: seq<bool>, height: nat)
    requires |mask| > 0
    ensures LopsidedLevels(mask, height) == 0 <==> forall h :: 1 <= h <= height ==> !Lopsided(mask, h)
    ensures LopsidedLevels(mask, height) <= height
  {
    if height > 0 {
      LevelsCounted(mask, height - 1);
    }
  }

  // The promise of at most 2 * N - 1 flag bits holds exactly if no level has an
  // odd number of nodes, more than one, with a match under its last node.
  lemma FlagBitsPromise(txids: seq<Digest>, mask: seq<bool>)
    requires 0 < |txids| == |mask|
    ensures First(TreeHeight(|txids|), 0) < |txids|
    ensures var b := Build(TreeHeight(|txids|), 0, txids, mask);
            |b.bits| <= 2 * |b.hashes| - 1 <==> forall h :: 1 <= h <= TreeHeight(|mask|) ==> !Lopsided(mask, h)
  {
    hide Build, LopsidedLevels, Lopsided;
    FlagBits(txids, mask);
    LevelsCounted(mask, TreeHeight(|mask|));
  }

  // --------------------------------------------------------- where it applies

  lemma {:induction false} HeightLeast(n: nat, from: nat, height: nat)
    requires n > 0 && from <= height && CalcTreeWidth(n, height) <= 1
    ensures TreeHeightFrom(n, from) <= height
    decreases height - from
  {
    if CalcTreeWidth(n, from) > 1 {
      BigWidth(n, from);
      HeightLeast(n, from + 1, height);
    }
  }

  lemma {:induction false} PowerWidth(k: nat, height: nat)
    requires height <= k
    ensures CalcTreeWidth(Pow2(k), height) == Pow2(k - height)
  {
    if height > 0 {
      PowerWidth(k, height - 1);
      WidthHalves(Pow2(k), height);
    }
  }

  // It always holds for a power of two.
  lemma PowersOfTwoKeepIt(k: nat, txids: seq<Digest>, mask: seq<bool>)
    requires |txids| == |mask| == Pow2(k)
    ensures First(TreeHeight(|txids|), 0) < |txids|
    ensures var b := Build(TreeHeight(|txids|), 0, txids, mask);
            |b.bits| == 2 * |b.hashes| - 1
  {
    hide Build, LopsidedLevels;
    PowerWidth(k, k);
    HeightLeast(Pow2(k), 0, k);
    forall h | 1 <= h <= TreeHeight(|mask|) ensures !Lopsided(mask, h) {
      PowerWidth(k, h - 1);
    }
    FlagBits(txids, mask);
    LevelsCounted(mask, TreeHeight(|mask|));
  }

  // Three txids, the last of them matched: four bits for two hashes.
  lemma ThreeTxidsBreakIt(txids: seq<Digest>)
    requires |txids| == 3
    ensures TreeHeight(3) == 2
    ensures var b := Build(2, 0, txids, [false, false, true]); |b.bits| == 4 && |b.hashes| == 2
  {
    hide Build, CalcTreeWidth, TreeHeightFrom, First, End;
    var mask := [false, false, true];
    Spans3();
    assert mask[2] && AnyMatch(mask, 0, 3) && AnyMatch(mask, 2, 3) && !AnyMatch(mask, 0, 2);
    BuildInner(2, 0, txids, mask);
    CutBuilt(1, 0, txids, mask);
    BuildInner(1, 1, txids, mask);
    CutBuilt(0, 2, txids, mask);
  }

  lemma Spans3()
    ensures TreeHeight(3) == 2 && CalcTreeWidth(3, 0) == 3 && CalcTreeWidth(3, 1) == 2
    ensures First(2, 0) == 0 && End(3, 2, 0) == 3 && First(1, 0) == 0 && End(3, 1, 0) == 2
    ensures First(1, 1) == 2 && End(3, 1, 1) == 3 && First(0, 2) == 2 && End(3, 0, 2) == 3 && First(0, 3) == 3
  {
    hide CalcTreeWidth, TreeHeightFrom;
    LevelZero(3);
    NextLevel(3, 0, 3);
    NextLevel(3, 1, 2);
    NextLevel(3, 2, 1);
    assert Pow2(1) == 2 && Pow2(2) == 4;
  }

  // ------------------------------------------------------------ bytes in all

  function CompactSize(n: nat): nat {
    if n < 253 then 1 else if n <= 0xffff then 3 else if n <= 0xffff_ffff then 5 else 9
  }

  function FlagBytes(b: Encoded): nat {
    (|b.bits| + 7) / 8
  }

  // The count of transactions, the hashes and the packed bits.
  function MessageSize(b: Encoded): nat {
    4 + CompactSize(|b.hashes|) + 32 * |b.hashes| + CompactSize(FlagBytes(b)) + FlagBytes(b)
  }

  // 10 + 32.25 for every hash, rounded up.
  function PromisedSize(hashes: nat): nat {
    10 + (129 * hashes + 3) / 4
  }

  lemma HeightAtMost15(n: nat)
    requires 0 < n <= MAX_TRANSACTIONS
    ensures TreeHeight(n) <= 15
  {
    assert Pow2(5) == 32;
    assert Pow2(10) == 1024;
    assert Pow2(15) == 32768;
    InWidth(n, 15, 1);
    HeightLeast(n, 0, 15);
  }

  // What the mask alone says of the encoding: its hashes and its bytes of flags.
  function HashesFor(mask: seq<bool>): nat
    requires |mask| > 0
  {
    RootSpan(|mask|);
    1 + TwoChildNodes(TreeHeight(|mask|), 0, mask)
  }

  function FlagBytesFor(mask: seq<bool>): nat
    requires |mask| > 0
  {
    (2 * HashesFor(mask) + 6 + LopsidedLevels(mask, TreeHeight(|mask|))) / 8
  }

  lemma SizesFromMask(txids: seq<Digest>, mask: seq<bool>)
    requires 0 < |txids| == |mask|
    ensures First(TreeHeight(|txids|), 0) < |txids|
    ensures var b := Build(TreeHeight(|txids|), 0, txids, mask);
            |b.hashes| == HashesFor(mask) && FlagBytes(b) == FlagBytesFor(mask)
  {
    hide Build, LopsidedLevels, TwoChildNodes;
    FlagBits(txids, mask);
    HashesCounted(TreeHeight(|txids|), 0, txids, mask);
  }

  // The promised size is kept exactly for masks that need at most 252 bytes of
  // flags, or no more of them than a quarter of the hashes, rounded up. That is
  // so whenever no level is lopsided.
  lemma SizePromise(txids: seq<Digest>, mask: seq<bool>)
    requires 0 < |txids| == |mask| <= MAX_TRANSACTIONS
    ensures First(TreeHeight(|txids|), 0) < |txids|
    ensures var b := Build(TreeHeight(|txids|), 0, txids, mask);
            MessageSize(b) <= PromisedSize(|b.hashes|)
            <==> FlagBytesFor(mask) <= 252 || FlagBytesFor(mask) <= (HashesFor(mask) + 3) / 4
    ensures var b := Build(TreeHeight(|txids|), 0, txids, mask);
            (forall h :: 1 <= h <= TreeHeight(|mask|) ==> !Lopsided(mask, h))
            ==> MessageSize(b) <= PromisedSize(|b.hashes|)
  {
    hide Build, LopsidedLevels, TwoChildNodes, Lopsided;
    SizesFromMask(txids, mask);
    LevelsCounted(mask, TreeHeight(|mask|));
    HeightAtMost15(|mask|);
    HashesBounded(TreeHeight(|txids|), 0, txids, mask);
    RootSpan(|txids|);
  }

  lemma {:induction false} AllHashed(height: nat, pos: nat, txids: seq<Digest>, mask: seq<bool>)
    requires First(height, pos) < |txids| == |mask| && forall i :: 0 <= i < |mask| ==> mask[i]
    ensures |Build(height, pos, txids, mask).hashes| == End(|txids|, height, pos) - First(height, pos)
    decreases height
  {
    hide First, End, CalcTreeWidth, Build;
    var n := |txids|;
    NodeSpan(n, height, pos);
    assert mask[First(height, pos)];
    if height == 0 {
      CutBuilt(height, pos, txids, mask);
      LeafEnd(n, pos);
    } else {
      Children(n, height, pos);
      BuildInner(height, pos, txids, mask);
      AllHashed(height - 1, pos * 2, txids, mask);
      if pos * 2 + 1 < CalcTreeWidth(n, height - 1) {
        AllHashed(height - 1, pos * 2 + 1, txids, mask);
      }
    }
  }

  // With everything matched, every level of odd width is lopsided.
  function OddLevels(n: nat, height: nat): nat
    requires n > 0
  {
    if height == 0 then 0 else OddLevels(n, height - 1) + CalcTreeWidth(n, height - 1) % 2
  }

  lemma {:induction false} AllLopsided(mask: seq<bool>, height: nat)
    requires |mask| > 0 && forall i :: 0 <= i < |mask| ==> mask[i]
    ensures LopsidedLevels(mask, height) == OddLevels(|mask|, height)
  {
    if height > 0 {
      AllLopsided(mask, height - 1);
      WidthPositive(|mask|, height);
      assert mask[LastFrom(|mask|, height)];
    }
  }

  // 1025 txids, all matched: 1025 hashes and 2059 bits make 33068 bytes, one
  // more than promised.
  lemma AllOf1025BreakIt(txids: seq<Digest>, mask: seq<bool>)
    requires |txids| == |mask| == 1025 && forall i :: 0 <= i < |mask| ==> mask[i]
    ensures TreeHeight(1025) == 11 && First(11, 0) < 1025
    ensures var b := Build(11, 0, txids, mask);
            && |b.hashes| == 1025 && |b.bits| == 2059
            && MessageSize(b) == 33068 && PromisedSize(1025) == 33067
  {
    hide Build, CalcTreeWidth, LopsidedLevels, OddLevels, TreeHeightFrom;
    Levels1025();
    RootSpan(1025);
    AllHashed(11, 0, txids, mask);
    FlagBits(txids, mask);
    AllLopsided(mask, 11);
  }

  lemma Levels1025()
    ensures TreeHeight(1025) == 11 && OddLevels(1025, 11) == 10
  {
    hide TreeHeightFrom, CalcTreeWidth, OddLevels;
    LevelZero(1025);
    NextLevel(1025, 0, 1025);
    NextLevel(1025, 1, 513);
    NextLevel(1025, 2, 257);
    NextLevel(1025, 3, 129);
    NextLevel(1025, 4, 65);
    NextLevel(1025, 5, 33);
    NextLevel(1025, 6, 17);
    NextLevel(1025, 7, 9);
    NextLevel(1025, 8, 5);
    NextLevel(1025, 9, 3);
    NextLevel(1025, 10, 2);
    NextLevel(1025, 11, 1);
  }

  lemma LevelZero(n: nat)
    requires n > 0
    ensures CalcTreeWidth(n, 0) == n && OddLevels(n, 0) == 0
  {
  }

  lemma NextLevel(n: nat, height: nat, width: nat)
    requires n > 0 && CalcTreeWidth(n, height) == width
    ensures CalcTreeWidth(n, height + 1) == (width + 1) / 2
    ensures OddLevels(n, height + 1) == OddLevels(n, height) + width % 2
    ensures TreeHeightFrom(n, height) == if width > 1 then TreeHeightFrom(n, height + 1) else height
  {
    WidthHalves(n, height + 1);
  }
}
