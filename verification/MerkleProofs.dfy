// Decoding undoes encoding, and no encoding can claim a txid that is not there.
module MerkleProofs {
  import opened MerkleTree
  import opened Numbers

  lemma {:induction false} MatchedSplit(txids: seq<Digest>, mask: seq<bool>, lo: nat, mid: nat, hi: nat)
    requires lo <= mid <= hi <= |txids| == |mask|
    ensures Matched(txids, mask, lo, hi) == Matched(txids, mask, lo, mid) + Matched(txids, mask, mid, hi)
    decreases mid - lo
  {
    if lo < mid {
      MatchedSplit(txids, mask, lo + 1, mid, hi);
    }
  }

  lemma {:induction false} NoneMatched(txids: seq<Digest>, mask: seq<bool>, lo: nat, hi: nat)
    requires lo <= hi <= |txids| == |mask| && !AnyMatch(mask, lo, hi)
    ensures Matched(txids, mask, lo, hi) == []
    decreases hi - lo
  {
    if lo < hi {
      assert !mask[lo];
      NoneMatched(txids, mask, lo + 1, hi);
    }
  }

  // Equal node hashes at one height cover equal first leaves.
  lemma {:induction false} SameHashSameLeaf(height: nat, p: nat, q: nat, txids: seq<Digest>)
    requires First(height, p) < |txids| && First(height, q) < |txids|
    requires CalcHash(height, p, txids) == CalcHash(height, q, txids)
    ensures txids[First(height, p)] == txids[First(height, q)]
    decreases height
  {
    if height == 0 {
      LeafEnd(|txids|, p);
      LeafEnd(|txids|, q);
    } else {
      Children(|txids|, height, p);
      Children(|txids|, height, q);
      SameHashSameLeaf(height - 1, p * 2, q * 2, txids);
    }
  }

  // e has the encoding b of a subtree at the cursor.
  predicate At(e: Encoded, cur: Cursor, b: Encoded) {
    && cur.bitsUsed + |b.bits| <= |e.bits| && cur.hashUsed + |b.hashes| <= |e.hashes|
    && e.bits[cur.bitsUsed..cur.bitsUsed + |b.bits|] == b.bits
    && e.hashes[cur.hashUsed..cur.hashUsed + |b.hashes|] == b.hashes
  }

  function Past(cur: Cursor, b: Encoded, found: seq<Digest>, fine: bool): Cursor {
    Cursor(cur.bitsUsed + |b.bits|, cur.hashUsed + |b.hashes|, cur.matches + found, cur.bad || !fine)
  }

  predicate IsCut(height: nat, pos: nat, txids: seq<Digest>, mask: seq<bool>)
    requires First(height, pos) < |txids| == |mask|
  {
    NodeSpan(|txids|, height, pos);
    height == 0 || !AnyMatch(mask, First(height, pos), End(|txids|, height, pos))
  }

  // No node that the encoding descends into has two children of one hash: such a
  // tree has the same root as one with fewer transactions.
  predicate TwinFree(height: nat, pos: nat, txids: seq<Digest>, mask: seq<bool>)
    requires First(height, pos) < |txids| == |mask|
    decreases height
  {
    IsCut(height, pos, txids, mask)
    || (Children(|txids|, height, pos);
        && TwinFree(height - 1, pos * 2, txids, mask)
        && (pos * 2 + 1 < CalcTreeWidth(|txids|, height - 1) ==>
              && TwinFree(height - 1, pos * 2 + 1, txids, mask)
              && CalcHash(height - 1, pos * 2, txids) != CalcHash(height - 1, pos * 2 + 1, txids)))
  }

  // What decoding an encoded subtree must give.
  function Decoded(height: nat, pos: nat, txids: seq<Digest>, mask: seq<bool>, cur: Cursor): Extracted
    requires First(height, pos) < |txids| == |mask|
  {
    NodeSpan(|txids|, height, pos);
    Extracted(CalcHash(height, pos, txids),
              Past(cur, Build(height, pos, txids, mask),
                   Matched(txids, mask, First(height, pos), End(|txids|, height, pos)),
                   TwinFree(height, pos, txids, mask)))
  }

  lemma CutDecoded(height: nat, pos: nat, txids: seq<Digest>, mask: seq<bool>, e: Encoded, cur: Cursor)
    requires First(height, pos) < |txids| == |mask| && IsCut(height, pos, txids, mask)
    requires At(e, cur, Build(height, pos, txids, mask))
    ensures Extract(|txids|, e, height, pos, cur) == Decoded(height, pos, txids, mask, cur)
  {
    hide Pow2, CalcTreeWidth;
    var n := |txids|;
    NodeSpan(n, height, pos);
    var b := Build(height, pos, txids, mask);
    assert e.bits[cur.bitsUsed] == b.bits[0];
    assert e.hashes[cur.hashUsed] == b.hashes[0];
    if height == 0 {
      LeafEnd(n, pos);
      assert AnyMatch(mask, pos, pos + 1) == mask[pos];
      assert Matched(txids, mask, pos, pos + 1)
          == (if mask[pos] then [txids[pos]] else []) + Matched(txids, mask, pos + 1, pos + 1);
    } else {
      NoneMatched(txids, mask, First(height, pos), End(n, height, pos));
    }
  }

  // The left child's encoding comes right after the node's bit, and the right
  // child's, if there is one, right after that.
  lemma InnerDecoded(height: nat, pos: nat, txids: seq<Digest>, mask: seq<bool>, e: Encoded, cur: Cursor)
    requires First(height, pos) < |txids| == |mask| && !IsCut(height, pos, txids, mask)
    requires At(e, cur, Build(height, pos, txids, mask))
    requires First(height - 1, pos * 2) < |txids|
    requires var cur1 := cur.(bitsUsed := cur.bitsUsed + 1);
             At(e, cur1, Build(height - 1, pos * 2, txids, mask)) ==>
               Extract(|txids|, e, height - 1, pos * 2, cur1) == Decoded(height - 1, pos * 2, txids, mask, cur1)
    requires var cur2 := Decoded(height - 1, pos * 2, txids, mask, cur.(bitsUsed := cur.bitsUsed + 1)).cur;
             First(height - 1, pos * 2 + 1) < |txids| && At(e, cur2, Build(height - 1, pos * 2 + 1, txids, mask)) ==>
               Extract(|txids|, e, height - 1, pos * 2 + 1, cur2) == Decoded(height - 1, pos * 2 + 1, txids, mask, cur2)
    ensures Extract(|txids|, e, height, pos, cur) == Decoded(height, pos, txids, mask, cur)
  {
    hide First, End, CalcTreeWidth, Pow2, AnyMatch, At, Matched, Build, Extract, CalcHash, Past, TwinFree;
    var n := |txids|;
    NodeSpan(n, height, pos);
    Children(n, height, pos);
    var b := Build(height, pos, txids, mask);
    BuildInner(height, pos, txids, mask);
    FirstBit(e, cur, b);
    var left := Build(height - 1, pos * 2, txids, mask);
    Prefixes(e, cur, b, [true], left);
    var cur1 := cur.(bitsUsed := cur.bitsUsed + 1);
    var l := Decoded(height - 1, pos * 2, txids, mask, cur1);
    ExtractInner(n, e, height, pos, cur);
    HashInner(height, pos, txids);
    var found := Matched(txids, mask, First(height - 1, pos * 2), End(n, height - 1, pos * 2));
    var fine := TwinFree(height - 1, pos * 2, txids, mask);
    TwinFreeInner(height, pos, txids, mask);
    if pos * 2 + 1 < CalcTreeWidth(n, height - 1) {
      var right := Build(height - 1, pos * 2 + 1, txids, mask);
      PastTwice(cur, b, left, right, found, [], fine, true);
      Suffixes(e, cur, b, left, right, l.cur);
      NodeSpan(n, height - 1, pos * 2 + 1);
      MatchedSplit(txids, mask, First(height, pos), First(height - 1, pos * 2 + 1), End(n, height, pos));
      PastTwice(cur, b, left, right, found,
                Matched(txids, mask, First(height - 1, pos * 2 + 1), End(n, height - 1, pos * 2 + 1)),
                fine, TwinFree(height - 1, pos * 2 + 1, txids, mask));
    } else {
      PastTwice(cur, b, left, Encoded([], []), found, [], fine, true);
    }
  }

  lemma CutBuilt(height: nat, pos: nat, txids: seq<Digest>, mask: seq<bool>)
    requires First(height, pos) < |txids| == |mask| && IsCut(height, pos, txids, mask)
    ensures First(height, pos) < End(|txids|, height, pos) <= |txids|
    ensures Build(height, pos, txids, mask)
            == Encoded([AnyMatch(mask, First(height, pos), End(|txids|, height, pos))], [CalcHash(height, pos, txids)])
  {
    hide CalcHash, AnyMatch;
  }

  lemma BuildInner(height: nat, pos: nat, txids: seq<Digest>, mask: seq<bool>)
    requires First(height, pos) < |txids| == |mask| && !IsCut(height, pos, txids, mask)
    requires First(height - 1, pos * 2) < |txids|
    ensures pos * 2 + 1 < CalcTreeWidth(|txids|, height - 1) <==> First(height - 1, pos * 2 + 1) < |txids|
    ensures var b := Build(height, pos, txids, mask);
            var left := Build(height - 1, pos * 2, txids, mask);
            var right :=
              if pos * 2 + 1 < CalcTreeWidth(|txids|, height - 1) then Build(height - 1, pos * 2 + 1, txids, mask)
              else Encoded([], []);
            b.bits == [true] + left.bits + right.bits && b.hashes == left.hashes + right.hashes
  {
    hide First, End, CalcTreeWidth, AnyMatch;
    Children(|txids|, height, pos);
  }

  lemma LeafHash(pos: nat, txids: seq<Digest>)
    requires First(0, pos) < |txids|
    ensures First(0, pos) == pos && CalcHash(0, pos, txids) == txids[pos]
  {
    LeafEnd(|txids|, pos);
  }

  lemma HashInner(height: nat, pos: nat, txids: seq<Digest>)
    requires First(height, pos) < |txids| && height > 0 && First(height - 1, pos * 2) < |txids|
    requires pos * 2 + 1 < CalcTreeWidth(|txids|, height - 1) <==> First(height - 1, pos * 2 + 1) < |txids|
    ensures CalcHash(height, pos, txids)
            == Node(CalcHash(height - 1, pos * 2, txids),
                    if pos * 2 + 1 < CalcTreeWidth(|txids|, height - 1) then CalcHash(height - 1, pos * 2 + 1, txids)
                    else CalcHash(height - 1, pos * 2, txids))
  {
  }

  // Where decoding goes no further down.
  lemma ExtractCut(n: nat, e: Encoded, height: nat, pos: nat, cur: Cursor)
    requires height == 0 || cur.bitsUsed >= |e.bits| || !e.bits[cur.bitsUsed]
    ensures Extract(n, e, height, pos, cur)
            == if cur.bitsUsed >= |e.bits| then Extracted(Zero, cur.(bad := true))
               else if cur.hashUsed >= |e.hashes| then
                 Extracted(Zero, cur.(bitsUsed := cur.bitsUsed + 1, bad := true))
               else
                 var hash := e.hashes[cur.hashUsed];
                 var matched := height == 0 && e.bits[cur.bitsUsed];
                 Extracted(hash, Cursor(cur.bitsUsed + 1, cur.hashUsed + 1,
                                        if matched then cur.matches + [hash] else cur.matches, cur.bad))
  {
  }

  lemma ExtractInner(n: nat, e: Encoded, height: nat, pos: nat, cur: Cursor)
    requires height > 0 && cur.bitsUsed < |e.bits| && e.bits[cur.bitsUsed]
    ensures var l := Extract(n, e, height - 1, pos * 2, cur.(bitsUsed := cur.bitsUsed + 1));
            Extract(n, e, height, pos, cur)
            == if pos * 2 + 1 < CalcTreeWidth(n, height - 1) then
                 var r := Extract(n, e, height - 1, pos * 2 + 1, l.cur);
                 Extracted(Node(l.hash, r.hash), if r.hash == l.hash then r.cur.(bad := true) else r.cur)
               else Extracted(Node(l.hash, l.hash), l.cur)
  {
  }

  lemma PastTwice(cur: Cursor, b: Encoded, left: Encoded, right: Encoded, found: seq<Digest>, more: seq<Digest>,
                  fine: bool, fine': bool)
    requires b.bits == [true] + left.bits + right.bits && b.hashes == left.hashes + right.hashes
    ensures var l := Past(cur.(bitsUsed := cur.bitsUsed + 1), left, found, fine);
            && l.bitsUsed == cur.bitsUsed + 1 + |left.bits| && l.hashUsed == cur.hashUsed + |left.hashes|
            && Past(l, right, more, fine') == Past(cur, b, found + more, fine && fine')
            && Past(l, right, more, fine').(bad := true) == Past(cur, b, found + more, false)
            && (right == Encoded([], []) && more == [] ==> l == Past(cur, b, found, fine))
  {
    assert found + [] == found;
    assert cur.matches + found + more == cur.matches + (found + more);
  }

  lemma TwinFreeInner(height: nat, pos: nat, txids: seq<Digest>, mask: seq<bool>)
    requires First(height, pos) < |txids| == |mask| && !IsCut(height, pos, txids, mask)
    requires First(height - 1, pos * 2) < |txids|
    requires pos * 2 + 1 < CalcTreeWidth(|txids|, height - 1) <==> First(height - 1, pos * 2 + 1) < |txids|
    ensures TwinFree(height, pos, txids, mask)
            <==> TwinFree(height - 1, pos * 2, txids, mask)
                 && (pos * 2 + 1 < CalcTreeWidth(|txids|, height - 1) ==>
                       TwinFree(height - 1, pos * 2 + 1, txids, mask)
                       && CalcHash(height - 1, pos * 2, txids) != CalcHash(height - 1, pos * 2 + 1, txids))
  {
    hide First, CalcTreeWidth, IsCut, CalcHash;
  }

  lemma FirstBit(e: Encoded, cur: Cursor, b: Encoded)
    requires At(e, cur, b) && |b.bits| > 0
    ensures cur.bitsUsed < |e.bits| && e.bits[cur.bitsUsed] == b.bits[0]
  {
    assert e.bits[cur.bitsUsed..cur.bitsUsed + |b.bits|][0] == b.bits[0];
  }

  lemma TwinsDiffer(height: nat, pos: nat, txids: seq<Digest>)
    requires First(height, pos) < |txids| && First(height, pos + 1) < |txids| && Distinct(txids)
    ensures CalcHash(height, pos, txids) != CalcHash(height, pos + 1, txids)
  {
    assert (pos + 1) * Pow2(height) == pos * Pow2(height) + Pow2(height);
    if CalcHash(height, pos, txids) == CalcHash(height, pos + 1, txids) {
      SameHashSameLeaf(height, pos, pos + 1, txids);
      assert false;
    }
  }

  // Decoding a subtree that was encoded gives its hash and its matched txids,
  // and consumes exactly its encoding; it complains exactly about twins.
  lemma {:induction false} ExtractBuilt(height: nat, pos: nat, txids: seq<Digest>, mask: seq<bool>, e: Encoded,
                                        cur: Cursor)
    requires First(height, pos) < |txids| == |mask|
    requires At(e, cur, Build(height, pos, txids, mask))
    ensures Extract(|txids|, e, height, pos, cur) == Decoded(height, pos, txids, mask, cur)
    decreases height
  {
    hide First, End, CalcTreeWidth, Pow2, At, Build, Extract, IsCut, CalcHash, TwinFree;
    if IsCut(height, pos, txids, mask) {
      CutDecoded(height, pos, txids, mask, e, cur);
    } else {
      NotCutIsInner(height, pos, txids, mask);
      Children(|txids|, height, pos);
      var cur1 := cur.(bitsUsed := cur.bitsUsed + 1);
      if At(e, cur1, Build(height - 1, pos * 2, txids, mask)) {
        ExtractBuilt(height - 1, pos * 2, txids, mask, e, cur1);
      }
      var cur2 := Decoded(height - 1, pos * 2, txids, mask, cur1).cur;
      if First(height - 1, pos * 2 + 1) < |txids| && At(e, cur2, Build(height - 1, pos * 2 + 1, txids, mask)) {
        ExtractBuilt(height - 1, pos * 2 + 1, txids, mask, e, cur2);
      }
      InnerDecoded(height, pos, txids, mask, e, cur);
    }
  }

  lemma NotCutIsInner(height: nat, pos: nat, txids: seq<Digest>, mask: seq<bool>)
    requires First(height, pos) < |txids| == |mask| && !IsCut(height, pos, txids, mask)
    ensures height > 0
  {
  }

  lemma Prefixes(e: Encoded, cur: Cursor, b: Encoded, bit: seq<bool>, left: Encoded)
    requires At(e, cur, b) && |bit| == 1 && bit + left.bits <= b.bits && left.hashes <= b.hashes
    ensures At(e, cur.(bitsUsed := cur.bitsUsed + 1), left)
  {
    var k := |left.bits|;
    Subslice(e.bits, cur.bitsUsed, cur.bitsUsed + |b.bits|, 1, 1 + k);
    assert b.bits[1..1 + k] == (bit + left.bits)[1..] == left.bits;
    Subslice(e.hashes, cur.hashUsed, cur.hashUsed + |b.hashes|, 0, |left.hashes|);
    assert b.hashes[0..|left.hashes|] == left.hashes;
  }

  lemma Subslice<T>(s: seq<T>, lo: nat, hi: nat, i: nat, j: nat)
    requires lo <= hi <= |s| && i <= j <= hi - lo
    ensures s[lo..hi][i..j] == s[lo + i..lo + j]
  {
    assert forall k :: i <= k < j ==> s[lo..hi][k] == s[lo + k];
  }

  lemma Suffixes(e: Encoded, cur: Cursor, b: Encoded, left: Encoded, right: Encoded, mid: Cursor)
    requires At(e, cur, b) && b.bits == [true] + left.bits + right.bits && b.hashes == left.hashes + right.hashes
    requires mid.bitsUsed == cur.bitsUsed + 1 + |left.bits| && mid.hashUsed == cur.hashUsed + |left.hashes|
    ensures At(e, mid, right)
  {
    var k := 1 + |left.bits|;
    Subslice(e.bits, cur.bitsUsed, cur.bitsUsed + |b.bits|, k, |b.bits|);
    assert b.bits[k..|b.bits|] == right.bits;
    Subslice(e.hashes, cur.hashUsed, cur.hashUsed + |b.hashes|, |left.hashes|, |b.hashes|);
    assert b.hashes[|left.hashes|..|b.hashes|] == right.hashes;
  }

  // ------------------------------------------------------------------- sizes

  // Never more hashes than leaves, never more hashes than bits.
  lemma {:induction false} HashesBounded(height: nat, pos: nat, txids: seq<Digest>, mask: seq<bool>)
    requires First(height, pos) < |txids| == |mask|
    ensures var b := Build(height, pos, txids, mask);
            && 1 <= |b.hashes| <= End(|txids|, height, pos) - First(height, pos)
            && |b.hashes| <= |b.bits|
    decreases height
  {
    NodeSpan(|txids|, height, pos);
    if height > 0 && AnyMatch(mask, First(height, pos), End(|txids|, height, pos)) {
      Children(|txids|, height, pos);
      HashesBounded(height - 1, pos * 2, txids, mask);
      if pos * 2 + 1 < CalcTreeWidth(|txids|, height - 1) {
        HashesBounded(height - 1, pos * 2 + 1, txids, mask);
      }
    }
  }

  lemma {:induction false} CountSplit(mask: seq<bool>, lo: nat, mid: nat, hi: nat)
    requires lo <= mid <= hi <= |mask|
    ensures CountMatched(mask, lo, hi) == CountMatched(mask, lo, mid) + CountMatched(mask, mid, hi)
    decreases mid - lo
  {
    if lo < mid {
      CountSplit(mask, lo + 1, mid, hi);
    }
  }

  lemma {:induction false} CountPositive(mask: seq<bool>, lo: nat, hi: nat)
    requires lo <= hi <= |mask|
    ensures CountMatched(mask, lo, hi) > 0 <==> AnyMatch(mask, lo, hi)
    decreases hi - lo
  {
    if lo < hi {
      CountPositive(mask, lo + 1, hi);
      if AnyMatch(mask, lo, hi) && !mask[lo] {
        var p :| lo <= p < hi && mask[p];
        assert AnyMatch(mask, lo + 1, hi);
      }
      if AnyMatch(mask, lo + 1, hi) {
        var p :| lo + 1 <= p < hi && mask[p];
        assert AnyMatch(mask, lo, hi);
      }
    }
  }

  // The hashes of two children, with at least one match between them.
  lemma PerMatch(a: nat, b: nat, m: nat, k: nat, h: nat)
    requires a <= 1 + m * h && b <= 1 + k * h && m + k >= 1
    ensures a + b <= 1 + (m + k) * (h + 1)
  {
    assert (m + k) * (h + 1) == m * h + k * h + m + k;
  }

  // At most one hash more than the matches times the height.
  lemma {:induction false} HashesPerMatch(height: nat, pos: nat, txids: seq<Digest>, mask: seq<bool>)
    requires First(height, pos) < |txids| == |mask|
    ensures First(height, pos) < End(|txids|, height, pos) <= |txids|
    ensures |Build(height, pos, txids, mask).hashes|
            <= 1 + CountMatched(mask, First(height, pos), End(|txids|, height, pos)) * height
    decreases height
  {
    hide First, End, CalcTreeWidth, Pow2, AnyMatch, Build, CountMatched;
    var n := |txids|;
    NodeSpan(n, height, pos);
    var lo, hi := First(height, pos), End(n, height, pos);
    var m := CountMatched(mask, lo, hi);
    if IsCut(height, pos, txids, mask) {
      CutBuilt(height, pos, txids, mask);
      MulMonotone(0, m, height);
    } else {
      CountPositive(mask, lo, hi);
      Children(n, height, pos);
      BuildInner(height, pos, txids, mask);
      HashesPerMatch(height - 1, pos * 2, txids, mask);
      if pos * 2 + 1 < CalcTreeWidth(n, height - 1) {
        var mid := First(height - 1, pos * 2 + 1);
        HashesPerMatch(height - 1, pos * 2 + 1, txids, mask);
        CountSplit(mask, lo, mid, hi);
        PerMatch(|Build(height - 1, pos * 2, txids, mask).hashes|, |Build(height - 1, pos * 2 + 1, txids, mask).hashes|,
                 CountMatched(mask, lo, mid), CountMatched(mask, mid, hi), height - 1);
      } else {
        PerMatch(|Build(height - 1, pos * 2, txids, mask).hashes|, 0, m, 0, height - 1);
      }
    }
  }

  // --------------------------------------------------------------- the whole

  lemma {:induction false} HeightCovers(n: nat, height: nat)
    requires n > 0
    ensures CalcTreeWidth(n, TreeHeightFrom(n, height)) <= 1 && TreeHeightFrom(n, height) >= height
    decreases n - height
  {
    if CalcTreeWidth(n, height) > 1 {
      BigWidth(n, height);
      HeightCovers(n, height + 1);
    }
  }

  // The root covers every leaf.
  lemma RootSpan(n: nat)
    requires n > 0
    ensures First(TreeHeight(n), 0) == 0 && End(n, TreeHeight(n), 0) == n
  {
    HeightCovers(n, 0);
    InWidth(n, TreeHeight(n), 1);
  }

  // Bits that went through bytes come back with padding.
  predicate Padded(bits: seq<bool>, received: seq<bool>) {
    bits <= received && |received| == (|bits| + 7) / 8 * 8
  }

  // What a block's encoder makes of its txids, after transport, decodes to
  // the Merkle root and exactly the matched txids in order, unless a node that
  // it descends into has twins: then it is refused.
  lemma RoundTrip(txids: seq<Digest>, mask: seq<bool>, received: seq<bool>)
    requires 0 < |txids| == |mask| <= MAX_TRANSACTIONS
    requires First(TreeHeight(|txids|), 0) < |txids|
    requires Padded(Build(TreeHeight(|txids|), 0, txids, mask).bits, received)
    ensures var b := Build(TreeHeight(|txids|), 0, txids, mask);
            ExtractMatches(|txids|, Encoded(received, b.hashes))
            == (if TwinFree(TreeHeight(|txids|), 0, txids, mask) then CalcHash(TreeHeight(|txids|), 0, txids) else Zero,
                Matched(txids, mask, 0, |txids|))
  {
    hide Extract, Build, CalcHash, TreeHeight, Matched, First, End, CalcTreeWidth, TwinFree, At;
    var n := |txids|;
    var height := TreeHeight(n);
    var b := Build(height, 0, txids, mask);
    var e := Encoded(received, b.hashes);
    var start := Cursor(0, 0, [], false);
    RootSpan(n);
    HashesBounded(height, 0, txids, mask);
    AtStart(b, received);
    ExtractBuilt(height, 0, txids, mask, e, start);
    assert [] + Matched(txids, mask, 0, n) == Matched(txids, mask, 0, n);
  }

  lemma AtStart(b: Encoded, received: seq<bool>)
    requires Padded(b.bits, received)
    ensures At(Encoded(received, b.hashes), Cursor(0, 0, [], false), b)
  {
    assert received[..|b.bits|] == b.bits && b.hashes[..|b.hashes|] == b.hashes;
  }

  // Distinct txids have no twins anywhere.
  lemma {:induction false} DistinctHaveNoTwins(height: nat, pos: nat, txids: seq<Digest>, mask: seq<bool>)
    requires First(height, pos) < |txids| == |mask| && Distinct(txids)
    ensures TwinFree(height, pos, txids, mask)
    decreases height
  {
    hide First, CalcTreeWidth, IsCut, CalcHash, Distinct;
    if !IsCut(height, pos, txids, mask) {
      NotCutIsInner(height, pos, txids, mask);
      Children(|txids|, height, pos);
      DistinctHaveNoTwins(height - 1, pos * 2, txids, mask);
      if pos * 2 + 1 < CalcTreeWidth(|txids|, height - 1) {
        DistinctHaveNoTwins(height - 1, pos * 2 + 1, txids, mask);
        TwinsDiffer(height - 1, pos * 2, txids);
      }
    }
  }

  // A txid repeated in the neighbouring place is seen from every node above it.
  lemma {:induction false} TwinsSeen(height: nat, pos: nat, txids: seq<Digest>, mask: seq<bool>, i: nat)
    requires height > 0 && |txids| == |mask| && i * 2 + 1 < |txids| && txids[i * 2] == txids[i * 2 + 1]
    requires mask[i * 2] || mask[i * 2 + 1]
    requires First(height, pos) <= i * 2 < (pos + 1) * Pow2(height)
    ensures !TwinFree(height, pos, txids, mask)
    decreases height
  {
    hide CalcTreeWidth, CalcHash;
    var n := |txids|;
    NodeSpan(n, height, pos);
    Children(n, height, pos);
    EvenSpan(height, pos, i);
    assert AnyMatch(mask, First(height, pos), End(n, height, pos)) by {
      assert mask[i * 2] || mask[i * 2 + 1];
    }
    if height == 1 {
      LeafHash(i * 2, txids);
      LeafHash(i * 2 + 1, txids);
    } else if i * 2 < First(height - 1, pos * 2 + 1) {
      TwinsSeen(height - 1, pos * 2, txids, mask, i);
    } else {
      TwinsSeen(height - 1, pos * 2 + 1, txids, mask, i);
    }
  }

  // The leaves under an inner node are whole pairs.
  lemma EvenSpan(height: nat, pos: nat, i: nat)
    requires height > 0 && First(height, pos) <= i * 2 < (pos + 1) * Pow2(height)
    ensures i * 2 + 1 < (pos + 1) * Pow2(height)
    ensures height == 1 ==> i == pos
    ensures (pos * 2 + 1) * Pow2(height - 1) == First(height - 1, pos * 2 + 1)
    ensures (pos * 2 + 2) * Pow2(height - 1) == (pos + 1) * Pow2(height)
  {
    var d := Pow2(height - 1);
    assert (pos + 1) * (2 * d) == 2 * ((pos + 1) * d);
    assert (pos * 2 + 2) * d == 2 * ((pos + 1) * d);
    if height == 1 {
      assert d == 1;
    }
  }

  // The last txid of an odd list repeated changes no node hash above the leaves.
  lemma {:induction false} RepeatedLast(height: nat, pos: nat, txids: seq<Digest>)
    requires height > 0 && |txids| % 2 == 1 && First(height, pos) < |txids|
    ensures CalcHash(height, pos, txids + [txids[|txids| - 1]]) == CalcHash(height, pos, txids)
    decreases height
  {
    hide First, CalcTreeWidth, CalcHash, Pow2;
    var n, more := |txids|, txids + [txids[|txids| - 1]];
    Children(n, height, pos);
    Children(n + 1, height, pos);
    HashInner(height, pos, txids);
    HashInner(height, pos, more);
    if height == 1 {
      LeafHash(pos * 2, txids);
      LeafHash(pos * 2, more);
      EvenLeaf(pos);
      if First(0, pos * 2 + 1) < n {
        LeafHash(pos * 2 + 1, txids);
      }
      LeafHash(pos * 2 + 1, more);
    } else {
      RepeatedLast(height - 1, pos * 2, txids);
      EvenFirst(height - 1, pos * 2 + 1);
      if First(height - 1, pos * 2 + 1) < n {
        RepeatedLast(height - 1, pos * 2 + 1, txids);
      }
    }
  }

  lemma EvenLeaf(pos: nat)
    ensures First(0, pos * 2) == pos * 2 && First(0, pos * 2 + 1) == pos * 2 + 1
  {
    assert Pow2(0) == 1;
  }

  lemma EvenFirst(height: nat, pos: nat)
    requires height > 0
    ensures First(height, pos) % 2 == 0 && Pow2(height) % 2 == 0
  {
    var d := Pow2(height - 1);
    assert pos * (2 * d) == 2 * (pos * d);
  }

  lemma {:induction false} SameHeight(n: nat, height: nat)
    requires n % 2 == 1 && n > 1
    ensures TreeHeightFrom(n, height) == TreeHeightFrom(n + 1, height)
    decreases n - height
  {
    hide CalcTreeWidth, Pow2, First;
    InWidth(n, height, 1);
    InWidth(n + 1, height, 1);
    if height > 0 {
      EvenFirst(height, 1);
    } else {
      EvenLeaf(0);
    }
    if CalcTreeWidth(n, height) > 1 {
      BigWidth(n, height);
      SameHeight(n, height + 1);
    }
  }

  // So the longer list has the same Merkle root.
  lemma RepeatedLastSameRoot(txids: seq<Digest>)
    requires |txids| % 2 == 1 && |txids| > 1
    ensures var more := txids + [txids[|txids| - 1]];
            && First(TreeHeight(|txids|), 0) < |txids| && First(TreeHeight(|more|), 0) < |more|
            && CalcHash(TreeHeight(|more|), 0, more) == CalcHash(TreeHeight(|txids|), 0, txids)
  {
    hide CalcHash, CalcTreeWidth, First;
    RootSpan(|txids|);
    SameHeight(|txids|, 0);
    HeightCovers(|txids|, 0);
    InWidth(|txids|, 0, 1);
    EvenLeaf(0);
    assert TreeHeight(|txids|) > 0;
    RepeatedLast(TreeHeight(|txids|), 0, txids);
  }

  // So a list with a matched txid repeated next to it is never accepted, whatever
  // shorter list has the same root.
  lemma TwinsRefused(txids: seq<Digest>, mask: seq<bool>, received: seq<bool>, i: nat)
    requires |txids| == |mask| <= MAX_TRANSACTIONS && i * 2 + 1 < |txids| && txids[i * 2] == txids[i * 2 + 1]
    requires mask[i * 2] || mask[i * 2 + 1]
    requires First(TreeHeight(|txids|), 0) < |txids|
    requires Padded(Build(TreeHeight(|txids|), 0, txids, mask).bits, received)
    ensures ExtractMatches(|txids|, Encoded(received, Build(TreeHeight(|txids|), 0, txids, mask).hashes)).0 == Zero
  {
    hide TwinFree, Build, ExtractMatches, TreeHeight, CalcHash, Padded;
    var height := TreeHeight(|txids|);
    RootSpan(|txids|);
    RoundTrip(txids, mask, received);
    assert height > 0 by {
      assert Pow2(0) == 1;
    }
    TwinsSeen(height, 0, txids, mask, i);
  }

  // The hash count is within both limits the format promises.
  lemma EncodingIsSmall(txids: seq<Digest>, mask: seq<bool>)
    requires 0 < |txids| == |mask|
    ensures First(TreeHeight(|txids|), 0) < |txids|
    ensures var b := Build(TreeHeight(|txids|), 0, txids, mask);
            && |b.hashes| <= |txids|
            && |b.hashes| <= 1 + CountMatched(mask, 0, |txids|) * TreeHeight(|txids|)
  {
    RootSpan(|txids|);
    HashesBounded(TreeHeight(|txids|), 0, txids, mask);
    HashesPerMatch(TreeHeight(|txids|), 0, txids, mask);
  }

  // --------------------------------------------------------------- soundness

  predicate Increasing(ps: seq<nat>, lo: nat, hi: nat) {
    && (forall i :: 0 <= i < |ps| ==> lo <= ps[i] < hi)
    && (forall i, j :: 0 <= i < j < |ps| ==> ps[i] < ps[j])
  }

  lemma {:induction false} TxidsAtConcat(txids: seq<Digest>, a: seq<nat>, b: seq<nat>)
    requires forall i :: 0 <= i < |a| ==> a[i] < |txids|
    requires forall i :: 0 <= i < |b| ==> b[i] < |txids|
    ensures TxidsAt(txids, a + b) == TxidsAt(txids, a) + TxidsAt(txids, b)
  {
    if a == [] {
      assert a + b == b;
    } else {
      TxidsAtConcat(txids, a[1..], b);
      assert (a + b)[1..] == a[1..] + b && (a + b)[0] == a[0];
      assert TxidsAt(txids, a) == [txids[a[0]]] + TxidsAt(txids, a[1..]);
    }
  }

  lemma OneIncreasing(ps: seq<nat>, lo: nat)
    requires ps == [] || ps == [lo]
    ensures forall hi :: hi > lo ==> Increasing(ps, lo, hi)
  {
  }

  lemma IncreasingConcat(txids: seq<Digest>, a: seq<nat>, b: seq<nat>, lo: nat, mid: nat, hi: nat)
    requires lo <= mid <= hi <= |txids| && Increasing(a, lo, mid) && Increasing(b, mid, hi)
    ensures Increasing(a + b, lo, hi)
    ensures TxidsAt(txids, a + b) == TxidsAt(txids, a) + TxidsAt(txids, b)
  {
    TxidsAtConcat(txids, a, b);
  }

  // Once bad, always bad.
  lemma {:induction false} BadSticks(n: nat, e: Encoded, height: nat, pos: nat, cur: Cursor)
    requires cur.bad
    ensures Extract(n, e, height, pos, cur).cur.bad
    decreases height
  {
    if height > 0 && cur.bitsUsed < |e.bits| && e.bits[cur.bitsUsed] {
      var cur1 := cur.(bitsUsed := cur.bitsUsed + 1);
      BadSticks(n, e, height - 1, pos * 2, cur1);
      if pos * 2 + 1 < CalcTreeWidth(n, height - 1) {
        BadSticks(n, e, height - 1, pos * 2 + 1, Extract(n, e, height - 1, pos * 2, cur1).cur);
      }
    }
  }

  // A subtree that decodes without complaint decodes the same whatever comes after.
  lemma {:induction false} RestIgnored(n: nat, e: Encoded, more: Encoded, height: nat, pos: nat, cur: Cursor)
    requires e.bits <= more.bits && e.hashes <= more.hashes
    requires !Extract(n, e, height, pos, cur).cur.bad
    ensures Extract(n, more, height, pos, cur) == Extract(n, e, height, pos, cur)
    decreases height
  {
    hide CalcTreeWidth, Extract;
    if cur.bitsUsed >= |e.bits| || height == 0 || !e.bits[cur.bitsUsed] {
      ExtractCut(n, e, height, pos, cur);
      ExtractCut(n, more, height, pos, cur);
    } else {
      ExtractInner(n, e, height, pos, cur);
      ExtractInner(n, more, height, pos, cur);
      var cur1 := cur.(bitsUsed := cur.bitsUsed + 1);
      var l := Extract(n, e, height - 1, pos * 2, cur1);
      if l.cur.bad {
        BadSticks(n, e, height - 1, pos * 2 + 1, l.cur);
      }
      RestIgnored(n, e, more, height - 1, pos * 2, cur1);
      if pos * 2 + 1 < CalcTreeWidth(n, height - 1) {
        RestIgnored(n, e, more, height - 1, pos * 2 + 1, l.cur);
      }
    }
  }

  // What is accepted is accepted with nothing added: one more hash, or enough bits
  // for one more byte, and it is refused; within the last byte bits do not matter.
  lemma NothingLeftOver(n: nat, e: Encoded, more: Encoded)
    requires ExtractMatches(n, e).0 != Zero
    requires e.bits <= more.bits && e.hashes <= more.hashes
    ensures ExtractMatches(n, more).0
            == if more.hashes == e.hashes && (|more.bits| + 7) / 8 == (|e.bits| + 7) / 8 then ExtractMatches(n, e).0
               else Zero
    ensures n <= 16_666 && |e.hashes| <= n
  {
    hide Extract, TreeHeight;
    RestIgnored(n, e, more, TreeHeight(n), 0, Cursor(0, 0, [], false));
  }

  // Any encoding of a subtree that decodes without complaint to the subtree's
  // hash yields txids of that subtree, at increasing positions.
  lemma {:induction false} SubtreeSound(height: nat, pos: nat, txids: seq<Digest>, e: Encoded, cur: Cursor)
    returns (ps: seq<nat>)
    requires First(height, pos) < |txids|
    requires !Extract(|txids|, e, height, pos, cur).cur.bad
    requires Extract(|txids|, e, height, pos, cur).hash == CalcHash(height, pos, txids)
    ensures End(|txids|, height, pos) <= |txids| && Increasing(ps, First(height, pos), End(|txids|, height, pos))
    ensures Extract(|txids|, e, height, pos, cur).cur.matches == cur.matches + TxidsAt(txids, ps)
    decreases height
  {
    hide First, End, CalcTreeWidth, Pow2, Increasing, Extract, CalcHash;
    var n := |txids|;
    NodeSpan(n, height, pos);
    if cur.bitsUsed >= |e.bits| || height == 0 || !e.bits[cur.bitsUsed] {
      ExtractCut(n, e, height, pos, cur);
    } else {
      ExtractInner(n, e, height, pos, cur);
    }
    var parentOfMatch := e.bits[cur.bitsUsed];
    if height == 0 {
      LeafEnd(n, pos);
      LeafHash(pos, txids);
      ps := if parentOfMatch then [pos] else [];
      OneIncreasing(ps, pos);
    } else if !parentOfMatch {
      ps := [];
      OneIncreasing(ps, First(height, pos));
    } else {
      Children(n, height, pos);
      HashInner(height, pos, txids);
      var cur1 := cur.(bitsUsed := cur.bitsUsed + 1);
      var l := Extract(n, e, height - 1, pos * 2, cur1);
      if pos * 2 + 1 < CalcTreeWidth(n, height - 1) {
        if l.cur.bad {
          BadSticks(n, e, height - 1, pos * 2 + 1, l.cur);
        }
        var pl := SubtreeSound(height - 1, pos * 2, txids, e, cur1);
        var pr := SubtreeSound(height - 1, pos * 2 + 1, txids, e, l.cur);
        ps := pl + pr;
        NodeSpan(n, height - 1, pos * 2);
        NodeSpan(n, height - 1, pos * 2 + 1);
        IncreasingConcat(txids, pl, pr, First(height, pos), First(height - 1, pos * 2 + 1), End(n, height, pos));
      } else {
        ps := SubtreeSound(height - 1, pos * 2, txids, e, cur1);
      }
    }
  }

  // Whatever bits and hashes a peer sends: if they decode to the Merkle root
  // of a block with that many transactions, every txid handed out is in the
  // block, and they come in block order.
  lemma Soundness(txids: seq<Digest>, e: Encoded) returns (ps: seq<nat>)
    requires |txids| > 0 && First(TreeHeight(|txids|), 0) < |txids|
    requires CalcHash(TreeHeight(|txids|), 0, txids) != Zero
    requires ExtractMatches(|txids|, e).0 == CalcHash(TreeHeight(|txids|), 0, txids)
    ensures Increasing(ps, 0, |txids|)
    ensures ExtractMatches(|txids|, e).1 == TxidsAt(txids, ps)
  {
    hide First, End, CalcTreeWidth, Pow2, Extract, CalcHash, TreeHeight;
    RootSpan(|txids|);
    ps := SubtreeSound(TreeHeight(|txids|), 0, txids, e, Cursor(0, 0, [], false));
  }
}
