// Partial Merkle trees: the shape of the tree, its encoding and its decoding.
module MerkleTree {
  import opened Numbers

  // 256-bit hashes, with the node hash kept symbolic and so collision-free.
  // A txid may itself be a Node. Zero is the null hash.
  datatype Digest = Zero | Leaf(id: nat) | Node(left: Digest, right: Digest)

  const MAX_TRANSACTIONS: nat := 1_000_000 / 60

  // ------------------------------------------------------------------- shape

  // Number of nodes at the given height over n leaves.
  function CalcTreeWidth(n: nat, height: nat): nat {
    (n + Pow2(height) - 1) / Pow2(height)
  }

  // The first leaf under a node.
  function First(height: nat, pos: nat): nat {
    pos * Pow2(height)
  }

  // One past the last leaf under a node.
  function End(n: nat, height: nat, pos: nat): nat {
    var e := (pos + 1) * Pow2(height);
    if e < n then e else n
  }

  lemma InWidth(n: nat, height: nat, pos: nat)
    ensures pos < CalcTreeWidth(n, height) <==> First(height, pos) < n
  {
    hide Pow2;
    var d := Pow2(height);
    var w := CalcTreeWidth(n, height);
    Floor(n + d - 1, d, 0);
    if pos < w {
      MulMonotone(pos + 1, w, d);
      assert (pos + 1) * d == pos * d + d;
    } else {
      MulMonotone(w, pos, d);
    }
  }

  // The two children split the leaves of a node between them.
  lemma Children(n: nat, height: nat, pos: nat)
    requires height > 0 && First(height, pos) < n
    ensures First(height - 1, pos * 2) == First(height, pos)
    ensures First(height - 1, pos * 2 + 1) == First(height, pos) + Pow2(height - 1)
    ensures pos * 2 + 1 < CalcTreeWidth(n, height - 1) <==> First(height - 1, pos * 2 + 1) < n
    ensures if First(height - 1, pos * 2 + 1) < n
            then End(n, height - 1, pos * 2) == First(height - 1, pos * 2 + 1)
                 && End(n, height - 1, pos * 2 + 1) == End(n, height, pos)
            else End(n, height - 1, pos * 2) == End(n, height, pos)
    ensures First(height, pos) < End(n, height, pos) <= n
  {
    var d := Pow2(height - 1);
    assert pos * 2 * d == pos * (2 * d);
    assert (pos * 2 + 1) * d == pos * 2 * d + d;
    assert (pos * 2 + 1 + 1) * d == (pos + 1) * (2 * d);
    assert (pos + 1) * (2 * d) == pos * (2 * d) + 2 * d;
    InWidth(n, height - 1, pos * 2 + 1);
  }

  lemma LeafEnd(n: nat, pos: nat)
    requires First(0, pos) < n
    ensures First(0, pos) == pos && End(n, 0, pos) == pos + 1
  {
  }

  function CalcHash(height: nat, pos: nat, txids: seq<Digest>): Digest
    requires First(height, pos) < |txids|
    decreases height
  {
    if height == 0 then LeafEnd(|txids|, pos); txids[pos]
    else
      Children(|txids|, height, pos);
      var left := CalcHash(height - 1, pos * 2, txids);
      var right :=
        if pos * 2 + 1 < CalcTreeWidth(|txids|, height - 1) then CalcHash(height - 1, pos * 2 + 1, txids) else left;
      Node(left, right)
  }

  // ---------------------------------------------------------------- encoding

  predicate AnyMatch(mask: seq<bool>, lo: nat, hi: nat)
    requires lo <= hi <= |mask|
  {
    exists p :: lo <= p < hi && mask[p]
  }

  datatype Encoded = Encoded(bits: seq<bool>, hashes: seq<Digest>)

  function Build(height: nat, pos: nat, txids: seq<Digest>, mask: seq<bool>): Encoded
    requires First(height, pos) < |txids| == |mask|
    decreases height
  {
    NodeSpan(|txids|, height, pos);
    var parentOfMatch := AnyMatch(mask, First(height, pos), End(|txids|, height, pos));
    if height == 0 || !parentOfMatch then Encoded([parentOfMatch], [CalcHash(height, pos, txids)])
    else
      Children(|txids|, height, pos);
      var left := Build(height - 1, pos * 2, txids, mask);
      if pos * 2 + 1 < CalcTreeWidth(|txids|, height - 1) then
        var right := Build(height - 1, pos * 2 + 1, txids, mask);
        Encoded([true] + left.bits + right.bits, left.hashes + right.hashes)
      else Encoded([true] + left.bits, left.hashes)
  }

  lemma NodeSpan(n: nat, height: nat, pos: nat)
    requires First(height, pos) < n
    ensures First(height, pos) < End(n, height, pos) <= n
  {
    assert (pos + 1) * Pow2(height) == pos * Pow2(height) + Pow2(height);
  }

  // ---------------------------------------------------------------- decoding

  // The state of a decoding run: counters, the txids found, and whether
  // something was wrong.
  datatype Cursor = Cursor(bitsUsed: nat, hashUsed: nat, matches: seq<Digest>, bad: bool)

  datatype Extracted = Extracted(hash: Digest, cur: Cursor)

  function Extract(n: nat, e: Encoded, height: nat, pos: nat, cur: Cursor): Extracted
    decreases height
  {
    if cur.bitsUsed >= |e.bits| then Extracted(Zero, cur.(bad := true))
    else
      var parentOfMatch := e.bits[cur.bitsUsed];
      var cur1 := cur.(bitsUsed := cur.bitsUsed + 1);
      if height == 0 || !parentOfMatch then
        if cur1.hashUsed >= |e.hashes| then Extracted(Zero, cur1.(bad := true))
        else
          var hash := e.hashes[cur1.hashUsed];
          var matched := height == 0 && parentOfMatch;
          Extracted(hash, cur1.(hashUsed := cur1.hashUsed + 1,
                                matches := if matched then cur1.matches + [hash] else cur1.matches))
      else
        var l := Extract(n, e, height - 1, pos * 2, cur1);
        if pos * 2 + 1 < CalcTreeWidth(n, height - 1) then
          var r := Extract(n, e, height - 1, pos * 2 + 1, l.cur);
          Extracted(Node(l.hash, r.hash), if r.hash == l.hash then r.cur.(bad := true) else r.cur)
        else Extracted(Node(l.hash, l.hash), l.cur)
  }

  function TreeHeightFrom(n: nat, height: nat): nat
    decreases n - height
  {
    if CalcTreeWidth(n, height) > 1 then
      BigWidth(n, height);
      TreeHeightFrom(n, height + 1)
    else height
  }

  lemma {:induction false} Pow2Grows(h: nat)
    ensures Pow2(h) > h
  {
    if h > 0 {
      Pow2Grows(h - 1);
    }
  }

  lemma BigWidth(n: nat, height: nat)
    requires CalcTreeWidth(n, height) > 1
    ensures n > height
  {
    Pow2Grows(height);
    InWidth(n, height, 1);
  }

  function TreeHeight(n: nat): nat {
    TreeHeightFrom(n, 0)
  }

  // What ExtractMatches returns: the root, or Zero when anything is wrong.
  function ExtractMatches(n: nat, e: Encoded): (Digest, seq<Digest>) {
    if n == 0 || n > MAX_TRANSACTIONS || |e.hashes| > n || |e.bits| < |e.hashes| then (Zero, [])
    else
      var r := Extract(n, e, TreeHeight(n), 0, Cursor(0, 0, [], false));
      if r.cur.bad || (r.cur.bitsUsed + 7) / 8 != (|e.bits| + 7) / 8 || r.cur.hashUsed != |e.hashes| then
        (Zero, r.cur.matches)
      else (r.hash, r.cur.matches)
  }

  // ------------------------------------------------------------ what it means

  // The matched txids from position lo on, in order, up to hi.
  function Matched(txids: seq<Digest>, mask: seq<bool>, lo: nat, hi: nat): seq<Digest>
    requires lo <= hi <= |txids| == |mask|
    decreases hi - lo
  {
    if lo == hi then []
    else (if mask[lo] then [txids[lo]] else []) + Matched(txids, mask, lo + 1, hi)
  }

  function CountMatched(mask: seq<bool>, lo: nat, hi: nat): nat
    requires lo <= hi <= |mask|
    decreases hi - lo
  {
    if lo == hi then 0 else (if mask[lo] then 1 else 0) + CountMatched(mask, lo + 1, hi)
  }

  // The txids at the given positions.
  function TxidsAt(txids: seq<Digest>, ps: seq<nat>): seq<Digest>
    requires forall i :: 0 <= i < |ps| ==> ps[i] < |txids|
  {
    if ps == [] then [] else [txids[ps[0]]] + TxidsAt(txids, ps[1..])
  }
}
