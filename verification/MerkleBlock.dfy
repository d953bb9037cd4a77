// The partial Merkle tree object: built, packed into bytes, unpacked and
// decoded by loops and counters, against the pure encoding.
module MerkleBlock {
  import opened MerkleTree
  import opened Bits
  import opened Numbers
  import MerkleProofs

  // ------------------------------------------------------------ bit packing

  // Packs 8 bits to a byte, the first in the lowest place; the rest is zero.
  method PackBits(bits: seq<bool>) returns (bytes: seq<Byte>)
    ensures |bytes| == (|bits| + 7) / 8
    ensures forall p :: 0 <= p < 8 * |bytes| ==> (BitAt(bytes, p) <==> p < |bits| && bits[p])
  {
    hide BitAt, Mask;
    bytes := seq((|bits| + 7) / 8, _ => 0);
    ZeroBits(bytes);
    for p := 0 to |bits|
      invariant |bytes| == (|bits| + 7) / 8
      invariant forall q :: 0 <= q < 8 * |bytes| ==> (BitAt(bytes, q) <==> q < p && bits[q])
    {
      if bits[p] {
        var packed := bytes[p / 8 := bytes[p / 8] | Mask(p % 8)];
        forall q | 0 <= q < 8 * |packed| ensures BitAt(packed, q) <==> q == p || BitAt(bytes, q) {
          SetBitAt(bytes, p, q);
        }
        bytes := packed;
      }
    }
  }

  method UnpackBits(bytes: seq<Byte>) returns (bits: seq<bool>)
    ensures |bits| == 8 * |bytes|
    ensures forall p :: 0 <= p < |bits| ==> (bits[p] <==> BitAt(bytes, p))
  {
    bits := [];
    for p := 0 to 8 * |bytes|
      invariant |bits| == p
      invariant forall q :: 0 <= q < p ==> (bits[q] <==> BitAt(bytes, q))
    {
      bits := bits + [bytes[p / 8] & Mask(p % 8) != 0];
    }
  }

  // -------------------------------------------------------------- the object

  method CalcTreeHeight(n: nat) returns (height: nat)
    ensures height == TreeHeight(n)
  {
    height := 0;
    while CalcTreeWidth(n, height) > 1
      invariant TreeHeightFrom(n, height) == TreeHeight(n)
      decreases n - height
    {
      BigWidth(n, height);
      height := height + 1;
    }
  }

  // Whether a node is the parent of at least one matched txid.
  method CoversMatch(height: nat, pos: nat, mask: seq<bool>) returns (any: bool)
    requires First(height, pos) < |mask|
    ensures First(height, pos) < End(|mask|, height, pos) <= |mask|
    ensures any == AnyMatch(mask, First(height, pos), End(|mask|, height, pos))
  {
    NodeSpan(|mask|, height, pos);
    any := false;
    var p := First(height, pos);
    while p < (pos + 1) * Pow2(height) && p < |mask|
      invariant First(height, pos) <= p <= End(|mask|, height, pos)
      invariant any == AnyMatch(mask, First(height, pos), p)
      decreases |mask| - p
    {
      any := any || mask[p];
      p := p + 1;
    }
  }

  class PartialMerkleTree {
    var nTransactions: nat
    var vBits: seq<bool>
    var vHash: seq<Digest>
    var fBad: bool

    ghost function Code(): Encoded
      reads this
    {
      Encoded(vBits, vHash)
    }

    // From the txids of a block and the mask of those wanted.
    constructor (txids: seq<Digest>, mask: seq<bool>)
      requires 0 < |txids| == |mask|
      ensures First(TreeHeight(|txids|), 0) < |txids|
      ensures nTransactions == |txids| && !fBad && Code() == Build(TreeHeight(|txids|), 0, txids, mask)
    {
      nTransactions, fBad, vBits, vHash := |txids|, false, [], [];
      new;
      MerkleProofs.RootSpan(|txids|);
      var height := CalcTreeHeight(|txids|);
      TraverseAndBuild(height, 0, txids, mask);
    }

    // From what a peer sent.
    constructor Received(nTransactions: nat, vHash: seq<Digest>, bytes: seq<Byte>)
      ensures this.nTransactions == nTransactions && this.vHash == vHash && !fBad
      ensures |vBits| == 8 * |bytes| && forall p :: 0 <= p < |vBits| ==> (vBits[p] <==> BitAt(bytes, p))
    {
      this.nTransactions, this.vHash, fBad := nTransactions, vHash, false;
      var bits := UnpackBits(bytes);
      vBits := bits;
    }

    method TraverseAndBuild(height: nat, pos: nat, txids: seq<Digest>, mask: seq<bool>)
      requires First(height, pos) < |txids| == |mask| == nTransactions
      modifies this`vBits, this`vHash
      ensures vBits == old(vBits) + Build(height, pos, txids, mask).bits
      ensures vHash == old(vHash) + Build(height, pos, txids, mask).hashes
      decreases height
    {
      hide First, End, CalcTreeWidth, Pow2, AnyMatch, Build;
      NodeSpan(nTransactions, height, pos);
      var fParentOfMatch := CoversMatch(height, pos, mask);
      vBits := vBits + [fParentOfMatch];
      if height == 0 || !fParentOfMatch {
        vHash := vHash + [CalcHash(height, pos, txids)];
        MerkleProofs.CutBuilt(height, pos, txids, mask);
      } else {
        Children(nTransactions, height, pos);
        MerkleProofs.BuildInner(height, pos, txids, mask);
        TraverseAndBuild(height - 1, pos * 2, txids, mask);
        if pos * 2 + 1 < CalcTreeWidth(nTransactions, height - 1) {
          TraverseAndBuild(height - 1, pos * 2 + 1, txids, mask);
        }
      }
    }

    method TraverseAndExtract(height: nat, pos: nat, nBitsUsed: nat, nHashUsed: nat, vMatch: seq<Digest>)
      returns (hash: Digest, nBitsUsed': nat, nHashUsed': nat, vMatch': seq<Digest>)
      modifies this`fBad
      ensures Extracted(hash, Cursor(nBitsUsed', nHashUsed', vMatch', fBad))
              == Extract(nTransactions, Code(), height, pos, Cursor(nBitsUsed, nHashUsed, vMatch, old(fBad)))
      decreases height
    {
      hide CalcTreeWidth, Extract;
      ghost var cur := Cursor(nBitsUsed, nHashUsed, vMatch, fBad);
      nBitsUsed', nHashUsed', vMatch' := nBitsUsed, nHashUsed, vMatch;
      if nBitsUsed >= |vBits| || height == 0 || !vBits[nBitsUsed] {
        MerkleProofs.ExtractCut(nTransactions, Code(), height, pos, cur);
      } else {
        MerkleProofs.ExtractInner(nTransactions, Code(), height, pos, cur);
      }
      if nBitsUsed >= |vBits| {
        fBad := true;
        return Zero, nBitsUsed', nHashUsed', vMatch';
      }
      var fParentOfMatch := vBits[nBitsUsed];
      nBitsUsed' := nBitsUsed + 1;
      if height == 0 || !fParentOfMatch {
        if nHashUsed >= |vHash| {
          fBad := true;
          return Zero, nBitsUsed', nHashUsed', vMatch';
        }
        hash := vHash[nHashUsed];
        nHashUsed' := nHashUsed + 1;
        if height == 0 && fParentOfMatch {
          vMatch' := vMatch + [hash];
        }
      } else {
        var left: Digest, right: Digest;
        left, nBitsUsed', nHashUsed', vMatch' :=
          TraverseAndExtract(height - 1, pos * 2, nBitsUsed', nHashUsed', vMatch');
        if pos * 2 + 1 < CalcTreeWidth(nTransactions, height - 1) {
          right, nBitsUsed', nHashUsed', vMatch' :=
            TraverseAndExtract(height - 1, pos * 2 + 1, nBitsUsed', nHashUsed', vMatch');
          if right == left {
            fBad := true;
          }
        } else {
          right := left;
        }
        hash := Node(left, right);
      }
    }

    method ExtractMatches() returns (root: Digest, vMatch: seq<Digest>)
      modifies this`fBad
      ensures !old(fBad) ==> (root, vMatch) == MerkleTree.ExtractMatches(nTransactions, Code())
      ensures old(fBad) ==> root == Zero
    {
      hide Extract;
      if nTransactions == 0 || nTransactions > MAX_TRANSACTIONS || |vHash| > nTransactions || |vBits| < |vHash| {
        return Zero, [];
      }
      var height := CalcTreeHeight(nTransactions);
      if fBad {
        MerkleProofs.BadSticks(nTransactions, Code(), height, 0, Cursor(0, 0, [], true));
      }
      var nBitsUsed, nHashUsed;
      root, nBitsUsed, nHashUsed, vMatch := TraverseAndExtract(height, 0, 0, 0, []);
      if fBad || (nBitsUsed + 7) / 8 != (|vBits| + 7) / 8 || nHashUsed != |vHash| {
        return Zero, vMatch;
      }
    }
  }

  // The whole way from one node to another: built, packed, unpacked, decoded.
  method SendAndReceive(txids: seq<Digest>, mask: seq<bool>) returns (root: Digest, vMatch: seq<Digest>)
    requires 0 < |txids| == |mask| <= MAX_TRANSACTIONS
    ensures First(TreeHeight(|txids|), 0) < |txids|
    ensures Distinct(txids) ==> root == CalcHash(TreeHeight(|txids|), 0, txids)
    ensures root == (if MerkleProofs.TwinFree(TreeHeight(|txids|), 0, txids, mask)
                     then CalcHash(TreeHeight(|txids|), 0, txids) else Zero)
    ensures vMatch == Matched(txids, mask, 0, |txids|)
  {
    hide Build, TreeHeight, MerkleProofs.TwinFree;
    var sent := new PartialMerkleTree(txids, mask);
    var bytes := PackBits(sent.vBits);
    var received := new PartialMerkleTree.Received(sent.nTransactions, sent.vHash, bytes);
    MerkleProofs.RoundTrip(txids, mask, received.vBits);
    root, vMatch := received.ExtractMatches();
    if Distinct(txids) {
      MerkleProofs.DistinctHaveNoTwins(TreeHeight(|txids|), 0, txids, mask);
    }
  }
}
