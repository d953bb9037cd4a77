// Block data arriving in any order, and the transaction counts of chains.
module BlockTree {
  import opened Coins
  import opened Numbers

  // A header, and what is known of its block: nTx is zero until its data
  // arrives, nChainTx counts the chain up to it once nothing is missing.
  datatype Entry = Entry(prev: Option<Hash>, height: nat, nTx: nat, nChainTx: nat)

  type Index = map<Hash, Entry>

  // Blocks that arrived before some ancestor, by their predecessor.
  type Unlinked = map<Hash, seq<Hash>>

  function Waiting(un: Unlinked, p: Hash): seq<Hash> {
    if p in un then un[p] else []
  }

  predicate HasPrev(idx: Index, b: Hash)
    requires b in idx
  {
    match idx[b].prev
    case None => idx[b].height == 0
    case Some(p) => p in idx && idx[b].height == idx[p].height + 1
  }

  predicate IsTree(idx: Index) {
    forall b {:trigger HasPrev(idx, b)} :: b in idx ==> HasPrev(idx, b)
  }

  predicate Arrived(idx: Index, b: Hash) {
    b in idx && idx[b].nTx > 0
  }

  // The block and all its ancestors have arrived.
  predicate AllArrived(idx: Index, b: Hash)
    requires IsTree(idx) && b in idx
    decreases idx[b].height
  {
    assert HasPrev(idx, b);
    Arrived(idx, b) && (idx[b].prev.Some? ==> AllArrived(idx, idx[b].prev.value))
  }

  // The transactions of the block and all its ancestors.
  function PathTx(idx: Index, b: Hash): nat
    requires IsTree(idx) && b in idx
    decreases idx[b].height
  {
    assert HasPrev(idx, b);
    idx[b].nTx + if idx[b].prev.Some? then PathTx(idx, idx[b].prev.value) else 0
  }

  // The count of a chain with nothing missing, else zero.
  predicate CountIsPathTx(idx: Index, b: Hash)
    requires IsTree(idx) && b in idx
  {
    idx[b].nChainTx == if AllArrived(idx, b) then PathTx(idx, b) else 0
  }

  // Exactly the blocks that arrived before some ancestor wait, each under its
  // predecessor.
  predicate WaitsRightly(idx: Index, un: Unlinked, p: Hash, b: Hash)
    requires IsTree(idx)
  {
    b in Waiting(un, p) <==>
      p in idx && Arrived(idx, b) && idx[b].prev == Some(p) && !AllArrived(idx, p)
  }

  predicate ListsOk(un: Unlinked) {
    forall p :: p in un ==> un[p] != [] && Distinct(un[p])
  }

  // What the index and the multimap promise between calls.
  ghost predicate Settled(idx: Index, un: Unlinked) {
    && IsTree(idx) && ListsOk(un)
    && (forall b {:trigger CountIsPathTx(idx, b)} :: b in idx ==> CountIsPathTx(idx, b))
    && (forall p, b {:trigger WaitsRightly(idx, un, p, b)} :: WaitsRightly(idx, un, p, b))
  }

  // The predecessor, if any, has its count.
  predicate PrevCounted(idx: Index, b: Hash)
    requires IsTree(idx) && b in idx
  {
    assert HasPrev(idx, b);
    idx[b].prev.Some? ==> idx[idx[b].prev.value].nChainTx > 0
  }

  function Counted(idx: Index, b: Hash): nat
    requires IsTree(idx) && b in idx
  {
    assert HasPrev(idx, b);
    idx[b].nTx + if idx[b].prev.Some? then idx[idx[b].prev.value].nChainTx else 0
  }

  // What has a count has the right one on top of its predecessor's.
  predicate CountOk(idx: Index, b: Hash)
    requires IsTree(idx) && b in idx
  {
    idx[b].nChainTx > 0 ==> Arrived(idx, b) && PrevCounted(idx, b) && idx[b].nChainTx == Counted(idx, b)
  }

  // What arrived and has no count is queued or waits under its predecessor.
  predicate HasPlace(idx: Index, un: Unlinked, queue: seq<Hash>, b: Hash) {
    Arrived(idx, b) && idx[b].nChainTx == 0 ==>
      b in queue || (idx[b].prev.Some? && b in Waiting(un, idx[b].prev.value))
  }

  // What is queued can be counted now.
  predicate QueuedOk(idx: Index, b: Hash)
    requires IsTree(idx)
  {
    Arrived(idx, b) && idx[b].nChainTx == 0 && PrevCounted(idx, b)
  }

  // What waits cannot.
  predicate WaitingOk(idx: Index, p: Hash, b: Hash) {
    Arrived(idx, b) && idx[b].nChainTx == 0 && idx[b].prev == Some(p) && p in idx && idx[p].nChainTx == 0
  }

  // Holds while counts are being propagated.
  ghost predicate Propagating(idx: Index, un: Unlinked, queue: seq<Hash>) {
    && IsTree(idx) && ListsOk(un) && Distinct(queue)
    && (forall b {:trigger CountOk(idx, b)} :: b in idx ==> CountOk(idx, b))
    && (forall b {:trigger QueuedOk(idx, b)} :: b in queue ==> QueuedOk(idx, b))
    && (forall p, b {:trigger WaitingOk(idx, p, b)} :: b in Waiting(un, p) ==> WaitingOk(idx, p, b))
    && (forall b {:trigger HasPlace(idx, un, queue, b)} :: HasPlace(idx, un, queue, b))
  }

  lemma {:induction false} CountsAreRight(idx: Index, un: Unlinked, b: Hash)
    requires Propagating(idx, un, []) && b in idx
    ensures CountIsPathTx(idx, b)
    decreases idx[b].height
  {
    assert HasPrev(idx, b) && CountOk(idx, b) && HasPlace(idx, un, [], b);
    if idx[b].prev.Some? {
      var p := idx[b].prev.value;
      CountsAreRight(idx, un, p);
      if AllArrived(idx, p) {
        PathPositive(idx, p);
      }
      assert b in Waiting(un, p) ==> WaitingOk(idx, p, b);
    }
  }

  lemma {:induction false} PathPositive(idx: Index, b: Hash)
    requires IsTree(idx) && b in idx && AllArrived(idx, b)
    ensures PathTx(idx, b) > 0
  {
  }

  lemma PropagatedIsSettled(idx: Index, un: Unlinked)
    requires Propagating(idx, un, [])
    ensures Settled(idx, un)
  {
    forall b | b in idx ensures CountIsPathTx(idx, b) {
      CountsAreRight(idx, un, b);
    }
    forall p, b ensures WaitsRightly(idx, un, p, b) {
      if b in Waiting(un, p) {
        assert WaitingOk(idx, p, b);
      }
      if p in idx {
        CountsAreRight(idx, un, p);
        if AllArrived(idx, p) {
          PathPositive(idx, p);
        }
        if b in idx {
          CountsAreRight(idx, un, b);
          assert HasPlace(idx, un, [], b);
        }
      }
    }
  }

  lemma SettledIsPropagated(idx: Index, un: Unlinked)
    requires Settled(idx, un)
    ensures Propagating(idx, un, [])
  {
    forall b | b in idx ensures CountOk(idx, b) && HasPlace(idx, un, [], b) {
      assert HasPrev(idx, b) && CountIsPathTx(idx, b);
      if AllArrived(idx, b) {
        PathPositive(idx, b);
      }
      if idx[b].prev.Some? {
        var p := idx[b].prev.value;
        assert CountIsPathTx(idx, p) && WaitsRightly(idx, un, p, b);
        if AllArrived(idx, p) {
          PathPositive(idx, p);
        }
      }
    }
    forall p, b | b in Waiting(un, p) ensures WaitingOk(idx, p, b) {
      assert WaitsRightly(idx, un, p, b) && CountIsPathTx(idx, p) && CountIsPathTx(idx, b);
    }
  }

  // --------------------------------------------------- one propagation step

  function SetCount(idx: Index, b: Hash): Index
    requires IsTree(idx) && b in idx
  {
    idx[b := idx[b].(nChainTx := Counted(idx, b))]
  }

  lemma CountKeepsTree(idx: Index, b: Hash)
    requires IsTree(idx) && b in idx
    ensures IsTree(SetCount(idx, b))
  {
    forall c | c in idx ensures HasPrev(SetCount(idx, b), c) {
      assert HasPrev(idx, c);
    }
  }

  // The blocks that waited for b join the queue, each once.
  lemma QueueStaysDistinct(idx: Index, un: Unlinked, queue: seq<Hash>)
    requires Propagating(idx, un, queue) && queue != []
    ensures Distinct(queue[1..] + Waiting(un, queue[0]))
  {
    var b := queue[0];
    var joined := queue[1..] + Waiting(un, b);
    forall i, j | 0 <= i < j < |joined| ensures joined[i] != joined[j] {
      if i < |queue| - 1 <= j {
        assert joined[i] in queue && joined[j] in Waiting(un, b);
        assert QueuedOk(idx, joined[i]) && WaitingOk(idx, b, joined[j]);
      }
    }
  }

  // Counting the front of the queue and queueing those that waited for it.
  lemma StepPropagates(idx: Index, un: Unlinked, queue: seq<Hash>)
    requires Propagating(idx, un, queue) && queue != [] && queue[0] in idx
    ensures Propagating(SetCount(idx, queue[0]), un - {queue[0]}, queue[1..] + Waiting(un, queue[0]))
  {
    var b := queue[0];
    var idx', un', queue' := SetCount(idx, b), un - {b}, queue[1..] + Waiting(un, b);
    CountKeepsTree(idx, b);
    QueueStaysDistinct(idx, un, queue);
    assert b in queue && QueuedOk(idx, b) && HasPrev(idx, b);
    forall c | c in idx' ensures CountOk(idx', c) {
      assert CountOk(idx, c) && HasPrev(idx, c);
    }
    forall c | c in queue' ensures QueuedOk(idx', c) {
      if c in queue[1..] {
        assert c in queue && QueuedOk(idx, c) && HasPrev(idx, c);
      } else {
        assert c in Waiting(un, b) && WaitingOk(idx, b, c);
      }
    }
    forall p, c | c in Waiting(un', p) ensures WaitingOk(idx', p, c) {
      assert c in Waiting(un, p) && WaitingOk(idx, p, c);
    }
    forall c ensures HasPlace(idx', un', queue', c) {
      assert HasPlace(idx, un, queue, c);
      if c in queue && c != b {
        assert c in queue[1..];
      }
    }
  }

  lemma HeaderPropagates(idx: Index, un: Unlinked, hash: Hash, e: Entry)
    requires Propagating(idx, un, []) && hash !in idx && e.nTx == e.nChainTx == 0
    requires match e.prev case None => e.height == 0 case Some(p) => p in idx && e.height == idx[p].height + 1
    ensures Propagating(idx[hash := e], un, [])
  {
    var idx' := idx[hash := e];
    forall c | c in idx' ensures HasPrev(idx', c) {
      assert c != hash ==> HasPrev(idx, c);
    }
    forall c | c in idx' ensures CountOk(idx', c) {
      assert c != hash ==> CountOk(idx, c) && HasPrev(idx, c);
    }
    forall p, c | c in Waiting(un, p) ensures WaitingOk(idx', p, c) {
      assert WaitingOk(idx, p, c);
    }
    forall c ensures HasPlace(idx', un, [], c) {
      assert HasPlace(idx, un, [], c);
    }
  }

  // The index with the data of b, and b's first place: the queue when nothing
  // below it is missing, else the list of its predecessor.
  lemma ArrivalPropagates(idx: Index, un: Unlinked, b: Hash, nTx: nat)
    requires Propagating(idx, un, []) && b in idx && idx[b].nTx == 0 && nTx > 0
    ensures HasPrev(idx, b)
    ensures var idx' := idx[b := idx[b].(nTx := nTx, nChainTx := 0)];
            if idx[b].prev == None || idx[idx[b].prev.value].nChainTx > 0 then Propagating(idx', un, [b])
            else var p := idx[b].prev.value; Propagating(idx', un[p := Waiting(un, p) + [b]], [])
  {
    assert HasPrev(idx, b) && CountOk(idx, b);
    var idx' := idx[b := idx[b].(nTx := nTx, nChainTx := 0)];
    var linked := idx[b].prev == None || idx[idx[b].prev.value].nChainTx > 0;
    var queue := if linked then [b] else [];
    var un' := if linked then un else var p := idx[b].prev.value; un[p := Waiting(un, p) + [b]];
    forall c | c in idx' ensures HasPrev(idx', c) {
      assert HasPrev(idx, c);
    }
    forall c | c in idx' ensures CountOk(idx', c) {
      assert CountOk(idx, c) && HasPrev(idx, c);
    }
    forall p, c | c in Waiting(un, p) ensures WaitingOk(idx', p, c) && c != b {
      assert WaitingOk(idx, p, c);
    }
    forall p, c | c in Waiting(un', p) ensures WaitingOk(idx', p, c) {
      assert c == b || c in Waiting(un, p);
    }
    forall c ensures HasPlace(idx', un', queue, c) {
      assert HasPlace(idx, un, [], c);
    }
    if !linked {
      var waiting := Waiting(un, idx[b].prev.value);
      assert b !in waiting;
      assert Distinct(waiting + [b]);
    }
    assert Propagating(idx', un', queue);
  }

  // What is still without a count gets smaller.
  function Uncounted(idx: Index): set<Hash> {
    set b | b in idx && idx[b].nChainTx == 0
  }

  lemma FrontIsUncounted(idx: Index, un: Unlinked, queue: seq<Hash>)
    requires Propagating(idx, un, queue) && queue != []
    ensures IsTree(idx) && queue[0] in idx && idx[queue[0]].nChainTx == 0 && Counted(idx, queue[0]) > 0
  {
    var b := queue[0];
    assert b in queue && QueuedOk(idx, b);
    assert HasPrev(idx, b);
    assert Counted(idx, b) >= idx[b].nTx;
  }

  class BlockTree {
    var mapBlockIndex: Index
    var mapBlocksUnlinked: Unlinked

    ghost predicate Valid()
      reads this
    {
      Settled(mapBlockIndex, mapBlocksUnlinked)
    }

    constructor ()
      ensures Valid() && mapBlockIndex == map[]
    {
      mapBlockIndex, mapBlocksUnlinked := map[], map[];
    }

    // A new header whose predecessor is known, or the first of its tree.
    method AddToBlockIndex(hash: Hash, prev: Option<Hash>)
      requires Valid() && (prev.Some? ==> prev.value in mapBlockIndex)
      modifies this
      ensures Valid() && mapBlocksUnlinked == old(mapBlocksUnlinked)
      ensures hash in mapBlockIndex && mapBlockIndex - {hash} == old(mapBlockIndex) - {hash}
      ensures old(hash in mapBlockIndex) ==> mapBlockIndex == old(mapBlockIndex)
      ensures old(hash !in mapBlockIndex) ==> mapBlockIndex[hash].prev == prev && mapBlockIndex[hash].nTx == 0
    {
      if hash in mapBlockIndex {
        return;
      }
      var height := if prev.Some? then mapBlockIndex[prev.value].height + 1 else 0;
      SettledIsPropagated(mapBlockIndex, mapBlocksUnlinked);
      HeaderPropagates(mapBlockIndex, mapBlocksUnlinked, hash, Entry(prev, height, 0, 0));
      mapBlockIndex := mapBlockIndex[hash := Entry(prev, height, 0, 0)];
      PropagatedIsSettled(mapBlockIndex, mapBlocksUnlinked);
    }

    // The data of a block arrives: nTx transactions. Counts spread to every
    // descendant that was only waiting for it.
    method ReceivedBlockTransactions(pindexNew: Hash, nTx: nat)
      requires Valid() && pindexNew in mapBlockIndex && mapBlockIndex[pindexNew].nTx == 0 && nTx > 0
      modifies this
      ensures Valid()
      ensures mapBlockIndex.Keys == old(mapBlockIndex.Keys)
      ensures forall b :: b in mapBlockIndex ==>
                mapBlockIndex[b].(nChainTx := 0)
                == old(mapBlockIndex)[b].(nChainTx := 0,
                                          nTx := if b == pindexNew then nTx else old(mapBlockIndex)[b].nTx)
    {
      SettledIsPropagated(mapBlockIndex, mapBlocksUnlinked);
      ArrivalPropagates(mapBlockIndex, mapBlocksUnlinked, pindexNew, nTx);
      hide Propagating;
      var prev := mapBlockIndex[pindexNew].prev;
      mapBlockIndex := mapBlockIndex[pindexNew := mapBlockIndex[pindexNew].(nTx := nTx, nChainTx := 0)];
      var queue: seq<Hash> := [];
      if prev == None || mapBlockIndex[prev.value].nChainTx > 0 {
        queue := [pindexNew];
      } else {
        var p := prev.value;
        mapBlocksUnlinked := mapBlocksUnlinked[p := Waiting(mapBlocksUnlinked, p) + [pindexNew]];
      }
      while queue != []
        invariant Propagating(mapBlockIndex, mapBlocksUnlinked, queue)
        invariant mapBlockIndex.Keys == old(mapBlockIndex.Keys)
        invariant forall b :: b in mapBlockIndex ==>
                    mapBlockIndex[b].(nChainTx := 0)
                    == old(mapBlockIndex)[b].(nChainTx := 0,
                                              nTx := if b == pindexNew then nTx else old(mapBlockIndex)[b].nTx)
        decreases Uncounted(mapBlockIndex)
      {
        var b := queue[0];
        FrontIsUncounted(mapBlockIndex, mapBlocksUnlinked, queue);
        StepPropagates(mapBlockIndex, mapBlocksUnlinked, queue);
        assert b in Uncounted(mapBlockIndex);
        queue := queue[1..];
        mapBlockIndex := SetCount(mapBlockIndex, b);
        queue := queue + Waiting(mapBlocksUnlinked, b);
        mapBlocksUnlinked := mapBlocksUnlinked - {b};
      }
      PropagatedIsSettled(mapBlockIndex, mapBlocksUnlinked);
    }
  }

  // The counts and the waiting blocks depend on what has arrived, not on the
  // order: two settled states with the same headers and data agree.
  lemma ArrivalOrderIrrelevant(idx1: Index, un1: Unlinked, idx2: Index, un2: Unlinked)
    requires Settled(idx1, un1) && Settled(idx2, un2) && idx1.Keys == idx2.Keys
    requires forall b :: b in idx1 ==> idx1[b].(nChainTx := 0) == idx2[b].(nChainTx := 0)
    ensures idx1 == idx2
    ensures forall p, b :: b in Waiting(un1, p) <==> b in Waiting(un2, p)
  {
    forall b | b in idx1 ensures idx1[b] == idx2[b] {
      SameArrivals(idx1, idx2, b);
      assert CountIsPathTx(idx1, b) && CountIsPathTx(idx2, b);
      assert idx1[b].(nChainTx := 0) == idx2[b].(nChainTx := 0);
    }
    assert idx1 == idx2;
    forall p, b ensures b in Waiting(un1, p) <==> b in Waiting(un2, p) {
      assert WaitsRightly(idx1, un1, p, b) && WaitsRightly(idx2, un2, p, b);
    }
  }

  lemma {:induction false} SameArrivals(idx1: Index, idx2: Index, b: Hash)
    requires IsTree(idx1) && IsTree(idx2) && b in idx1 && idx1.Keys == idx2.Keys
    requires forall b :: b in idx1 ==> idx1[b].(nChainTx := 0) == idx2[b].(nChainTx := 0)
    ensures AllArrived(idx1, b) == AllArrived(idx2, b) && PathTx(idx1, b) == PathTx(idx2, b)
    decreases idx1[b].height
  {
    assert idx1[b].(nChainTx := 0) == idx2[b].(nChainTx := 0);
    assert HasPrev(idx1, b) && HasPrev(idx2, b);
    if idx1[b].prev.Some? {
      SameArrivals(idx1, idx2, idx1[b].prev.value);
    }
  }
}
