// The address manager's own self-check, and that it decides the invariant.
module AddrCheck {
  import opened Numbers
  import opened AddrBook

  // The tables are arrays of fixed size.
  predicate InArrays(b: Book) {
    && (forall s :: s in b.vvTried ==> s.bucket < TRIED_BUCKET_COUNT && s.pos < BUCKET_SIZE)
    && (forall s :: s in b.vvNew ==> s.bucket < NEW_BUCKET_COUNT && s.pos < BUCKET_SIZE)
  }

  // Looking up an unknown address yields id 0.
  function IdAt(m: map<NetAddr, Id>, ip: NetAddr): Id {
    if ip in m then m[ip] else 0
  }

  predicate EntryOk(b: Book, id: Id)
    requires id in b.mapInfo
  {
    var info := b.mapInfo[id];
    && (if info.fInTried then info.nLastSuccess != 0 && info.nRefCount == 0
        else 0 < info.nRefCount <= NEW_BUCKETS_PER_ADDRESS)
    && IdAt(b.mapAddr, info.addr.ip) == id && PosOk(b, id)
    && info.nLastTry >= 0 && info.nLastSuccess >= 0
  }

  predicate EntriesOk(b: Book) {
    forall id {:trigger EntryOk(b, id)} :: id in b.mapInfo ==> EntryOk(b, id)
  }

  // A slot of the new table holds an id that is not tried, in its place.
  predicate HoldsNew(h: Hashes, b: Book, s: Slot)
    requires s in b.vvNew
  {
    NewSlotOk(h, b, s) && !b.mapInfo[b.vvNew[s]].fInTried
  }

  predicate CountedOk(b: Book, id: Id)
    requires id in b.mapInfo
  {
    !b.mapInfo[id].fInTried ==> b.mapInfo[id].nRefCount == |Refs(b.vvNew, id)|
  }

  predicate NewTableOk(h: Hashes, b: Book) {
    && (forall s {:trigger HoldsNew(h, b, s)} :: s in b.vvNew ==> HoldsNew(h, b, s))
    && (forall id {:trigger CountedOk(b, id)} :: id in b.mapInfo ==> CountedOk(b, id))
  }

  // What the self-check lets through.
  predicate Passes(h: Hashes, b: Book) {
    && |b.vRandom| == b.nTried + b.nNew && EntriesOk(b)
    && |Ids(b.mapInfo, true)| == b.nTried && |Ids(b.mapInfo, false)| == b.nNew
    && TriedOk(h, b) && NewTableOk(h, b)
  }

  // ------------------------------------------------------- against the invariant

  // The positions of all ids, as a set.
  ghost function Positions(b: Book, ids: set<Id>): (r: set<int>)
    requires ids <= b.mapInfo.Keys && forall id :: id in ids ==> PosOk(b, id)
    ensures |r| == |ids|
    ensures forall p :: p in r <==> exists id :: id in ids && b.mapInfo[id].nRandomPos == p
  {
    if ids == {} then {}
    else
      assert exists id :: id in ids by { var id := Member(ids); }
      var id :| id in ids;
      var rest := Positions(b, ids - {id});
      assert forall k :: k in ids - {id} ==> PosOk(b, k) && PosOk(b, id);
      rest + {b.mapInfo[id].nRandomPos}
  }

  function Below(n: nat): (r: set<int>)
    ensures |r| == n && forall p :: p in r <==> 0 <= p < n
  {
    if n == 0 then {} else Below(n - 1) + {n - 1}
  }

  // As many ids as positions, each id at its own: no position is left over.
  lemma AllPositionsTaken(b: Book)
    requires |b.vRandom| == |b.mapInfo| && forall id {:trigger PosOk(b, id)} :: id in b.mapInfo ==> PosOk(b, id)
    ensures RandomOk(b)
  {
    var taken, all := Positions(b, b.mapInfo.Keys), Below(|b.vRandom|);
    forall p | p in taken ensures p in all {
      var id :| id in b.mapInfo && b.mapInfo[id].nRandomPos == p;
      assert PosOk(b, id);
    }
    SubsetSize(taken, all);
    forall i | 0 <= i < |b.vRandom| ensures RandOk(b, i) {
      assert i in taken;
      var id :| id in b.mapInfo && b.mapInfo[id].nRandomPos == i;
      assert PosOk(b, id);
    }
  }

  lemma TotalCount(b: Book)
    ensures |b.mapInfo| == |Ids(b.mapInfo, true)| + |Ids(b.mapInfo, false)|
  {
    SplitCount(b.mapInfo);
  }

  lemma ValidPasses(h: Hashes, b: Book)
    requires Valid(h, b)
    ensures Passes(h, b) && InArrays(b)
  {
    hide Ids, Refs, Hashes.TriedSlot, Hashes.NewSlot;
    TotalCount(b);
    forall id | id in b.mapInfo ensures EntryOk(b, id) && CountedOk(b, id) {
      assert AddrOk(b, id) && PosOk(b, id) && RefOk(b, {}, id);
    }
    forall s | s in b.vvNew ensures HoldsNew(h, b, s) {
      assert NewSlotOk(h, b, s);
      assert RefOk(b, {}, b.vvNew[s]);
      RefsNone(b.vvNew, b.vvNew[s]);
    }
    InArraysWhenPlaced(h, b);
  }

  lemma InArraysWhenPlaced(h: Hashes, b: Book)
    requires TriedOk(h, b) && NewOk(h, b)
    ensures InArrays(b)
  {
    forall s | s in b.vvTried ensures s.bucket < TRIED_BUCKET_COUNT && s.pos < BUCKET_SIZE {
      assert TriedSlotOk(h, b, s);
    }
    forall s | s in b.vvNew ensures s.bucket < NEW_BUCKET_COUNT && s.pos < BUCKET_SIZE {
      assert NewSlotOk(h, b, s);
    }
  }

  // The self-check leaves out only the ids of other addresses and the counter
  // for new ids.
  lemma PassesMeansValid(h: Hashes, b: Book)
    requires Passes(h, b) && AddrsOk(b)
    ensures Valid(h, b)
  {
    hide Ids, Refs, Hashes.TriedSlot, Hashes.NewSlot, AddrsOk, TriedOk, RandomOk;
    TotalCount(b);
    forall id | id in b.mapInfo ensures PosOk(b, id) {
      assert EntryOk(b, id);
    }
    AllPositionsTaken(b);
    forall s | s in b.vvNew ensures NewSlotOk(h, b, s) {
      assert HoldsNew(h, b, s);
    }
    forall id | id in b.mapInfo ensures RefOk(b, {}, id) && StatsOk(b.mapInfo[id]) {
      assert EntryOk(b, id) && CountedOk(b, id);
      if b.mapInfo[id].fInTried {
        forall s | s in b.vvNew ensures b.vvNew[s] != id {
          assert HoldsNew(h, b, s);
        }
        RefsNone(b.vvNew, id);
      }
    }
  }

  // --------------------------------------------------------------- the check

  method CheckEntries(b: Book) returns (code: int, setTried: set<Id>, mapNew: map<Id, int>)
    ensures code == 0 <==> EntriesOk(b)
    ensures code == 0 ==> setTried == Ids(b.mapInfo, true) && mapNew.Keys == Ids(b.mapInfo, false)
    ensures code == 0 ==> forall id :: id in mapNew ==> mapNew[id] == b.mapInfo[id].nRefCount > 0
  {
    setTried, mapNew := {}, map[];
    var left := b.mapInfo.Keys;
    while left != {}
      invariant left <= b.mapInfo.Keys
      invariant forall id {:trigger EntryOk(b, id)} :: id in b.mapInfo && id !in left ==> EntryOk(b, id)
      invariant forall id :: id in setTried <==> id in b.mapInfo && id !in left && b.mapInfo[id].fInTried
      invariant forall id :: id in mapNew <==> id in b.mapInfo && id !in left && !b.mapInfo[id].fInTried
      invariant forall id :: id in mapNew ==> mapNew[id] == b.mapInfo[id].nRefCount > 0
      decreases |left|
    {
      ghost var some := Member(left);
      var n :| n in left;
      var info := b.mapInfo[n];
      if info.fInTried {
        if info.nLastSuccess == 0 {
          assert !EntryOk(b, n);
          return -1, setTried, mapNew;
        }
        if info.nRefCount != 0 {
          assert !EntryOk(b, n);
          return -2, setTried, mapNew;
        }
        setTried := setTried + {n};
      } else {
        if info.nRefCount < 0 || info.nRefCount > NEW_BUCKETS_PER_ADDRESS {
          assert !EntryOk(b, n);
          return -3, setTried, mapNew;
        }
        if info.nRefCount == 0 {
          assert !EntryOk(b, n);
          return -4, setTried, mapNew;
        }
        mapNew := mapNew[n := info.nRefCount];
      }
      if IdAt(b.mapAddr, info.addr.ip) != n {
        assert !EntryOk(b, n);
        return -5, setTried, mapNew;
      }
      if info.nRandomPos < 0 || info.nRandomPos >= |b.vRandom| || b.vRandom[info.nRandomPos] != n {
        assert !EntryOk(b, n);
        return -14, setTried, mapNew;
      }
      if info.nLastTry < 0 {
        assert !EntryOk(b, n);
        return -6, setTried, mapNew;
      }
      if info.nLastSuccess < 0 {
        assert !EntryOk(b, n);
        return -8, setTried, mapNew;
      }
      assert EntryOk(b, n);
      left := left - {n};
    }
    assert forall id :: id in setTried <==> id in Ids(b.mapInfo, true);
    assert forall id :: id in mapNew.Keys <==> id in Ids(b.mapInfo, false);
    code := 0;
  }

  // The slots before position i of bucket n, in the order of the loops.
  predicate Before(s: Slot, n: nat, i: nat) {
    s.bucket < n || (s.bucket == n && s.pos < i)
  }

  predicate FoundTried(h: Hashes, b: Book, id: Id, n: nat, i: nat)
    requires id in b.mapInfo
  {
    var s := h.TriedSlot(b.mapInfo[id].addr);
    Before(s, n, i) && s in b.vvTried && b.vvTried[s] == id
  }

  predicate TriedSoFar(h: Hashes, b: Book, left: set<Id>, n: nat, i: nat) {
    && (forall s {:trigger TriedSlotOk(h, b, s)} :: s in b.vvTried && Before(s, n, i) ==> TriedSlotOk(h, b, s))
    && left <= Ids(b.mapInfo, true)
    && (forall id {:trigger FoundTried(h, b, id, n, i)} :: id in b.mapInfo && b.mapInfo[id].fInTried ==>
          (id in left <==> !FoundTried(h, b, id, n, i)))
  }

  method CheckTried(h: Hashes, b: Book, setTried: set<Id>) returns (code: int, left: set<Id>)
    requires setTried == Ids(b.mapInfo, true) && InArrays(b)
    ensures code == 0 && left == {} <==> TriedOk(h, b)
  {
    left := setTried;
    for n := 0 to TRIED_BUCKET_COUNT
      invariant TriedSoFar(h, b, left, n, 0)
    {
      for i := 0 to BUCKET_SIZE
        invariant TriedSoFar(h, b, left, n, i)
      {
        var s := Slot(n, i);
        if s in b.vvTried {
          var id := b.vvTried[s];
          if id !in left {
            TriedTwice(h, b, left, s);
            return -11, left;
          }
          if h.GetTriedBucket(b.mapInfo[id].addr) != n {
            assert !TriedSlotOk(h, b, s);
            return -17, left;
          }
          if h.GetBucketPosition(b.mapInfo[id].addr, false, n) != i {
            assert !TriedSlotOk(h, b, s);
            return -18, left;
          }
          assert TriedSlotOk(h, b, s);
          TriedFound(h, b, left, s);
          left := left - {id};
        } else {
          NoTriedFound(h, b, left, s);
        }
      }
      NextTriedBucket(h, b, left, n);
    }
    AllTriedSeen(h, b, left);
    code := 0;
  }

  lemma NotYetFound(h: Hashes, b: Book, id: Id, s: Slot)
    requires id in b.mapInfo && s == h.TriedSlot(b.mapInfo[id].addr)
    ensures !FoundTried(h, b, id, s.bucket, s.pos)
  {
    hide Hashes.TriedSlot;
  }

  lemma TriedTwice(h: Hashes, b: Book, left: set<Id>, s: Slot)
    requires s in b.vvTried && b.vvTried[s] !in left && TriedSoFar(h, b, left, s.bucket, s.pos)
    ensures !TriedOk(h, b)
  {
    hide Hashes.TriedSlot;
    if TriedOk(h, b) {
      assert TriedSlotOk(h, b, s);
      NotYetFound(h, b, b.vvTried[s], s);
      assert false;
    }
  }

  lemma TriedFound(h: Hashes, b: Book, left: set<Id>, s: Slot)
    requires s in b.vvTried && TriedSlotOk(h, b, s) && TriedSoFar(h, b, left, s.bucket, s.pos)
    ensures TriedSoFar(h, b, left - {b.vvTried[s]}, s.bucket, s.pos + 1)
  {
    hide Hashes.TriedSlot;
    var left' := left - {b.vvTried[s]};
    forall t | t in b.vvTried && Before(t, s.bucket, s.pos + 1) ensures TriedSlotOk(h, b, t) {
      assert t != s ==> Before(t, s.bucket, s.pos);
    }
    forall id | id in b.mapInfo && b.mapInfo[id].fInTried
      ensures id in left' <==> !FoundTried(h, b, id, s.bucket, s.pos + 1)
    {
      assert id in left <==> !FoundTried(h, b, id, s.bucket, s.pos);
    }
  }

  lemma NoTriedFound(h: Hashes, b: Book, left: set<Id>, s: Slot)
    requires s !in b.vvTried && TriedSoFar(h, b, left, s.bucket, s.pos)
    ensures TriedSoFar(h, b, left, s.bucket, s.pos + 1)
  {
    hide Hashes.TriedSlot;
    forall t | t in b.vvTried && Before(t, s.bucket, s.pos + 1) ensures TriedSlotOk(h, b, t) {
      assert Before(t, s.bucket, s.pos);
    }
    forall id | id in b.mapInfo && b.mapInfo[id].fInTried
      ensures id in left <==> !FoundTried(h, b, id, s.bucket, s.pos + 1)
    {
      assert id in left <==> !FoundTried(h, b, id, s.bucket, s.pos);
    }
  }

  lemma NextTriedBucket(h: Hashes, b: Book, left: set<Id>, n: nat)
    requires InArrays(b) && TriedSoFar(h, b, left, n, BUCKET_SIZE)
    ensures TriedSoFar(h, b, left, n + 1, 0)
  {
    hide Hashes.TriedSlot;
    forall t | t in b.vvTried && Before(t, n + 1, 0) ensures TriedSlotOk(h, b, t) {
      assert Before(t, n, BUCKET_SIZE);
    }
    forall id | id in b.mapInfo && b.mapInfo[id].fInTried ensures id in left <==> !FoundTried(h, b, id, n + 1, 0) {
      assert id in left <==> !FoundTried(h, b, id, n, BUCKET_SIZE);
    }
  }

  lemma AllTriedSeen(h: Hashes, b: Book, left: set<Id>)
    requires InArrays(b) && TriedSoFar(h, b, left, TRIED_BUCKET_COUNT, 0)
    ensures left == {} <==> TriedOk(h, b)
  {
    hide Hashes.TriedSlot;
    forall s | s in b.vvTried ensures TriedSlotOk(h, b, s) {
      assert Before(s, TRIED_BUCKET_COUNT, 0);
    }
    forall id | id in b.mapInfo ensures TriedIdOk(h, b, id) <==> id !in left {
      if b.mapInfo[id].fInTried {
        assert id in left <==> !FoundTried(h, b, id, TRIED_BUCKET_COUNT, 0);
      }
    }
    if left != {} {
      var id := Member(left);
      assert id in b.mapInfo && !TriedIdOk(h, b, id);
    }
  }

  function LeftOf(left: map<Id, int>, id: Id): int {
    if id in left then left[id] else 0
  }

  // seen is the part of the new table that the loops have passed.
  ghost predicate NewSoFar(h: Hashes, b: Book, left: map<Id, int>, seen: Table) {
    && (forall s {:trigger HoldsNew(h, b, s)} :: s in seen ==> s in b.vvNew && HoldsNew(h, b, s))
    && (forall s :: s in seen ==> s in b.vvNew && seen[s] == b.vvNew[s])
    && (forall id :: id in left ==> id in b.mapInfo && !b.mapInfo[id].fInTried && left[id] > 0)
    && (forall id :: id in b.mapInfo && !b.mapInfo[id].fInTried ==>
          |Refs(seen, id)| + LeftOf(left, id) == b.mapInfo[id].nRefCount)
  }

  method CheckNew(h: Hashes, b: Book, mapNew: map<Id, int>) returns (code: int, left: map<Id, int>)
    requires InArrays(b) && mapNew.Keys == Ids(b.mapInfo, false)
    requires forall id :: id in mapNew ==> mapNew[id] == b.mapInfo[id].nRefCount > 0
    ensures code == 0 && left == map[] <==> NewTableOk(h, b)
  {
    hide NewSoFar, Refs, NewTableOk;
    left := mapNew;
    ghost var seen: Table := map[];
    NothingSeen(h, b, left);
    for n := 0 to NEW_BUCKET_COUNT
      invariant NewSoFar(h, b, left, seen)
      invariant forall s :: s in seen <==> s in b.vvNew && Before(s, n, 0)
    {
      for i := 0 to BUCKET_SIZE
        invariant NewSoFar(h, b, left, seen)
        invariant forall s :: s in seen <==> s in b.vvNew && Before(s, n, i)
      {
        var s := Slot(n, i);
        if s in b.vvNew {
          var id := b.vvNew[s];
          if id !in left {
            OverCounted(h, b, left, seen, s);
            return -12, left;
          }
          LeftIsNew(h, b, left, seen, id);
          if h.GetBucketPosition(b.mapInfo[id].addr, true, n) != i {
            Misplaced(h, b, s);
            return -19, left;
          }
          NewSeen(h, b, left, seen, s);
          seen := seen[s := id];
          if left[id] - 1 == 0 {
            left := left - {id};
          } else {
            left := left[id := left[id] - 1];
          }
        }
      }
    }
    assert forall s :: s in seen <==> s in b.vvNew;
    AllNewSeen(h, b, left, seen);
    code := 0;
  }

  lemma NothingSeen(h: Hashes, b: Book, left: map<Id, int>)
    requires left.Keys == Ids(b.mapInfo, false)
    requires forall id :: id in left ==> left[id] == b.mapInfo[id].nRefCount > 0
    ensures NewSoFar(h, b, left, map[])
  {
    forall id | id in b.mapInfo && !b.mapInfo[id].fInTried
      ensures |Refs(map[], id)| + LeftOf(left, id) == b.mapInfo[id].nRefCount
    {
      assert id in Ids(b.mapInfo, false);
      RefsNone(map[], id);
    }
  }

  lemma LeftIsNew(h: Hashes, b: Book, left: map<Id, int>, seen: Table, id: Id)
    requires NewSoFar(h, b, left, seen) && id in left
    ensures id in b.mapInfo && !b.mapInfo[id].fInTried && left[id] > 0
  {
  }

  lemma Misplaced(h: Hashes, b: Book, s: Slot)
    requires s in b.vvNew && b.vvNew[s] in b.mapInfo
    requires h.GetBucketPosition(b.mapInfo[b.vvNew[s]].addr, true, s.bucket) != s.pos
    ensures !NewTableOk(h, b)
  {
    assert !HoldsNew(h, b, s);
  }

  // A slot whose id has no references left to account for.
  lemma OverCounted(h: Hashes, b: Book, left: map<Id, int>, seen: Table, s: Slot)
    requires NewSoFar(h, b, left, seen) && s in b.vvNew && s !in seen && b.vvNew[s] !in left
    ensures !NewTableOk(h, b)
  {
    hide Hashes.NewSlot;
    var id := b.vvNew[s];
    if NewTableOk(h, b) {
      assert HoldsNew(h, b, s) && CountedOk(b, id);
      RefsPut(seen, s, id, id);
      SubsetSize(Refs(seen[s := id], id), Refs(b.vvNew, id));
      assert false;
    }
  }

  lemma NewSeen(h: Hashes, b: Book, left: map<Id, int>, seen: Table, s: Slot)
    requires NewSoFar(h, b, left, seen) && InArrays(b) && s in b.vvNew && s !in seen
    requires b.vvNew[s] in left && b.vvNew[s] in b.mapInfo
    requires h.GetBucketPosition(b.mapInfo[b.vvNew[s]].addr, true, s.bucket) == s.pos
    ensures var id := b.vvNew[s];
            var left' := if left[id] - 1 == 0 then left - {id} else left[id := left[id] - 1];
            NewSoFar(h, b, left', seen[s := id])
  {
    hide Refs;
    var id := b.vvNew[s];
    assert HoldsNew(h, b, s);
    forall k | k in b.mapInfo && !b.mapInfo[k].fInTried
      ensures |Refs(seen[s := id], k)| == |Refs(seen, k)| + One(k == id)
    {
      RefsPut(seen, s, id, k);
    }
  }

  lemma AllNewSeen(h: Hashes, b: Book, left: map<Id, int>, seen: Table)
    requires NewSoFar(h, b, left, seen) && forall s :: s in seen <==> s in b.vvNew
    ensures left == map[] <==> NewTableOk(h, b)
  {
    hide Refs, Hashes.NewSlot;
    assert seen == b.vvNew;
    forall id | id in b.mapInfo ensures CountedOk(b, id) <==> id !in left {
    }
    if left.Keys != {} {
      var id := Member(left.Keys);
      assert !CountedOk(b, id);
    }
  }

  // The self-check of the whole manager: 0, or a code for what is wrong. It
  // accepts exactly what Passes describes.
  method Check_(h: Hashes, b: Book, fKeyNull: bool) returns (code: int)
    requires InArrays(b)
    ensures code == 0 <==> Passes(h, b) && !fKeyNull
  {
    hide EntriesOk, TriedOk, NewTableOk, Ids, InArrays;
    if |b.vRandom| != b.nTried + b.nNew {
      return -7;
    }
    var setTried, mapNew;
    code, setTried, mapNew := CheckEntries(b);
    if code != 0 {
      return;
    }
    if |setTried| != b.nTried {
      return -9;
    }
    if |mapNew| != b.nNew {
      assert |mapNew| == |mapNew.Keys|;
      return -10;
    }
    assert |mapNew| == |mapNew.Keys|;
    var leftTried, leftNew;
    code, leftTried := CheckTried(h, b, setTried);
    if code != 0 {
      return;
    }
    code, leftNew := CheckNew(h, b, mapNew);
    if code != 0 {
      return;
    }
    if |leftTried| != 0 {
      return -13;
    }
    if |leftNew| != 0 {
      return -15;
    }
    if fKeyNull {
      return -16;
    }
    return 0;
  }
}
