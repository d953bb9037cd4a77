// Saving the address manager and loading it again.
module AddrSave {
  import opened Numbers
  import opened AddrBook

  // Only these fields are written; the others restart at their defaults.
  function AsWritten(info: Info): Info {
    info.(nLastTry := 0, nLastCountAttempt := 0, nRefCount := 0, fInTried := false, nRandomPos := -1)
  }

  // The file, record by record. The hashes stand for the key that selects them.
  datatype Saved = Saved(
    nVersion: nat, nKeySize: nat, hashes: Hashes, nNew: int, nTried: int, nUBuckets: int,
    newInfos: seq<Info>, triedInfos: seq<Info>, buckets: seq<seq<int>>)

  // Exclusive or with 2 to the 30.
  function Flip30(x: int): int {
    if x / 0x4000_0000 % 2 == 0 then x + 0x4000_0000 else x - 0x4000_0000
  }

  function BucketCount(file: Saved): int {
    if file.nVersion != 0 then Flip30(file.nUBuckets) else file.nUBuckets
  }

  // Whether the positions in the file can be used.
  predicate Usable(file: Saved) {
    file.nVersion == 1 && BucketCount(file) == NEW_BUCKET_COUNT
  }

  // As many records follow as the counts say; on a stream that is shorter,
  // reading fails.
  predicate Complete(file: Saved) {
    && |file.newInfos| == (if file.nNew < 0 then 0 else file.nNew)
    && |file.triedInfos| == (if file.nTried < 0 then 0 else file.nTried)
    && |file.buckets| == (if BucketCount(file) < 0 then 0 else BucketCount(file))
  }

  // ------------------------------------------------------------------- order

  lemma {:induction false} LeastExists(s: set<Id>) returns (m: Id)
    requires s != {}
    ensures m in s && forall k :: k in s ==> m <= k
  {
    m := Member(s);
    if s - {m} != {} {
      var r := LeastExists(s - {m});
      forall k | k in s ensures k == m || r <= k {
        assert k != m ==> k in s - {m};
      }
      m := if r < m then r else m;
    } else {
      assert forall k :: k in s ==> k == m || k in s - {m};
    }
  }

  function Least(s: set<Id>): (m: Id)
    requires s != {}
    ensures m in s && forall k :: k in s ==> m <= k
  {
    assert exists m :: m in s && forall k :: k in s ==> m <= k by { var m := LeastExists(s); }
    var m :| m in s && forall k :: k in s ==> m <= k;
    m
  }

  // The keys of a std::map in the order of iteration.
  function Ascending(s: set<Id>): (ids: seq<Id>)
    ensures |ids| == |s| && Distinct(ids) && forall id :: id in ids <==> id in s
  {
    if s == {} then []
    else
      var m := Least(s);
      var rest := Ascending(s - {m});
      [m] + rest
  }

  // The new ids of a list, or the tried ones, in order.
  function Picked(m: map<Id, Info>, ids: seq<Id>, tried: bool): (r: seq<Id>)
    ensures forall id :: id in r <==> id in ids && Wanted(m, id, tried)
    ensures forall i :: 0 <= i < |r| ==> r[i] in m
    ensures Distinct(ids) ==> Distinct(r)
  {
    if ids == [] then []
    else
      var id := ids[|ids| - 1];
      var before := Picked(m, ids[..|ids| - 1], tried);
      assert ids == ids[..|ids| - 1] + [id];
      if Wanted(m, id, tried) then before + [id] else before
  }

  predicate Wanted(m: map<Id, Info>, id: Id, tried: bool) {
    id in m && if tried then m[id].fInTried else m[id].nRefCount != 0
  }

  function NewOf(b: Book): seq<Id> {
    Picked(b.mapInfo, Ascending(b.mapInfo.Keys), false)
  }

  function TriedOf(b: Book): seq<Id> {
    Picked(b.mapInfo, Ascending(b.mapInfo.Keys), true)
  }

  // In a consistent book these are the new and the tried ids.
  lemma PickedAll(h: Hashes, b: Book)
    requires Valid(h, b)
    ensures |NewOf(b)| == b.nNew && |TriedOf(b)| == b.nTried
    ensures forall id :: id in NewOf(b) <==> id in b.mapInfo && !b.mapInfo[id].fInTried
    ensures forall id :: id in TriedOf(b) <==> id in b.mapInfo && b.mapInfo[id].fInTried
    ensures forall i :: 0 <= i < |NewOf(b)| ==> NewOf(b)[i] in b.mapInfo && !b.mapInfo[NewOf(b)[i]].fInTried
    ensures forall i :: 0 <= i < |TriedOf(b)| ==> TriedOf(b)[i] in b.mapInfo && b.mapInfo[TriedOf(b)[i]].fInTried
    ensures Distinct(NewOf(b)) && Distinct(TriedOf(b))
  {
    hide AddrsOk, RandomOk, TriedOk, NewOk;
    forall id | id in b.mapInfo ensures b.mapInfo[id].nRefCount != 0 <==> !b.mapInfo[id].fInTried {
      assert RefOk(b, {}, id);
    }
    SizeOf(NewOf(b), Ids(b.mapInfo, false));
    SizeOf(TriedOf(b), Ids(b.mapInfo, true));
  }

  lemma {:induction false} SizeOf(ids: seq<Id>, s: set<Id>)
    requires Distinct(ids) && forall id :: id in ids <==> id in s
    ensures |ids| == |s|
  {
    if ids != [] {
      var k := |ids| - 1;
      assert ids == ids[..k] + [ids[k]];
      SizeOf(ids[..k], s - {ids[k]});
    } else if s != {} {
      var id := Member(s);
      assert false;
    }
  }

  // -------------------------------------------------------------------- save

  ghost function IndexOf(ids: seq<Id>, id: Id): (i: nat)
    ensures id in ids ==> i < |ids| && ids[i] == id
  {
    if id in ids then var i :| 0 <= i < |ids| && ids[i] == id; i else 0
  }

  function StoredAll(m: map<Id, Info>, ids: seq<Id>): (r: seq<Info>)
    requires forall i :: 0 <= i < |ids| ==> ids[i] in m
    ensures |r| == |ids| && forall i :: 0 <= i < |ids| ==> r[i] == AsWritten(m[ids[i]])
  {
    if ids == [] then []
    else
      var k := |ids| - 1;
      StoredAll(m, ids[..k]) + [AsWritten(m[ids[k]])]
  }

  // The entries of a bucket before a position, as indexes into the new ids.
  ghost function Indexes(b: Book, ids: seq<Id>, bucket: nat, pos: nat): seq<int> {
    if pos == 0 then []
    else
      var s := Slot(bucket, pos - 1);
      Indexes(b, ids, bucket, pos - 1) + if s in b.vvNew then [IndexOf(ids, b.vvNew[s])] else []
  }

  ghost function Save(h: Hashes, b: Book): Saved {
    Saved(1, 32, h, b.nNew, b.nTried, Flip30(NEW_BUCKET_COUNT),
          StoredAll(b.mapInfo, NewOf(b)), StoredAll(b.mapInfo, TriedOf(b)),
          seq(NEW_BUCKET_COUNT, bucket requires bucket >= 0 => Indexes(b, NewOf(b), bucket, BUCKET_SIZE)))
  }

  lemma PickedNext(m: map<Id, Info>, ids: seq<Id>, k: nat, tried: bool)
    requires k < |ids| && Distinct(ids)
    ensures var before := Picked(m, ids[..k], tried);
            Picked(m, ids[..k + 1], tried) == if Wanted(m, ids[k], tried) then before + [ids[k]] else before
    ensures ids[k] !in Picked(m, ids[..k], tried)
  {
    assert ids[..k + 1][..k] == ids[..k];
  }

  lemma {:induction false} PickedGrows(m: map<Id, Info>, ids: seq<Id>, k: nat, tried: bool)
    requires k <= |ids| && Distinct(ids)
    ensures |Picked(m, ids[..k], tried)| <= |Picked(m, ids, tried)|
    decreases |ids| - k
  {
    if k < |ids| {
      PickedNext(m, ids, k, tried);
      PickedGrows(m, ids, k + 1, tried);
    } else {
      assert ids[..k] == ids;
    }
  }

  // The records of the new ids, or of the tried ones, and the index at which
  // each of the new ones will be found. There are as many as was counted.
  method SaveInfos(b: Book, tried: bool, count: int) returns (infos: seq<Info>, mapUnkIds: map<Id, int>)
    requires |Picked(b.mapInfo, Ascending(b.mapInfo.Keys), tried)| == count
    ensures infos == StoredAll(b.mapInfo, Picked(b.mapInfo, Ascending(b.mapInfo.Keys), tried))
    ensures Indexed(Picked(b.mapInfo, Ascending(b.mapInfo.Keys), tried), mapUnkIds)
  {
    hide Ascending, Picked, Distinct, Indexed;
    var order := Ascending(b.mapInfo.Keys);
    mapUnkIds, infos := map[], [];
    var nIds := 0;
    StartsEmpty(b.mapInfo, order, tried);
    for k := 0 to |order|
      invariant nIds == |infos|
      invariant infos == StoredAll(b.mapInfo, Picked(b.mapInfo, order[..k], tried))
      invariant Indexed(Picked(b.mapInfo, order[..k], tried), mapUnkIds)
    {
      PickedNext(b.mapInfo, order, k, tried);
      PickedGrows(b.mapInfo, order, k + 1, tried);
      var info := b.mapInfo[order[k]];
      IndexedMore(Picked(b.mapInfo, order[..k], tried), mapUnkIds, order[k]);
      mapUnkIds := mapUnkIds[order[k] := nIds];
      if if tried then info.fInTried else info.nRefCount != 0 {
        assert nIds != count;
        infos := infos + [AsWritten(info)];
        nIds := nIds + 1;
      }
    }
    assert order[..|order|] == order;
  }

  lemma StartsEmpty(m: map<Id, Info>, ids: seq<Id>, tried: bool)
    ensures Picked(m, ids[..0], tried) == [] && Indexed([], map[])
  {
  }

  predicate Indexed(ids: seq<Id>, mapUnkIds: map<Id, int>) {
    forall i :: 0 <= i < |ids| ==> ids[i] in mapUnkIds && mapUnkIds[ids[i]] == i
  }

  lemma IndexedMore(ids: seq<Id>, mapUnkIds: map<Id, int>, id: Id)
    requires Indexed(ids, mapUnkIds) && id !in ids
    ensures Indexed(ids, mapUnkIds[id := |ids|]) && Indexed(ids + [id], mapUnkIds[id := |ids|])
  {
  }

  method Serialize(h: Hashes, b: Book) returns (file: Saved)
    requires Valid(h, b)
    ensures file == Save(h, b)
  {
    hide Valid, Indexes, Ascending, Picked, StoredAll;
    PickedAll(h, b);
    var newInfos, mapUnkIds := SaveInfos(b, false, b.nNew);
    var triedInfos, others := SaveInfos(b, true, b.nTried);
    var buckets := SaveBuckets(h, b, mapUnkIds);
    return Saved(1, 32, h, b.nNew, b.nTried, Flip30(NEW_BUCKET_COUNT), newInfos, triedInfos, buckets);
  }

  method SaveBuckets(h: Hashes, b: Book, mapUnkIds: map<Id, int>) returns (buckets: seq<seq<int>>)
    requires Valid(h, b)
    requires Indexed(NewOf(b), mapUnkIds)
    ensures |buckets| == NEW_BUCKET_COUNT
    ensures forall n :: 0 <= n < NEW_BUCKET_COUNT ==> buckets[n] == Indexes(b, NewOf(b), n, BUCKET_SIZE)
  {
    hide Valid, NewOf;
    buckets := [];
    for bucket := 0 to NEW_BUCKET_COUNT
      invariant |buckets| == bucket
      invariant forall n :: 0 <= n < bucket ==> buckets[n] == Indexes(b, NewOf(b), n, BUCKET_SIZE)
    {
      var indexes: seq<int> := [];
      for i := 0 to BUCKET_SIZE
        invariant indexes == Indexes(b, NewOf(b), bucket, i)
      {
        var s := Slot(bucket, i);
        if s in b.vvNew {
          HeldIsNew(h, b, s);
          indexes := indexes + [mapUnkIds[b.vvNew[s]]];
        }
      }
      buckets := buckets + [indexes];
    }
  }

  lemma HeldIsNew(h: Hashes, b: Book, s: Slot)
    requires Valid(h, b) && s in b.vvNew
    ensures b.vvNew[s] in NewOf(b)
  {
    hide NewOf;
    PickedAll(h, b);
    assert NewSlotOk(h, b, s);
    assert RefOk(b, {}, b.vvNew[s]);
    RefsNone(b.vvNew, b.vvNew[s]);
  }
}
