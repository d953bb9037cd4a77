// Loading the address manager: what any file turns into, and that a saved
// manager comes back as it was, up to new ids.
module AddrLoad {
  import opened Coins
  import opened Numbers
  import opened AddrBook
  import opened AddrSave

  // ------------------------------------------------------------ the entries

  // An entry of the new table, placed at once when the file's own positions
  // cannot be used.
  function NewEntry(h: Hashes, b: Book, info: Info, n: Id, usable: bool): Book {
    var s := ReturnSlot(h, info);
    var place := !usable && s !in b.vvNew;
    var stored := AsWritten(info).(nRandomPos := |b.vRandom|, nRefCount := if place then 1 else 0);
    b.(mapInfo := b.mapInfo[n := stored], mapAddr := b.mapAddr[info.addr.ip := n], vRandom := b.vRandom + [n],
       vvNew := if place then b.vvNew[s := n] else b.vvNew)
  }

  function WithNew(file: Saved, k: nat): Book
    requires k <= |file.newInfos|
  {
    if k == 0 then EMPTY.(nNew := file.nNew, nTried := file.nTried)
    else NewEntry(file.hashes, WithNew(file, k - 1), file.newInfos[k - 1], k - 1, Usable(file))
  }

  // A tried entry, lost when its slot is taken.
  function TriedEntry(h: Hashes, b: Book, info: Info): Book {
    var s := h.TriedSlot(info.addr);
    if s in b.vvTried then b.(nTried := b.nTried - 1)
    else
      var n := b.nIdCount;
      b.(mapInfo := b.mapInfo[n := AsWritten(info).(nRandomPos := |b.vRandom|, fInTried := true)],
         mapAddr := b.mapAddr[info.addr.ip := n], vRandom := b.vRandom + [n], vvTried := b.vvTried[s := n],
         nIdCount := n + 1)
  }

  function WithTried(file: Saved, k: nat): Book
    requires k <= |file.triedInfos|
  {
    if k == 0 then WithNew(file, |file.newInfos|).(nIdCount := file.nNew)
    else TriedEntry(file.hashes, WithTried(file, k - 1), file.triedInfos[k - 1])
  }

  // An index from a bucket of the new table, ignored where it makes no sense.
  function PlaceOne(h: Hashes, b: Book, usable: bool, bucket: nat, nIndex: int): Book {
    if 0 <= nIndex < b.nNew && nIndex in b.mapInfo then
      var info := b.mapInfo[nIndex];
      var s := h.NewSlot(info.addr, bucket);
      if usable && s !in b.vvNew && info.nRefCount < NEW_BUCKETS_PER_ADDRESS then RefAdded(b, s, nIndex) else b
    else b
  }

  function PlaceSome(h: Hashes, b: Book, usable: bool, bucket: nat, indexes: seq<int>, k: nat): Book
    requires k <= |indexes|
  {
    if k == 0 then b else PlaceOne(h, PlaceSome(h, b, usable, bucket, indexes, k - 1), usable, bucket, indexes[k - 1])
  }

  function WithPlaces(file: Saved, k: nat): Book
    requires k <= |file.buckets|
  {
    if k == 0 then WithTried(file, |file.triedInfos|)
    else
      PlaceSome(file.hashes, WithPlaces(file, k - 1), Usable(file), k - 1, file.buckets[k - 1], |file.buckets[k - 1]|)
  }

  // ---------------------------------------------- the random order, always

  // Appending an unknown id to the order.
  lemma Appended(b: Book, c: Book, n: Id, info: Info)
    requires RandomOk(b) && n !in b.mapInfo && info.nRandomPos == |b.vRandom|
    requires c.mapInfo == b.mapInfo[n := info] && c.vRandom == b.vRandom + [n]
    ensures RandomOk(c)
  {
    forall k | k in c.mapInfo ensures PosOk(c, k) {
      assert k != n ==> PosOk(b, k);
    }
    forall i | 0 <= i < |c.vRandom| ensures RandOk(c, i) {
      assert i < |b.vRandom| ==> RandOk(b, i);
    }
  }

  // The ids of the first part are the record numbers.
  lemma {:induction false} NewOrdered(file: Saved, k: nat)
    requires k <= |file.newInfos|
    ensures var b := WithNew(file, k);
            && RandomOk(b) && b.nNew == file.nNew && b.nTried == file.nTried && b.vvTried == map[]
            && (forall id :: id in b.mapInfo <==> 0 <= id < k)
  {
    if k > 0 {
      NewOrdered(file, k - 1);
      var b, c := WithNew(file, k - 1), WithNew(file, k);
      Appended(b, c, k - 1, c.mapInfo[k - 1]);
    }
  }

  lemma {:induction false} TriedOrdered(file: Saved, k: nat)
    requires Complete(file) && k <= |file.triedInfos|
    ensures var b := WithTried(file, k);
            && RandomOk(b) && b.nNew == file.nNew
            && (forall id :: 0 <= id < b.nNew ==> id in b.mapInfo)
            && (forall id :: id in b.mapInfo ==> id < b.nIdCount)
  {
    hide RandomOk;
    if k == 0 {
      NewOrdered(file, |file.newInfos|);
      var b := WithNew(file, |file.newInfos|);
      SameIsOrdered(b, WithTried(file, 0));
    } else {
      TriedOrdered(file, k - 1);
      var b, c := WithTried(file, k - 1), WithTried(file, k);
      if c.vRandom == b.vRandom {
        SameIsOrdered(b, c);
      } else {
        Appended(b, c, b.nIdCount, c.mapInfo[b.nIdCount]);
      }
    }
  }

  lemma SameIsOrdered(b: Book, c: Book)
    requires RandomOk(b) && c.mapInfo.Keys == b.mapInfo.Keys && c.vRandom == b.vRandom
    requires forall id :: id in b.mapInfo ==> c.mapInfo[id].nRandomPos == b.mapInfo[id].nRandomPos
    ensures RandomOk(c)
  {
    assert |c.mapInfo| == |c.mapInfo.Keys| == |b.mapInfo.Keys| == |b.mapInfo|;
    forall k | k in c.mapInfo ensures PosOk(c, k) {
      assert PosOk(b, k);
    }
    forall i | 0 <= i < |c.vRandom| ensures RandOk(c, i) {
      assert RandOk(b, i);
      var id := b.vRandom[i];
      assert id in c.mapInfo.Keys && c.mapInfo[id].nRandomPos == b.mapInfo[id].nRandomPos;
    }
  }

  lemma PlacedOrdered(h: Hashes, b: Book, usable: bool, bucket: nat, nIndex: int)
    requires RandomOk(b)
    ensures var c := PlaceOne(h, b, usable, bucket, nIndex);
            RandomOk(c) && c.nNew == b.nNew && c.mapInfo.Keys == b.mapInfo.Keys
  {
    hide RandomOk, Hashes.NewSlot;
    SameIsOrdered(b, PlaceOne(h, b, usable, bucket, nIndex));
  }

  lemma {:induction false} SomeOrdered(h: Hashes, b: Book, usable: bool, bucket: nat, indexes: seq<int>, k: nat)
    requires RandomOk(b) && k <= |indexes|
    ensures var c := PlaceSome(h, b, usable, bucket, indexes, k);
            RandomOk(c) && c.nNew == b.nNew && c.mapInfo.Keys == b.mapInfo.Keys
  {
    hide RandomOk, PlaceOne;
    if k > 0 {
      SomeOrdered(h, b, usable, bucket, indexes, k - 1);
      PlacedOrdered(h, PlaceSome(h, b, usable, bucket, indexes, k - 1), usable, bucket, indexes[k - 1]);
    }
  }

  lemma {:induction false} PlacesOrdered(file: Saved, k: nat)
    requires Complete(file) && k <= |file.buckets|
    ensures var b := WithPlaces(file, k);
            RandomOk(b) && b.nNew == file.nNew && forall id :: 0 <= id < b.nNew ==> id in b.mapInfo
  {
    hide RandomOk, PlaceSome;
    if k == 0 {
      TriedOrdered(file, |file.triedInfos|);
    } else {
      PlacesOrdered(file, k - 1);
      var indexes := file.buckets[k - 1];
      SomeOrdered(file.hashes, WithPlaces(file, k - 1), Usable(file), k - 1, indexes, |indexes|);
    }
  }

  // ------------------------------------------------------------------ pruning

  predicate Useless(b: Book, id: Id) {
    id in b.mapInfo && !b.mapInfo[id].fInTried && b.mapInfo[id].nRefCount == 0
  }

  // An id taken out of the order, and dropped.
  ghost function Dropped(b: Book, id: Id): (c: Book)
    requires RandomOk(b) && id in b.mapInfo
    ensures RandomOk(c) && c.mapInfo.Keys == b.mapInfo.Keys - {id}
  {
    assert PosOk(b, id) && RandOk(b, |b.vRandom| - 1);
    var p, last := b.mapInfo[id].nRandomPos, |b.vRandom| - 1;
    if p == last then
      DeleteLast(b, id);
      Deleted(b, id)
    else
      SwapOrder(b, p, last);
      DeleteLast(Swapped(b, p, last), id);
      Deleted(Swapped(b, p, last), id)
  }

  ghost function Pruned(b: Book, ids: seq<Id>, k: nat): (c: Book)
    requires RandomOk(b) && k <= |ids|
    ensures RandomOk(c) && c.mapInfo.Keys <= b.mapInfo.Keys
    ensures forall id :: id in b.mapInfo && id !in ids[..k] ==> id in c.mapInfo
  {
    if k == 0 then b
    else
      var before := Pruned(b, ids, k - 1);
      if Useless(before, ids[k - 1]) then Dropped(before, ids[k - 1]) else before
  }

  ghost function Load(file: Saved): Option<Book>
    requires Complete(file)
  {
    if file.nKeySize != 32 then None
    else
      PlacesOrdered(file, |file.buckets|);
      var b := WithPlaces(file, |file.buckets|);
      Some(Pruned(b, Ascending(b.mapInfo.Keys), |b.mapInfo|))
  }

  // ---------------------------------------------------------------- the loops

  // None when the key has the wrong size.
  method Unserialize(file: Saved) returns (r: Option<Book>)
    requires Complete(file)
    ensures r == Load(file)
  {
    hide WithNew, WithTried, WithPlaces, Pruned, Dropped, RandomOk;
    if file.nKeySize != 32 {
      return None;
    }
    var b := LoadNew(file);
    b := LoadTried(file, b);
    b := LoadPlaces(file, b);
    PlacesOrdered(file, |file.buckets|);
    b := Prune(b);
    return Some(b);
  }

  method LoadNew(file: Saved) returns (b: Book)
    ensures b == WithNew(file, |file.newInfos|)
  {
    var mapInfo, vRandom := map[], [];
    var mapAddr: map<NetAddr, Id>, vvNew: Table := map[], map[];
    for n := 0 to |file.newInfos|
      invariant Book(mapInfo, mapAddr, vRandom, map[], vvNew, file.nTried, file.nNew, 0) == WithNew(file, n)
    {
      var info := AsWritten(file.newInfos[n]);
      mapAddr := mapAddr[info.addr.ip := n];
      info := info.(nRandomPos := |vRandom|);
      vRandom := vRandom + [n];
      if !Usable(file) {
        var s := ReturnSlot(file.hashes, info);
        if s !in vvNew {
          vvNew := vvNew[s := n];
          info := info.(nRefCount := info.nRefCount + 1);
        }
      }
      mapInfo := mapInfo[n := info];
    }
    b := Book(mapInfo, mapAddr, vRandom, map[], vvNew, file.nTried, file.nNew, 0);
  }

  method LoadTried(file: Saved, start: Book) returns (b: Book)
    requires start == WithNew(file, |file.newInfos|)
    ensures b == WithTried(file, |file.triedInfos|)
  {
    hide WithNew;
    b := start.(nIdCount := file.nNew);
    var nLost := 0;
    StillCounted(file);
    for n := 0 to |file.triedInfos|
      invariant b.(nTried := b.nTried - nLost) == WithTried(file, n)
    {
      var info := AsWritten(file.triedInfos[n]);
      var s := file.hashes.TriedSlot(info.addr);
      if s !in b.vvTried {
        info := info.(nRandomPos := |b.vRandom|, fInTried := true);
        b := b.(vRandom := b.vRandom + [b.nIdCount], mapInfo := b.mapInfo[b.nIdCount := info],
                mapAddr := b.mapAddr[info.addr.ip := b.nIdCount], vvTried := b.vvTried[s := b.nIdCount],
                nIdCount := b.nIdCount + 1);
      } else {
        nLost := nLost + 1;
      }
    }
    b := b.(nTried := b.nTried - nLost);
  }

  lemma StillCounted(file: Saved)
    ensures WithNew(file, |file.newInfos|).nTried == file.nTried
  {
    NewOrdered(file, |file.newInfos|);
  }

  method LoadPlaces(file: Saved, start: Book) returns (b: Book)
    requires Complete(file) && start == WithTried(file, |file.triedInfos|)
    ensures b == WithPlaces(file, |file.buckets|)
  {
    hide WithTried, RandomOk, PlaceOne;
    b := start;
    for bucket := 0 to |file.buckets|
      invariant b == WithPlaces(file, bucket)
    {
      PlacesOrdered(file, bucket);
      var indexes := file.buckets[bucket];
      ghost var before := b;
      for n := 0 to |indexes|
        invariant b == PlaceSome(file.hashes, before, Usable(file), bucket, indexes, n)
      {
        SomeOrdered(file.hashes, before, Usable(file), bucket, indexes, n);
        b := Place(file, b, bucket, indexes[n]);
      }
    }
  }

  method Place(file: Saved, b: Book, bucket: nat, nIndex: int) returns (c: Book)
    requires forall id :: 0 <= id < b.nNew ==> id in b.mapInfo
    ensures c == PlaceOne(file.hashes, b, Usable(file), bucket, nIndex)
  {
    c := b;
    if nIndex >= 0 && nIndex < b.nNew {
      var info := b.mapInfo[nIndex];
      var s := file.hashes.NewSlot(info.addr, bucket);
      if Usable(file) && s !in b.vvNew && info.nRefCount < NEW_BUCKETS_PER_ADDRESS {
        info := info.(nRefCount := info.nRefCount + 1);
        c := b.(mapInfo := b.mapInfo[nIndex := info], vvNew := b.vvNew[s := nIndex]);
      }
    }
  }

  method Prune(start: Book) returns (b: Book)
    requires RandomOk(start)
    ensures b == Pruned(start, Ascending(start.mapInfo.Keys), |start.mapInfo|)
  {
    hide RandomOk, Dropped;
    b := start;
    var order := Ascending(start.mapInfo.Keys);
    assert |order| == |start.mapInfo.Keys| == |start.mapInfo|;
    for k := 0 to |order|
      invariant b == Pruned(start, order, k)
    {
      var id := order[k];
      StillKnown(start, order, k);
      if !b.mapInfo[id].fInTried && b.mapInfo[id].nRefCount == 0 {
        b := Delete(b, id);
      }
    }
  }

  lemma StillKnown(b: Book, ids: seq<Id>, k: nat)
    requires RandomOk(b) && k < |ids| && Distinct(ids) && forall id :: id in ids ==> id in b.mapInfo
    ensures ids[k] in Pruned(b, ids, k).mapInfo
  {
    hide RandomOk, Pruned;
    var id := ids[k];
    assert id in ids && id !in ids[..k];
    var c := Pruned(b, ids, k);
    assert id in b.mapInfo ==> id in c.mapInfo;
  }

  method Delete(b: Book, nId: Id) returns (c: Book)
    requires RandomOk(b) && nId in b.mapInfo
    ensures c == Dropped(b, nId)
  {
    assert PosOk(b, nId) && RandOk(b, |b.vRandom| - 1);
    var p, last := b.mapInfo[nId].nRandomPos, |b.vRandom| - 1;
    c := b;
    if p != last {
      SwapOrder(b, p, last);
      c := Swapped(b, p, last);
    }
    c := Deleted(c, nId);
  }
}
