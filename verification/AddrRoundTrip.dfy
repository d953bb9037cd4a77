// A consistent address manager that is saved and loaded again comes back
// consistent and the same, but for the names of the ids.
module AddrRoundTrip {
  import opened Coins
  import opened Numbers
  import opened AddrBook
  import opened AddrCheck
  import opened AddrSave
  import opened AddrLoad

  // ids[i] is what the loaded manager calls i.
  ghost predicate SameRecord(x: Info, y: Info) {
    AsWritten(x) == AsWritten(y)
  }

  lemma SameFields(x: Info, y: Info)
    requires SameRecord(x, y)
    ensures x.addr == y.addr && x.source == y.source && x.nTime == y.nTime && x.nServices == y.nServices
    ensures x.nLastSuccess == y.nLastSuccess && x.nAttempts == y.nAttempts
  {
    assert AsWritten(x).addr == x.addr && AsWritten(y).addr == y.addr;
  }

  // Known under the new ids: the first entries of a list of old ids.
  ghost predicate Entries(b: Book, c: Book, ids: seq<Id>) {
    && Distinct(ids)
    && (forall i :: 0 <= i < |ids| ==> ids[i] in b.mapInfo)
    && (forall i :: i in c.mapInfo <==> 0 <= i < |ids|)
    && (forall i :: 0 <= i < |ids| ==> SameRecord(c.mapInfo[i], b.mapInfo[ids[i]]))
  }

  ghost predicate Addresses(b: Book, c: Book, ids: seq<Id>)
    requires forall i :: 0 <= i < |ids| ==> ids[i] in b.mapInfo
  {
    && (forall i :: 0 <= i < |ids| ==>
          b.mapInfo[ids[i]].addr.ip in c.mapAddr && c.mapAddr[b.mapInfo[ids[i]].addr.ip] == i)
    && (forall ip :: ip in c.mapAddr ==>
          0 <= c.mapAddr[ip] < |ids| && b.mapInfo[ids[c.mapAddr[ip]]].addr.ip == ip)
  }

  // A table with the new ids in place of the old ones.
  ghost predicate Renamed(t: Table, u: Table, ids: seq<Id>) {
    && u.Keys == t.Keys
    && forall s :: s in u ==> 0 <= u[s] < |ids| && ids[u[s]] == t[s]
  }

  // The whole manager under new ids.
  ghost predicate Copies(b: Book, c: Book, ids: seq<Id>) {
    && Entries(b, c, ids) && Addresses(b, c, ids)
    && (forall id :: id in b.mapInfo ==> id in ids)
    && (forall i :: 0 <= i < |ids| ==>
          c.mapInfo[i].nRefCount == b.mapInfo[ids[i]].nRefCount && c.mapInfo[i].fInTried == b.mapInfo[ids[i]].fInTried)
    && c.mapAddr.Keys == b.mapAddr.Keys
    && Renamed(b.vvTried, c.vvTried, ids) && Renamed(b.vvNew, c.vvNew, ids)
    && c.nTried == b.nTried && c.nNew == b.nNew
  }

  // ------------------------------------------------- entries, one by one

  lemma OneMoreEntry(h: Hashes, b: Book, c: Book, d: Book, ids: seq<Id>, id: Id)
    requires Valid(h, b) && Entries(b, c, ids) && Addresses(b, c, ids) && id in b.mapInfo && id !in ids
    requires |ids| in d.mapInfo && d.mapInfo == c.mapInfo[|ids| := d.mapInfo[|ids|]]
    requires SameRecord(d.mapInfo[|ids|], b.mapInfo[id])
    requires d.mapAddr == c.mapAddr[b.mapInfo[id].addr.ip := |ids|]
    ensures Entries(b, d, ids + [id]) && Addresses(b, d, ids + [id])
  {
    hide SameRecord, RandomOk, TriedOk, NewOk, RefsOk;
    var more := ids + [id];
    forall i | 0 <= i < |ids| ensures b.mapInfo[ids[i]].addr.ip != b.mapInfo[id].addr.ip {
      assert AddrOk(b, id) && AddrOk(b, ids[i]);
    }
    assert forall i :: 0 <= i < |ids| ==> more[i] == ids[i];
    forall ip | ip in d.mapAddr
      ensures 0 <= d.mapAddr[ip] < |more| && b.mapInfo[more[d.mapAddr[ip]]].addr.ip == ip
    {
      if ip != b.mapInfo[id].addr.ip {
        assert more[d.mapAddr[ip]] == ids[c.mapAddr[ip]];
      }
    }
  }

  lemma WrittenTwice(info: Info)
    ensures SameRecord(AsWritten(info), info) && AsWritten(AsWritten(info)) == AsWritten(info)
    ensures forall n, r, t :: SameRecord(AsWritten(info).(nRandomPos := n, nRefCount := r, fInTried := t), info)
    ensures forall n, t :: SameRecord(AsWritten(info).(nRandomPos := n, fInTried := t), info)
    ensures AsWritten(info).addr == info.addr && AsWritten(info).source == info.source
  {
  }

  lemma SavedFile(h: Hashes, b: Book)
    requires Valid(h, b)
    ensures Complete(Save(h, b)) && Usable(Save(h, b)) && BucketCount(Save(h, b)) == NEW_BUCKET_COUNT
    ensures |Save(h, b).newInfos| == |NewOf(b)| == b.nNew && |Save(h, b).triedInfos| == |TriedOf(b)| == b.nTried
    ensures Save(h, b).hashes == h && Save(h, b).nNew == b.nNew && Save(h, b).nTried == b.nTried
    ensures forall i :: 0 <= i < |NewOf(b)| ==>
              NewOf(b)[i] in b.mapInfo && Save(h, b).newInfos[i] == AsWritten(b.mapInfo[NewOf(b)[i]])
    ensures forall i :: 0 <= i < |TriedOf(b)| ==>
              TriedOf(b)[i] in b.mapInfo && Save(h, b).triedInfos[i] == AsWritten(b.mapInfo[TriedOf(b)[i]])
  {
    hide NewOf, TriedOf, StoredAll, Indexes, Valid;
    PickedAll(h, b);
  }

  // After the entries of the new table.
  ghost predicate NewLoaded(b: Book, c: Book, ids: seq<Id>) {
    && Entries(b, c, ids) && Addresses(b, c, ids) && c.vvNew == map[] && c.vvTried == map[]
    && forall i :: 0 <= i < |ids| ==> c.mapInfo[i].nRefCount == 0 && !c.mapInfo[i].fInTried
  }

  lemma OneMoreNew(h: Hashes, b: Book, c: Book, ids: seq<Id>, id: Id)
    requires Valid(h, b) && NewLoaded(b, c, ids) && id in b.mapInfo && id !in ids
    ensures NewLoaded(b, NewEntry(h, c, AsWritten(b.mapInfo[id]), |ids|, true), ids + [id])
  {
    hide Valid, Hashes.NewSlot, Entries, Addresses, SameRecord;
    WrittenTwice(b.mapInfo[id]);
    OneMoreEntry(h, b, c, NewEntry(h, c, AsWritten(b.mapInfo[id]), |ids|, true), ids, id);
  }

  lemma {:induction false} AfterNew(h: Hashes, b: Book, k: nat)
    requires Valid(h, b) && k <= |NewOf(b)| == |Save(h, b).newInfos|
    ensures NewLoaded(b, WithNew(Save(h, b), k), NewOf(b)[..k])
  {
    hide NewOf, TriedOf, Valid, NewLoaded, NewEntry, Save, AsWritten;
    var file := Save(h, b);
    SavedFile(h, b);
    PickedAll(h, b);
    var ids := NewOf(b);
    if k == 0 {
      NothingLoaded(b, WithNew(file, 0));
      assert ids[..0] == [];
    } else {
      AfterNew(h, b, k - 1);
      var id := ids[k - 1];
      assert ids[..k] == ids[..k - 1] + [id];
      assert id in ids && id !in ids[..k - 1];
      OneMoreNew(h, b, WithNew(file, k - 1), ids[..k - 1], id);
    }
  }

  lemma NothingLoaded(b: Book, c: Book)
    requires c.mapInfo == map[] && c.mapAddr == map[] && c.vvNew == map[] && c.vvTried == map[]
    ensures NewLoaded(b, c, [])
  {
  }

  // After tried entries too: no slot was taken, for no two tried ids share one.
  ghost predicate TriedLoaded(h: Hashes, b: Book, c: Book, ids: seq<Id>) {
    && Entries(b, c, ids) && Addresses(b, c, ids) && c.vvNew == map[]
    && (forall i :: 0 <= i < |ids| ==> c.mapInfo[i].nRefCount == 0)
    && (forall i :: 0 <= i < |ids| ==> c.mapInfo[i].fInTried == b.mapInfo[ids[i]].fInTried)
    && (forall s :: s in c.vvTried ==>
          0 <= c.vvTried[s] < |ids| && s in b.vvTried && b.vvTried[s] == ids[c.vvTried[s]])
    && (forall i :: 0 <= i < |ids| && b.mapInfo[ids[i]].fInTried ==> h.TriedSlot(b.mapInfo[ids[i]].addr) in c.vvTried)
    && c.nNew == b.nNew && c.nTried == b.nTried && c.nIdCount == |ids|
  }

  lemma {:induction false} AfterTried(h: Hashes, b: Book, k: nat)
    requires Valid(h, b) && k <= |TriedOf(b)| == |Save(h, b).triedInfos|
    ensures TriedLoaded(h, b, WithTried(Save(h, b), k), NewOf(b) + TriedOf(b)[..k])
  {
    hide NewOf, TriedOf, Valid, TriedLoaded, TriedEntry, Save, AsWritten;
    var file := Save(h, b);
    SavedFile(h, b);
    PickedAll(h, b);
    var ids := TriedOf(b);
    if k == 0 {
      AfterNew(h, b, |NewOf(b)|);
      assert NewOf(b)[..|NewOf(b)|] == NewOf(b);
      assert NewOf(b) + ids[..0] == NewOf(b);
      NoTriedYet(h, b);
    } else {
      AfterTried(h, b, k - 1);
      var id := ids[k - 1];
      assert ids[..k] == ids[..k - 1] + [id];
      assert NewOf(b) + ids[..k] == (NewOf(b) + ids[..k - 1]) + [id];
      assert id in ids && id !in ids[..k - 1];
      OneMoreTried(h, b, WithTried(file, k - 1), NewOf(b) + ids[..k - 1], id);
    }
  }

  lemma NoTriedYet(h: Hashes, b: Book)
    requires Valid(h, b) && Complete(Save(h, b)) && |Save(h, b).newInfos| == |NewOf(b)|
    requires NewLoaded(b, WithNew(Save(h, b), |NewOf(b)|), NewOf(b))
    ensures TriedLoaded(h, b, WithTried(Save(h, b), 0), NewOf(b))
  {
    hide NewOf, Save, Valid, Entries, Addresses, RandomOk, WithNew, WithTried, SameRecord, Hashes.TriedSlot;
    var file := Save(h, b);
    SavedFile(h, b);
    PickedAll(h, b);
    NewOrdered(file, |file.newInfos|);
    var c := WithNew(file, |file.newInfos|);
    TriedStart(file);
    SameEntries(b, c, WithTried(file, 0), NewOf(b));
    assert forall i :: 0 <= i < |NewOf(b)| ==> NewOf(b)[i] in NewOf(b);
  }

  lemma TriedStart(file: Saved)
    ensures WithTried(file, 0) == WithNew(file, |file.newInfos|).(nIdCount := file.nNew)
  {
  }

  lemma SameEntries(b: Book, c: Book, d: Book, ids: seq<Id>)
    requires Entries(b, c, ids) && Addresses(b, c, ids) && d.mapInfo == c.mapInfo && d.mapAddr == c.mapAddr
    ensures Entries(b, d, ids) && Addresses(b, d, ids)
  {
  }

  lemma OneMoreTried(h: Hashes, b: Book, c: Book, ids: seq<Id>, id: Id)
    requires Valid(h, b) && TriedLoaded(h, b, c, ids) && id in b.mapInfo && b.mapInfo[id].fInTried && id !in ids
    ensures TriedLoaded(h, b, TriedEntry(h, c, AsWritten(b.mapInfo[id])), ids + [id])
  {
    hide Hashes.TriedSlot, AddrsOk, RandomOk, NewOk, RefsOk, Entries, Addresses, SameRecord;
    WrittenTwice(b.mapInfo[id]);
    var d := TriedEntry(h, c, AsWritten(b.mapInfo[id]));
    var more := ids + [id];
    SlotStillFree(h, b, c, ids, id);
    EntriesInOrder(b, c, ids);
    OneMoreEntry(h, b, c, d, ids, id);
    assert forall i :: 0 <= i < |ids| ==> more[i] == ids[i];
  }

  lemma SlotStillFree(h: Hashes, b: Book, c: Book, ids: seq<Id>, id: Id)
    requires TriedOk(h, b) && TriedLoaded(h, b, c, ids) && id in b.mapInfo && b.mapInfo[id].fInTried && id !in ids
    ensures var s := h.TriedSlot(b.mapInfo[id].addr); s !in c.vvTried && s in b.vvTried && b.vvTried[s] == id
  {
    hide Hashes.TriedSlot, Entries, Addresses;
    assert TriedIdOk(h, b, id);
  }

  lemma EntriesInOrder(b: Book, c: Book, ids: seq<Id>)
    requires Entries(b, c, ids)
    ensures forall i :: i in c.mapInfo <==> 0 <= i < |ids|
  {
  }

  // ----------------------------------------------------- places, one by one

  // The part of the new table before a slot, in the order of the loops.
  function Seen(t: Table, n: nat, p: nat): Table {
    map s | s in t && Before(s, n, p) :: t[s]
  }

  // The new table restored as far as it has been read.
  ghost predicate Placed(h: Hashes, b: Book, c: Book, ids: seq<Id>, seen: Table) {
    && Entries(b, c, ids) && Addresses(b, c, ids)
    && (forall i :: 0 <= i < |ids| ==> c.mapInfo[i].nRefCount == |Refs(seen, ids[i])|)
    && (forall i :: 0 <= i < |ids| ==> c.mapInfo[i].fInTried == b.mapInfo[ids[i]].fInTried)
    && Renamed(b.vvTried, c.vvTried, ids) && Renamed(seen, c.vvNew, ids)
    && c.nNew == b.nNew && c.nTried == b.nTried && c.nIdCount == |ids|
  }

  // There is a reference to spare while a slot is still to come.
  lemma RoomLeft(h: Hashes, b: Book, seen: Table, s: Slot)
    requires Valid(h, b) && s in b.vvNew && s !in seen
    requires forall t :: t in seen ==> t in b.vvNew && b.vvNew[t] == seen[t]
    ensures b.vvNew[s] in b.mapInfo && |Refs(seen, b.vvNew[s])| < NEW_BUCKETS_PER_ADDRESS
  {
    hide Hashes.NewSlot, AddrsOk, RandomOk, TriedOk, Refs;
    var id := b.vvNew[s];
    assert NewSlotOk(h, b, s) && RefOk(b, {}, id);
    RefsPut(seen, s, id, id);
    SubsetRefs(seen[s := id], b.vvNew, id);
  }

  lemma WhereItWas(h: Hashes, b: Book, s: Slot)
    requires NewOk(h, b) && s in b.vvNew
    ensures b.vvNew[s] in b.mapInfo && s == h.NewSlot(b.mapInfo[b.vvNew[s]].addr, s.bucket)
  {
    assert NewSlotOk(h, b, s);
  }

  // One index read: the slot it says is free, for it has the address it had.
  lemma OneMorePlace(h: Hashes, b: Book, c: Book, ids: seq<Id>, seen: Table, s: Slot, v: nat)
    requires Valid(h, b) && Placed(h, b, c, ids, seen)
    requires s in b.vvNew && s !in seen && forall t :: t in seen ==> t in b.vvNew && b.vvNew[t] == seen[t]
    requires v < b.nNew && v < |ids| && ids[v] == b.vvNew[s]
    ensures Placed(h, b, PlaceOne(h, c, true, s.bucket, v), ids, seen[s := b.vvNew[s]])
  {
    hide Valid, Refs, Renamed, Addresses, Entries, PlaceOne;
    SlotIsFree(h, b, c, ids, seen, s, v);
    RenamedMore(seen, c.vvNew, ids, s, v);
    ReferenceAdded(b, c, ids, s, v);
    ReferencesCounted(b, c, ids, seen, s, v);
  }

  lemma SlotIsFree(h: Hashes, b: Book, c: Book, ids: seq<Id>, seen: Table, s: Slot, v: nat)
    requires Valid(h, b) && Placed(h, b, c, ids, seen)
    requires s in b.vvNew && s !in seen && forall t :: t in seen ==> t in b.vvNew && b.vvNew[t] == seen[t]
    requires v < b.nNew && v < |ids| && ids[v] == b.vvNew[s]
    ensures v in c.mapInfo && s !in c.vvNew && PlaceOne(h, c, true, s.bucket, v) == RefAdded(c, s, v)
  {
    hide Hashes.NewSlot, Refs, SameRecord, Addresses, AddrsOk, RandomOk, TriedOk, NewOk, RefsOk;
    WhereItWas(h, b, s);
    RoomLeft(h, b, seen, s);
    SameFields(c.mapInfo[v], b.mapInfo[b.vvNew[s]]);
  }

  lemma RenamedMore(t: Table, u: Table, ids: seq<Id>, s: Slot, v: nat)
    requires Renamed(t, u, ids) && v < |ids|
    ensures Renamed(t[s := ids[v]], u[s := v], ids)
  {
  }

  // The reference counts stay the occurrences, and no flag changes.
  lemma ReferencesCounted(b: Book, c: Book, ids: seq<Id>, seen: Table, s: Slot, v: nat)
    requires Entries(b, c, ids) && v < |ids| && s !in seen
    requires forall i :: 0 <= i < |ids| ==> c.mapInfo[i].nRefCount == |Refs(seen, ids[i])|
    ensures v in c.mapInfo
    ensures var d := RefAdded(c, s, v);
            forall i :: 0 <= i < |ids| ==>
              && i in d.mapInfo && d.mapInfo[i].fInTried == c.mapInfo[i].fInTried
              && d.mapInfo[i].nRefCount == |Refs(seen[s := ids[v]], ids[i])|
  {
    hide Refs, SameRecord;
    forall i | 0 <= i < |ids| ensures |Refs(seen[s := ids[v]], ids[i])| == |Refs(seen, ids[i])| + One(i == v) {
      RefsPut(seen, s, ids[v], ids[i]);
    }
  }

  lemma ReferenceAdded(b: Book, c: Book, ids: seq<Id>, s: Slot, v: nat)
    requires Entries(b, c, ids) && Addresses(b, c, ids) && v < |ids|
    ensures v in c.mapInfo && Entries(b, RefAdded(c, s, v), ids) && Addresses(b, RefAdded(c, s, v), ids)
  {
  }

  lemma SubsetRefs(t: Table, u: Table, id: Id)
    requires forall s :: s in t ==> s in u && u[s] == t[s]
    ensures |Refs(t, id)| <= |Refs(u, id)|
  {
    SubsetSize(Refs(t, id), Refs(u, id));
  }

  lemma {:induction false} PlacePrefix(h: Hashes, b: Book, bucket: nat, indexes: seq<int>, more: seq<int>, k: nat)
    requires k <= |indexes|
    ensures PlaceSome(h, b, true, bucket, indexes + more, k) == PlaceSome(h, b, true, bucket, indexes, k)
  {
    hide PlaceOne;
    if k > 0 {
      PlacePrefix(h, b, bucket, indexes, more, k - 1);
      assert (indexes + more)[k - 1] == indexes[k - 1];
    }
  }

  // A bucket of the file, read up to a position.
  lemma {:induction false} AfterBucket(h: Hashes, b: Book, c: Book, bucket: nat, pos: nat)
    requires Valid(h, b) && pos <= BUCKET_SIZE && bucket < NEW_BUCKET_COUNT
    requires Placed(h, b, c, NewOf(b) + TriedOf(b), Seen(b.vvNew, bucket, 0))
    ensures var indexes := Indexes(b, NewOf(b), bucket, pos);
            Placed(h, b, PlaceSome(h, c, true, bucket, indexes, |indexes|), NewOf(b) + TriedOf(b),
                   Seen(b.vvNew, bucket, pos))
  {
    hide Valid, NewOf, TriedOf, Placed, PlaceOne;
    if pos > 0 {
      AfterBucket(h, b, c, bucket, pos - 1);
      var s := Slot(bucket, pos - 1);
      var before := Indexes(b, NewOf(b), bucket, pos - 1);
      var seen := Seen(b.vvNew, bucket, pos - 1);
      if s in b.vvNew {
        PickedAll(h, b);
        HeldIsNew(h, b, s);
        var v := IndexOf(NewOf(b), b.vvNew[s]);
        PlacePrefix(h, c, bucket, before, [v], |before|);
        OneMorePlace(h, b, PlaceSome(h, c, true, bucket, before, |before|), NewOf(b) + TriedOf(b), seen, s, v);
        assert Seen(b.vvNew, bucket, pos) == seen[s := b.vvNew[s]];
      } else {
        assert before + [] == before;
        assert Seen(b.vvNew, bucket, pos) == seen;
      }
    }
  }

  lemma {:induction false} AfterBuckets(h: Hashes, b: Book, k: nat)
    requires Valid(h, b) && Complete(Save(h, b)) && k <= |Save(h, b).buckets| == NEW_BUCKET_COUNT
    ensures Placed(h, b, WithPlaces(Save(h, b), k), NewOf(b) + TriedOf(b), Seen(b.vvNew, k, 0))
  {
    hide Valid, NewOf, TriedOf, Placed, PlaceSome, Indexes, StoredAll, InArrays;
    var file := Save(h, b);
    if k == 0 {
      SavedFile(h, b);
      AfterTried(h, b, |TriedOf(b)|);
      assert TriedOf(b)[..|TriedOf(b)|] == TriedOf(b);
      NothingPlaced(h, b, WithTried(file, |TriedOf(b)|));
    } else {
      AfterBuckets(h, b, k - 1);
      SavedFile(h, b);
      AfterBucket(h, b, WithPlaces(file, k - 1), k - 1, BUCKET_SIZE);
      ValidPasses(h, b);
      BucketDone(b, k - 1);
    }
  }

  lemma BucketDone(b: Book, n: nat)
    requires InArrays(b)
    ensures Seen(b.vvNew, n, BUCKET_SIZE) == Seen(b.vvNew, n + 1, 0)
  {
  }

  lemma AllTriedBack(h: Hashes, b: Book, c: Book)
    requires Valid(h, b) && TriedLoaded(h, b, c, NewOf(b) + TriedOf(b))
    ensures Renamed(b.vvTried, c.vvTried, NewOf(b) + TriedOf(b))
  {
    hide NewOf, TriedOf, Entries, Addresses, SameRecord, Hashes.TriedSlot, RandomOk, AddrsOk, NewOk, RefsOk;
    var ids := NewOf(b) + TriedOf(b);
    PickedAll(h, b);
    forall s | s in b.vvTried ensures s in c.vvTried {
      assert TriedSlotOk(h, b, s);
      assert b.vvTried[s] in ids;
    }
    assert c.vvTried.Keys == b.vvTried.Keys;
  }

  lemma NothingPlaced(h: Hashes, b: Book, c: Book)
    requires Valid(h, b) && TriedLoaded(h, b, c, NewOf(b) + TriedOf(b))
    ensures Placed(h, b, c, NewOf(b) + TriedOf(b), Seen(b.vvNew, 0, 0))
  {
    hide NewOf, TriedOf, Entries, Addresses, SameRecord, Hashes.TriedSlot, Valid, Refs;
    var ids := NewOf(b) + TriedOf(b);
    AllTriedBack(h, b, c);
    assert Seen(b.vvNew, 0, 0) == map[];
    forall i | 0 <= i < |ids| ensures |Refs(map[], ids[i])| == 0 {
      RefsNone(map[], ids[i]);
    }
  }

  // ------------------------------------------------------------ nothing lost

  lemma {:induction false} NothingPruned(b: Book, ids: seq<Id>, k: nat)
    requires RandomOk(b) && k <= |ids| && forall id :: id in b.mapInfo ==> !Useless(b, id)
    ensures Pruned(b, ids, k) == b
  {
    hide RandomOk;
    if k > 0 {
      NothingPruned(b, ids, k - 1);
    }
  }

  lemma SameAddresses(h: Hashes, b: Book, c: Book, ids: seq<Id>)
    requires Valid(h, b) && Entries(b, c, ids) && Addresses(b, c, ids) && forall id :: id in b.mapInfo ==> id in ids
    ensures c.mapAddr.Keys == b.mapAddr.Keys
  {
    hide SameRecord, RandomOk, TriedOk, NewOk, RefsOk;
    forall ip | ip in b.mapAddr ensures ip in c.mapAddr {
      assert IpOk(b, ip);
      var id := b.mapAddr[ip];
      assert id in b.mapInfo;
      assert id in ids;
    }
    forall ip | ip in c.mapAddr ensures ip in b.mapAddr {
      assert AddrOk(b, ids[c.mapAddr[ip]]);
    }
  }

  // What was placed in full is a copy, and each id has its references.
  lemma PlacedCopies(h: Hashes, b: Book, c: Book, seen: Table)
    requires Valid(h, b) && Placed(h, b, c, NewOf(b) + TriedOf(b), seen) && seen == b.vvNew
    ensures Copies(b, c, NewOf(b) + TriedOf(b)) && forall i :: i in c.mapInfo ==> !Useless(c, i)
  {
    hide NewOf, TriedOf, SameRecord, AddrsOk, RandomOk, TriedOk, NewOk, Refs, Addresses, Renamed;
    var ids := NewOf(b) + TriedOf(b);
    PickedAll(h, b);
    forall i | 0 <= i < |ids| ensures c.mapInfo[i].nRefCount == b.mapInfo[ids[i]].nRefCount && !Useless(c, i) {
      assert RefOk(b, {}, ids[i]);
    }
    forall id | id in b.mapInfo ensures id in ids {
      assert if b.mapInfo[id].fInTried then id in TriedOf(b) else id in NewOf(b);
    }
    SameAddresses(h, b, c, ids);
  }

  // Exactly the ids up to the number of new ones are new.
  lemma CopyNew(h: Hashes, b: Book, c: Book, i: nat)
    requires Valid(h, b) && Copies(b, c, NewOf(b) + TriedOf(b)) && i < |NewOf(b) + TriedOf(b)|
    ensures i in c.mapInfo && (c.mapInfo[i].fInTried <==> i >= |NewOf(b)|)
  {
    hide NewOf, TriedOf, Addresses, Renamed, SameRecord, Valid;
    PickedAll(h, b);
    var ids := NewOf(b) + TriedOf(b);
    assert ids[i] == if i < |NewOf(b)| then NewOf(b)[i] else TriedOf(b)[i - |NewOf(b)|];
  }

  lemma CopyKeys(b: Book, c: Book, ids: seq<Id>)
    requires Copies(b, c, ids)
    ensures forall i :: i in c.mapInfo <==> 0 <= i < |ids|
    ensures c.nTried == b.nTried && c.nNew == b.nNew
  {
  }

  lemma CopyCounts(h: Hashes, b: Book, c: Book)
    requires Valid(h, b) && Copies(b, c, NewOf(b) + TriedOf(b))
    ensures |Ids(c.mapInfo, true)| == c.nTried && |Ids(c.mapInfo, false)| == c.nNew
  {
    hide NewOf, TriedOf, Copies, Valid;
    PickedAll(h, b);
    CopyKeys(b, c, NewOf(b) + TriedOf(b));
    forall i ensures i in Ids(c.mapInfo, false) <==> i in Below(|NewOf(b)|) {
      if 0 <= i < |NewOf(b) + TriedOf(b)| {
        CopyNew(h, b, c, i);
      }
    }
    assert Ids(c.mapInfo, false) == Below(|NewOf(b)|);
    assert c.mapInfo.Keys == Below(|NewOf(b) + TriedOf(b)|);
    assert |c.mapInfo| == |c.mapInfo.Keys|;
    SplitCount(c.mapInfo);
  }

  lemma CopyTables(h: Hashes, b: Book, c: Book, ids: seq<Id>)
    requires TriedOk(h, b) && NewOk(h, b) && RefsOk(b, {}) && Copies(b, c, ids)
    ensures TriedOk(h, c) && NewOk(h, c) && RefsOk(c, {})
  {
    hide Hashes.TriedSlot, Hashes.NewSlot, SameRecord, Addresses, TriedOk, NewOk;
    CopyTried(h, b, c, ids);
    CopyNewTable(h, b, c, ids);
    forall i | i in c.mapInfo ensures RefOk(c, {}, i) {
      assert RefOk(b, {}, ids[i]);
      assert Refs(c.vvNew, i) == Refs(b.vvNew, ids[i]);
    }
  }

  lemma CopyTried(h: Hashes, b: Book, c: Book, ids: seq<Id>)
    requires TriedOk(h, b) && Copies(b, c, ids)
    ensures TriedOk(h, c)
  {
    hide Hashes.TriedSlot, SameRecord, Addresses;
    forall s | s in c.vvTried ensures TriedSlotOk(h, c, s) {
      assert TriedSlotOk(h, b, s);
      SameFields(c.mapInfo[c.vvTried[s]], b.mapInfo[b.vvTried[s]]);
    }
    forall i | i in c.mapInfo ensures TriedIdOk(h, c, i) {
      assert TriedIdOk(h, b, ids[i]);
      SameFields(c.mapInfo[i], b.mapInfo[ids[i]]);
    }
  }

  lemma CopyNewTable(h: Hashes, b: Book, c: Book, ids: seq<Id>)
    requires NewOk(h, b) && Copies(b, c, ids)
    ensures NewOk(h, c)
  {
    hide Hashes.NewSlot, SameRecord, Addresses;
    forall s | s in c.vvNew ensures NewSlotOk(h, c, s) {
      assert NewSlotOk(h, b, s);
      SameFields(c.mapInfo[c.vvNew[s]], b.mapInfo[b.vvNew[s]]);
    }
  }

  lemma CopyAddresses(b: Book, c: Book, ids: seq<Id>)
    requires Copies(b, c, ids) && c.nIdCount == |ids|
    ensures AddrsOk(c)
  {
    hide SameRecord, Renamed;
    forall i | i in c.mapInfo ensures AddrOk(c, i) {
      SameFields(c.mapInfo[i], b.mapInfo[ids[i]]);
    }
    forall ip | ip in c.mapAddr ensures IpOk(c, ip) {
      var i := c.mapAddr[ip];
      SameFields(c.mapInfo[i], b.mapInfo[ids[i]]);
    }
  }

  lemma CopyStats(h: Hashes, b: Book, c: Book, ids: seq<Id>)
    requires Valid(h, b) && Copies(b, c, ids) && forall i :: i in c.mapInfo ==> c.mapInfo[i].nLastTry == 0
    ensures forall i :: i in c.mapInfo ==> StatsOk(c.mapInfo[i])
  {
    hide SameRecord, Renamed, Addresses, Consistent;
    forall i | i in c.mapInfo ensures StatsOk(c.mapInfo[i]) {
      SameFields(c.mapInfo[i], b.mapInfo[ids[i]]);
      StatsThere(h, b, {}, 0, ids[i]);
    }
  }

  // Everything that was saved comes back: nothing is lost to collisions or
  // pruned, and the result is consistent again.
  lemma SavedComesBack(h: Hashes, b: Book)
    requires Valid(h, b)
    ensures Complete(Save(h, b)) && Load(Save(h, b)).Some?
    ensures var c := Load(Save(h, b)).value;
            Valid(h, c) && Copies(b, c, NewOf(b) + TriedOf(b))
  {
    hide NewOf, TriedOf, Copies, Placed, WithPlaces, Ids, Pruned, RandomOk, AddrsOk, TriedOk, NewOk, RefsOk;
    var file := Save(h, b);
    SavedFile(h, b);
    AfterBuckets(h, b, NEW_BUCKET_COUNT);
    PlacesOrdered(file, NEW_BUCKET_COUNT);
    var c := WithPlaces(file, NEW_BUCKET_COUNT);
    AllSeen(h, b);
    PlacedCopies(h, b, c, Seen(b.vvNew, NEW_BUCKET_COUNT, 0));
    NothingPruned(c, Ascending(c.mapInfo.Keys), |c.mapInfo|);
    CopyCounts(h, b, c);
    CopyTables(h, b, c, NewOf(b) + TriedOf(b));
    NeverTried(file, NEW_BUCKET_COUNT);
    PlacedIds(h, b, c);
    CopyAddresses(b, c, NewOf(b) + TriedOf(b));
    CopyStats(h, b, c, NewOf(b) + TriedOf(b));
  }

  lemma AllSeen(h: Hashes, b: Book)
    requires Valid(h, b)
    ensures Seen(b.vvNew, NEW_BUCKET_COUNT, 0) == b.vvNew
  {
    hide Valid;
    ValidPasses(h, b);
  }

  lemma PlacedIds(h: Hashes, b: Book, c: Book)
    requires Placed(h, b, c, NewOf(b) + TriedOf(b), Seen(b.vvNew, NEW_BUCKET_COUNT, 0))
    ensures c.nIdCount == |NewOf(b) + TriedOf(b)|
  {
  }

  ghost predicate Untouched(b: Book) {
    forall i :: i in b.mapInfo ==> b.mapInfo[i].nLastTry == 0
  }

  lemma {:induction false} NeverTriedNew(file: Saved, k: nat)
    requires k <= |file.newInfos|
    ensures Untouched(WithNew(file, k))
  {
    if k > 0 {
      NeverTriedNew(file, k - 1);
    }
  }

  lemma {:induction false} NeverTriedTried(file: Saved, k: nat)
    requires k <= |file.triedInfos|
    ensures Untouched(WithTried(file, k))
  {
    if k > 0 {
      NeverTriedTried(file, k - 1);
    } else {
      NeverTriedNew(file, |file.newInfos|);
    }
  }

  lemma {:induction false} NeverTriedSome(h: Hashes, b: Book, usable: bool, bucket: nat, indexes: seq<int>, k: nat)
    requires Untouched(b) && k <= |indexes|
    ensures Untouched(PlaceSome(h, b, usable, bucket, indexes, k))
  {
    if k > 0 {
      NeverTriedSome(h, b, usable, bucket, indexes, k - 1);
    }
  }

  // Attempts are not saved.
  lemma {:induction false} NeverTried(file: Saved, k: nat)
    requires k <= |file.buckets|
    ensures Untouched(WithPlaces(file, k))
  {
    hide PlaceSome;
    if k > 0 {
      NeverTried(file, k - 1);
      var indexes := file.buckets[k - 1];
      NeverTriedSome(file.hashes, WithPlaces(file, k - 1), Usable(file), k - 1, indexes, |indexes|);
    } else {
      NeverTriedTried(file, |file.triedInfos|);
    }
  }

  // Saving and loading as the program does.
  method Reload(h: Hashes, b: Book) returns (r: Option<Book>)
    requires Valid(h, b)
    ensures r.Some? && Valid(h, r.value) && Copies(b, r.value, NewOf(b) + TriedOf(b))
  {
    hide Save, Load, Valid, Copies;
    SavedComesBack(h, b);
    var file := Serialize(h, b);
    r := Unserialize(file);
  }
}
