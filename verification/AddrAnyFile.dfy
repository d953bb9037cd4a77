// What loading makes of any complete file, whoever wrote it.
module AddrAnyFile {
  import opened AddrBook
  import opened AddrSave
  import opened AddrLoad

  function Records(file: Saved): seq<Info> {
    file.newInfos + file.triedInfos
  }

  // No address comes twice, and the statistics make sense.
  predicate Sensible(file: Saved) {
    && Complete(file) && file.nNew >= 0 && file.nTried >= 0
    && (forall i, j :: 0 <= i < j < |Records(file)| ==> Records(file)[i].addr.ip != Records(file)[j].addr.ip)
    && (forall i :: 0 <= i < |file.newInfos| ==> file.newInfos[i].nLastSuccess >= 0)
    && (forall i :: 0 <= i < |file.triedInfos| ==> file.triedInfos[i].nLastSuccess > 0)
  }

  function Refless(b: Book): set<Id> {
    set id | id in b.mapInfo && Useless(b, id)
  }

  // With the counters that the entries call for; those of the file are announced
  // before the entries are there.
  function Recounted(b: Book, nIdCount: int): Book {
    b.(nIdCount := nIdCount, nTried := |Ids(b.mapInfo, true)|, nNew := |Ids(b.mapInfo, false)|)
  }

  // Consistent but for the counters, and for ids without any place.
  predicate Sound(h: Hashes, b: Book, nIdCount: int) {
    nIdCount >= 0 && Consistent(h, Recounted(b, nIdCount), Refless(b), 0)
  }

  lemma SoundIf(h: Hashes, c: Book, b: Book, limbo: set<Id>)
    requires Consistent(h, c, limbo, 0) && c.nIdCount >= 0 && limbo == Refless(b)
    requires c == b.(nIdCount := c.nIdCount, nTried := c.nTried, nNew := c.nNew)
    ensures Sound(h, b, c.nIdCount)
  {
    hide AddrsOk, RandomOk, TriedOk, NewOk, RefsOk, StatsOk, Ids, Refless;
    assert c == Recounted(b, c.nIdCount);
  }

  predicate AmongFirst(file: Saved, m: nat, addr: Service)
    requires m <= |Records(file)|
  {
    exists j :: 0 <= j < m && Records(file)[j].addr == addr
  }

  // Every entry has the address of one of the first records.
  predicate From(b: Book, file: Saved, m: nat)
    requires m <= |Records(file)|
  {
    forall id :: id in b.mapInfo ==> AmongFirst(file, m, b.mapInfo[id].addr)
  }

  // So the address of the next record is not known yet.
  lemma NextIsNew(h: Hashes, b: Book, file: Saved, m: nat, n: int)
    requires Sensible(file) && m < |Records(file)| && From(b, file, m) && Sound(h, b, n)
    ensures Records(file)[m].addr.ip !in b.mapAddr
  {
    hide RandomOk, TriedOk, NewOk, RefsOk, CountsOk, StatsOk, Complete;
    var ip := Records(file)[m].addr.ip;
    assert ip in b.mapAddr ==> IpOk(Recounted(b, n), ip);
    assert forall id {:trigger b.mapInfo[id]} :: id in b.mapInfo ==> AmongFirst(file, m, b.mapInfo[id].addr);
  }

  // -------------------------------------------------------------- new entries

  lemma NewEntrySound(h: Hashes, b: Book, info: Info, n: int, usable: bool)
    requires Sound(h, b, n) && info.addr.ip !in b.mapAddr && info.nLastSuccess >= 0
    ensures n !in b.mapInfo && Sound(h, NewEntry(h, b, info, n, usable), n + 1)
  {
    hide Consistent, Hashes.NewSlot, Hashes.GetNewBucket;
    var start, stored := Recounted(b, n), AsWritten(info);
    assert stored.addr == info.addr && stored.source == info.source && StatsOk(stored);
    CreateStep(h, start, Refless(b), 0, stored);
    var made := Created(start, stored);
    var limbo := Refless(b) + {n};
    var c := NewEntry(h, b, info, n, usable);
    if !usable && ReturnSlot(h, info) !in b.vvNew {
      RefAddStep(h, made, limbo, 1, h.GetNewBucket(info.addr, info.source), n);
      made := RefAdded(made, ReturnSlot(h, info), n);
      limbo := limbo - {n};
    }
    Recount(h, made, limbo, 1, made.nNew + 1);
    assert c.mapInfo == made.mapInfo;
    assert forall id :: id in c.mapInfo && id != n ==> (Useless(c, id) <==> Useless(b, id));
    assert limbo == Refless(c);
    SoundIf(h, made.(nNew := made.nNew + 1), c, limbo);
  }

  // The entries are those of the records, under their numbers, and none is tried.
  ghost predicate AreRecords(b: Book, infos: seq<Info>) {
    && (forall id :: id in b.mapInfo <==> 0 <= id < |infos|)
    && (forall id :: 0 <= id < |infos| ==> !b.mapInfo[id].fInTried && b.mapInfo[id].addr == infos[id].addr)
  }

  lemma RecordsAreFrom(b: Book, file: Saved, k: nat)
    requires k <= |file.newInfos| && AreRecords(b, file.newInfos[..k])
    ensures From(b, file, k)
  {
    forall id | id in b.mapInfo ensures AmongFirst(file, k, b.mapInfo[id].addr) {
      assert Records(file)[id] == file.newInfos[..k][id];
    }
  }

  lemma {:induction false} NewSound(file: Saved, k: nat)
    requires Sensible(file) && k <= |file.newInfos|
    ensures var b := WithNew(file, k);
            && Sound(file.hashes, b, k) && AreRecords(b, file.newInfos[..k])
  {
    hide Sound, Sensible, NewEntry, AreRecords, Usable;
    if k == 0 {
      NothingSound(file);
    } else {
      NewSound(file, k - 1);
      NextSound(file, WithNew(file, k - 1), k - 1);
    }
  }

  lemma NextSound(file: Saved, b: Book, k: nat)
    requires Sensible(file) && k < |file.newInfos|
    requires Sound(file.hashes, b, k) && AreRecords(b, file.newInfos[..k])
    ensures var c := NewEntry(file.hashes, b, file.newInfos[k], k, Usable(file));
            Sound(file.hashes, c, k + 1) && AreRecords(c, file.newInfos[..k + 1])
  {
    hide Sound, Sensible, NewEntry, AreRecords, Usable, From;
    var info := file.newInfos[k];
    NewAre(file);
    assert Records(file)[k] == info;
    RecordsAreFrom(b, file, k);
    NextIsNew(file.hashes, b, file, k, k);
    NewEntrySound(file.hashes, b, info, k, Usable(file));
    OneMoreRecord(file.hashes, b, file.newInfos[..k], info, Usable(file));
    assert file.newInfos[..k + 1] == file.newInfos[..k] + [info];
  }

  lemma NothingSound(file: Saved)
    ensures Sound(file.hashes, WithNew(file, 0), 0) && AreRecords(WithNew(file, 0), file.newInfos[..0])
  {
    hide Consistent;
    EmptyIsValid(file.hashes);
    SoundIf(file.hashes, EMPTY, WithNew(file, 0), {});
  }

  lemma NewAre(file: Saved)
    requires Sensible(file)
    ensures forall i :: 0 <= i < |file.newInfos| ==> file.newInfos[i].nLastSuccess >= 0
  {
  }

  lemma OneMoreRecord(h: Hashes, b: Book, infos: seq<Info>, info: Info, usable: bool)
    requires AreRecords(b, infos)
    ensures AreRecords(NewEntry(h, b, info, |infos|, usable), infos + [info])
  {
    hide ReturnSlot;
  }

  // ------------------------------------------------------------ tried entries

  // What was there is there still, and as it was.
  predicate KeepsNew(b: Book, c: Book) {
    (forall id :: id in b.mapInfo ==> id in c.mapInfo && c.mapInfo[id] == b.mapInfo[id]) && c.vvNew == b.vvNew
  }

  lemma TriedEntrySound(h: Hashes, b: Book, info: Info)
    requires Sound(h, b, b.nIdCount) && info.addr.ip !in b.mapAddr && info.nLastSuccess > 0
    ensures var c := TriedEntry(h, b, info);
            && Sound(h, c, c.nIdCount) && c.nNew == b.nNew
            && |Ids(c.mapInfo, false)| == |Ids(b.mapInfo, false)|
            && c.nTried - |Ids(c.mapInfo, true)| == b.nTried - |Ids(b.mapInfo, true)| - 1
            && KeepsNew(b, c) && (forall id :: id in c.mapInfo ==> id in b.mapInfo || c.mapInfo[id].addr == info.addr)
  {
    hide Consistent, Hashes.TriedSlot;
    var c, n := TriedEntry(h, b, info), b.nIdCount;
    if h.TriedSlot(info.addr) !in b.vvTried {
      var start, stored := Recounted(b, n), AsWritten(info);
      assert stored.addr == info.addr && StatsOk(stored);
      CreateStep(h, start, Refless(b), 0, stored);
      var made := Created(start, stored);
      TryStep(h, made, Refless(b) + {n}, 1, n);
      var limbo := Refless(b) + {n} - {n};
      assert forall id :: id in c.mapInfo && id != n ==> (Useless(c, id) <==> Useless(b, id));
      assert limbo == Refless(c);
      assert Tried(h, made, n).mapInfo == c.mapInfo;
      SoundIf(h, Tried(h, made, n), c, limbo);
      CountsPut(b.mapInfo, n, c.mapInfo[n], true);
      CountsPut(b.mapInfo, n, c.mapInfo[n], false);
      assert b.mapInfo - {n} == b.mapInfo;
    } else {
      assert Recounted(c, n) == Recounted(b, n) && Refless(c) == Refless(b);
    }
  }

  lemma {:induction false} TriedSound(file: Saved, k: nat)
    requires Sensible(file) && k <= |file.triedInfos|
    ensures var b := WithTried(file, k);
            && Sound(file.hashes, b, b.nIdCount) && From(b, file, |file.newInfos| + k)
            && b.nNew == |Ids(b.mapInfo, false)| == file.nNew && b.nTried - |Ids(b.mapInfo, true)| == file.nTried - k
            && KeepsNew(WithNew(file, |file.newInfos|), b)
  {
    hide Consistent, Sound, TriedEntry, Ids;
    if k == 0 {
      TriedStarts(file);
    } else {
      TriedSound(file, k - 1);
      var b, info := WithTried(file, k - 1), file.triedInfos[k - 1];
      assert Records(file)[|file.newInfos| + k - 1] == info;
      NextIsNew(file.hashes, b, file, |file.newInfos| + k - 1, b.nIdCount);
      TriedEntrySound(file.hashes, b, info);
    }
  }

  lemma TriedStarts(file: Saved)
    requires Sensible(file)
    ensures var b := WithTried(file, 0);
            && Sound(file.hashes, b, b.nIdCount) && From(b, file, |file.newInfos|)
            && b.nNew == |Ids(b.mapInfo, false)| == file.nNew && |Ids(b.mapInfo, true)| == 0 && b.nTried == file.nTried
            && KeepsNew(WithNew(file, |file.newInfos|), b)
  {
    hide Consistent, NewEntry, Ids, Refless, RandomOk;
    var n := |file.newInfos|;
    var b, c := WithNew(file, n), WithTried(file, 0);
    NewSound(file, n);
    NewOrdered(file, n);
    NewCounted(file, n);
    NoneTried(b, file.newInfos[..n]);
    RecordsAreFrom(b, file, n);
    assert Recounted(c, file.nNew) == Recounted(b, file.nNew);
    assert Refless(c) == Refless(b) by { SameRefless(b, c); }
  }

  lemma SameRefless(b: Book, c: Book)
    requires c.mapInfo == b.mapInfo
    ensures Refless(c) == Refless(b)
  {
  }

  lemma NoneTried(b: Book, infos: seq<Info>)
    requires AreRecords(b, infos)
    ensures |Ids(b.mapInfo, true)| == 0 && |Ids(b.mapInfo, false)| == |b.mapInfo|
  {
    SplitCount(b.mapInfo);
    assert forall id :: id in b.mapInfo ==> 0 <= id < |infos| && !b.mapInfo[id].fInTried;
    assert Ids(b.mapInfo, true) == {};
  }

  lemma {:induction false} NewCounted(file: Saved, k: nat)
    requires k <= |file.newInfos|
    ensures |WithNew(file, k).mapInfo| == k
  {
    NewOrdered(file, k);
    NewInOrder(file, k);
  }

  lemma {:induction false} NewInOrder(file: Saved, k: nat)
    requires k <= |file.newInfos|
    ensures |WithNew(file, k).vRandom| == k
  {
    hide ReturnSlot, AsWritten, Usable;
    if k > 0 {
      NewInOrder(file, k - 1);
    }
  }

  // ----------------------------------------------------------------- positions

  // All consistent but for ids without any place.
  predicate Sorted(h: Hashes, b: Book) {
    Consistent(h, b, Refless(b), 0)
  }

  // The first ids are of the new table.
  predicate NewFirst(b: Book) {
    forall id :: 0 <= id < b.nNew ==> id in b.mapInfo && !b.mapInfo[id].fInTried
  }

  lemma PlaceSound(h: Hashes, b: Book, usable: bool, bucket: nat, nIndex: int)
    requires Sorted(h, b) && NewFirst(b) && (usable ==> bucket < NEW_BUCKET_COUNT)
    ensures var c := PlaceOne(h, b, usable, bucket, nIndex);
            Sorted(h, c) && NewFirst(c) && c.nNew == b.nNew && (!usable ==> c == b)
  {
    hide Consistent, Hashes.NewSlot;
    var c := PlaceOne(h, b, usable, bucket, nIndex);
    if c != b {
      RefAddStep(h, b, Refless(b), 0, bucket, nIndex);
      RefsCounted(h, b, Refless(b), 0, nIndex);
      assert forall id :: id in c.mapInfo && id != nIndex ==> (Useless(c, id) <==> Useless(b, id));
      assert Refless(c) == Refless(b) - {nIndex};
    }
  }

  lemma {:induction false} SomeSound(h: Hashes, b: Book, usable: bool, bucket: nat, indexes: seq<int>, k: nat)
    requires Sorted(h, b) && NewFirst(b) && (usable ==> bucket < NEW_BUCKET_COUNT) && k <= |indexes|
    ensures var c := PlaceSome(h, b, usable, bucket, indexes, k);
            Sorted(h, c) && NewFirst(c) && c.nNew == b.nNew && (!usable ==> c == b)
  {
    hide Sorted, NewFirst, PlaceOne;
    if k > 0 {
      SomeSound(h, b, usable, bucket, indexes, k - 1);
      PlaceSound(h, PlaceSome(h, b, usable, bucket, indexes, k - 1), usable, bucket, indexes[k - 1]);
    }
  }

  lemma {:induction false} PlacesSound(file: Saved, k: nat)
    requires Sensible(file) && k <= |file.buckets|
    ensures var b := WithPlaces(file, k);
            Sorted(file.hashes, b) && NewFirst(b) && (!Usable(file) ==> b == WithTried(file, |file.triedInfos|))
  {
    hide Sorted, NewFirst, PlaceSome;
    if k == 0 {
      AllTriedSorted(file);
    } else {
      PlacesSound(file, k - 1);
      var indexes := file.buckets[k - 1];
      SomeSound(file.hashes, WithPlaces(file, k - 1), Usable(file), k - 1, indexes, |indexes|);
    }
  }

  lemma AllTriedSorted(file: Saved)
    requires Sensible(file)
    ensures var b := WithTried(file, |file.triedInfos|); Sorted(file.hashes, b) && NewFirst(b)
  {
    hide Consistent, Ids, Refless;
    TriedSound(file, |file.triedInfos|);
    NewSound(file, |file.newInfos|);
    var b := WithTried(file, |file.triedInfos|);
    assert Recounted(b, b.nIdCount) == b;
    assert file.newInfos[..|file.newInfos|] == file.newInfos;
  }

  // ------------------------------------------------------------------ pruning

  // Nothing is lost but ids without any place.
  predicate KeepsPlaced(b: Book, c: Book) {
    && c.vvNew == b.vvNew && c.vvTried == b.vvTried
    && forall id :: id in b.mapInfo && !Useless(b, id) ==>
         id in c.mapInfo && c.mapInfo[id].(nRandomPos := 0) == b.mapInfo[id].(nRandomPos := 0)
  }

  lemma DroppedSound(h: Hashes, b: Book, id: Id)
    requires Sorted(h, b) && RandomOk(b) && Useless(b, id)
    ensures id in b.mapInfo
    ensures var c := Dropped(b, id); Sorted(h, c) && Refless(c) == Refless(b) - {id} && KeepsPlaced(b, c)
  {
    hide Consistent, RandomOk;
    assert PosOk(b, id) && RandOk(b, |b.vRandom| - 1) by { InOrderAt(b, id); }
    var p, last := b.mapInfo[id].nRandomPos, |b.vRandom| - 1;
    var d := b;
    if p != last {
      SwapStep(h, b, Refless(b), 0, p, last);
      d := Swapped(b, p, last);
      assert d.mapInfo[id].nRandomPos == last;
    }
    SwapSameUseless(b, d);
    DeleteStep(h, d, Refless(b), 0, id);
    assert Deleted(d, id) == Dropped(b, id);
    DeletedSame(d, id);
  }

  lemma InOrderAt(b: Book, id: Id)
    requires RandomOk(b) && id in b.mapInfo
    ensures PosOk(b, id) && |b.vRandom| > 0 && RandOk(b, |b.vRandom| - 1)
  {
    assert PosOk(b, id);
    assert RandOk(b, |b.vRandom| - 1);
  }

  lemma SwapSameUseless(b: Book, d: Book)
    requires b == d || SameButOrder(b, d)
    ensures Refless(d) == Refless(b) && KeepsPlaced(b, d)
    ensures forall id :: id in b.mapInfo <==> id in d.mapInfo
  {
    assert d.mapInfo.Keys == b.mapInfo.Keys;
    forall id | id in b.mapInfo ensures id in d.mapInfo && (Useless(d, id) <==> Useless(b, id)) {
      assert id in d.mapInfo.Keys;
      var x, y := d.mapInfo[id].(nRandomPos := 0), b.mapInfo[id].(nRandomPos := 0);
      assert x == y && x.fInTried == d.mapInfo[id].fInTried && y.nRefCount == b.mapInfo[id].nRefCount;
    }
  }

  lemma DeletedSame(d: Book, id: Id)
    requires Useless(d, id) && |d.vRandom| > 0
    ensures Refless(Deleted(d, id)) == Refless(d) - {id} && KeepsPlaced(d, Deleted(d, id))
  {
    var c := Deleted(d, id);
    assert forall k :: k in c.mapInfo ==> (Useless(c, k) <==> Useless(d, k));
  }

  lemma KeepsTwice(b: Book, c: Book, d: Book)
    requires KeepsPlaced(b, c) && KeepsPlaced(c, d)
    ensures KeepsPlaced(b, d)
  {
    forall id | id in b.mapInfo && !Useless(b, id)
      ensures id in d.mapInfo && d.mapInfo[id].(nRandomPos := 0) == b.mapInfo[id].(nRandomPos := 0)
    {
      var x, y := c.mapInfo[id].(nRandomPos := 0), b.mapInfo[id].(nRandomPos := 0);
      assert x == y && x.fInTried == c.mapInfo[id].fInTried && x.nRefCount == c.mapInfo[id].nRefCount;
    }
  }

  lemma {:induction false} PrunedSound(h: Hashes, b: Book, ids: seq<Id>, k: nat)
    requires Sorted(h, b) && RandomOk(b) && k <= |ids|
    ensures var c := Pruned(b, ids, k);
            && Sorted(h, c) && KeepsPlaced(b, c)
            && (forall id :: id in Refless(c) ==> id in Refless(b) && id !in ids[..k])
  {
    hide Sorted, RandomOk, Dropped, KeepsPlaced, Useless, Refless;
    if k == 0 {
      KeepsAll(b);
    } else {
      PrunedSound(h, b, ids, k - 1);
      var c, id := Pruned(b, ids, k - 1), ids[k - 1];
      assert ids[..k] == ids[..k - 1] + [id];
      if Useless(c, id) {
        DroppedSound(h, c, id);
        KeepsTwice(b, c, Dropped(c, id));
      } else {
        NotRefless(c, id);
      }
    }
  }

  lemma NotRefless(b: Book, id: Id)
    requires !Useless(b, id)
    ensures id !in Refless(b)
  {
  }

  lemma KeepsAll(b: Book)
    ensures KeepsPlaced(b, b)
  {
  }

  // ---------------------------------------------------------------- the whole

  // Whatever positions a complete file with sensible records holds, and whether or
  // not they can be used: what is loaded is consistent.
  lemma LoadedIsConsistent(file: Saved)
    requires Sensible(file) && file.nKeySize == 32
    ensures Load(file).Some? && Valid(file.hashes, Load(file).value)
    ensures KeepsPlaced(WithPlaces(file, |file.buckets|), Load(file).value)
  {
    hide Consistent, RandomOk, Pruned, WithPlaces, KeepsPlaced, Useless;
    PlacesOrdered(file, |file.buckets|);
    PlacesSound(file, |file.buckets|);
    var b := WithPlaces(file, |file.buckets|);
    var ids := Ascending(b.mapInfo.Keys);
    PrunedSound(file.hashes, b, ids, |b.mapInfo|);
    assert ids[..|b.mapInfo|] == ids;
    var c := Load(file).value;
    assert Refless(c) == {} by {
      forall id ensures id !in Refless(c) {
        assert id in Refless(b) ==> id in b.mapInfo.Keys;
      }
    }
  }

  // Where the source of a record leads.
  function PlaceOf(file: Saved, i: nat): Slot
    requires i < |file.newInfos|
  {
    ReturnSlot(file.hashes, file.newInfos[i])
  }

  // The record comes before all others whose source leads to the same slot.
  predicate IsFirst(file: Saved, i: nat)
    requires i < |file.newInfos|
  {
    forall j :: 0 <= j < i ==> PlaceOf(file, j) != PlaceOf(file, i)
  }

  // A record holds its slot if it is the first for it, and nothing otherwise.
  predicate HoldsIfFirst(file: Saved, b: Book, i: nat)
    requires i < |file.newInfos|
  {
    && i in b.mapInfo && b.mapInfo[i].nRefCount == (if IsFirst(file, i) then 1 else 0)
    && PlaceOf(file, i) in b.vvNew && (b.vvNew[PlaceOf(file, i)] == i <==> IsFirst(file, i))
  }

  predicate HoldersAre(file: Saved, b: Book, k: nat)
    requires k <= |file.newInfos|
  {
    forall s :: s in b.vvNew ==> 0 <= b.vvNew[s] < k && PlaceOf(file, b.vvNew[s]) == s
  }

  // Where the positions cannot be used, the first record for a slot gets it.
  lemma {:induction false} FirstPlaced(file: Saved, k: nat)
    requires !Usable(file) && k <= |file.newInfos|
    ensures var b := WithNew(file, k);
            HoldersAre(file, b, k) && forall i :: 0 <= i < k ==> HoldsIfFirst(file, b, i)
  {
    hide NewEntry, HoldersAre, HoldsIfFirst, Usable;
    if k > 0 {
      FirstPlaced(file, k - 1);
      NextPlaced(file, WithNew(file, k - 1), k - 1);
    } else {
      NonePlaced(file);
    }
  }

  lemma NonePlaced(file: Saved)
    ensures HoldersAre(file, WithNew(file, 0), 0)
  {
  }

  // A slot is taken exactly if its record is not the first for it.
  lemma TakenBefore(file: Saved, b: Book, i: nat)
    requires i < |file.newInfos|
    requires HoldersAre(file, b, i) && forall j :: 0 <= j < i ==> HoldsIfFirst(file, b, j)
    ensures PlaceOf(file, i) in b.vvNew <==> !IsFirst(file, i)
  {
    hide PlaceOf;
    if !IsFirst(file, i) {
      var j :| 0 <= j < i && PlaceOf(file, j) == PlaceOf(file, i);
      assert HoldsIfFirst(file, b, j);
    }
  }

  lemma NextPlaced(file: Saved, b: Book, i: nat)
    requires !Usable(file) && i < |file.newInfos|
    requires HoldersAre(file, b, i) && forall j :: 0 <= j < i ==> HoldsIfFirst(file, b, j)
    ensures var c := NewEntry(file.hashes, b, file.newInfos[i], i, false);
            HoldersAre(file, c, i + 1) && forall j :: 0 <= j <= i ==> HoldsIfFirst(file, c, j)
  {
    hide ReturnSlot;
    var c, s := NewEntry(file.hashes, b, file.newInfos[i], i, false), PlaceOf(file, i);
    TakenBefore(file, b, i);
    forall j | 0 <= j <= i ensures HoldsIfFirst(file, c, j) {
      assert j < i ==> HoldsIfFirst(file, b, j);
    }
  }

  // So from a file whose positions cannot be used exactly the records that are first
  // for their slot are kept, with one reference each, which is there.
  lemma UnusableKeepsFirst(file: Saved, i: nat)
    requires Sensible(file) && file.nKeySize == 32 && !Usable(file) && i < |file.newInfos|
    ensures var b := Load(file).value;
            && (i in b.mapInfo <==> IsFirst(file, i))
            && (IsFirst(file, i) ==>
                  && b.mapInfo[i].addr == file.newInfos[i].addr && b.mapInfo[i].nRefCount == 1
                  && PlaceOf(file, i) in b.vvNew && b.vvNew[PlaceOf(file, i)] == i)
  {
    hide Load, Valid, IsFirst, PlaceOf, Usable, Sorted, Sound, From, Ids, KeepsPlaced, AreRecords, WithNew, WithTried,
         WithPlaces;
    LoadedIsConsistent(file);
    PlacesSound(file, |file.buckets|);
    TriedSound(file, |file.triedInfos|);
    FirstPlaced(file, |file.newInfos|);
    NewSound(file, |file.newInfos|);
    assert file.newInfos[..|file.newInfos|] == file.newInfos;
    var start, b, c := WithNew(file, |file.newInfos|), WithPlaces(file, |file.buckets|), Load(file).value;
    assert HoldsIfFirst(file, start, i);
    RecordKept(start, file.newInfos, b, i);
    if IsFirst(file, i) {
      PlacedStays(b, c, i);
    } else {
      HoldsNothing(file, start, i);
      NotTried(file.hashes, b, i);
      RefsGone(file.hashes, b, c, i);
    }
  }

  lemma RecordKept(b: Book, infos: seq<Info>, c: Book, i: nat)
    requires AreRecords(b, infos) && KeepsNew(b, c) && i < |infos|
    ensures i in c.mapInfo && c.mapInfo[i] == b.mapInfo[i] && c.vvNew == b.vvNew
    ensures c.mapInfo[i].addr == infos[i].addr && !c.mapInfo[i].fInTried
  {
  }

  lemma PlacedStays(b: Book, c: Book, id: Id)
    requires KeepsPlaced(b, c) && id in b.mapInfo && b.mapInfo[id].nRefCount > 0
    ensures id in c.mapInfo && c.mapInfo[id].addr == b.mapInfo[id].addr && c.vvNew == b.vvNew
    ensures c.mapInfo[id].nRefCount == b.mapInfo[id].nRefCount
  {
    assert !Useless(b, id);
    var x, y := b.mapInfo[id].(nRandomPos := 0), c.mapInfo[id].(nRandomPos := 0);
    assert x == y && x.addr == b.mapInfo[id].addr && x.nRefCount == b.mapInfo[id].nRefCount;
  }

  lemma HoldsNothing(file: Saved, b: Book, i: nat)
    requires i < |file.newInfos| && !IsFirst(file, i)
    requires HoldersAre(file, b, |file.newInfos|) && HoldsIfFirst(file, b, i)
    ensures forall s :: s in b.vvNew ==> b.vvNew[s] != i
  {
    hide IsFirst, PlaceOf;
  }

  lemma NotTried(h: Hashes, b: Book, id: Id)
    requires Sorted(h, b) && id in b.mapInfo && !b.mapInfo[id].fInTried
    ensures forall s :: s in b.vvTried ==> b.vvTried[s] != id
  {
    hide AddrsOk, RandomOk, NewOk, RefsOk, CountsOk, StatsOk, Hashes.TriedSlot, Refless;
    assert forall s :: s in b.vvTried ==> TriedSlotOk(h, b, s);
  }

  // An id that no slot holds is not known.
  lemma RefsGone(h: Hashes, b: Book, c: Book, id: Id)
    requires Valid(h, c) && KeepsPlaced(b, c)
    requires forall s :: s in b.vvNew ==> b.vvNew[s] != id
    requires forall s :: s in b.vvTried ==> b.vvTried[s] != id
    ensures id !in c.mapInfo
  {
    hide Consistent;
    KnownMeansHeld(h, c, id);
  }
}
