// The address manager: every operation keeps its tables consistent.
module AddrMan {
  import opened Coins
  import opened AddrBook
  import opened AddrSteps
  import opened Numbers

  const GETADDR_MAX_PCT := 23
  const GETADDR_MAX := 2500

  lemma SameStats(a: Info, b: Info)
    requires SameInfo(a, b)
    ensures a.addr == b.addr && a.fInTried == b.fInTried && a.nTime == b.nTime && a.source == b.source
    ensures a.nLastSuccess == b.nLastSuccess && a.nLastTry == b.nLastTry && a.nAttempts == b.nAttempts
  {
    assert a.(nRandomPos := 0, nRefCount := 0).addr == a.addr;
  }

  lemma StillThere(before: map<Id, Info>, after: map<Id, Info>, id: Id)
    requires OnlyFewer(before, after) && id in after
    ensures id in before && SameInfo(after[id], before[id])
  {
  }

  // Marking one id as tried afterwards or before is the same.
  lemma TriedFewer(marked: map<Id, Info>, before: map<Id, Info>, after: map<Id, Info>, id: Id)
    requires OnlyFewer(before, after) && id in after && id in marked && before.Keys == marked.Keys
    requires forall k :: k in marked && k != id ==> before[k] == marked[k]
    requires SameInfo(before[id].(fInTried := true), marked[id])
    ensures OnlyFewer(marked, after[id := after[id].(fInTried := true)])
  {
    assert SameInfo(after[id], before[id]);
    assert SameInfo(after[id].(fInTried := true), marked[id]) by {
      var x, y := after[id].(nRandomPos := 0, nRefCount := 0), before[id].(nRandomPos := 0, nRefCount := 0);
      assert x.(fInTried := true) == y.(fInTried := true);
    }
  }

  lemma RecountedFewer(before: map<Id, Info>, after: map<Id, Info>, id: Id, nRefCount: int)
    requires OnlyFewer(before, after) && id in after
    ensures OnlyFewer(before, after[id := after[id].(nRefCount := nRefCount)])
  {
  }

  class AddrMan {
    const hashes: Hashes
    var mapInfo: map<Id, Info>
    var mapAddr: map<NetAddr, Id>
    var vRandom: seq<Id>
    var vvTried: Table
    var vvNew: Table
    var nTried: int
    var nNew: int
    var nIdCount: int
    var nLastGood: int

    function Contents(): Book
      reads this
    {
      Book(mapInfo, mapAddr, vRandom, vvTried, vvNew, nTried, nNew, nIdCount)
    }

    ghost predicate Valid()
      reads this
    {
      AddrBook.Valid(hashes, Contents()) && nIdCount >= 0
    }

    // In the middle of an operation: limbo holds the ids between two tables.
    ghost predicate Within(limbo: set<Id>, uncounted: int)
      reads this
    {
      Consistent(hashes, Contents(), limbo, uncounted) && nIdCount >= 0
    }

    constructor (hashes: Hashes)
      ensures Valid() && Contents() == EMPTY && this.hashes == hashes && nLastGood == 1
    {
      this.hashes := hashes;
      mapInfo, mapAddr, vRandom, vvTried, vvNew := map[], map[], [], map[], map[];
      nTried, nNew, nIdCount, nLastGood := 0, 0, 0, 1;
      new;
      EmptyIsValid(hashes);
    }

    // The id of a network address, whatever its port.
    method Find(ip: NetAddr) returns (id: Option<Id>)
      requires Valid()
      ensures id == None <==> ip !in mapAddr
      ensures id.Some? ==> id.value in mapInfo && mapAddr[ip] == id.value && mapInfo[id.value].addr.ip == ip
    {
      if ip !in mapAddr {
        return None;
      }
      assert IpOk(Contents(), ip);
      return Some(mapAddr[ip]);
    }

    method Create(addr: Service, nServices: bv64, nTime: nat, source: NetAddr) returns (nId: Id)
      requires Valid() && addr.ip !in mapAddr
      modifies this
      ensures Within({nId}, 1) && nId in mapInfo && nId !in old(mapInfo)
      ensures Contents() == Created(old(Contents()), mapInfo[nId])
      ensures mapInfo[nId] == Info(addr, nServices, nTime, source, 0, 0, 0, 0, 0, false, old(|vRandom|))
      ensures nLastGood == old(nLastGood)
    {
      hide Consistent;
      var info := Info(addr, nServices, nTime, source, 0, 0, 0, 0, 0, false, -1);
      CreateStep(hashes, Contents(), {}, 0, info);
      assert {} + {nIdCount} == {nIdCount};
      nId := nIdCount;
      nIdCount := nIdCount + 1;
      mapInfo := mapInfo[nId := info];
      mapAddr := mapAddr[addr.ip := nId];
      mapInfo := mapInfo[nId := mapInfo[nId].(nRandomPos := |vRandom|)];
      vRandom := vRandom + [nId];
      assert mapInfo == old(mapInfo)[nId := info.(nRandomPos := old(|vRandom|))];
    }

    method SwapRandom(nRndPos1: nat, nRndPos2: nat, ghost limbo: set<Id>, ghost uncounted: int)
      requires Within(limbo, uncounted)
      requires nRndPos1 == nRndPos2 || (nRndPos1 < |vRandom| && nRndPos2 < |vRandom|)
      modifies this`mapInfo, this`vRandom
      ensures Within(limbo, uncounted) && SameButOrder(old(Contents()), Contents())
      ensures nRndPos1 < |vRandom| && nRndPos2 < |vRandom| ==>
                vRandom == old(vRandom)[nRndPos1 := old(vRandom[nRndPos2])][nRndPos2 := old(vRandom[nRndPos1])]
    {
      hide Consistent;
      if nRndPos1 == nRndPos2 {
        return;
      }
      SwapStep(hashes, Contents(), limbo, uncounted, nRndPos1, nRndPos2);
      var nId1, nId2 := vRandom[nRndPos1], vRandom[nRndPos2];
      assert nId1 in mapInfo && nId2 in mapInfo;
      mapInfo := mapInfo[nId1 := mapInfo[nId1].(nRandomPos := nRndPos2)];
      mapInfo := mapInfo[nId2 := mapInfo[nId2].(nRandomPos := nRndPos1)];
      vRandom := vRandom[nRndPos1 := nId2];
      vRandom := vRandom[nRndPos2 := nId1];
    }

    // Drops an id that is in no table.
    method Delete(nId: Id, ghost limbo: set<Id>, ghost uncounted: int)
      requires Within(limbo, uncounted) && nId in limbo && nId in mapInfo && mapInfo[nId].nRefCount == 0
      modifies this`mapInfo, this`vRandom, this`mapAddr, this`nNew
      ensures Within(limbo - {nId}, uncounted)
      ensures mapInfo.Keys == old(mapInfo.Keys) - {nId}
      ensures forall k :: k in mapInfo ==> mapInfo[k].(nRandomPos := 0) == old(mapInfo)[k].(nRandomPos := 0)
    {
      hide Consistent;
      InOrder(nId, limbo, uncounted);
      SwapRandom(mapInfo[nId].nRandomPos, |vRandom| - 1, limbo, uncounted);
      LastInOrder(nId, limbo, uncounted);
      DeleteStep(hashes, Contents(), limbo, uncounted, nId);
      vRandom := vRandom[..|vRandom| - 1];
      mapAddr := mapAddr - {mapInfo[nId].addr.ip};
      mapInfo := mapInfo - {nId};
      nNew := nNew - 1;
    }

    lemma InOrder(nId: Id, limbo: set<Id>, uncounted: int)
      requires Within(limbo, uncounted) && nId in mapInfo
      ensures 0 <= mapInfo[nId].nRandomPos < |vRandom| && vRandom[mapInfo[nId].nRandomPos] == nId
    {
      assert PosOk(Contents(), nId);
    }

    lemma LastInOrder(nId: Id, limbo: set<Id>, uncounted: int)
      requires Within(limbo, uncounted) && |vRandom| > 0 && vRandom[|vRandom| - 1] == nId
      ensures nId in mapInfo && mapInfo[nId].nRandomPos == |vRandom| - 1
    {
      assert RandOk(Contents(), |vRandom| - 1);
    }

    // Frees a slot of the new table, and deletes what it held when that was
    // its last reference.
    method ClearNew(s: Slot, ghost limbo: set<Id>, ghost uncounted: int)
      requires Within(limbo, uncounted)
      requires s in vvNew ==> vvNew[s] !in limbo
      modifies this`mapInfo, this`vRandom, this`mapAddr, this`nNew, this`vvNew
      ensures Within(limbo, uncounted) && vvNew == old(vvNew) - {s}
      ensures mapInfo.Keys >= old(mapInfo.Keys) - (if old(s in vvNew) then {old(vvNew)[s]} else {})
      ensures mapInfo.Keys <= old(mapInfo.Keys)
      ensures forall k :: k in mapInfo && !(old(s in vvNew) && k == old(vvNew)[s]) ==>
                mapInfo[k].(nRandomPos := 0) == old(mapInfo)[k].(nRandomPos := 0)
      ensures OnlyFewer(old(mapInfo), mapInfo)
    {
      hide Consistent;
      if s in vvNew {
        var nIdDelete := vvNew[s];
        RefDropStep(hashes, Contents(), limbo, uncounted, s);
        mapInfo := mapInfo[nIdDelete := mapInfo[nIdDelete].(nRefCount := mapInfo[nIdDelete].nRefCount - 1)];
        vvNew := vvNew - {s};
        if mapInfo[nIdDelete].nRefCount == 0 {
          ghost var before := mapInfo;
          Delete(nIdDelete, limbo + {nIdDelete}, uncounted);
          FewerButOrder(before, mapInfo);
          assert limbo + {nIdDelete} - {nIdDelete} == limbo;
        }
      } else {
        assert vvNew - {s} == vvNew;
      }
    }

    // Takes an id out of every bucket of the new table.
    method LeaveNewTable(nId: Id)
      requires Within({nId}, 0) && nId in mapInfo && !mapInfo[nId].fInTried
      modifies this`mapInfo, this`vvNew
      ensures Within({nId}, 0) && vvNew == Without(old(vvNew), nId)
      ensures mapInfo == old(mapInfo)[nId := old(mapInfo)[nId].(nRefCount := 0)]
    {
      hide Consistent;
      for bucket := 0 to NEW_BUCKET_COUNT
        invariant Within({nId}, 0) && nId in mapInfo
        invariant mapInfo == old(mapInfo)[nId := old(mapInfo)[nId].(nRefCount := mapInfo[nId].nRefCount)]
        invariant vvNew.Keys <= old(vvNew).Keys
        invariant forall s :: s in old(vvNew) && old(vvNew)[s] != nId ==> s in vvNew
        invariant forall s :: s in vvNew ==> vvNew[s] == old(vvNew)[s] && (vvNew[s] == nId ==> s.bucket >= bucket)
      {
        var s := hashes.NewSlot(mapInfo[nId].addr, bucket);
        AtPosition(nId, {nId}, 0);
        if s in vvNew && vvNew[s] == nId {
          RefDropStep(hashes, Contents(), {nId}, 0, s);
          assert {nId} + {nId} == {nId};
          vvNew := vvNew - {s};
          mapInfo := mapInfo[nId := mapInfo[nId].(nRefCount := mapInfo[nId].nRefCount - 1)];
        }
      }
      AtPosition(nId, {nId}, 0);
      RefsCounted(hashes, Contents(), {nId}, 0, nId);
    }

    lemma AtPosition(nId: Id, limbo: set<Id>, uncounted: int)
      requires Within(limbo, uncounted) && nId in mapInfo
      ensures forall s :: s in vvNew && vvNew[s] == nId ==>
                s.bucket < NEW_BUCKET_COUNT && s == hashes.NewSlot(mapInfo[nId].addr, s.bucket)
    {
      forall s | s in vvNew && vvNew[s] == nId
        ensures s.bucket < NEW_BUCKET_COUNT && s == hashes.NewSlot(mapInfo[nId].addr, s.bucket)
      {
        assert NewSlotOk(hashes, Contents(), s);
      }
    }

    lemma TriedOccupant(s: Slot, limbo: set<Id>, uncounted: int)
      requires Within(limbo, uncounted) && s in vvTried
      ensures vvTried[s] in mapInfo && mapInfo[vvTried[s]].fInTried && s == hashes.TriedSlot(mapInfo[vvTried[s]].addr)
      ensures vvTried[s] !in limbo
    {
      assert TriedSlotOk(hashes, Contents(), s);
      assert RefOk(Contents(), limbo, vvTried[s]);
    }

    // Takes a slot of the new table for an id, clearing it first.
    method TakeSlot(nId: Id, nUBucket: nat, ghost limbo: set<Id>, ghost uncounted: int)
      requires Within(limbo, uncounted) && nId in limbo && nId in mapInfo && nUBucket < NEW_BUCKET_COUNT
      requires mapInfo[nId].nRefCount < NEW_BUCKETS_PER_ADDRESS
      requires var s := hashes.NewSlot(mapInfo[nId].addr, nUBucket); s in vvNew ==> vvNew[s] !in limbo
      modifies this`mapInfo, this`vRandom, this`mapAddr, this`nNew, this`vvNew
      ensures Within(limbo - {nId}, uncounted)
      ensures vvNew == old(vvNew)[hashes.NewSlot(old(mapInfo)[nId].addr, nUBucket) := nId]
      ensures limbo <= mapInfo.Keys && OnlyFewer(old(mapInfo), mapInfo)
      ensures forall k :: k in limbo && k in old(mapInfo) ==>
                mapInfo[k].nRefCount == old(mapInfo)[k].nRefCount + if k == nId then 1 else 0
    {
      hide OnlyFewer, Consistent, Hashes.TriedSlot, Hashes.NewSlot, Hashes.GetNewBucket, Hashes.GetBucketPosition,
           StatsOk;
      var s := hashes.NewSlot(mapInfo[nId].addr, nUBucket);
      ghost var before := mapInfo;
      ClearNew(s, limbo, uncounted);
      InLimbo(nId, limbo, uncounted);
      forall k | k in limbo && k in before
        ensures k in mapInfo && SameInfo(mapInfo[k], before[k]) && mapInfo[k].nRefCount == before[k].nRefCount
      {
        SameButRefs(mapInfo[k], before[k]);
      }
      SameStats(mapInfo[nId], before[nId]);
      RefAddStep(hashes, Contents(), limbo, uncounted, nUBucket, nId);
      RecountedFewer(before, mapInfo, nId, mapInfo[nId].nRefCount + 1);
      mapInfo := mapInfo[nId := mapInfo[nId].(nRefCount := mapInfo[nId].nRefCount + 1)];
      vvNew := vvNew[s := nId];
    }

    lemma InLimbo(nId: Id, limbo: set<Id>, uncounted: int)
      requires Within(limbo, uncounted) && nId in limbo
      ensures limbo <= mapInfo.Keys && !mapInfo[nId].fInTried
    {
      assert RefOk(Contents(), limbo, nId);
    }

    // Moves the id in a tried slot back to the new table, deleting what is in
    // its place there.
    method Evict(nKSlot: Slot, nId: Id)
      requires Within({nId}, 1) && nId in mapInfo && mapInfo[nId].nRefCount == 0 && nKSlot in vvTried
      modifies this`mapInfo, this`vRandom, this`mapAddr, this`vvTried, this`vvNew, this`nTried, this`nNew
      ensures Within({nId}, 1) && nId in mapInfo && mapInfo[nId].nRefCount == 0
      ensures vvTried == old(vvTried) - {nKSlot}
      ensures var e := old(vvTried)[nKSlot];
              && old(e in mapInfo) && e != nId
              && vvNew == old(vvNew)[old(ReturnSlot(hashes, mapInfo[e])) := e]
              && OnlyFewer(old(mapInfo)[e := old(mapInfo)[e].(fInTried := false)], mapInfo)
    {
      hide OnlyFewer, Consistent, Hashes.TriedSlot, Hashes.NewSlot, Hashes.GetBucketPosition, StatsOk;
      var nIdEvict := vvTried[nKSlot];
      TriedOccupant(nKSlot, {nId}, 1);
      UntryStep(hashes, Contents(), {nId}, 1, nIdEvict);
      mapInfo := mapInfo[nIdEvict := mapInfo[nIdEvict].(fInTried := false)];
      vvTried := vvTried - {nKSlot};
      nTried := nTried - 1;
      ghost var limbo := {nId} + {nIdEvict};
      RefsCounted(hashes, Contents(), limbo, 2, nId);
      RefsCounted(hashes, Contents(), limbo, 2, nIdEvict);
      TakeSlot(nIdEvict, hashes.GetNewBucket(mapInfo[nIdEvict].addr, mapInfo[nIdEvict].source), limbo, 2);
      assert limbo - {nIdEvict} == {nId};
      Recount(hashes, Contents(), {nId}, 2, nNew + 1);
      nNew := nNew + 1;
    }

    static lemma SameButRefs(a: Info, b: Info)
      requires a.(nRandomPos := 0) == b.(nRandomPos := 0)
      ensures a.(nRandomPos := 0, nRefCount := 0) == b.(nRandomPos := 0, nRefCount := 0)
      ensures a.nRefCount == b.nRefCount
    {
      assert a.(nRandomPos := 0).nRefCount == a.nRefCount && b.(nRandomPos := 0).nRefCount == b.nRefCount;
      assert a.(nRandomPos := 0, nRefCount := 0) == a.(nRandomPos := 0).(nRefCount := 0);
    }

    static lemma SameFewer(m: map<Id, Info>)
      ensures OnlyFewer(m, m)
    {
    }

    static lemma MarkedInfo(info: Info)
      ensures SameInfo(info.(nRefCount := 0).(fInTried := true), info.(fInTried := true))
    {
    }

    // Empties a tried slot, if it is not empty already. What is left is known
    // up to counts, order and what lost its place.
    method MakeSpace(nKSlot: Slot, nId: Id) returns (ghost left: map<Id, Info>)
      requires Within({nId}, 1) && nId in mapInfo && mapInfo[nId].nRefCount == 0
      modifies this`mapInfo, this`vRandom, this`mapAddr, this`vvTried, this`vvNew, this`nTried, this`nNew
      ensures Within({nId}, 1) && nId in mapInfo && mapInfo[nId].nRefCount == 0
      ensures vvTried == old(vvTried) - {nKSlot} && OnlyFewer(left, mapInfo)
      ensures old(nKSlot !in vvTried) ==> left == old(mapInfo) && vvNew == old(vvNew)
      ensures old(nKSlot in vvTried) ==>
                var e := old(vvTried)[nKSlot];
                && e in old(mapInfo) && e != nId && left == old(mapInfo)[e := old(mapInfo)[e].(fInTried := false)]
                && vvNew == old(vvNew)[ReturnSlot(hashes, old(mapInfo)[e]) := e]
    {
      hide OnlyFewer, Consistent, ReturnSlot;
      left := mapInfo;
      SameFewer(mapInfo);
      if nKSlot in vvTried {
        TriedOccupant(nKSlot, {nId}, 1);
        left := mapInfo[vvTried[nKSlot] := mapInfo[vvTried[nKSlot]].(fInTried := false)];
        Evict(nKSlot, nId);
      } else {
        assert vvTried - {nKSlot} == vvTried;
      }
    }

    method MakeTried(nId: Id)
      requires Valid() && nId in mapInfo && !mapInfo[nId].fInTried && mapInfo[nId].nLastSuccess > 0
      modifies this`mapInfo, this`vRandom, this`mapAddr, this`vvTried, this`vvNew, this`nTried, this`nNew
      ensures Valid()
      ensures vvTried == old(vvTried)[hashes.TriedSlot(old(mapInfo)[nId].addr) := nId]
      ensures vvNew == TriedLeavesNew(hashes, old(Contents()), nId)
      ensures OnlyFewer(TriedLeavesInfo(hashes, old(Contents()), nId), mapInfo)
    {
      hide OnlyFewer, SameInfo, Consistent, Hashes.TriedSlot, ReturnSlot, Without, StatsOk;
      EnterLimbo(hashes, Contents(), nId);
      LeaveNewTable(nId);
      Recount(hashes, Contents(), {nId}, 0, nNew - 1);
      nNew := nNew - 1;
      var nKSlot := hashes.TriedSlot(mapInfo[nId].addr);
      ghost var left := MakeSpace(nKSlot, nId);
      StillThere(left, mapInfo, nId);
      SameStats(mapInfo[nId], left[nId]);
      MarkedInfo(old(mapInfo)[nId]);
      TriedFewer(TriedLeavesInfo(hashes, old(Contents()), nId), left, mapInfo, nId);
      EnterTried(nKSlot, nId);
    }

    // Puts an id that is in no table into its free tried slot.
    method EnterTried(nKSlot: Slot, nId: Id)
      requires Within({nId}, 1) && nId in mapInfo && mapInfo[nId].nRefCount == 0 && mapInfo[nId].nLastSuccess > 0
      requires nKSlot == hashes.TriedSlot(mapInfo[nId].addr) && nKSlot !in vvTried
      modifies this`mapInfo, this`vvTried, this`nTried
      ensures Valid() && vvTried == old(vvTried)[nKSlot := nId]
      ensures mapInfo == old(mapInfo)[nId := old(mapInfo)[nId].(fInTried := true)]
    {
      hide Consistent, Hashes.TriedSlot, StatsOk;
      TryStep(hashes, Contents(), {nId}, 1, nId);
      assert {nId} - {nId} == {};
      vvTried := vvTried[nKSlot := nId];
      nTried := nTried + 1;
      mapInfo := mapInfo[nId := mapInfo[nId].(fInTried := true)];
    }

    method SetStats(nId: Id, info: Info)
      requires Valid() && nId in mapInfo && SamePlace(info, mapInfo[nId]) && StatsOk(info)
      modifies this`mapInfo
      ensures Valid() && mapInfo == old(mapInfo)[nId := info]
    {
      hide Consistent;
      StatsChange(hashes, Contents(), {}, 0, nId, info);
      mapInfo := mapInfo[nId := info];
    }

    // Marks an address good. When it was new it ends up tried: the search for
    // a bucket that holds it, from any starting bucket, always succeeds.
    method Good_(addr: Service, nTime: int, nRnd: nat)
      requires Valid() && nTime > 0
      modifies this
      ensures Valid() && nLastGood == nTime
      ensures GoodStep(hashes, old(Contents()), Contents(), addr, nTime)
    {
      hide Consistent, OnlyFewer, TriedLeavesNew, TriedLeavesInfo, Hashes.TriedSlot;
      nLastGood := nTime;
      var found := Find(addr.ip);
      if found == None {
        return;
      }
      var nId := found.value;
      if mapInfo[nId].addr != addr {
        return;
      }
      SetStats(nId, mapInfo[nId].(nLastSuccess := nTime, nLastTry := nTime, nAttempts := 0));
      if mapInfo[nId].fInTried {
        return;
      }
      var inBucket := FindBucket(nId, nRnd);
      assert inBucket;
      MakeTried(nId);
      TriedOccupant(hashes.TriedSlot(addr), {}, 0);
    }

    function Probe(nId: Id, nRnd: nat, n: nat): Slot
      requires nId in mapInfo
      reads this
    {
      hashes.NewSlot(mapInfo[nId].addr, (n + nRnd) % NEW_BUCKET_COUNT)
    }

    predicate Hit(nId: Id, nRnd: nat, n: nat)
      requires nId in mapInfo
      reads this
    {
      Probe(nId, nRnd, n) in vvNew && vvNew[Probe(nId, nRnd, n)] == nId
    }

    // Looks through all buckets of the new table, from bucket nRnd on.
    method FindBucket(nId: Id, nRnd: nat) returns (found: bool)
      requires Valid() && nId in mapInfo
      ensures found <==> !mapInfo[nId].fInTried
    {
      hide Consistent;
      for n := 0 to NEW_BUCKET_COUNT
        invariant forall m :: 0 <= m < n ==> !Hit(nId, nRnd, m)
      {
        if Hit(nId, nRnd, n) {
          RefsMeanNew(nId);
          return true;
        }
      }
      if !mapInfo[nId].fInTried {
        ghost var m := SomeHit(nId, nRnd);
        assert false;
      }
      return false;
    }

    lemma SomeHit(nId: Id, nRnd: nat) returns (m: nat)
      requires Valid() && nId in mapInfo && !mapInfo[nId].fInTried
      ensures m < NEW_BUCKET_COUNT && Hit(nId, nRnd, m)
    {
      var s := SomeRef(nId);
      m := (s.bucket + NEW_BUCKET_COUNT - nRnd % NEW_BUCKET_COUNT) % NEW_BUCKET_COUNT;
      assert (m + nRnd) % NEW_BUCKET_COUNT == s.bucket;
    }

    lemma RefsMeanNew(nId: Id)
      requires Valid() && nId in mapInfo && exists s :: s in vvNew && vvNew[s] == nId
      ensures !mapInfo[nId].fInTried
    {
      assert RefOk(Contents(), {}, nId);
      RefsCounted(hashes, Contents(), {}, 0, nId);
    }

    lemma SomeRef(nId: Id) returns (s: Slot)
      requires Valid() && nId in mapInfo && !mapInfo[nId].fInTried
      ensures s in vvNew && vvNew[s] == nId
      ensures s.bucket < NEW_BUCKET_COUNT && s == hashes.NewSlot(mapInfo[nId].addr, s.bucket)
    {
      EnterLimbo(hashes, Contents(), nId);
      RefsCounted(hashes, Contents(), {}, 0, nId);
      s :| s in vvNew && vvNew[s] == nId;
      assert NewSlotOk(hashes, Contents(), s);
    }

    // Adds a new table entry for an address heard of from source, or refreshes
    // the one there is. The random draw and the clock are arbitrary.
    method Add_(addr: Service, nServices: bv64, nTime: nat, source: NetAddr, nTimePenalty: int,
                fRoutable: bool, nNow: int, nRnd: nat)
      returns (fNew: bool)
      requires Valid()
      modifies this
      ensures Valid() && nLastGood == old(nLastGood)
      ensures fNew <==> fRoutable && old(addr.ip !in mapAddr)
      ensures AddStep(hashes, old(Contents()), Contents(), addr, nServices, nTime, source, nTimePenalty, fRoutable,
                      nNow, nRnd)
    {
      hide Consistent, IsTerrible;
      fNew := false;
      if !fRoutable {
        return;
      }
      var found := Find(addr.ip);
      if found.Some? {
        var nId := found.value;
        var go := Refresh(nId, nServices, nTime, nTimePenalty, nNow, nRnd);
        if go {
          PutInBucket(nId, source, nNow);
        }
      } else {
        AddNew(addr, nServices, nTime, source, nTimePenalty, nNow);
        fNew := true;
      }
    }

    // An address not known before.
    method AddNew(addr: Service, nServices: bv64, nTime: nat, source: NetAddr, nTimePenalty: int, nNow: int)
      requires Valid() && addr.ip !in mapAddr
      modifies this
      ensures Valid() && nLastGood == old(nLastGood)
      ensures NewStep(hashes, old(Contents()), Contents(), addr, nServices, nTime, source, nTimePenalty, nNow)
    {
      hide Consistent, IsTerrible;
      ghost var s := hashes.NewSlot(addr, hashes.GetNewBucket(addr, source));
      if s in vvNew {
        NewOccupant(s, {}, 0);
      }
      ghost var strangers := mapInfo;
      Strangers(addr.ip);
      var nId := Create(addr, nServices, nTime, source);
      var info := mapInfo[nId].(nTime := Penalized(nTime, nTimePenalty));
      StatsChange(hashes, Contents(), {nId}, 1, nId, info);
      mapInfo := mapInfo[nId := info];
      Recount(hashes, Contents(), {nId}, 1, nNew + 1);
      nNew := nNew + 1;
      ghost var known := mapInfo;
      PutInBucket(nId, source, nNow);
      if nId in mapInfo {
        OneReference(mapInfo[nId], known[nId]);
        AddressOf(nId);
      } else {
        StillStranger(addr.ip, nId, known);
      }
    }

    lemma StillStranger(ip: NetAddr, nId: Id, before: map<Id, Info>)
      requires Valid() && OnlyFewer(before, mapInfo) && nId !in mapInfo
      requires forall id :: id in before && id != nId ==> before[id].addr.ip != ip
      ensures ip !in mapAddr
    {
      forall id | id in mapInfo ensures mapInfo[id].addr.ip != ip {
        SameStats(mapInfo[id], before[id]);
      }
      assert ip in mapAddr ==> IpOk(Contents(), ip);
    }

    static lemma OneReference(a: Info, b: Info)
      requires SameInfo(a, b)
      ensures a.(nRandomPos := 0) == b.(nRandomPos := 0, nRefCount := a.nRefCount)
    {
      assert a.(nRandomPos := 0, nRefCount := 0).(nRefCount := a.nRefCount) == a.(nRandomPos := 0);
    }

    lemma Strangers(ip: NetAddr)
      requires Valid() && ip !in mapAddr
      ensures forall id :: id in mapInfo ==> mapInfo[id].addr.ip != ip
    {
      forall id | id in mapInfo ensures mapInfo[id].addr.ip != ip {
        assert AddrOk(Contents(), id);
      }
    }

    lemma AddressOf(id: Id)
      requires Valid() && id in mapInfo
      ensures mapInfo[id].addr.ip in mapAddr && mapAddr[mapInfo[id].addr.ip] == id
    {
      assert AddrOk(Contents(), id);
    }

    // Updates what is known of an address that was heard of again. Says
    // whether it should get one more place in the new table.
    method Refresh(nId: Id, nServices: bv64, nTime: nat, nTimePenalty: int, nNow: int, nRnd: nat) returns (go: bool)
      requires Valid() && nId in mapInfo
      modifies this`mapInfo
      ensures Valid()
      ensures mapInfo == old(mapInfo)[nId := Refreshed(old(mapInfo)[nId], nServices, nTime, nTimePenalty, nNow)]
      ensures go <==> WantsPlace(mapInfo[nId], nTime, nRnd)
      ensures go ==> Within({nId}, 0) && 0 < mapInfo[nId].nRefCount < NEW_BUCKETS_PER_ADDRESS
    {
      hide Consistent, Refreshed, Pow2;
      RefsCounted(hashes, Contents(), {}, 0, nId);
      StatsThere(hashes, Contents(), {}, 0, nId);
      RefreshedKeeps(mapInfo[nId], nServices, nTime, nTimePenalty, nNow);
      var info := RefreshInfo(mapInfo[nId], nServices, nTime, nTimePenalty, nNow);
      SetStats(nId, info);
      if nTime == 0 || (info.nTime != 0 && nTime <= info.nTime) {
        return false;
      }
      if info.fInTried || info.nRefCount == NEW_BUCKETS_PER_ADDRESS {
        return false;
      }
      go := Draw(info.nRefCount, nRnd);
      if go {
        EnterLimbo(hashes, Contents(), nId);
      }
    }

    static method RefreshInfo(known: Info, nServices: bv64, nTime: nat, nTimePenalty: int, nNow: int)
      returns (info: Info)
      ensures info == Refreshed(known, nServices, nTime, nTimePenalty, nNow)
    {
      hide WithServices;
      info := known;
      var fCurrentlyOnline := nNow - nTime < 24 * 60 * 60;
      var nUpdateInterval := if fCurrentlyOnline then 60 * 60 else 24 * 60 * 60;
      if nTime != 0 && (info.nTime == 0 || info.nTime < nTime - nUpdateInterval - nTimePenalty) {
        info := info.(nTime := Penalized(nTime, nTimePenalty));
      }
      info := info.(nServices := WithServices(info.nServices, nServices));
    }

    static lemma RefreshedKeeps(info: Info, nServices: bv64, nTime: nat, nTimePenalty: int, nNow: int)
      ensures var r := Refreshed(info, nServices, nTime, nTimePenalty, nNow);
              SamePlace(r, info) && (StatsOk(info) ==> StatsOk(r))
    {
    }

    // One chance in 2 to the number of places it has.
    static method Draw(nRefCount: nat, nRnd: nat) returns (go: bool)
      ensures go <==> (nRefCount > 0 ==> nRnd % Pow2(nRefCount) == 0)
    {
      var nFactor := 1;
      for n := 0 to nRefCount
        invariant nFactor == Pow2(n)
      {
        nFactor := nFactor * 2;
      }
      go := !(nFactor > 1 && nRnd % nFactor != 0);
    }

    static lemma FewerButOrder(before: map<Id, Info>, after: map<Id, Info>)
      requires after.Keys <= before.Keys
      requires forall k :: k in after ==> after[k].(nRandomPos := 0) == before[k].(nRandomPos := 0)
      ensures OnlyFewer(before, after)
    {
      forall k | k in after ensures SameInfo(after[k], before[k]) {
        SameButRefs(after[k], before[k]);
      }
    }

    // Gives an id its place in the bucket that its source leads to, if there
    // is room. An id that gets none and has none is dropped.
    method PutInBucket(nId: Id, source: NetAddr, nNow: int)
      requires Within({nId}, 0) && nId in mapInfo && !mapInfo[nId].fInTried
      requires mapInfo[nId].nRefCount < NEW_BUCKETS_PER_ADDRESS
      modifies this`mapInfo, this`vRandom, this`mapAddr, this`nNew, this`vvNew
      ensures Valid()
      ensures var addr := old(mapInfo)[nId].addr;
              var s := PlaceFor(hashes, addr, source);
              var room := Room(old(Contents()), s, old(mapInfo[nId].nRefCount), nNow);
              && vvNew == (if room then old(vvNew)[s := nId] else old(vvNew))
              && (nId in mapInfo <==> room || old(mapInfo[nId].nRefCount) > 0)
              && (room && old(mapInfo[nId].nRefCount) == 0 ==> mapInfo[nId].nRefCount == 1)
      ensures OnlyFewer(old(mapInfo), mapInfo)
    {
      hide Consistent, IsTerrible;
      var nUBucket := hashes.GetNewBucket(mapInfo[nId].addr, source);
      var s := hashes.NewSlot(mapInfo[nId].addr, nUBucket);
      RefsCounted(hashes, Contents(), {nId}, 0, nId);
      if s in vvNew && vvNew[s] == nId {
        LeaveLimbo(hashes, Contents(), nId);
        assert vvNew[s := nId] == vvNew;
        return;
      }
      var fInsert := s !in vvNew;
      if !fInsert {
        NewOccupant(s, {nId}, 0);
        var infoExisting := mapInfo[vvNew[s]];
        if IsTerrible(infoExisting, nNow) || (infoExisting.nRefCount > 1 && mapInfo[nId].nRefCount == 0) {
          fInsert := true;
        }
      }
      assert fInsert == Room(Contents(), s, mapInfo[nId].nRefCount, nNow);
      if fInsert {
        TakeSlot(nId, nUBucket, {nId}, 0);
        assert {nId} - {nId} == {};
      } else if mapInfo[nId].nRefCount == 0 {
        ghost var before := mapInfo;
        Delete(nId, {nId}, 0);
        FewerButOrder(before, mapInfo);
        assert {nId} - {nId} == {};
      } else {
        LeaveLimbo(hashes, Contents(), nId);
      }
    }

    lemma NewOccupant(s: Slot, limbo: set<Id>, uncounted: int)
      requires Within(limbo, uncounted) && s in vvNew
      ensures vvNew[s] in mapInfo
    {
      assert NewSlotOk(hashes, Contents(), s);
    }

    // Counts an attempt at most once between two calls of Good_.
    method Attempt_(addr: Service, fCountFailure: bool, nTime: int)
      requires Valid() && nTime >= 0
      modifies this`mapInfo
      ensures Valid()
      ensures Contents() == AfterAttempt(old(Contents()), addr, fCountFailure, nTime, nLastGood)
    {
      hide Consistent;
      var found := Find(addr.ip);
      if found == None || mapInfo[found.value].addr != addr {
        return;
      }
      var info := mapInfo[found.value];
      StatsThere(hashes, Contents(), {}, 0, found.value);
      info := info.(nLastTry := nTime);
      if fCountFailure && info.nLastCountAttempt < nLastGood {
        info := info.(nLastCountAttempt := nTime, nAttempts := info.nAttempts + 1);
      }
      SetStats(found.value, info);
    }

    method Connected_(addr: Service, nTime: int)
      requires Valid()
      modifies this`mapInfo
      ensures Valid()
      ensures Contents() == AfterConnected(old(Contents()), addr, nTime)
    {
      hide Consistent;
      var found := Find(addr.ip);
      if found == None || mapInfo[found.value].addr != addr {
        return;
      }
      var info := mapInfo[found.value];
      StatsThere(hashes, Contents(), {}, 0, found.value);
      if nTime - info.nTime > 20 * 60 {
        SetStats(found.value, info.(nTime := nTime));
      }
    }

    static function GetAddrLimit(known: nat): nat {
      var n := GETADDR_MAX_PCT * known / 100;
      if n > GETADDR_MAX then GETADDR_MAX else n
    }

    // A random selection of known addresses that are not terrible, no id
    // twice: as many as the limit allows, or all there are. Only the random
    // order changes.
    method GetAddr_(nNow: int) returns (vAddr: seq<Service>, ghost ids: seq<Id>)
      requires Valid()
      modifies this`mapInfo, this`vRandom
      ensures Valid() && SameButOrder(old(Contents()), Contents())
      ensures |vAddr| == |ids| <= GetAddrLimit(|vRandom|)
      ensures |vAddr| <= 2500 && |vAddr| * 100 <= 23 * |vRandom|
      ensures forall i :: 0 <= i < |ids| ==> Listed(old(mapInfo), ids[i], vAddr[i], nNow)
      ensures forall i, j :: 0 <= i < j < |ids| ==> ids[i] != ids[j]
      ensures |ids| < GetAddrLimit(|vRandom|) ==>
                forall id :: id in old(mapInfo) && !IsTerrible(old(mapInfo)[id], nNow) ==> id in ids
    {
      hide Consistent, IsTerrible, Sampled, SameButOrder;
      var nNodes := GETADDR_MAX_PCT * |vRandom| / 100;
      if nNodes > GETADDR_MAX {
        nNodes := GETADDR_MAX;
      }
      vAddr, ids := [], [];
      var n := 0;
      ghost var before := Contents();
      NothingSampled(before, nNow);
      while n < |vRandom|
        invariant n <= |vRandom| && |vAddr| <= nNodes
        invariant Valid() && SameButOrder(before, Contents()) && Sampled(before.mapInfo, vRandom[..n], vAddr, ids, nNow)
        invariant |vRandom| == |before.vRandom| && nNodes == GetAddrLimit(|vRandom|)
      {
        if |vAddr| >= nNodes {
          break;
        }
        var nRndPos: nat :| n <= nRndPos < |vRandom|;
        ghost var passed, middle := vRandom[..n], Contents();
        SwapRandom(n, nRndPos, {}, 0);
        OrderTwice(before, middle, Contents());
        assert vRandom[..n] == passed;
        AllKnown(n);
        ghost var id := vRandom[n];
        assert vRandom[..n + 1] == passed + [id];
        var ai := mapInfo[vRandom[n]];
        StillListed(before, Contents(), id, nNow);
        SampledMore(before.mapInfo, passed, vAddr, ids, id, nNow);
        if !IsTerrible(ai, nNow) {
          vAddr, ids := vAddr + [ai.addr], ids + [id];
        }
        n := n + 1;
      }
      AllInOrder();
      SampleIs(before, Contents(), n, vAddr, ids, nNow);
    }

    // From the ids passed so far, exactly those not terrible are sampled.
    static ghost predicate Sampled(m: map<Id, Info>, passed: seq<Id>, vAddr: seq<Service>, ids: seq<Id>, nNow: int) {
      && |vAddr| == |ids|
      && (forall i :: 0 <= i < |ids| ==> Listed(m, ids[i], vAddr[i], nNow) && ids[i] in passed)
      && (forall i, j :: 0 <= i < j < |ids| ==> ids[i] != ids[j])
      && (forall id :: id in passed && id in m && !IsTerrible(m[id], nNow) ==> id in ids)
    }

    static lemma NothingSampled(b: Book, nNow: int)
      ensures Sampled(b.mapInfo, b.vRandom[..0], [], [], nNow) && SameButOrder(b, b)
    {
    }

    static lemma OrderTwice(b: Book, c: Book, d: Book)
      requires SameButOrder(b, c) && SameButOrder(c, d)
      ensures SameButOrder(b, d) && |d.vRandom| == |b.vRandom| == |c.vRandom|
    {
      forall id | id in b.mapInfo ensures d.mapInfo[id].(nRandomPos := 0) == b.mapInfo[id].(nRandomPos := 0) {
        assert c.mapInfo[id].(nRandomPos := 0) == b.mapInfo[id].(nRandomPos := 0);
      }
    }

    static lemma StillListed(b: Book, c: Book, id: Id, nNow: int)
      requires SameButOrder(b, c) && id in c.mapInfo
      ensures id in b.mapInfo && IsTerrible(c.mapInfo[id], nNow) == IsTerrible(b.mapInfo[id], nNow)
      ensures c.mapInfo[id].addr == b.mapInfo[id].addr
    {
      assert id in c.mapInfo.Keys;
      assert c.mapInfo[id].(nRandomPos := 0) == b.mapInfo[id].(nRandomPos := 0);
      SameTerrible(c.mapInfo[id], b.mapInfo[id], nNow);
    }

    static lemma SampledMore(m: map<Id, Info>, passed: seq<Id>, vAddr: seq<Service>, ids: seq<Id>, id: Id, nNow: int)
      requires Sampled(m, passed, vAddr, ids, nNow) && id in m && id !in passed
      ensures if IsTerrible(m[id], nNow) then Sampled(m, passed + [id], vAddr, ids, nNow)
              else Sampled(m, passed + [id], vAddr + [m[id].addr], ids + [id], nNow)
    {
      hide IsTerrible;
    }

    static lemma SampleIs(b: Book, c: Book, n: nat, vAddr: seq<Service>, ids: seq<Id>, nNow: int)
      requires n <= |c.vRandom| && Sampled(b.mapInfo, c.vRandom[..n], vAddr, ids, nNow) && SameButOrder(b, c)
      requires forall id :: id in c.mapInfo ==> id in c.vRandom
      ensures |vAddr| == |ids| && forall i :: 0 <= i < |ids| ==> Listed(b.mapInfo, ids[i], vAddr[i], nNow)
      ensures forall i, j :: 0 <= i < j < |ids| ==> ids[i] != ids[j]
      ensures n == |c.vRandom| ==> forall id :: id in b.mapInfo && !IsTerrible(b.mapInfo[id], nNow) ==> id in ids
    {
      hide IsTerrible;
      if n == |c.vRandom| {
        assert c.vRandom[..n] == c.vRandom;
        forall id | id in b.mapInfo && !IsTerrible(b.mapInfo[id], nNow) ensures id in ids {
          assert id in b.mapInfo.Keys && id in c.mapInfo;
        }
      }
    }

    lemma AllInOrder()
      requires Valid()
      ensures forall id :: id in mapInfo ==> id in vRandom
    {
      forall id | id in mapInfo ensures id in vRandom {
        InOrder(id, {}, 0);
      }
    }

    static predicate Listed(m: map<Id, Info>, id: Id, addr: Service, nNow: int) {
      id in m && m[id].addr == addr && !IsTerrible(m[id], nNow)
    }

    static lemma SameTerrible(a: Info, b: Info, nNow: int)
      requires a.(nRandomPos := 0) == b.(nRandomPos := 0)
      ensures IsTerrible(a, nNow) == IsTerrible(b, nNow) && a.addr == b.addr
    {
      assert a.(nRandomPos := 0).nTime == a.nTime && b.(nRandomPos := 0).nTime == b.nTime;
    }

    lemma AllKnown(n: nat)
      requires Valid() && n < |vRandom|
      ensures vRandom[n] in mapInfo && vRandom[n] !in vRandom[..n]
    {
      assert RandOk(Contents(), n);
      forall i | 0 <= i < n ensures vRandom[i] != vRandom[n] {
        assert RandOk(Contents(), i);
      }
    }
  }
}
