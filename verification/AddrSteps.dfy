// What each operation of the address manager does to its tables.
module AddrSteps {
  import opened AddrBook
  import opened Numbers

  const RETRIES := 3
  const MAX_FAILURES := 10
  const MIN_FAIL_DAYS := 7
  const HORIZON_DAYS := 30

  predicate IsTerrible(info: Info, nNow: int) {
    if info.nLastTry != 0 && info.nLastTry >= nNow - 60 then false
    else
      || info.nTime > nNow + 10 * 60
      || info.nTime == 0 || nNow - info.nTime > HORIZON_DAYS * 24 * 60 * 60
      || (info.nLastSuccess == 0 && info.nAttempts >= RETRIES)
      || (nNow - info.nLastSuccess > MIN_FAIL_DAYS * 24 * 60 * 60 && info.nAttempts >= MAX_FAILURES)
  }

  // The same but for references and random position.
  predicate SameInfo(a: Info, b: Info) {
    a.(nRandomPos := 0, nRefCount := 0) == b.(nRandomPos := 0, nRefCount := 0)
  }

  // Nothing was added, and what is left is the same.
  predicate OnlyFewer(before: map<Id, Info>, after: map<Id, Info>) {
    after.Keys <= before.Keys && forall k :: k in after ==> SameInfo(after[k], before[k])
  }

  // Known with exactly this port.
  predicate Knows(b: Book, addr: Service) {
    addr.ip in b.mapAddr && b.mapAddr[addr.ip] in b.mapInfo && b.mapInfo[b.mapAddr[addr.ip]].addr == addr
  }

  // -------------------------------------------------------------------- adding

  function Penalized(nTime: int, nTimePenalty: int): int {
    if nTime > nTimePenalty then nTime - nTimePenalty else 0
  }

  // Whether a slot of the new table is free or held by something that an id
  // with nRefs references may push out.
  predicate Room(b: Book, s: Slot, nRefs: int, nNow: int) {
    s in b.vvNew ==>
      b.vvNew[s] in b.mapInfo
      && var e := b.mapInfo[b.vvNew[s]]; IsTerrible(e, nNow) || (e.nRefCount > 1 && nRefs == 0)
  }

  // The slot that a source leads to.
  function PlaceFor(h: Hashes, addr: Service, source: NetAddr): Slot {
    h.NewSlot(addr, h.GetNewBucket(addr, source))
  }

  // An address not known before.
  predicate NewStep(h: Hashes, b: Book, c: Book, addr: Service, nServices: bv64, nTime: nat, source: NetAddr,
                    nTimePenalty: int, nNow: int) {
    var id, s := b.nIdCount, PlaceFor(h, addr, source);
    && c.vvTried == b.vvTried && c.nTried == b.nTried && c.nIdCount == id + 1
    && if Room(b, s, 0, nNow) then
         && addr.ip in c.mapAddr && c.mapAddr[addr.ip] == id && c.vvNew == b.vvNew[s := id]
         && id in c.mapInfo && OnlyFewer(b.mapInfo, c.mapInfo - {id})
         && c.mapInfo[id].(nRandomPos := 0)
            == Info(addr, nServices, Penalized(nTime, nTimePenalty), source, 0, 0, 0, 0, 1, false, 0)
       else addr.ip !in c.mapAddr && c.vvNew == b.vvNew && OnlyFewer(b.mapInfo, c.mapInfo)
  }

  function WithServices(known: bv64, heard: bv64): bv64 {
    known | heard
  }

  // What hearing of a known address again changes.
  function Refreshed(info: Info, nServices: bv64, nTime: nat, nTimePenalty: int, nNow: int): Info {
    var nUpdateInterval := if nNow - nTime < 24 * 60 * 60 then 60 * 60 else 24 * 60 * 60;
    var newer := nTime != 0 && (info.nTime == 0 || info.nTime < nTime - nUpdateInterval - nTimePenalty);
    info.(nTime := if newer then Penalized(nTime, nTimePenalty) else info.nTime,
          nServices := WithServices(info.nServices, nServices))
  }

  // Whether it should get one more place: something new was heard, it is not
  // tried and has less than eight places, and the draw is one of the fewer the
  // more places it has.
  predicate WantsPlace(info: Info, nTime: nat, nRnd: nat) {
    && nTime != 0 && (info.nTime == 0 || nTime > info.nTime)
    && !info.fInTried && info.nRefCount != NEW_BUCKETS_PER_ADDRESS
    && (info.nRefCount > 0 ==> nRnd % Pow2(info.nRefCount) == 0)
  }

  // One more place for a known id, if there is room.
  predicate PlaceStep(h: Hashes, b: Book, c: Book, id: Id, source: NetAddr, nNow: int) {
    && id in b.mapInfo && id in c.mapInfo && OnlyFewer(b.mapInfo, c.mapInfo)
    && c.vvTried == b.vvTried && c.nTried == b.nTried && c.nIdCount == b.nIdCount
    && var s := PlaceFor(h, b.mapInfo[id].addr, source);
       c.vvNew == if Room(b, s, b.mapInfo[id].nRefCount, nNow) then b.vvNew[s := id] else b.vvNew
  }

  predicate AddStep(h: Hashes, b: Book, c: Book, addr: Service, nServices: bv64, nTime: nat, source: NetAddr,
                    nTimePenalty: int, fRoutable: bool, nNow: int, nRnd: nat) {
    if !fRoutable then c == b
    else if addr.ip !in b.mapAddr then NewStep(h, b, c, addr, nServices, nTime, source, nTimePenalty, nNow)
    else
      var id := b.mapAddr[addr.ip];
      id in b.mapInfo
      && var d := WithInfo(b, id, Refreshed(b.mapInfo[id], nServices, nTime, nTimePenalty, nNow));
         if WantsPlace(d.mapInfo[id], nTime, nRnd) then PlaceStep(h, d, c, id, source, nNow) else c == d
  }

  // --------------------------------------------------------- marking as good

  function Succeeded(info: Info, nTime: int): Info {
    info.(nLastSuccess := nTime, nLastTry := nTime, nAttempts := 0)
  }

  // A known address succeeds and, if it was new, moves to the tried table.
  predicate GoodStep(h: Hashes, b: Book, c: Book, addr: Service, nTime: int) {
    if !Knows(b, addr) then c == b
    else
      var id := b.mapAddr[addr.ip];
      var d := WithInfo(b, id, Succeeded(b.mapInfo[id], nTime));
      if b.mapInfo[id].fInTried then c == d
      else
        && id in c.mapInfo && c.mapInfo[id].fInTried && c.nIdCount == b.nIdCount
        && c.vvTried == d.vvTried[h.TriedSlot(addr) := id] && c.vvNew == TriedLeavesNew(h, d, id)
        && OnlyFewer(TriedLeavesInfo(h, d, id), c.mapInfo)
  }

  // -------------------------------------------------------------- statistics

  function Attempted(info: Info, fCountFailure: bool, nTime: int, nLastGood: int): Info {
    var counts := fCountFailure && info.nLastCountAttempt < nLastGood;
    info.(nLastTry := nTime,
          nLastCountAttempt := if counts then nTime else info.nLastCountAttempt,
          nAttempts := if counts then info.nAttempts + 1 else info.nAttempts)
  }

  function AfterAttempt(b: Book, addr: Service, fCountFailure: bool, nTime: int, nLastGood: int): Book {
    if !Knows(b, addr) then b
    else
      var id := b.mapAddr[addr.ip];
      WithInfo(b, id, Attempted(b.mapInfo[id], fCountFailure, nTime, nLastGood))
  }

  function AfterConnected(b: Book, addr: Service, nTime: int): Book {
    if !Knows(b, addr) || nTime - b.mapInfo[b.mapAddr[addr.ip]].nTime <= 20 * 60 then b
    else
      var id := b.mapAddr[addr.ip];
      WithInfo(b, id, b.mapInfo[id].(nTime := nTime))
  }
}
