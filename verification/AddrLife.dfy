// What becomes of one known address in the course of a run.
module AddrLife {
  import opened AddrBook
  import opened AddrSteps
  import opened AddrRun
  import opened Numbers

  ghost predicate KnownThroughout(trace: seq<State>, i: nat, j: nat, id: Id)
    requires i <= j < |trace|
  {
    forall k :: i <= k <= j ==> id in trace[k].book.mapInfo
  }

  // The address and its statistics, without what says where it is.
  function Stats(info: Info): Info {
    info.(nRefCount := 0, fInTried := false, nRandomPos := 0)
  }

  // The operation is about this address, with its port.
  predicate Names(op: Op, addr: Service) {
    match op
    case Add(a, _, _, _, _, fRoutable, _, _) => fRoutable && a.ip == addr.ip
    case Good(a, _, _) => a == addr
    case Attempt(a, _, _) => a == addr
    case Connected(a, _) => a == addr
    case GetAddr(_) => false
  }

  // What an operation that is about an address makes of its statistics.
  function Told(info: Info, op: Op, nLastGood: int): Info {
    match op
    case Add(_, nServices, nTime, _, nTimePenalty, _, nNow, _) => Refreshed(info, nServices, nTime, nTimePenalty, nNow)
    case Good(_, nTime, _) => Succeeded(info, nTime)
    case Attempt(_, fCountFailure, nTime) => Attempted(info, fCountFailure, nTime, nLastGood)
    case Connected(_, nTime) => if nTime - info.nTime <= 20 * 60 then info else info.(nTime := nTime)
    case GetAddr(_) => info
  }

  lemma SameStats(a: Info, b: Info)
    requires SameInfo(a, b)
    ensures Stats(a) == Stats(b).(fInTried := false) && a.fInTried == b.fInTried
  {
    assert a.(nRandomPos := 0, nRefCount := 0).(fInTried := false) == Stats(a);
    assert b.(nRandomPos := 0, nRefCount := 0).(fInTried := false) == Stats(b);
    assert a.(nRandomPos := 0, nRefCount := 0).fInTried == a.fInTried;
    assert b.(nRandomPos := 0, nRefCount := 0).fInTried == b.fInTried;
  }

  lemma FewerSame(before: map<Id, Info>, after: map<Id, Info>, id: Id)
    requires OnlyFewer(before, after) && id in after
    ensures id in before && Stats(after[id]) == Stats(before[id])
  {
    SameStats(after[id], before[id]);
  }

  // A known address is found by its number, under one id.
  lemma FoundById(h: Hashes, b: Book, id: Id, addr: Service)
    requires Valid(h, b) && id in b.mapInfo
    ensures id < b.nIdCount && b.nIdCount !in b.mapInfo
    ensures b.mapInfo[id].addr.ip in b.mapAddr && b.mapAddr[b.mapInfo[id].addr.ip] == id
    ensures Knows(b, addr) && b.mapAddr[addr.ip] == id <==> b.mapInfo[id].addr == addr
    ensures addr.ip in b.mapAddr && b.mapAddr[addr.ip] == id <==> b.mapInfo[id].addr.ip == addr.ip
  {
    hide RandomOk, TriedOk, NewOk, RefsOk, CountsOk, StatsOk;
    assert AddrOk(b, id);
    if addr.ip in b.mapAddr {
      assert IpOk(b, addr.ip);
    }
    assert b.nIdCount in b.mapInfo ==> AddrOk(b, b.nIdCount);
  }

  lemma AddStats(h: Hashes, s: State, op: Op, t: State, id: Id)
    requires op.Add? && Step(h, s, op, t) && Valid(h, s.book) && id in s.book.mapInfo && id in t.book.mapInfo
    ensures var info := s.book.mapInfo[id];
            Stats(t.book.mapInfo[id]) == Stats(if Names(op, info.addr) then Told(info, op, s.nLastGood) else info)
  {
    hide OnlyFewer, IsTerrible, Room, WantsPlace, Refreshed, Valid;
    var b, c := s.book, t.book;
    FoundById(h, b, id, op.addr);
    if op.fRoutable {
      if op.addr.ip !in b.mapAddr {
        if Room(b, PlaceFor(h, op.addr, op.source), 0, op.nNow) {
          FewerSame(b.mapInfo, c.mapInfo - {b.nIdCount}, id);
        } else {
          FewerSame(b.mapInfo, c.mapInfo, id);
        }
      } else {
        var k := b.mapAddr[op.addr.ip];
        var d := WithInfo(b, k, Refreshed(b.mapInfo[k], op.nServices, op.nTime, op.nTimePenalty, op.nNow));
        if WantsPlace(d.mapInfo[k], op.nTime, op.nRnd) {
          FewerSame(d.mapInfo, c.mapInfo, id);
        }
      }
    }
  }

  lemma GoodStats(h: Hashes, s: State, op: Op, t: State, id: Id)
    requires op.Good? && Step(h, s, op, t) && Valid(h, s.book) && id in s.book.mapInfo && id in t.book.mapInfo
    ensures var info := s.book.mapInfo[id];
            Stats(t.book.mapInfo[id]) == Stats(if info.addr == op.addr then Succeeded(info, op.nTime) else info)
  {
    hide OnlyFewer, TriedLeavesNew, Hashes.TriedSlot, ReturnSlot, Valid;
    var b, c := s.book, t.book;
    FoundById(h, b, id, op.addr);
    if Knows(b, op.addr) {
      var k := b.mapAddr[op.addr.ip];
      var d := WithInfo(b, k, Succeeded(b.mapInfo[k], op.nTime));
      if !b.mapInfo[k].fInTried {
        FewerSame(TriedLeavesInfo(h, d, k), c.mapInfo, id);
      }
    }
  }

  lemma OrderStats(b: Book, c: Book, id: Id)
    requires SameButOrder(b, c) && id in b.mapInfo
    ensures id in c.mapInfo && Stats(c.mapInfo[id]) == Stats(b.mapInfo[id])
  {
    assert id in b.mapInfo.Keys;
    var x, y := c.mapInfo[id].(nRandomPos := 0), b.mapInfo[id].(nRandomPos := 0);
    assert x == y && Stats(x) == Stats(c.mapInfo[id]) && Stats(y) == Stats(b.mapInfo[id]);
  }

  // An operation changes the statistics of the address it is about, and no others.
  lemma StepStats(h: Hashes, s: State, op: Op, t: State, id: Id)
    requires Step(h, s, op, t) && Valid(h, s.book) && id in s.book.mapInfo && id in t.book.mapInfo
    ensures var info := s.book.mapInfo[id];
            Stats(t.book.mapInfo[id]) == Stats(if Names(op, info.addr) then Told(info, op, s.nLastGood) else info)
  {
    hide AddStep, GoodStep, SameButOrder, Succeeded, Refreshed, Attempted, Valid;
    match op
    case Add(_, _, _, _, _, _, _, _) => AddStats(h, s, op, t, id);
    case Good(_, _, _) => GoodStats(h, s, op, t, id);
    case Attempt(addr, _, _) => FoundById(h, s.book, id, addr);
    case Connected(addr, _) => FoundById(h, s.book, id, addr);
    case GetAddr(_) => OrderStats(s.book, t.book, id);
  }

  // The step at one point of a run.
  lemma RunStep(h: Hashes, ops: seq<Op>, trace: seq<State>, k: nat, id: Id)
    requires IsRun(h, ops, trace) && k < |ops| && id in trace[k].book.mapInfo && id in trace[k + 1].book.mapInfo
    ensures Valid(h, trace[k].book) && Step(h, trace[k], ops[k], trace[k + 1])
    ensures var info := trace[k].book.mapInfo[id];
            Stats(trace[k + 1].book.mapInfo[id])
            == Stats(if Names(ops[k], info.addr) then Told(info, ops[k], trace[k].nLastGood) else info)
  {
    hide Step, Valid, Stats, Told, Names;
    StepStats(h, trace[k], ops[k], trace[k + 1], id);
  }

  // ------------------------------------------------------------ counted failures

  // A failed attempt on this address that is to be counted.
  predicate Blames(op: Op, addr: Service) {
    op.Attempt? && op.fCountFailure && op.addr == addr
  }

  ghost predicate BlamedWithin(ops: seq<Op>, i: nat, j: nat, addr: Service)
    requires j <= |ops|
  {
    exists k :: i <= k < j && Blames(ops[k], addr)
  }

  // Between two successes, whoever they are with, an address gets at most one
  // failure counted, however often it fails: one if it failed at all and none was
  // counted since the success before.
  lemma {:induction false} CountedOnce(h: Hashes, ops: seq<Op>, trace: seq<State>, i: nat, j: nat, id: Id)
    requires IsRun(h, ops, trace) && i <= j <= |ops| && KnownThroughout(trace, i, j, id)
    requires forall k :: i <= k < j ==> !ops[k].Good? && (ops[k].Attempt? ==> ops[k].nTime >= trace[i].nLastGood)
    ensures trace[j].nLastGood == trace[i].nLastGood
    ensures var a, b := trace[i].book.mapInfo[id], trace[j].book.mapInfo[id];
            var counted := a.nLastCountAttempt < trace[i].nLastGood && BlamedWithin(ops, i, j, a.addr);
            && b.addr == a.addr && b.nLastSuccess == a.nLastSuccess
            && b.nAttempts == a.nAttempts + (if counted then 1 else 0)
            && (b.nLastCountAttempt < trace[j].nLastGood <==> a.nLastCountAttempt < trace[i].nLastGood && !counted)
    decreases j
  {
    hide Step, Valid, Refreshed;
    if i < j {
      CountedOnce(h, ops, trace, i, j - 1, id);
      RunStep(h, ops, trace, j - 1, id);
      LastGoodStays(h, trace[j - 1], ops[j - 1], trace[j]);
      StatsCount(trace[j - 1].book.mapInfo[id], ops[j - 1], trace[j - 1].nLastGood, trace[j].book.mapInfo[id]);
      var addr := trace[i].book.mapInfo[id].addr;
      assert BlamedWithin(ops, i, j, addr) <==> BlamedWithin(ops, i, j - 1, addr) || Blames(ops[j - 1], addr);
    }
  }

  lemma LastGoodStays(h: Hashes, s: State, op: Op, t: State)
    requires Step(h, s, op, t)
    ensures t.nLastGood == if op.Good? then op.nTime else s.nLastGood
  {
  }

  // What one operation does to the count.
  lemma StatsCount(info: Info, op: Op, nLastGood: int, after: Info)
    requires !op.Good?
    requires Stats(after) == Stats(if Names(op, info.addr) then Told(info, op, nLastGood) else info)
    ensures var counts := Blames(op, info.addr) && info.nLastCountAttempt < nLastGood;
            && after.addr == info.addr && after.nLastSuccess == info.nLastSuccess
            && after.nAttempts == info.nAttempts + (if counts then 1 else 0)
            && after.nLastCountAttempt == (if counts then op.nTime else info.nLastCountAttempt)
  {
    StatsAre(after);
    StatsAre(if Names(op, info.addr) then Told(info, op, nLastGood) else info);
  }

  lemma StatsAre(info: Info)
    ensures var s := Stats(info);
            && s.addr == info.addr && s.nServices == info.nServices && s.nTime == info.nTime
            && s.nLastTry == info.nLastTry && s.nLastCountAttempt == info.nLastCountAttempt
            && s.nLastSuccess == info.nLastSuccess && s.nAttempts == info.nAttempts
  {
  }

  // -------------------------------------------------------------- after a success

  lemma SuccessSet(info: Info, op: Op, nLastGood: int, after: Info)
    requires Stats(after) == Stats(if Names(op, info.addr) then Told(info, op, nLastGood) else info)
    ensures after.addr == info.addr
    ensures after.nLastSuccess == if op.Good? && op.addr == info.addr then op.nTime else info.nLastSuccess
  {
    StatsAre(after);
    StatsAre(if Names(op, info.addr) then Told(info, op, nLastGood) else info);
  }

  // For a week after a success an address is not terrible, whatever attempts fail,
  // unless when it was last seen is in the future or more than 30 days ago.
  lemma {:induction false} GoodForAWeek(h: Hashes, ops: seq<Op>, trace: seq<State>, i: nat, j: nat, id: Id)
    requires IsRun(h, ops, trace) && i < j <= |ops| && KnownThroughout(trace, i, j, id)
    requires ops[i].Good? && ops[i].addr == trace[i].book.mapInfo[id].addr && ops[i].nTime > 0
    requires forall k :: i < k < j && ops[k].Good? ==> ops[k].nTime >= ops[i].nTime
    ensures trace[j].book.mapInfo[id].addr == ops[i].addr && trace[j].book.mapInfo[id].nLastSuccess >= ops[i].nTime
    ensures forall nNow :: nNow - ops[i].nTime <= 7 * 24 * 60 * 60 && IsTerrible(trace[j].book.mapInfo[id], nNow) ==>
              var nTime := trace[j].book.mapInfo[id].nTime;
              nTime == 0 || nTime > nNow + 10 * 60 || nNow - nTime > 30 * 24 * 60 * 60
    decreases j
  {
    hide Step, Valid, Refreshed;
    RunStep(h, ops, trace, j - 1, id);
    SuccessSet(trace[j - 1].book.mapInfo[id], ops[j - 1], trace[j - 1].nLastGood, trace[j].book.mapInfo[id]);
    if i < j - 1 {
      GoodForAWeek(h, ops, trace, i, j - 1, id);
    }
  }

  // A success forgives the failures before it.
  lemma SuccessForgives(h: Hashes, ops: seq<Op>, trace: seq<State>, k: nat, id: Id)
    requires IsRun(h, ops, trace) && k < |ops| && id in trace[k].book.mapInfo && id in trace[k + 1].book.mapInfo
    requires ops[k].Good? && ops[k].addr == trace[k].book.mapInfo[id].addr
    ensures var b := trace[k + 1].book.mapInfo[id];
            b.nAttempts == 0 && b.nLastSuccess == b.nLastTry == ops[k].nTime
  {
    hide Step, Valid;
    RunStep(h, ops, trace, k, id);
    var info := trace[k].book.mapInfo[id];
    StatsAre(trace[k + 1].book.mapInfo[id]);
    StatsAre(Told(info, ops[k], trace[k].nLastGood));
  }

  // --------------------------------------------------------------- after failures

  // No success with this address.
  ghost predicate NoSuccess(ops: seq<Op>, i: nat, j: nat, addr: Service)
    requires j <= |ops|
  {
    forall k :: i <= k < j && ops[k].Good? ==> ops[k].addr != addr
  }

  // An attempt that is counted.
  ghost predicate CountedAt(ops: seq<Op>, trace: seq<State>, k: nat, id: Id)
    requires k < |ops| && k < |trace| && id in trace[k].book.mapInfo
  {
    var info := trace[k].book.mapInfo[id];
    Blames(ops[k], info.addr) && info.nLastCountAttempt < trace[k].nLastGood
  }

  lemma FailureCounted(info: Info, op: Op, nLastGood: int, after: Info)
    requires Stats(after) == Stats(if Names(op, info.addr) then Told(info, op, nLastGood) else info)
    requires !(op.Good? && op.addr == info.addr)
    ensures after.addr == info.addr && after.nLastSuccess == info.nLastSuccess
    ensures after.nAttempts
            == info.nAttempts + if Blames(op, info.addr) && info.nLastCountAttempt < nLastGood then 1 else 0
  {
    if op.Good? {
      StatsAre(after);
      StatsAre(info);
    } else {
      StatsCount(info, op, nLastGood, after);
    }
  }

  lemma {:induction false} AttemptsGrow(h: Hashes, ops: seq<Op>, trace: seq<State>, i: nat, j: nat, id: Id)
    requires IsRun(h, ops, trace) && i <= j <= |ops| && KnownThroughout(trace, i, j, id)
    requires NoSuccess(ops, i, j, trace[i].book.mapInfo[id].addr)
    ensures var a, b := trace[i].book.mapInfo[id], trace[j].book.mapInfo[id];
            && b.addr == a.addr && b.nLastSuccess == a.nLastSuccess
            && b.nAttempts >= a.nAttempts + if i < j && CountedAt(ops, trace, i, id) then 1 else 0
    decreases j
  {
    hide Step, Valid, Told, Names, Stats;
    if i < j {
      AttemptsGrow(h, ops, trace, i, j - 1, id);
      RunStep(h, ops, trace, j - 1, id);
      FailureCounted(trace[j - 1].book.mapInfo[id], ops[j - 1], trace[j - 1].nLastGood, trace[j].book.mapInfo[id]);
    }
  }

  // An address that never answered, and failed three times to be counted, is terrible
  // a minute after the last attempt.
  lemma ThreeFailures(h: Hashes, ops: seq<Op>, trace: seq<State>, i: nat, k: nat, l: nat, j: nat, id: Id, nNow: int)
    requires IsRun(h, ops, trace) && i < k < l < j <= |ops| && KnownThroughout(trace, i, j, id)
    requires NoSuccess(ops, i, j, trace[i].book.mapInfo[id].addr) && trace[i].book.mapInfo[id].nLastSuccess == 0
    requires trace[j].book.mapInfo[id].nLastTry < nNow - 60
    requires CountedAt(ops, trace, i, id) && CountedAt(ops, trace, k, id) && CountedAt(ops, trace, l, id)
    ensures IsTerrible(trace[j].book.mapInfo[id], nNow)
  {
    hide Step, Valid, CountedAt;
    NotNegative(h, ops, trace, i, id);
    AttemptsGrow(h, ops, trace, i, k, id);
    AttemptsGrow(h, ops, trace, k, l, id);
    AttemptsGrow(h, ops, trace, l, j, id);
  }

  // With less, or within a week of an answer, it is not, if it was seen lately.
  lemma FewFailures(info: Info, nNow: int)
    requires 0 < info.nTime <= nNow + 10 * 60 && nNow - info.nTime <= 30 * 24 * 60 * 60
    requires info.nAttempts < 3 || (info.nLastSuccess > 0 && info.nAttempts < 10)
    ensures !IsTerrible(info, nNow)
  {
  }

  // ------------------------------------------------------------ what only grows

  predicate Grows(a: Info, b: Info) {
    a.nTime <= b.nTime && WithServices(a.nServices, b.nServices) == b.nServices
  }

  lemma {:induction false} NotNegative(h: Hashes, ops: seq<Op>, trace: seq<State>, k: nat, id: Id)
    requires IsRun(h, ops, trace) && k <= |ops| && id in trace[k].book.mapInfo
    ensures trace[k].book.mapInfo[id].nTime >= 0 && trace[k].book.mapInfo[id].nAttempts >= 0
  {
    hide Step, Valid;
    if k == 0 {
      RunStarts(h, ops, trace);
    } else if id in trace[k - 1].book.mapInfo {
      NotNegative(h, ops, trace, k - 1, id);
      RunStep(h, ops, trace, k - 1, id);
      var info, op := trace[k - 1].book.mapInfo[id], ops[k - 1];
      StatsAre(trace[k].book.mapInfo[id]);
      StatsAre(if Names(op, info.addr) then Told(info, op, trace[k - 1].nLastGood) else info);
      TimeGrows(info, op, trace[k - 1].nLastGood);
      StillNotNegative(info, op, trace[k - 1].nLastGood);
    } else {
      NewTime(h, ops, trace, k, id);
    }
  }

  lemma RunStarts(h: Hashes, ops: seq<Op>, trace: seq<State>)
    requires IsRun(h, ops, trace)
    ensures trace[0].book == EMPTY
  {
  }

  lemma NewTime(h: Hashes, ops: seq<Op>, trace: seq<State>, k: nat, id: Id)
    requires IsRun(h, ops, trace) && 0 < k <= |ops| && id in trace[k].book.mapInfo && id !in trace[k - 1].book.mapInfo
    ensures trace[k].book.mapInfo[id].nTime >= 0 && trace[k].book.mapInfo[id].nAttempts >= 0
  {
    hide Valid, Room, OnlyFewer, IsTerrible, WantsPlace;
    assert Step(h, trace[k - 1], ops[k - 1], trace[k - 1 + 1]);
    StepOrigin(h, trace[k - 1], ops[k - 1], trace[k], id);
    var b, c, op := trace[k - 1].book, trace[k].book, ops[k - 1];
    assert op.Add? && op.fRoutable;
    if op.addr.ip in b.mapAddr {
      var d := WithInfo(b, b.mapAddr[op.addr.ip], Refreshed(b.mapInfo[b.mapAddr[op.addr.ip]], op.nServices, op.nTime,
                                                            op.nTimePenalty, op.nNow));
      FewerKeys(d.mapInfo, c.mapInfo, id);
    } else if !Room(b, PlaceFor(h, op.addr, op.source), 0, op.nNow) {
      FewerKeys(b.mapInfo, c.mapInfo, id);
    } else if id != b.nIdCount {
      FewerKeys(b.mapInfo, c.mapInfo - {b.nIdCount}, id);
    } else {
      assert c.mapInfo[id].(nRandomPos := 0).nTime == c.mapInfo[id].nTime;
      assert c.mapInfo[id].(nRandomPos := 0).nAttempts == c.mapInfo[id].nAttempts;
    }
  }

  lemma FewerKeys(before: map<Id, Info>, after: map<Id, Info>, id: Id)
    requires OnlyFewer(before, after) && id in after
    ensures id in before
  {
  }

  lemma StillNotNegative(info: Info, op: Op, nLastGood: int)
    requires info.nAttempts >= 0
    ensures Told(info, op, nLastGood).nAttempts >= 0
  {
  }

  lemma TimeGrows(info: Info, op: Op, nLastGood: int)
    requires info.nTime >= 0
    ensures Grows(info, Told(info, op, nLastGood)) && Grows(info, info)
  {
    hide WithServices;
    ServicesGrow(info.nServices, if op.Add? then op.nServices else 0, 0);
  }

  lemma ServicesGrow(a: bv64, b: bv64, c: bv64)
    ensures WithServices(a, WithServices(a, b)) == WithServices(a, b) && WithServices(a, a) == a
    ensures WithServices(a, b) == b && WithServices(b, c) == c ==> WithServices(a, c) == c
  {
  }

  lemma StepGrows(h: Hashes, ops: seq<Op>, trace: seq<State>, k: nat, id: Id)
    requires IsRun(h, ops, trace) && k < |ops| && id in trace[k].book.mapInfo && id in trace[k + 1].book.mapInfo
    ensures Grows(trace[k].book.mapInfo[id], trace[k + 1].book.mapInfo[id])
  {
    hide Step, Valid, Told, Names, WithServices, Stats;
    RunStep(h, ops, trace, k, id);
    NotNegative(h, ops, trace, k, id);
    var info := trace[k].book.mapInfo[id];
    TimeGrows(info, ops[k], trace[k].nLastGood);
    StatsAre(trace[k + 1].book.mapInfo[id]);
    StatsAre(if Names(ops[k], info.addr) then Told(info, ops[k], trace[k].nLastGood) else info);
  }

  lemma {:induction false} GrowsThroughout(h: Hashes, ops: seq<Op>, trace: seq<State>, i: nat, j: nat, id: Id)
    requires IsRun(h, ops, trace) && i <= j <= |ops| && KnownThroughout(trace, i, j, id)
    ensures Grows(trace[i].book.mapInfo[id], trace[j].book.mapInfo[id])
    decreases j
  {
    hide Step, Valid, WithServices;
    var a, b := trace[i].book.mapInfo[id], trace[j].book.mapInfo[id];
    if i == j {
      ServicesGrow(a.nServices, 0, 0);
    } else {
      GrowsThroughout(h, ops, trace, i, j - 1, id);
      StepGrows(h, ops, trace, j - 1, id);
      ServicesGrow(a.nServices, trace[j - 1].book.mapInfo[id].nServices, b.nServices);
    }
  }

  // As long as an address is known, when it was last seen never goes back, and
  // no service it was heard to offer is forgotten.
  lemma NothingUnlearned(h: Hashes, ops: seq<Op>, trace: seq<State>, i: nat, j: nat, id: Id)
    requires IsRun(h, ops, trace) && i <= j <= |ops| && KnownThroughout(trace, i, j, id)
    ensures var a, b := trace[i].book.mapInfo[id], trace[j].book.mapInfo[id];
            a.nTime <= b.nTime && a.nServices | b.nServices == b.nServices
  {
    hide Step, Valid, WithServices;
    GrowsThroughout(h, ops, trace, i, j, id);
    ServicesJoined(trace[i].book.mapInfo[id].nServices, trace[j].book.mapInfo[id].nServices);
  }

  lemma ServicesJoined(a: bv64, b: bv64)
    ensures WithServices(a, b) == a | b
  {
  }

  // A known address that was connected to counts as seen within the last 20 minutes.
  lemma ConnectedIsRecent(h: Hashes, ops: seq<Op>, trace: seq<State>, k: nat, id: Id)
    requires IsRun(h, ops, trace) && k < |ops| && id in trace[k].book.mapInfo
    requires ops[k].Connected? && ops[k].addr == trace[k].book.mapInfo[id].addr
    ensures id in trace[k + 1].book.mapInfo && ops[k].nTime - trace[k + 1].book.mapInfo[id].nTime <= 20 * 60
  {
    hide Valid;
    assert Step(h, trace[k], ops[k], trace[k + 1]);
    RunStep(h, ops, trace, k, id);
    StatsAre(trace[k + 1].book.mapInfo[id]);
    var info := trace[k].book.mapInfo[id];
    StatsAre(Told(info, ops[k], trace[k].nLastGood));
  }

  // Hearing of a known address again: all services heard are known afterwards, and
  // it counts as seen at the time before or at the one heard less the penalty,
  // at most a day earlier than heard, or an hour if it was heard to be online.
  lemma HeardIsKept(h: Hashes, ops: seq<Op>, trace: seq<State>, k: nat, id: Id)
    requires IsRun(h, ops, trace) && k < |ops| && id in trace[k].book.mapInfo && id in trace[k + 1].book.mapInfo
    requires ops[k].Add? && ops[k].fRoutable && ops[k].addr.ip == trace[k].book.mapInfo[id].addr.ip
    ensures var a, b, op := trace[k].book.mapInfo[id], trace[k + 1].book.mapInfo[id], ops[k];
            var less := op.nTime - op.nTimePenalty;
            && b.nServices == a.nServices | op.nServices
            && (b.nTime == a.nTime || b.nTime == if less > 0 then less else 0)
            && (op.nTime != 0 ==> b.nTime >= less - 24 * 60 * 60)
            && (op.nTime != 0 && op.nNow - op.nTime < 24 * 60 * 60 ==> b.nTime >= less - 60 * 60)
  {
    hide Step, Valid, WithServices;
    RunStep(h, ops, trace, k, id);
    NotNegative(h, ops, trace, k, id);
    var info := trace[k].book.mapInfo[id];
    StatsAre(trace[k + 1].book.mapInfo[id]);
    StatsAre(Told(info, ops[k], trace[k].nLastGood));
    ServicesJoined(info.nServices, ops[k].nServices);
  }

  // ---------------------------------------------------------- what becomes known

  // An unknown address whose source leads to a free slot takes it.
  lemma FreeSlotTaken(h: Hashes, ops: seq<Op>, trace: seq<State>, k: nat)
    requires IsRun(h, ops, trace) && k < |ops| && ops[k].Add? && ops[k].fRoutable
    requires ops[k].addr.ip !in trace[k].book.mapAddr
    requires PlaceFor(h, ops[k].addr, ops[k].source) !in trace[k].book.vvNew
    ensures var c, op := trace[k + 1].book, ops[k];
            && Knows(c, op.addr)
            && PlaceFor(h, op.addr, op.source) in c.vvNew
            && c.vvNew[PlaceFor(h, op.addr, op.source)] == c.mapAddr[op.addr.ip]
            && c.mapInfo[c.mapAddr[op.addr.ip]].nAttempts == 0
            && c.mapInfo[c.mapAddr[op.addr.ip]].nLastSuccess == 0
  {
    hide Valid, OnlyFewer, PlaceFor, IsTerrible;
    assert Step(h, trace[k], ops[k], trace[k + 1]);
    var c := trace[k + 1].book;
    var id := trace[k].book.nIdCount;
    assert c.mapInfo[id].(nRandomPos := 0).addr == c.mapInfo[id].addr;
    assert c.mapInfo[id].(nRandomPos := 0).nAttempts == c.mapInfo[id].nAttempts;
    assert c.mapInfo[id].(nRandomPos := 0).nLastSuccess == c.mapInfo[id].nLastSuccess;
  }

  // Of any 2^n draws in a row exactly one lets an address with n places ask for one
  // more, as long as it has less than eight and something new was heard.
  lemma OneDrawInMany(info: Info, nTime: nat, first: nat) returns (draw: nat)
    requires nTime != 0 && (info.nTime == 0 || nTime > info.nTime) && !info.fInTried && 0 <= info.nRefCount < 8
    ensures first <= draw < first + Pow2(info.nRefCount) && WantsPlace(info, nTime, draw)
    ensures forall d :: first <= d < first + Pow2(info.nRefCount) && WantsPlace(info, nTime, d) ==> d == draw
  {
    hide Pow2;
    var p := Pow2(info.nRefCount);
    var q := (first + p - 1) / p;
    draw := q * p;
    Floor(first + p - 1, p, q);
    Remainder(draw, p, q, 0);
    forall d: nat | first <= d < first + p && d % p == 0 ensures d == draw {
      DivMod(d, p);
      if d / p < q {
        MulMonotone(d / p + 1, q, p);
        Distribute(d / p, 1, p);
      } else if d / p > q {
        MulMonotone(q + 1, d / p, p);
        Distribute(q, 1, p);
      }
    }
    if info.nRefCount == 0 {
      assert p == 1 by {
        OnePlace();
      }
    }
  }

  lemma OnePlace()
    ensures Pow2(0) == 1
  {
  }

  // A known address that is marked as good is tried afterwards, in its slot. What
  // was there is known still, but not tried any more, and no address is forgotten
  // but one that had its only place where that went.
  lemma GoodIsTried(h: Hashes, ops: seq<Op>, trace: seq<State>, k: nat)
    requires IsRun(h, ops, trace) && k < |ops| && ops[k].Good? && Knows(trace[k].book, ops[k].addr)
    ensures var b, c := trace[k].book, trace[k + 1].book;
            var id, s := b.mapAddr[ops[k].addr.ip], h.TriedSlot(ops[k].addr);
            && id in c.mapInfo && c.mapInfo[id].fInTried && s in c.vvTried && c.vvTried[s] == id
            && (s in b.vvTried && b.vvTried[s] != id ==>
                  b.vvTried[s] in c.mapInfo && !c.mapInfo[b.vvTried[s]].fInTried)
            && (forall other :: other in b.mapInfo && other !in c.mapInfo ==>
                  && s in b.vvTried && b.vvTried[s] in b.mapInfo
                  && var place := ReturnSlot(h, b.mapInfo[b.vvTried[s]]);
                     place in b.vvNew && b.vvNew[place] == other && b.mapInfo[other].nRefCount == 1)
  {
    hide Valid, OnlyFewer, Hashes.TriedSlot, ReturnSlot;
    assert Step(h, trace[k], ops[k], trace[k + 1]);
    var b, c, addr := trace[k].book, trace[k + 1].book, ops[k].addr;
    var id := b.mapAddr[addr.ip];
    InItsSlot(h, c, id);
    if b.mapInfo[id].fInTried {
      InItsSlot(h, b, id);
    } else {
      StepMoves(h, b, c, addr, ops[k].nTime);
      Displaced(h, b, c, id);
      forall other | other in b.mapInfo && other !in c.mapInfo
        ensures var s := h.TriedSlot(addr);
                && s in b.vvTried && b.vvTried[s] in b.mapInfo
                && var place := ReturnSlot(h, b.mapInfo[b.vvTried[s]]);
                   place in b.vvNew && b.vvNew[place] == other && b.mapInfo[other].nRefCount == 1
      {
        OneForgotten(h, b, c, id, other);
      }
    }
  }

  // An id has become tried, as far as the tables go.
  predicate Moved(h: Hashes, b: Book, c: Book, id: Id) {
    && id in b.mapInfo && !b.mapInfo[id].fInTried
    && c.vvTried == b.vvTried[h.TriedSlot(b.mapInfo[id].addr) := id] && c.vvNew == TriedLeavesNew(h, b, id)
  }

  lemma StepMoves(h: Hashes, b: Book, c: Book, addr: Service, nTime: int)
    requires Knows(b, addr) && !b.mapInfo[b.mapAddr[addr.ip]].fInTried && GoodStep(h, b, c, addr, nTime)
    ensures Moved(h, b, c, b.mapAddr[addr.ip])
  {
    hide OnlyFewer, Hashes.TriedSlot, Hashes.NewSlot, Hashes.GetNewBucket, Without;
    var id := b.mapAddr[addr.ip];
    var d := WithInfo(b, id, Succeeded(b.mapInfo[id], nTime));
    assert TriedLeavesNew(h, d, id) == TriedLeavesNew(h, b, id);
  }

  lemma InItsSlot(h: Hashes, b: Book, id: Id)
    requires Valid(h, b) && id in b.mapInfo && b.mapInfo[id].fInTried
    ensures var s := h.TriedSlot(b.mapInfo[id].addr); s in b.vvTried && b.vvTried[s] == id
  {
    hide AddrsOk, RandomOk, NewOk, RefsOk, Hashes.TriedSlot;
    assert TriedIdOk(h, b, id);
  }

  lemma HeldInTried(h: Hashes, b: Book, s: Slot)
    requires Valid(h, b) && s in b.vvTried
    ensures b.vvTried[s] in b.mapInfo && b.mapInfo[b.vvTried[s]].fInTried
    ensures s == h.TriedSlot(b.mapInfo[b.vvTried[s]].addr)
  {
    hide AddrsOk, RandomOk, NewOk, RefsOk, Hashes.TriedSlot;
    assert TriedSlotOk(h, b, s);
  }

  // What was in the tried slot has gone to its place in the new table.
  lemma Displaced(h: Hashes, b: Book, c: Book, id: Id)
    requires Valid(h, b) && Valid(h, c) && Moved(h, b, c, id)
    ensures var s := h.TriedSlot(b.mapInfo[id].addr);
            s in b.vvTried ==>
              && b.vvTried[s] != id && b.vvTried[s] in b.mapInfo
              && b.vvTried[s] in c.mapInfo && !c.mapInfo[b.vvTried[s]].fInTried
  {
    hide Consistent, Hashes.TriedSlot, ReturnSlot, Without;
    var s := h.TriedSlot(b.mapInfo[id].addr);
    if s in b.vvTried {
      HeldInTried(h, b, s);
      var place := ReturnSlot(h, b.mapInfo[b.vvTried[s]]);
      assert place in c.vvNew && c.vvNew[place] == b.vvTried[s];
      KnownMeansHeld(h, c, b.vvTried[s]);
      NotBoth(h, c, place);
    }
  }

  lemma NotBoth(h: Hashes, b: Book, s: Slot)
    requires Valid(h, b) && s in b.vvNew
    ensures b.vvNew[s] in b.mapInfo && !b.mapInfo[b.vvNew[s]].fInTried
  {
    hide AddrsOk, RandomOk, TriedOk, Hashes.NewSlot;
    assert NewSlotOk(h, b, s);
    assert RefOk(b, {}, b.vvNew[s]);
    assert s in Refs(b.vvNew, b.vvNew[s]);
  }

  lemma OneForgotten(h: Hashes, b: Book, c: Book, id: Id, other: Id)
    requires Valid(h, b) && Valid(h, c) && Moved(h, b, c, id) && id in c.mapInfo
    requires other in b.mapInfo && other !in c.mapInfo
    ensures var s := h.TriedSlot(b.mapInfo[id].addr);
            && s in b.vvTried && b.vvTried[s] in b.mapInfo
            && var place := ReturnSlot(h, b.mapInfo[b.vvTried[s]]);
               place in b.vvNew && b.vvNew[place] == other && b.mapInfo[other].nRefCount == 1
  {
    hide Consistent, Hashes.TriedSlot, ReturnSlot;
    var s := h.TriedSlot(b.mapInfo[id].addr);
    KnownMeansHeld(h, b, other);
    KnownMeansHeld(h, c, other);
    Displaced(h, b, c, id);
    assert forall k :: k in b.vvTried && k != s ==> c.vvTried[k] == b.vvTried[k];
    var k :| k in b.vvNew && b.vvNew[k] == other;
    assert k in Without(b.vvNew, id) && Without(b.vvNew, id)[k] == other;
    var place := ReturnSlot(h, b.mapInfo[b.vvTried[s]]);
    assert forall x :: x in b.vvNew && b.vvNew[x] != id && x != place ==> x in c.vvNew && c.vvNew[x] == b.vvNew[x];
    assert k == place;
    RefsAre(h, b, other);
    assert Refs(b.vvNew, other) == {place};
  }

  // ------------------------------------------------------------- what is forgotten

  // An address that is not terrible loses no more than one of several places to
  // another, so it stays known.
  lemma OnePlaceLost(h: Hashes, b: Book, c: Book, s: Slot, holder: Id, nRefs: int, nNow: int, id: Id)
    requires Valid(h, b) && Valid(h, c) && id in b.mapInfo && !IsTerrible(b.mapInfo[id], nNow)
    requires c.vvTried == b.vvTried && c.vvNew == (if Room(b, s, nRefs, nNow) then b.vvNew[s := holder] else b.vvNew)
    ensures id in c.mapInfo
  {
    hide Consistent, IsTerrible;
    KnownMeansHeld(h, b, id);
    KnownMeansHeld(h, c, id);
    if k :| k in b.vvTried && b.vvTried[k] == id {
      assert c.vvTried[k] == id;
    } else if k :| k in b.vvNew && b.vvNew[k] == id && k != s {
      assert c.vvNew[k] == id;
    } else {
      assert s in b.vvNew && b.vvNew[s] == id;
      RefsAre(h, b, id);
      assert Refs(b.vvNew, id) == {s};
    }
  }

  lemma RefsAre(h: Hashes, b: Book, id: Id)
    requires Valid(h, b) && id in b.mapInfo
    ensures b.mapInfo[id].nRefCount == |Refs(b.vvNew, id)|
  {
    hide AddrsOk, RandomOk, TriedOk, NewOk;
    assert RefOk(b, {}, id);
  }

  lemma RefreshValid(h: Hashes, b: Book, id: Id, info: Info)
    requires Valid(h, b) && id in b.mapInfo && SamePlace(info, b.mapInfo[id])
    requires StatsOk(b.mapInfo[id]) ==> StatsOk(info)
    ensures Valid(h, WithInfo(b, id, info))
  {
    hide Consistent;
    StatsThere(h, b, {}, 0, id);
    StatsChange(h, b, {}, 0, id, info);
  }

  // Adding addresses never forgets one that is not terrible at the time.
  lemma AddForgetsNone(h: Hashes, s: State, op: Op, t: State, id: Id)
    requires op.Add? && Step(h, s, op, t) && Valid(h, s.book) && Valid(h, t.book)
    requires id in s.book.mapInfo && !IsTerrible(s.book.mapInfo[id], op.nNow)
    ensures id in t.book.mapInfo
  {
    hide OnlyFewer, IsTerrible, Room, WantsPlace, Refreshed, Valid, SamePlace, StatsOk;
    var b, c := s.book, t.book;
    FoundById(h, b, id, op.addr);
    if op.fRoutable {
      if op.addr.ip !in b.mapAddr {
        OnePlaceLost(h, b, c, PlaceFor(h, op.addr, op.source), b.nIdCount, 0, op.nNow, id);
      } else {
        var k := b.mapAddr[op.addr.ip];
        var info := Refreshed(b.mapInfo[k], op.nServices, op.nTime, op.nTimePenalty, op.nNow);
        var d := WithInfo(b, k, info);
        if k != id && WantsPlace(info, op.nTime, op.nRnd) {
          Manager.AddrMan.RefreshedKeeps(b.mapInfo[k], op.nServices, op.nTime, op.nTimePenalty, op.nNow);
          RefreshValid(h, b, k, info);
          OnePlaceLost(h, d, c, PlaceFor(h, d.mapInfo[k].addr, op.source), k, d.mapInfo[k].nRefCount, op.nNow, id);
        }
      }
    }
  }

  // Only a success elsewhere can push out an address that is not terrible: in any
  // stretch without one it stays known.
  lemma {:induction false} NotForgotten(h: Hashes, ops: seq<Op>, trace: seq<State>, i: nat, j: nat, id: Id)
    requires IsRun(h, ops, trace) && i <= j <= |ops| && id in trace[i].book.mapInfo
    requires forall k :: i <= k < j ==> !ops[k].Good?
    requires forall k :: i <= k < j && ops[k].Add? && id in trace[k].book.mapInfo ==>
               !IsTerrible(trace[k].book.mapInfo[id], ops[k].nNow)
    ensures KnownThroughout(trace, i, j, id)
    decreases j
  {
    hide Valid, AddStep, IsTerrible;
    if i < j {
      NotForgotten(h, ops, trace, i, j - 1, id);
      assert Step(h, trace[j - 1], ops[j - 1], trace[j - 1 + 1]);
      if ops[j - 1].Add? {
        AddForgetsNone(h, trace[j - 1], ops[j - 1], trace[j], id);
      } else if ops[j - 1].GetAddr? {
        assert id in trace[j - 1].book.mapInfo.Keys;
      }
    }
  }
}
