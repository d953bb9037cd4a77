// Any sequence of operations on the address manager, as a run of steps.
module AddrRun {
  import opened AddrBook
  import opened AddrSteps
  import AddrCheck
  import Manager = AddrMan

  // The draws of the random generator and the clock are part of the operation.
  datatype Op =
    | Add(addr: Service, nServices: bv64, nTime: nat, source: NetAddr, nTimePenalty: int,
          fRoutable: bool, nNow: int, nRnd: nat)
    | Good(addr: Service, nTime: nat, nRnd: nat)
    | Attempt(addr: Service, fCountFailure: bool, nTime: nat)
    | Connected(addr: Service, nTime: nat)
    | GetAddr(nNow: int)

  // Success is never reported at the epoch itself, which means "never".
  predicate Timely(op: Op) {
    op.Good? ==> op.nTime > 0
  }

  datatype State = State(book: Book, nLastGood: int)

  // What one operation makes of a state.
  predicate Step(h: Hashes, s: State, op: Op, t: State) {
    match op
    case Add(addr, nServices, nTime, source, nTimePenalty, fRoutable, nNow, nRnd) =>
      && AddStep(h, s.book, t.book, addr, nServices, nTime, source, nTimePenalty, fRoutable, nNow, nRnd)
      && t.nLastGood == s.nLastGood
    case Good(addr, nTime, _) => GoodStep(h, s.book, t.book, addr, nTime) && t.nLastGood == nTime
    case Attempt(addr, fCountFailure, nTime) =>
      t == State(AfterAttempt(s.book, addr, fCountFailure, nTime, s.nLastGood), s.nLastGood)
    case Connected(addr, nTime) => t == State(AfterConnected(s.book, addr, nTime), s.nLastGood)
    case GetAddr(_) => SameButOrder(s.book, t.book) && t.nLastGood == s.nLastGood
  }

  // From the empty manager, one consistent state after every operation.
  ghost predicate IsRun(h: Hashes, ops: seq<Op>, trace: seq<State>) {
    && |trace| == |ops| + 1 && trace[0] == State(EMPTY, 1)
    && (forall i :: 0 <= i < |ops| ==> Step(h, trace[i], ops[i], trace[i + 1]))
    && (forall i :: 0 <= i < |trace| ==> AddrBook.Valid(h, trace[i].book))
  }

  // Every operation takes the step it should, every state on the way is
  // consistent, and in the end the self-check passes.
  method Run(hashes: Hashes, ops: seq<Op>)
    returns (m: Manager.AddrMan, code: int, ghost trace: seq<State>)
    requires forall i :: 0 <= i < |ops| ==> Timely(ops[i])
    ensures fresh(m) && m.Valid() && m.hashes == hashes && code == 0
    ensures IsRun(hashes, ops, trace) && trace[|ops|] == State(m.Contents(), m.nLastGood)
  {
    hide AddrBook.Valid, AddrCheck.Passes, AddrCheck.InArrays, AddStep, GoodStep, AfterAttempt, AfterConnected,
         SameButOrder;
    m := new Manager.AddrMan(hashes);
    trace := [State(m.Contents(), m.nLastGood)];
    assert ops[..0] == [];
    for i := 0 to |ops|
      invariant fresh(m) && m.Valid() && m.hashes == hashes
      invariant IsRun(hashes, ops[..i], trace) && trace[i] == State(m.Contents(), m.nLastGood)
    {
      ghost var before := trace;
      match ops[i] {
        case Add(addr, nServices, nTime, source, nTimePenalty, fRoutable, nNow, nRnd) =>
          var fNew := m.Add_(addr, nServices, nTime, source, nTimePenalty, fRoutable, nNow, nRnd);
        case Good(addr, nTime, nRnd) => m.Good_(addr, nTime, nRnd);
        case Attempt(addr, fCountFailure, nTime) => m.Attempt_(addr, fCountFailure, nTime);
        case Connected(addr, nTime) => m.Connected_(addr, nTime);
        case GetAddr(nNow) => var vAddr, ids := m.GetAddr_(nNow);
      }
      trace := before + [State(m.Contents(), m.nLastGood)];
      OneMoreStep(hashes, ops[..i], before, ops[i], trace[i + 1]);
      assert ops[..i] + [ops[i]] == ops[..i + 1];
    }
    assert ops[..|ops|] == ops;
    AddrCheck.ValidPasses(hashes, m.Contents());
    code := AddrCheck.Check_(hashes, m.Contents(), false);
  }

  lemma OneMoreStep(h: Hashes, ops: seq<Op>, trace: seq<State>, op: Op, t: State)
    requires IsRun(h, ops, trace) && Step(h, trace[|ops|], op, t) && AddrBook.Valid(h, t.book)
    ensures IsRun(h, ops + [op], trace + [t])
  {
    hide Step, AddrBook.Valid;
    var longer, all := trace + [t], ops + [op];
    forall i | 0 <= i < |all| ensures Step(h, longer[i], all[i], longer[i + 1]) {
      if i < |ops| {
        assert longer[i] == trace[i] && longer[i + 1] == trace[i + 1] && all[i] == ops[i];
      }
    }
  }

  // --------------------------------------------------- where entries come from

  predicate Heard(ops: seq<Op>, addr: Service) {
    exists i :: 0 <= i < |ops| && ops[i].Add? && ops[i].fRoutable && ops[i].addr == addr
  }

  predicate Praised(ops: seq<Op>, addr: Service) {
    exists i :: 0 <= i < |ops| && ops[i].Good? && ops[i].addr == addr
  }

  // An entry was there before, or is the one added; it becomes tried only by
  // being marked as good.
  predicate Continues(s: State, op: Op, t: State, id: Id)
    requires id in t.book.mapInfo
  {
    var info := t.book.mapInfo[id];
    || (op.Add? && op.fRoutable && op.addr == info.addr && !info.fInTried)
    || (id in s.book.mapInfo && s.book.mapInfo[id].addr == info.addr
        && (info.fInTried ==> s.book.mapInfo[id].fInTried || (op.Good? && op.addr == info.addr)))
  }

  lemma SameOrigin(before: map<Id, Info>, after: map<Id, Info>, id: Id)
    requires OnlyFewer(before, after) && id in after
    ensures id in before && before[id].addr == after[id].addr && before[id].fInTried == after[id].fInTried
  {
    assert SameInfo(after[id], before[id]);
    assert after[id].(nRandomPos := 0, nRefCount := 0).addr == after[id].addr;
    assert before[id].(nRandomPos := 0, nRefCount := 0).addr == before[id].addr;
  }

  lemma AddOrigin(h: Hashes, s: State, op: Op, t: State, id: Id)
    requires op.Add? && Step(h, s, op, t) && id in t.book.mapInfo
    ensures Continues(s, op, t, id)
  {
    hide OnlyFewer, IsTerrible, Room, WantsPlace;
    var b, c := s.book, t.book;
    if op.fRoutable {
      if op.addr.ip !in b.mapAddr {
        if id == b.nIdCount && Room(b, PlaceFor(h, op.addr, op.source), 0, op.nNow) {
          assert c.mapInfo[id].(nRandomPos := 0).addr == c.mapInfo[id].addr;
        } else if Room(b, PlaceFor(h, op.addr, op.source), 0, op.nNow) {
          SameOrigin(b.mapInfo, c.mapInfo - {b.nIdCount}, id);
        } else {
          SameOrigin(b.mapInfo, c.mapInfo, id);
        }
      } else {
        var k := b.mapAddr[op.addr.ip];
        var d := WithInfo(b, k, Refreshed(b.mapInfo[k], op.nServices, op.nTime, op.nTimePenalty, op.nNow));
        if WantsPlace(d.mapInfo[k], op.nTime, op.nRnd) {
          SameOrigin(d.mapInfo, c.mapInfo, id);
        }
      }
    }
  }

  lemma StepOrigin(h: Hashes, s: State, op: Op, t: State, id: Id)
    requires Step(h, s, op, t) && id in t.book.mapInfo
    ensures Continues(s, op, t, id)
  {
    hide OnlyFewer, AddStep, TriedLeavesNew;
    var b, c := s.book, t.book;
    if op.Add? {
      AddOrigin(h, s, op, t, id);
    } else if op.Good? && Knows(b, op.addr) {
      var k := b.mapAddr[op.addr.ip];
      var d := WithInfo(b, k, Succeeded(b.mapInfo[k], op.nTime));
      if !b.mapInfo[k].fInTried {
        SameOrigin(TriedLeavesInfo(h, d, k), c.mapInfo, id);
      }
    } else if op.GetAddr? {
      assert id in b.mapInfo.Keys;
      var x, y := c.mapInfo[id].(nRandomPos := 0), b.mapInfo[id].(nRandomPos := 0);
      assert x == y && x.addr == c.mapInfo[id].addr && x.fInTried == c.mapInfo[id].fInTried;
    }
  }

  // At any point of any run, every address known was heard of in a routable
  // addition, and every tried one was marked as good.
  lemma {:induction false} NothingInvented(h: Hashes, ops: seq<Op>, trace: seq<State>, k: nat, id: Id)
    requires IsRun(h, ops, trace) && k <= |ops| && id in trace[k].book.mapInfo
    ensures var info := trace[k].book.mapInfo[id];
            Heard(ops[..k], info.addr) && (info.fInTried ==> Praised(ops[..k], info.addr))
  {
    hide Step, AddrBook.Valid;
    if k > 0 {
      var op, info := ops[k - 1], trace[k].book.mapInfo[id];
      assert Step(h, trace[k - 1], ops[k - 1], trace[k - 1 + 1]);
      StepOrigin(h, trace[k - 1], op, trace[k], id);
      assert ops[..k][k - 1] == op;
      assert forall i :: 0 <= i < k - 1 ==> ops[..k][i] == ops[..k - 1][i];
      if id in trace[k - 1].book.mapInfo {
        NothingInvented(h, ops, trace, k - 1, id);
      }
    }
  }
}
