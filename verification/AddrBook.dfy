// The tables of the address manager and what keeps them consistent.
module AddrBook {
  import opened Coins

  const TRIED_BUCKET_COUNT: nat := 256
  const NEW_BUCKET_COUNT: nat := 1024
  const BUCKET_SIZE: nat := 64
  const NEW_BUCKETS_PER_ADDRESS: nat := 8

  type Id = int
  type NetAddr = nat

  // A network address with a port.
  datatype Service = Service(ip: NetAddr, port: nat)

  // One known address with its statistics.
  datatype Info = Info(
    addr: Service, nServices: bv64, nTime: int, source: NetAddr,
    nLastTry: int, nLastCountAttempt: int, nLastSuccess: int, nAttempts: int,
    nRefCount: int, fInTried: bool, nRandomPos: int)

  // The keyed hashes, which may be any functions.
  datatype Hashes = Hashes(
    tried: Service -> nat,
    groups: (NetAddr, NetAddr) -> nat,
    position: (Service, bool, nat) -> nat)
  {
    function GetTriedBucket(addr: Service): (r: nat)
      ensures r < TRIED_BUCKET_COUNT
    {
      tried(addr) % TRIED_BUCKET_COUNT
    }

    function GetNewBucket(addr: Service, source: NetAddr): (r: nat)
      ensures r < NEW_BUCKET_COUNT
    {
      groups(addr.ip, source) % NEW_BUCKET_COUNT
    }

    function GetBucketPosition(addr: Service, fNew: bool, bucket: nat): (r: nat)
      ensures r < BUCKET_SIZE
    {
      position(addr, fNew, bucket) % BUCKET_SIZE
    }

    function TriedSlot(addr: Service): Slot {
      Slot(GetTriedBucket(addr), GetBucketPosition(addr, false, GetTriedBucket(addr)))
    }

    function NewSlot(addr: Service, bucket: nat): (s: Slot)
      ensures s.bucket == bucket
    {
      Slot(bucket, GetBucketPosition(addr, true, bucket))
    }
  }

  datatype Slot = Slot(bucket: nat, pos: nat)

  // A slot that holds -1 in the program has no entry here.
  type Table = map<Slot, Id>

  datatype Book = Book(
    mapInfo: map<Id, Info>, mapAddr: map<NetAddr, Id>, vRandom: seq<Id>,
    vvTried: Table, vvNew: Table, nTried: int, nNew: int, nIdCount: int)

  const EMPTY := Book(map[], map[], [], map[], map[], 0, 0, 0)

  // ------------------------------------------------------------- consistency

  // Each address has one id.
  predicate AddrOk(b: Book, id: Id)
    requires id in b.mapInfo
  {
    var ip := b.mapInfo[id].addr.ip;
    0 <= id < b.nIdCount && ip in b.mapAddr && b.mapAddr[ip] == id
  }

  predicate IpOk(b: Book, ip: NetAddr)
    requires ip in b.mapAddr
  {
    b.mapAddr[ip] in b.mapInfo && b.mapInfo[b.mapAddr[ip]].addr.ip == ip
  }

  predicate AddrsOk(b: Book) {
    && (forall id {:trigger AddrOk(b, id)} :: id in b.mapInfo ==> AddrOk(b, id))
    && (forall ip {:trigger IpOk(b, ip)} :: ip in b.mapAddr ==> IpOk(b, ip))
  }

  // vRandom and nRandomPos are inverse to each other.
  predicate PosOk(b: Book, id: Id)
    requires id in b.mapInfo
  {
    0 <= b.mapInfo[id].nRandomPos < |b.vRandom| && b.vRandom[b.mapInfo[id].nRandomPos] == id
  }

  predicate RandOk(b: Book, i: nat)
    requires i < |b.vRandom|
  {
    b.vRandom[i] in b.mapInfo && b.mapInfo[b.vRandom[i]].nRandomPos == i
  }

  predicate RandomOk(b: Book) {
    && |b.vRandom| == |b.mapInfo|
    && (forall id {:trigger PosOk(b, id)} :: id in b.mapInfo ==> PosOk(b, id))
    && (forall i {:trigger RandOk(b, i)} :: 0 <= i < |b.vRandom| ==> RandOk(b, i))
  }

  // Each tried id is in exactly its slot.
  predicate TriedSlotOk(h: Hashes, b: Book, s: Slot)
    requires s in b.vvTried
  {
    var id := b.vvTried[s];
    id in b.mapInfo && b.mapInfo[id].fInTried && s == h.TriedSlot(b.mapInfo[id].addr)
  }

  predicate TriedIdOk(h: Hashes, b: Book, id: Id)
    requires id in b.mapInfo
  {
    var s := h.TriedSlot(b.mapInfo[id].addr);
    b.mapInfo[id].fInTried ==> s in b.vvTried && b.vvTried[s] == id
  }

  predicate TriedOk(h: Hashes, b: Book) {
    && (forall s {:trigger TriedSlotOk(h, b, s)} :: s in b.vvTried ==> TriedSlotOk(h, b, s))
    && (forall id {:trigger TriedIdOk(h, b, id)} :: id in b.mapInfo ==> TriedIdOk(h, b, id))
  }

  // A new table entry is at its id's position in the bucket.
  predicate NewSlotOk(h: Hashes, b: Book, s: Slot)
    requires s in b.vvNew
  {
    var id := b.vvNew[s];
    id in b.mapInfo && s.bucket < NEW_BUCKET_COUNT && s == h.NewSlot(b.mapInfo[id].addr, s.bucket)
  }

  predicate NewOk(h: Hashes, b: Book) {
    forall s {:trigger NewSlotOk(h, b, s)} :: s in b.vvNew ==> NewSlotOk(h, b, s)
  }

  function Refs(t: Table, id: Id): set<Slot> {
    set s | s in t && t[s] == id
  }

  // Reference counts are occurrences in the new table: none for a tried id, at
  // least one for a new one unless it is in limbo, between two tables.
  predicate RefOk(b: Book, limbo: set<Id>, id: Id)
    requires id in b.mapInfo
  {
    var info := b.mapInfo[id];
    && info.nRefCount == |Refs(b.vvNew, id)| <= NEW_BUCKETS_PER_ADDRESS
    && (info.fInTried ==> info.nRefCount == 0)
    && (!info.fInTried && id !in limbo ==> info.nRefCount > 0)
    && (id in limbo ==> !info.fInTried)
  }

  predicate RefsOk(b: Book, limbo: set<Id>) {
    && limbo <= b.mapInfo.Keys
    && (forall id {:trigger RefOk(b, limbo, id)} :: id in b.mapInfo ==> RefOk(b, limbo, id))
  }

  predicate StatsOk(info: Info) {
    && info.nLastTry >= 0 && info.nLastSuccess >= 0
    && (info.fInTried ==> info.nLastSuccess > 0)
  }

  // The tried ids, or the new ones.
  function Ids(m: map<Id, Info>, tried: bool): set<Id> {
    set id | id in m && m[id].fInTried == tried
  }

  // uncounted says how many ids in limbo the counter leaves out.
  predicate CountsOk(b: Book, uncounted: int) {
    b.nTried == |Ids(b.mapInfo, true)| && b.nNew == |Ids(b.mapInfo, false)| - uncounted
  }

  predicate Consistent(h: Hashes, b: Book, limbo: set<Id>, uncounted: int) {
    && AddrsOk(b) && RandomOk(b) && TriedOk(h, b) && NewOk(h, b) && RefsOk(b, limbo)
    && CountsOk(b, uncounted) && (forall id :: id in b.mapInfo ==> StatsOk(b.mapInfo[id]))
  }

  // Between operations.
  predicate Valid(h: Hashes, b: Book) {
    Consistent(h, b, {}, 0)
  }

  lemma StatsThere(h: Hashes, b: Book, limbo: set<Id>, uncounted: int, id: Id)
    requires Consistent(h, b, limbo, uncounted) && id in b.mapInfo
    ensures StatsOk(b.mapInfo[id])
  {
    hide AddrsOk, RandomOk, TriedOk, NewOk, RefsOk, StatsOk;
  }

  lemma EmptyIsValid(h: Hashes)
    ensures Valid(h, EMPTY)
  {
    assert Ids(EMPTY.mapInfo, true) == {} && Ids(EMPTY.mapInfo, false) == {};
  }

  lemma {:induction false} SplitCount(m: map<Id, Info>)
    ensures |m| == |Ids(m, true)| + |Ids(m, false)|
  {
    assert m.Keys == Ids(m, true) + Ids(m, false);
    assert Ids(m, true) !! Ids(m, false);
    assert |m| == |m.Keys|;
  }

  // ------------------------------------------------------------------- steps

  function One(b: bool): int {
    if b then 1 else 0
  }

  // How the counts change with one entry.
  lemma CountsPut(m: map<Id, Info>, id: Id, info: Info, tried: bool)
    ensures |Ids(m[id := info], tried)| == |Ids(m - {id}, tried)| + One(info.fInTried == tried)
  {
    var c, rest := m[id := info], m - {id};
    forall k ensures k in Ids(c, tried) <==> k in Ids(rest, tried) || (k == id && info.fInTried == tried) {
      assert k != id ==> (k in c <==> k in rest) && (k in c ==> c[k] == rest[k]);
    }
    if info.fInTried == tried {
      assert Ids(c, tried) == Ids(rest, tried) + {id};
    } else {
      assert Ids(c, tried) == Ids(rest, tried);
    }
  }

  lemma CountsTake(m: map<Id, Info>, id: Id, tried: bool)
    requires id in m
    ensures |Ids(m, tried)| == |Ids(m - {id}, tried)| + One(m[id].fInTried == tried)
  {
    CountsPut(m, id, m[id], tried);
    assert m[id := m[id]] == m;
  }

  // How the occurrences change with one slot.
  lemma RefsPut(t: Table, s: Slot, id: Id, k: Id)
    requires s !in t
    ensures |Refs(t[s := id], k)| == |Refs(t, k)| + One(k == id)
  {
    if k == id {
      assert Refs(t[s := id], k) == Refs(t, k) + {s};
    } else {
      assert Refs(t[s := id], k) == Refs(t, k);
    }
  }

  lemma RefsTake(t: Table, s: Slot, k: Id)
    requires s in t
    ensures |Refs(t - {s}, k)| == |Refs(t, k)| - One(k == t[s])
  {
    RefsPut(t - {s}, s, t[s], k);
    assert (t - {s})[s := t[s]] == t;
  }

  lemma RefsNone(t: Table, k: Id)
    ensures |Refs(t, k)| == 0 <==> forall s :: s in t ==> t[s] != k
  {
    if s :| s in t && t[s] == k {
      assert s in Refs(t, k);
    } else {
      assert Refs(t, k) == {};
    }
  }

  // The same ids with the same addresses in the same random order.
  predicate SameOrder(b: Book, c: Book) {
    && c.mapInfo.Keys == b.mapInfo.Keys && c.vRandom == b.vRandom && c.mapAddr == b.mapAddr && c.nIdCount == b.nIdCount
    && forall id :: id in b.mapInfo ==>
         c.mapInfo[id].addr == b.mapInfo[id].addr && c.mapInfo[id].nRandomPos == b.mapInfo[id].nRandomPos
  }

  lemma OrderKept(b: Book, c: Book)
    requires AddrsOk(b) && RandomOk(b) && SameOrder(b, c)
    ensures AddrsOk(c) && RandomOk(c)
  {
    assert |c.mapInfo| == |c.mapInfo.Keys| && |b.mapInfo| == |b.mapInfo.Keys|;
    forall k | k in c.mapInfo ensures AddrOk(c, k) && PosOk(c, k) {
      assert AddrOk(b, k) && PosOk(b, k);
    }
    forall ip | ip in c.mapAddr ensures IpOk(c, ip) {
      var id := b.mapAddr[ip];
      assert IpOk(b, ip) && id in c.mapInfo.Keys;
      assert c.mapInfo[id].addr == b.mapInfo[id].addr;
    }
    forall i | 0 <= i < |c.vRandom| ensures RandOk(c, i) {
      var id := b.vRandom[i];
      assert RandOk(b, i) && id in c.mapInfo.Keys;
      assert c.mapInfo[id].nRandomPos == b.mapInfo[id].nRandomPos;
    }
  }

  // One entry changed, but neither its address nor its random position.
  lemma OneKeepsOrder(b: Book, c: Book, id: Id)
    requires AddrsOk(b) && RandomOk(b) && id in b.mapInfo && id in c.mapInfo
    requires c.mapInfo == b.mapInfo[id := c.mapInfo[id]]
    requires c.mapInfo[id].addr == b.mapInfo[id].addr && c.mapInfo[id].nRandomPos == b.mapInfo[id].nRandomPos
    requires c.vRandom == b.vRandom && c.mapAddr == b.mapAddr && c.nIdCount == b.nIdCount
    ensures AddrsOk(c) && RandomOk(c)
  {
    hide AddrsOk, RandomOk;
    assert c.mapInfo.Keys == b.mapInfo.Keys;
    OrderKept(b, c);
  }

  lemma SameIdsCounted(m: map<Id, Info>, id: Id, info: Info)
    requires id in m && info.fInTried == m[id].fInTried
    ensures |Ids(m[id := info], true)| == |Ids(m, true)| && |Ids(m[id := info], false)| == |Ids(m, false)|
  {
    CountsTake(m, id, true);
    CountsTake(m, id, false);
    CountsPut(m, id, info, true);
    CountsPut(m, id, info, false);
  }

  // Same address, references, table and position; only statistics differ.
  predicate SamePlace(a: Info, b: Info) {
    && a.addr == b.addr && a.nRefCount == b.nRefCount
    && a.fInTried == b.fInTried && a.nRandomPos == b.nRandomPos
  }

  function WithInfo(b: Book, id: Id, info: Info): Book {
    b.(mapInfo := b.mapInfo[id := info])
  }

  lemma StatsChange(h: Hashes, b: Book, limbo: set<Id>, uncounted: int, id: Id, info: Info)
    requires Consistent(h, b, limbo, uncounted) && id in b.mapInfo
    requires SamePlace(info, b.mapInfo[id]) && StatsOk(info)
    ensures Consistent(h, WithInfo(b, id, info), limbo, uncounted)
  {
    hide Hashes.TriedSlot, Hashes.NewSlot, AddrsOk, RandomOk, Refs, Ids, SameOrder;
    var c := WithInfo(b, id, info);
    SameIdsCounted(b.mapInfo, id, info);
    forall k | k in c.mapInfo
      ensures TriedIdOk(h, c, k) && RefOk(c, limbo, k)
    {
      assert TriedIdOk(h, b, k) && RefOk(b, limbo, k);
    }
    OneKeepsOrder(b, c, id);
    forall s | s in c.vvTried ensures TriedSlotOk(h, c, s) {
      assert TriedSlotOk(h, b, s);
    }
    forall s | s in c.vvNew ensures NewSlotOk(h, c, s) {
      assert NewSlotOk(h, b, s);
    }
  }

  // A new id at the end of vRandom, in no table yet.
  function Created(b: Book, info: Info): Book {
    Book(b.mapInfo[b.nIdCount := info.(nRandomPos := |b.vRandom|)], b.mapAddr[info.addr.ip := b.nIdCount],
         b.vRandom + [b.nIdCount], b.vvTried, b.vvNew, b.nTried, b.nNew, b.nIdCount + 1)
  }

  lemma CreateOrder(b: Book, info: Info)
    requires AddrsOk(b) && RandomOk(b) && info.addr.ip !in b.mapAddr && b.nIdCount >= 0
    ensures b.nIdCount !in b.mapInfo
    ensures AddrsOk(Created(b, info)) && RandomOk(Created(b, info))
  {
    var id := b.nIdCount;
    var c := Created(b, info);
    assert id in b.mapInfo ==> AddrOk(b, id);
    forall k | k in c.mapInfo ensures AddrOk(c, k) && PosOk(c, k) {
      assert k != id ==> AddrOk(b, k) && PosOk(b, k);
    }
    forall ip | ip in c.mapAddr ensures IpOk(c, ip) {
      assert ip != info.addr.ip ==> IpOk(b, ip);
    }
    forall i | 0 <= i < |c.vRandom| ensures RandOk(c, i) {
      assert i < |b.vRandom| ==> RandOk(b, i);
    }
  }

  lemma CreateTables(h: Hashes, b: Book, limbo: set<Id>, info: Info)
    requires TriedOk(h, b) && NewOk(h, b) && RefsOk(b, limbo) && b.nIdCount !in b.mapInfo
    requires info.nRefCount == 0 && !info.fInTried
    ensures var c := Created(b, info); TriedOk(h, c) && NewOk(h, c) && RefsOk(c, limbo + {b.nIdCount})
  {
    hide Hashes.TriedSlot, Hashes.NewSlot;
    var id := b.nIdCount;
    var c := Created(b, info);
    forall s | s in c.vvNew ensures c.vvNew[s] != id {
      assert NewSlotOk(h, b, s);
    }
    assert Refs(c.vvNew, id) == {};
    forall k | k in c.mapInfo ensures TriedIdOk(h, c, k) && RefOk(c, limbo + {id}, k) {
      assert k != id ==> TriedIdOk(h, b, k) && RefOk(b, limbo, k);
    }
    forall s | s in c.vvTried ensures TriedSlotOk(h, c, s) {
      assert TriedSlotOk(h, b, s);
    }
    forall s | s in c.vvNew ensures NewSlotOk(h, c, s) {
      assert NewSlotOk(h, b, s);
    }
  }

  lemma CreateStep(h: Hashes, b: Book, limbo: set<Id>, uncounted: int, info: Info)
    requires Consistent(h, b, limbo, uncounted) && info.addr.ip !in b.mapAddr && b.nIdCount >= 0
    requires info.nRefCount == 0 && !info.fInTried && StatsOk(info)
    ensures b.nIdCount !in b.mapInfo
    ensures Consistent(h, Created(b, info), limbo + {b.nIdCount}, uncounted + 1)
  {
    hide AddrsOk, RandomOk, TriedOk, NewOk, RefsOk, Ids;
    CreateOrder(b, info);
    CreateTables(h, b, limbo, info);
    var c := Created(b, info);
    CountsPut(b.mapInfo, b.nIdCount, c.mapInfo[b.nIdCount], true);
    CountsPut(b.mapInfo, b.nIdCount, c.mapInfo[b.nIdCount], false);
    assert b.mapInfo - {b.nIdCount} == b.mapInfo;
  }

  // Two positions of vRandom exchanged.
  function Swapped(b: Book, i: nat, j: nat): Book
    requires i < |b.vRandom| && j < |b.vRandom|
    requires b.vRandom[i] in b.mapInfo && b.vRandom[j] in b.mapInfo
  {
    var id1, id2 := b.vRandom[i], b.vRandom[j];
    var m := b.mapInfo[id1 := b.mapInfo[id1].(nRandomPos := j)];
    b.(mapInfo := m[id2 := m[id2].(nRandomPos := i)], vRandom := b.vRandom[i := id2][j := id1])
  }

  // Everything but the random positions is as before.
  predicate SameButOrder(b: Book, c: Book) {
    && c.mapInfo.Keys == b.mapInfo.Keys
    && (forall id :: id in b.mapInfo ==> c.mapInfo[id].(nRandomPos := 0) == b.mapInfo[id].(nRandomPos := 0))
    && c.mapAddr == b.mapAddr && c.vvTried == b.vvTried && c.vvNew == b.vvNew
    && c.nTried == b.nTried && c.nNew == b.nNew && c.nIdCount == b.nIdCount && |c.vRandom| == |b.vRandom|
  }

  lemma OrderChange(h: Hashes, b: Book, c: Book, limbo: set<Id>, uncounted: int)
    requires Consistent(h, b, limbo, uncounted) && SameButOrder(b, c) && RandomOk(c)
    ensures Consistent(h, c, limbo, uncounted)
  {
    hide Hashes.TriedSlot, Hashes.NewSlot, RandomOk, Refs;
    assert forall id :: id in b.mapInfo ==>
      var i, j := b.mapInfo[id].(nRandomPos := 0), c.mapInfo[id].(nRandomPos := 0);
      i == j && i.addr == b.mapInfo[id].addr;
    assert Ids(c.mapInfo, true) == Ids(b.mapInfo, true) && Ids(c.mapInfo, false) == Ids(b.mapInfo, false);
    forall k | k in c.mapInfo ensures AddrOk(c, k) && TriedIdOk(h, c, k) && RefOk(c, limbo, k) {
      assert AddrOk(b, k) && TriedIdOk(h, b, k) && RefOk(b, limbo, k);
    }
    forall ip | ip in c.mapAddr ensures IpOk(c, ip) {
      assert IpOk(b, ip);
    }
    forall s | s in c.vvTried ensures TriedSlotOk(h, c, s) {
      assert TriedSlotOk(h, b, s);
    }
    forall s | s in c.vvNew ensures NewSlotOk(h, c, s) {
      assert NewSlotOk(h, b, s);
    }
  }

  lemma SwapOrder(b: Book, i: nat, j: nat)
    requires RandomOk(b) && i < |b.vRandom| && j < |b.vRandom| && i != j
    ensures b.vRandom[i] in b.mapInfo && b.vRandom[j] in b.mapInfo
    ensures RandomOk(Swapped(b, i, j))
  {
    assert RandOk(b, i) && RandOk(b, j);
    var c := Swapped(b, i, j);
    assert c.mapInfo.Keys == b.mapInfo.Keys;
    forall k | k in c.mapInfo ensures PosOk(c, k) {
      assert PosOk(b, k);
    }
    forall p | 0 <= p < |c.vRandom| ensures RandOk(c, p) {
      assert RandOk(b, p);
    }
  }

  lemma SwapStep(h: Hashes, b: Book, limbo: set<Id>, uncounted: int, i: nat, j: nat)
    requires Consistent(h, b, limbo, uncounted) && i < |b.vRandom| && j < |b.vRandom| && i != j
    ensures b.vRandom[i] in b.mapInfo && b.vRandom[j] in b.mapInfo
    ensures Consistent(h, Swapped(b, i, j), limbo, uncounted)
    ensures SameButOrder(b, Swapped(b, i, j))
  {
    hide TriedOk, NewOk, RefsOk, AddrsOk, RandomOk, CountsOk, StatsOk, Swapped, SameButOrder;
    SwapOrder(b, i, j);
    SwapKeeps(b, i, j);
    OrderChange(h, b, Swapped(b, i, j), limbo, uncounted);
  }

  lemma SwapKeeps(b: Book, i: nat, j: nat)
    requires i < |b.vRandom| && j < |b.vRandom| && b.vRandom[i] in b.mapInfo && b.vRandom[j] in b.mapInfo
    ensures SameButOrder(b, Swapped(b, i, j))
  {
  }

  // An id in limbo at the end of vRandom, dropped altogether.
  function Deleted(b: Book, id: Id): Book
    requires id in b.mapInfo && |b.vRandom| > 0
  {
    b.(vRandom := b.vRandom[..|b.vRandom| - 1], mapAddr := b.mapAddr - {b.mapInfo[id].addr.ip},
       mapInfo := b.mapInfo - {id}, nNew := b.nNew - 1)
  }

  lemma DeleteLast(b: Book, id: Id)
    requires RandomOk(b) && id in b.mapInfo && b.mapInfo[id].nRandomPos == |b.vRandom| - 1
    ensures |b.vRandom| > 0 && RandomOk(Deleted(b, id))
  {
    assert PosOk(b, id);
    var c := Deleted(b, id);
    assert c.mapInfo.Keys == b.mapInfo.Keys - {id};
    forall k | k in c.mapInfo ensures PosOk(c, k) {
      assert PosOk(b, k);
    }
    forall i | 0 <= i < |c.vRandom| ensures RandOk(c, i) {
      assert RandOk(b, i);
    }
  }

  lemma DeleteOrder(b: Book, id: Id)
    requires AddrsOk(b) && RandomOk(b) && id in b.mapInfo && b.mapInfo[id].nRandomPos == |b.vRandom| - 1
    ensures |b.vRandom| > 0 && AddrsOk(Deleted(b, id)) && RandomOk(Deleted(b, id))
  {
    hide RandomOk;
    DeleteLast(b, id);
    assert AddrOk(b, id);
    var c := Deleted(b, id);
    forall k | k in c.mapInfo ensures AddrOk(c, k) {
      assert AddrOk(b, k);
    }
    forall ip | ip in c.mapAddr ensures IpOk(c, ip) {
      assert IpOk(b, ip);
    }
  }

  lemma DeleteTables(h: Hashes, b: Book, limbo: set<Id>, id: Id)
    requires TriedOk(h, b) && NewOk(h, b) && RefsOk(b, limbo) && id in limbo && id in b.mapInfo && |b.vRandom| > 0
    requires b.mapInfo[id].nRefCount == 0
    ensures var c := Deleted(b, id); TriedOk(h, c) && NewOk(h, c) && RefsOk(c, limbo - {id})
  {
    hide Hashes.TriedSlot, Hashes.NewSlot, Refs;
    var c := Deleted(b, id);
    assert RefOk(b, limbo, id);
    RefsNone(b.vvNew, id);
    forall k | k in c.mapInfo ensures TriedIdOk(h, c, k) && RefOk(c, limbo - {id}, k) {
      assert TriedIdOk(h, b, k) && RefOk(b, limbo, k);
    }
    forall s | s in c.vvTried ensures TriedSlotOk(h, c, s) {
      assert TriedSlotOk(h, b, s);
    }
    forall s | s in c.vvNew ensures NewSlotOk(h, c, s) {
      assert NewSlotOk(h, b, s);
    }
  }

  lemma DeleteStep(h: Hashes, b: Book, limbo: set<Id>, uncounted: int, id: Id)
    requires Consistent(h, b, limbo, uncounted) && id in limbo && id in b.mapInfo
    requires b.mapInfo[id].nRefCount == 0 && b.mapInfo[id].nRandomPos == |b.vRandom| - 1
    ensures |b.vRandom| > 0 && Consistent(h, Deleted(b, id), limbo - {id}, uncounted)
  {
    hide AddrsOk, RandomOk, TriedOk, NewOk, Ids, Refs;
    assert RefOk(b, limbo, id);
    DeleteOrder(b, id);
    DeleteTables(h, b, limbo, id);
    CountsTake(b.mapInfo, id, true);
    CountsTake(b.mapInfo, id, false);
    hide RefsOk;
  }

  // One reference taken out of the new table.
  function RefDropped(b: Book, s: Slot): Book
    requires s in b.vvNew && b.vvNew[s] in b.mapInfo
  {
    var id := b.vvNew[s];
    var info := b.mapInfo[id];
    b.(vvNew := b.vvNew - {s}, mapInfo := b.mapInfo[id := info.(nRefCount := info.nRefCount - 1)])
  }

  lemma RefDropStep(h: Hashes, b: Book, limbo: set<Id>, uncounted: int, s: Slot)
    requires Consistent(h, b, limbo, uncounted) && s in b.vvNew
    ensures b.vvNew[s] in b.mapInfo && b.mapInfo[b.vvNew[s]].nRefCount > 0 && !b.mapInfo[b.vvNew[s]].fInTried
    ensures var id := b.vvNew[s];
            var c := RefDropped(b, s);
            && Consistent(h, c, limbo + {id}, uncounted)
            && (c.mapInfo[id].nRefCount > 0 && id !in limbo ==> Consistent(h, c, limbo, uncounted))
  {
    hide Hashes.TriedSlot, Hashes.NewSlot, AddrsOk, RandomOk, Refs, Ids, SameOrder;
    var id := b.vvNew[s];
    assert NewSlotOk(h, b, s) && RefOk(b, limbo, id);
    RefsTake(b.vvNew, s, id);
    var c := RefDropped(b, s);
    SameIdsCounted(b.mapInfo, id, c.mapInfo[id]);
    forall k | k in c.mapInfo
      ensures TriedIdOk(h, c, k) && RefOk(c, limbo + {id}, k)
      ensures k != id || (c.mapInfo[id].nRefCount > 0 && id !in limbo) ==> RefOk(c, limbo, k)
    {
      assert TriedIdOk(h, b, k) && RefOk(b, limbo, k);
      RefsTake(b.vvNew, s, k);
    }
    OneKeepsOrder(b, c, id);
    forall t | t in c.vvTried ensures TriedSlotOk(h, c, t) {
      assert TriedSlotOk(h, b, t);
    }
    forall t | t in c.vvNew ensures NewSlotOk(h, c, t) {
      assert NewSlotOk(h, b, t);
    }
  }

  // One reference put into a free slot; the id leaves limbo.
  function RefAdded(b: Book, s: Slot, id: Id): Book
    requires id in b.mapInfo
  {
    var info := b.mapInfo[id];
    b.(vvNew := b.vvNew[s := id], mapInfo := b.mapInfo[id := info.(nRefCount := info.nRefCount + 1)])
  }

  lemma RefAddStep(h: Hashes, b: Book, limbo: set<Id>, uncounted: int, bucket: nat, id: Id)
    requires Consistent(h, b, limbo, uncounted) && id in b.mapInfo && bucket < NEW_BUCKET_COUNT
    requires h.NewSlot(b.mapInfo[id].addr, bucket) !in b.vvNew
    requires !b.mapInfo[id].fInTried && b.mapInfo[id].nRefCount < NEW_BUCKETS_PER_ADDRESS
    ensures Consistent(h, RefAdded(b, h.NewSlot(b.mapInfo[id].addr, bucket), id), limbo - {id}, uncounted)
  {
    hide Hashes.TriedSlot, Hashes.NewSlot, AddrsOk, RandomOk, Refs, Ids, SameOrder;
    var s := h.NewSlot(b.mapInfo[id].addr, bucket);
    assert RefOk(b, limbo, id);
    var c := RefAdded(b, s, id);
    SameIdsCounted(b.mapInfo, id, c.mapInfo[id]);
    forall k | k in c.mapInfo
      ensures TriedIdOk(h, c, k) && RefOk(c, limbo - {id}, k)
    {
      assert TriedIdOk(h, b, k) && RefOk(b, limbo, k);
      RefsPut(b.vvNew, s, id, k);
    }
    OneKeepsOrder(b, c, id);
    forall t | t in c.vvTried ensures TriedSlotOk(h, c, t) {
      assert TriedSlotOk(h, b, t);
    }
    forall t | t in c.vvNew ensures NewSlotOk(h, c, t) {
      assert t != s ==> NewSlotOk(h, b, t);
    }
  }

  // A tried id taken out of its slot, into limbo and out of both counts.
  function Untried(h: Hashes, b: Book, id: Id): Book
    requires id in b.mapInfo
  {
    b.(vvTried := b.vvTried - {h.TriedSlot(b.mapInfo[id].addr)},
       mapInfo := b.mapInfo[id := b.mapInfo[id].(fInTried := false)], nTried := b.nTried - 1)
  }

  lemma UntryStep(h: Hashes, b: Book, limbo: set<Id>, uncounted: int, id: Id)
    requires Consistent(h, b, limbo, uncounted) && id in b.mapInfo && b.mapInfo[id].fInTried
    ensures Consistent(h, Untried(h, b, id), limbo + {id}, uncounted + 1)
    ensures b.mapInfo[id].nRefCount == 0
  {
    hide Hashes.TriedSlot, Hashes.NewSlot, AddrsOk, RandomOk, Refs, Ids, SameOrder;
    var c := Untried(h, b, id);
    assert RefOk(b, limbo, id) && TriedIdOk(h, b, id);
    CountsTake(b.mapInfo, id, true);
    CountsTake(b.mapInfo, id, false);
    CountsPut(b.mapInfo, id, c.mapInfo[id], true);
    CountsPut(b.mapInfo, id, c.mapInfo[id], false);
    forall k | k in c.mapInfo
      ensures TriedIdOk(h, c, k) && RefOk(c, limbo + {id}, k)
    {
      assert TriedIdOk(h, b, k) && RefOk(b, limbo, k);
    }
    OneKeepsOrder(b, c, id);
    forall s | s in c.vvTried ensures TriedSlotOk(h, c, s) {
      assert TriedSlotOk(h, b, s);
    }
    forall s | s in c.vvNew ensures NewSlotOk(h, c, s) {
      assert NewSlotOk(h, b, s);
    }
  }

  // An id in limbo without references put into its free tried slot.
  function Tried(h: Hashes, b: Book, id: Id): Book
    requires id in b.mapInfo
  {
    b.(vvTried := b.vvTried[h.TriedSlot(b.mapInfo[id].addr) := id],
       mapInfo := b.mapInfo[id := b.mapInfo[id].(fInTried := true)], nTried := b.nTried + 1)
  }

  lemma TryStep(h: Hashes, b: Book, limbo: set<Id>, uncounted: int, id: Id)
    requires Consistent(h, b, limbo, uncounted) && id in limbo && id in b.mapInfo
    requires b.mapInfo[id].nRefCount == 0 && b.mapInfo[id].nLastSuccess > 0
    requires h.TriedSlot(b.mapInfo[id].addr) !in b.vvTried
    ensures Consistent(h, Tried(h, b, id), limbo - {id}, uncounted - 1)
  {
    hide Hashes.TriedSlot, Hashes.NewSlot, AddrsOk, RandomOk, Refs, Ids, SameOrder;
    var c := Tried(h, b, id);
    assert RefOk(b, limbo, id);
    CountsTake(b.mapInfo, id, true);
    CountsTake(b.mapInfo, id, false);
    CountsPut(b.mapInfo, id, c.mapInfo[id], true);
    CountsPut(b.mapInfo, id, c.mapInfo[id], false);
    forall k | k in c.mapInfo
      ensures TriedIdOk(h, c, k) && RefOk(c, limbo - {id}, k)
    {
      assert TriedIdOk(h, b, k) && RefOk(b, limbo, k);
    }
    OneKeepsOrder(b, c, id);
    forall s | s in c.vvTried ensures TriedSlotOk(h, c, s) {
      assert s in b.vvTried ==> TriedSlotOk(h, b, s);
    }
    forall s | s in c.vvNew ensures NewSlotOk(h, c, s) {
      assert NewSlotOk(h, b, s);
    }
  }

  // An id that is not tried may be treated as in limbo, and leaves limbo when
  // it has a reference.
  lemma EnterLimbo(h: Hashes, b: Book, id: Id)
    requires Valid(h, b) && id in b.mapInfo && !b.mapInfo[id].fInTried
    ensures Consistent(h, b, {id}, 0)
    ensures 0 < b.mapInfo[id].nRefCount <= NEW_BUCKETS_PER_ADDRESS
  {
    hide AddrsOk, RandomOk, TriedOk, NewOk;
    assert RefOk(b, {}, id);
    forall k | k in b.mapInfo ensures RefOk(b, {id}, k) {
      assert RefOk(b, {}, k);
    }
  }

  lemma LeaveLimbo(h: Hashes, b: Book, id: Id)
    requires Consistent(h, b, {id}, 0) && id in b.mapInfo && b.mapInfo[id].nRefCount > 0
    ensures Valid(h, b)
  {
    hide AddrsOk, RandomOk, TriedOk, NewOk;
    forall k | k in b.mapInfo ensures RefOk(b, {}, k) {
      assert RefOk(b, {id}, k);
    }
  }

  lemma Recount(h: Hashes, b: Book, limbo: set<Id>, uncounted: int, nNew: int)
    requires Consistent(h, b, limbo, uncounted)
    ensures Consistent(h, b.(nNew := nNew), limbo, uncounted + b.nNew - nNew)
  {
    var c := b.(nNew := nNew);
    assert b.mapInfo.Keys == c.mapInfo.Keys;
    OrderKept(b, c);
    forall k | k in c.mapInfo ensures TriedIdOk(h, c, k) && RefOk(c, limbo, k) {
      assert TriedIdOk(h, b, k) && RefOk(b, limbo, k);
    }
    forall s | s in c.vvTried ensures TriedSlotOk(h, c, s) {
      assert TriedSlotOk(h, b, s);
    }
    forall s | s in c.vvNew ensures NewSlotOk(h, c, s) {
      assert NewSlotOk(h, b, s);
    }
  }

  // The count says whether the new table refers to an id at all.
  lemma RefsCounted(h: Hashes, b: Book, limbo: set<Id>, uncounted: int, id: Id)
    requires Consistent(h, b, limbo, uncounted) && id in b.mapInfo
    ensures 0 <= b.mapInfo[id].nRefCount <= NEW_BUCKETS_PER_ADDRESS
    ensures b.mapInfo[id].nRefCount == 0 <==> forall s :: s in b.vvNew ==> b.vvNew[s] != id
  {
    hide AddrsOk, RandomOk, TriedOk, NewOk;
    assert RefOk(b, limbo, id);
    if s :| s in b.vvNew && b.vvNew[s] == id {
      assert s in Refs(b.vvNew, id);
    } else {
      assert Refs(b.vvNew, id) == {};
    }
  }

  // Between operations an id is known exactly when a table holds it.
  lemma KnownMeansHeld(h: Hashes, b: Book, id: Id)
    requires Valid(h, b)
    ensures id in b.mapInfo <==>
            (exists s :: s in b.vvTried && b.vvTried[s] == id) || (exists s :: s in b.vvNew && b.vvNew[s] == id)
  {
    hide AddrsOk, RandomOk;
    if id in b.mapInfo {
      assert RefOk(b, {}, id) && TriedIdOk(h, b, id);
      RefsNone(b.vvNew, id);
    }
    if s :| s in b.vvTried && b.vvTried[s] == id {
      assert TriedSlotOk(h, b, s);
    }
    if s :| s in b.vvNew && b.vvNew[s] == id {
      assert NewSlotOk(h, b, s);
    }
  }

  // ------------------------------------------------- what becoming tried does

  function Without(t: Table, id: Id): Table {
    map s | s in t && t[s] != id :: t[s]
  }

  // Where an evicted id goes in the new table.
  function ReturnSlot(h: Hashes, info: Info): Slot {
    h.NewSlot(info.addr, h.GetNewBucket(info.addr, info.source))
  }

  // The new table after an id left it for the tried table: what it displaced
  // there is back in the new table, whatever was in its place.
  function TriedLeavesNew(h: Hashes, b: Book, id: Id): Table
    requires id in b.mapInfo
  {
    var s := h.TriedSlot(b.mapInfo[id].addr);
    var t := Without(b.vvNew, id);
    if s in b.vvTried && b.vvTried[s] in b.mapInfo then
      t[ReturnSlot(h, b.mapInfo[b.vvTried[s]]) := b.vvTried[s]]
    else t
  }

  // What is known after that, up to counts, order and what lost its place.
  function TriedLeavesInfo(h: Hashes, b: Book, id: Id): map<Id, Info>
    requires id in b.mapInfo
  {
    var s := h.TriedSlot(b.mapInfo[id].addr);
    var m := b.mapInfo[id := b.mapInfo[id].(fInTried := true)];
    if s in b.vvTried && b.vvTried[s] in b.mapInfo then
      m[b.vvTried[s] := b.mapInfo[b.vvTried[s]].(fInTried := false)]
    else m
  }
}
