// Bloom filters, and the rolling pair that never forgets the last keys.
module Bloom {
  import opened Bits

  type Key = seq<Byte>

  predicate AllAre(s: seq<Byte>, b: Byte) {
    forall i :: 0 <= i < |s| ==> s[i] == b
  }

  // Where the i-th of the keyed hashes puts a key, in so many bytes.
  function BitIndex(hash: (nat, Key) -> nat, size: nat, i: nat, key: Key): (p: nat)
    requires size > 0
    ensures p < 8 * size
  {
    hash(i, key) % (8 * size)
  }

  predicate Touched(hash: (nat, Key) -> nat, size: nat, n: nat, key: Key, p: nat)
    requires size > 0
  {
    exists i :: 0 <= i < n && BitIndex(hash, size, i, key) == p
  }

  // All n bits of the key are set.
  predicate Marked(data: seq<Byte>, hash: (nat, Key) -> nat, n: nat, key: Key)
    requires |data| > 0 || n == 0
  {
    forall i :: 0 <= i < n ==> BitAt(data, BitIndex(hash, |data|, i, key))
  }

  // The n bits of the key, and no others, are set in addition.
  predicate Added(before: seq<Byte>, after: seq<Byte>, hash: (nat, Key) -> nat, n: nat, key: Key) {
    && |after| == |before|
    && forall p :: 0 <= p < 8 * |after| ==>
         (BitAt(after, p) <==> BitAt(before, p) || Touched(hash, |before|, n, key, p))
  }

  lemma AddedMore(before: seq<Byte>, data: seq<Byte>, hash: (nat, Key) -> nat, i: nat, key: Key)
    requires |before| > 0 && Added(before, data, hash, i, key)
    ensures |data| == |before|
    ensures var nIndex := BitIndex(hash, |data|, i, key);
            Added(before, data[nIndex / 8 := data[nIndex / 8] | Mask(nIndex % 8)], hash, i + 1, key)
  {
    hide BitAt, Mask;
    var nIndex := BitIndex(hash, |data|, i, key);
    var marked := data[nIndex / 8 := data[nIndex / 8] | Mask(nIndex % 8)];
    forall p | 0 <= p < 8 * |data|
      ensures BitAt(marked, p) <==> BitAt(before, p) || Touched(hash, |before|, i + 1, key, p)
    {
      SetBitAt(data, nIndex, p);
    }
  }

  // Adding a key marks it and unmarks none.
  lemma AddedMarks(before: seq<Byte>, after: seq<Byte>, hash: (nat, Key) -> nat, n: nat, key: Key)
    requires (|before| > 0 || n == 0) && Added(before, after, hash, n, key)
    ensures Marked(after, hash, n, key)
    ensures forall k :: Marked(before, hash, n, k) ==> Marked(after, hash, n, k)
  {
    hide BitAt;
    forall i | 0 <= i < n ensures BitAt(after, BitIndex(hash, |after|, i, key)) {
      assert Touched(hash, |before|, n, key, BitIndex(hash, |after|, i, key));
    }
  }

  // Where all bits are set every key is marked, where none is, no key.
  lemma FullAndEmpty(data: seq<Byte>, hash: (nat, Key) -> nat, n: nat, key: Key)
    requires |data| > 0 && n > 0
    ensures AllAre(data, 0xff) ==> Marked(data, hash, n, key)
    ensures AllAre(data, 0) ==> !Marked(data, hash, n, key)
  {
    if AllAre(data, 0xff) {
      forall i | 0 <= i < n ensures BitAt(data, BitIndex(hash, |data|, i, key)) {
        AnyBit(BitIndex(hash, |data|, i, key) % 8);
      }
    }
    if AllAre(data, 0) {
      assert !BitAt(data, BitIndex(hash, |data|, 0, key));
    }
  }

  // Some bit is set, or there are none at all.
  predicate AnySet(data: seq<Byte>) {
    |data| == 0 || !AllAre(data, 0)
  }

  // What the two shortcuts may stand for.
  lemma Shortcuts(data: seq<Byte>, hash: (nat, Key) -> nat, n: nat, key: Key)
    requires |data| > 0 || n == 0
    ensures n == 0 ==> Marked(data, hash, n, key)
    ensures n > 0 && AllAre(data, 0xff) ==> Marked(data, hash, n, key)
    ensures n > 0 && AllAre(data, 0) ==> !Marked(data, hash, n, key)
    ensures AllAre(data, 0xff) ==> AnySet(data)
  {
    if n > 0 {
      FullAndEmpty(data, hash, n, key);
    }
    if |data| > 0 && AllAre(data, 0xff) {
      assert data[0] != 0;
    }
  }

  lemma AnyBit(k: nat)
    requires k < 8
    ensures 0xff & Mask(k) != 0
  {
  }

  class BloomFilter {
    var vData: seq<Byte>
    var isFull: bool
    var isEmpty: bool
    const nHashFuncs: nat
    // the keyed hash, which may be any function
    const hash: (nat, Key) -> nat

    // There is an array to hash into.
    predicate Valid()
      reads this
    {
      |vData| > 0 || nHashFuncs == 0
    }

    // The shortcuts are taken only where they are right.
    predicate Faithful()
      reads this
    {
      (isFull ==> AllAre(vData, 0xff)) && (isEmpty ==> AllAre(vData, 0))
    }

    predicate Contains(key: Key)
      requires Valid()
      reads this
    {
      isFull || (!isEmpty && Marked(vData, hash, nHashFuncs, key))
    }

    // With the array and the hash count that the sizing formulas give.
    constructor (size: nat, nHashFuncs: nat, hash: (nat, Key) -> nat, isEmpty: bool)
      requires size > 0 || nHashFuncs == 0
      ensures Valid() && Faithful() && AllAre(vData, 0) && !isFull && this.isEmpty == isEmpty
      ensures |vData| == size && this.nHashFuncs == nHashFuncs && this.hash == hash
    {
      this.nHashFuncs, this.hash := nHashFuncs, hash;
      vData, isFull, this.isEmpty := seq(size, _ => 0), false, isEmpty;
    }

    // Sets the bits of the key and no others.
    method Insert(key: Key)
      requires Valid()
      modifies this`vData, this`isEmpty
      ensures Valid() && (old(Faithful()) ==> Faithful())
      ensures isFull ==> vData == old(vData) && isEmpty == old(isEmpty)
      ensures !isFull ==> !isEmpty && Added(old(vData), vData, hash, nHashFuncs, key)
      ensures Contains(key) && forall k :: old(Contains(k)) ==> Contains(k)
    {
      hide BitAt, Mask, Touched, Added, Marked, BitIndex;
      if isFull {
        return;
      }
      NothingAdded(vData, hash, key);
      for i := 0 to nHashFuncs
        invariant Valid() && |vData| == old(|vData|) && Added(old(vData), vData, hash, i, key)
      {
        var nIndex := BitIndex(hash, |vData|, i, key);
        AddedMore(old(vData), vData, hash, i, key);
        vData := vData[nIndex / 8 := vData[nIndex / 8] | Mask(nIndex % 8)];
      }
      isEmpty := false;
      AddedMarks(old(vData), vData, hash, nHashFuncs, key);
    }

    method Check(key: Key) returns (found: bool)
      requires Valid()
      ensures found == Contains(key)
    {
      if isFull {
        return true;
      }
      if isEmpty {
        return false;
      }
      for i := 0 to nHashFuncs
        invariant Marked(vData, hash, i, key)
      {
        var nIndex := BitIndex(hash, |vData|, i, key);
        if vData[nIndex / 8] & Mask(nIndex % 8) == 0 {
          assert !BitAt(vData, BitIndex(hash, |vData|, i, key));
          return false;
        }
      }
      return true;
    }

    method Clear()
      requires Valid()
      modifies this
      ensures Valid() && Faithful() && |vData| == old(|vData|) && AllAre(vData, 0) && !isFull && isEmpty
      ensures forall k :: !Contains(k)
    {
      vData := seq(|vData|, _ => 0);
      isFull, isEmpty := false, true;
    }

    // The shortcuts set again from the bits, after which every answer follows
    // from them. Where the shortcuts were right before, or there are no hashes, no
    // answer changes exactly if there are hashes, or the shortcuts already said
    // what the bits say.
    method UpdateEmptyFull()
      requires Valid()
      modifies this`isFull, this`isEmpty
      ensures Valid() && Faithful() && isFull == AllAre(vData, 0xff) && isEmpty == AllAre(vData, 0)
      ensures forall k :: Contains(k) <==> AnySet(vData) && Marked(vData, hash, nHashFuncs, k)
      ensures old(Faithful()) || nHashFuncs == 0 ==>
                ((forall k :: Contains(k) == old(Contains(k)))
                 <==> nHashFuncs > 0 || old(isFull || !isEmpty) == AnySet(vData))
    {
      hide Marked;
      var full, empty := true, true;
      for i := 0 to |vData|
        invariant full == AllAre(vData[..i], 0xff) && empty == AllAre(vData[..i], 0)
      {
        full := full && vData[i] == 0xff;
        empty := empty && vData[i] == 0;
        AllMore(vData, i, 0xff);
        AllMore(vData, i, 0);
      }
      assert vData[..|vData|] == vData;
      isFull, isEmpty := full, empty;
      forall k ensures Contains(k) <==> AnySet(vData) && Marked(vData, hash, nHashFuncs, k) {
        Shortcuts(vData, hash, nHashFuncs, k);
      }
      forall k ensures nHashFuncs > 0 && old(Faithful()) ==> Contains(k) == old(Contains(k)) {
        Shortcuts(vData, hash, nHashFuncs, k);
      }
      ghost var said := old(isFull || !isEmpty);
      forall k ensures nHashFuncs == 0 ==> Contains(k) == AnySet(vData) && old(Contains(k)) == said {
        Shortcuts(vData, hash, nHashFuncs, k);
      }
      assert nHashFuncs == 0 ==> Contains([]) == AnySet(vData) && old(Contains([])) == said;
    }
  }

  lemma NothingAdded(data: seq<Byte>, hash: (nat, Key) -> nat, key: Key)
    ensures Added(data, data, hash, 0, key)
  {
  }

  lemma AllMore(s: seq<Byte>, i: nat, b: Byte)
    requires i < |s|
    ensures AllAre(s[..i + 1], b) <==> AllAre(s[..i], b) && s[i] == b
  {
    assert s[..i + 1] == s[..i] + [s[i]];
    if AllAre(s[..i + 1], b) {
      assert s[..i + 1][i] == s[i];
      forall k | 0 <= k < i ensures s[..i][k] == b {
        assert s[..i + 1][k] == s[..i][k];
      }
    }
  }

  // The last keys of a history, up to so many.
  function Window(history: seq<Key>, reach: nat): (w: seq<Key>)
    ensures |w| <= reach && |w| <= |history|
    ensures forall i :: 0 <= i < |history| && |history| - i <= reach ==> history[i] in w
    ensures forall k :: k in w ==> exists i :: 0 <= i < |history| && |history| - i <= reach && history[i] == k
  {
    var start := if |history| > reach then |history| - reach else 0;
    InTail(history, start);
    history[start..]
  }

  lemma InTail(s: seq<Key>, start: nat)
    requires start <= |s|
    ensures forall i :: start <= i < |s| ==> s[i] in s[start..]
    ensures forall k :: k in s[start..] ==> exists i :: start <= i < |s| && s[i] == k
  {
    forall i | start <= i < |s| ensures s[i] in s[start..] {
      assert s[start..][i - start] == s[i];
    }
  }

  lemma WindowNests(history: seq<Key>, reach: nat, more: nat)
    requires reach <= more
    ensures forall k :: k in Window(history, reach) ==> k in Window(history, more)
  {
  }

  // Some key of the window has one of its bits here.
  predicate TouchedBy(hash: (nat, Key) -> nat, size: nat, n: nat, window: seq<Key>, p: nat)
    requires size > 0
  {
    exists j :: 0 <= j < |window| && Touched(hash, size, n, window[j], p)
  }

  // Each bit of the key is one that a key of the window has, too.
  predicate Covered(hash: (nat, Key) -> nat, size: nat, n: nat, window: seq<Key>, key: Key)
    requires size > 0 || n == 0
  {
    forall i :: 0 <= i < n ==> TouchedBy(hash, size, n, window, BitIndex(hash, size, i, key))
  }

  // A key covers itself.
  lemma CoversOwn(hash: (nat, Key) -> nat, size: nat, n: nat, window: seq<Key>, key: Key)
    requires (size > 0 || n == 0) && key in window
    ensures Covered(hash, size, n, window, key)
  {
    var j :| 0 <= j < |window| && window[j] == key;
    forall i | 0 <= i < n ensures TouchedBy(hash, size, n, window, BitIndex(hash, size, i, key)) {
      assert Touched(hash, size, n, window[j], BitIndex(hash, size, i, key));
    }
  }

  // What covers goes on doing so.
  lemma CoversMore(hash: (nat, Key) -> nat, size: nat, n: nat, a: seq<Key>, b: seq<Key>, key: Key)
    requires (size > 0 || n == 0) && Covered(hash, size, n, a, key) && forall k :: k in a ==> k in b
    ensures Covered(hash, size, n, b, key)
  {
    hide Touched;
    forall i | 0 <= i < n ensures TouchedBy(hash, size, n, b, BitIndex(hash, size, i, key)) {
      var p := BitIndex(hash, size, i, key);
      assert TouchedBy(hash, size, n, a, p);
      var j :| 0 <= j < |a| && Touched(hash, size, n, a[j], p);
      assert a[j] in b;
    }
  }

  // The bits set are those of the keys of the window, no more and no less.
  ghost predicate Remembers(b: BloomFilter, window: seq<Key>)
    requires b.Valid()
    reads b
  {
    && !b.isFull && (b.isEmpty <==> window == [])
    && forall p :: 0 <= p < 8 * |b.vData| ==>
         (BitAt(b.vData, p) <==> TouchedBy(b.hash, |b.vData|, b.nHashFuncs, window, p))
  }

  lemma NothingToRemember(b: BloomFilter)
    requires b.Valid() && !b.isFull && b.isEmpty && AllAre(b.vData, 0)
    ensures Remembers(b, [])
  {
    ZeroBits(b.vData);
  }

  // So what is found is what the window covers.
  lemma Remembered(b: BloomFilter, window: seq<Key>, key: Key)
    requires b.Valid() && Remembers(b, window)
    ensures b.Contains(key) <==> window != [] && Covered(b.hash, |b.vData|, b.nHashFuncs, window, key)
  {
    hide BitAt, TouchedBy;
  }

  lemma OneMoreTouches(hash: (nat, Key) -> nat, size: nat, n: nat, window: seq<Key>, key: Key, p: nat)
    requires size > 0
    ensures TouchedBy(hash, size, n, window + [key], p)
            <==> TouchedBy(hash, size, n, window, p) || Touched(hash, size, n, key, p)
  {
    hide Touched;
    var more := window + [key];
    assert more[|window|] == key;
    if TouchedBy(hash, size, n, window, p) {
      var j :| 0 <= j < |window| && Touched(hash, size, n, window[j], p);
      assert Touched(hash, size, n, more[j], p);
    }
  }

  method Remember(b: BloomFilter, key: Key, ghost window: seq<Key>)
    requires b.Valid() && Remembers(b, window)
    modifies b`vData, b`isEmpty
    ensures b.Valid() && Remembers(b, window + [key]) && |b.vData| == old(|b.vData|)
  {
    hide Touched, TouchedBy, Marked, BitAt;
    b.Insert(key);
    forall p | 0 <= p < 8 * |b.vData|
      ensures BitAt(b.vData, p) <==> TouchedBy(b.hash, |b.vData|, b.nHashFuncs, window + [key], p)
    {
      OneMoreTouches(b.hash, |b.vData|, b.nHashFuncs, window, key, p);
    }
  }

  lemma WindowMoves(history: seq<Key>, key: Key, reach: nat)
    ensures Window(history + [key], reach + 1) == Window(history, reach) + [key]
  {
  }

  class RollingBloomFilter {
    const nElements: nat
    const nBloomSize: nat
    var nInsertions: nat
    const b1: BloomFilter
    const b2: BloomFilter
    // everything inserted, the latest last
    ghost var history: seq<Key>

    // How far back each of the two filters reaches.
    ghost function Reach1(): nat
      reads this
    {
      if nInsertions == 0 then nBloomSize else nInsertions
    }

    ghost function Reach2(): nat
      reads this
    {
      if nInsertions <= nElements then nInsertions + nElements else nInsertions - nElements
    }

    ghost predicate Valid()
      reads this, b1, b2
    {
      && nElements >= 1 && nBloomSize == nElements * 2 && nInsertions < nBloomSize && b1 != b2
      && b1.Valid() && b2.Valid() && |b1.vData| == |b2.vData|
      && b1.nHashFuncs == b2.nHashFuncs && b1.hash == b2.hash
      && Remembers(b1, Window(history, Reach1())) && Remembers(b2, Window(history, Reach2()))
    }

    // The keys that answers come from: at least nElements, if there were so many,
    // and less than twice that.
    ghost function Recent(): seq<Key>
      reads this
    {
      Window(history, if nInsertions < nElements then nInsertions + nElements else nInsertions)
    }

    // Each bit of the key is one that a key of the window has.
    ghost predicate CoveredBy(window: seq<Key>, key: Key)
      requires |b1.vData| > 0 || b1.nHashFuncs == 0
      reads b1
    {
      Covered(b1.hash, |b1.vData|, b1.nHashFuncs, window, key)
    }

    constructor (nElements: nat, size: nat, nHashFuncs: nat, hash: (nat, Key) -> nat)
      requires nElements >= 1 && (size > 0 || nHashFuncs == 0)
      ensures Valid() && history == [] && this.nElements == nElements && fresh(b1) && fresh(b2)
      ensures |b1.vData| == size && b1.nHashFuncs == nHashFuncs && b1.hash == hash
    {
      this.nElements, nBloomSize, nInsertions, history := nElements, nElements * 2, 0, [];
      b1 := new BloomFilter(size, nHashFuncs, hash, true);
      b2 := new BloomFilter(size, nHashFuncs, hash, true);
      new;
      NothingToRemember(b1);
      NothingToRemember(b2);
    }

    method Insert(key: Key)
      requires Valid()
      modifies this`nInsertions, this`history, b1, b2
      ensures Valid() && history == old(history) + [key] && |b1.vData| == old(|b1.vData|)
    {
      hide Remembers, Marked, AllAre, Window;
      ghost var reach1, reach2 := Reach1(), Reach2();
      if nInsertions == 0 {
        b1.Clear();
        reach1 := 0;
        NothingToRemember(b1);
      } else if nInsertions == nBloomSize / 2 {
        b2.Clear();
        reach2 := 0;
        NothingToRemember(b2);
      }
      Remember(b1, key, Window(history, reach1));
      Remember(b2, key, Window(history, reach2));
      WindowMoves(history, key, reach1);
      WindowMoves(history, key, reach2);
      history := history + [key];
      nInsertions := nInsertions + 1;
      if nInsertions == nBloomSize {
        nInsertions := 0;
      }
    }

    // Answers exactly from the recent keys: true for each of the last nElements,
    // whatever came before, and otherwise only when all bits of the key belong to
    // some of the last 2 * nElements.
    method Check(key: Key) returns (found: bool)
      requires Valid()
      ensures found <==> Recent() != [] && CoveredBy(Recent(), key)
      ensures key in Window(history, nElements) ==> found
      ensures found ==> history != [] && CoveredBy(Window(history, 2 * nElements), key)
    {
      hide Remembers, Window, Covered;
      if nInsertions < nBloomSize / 2 {
        found := b2.Check(key);
        Remembered(b2, Recent(), key);
      } else {
        found := b1.Check(key);
        Remembered(b1, Recent(), key);
      }
      ghost var reach := if nInsertions < nElements then nInsertions + nElements else nInsertions;
      WindowNests(history, nElements, reach);
      WindowNests(history, reach, 2 * nElements);
      if key in Window(history, nElements) {
        CoversOwn(b1.hash, |b1.vData|, b1.nHashFuncs, Recent(), key);
        assert Recent() != [];
      }
      if found {
        CoversMore(b1.hash, |b1.vData|, b1.nHashFuncs, Recent(), Window(history, 2 * nElements), key);
        assert Recent()[0] in Recent();
      }
    }

    method Clear()
      requires Valid()
      modifies this`nInsertions, this`history, b1, b2
      ensures Valid() && history == [] && nInsertions == 0 && |b1.vData| == old(|b1.vData|)
      ensures forall k :: !b1.Contains(k) && !b2.Contains(k)
    {
      b1.Clear();
      b2.Clear();
      nInsertions, history := 0, [];
      NothingToRemember(b1);
      NothingToRemember(b2);
    }
  }

  // Any run of insertions, then a query: no key in the window is missed, and none is
  // found that the keys of twice the window do not cover.
  method InsertAll(filter: RollingBloomFilter, keys: seq<Key>, key: Key) returns (found: bool)
    requires filter.Valid()
    modifies filter, filter.b1, filter.b2
    ensures filter.Valid() && filter.history == old(filter.history) + keys
    ensures key in Window(keys, filter.nElements) ==> found
    ensures found ==> filter.history != []
                      && filter.CoveredBy(Window(filter.history, 2 * filter.nElements), key)
  {
    hide Window, Covered, Remembers;
    for i := 0 to |keys|
      invariant filter.Valid() && filter.history == old(filter.history) + keys[..i]
    {
      assert keys[..i + 1] == keys[..i] + [keys[i]];
      filter.Insert(keys[i]);
    }
    assert keys[..|keys|] == keys;
    found := filter.Check(key);
    WindowOfTail(old(filter.history), keys, filter.nElements, key);
  }

  lemma WindowOfTail(before: seq<Key>, keys: seq<Key>, reach: nat, key: Key)
    ensures key in Window(keys, reach) ==> key in Window(before + keys, reach)
  {
    if key in Window(keys, reach) {
      var i :| 0 <= i < |keys| && |keys| - i <= reach && keys[i] == key;
      assert (before + keys)[|before| + i] == key;
    }
  }
}
