// Variable-length integers: base 128, one less in all but the last digit.
module VarInt {
  import opened Coins
  import opened Numbers

  predicate AreBytes(s: seq<nat>) {
    forall i :: 0 <= i < |s| ==> s[i] < 256
  }

  // The flag says that another byte follows.
  function Flagged(n: nat, flag: nat): (s: seq<nat>)
    ensures |s| >= 1
  {
    (if n <= 0x7f then [] else Flagged(n / 128 - 1, 0x80)) + [n % 128 + flag]
  }

  function Write(n: nat): (s: seq<nat>)
    ensures |s| >= 1
  {
    Flagged(n, 0)
  }

  // A value and the position after it.
  datatype Parsed<T> = Parsed(value: T, next: nat)

  // None at the end of the stream.
  function ReadFrom(s: seq<nat>, pos: nat, n: nat): (r: Option<Parsed<nat>>)
    ensures r.Some? ==> pos < r.value.next <= |s|
    decreases |s| - pos
  {
    if pos >= |s| then None
    else
      var m := n * 128 + s[pos] % 128;
      if s[pos] >= 0x80 then ReadFrom(s, pos + 1, m + 1) else Some(Parsed(m, pos + 1))
  }

  function Read(s: seq<nat>, pos: nat): (r: Option<Parsed<nat>>)
    ensures r.Some? ==> pos < r.value.next <= |s|
  {
    ReadFrom(s, pos, 0)
  }

  // s has t from position pos on.
  predicate Holds<T(==)>(s: seq<T>, pos: nat, t: seq<T>) {
    pos + |t| <= |s| && s[pos..pos + |t|] == t
  }

  lemma HoldsParts<T>(s: seq<T>, pos: nat, t: seq<T>, u: seq<T>)
    ensures Holds(s, pos, t + u) <==> Holds(s, pos, t) && Holds(s, pos + |t|, u)
  {
    if Holds(s, pos, t + u) {
      assert s[pos..pos + |t|] == s[pos..pos + |t + u|][..|t|];
      assert s[pos + |t|..pos + |t| + |u|] == s[pos..pos + |t + u|][|t|..];
    }
    if Holds(s, pos, t) && Holds(s, pos + |t|, u) {
      assert s[pos..pos + |t + u|] == s[pos..pos + |t|] + s[pos + |t|..pos + |t| + |u|];
    }
  }

  lemma FlaggedParts(n: nat, flag: nat)
    ensures Flagged(n, flag) == (if n <= 0x7f then [] else Flagged(n / 128 - 1, 0x80)) + [n % 128 + flag]
  {
  }

  // One byte read.
  lemma ReadByte(s: seq<nat>, pos: nat, n: nat, low: nat, flag: nat)
    requires Holds(s, pos, [low + flag]) && low < 128 && (flag == 0 || flag == 0x80)
    ensures ReadFrom(s, pos, n) == if flag == 0x80 then ReadFrom(s, pos + 1, n * 128 + low + 1)
                                   else Some(Parsed(n * 128 + low, pos + 1))
  {
    assert s[pos..pos + 1][0] == s[pos];
  }

  // Digits leave the number, plus one where more follows, for what comes next.
  lemma {:induction false} ReadDigits(s: seq<nat>, pos: nat, n: nat, flag: nat)
    requires Holds(s, pos, Flagged(n, flag)) && (flag == 0 || flag == 0x80)
    ensures ReadFrom(s, pos, 0) == var next := pos + |Flagged(n, flag)|;
                                   if flag == 0x80 then ReadFrom(s, next, n + 1) else Some(Parsed(n, next))
    decreases n
  {
    hide Flagged, ReadFrom;
    FlaggedParts(n, flag);
    var high := if n <= 0x7f then [] else Flagged(n / 128 - 1, 0x80);
    HoldsParts(s, pos, high, [n % 128 + flag]);
    ReadByte(s, pos + |high|, n / 128, n % 128, flag);
    if n > 0x7f {
      ReadDigits(s, pos, n / 128 - 1, 0x80);
    }
  }

  // What was written is read back, and the end is found.
  lemma ReadWritten(s: seq<nat>, pos: nat, n: nat)
    requires Holds(s, pos, Write(n))
    ensures Read(s, pos) == Some(Parsed(n, pos + |Write(n)|))
  {
    hide Flagged, ReadFrom;
    ReadDigits(s, pos, n, 0);
  }

  // The digits before position pos make up n - 1, or there are none.
  predicate Behind(s: seq<nat>, start: nat, pos: nat, n: nat)
    requires start <= pos <= |s|
  {
    if n == 0 then pos == start else s[start..pos] == Flagged(n - 1, 0x80)
  }

  lemma {:induction false} OnlyEncoding(s: seq<nat>, start: nat, pos: nat, n: nat)
    requires AreBytes(s) && start <= pos <= |s| && Behind(s, start, pos, n)
    requires ReadFrom(s, pos, n).Some?
    ensures var r := ReadFrom(s, pos, n).value; s[start..r.next] == Write(r.value)
    decreases |s| - pos
  {
    var m := n * 128 + s[pos] % 128;
    assert s[start..pos + 1] == s[start..pos] + [s[pos]];
    Remainder(m, 128, n, s[pos] % 128);
    if s[pos] >= 0x80 {
      OnlyEncoding(s, start, pos + 1, m + 1);
    }
  }

  // Every integer has one encoding: whatever parses is what would be written.
  lemma ReadIsWritten(s: seq<nat>, pos: nat)
    requires AreBytes(s) && pos <= |s| && Read(s, pos).Some?
    ensures var r := Read(s, pos).value; s[pos..r.next] == Write(r.value)
  {
    OnlyEncoding(s, pos, pos, 0);
  }

  // -------------------------------------------------------------- the loops

  // For values of signed types, too: a negative one counts as small.
  method GetSizeOfVarInt(value: int) returns (nRet: nat)
    ensures nRet == |Write(Kept(value))|
  {
    var n := value;
    nRet := 0;
    ghost var flag := 0;
    while true
      invariant nRet + |Flagged(Kept(n), flag)| == |Write(Kept(value))|
      decreases n
    {
      nRet := nRet + 1;
      if n <= 0x7f {
        break;
      }
      flag := 0x80;
      n := n / 128 - 1;
    }
  }

  // Digits go to a buffer, the last first, and are then written in reverse.
  method WriteVarInt(value: int) returns (s: seq<nat>)
    ensures s == Write(Kept(value))
  {
    hide Flagged, Reversed;
    var tmp: seq<nat> := [];
    var n := value;
    NothingReversed();
    assert Flagged(Kept(n), 0) + [] == Flagged(Kept(n), 0);
    while true
      invariant Write(Kept(value)) == Flagged(Kept(n), if tmp == [] then 0 else 0x80) + Reversed(tmp)
      decreases n
    {
      var flag := if tmp == [] then 0 else 0x80;
      FlaggedParts(Kept(n), flag);
      ReversedAppend(tmp, n % 128 + flag);
      tmp := tmp + [n % 128 + flag];
      if n <= 0x7f {
        assert Write(Kept(value)) == Reversed(tmp);
        break;
      }
      n := n / 128 - 1;
    }
    s := [];
    var len := |tmp|;
    assert tmp[..len] == tmp && [] + Reversed(tmp) == Reversed(tmp);
    while len > 0
      invariant 0 <= len <= |tmp| && s + Reversed(tmp[..len]) == Reversed(tmp)
    {
      assert tmp[..len] == tmp[..len - 1] + [tmp[len - 1]];
      ReversedAppend(tmp[..len - 1], tmp[len - 1]);
      s := s + [tmp[len - 1]];
      len := len - 1;
    }
    assert tmp[..0] == [] && s + [] == s;
  }

  lemma NothingReversed()
    ensures Reversed([]) == []
  {
  }

  function Reversed(s: seq<nat>): seq<nat> {
    if s == [] then [] else Reversed(s[1..]) + [s[0]]
  }

  lemma {:induction false} ReversedAppend(s: seq<nat>, x: nat)
    ensures Reversed(s + [x]) == [x] + Reversed(s)
  {
    if s != [] {
      ReversedAppend(s[1..], x);
      assert (s + [x])[1..] == s[1..] + [x];
    }
  }

  // Into an integer that holds values below the limit, and wraps.
  method ReadVarInt(s: seq<nat>, pos: nat, limit: nat) returns (ok: bool, value: nat, next: nat)
    requires limit > 0
    ensures ok <==> Read(s, pos).Some?
    ensures ok ==> value == Read(s, pos).value.value % limit && next == Read(s, pos).value.next
  {
    value, next := 0, pos;
    ghost var exact: nat := 0;
    while true
      invariant pos <= next && value == exact % limit
      invariant Read(s, pos) == ReadFrom(s, next, exact)
      decreases |s| - next
    {
      if next >= |s| {
        return false, 0, next;
      }
      var chData := s[next];
      WrapsAlike(exact, chData % 128, limit);
      value := (value * 128 + chData % 128) % limit;
      exact := exact * 128 + chData % 128;
      next := next + 1;
      if chData >= 0x80 {
        WrapsAlike(exact, 1, limit);
        value := (value + 1) % limit;
        exact := exact + 1;
      } else {
        return true, value, next;
      }
    }
  }

  lemma WrapsAlike(exact: nat, low: nat, limit: nat)
    requires limit > 0
    ensures (exact % limit * 128 + low) % limit == (exact * 128 + low) % limit
    ensures (exact % limit + 1) % limit == (exact + 1) % limit
  {
    var q, r := exact / limit, exact % limit;
    DivMod(exact, limit);
    Regroup(limit, q, 128);
    Regroup(limit, q * 128, 1);
    ModMultiple(r * 128 + low, q * 128, limit);
    ModMultiple(r + 1, q, limit);
  }
}
