// Single bits of byte sequences, the lowest bit of each byte first.
module Bits {
  type Byte = bv8

  function Mask(k: nat): Byte
    requires k < 8
  {
    match k
    case 0 => 1 case 1 => 2 case 2 => 4 case 3 => 8
    case 4 => 16 case 5 => 32 case 6 => 64 case 7 => 128
  }

  predicate BitAt(bytes: seq<Byte>, p: nat)
    requires p < 8 * |bytes|
  {
    bytes[p / 8] & Mask(p % 8) != 0
  }

  lemma SetBit(b: Byte, k: nat, j: nat)
    requires k < 8 && j < 8
    ensures ((b | Mask(k)) & Mask(j) != 0) <==> (j == k || b & Mask(j) != 0)
  {
    MasksApart(k, j);
  }

  lemma MasksApart(k: nat, j: nat)
    requires k < 8 && j < 8
    ensures Mask(k) & Mask(j) != 0 <==> k == j
  {
  }

  lemma ZeroBits(bytes: seq<Byte>)
    requires forall i :: 0 <= i < |bytes| ==> bytes[i] == 0
    ensures forall q :: 0 <= q < 8 * |bytes| ==> !BitAt(bytes, q)
  {
  }

  lemma SetBitAt(bytes: seq<Byte>, p: nat, q: nat)
    requires p < 8 * |bytes| && q < 8 * |bytes|
    ensures BitAt(bytes[p / 8 := bytes[p / 8] | Mask(p % 8)], q) <==> q == p || BitAt(bytes, q)
  {
    hide Mask;
    SamePlace(p, q);
    SetBit(bytes[p / 8], p % 8, q % 8);
    var packed := bytes[p / 8 := bytes[p / 8] | Mask(p % 8)];
    if p / 8 == q / 8 {
      assert packed[q / 8] == bytes[q / 8] | Mask(p % 8);
    } else {
      assert packed[q / 8] == bytes[q / 8];
    }
  }

  lemma SamePlace(p: nat, q: nat)
    ensures p == q <==> p / 8 == q / 8 && p % 8 == q % 8
  {
  }
}
