/** The packed bitmap of core/kernel/mem/phys/physmem.c:12-20: bit f of the map is bit f % 8 of byte f / 8. */
module Bitmap {
  /** 1 << k */
  function Mask(k: nat): bv8
    requires k < 8
  {
    match k
    case 0 => 1 case 1 => 2 case 2 => 4 case 3 => 8
    case 4 => 16 case 5 => 32 case 6 => 64 case 7 => 128
  }

  predicate BitOf(b: bv8, k: nat)
    requires k < 8
  {
    b & Mask(k) != 0
  }

  lemma SetBit(b: bv8, k: nat, j: nat)
    requires k < 8 && j < 8
    ensures BitOf(b | Mask(k), j) == (j == k || BitOf(b, j))
  {
  }

  lemma ClearBit(b: bv8, k: nat, j: nat)
    requires k < 8 && j < 8
    ensures BitOf(b & !Mask(k), j) == (j != k && BitOf(b, j))
  {
  }

  predicate Test(bits: seq<bv8>, f: nat) {
    f / 8 < |bits| && BitOf(bits[f / 8], f % 8)
  }

  method BitmapSet(bits: array<bv8>, f: nat)
    requires f / 8 < bits.Length
    modifies bits
    ensures forall g: nat :: g / 8 < bits.Length ==> Test(bits[..], g) == (g == f || Test(old(bits[..]), g))
  {
    ghost var was := bits[..];
    bits[f / 8] := bits[f / 8] | Mask(f % 8);
    forall g: nat | g / 8 < bits.Length ensures Test(bits[..], g) == (g == f || Test(was, g)) {
      SetBit(was[f / 8], f % 8, g % 8);
    }
  }

  method BitmapClear(bits: array<bv8>, f: nat)
    requires f / 8 < bits.Length
    modifies bits
    ensures forall g: nat :: g / 8 < bits.Length ==> Test(bits[..], g) == (g != f && Test(old(bits[..]), g))
  {
    ghost var was := bits[..];
    bits[f / 8] := bits[f / 8] & !Mask(f % 8);
    forall g: nat | g / 8 < bits.Length ensures Test(bits[..], g) == (g != f && Test(was, g)) {
      ClearBit(was[f / 8], f % 8, g % 8);
    }
  }
}
