/** Bitmaps of free blocks and inodes: eight bits to a byte, searched first fit. */
module Bitmap {

  type Bits = seq<bv8>

  /** `0x1 << k`. */
  function Mask(k: nat): bv8
    requires k < 8
  {
    (1 as bv8) << k
  }

  predicate IsSet(bmap: Bits, n: nat)
    requires n < 8 * |bmap|
  {
    bmap[n / 8] & Mask(n % 8) != 0
  }

  function SetBit(bmap: Bits, n: nat): (r: Bits)
    requires n < 8 * |bmap|
    ensures |r| == |bmap|
  {
    bmap[n / 8 := bmap[n / 8] | Mask(n % 8)]
  }

  function ClrBit(bmap: Bits, n: nat): (r: Bits)
    requires n < 8 * |bmap|
    ensures |r| == |bmap|
  {
    bmap[n / 8 := bmap[n / 8] & !Mask(n % 8)]
  }

  lemma MaskBits(x: bv8, j: nat, k: nat)
    requires j < 8 && k < 8
    ensures (x | Mask(j)) & Mask(k) != 0 <==> j == k || x & Mask(k) != 0
    ensures (x & !Mask(j)) & Mask(k) != 0 <==> j != k && x & Mask(k) != 0
  {
    MaskValue(j);
    MaskValue(k);
  }

  lemma MaskValue(k: nat)
    requires k < 8
    ensures Mask(k) == if k == 0 then 1 else if k == 1 then 2 else if k == 2 then 4 else if k == 3 then 8
                       else if k == 4 then 16 else if k == 5 then 32 else if k == 6 then 64 else 128
  {
  }

  /** Setting a bit sets that bit and no other. */
  lemma SetOnly(bmap: Bits, n: nat, m: nat)
    requires n < 8 * |bmap| && m < 8 * |bmap|
    ensures IsSet(SetBit(bmap, n), m) <==> m == n || IsSet(bmap, m)
  {
    if n / 8 == m / 8 { MaskBits(bmap[n / 8], n % 8, m % 8); }
  }

  /** Clearing a bit clears that bit and no other. */
  lemma ClrOnly(bmap: Bits, n: nat, m: nat)
    requires n < 8 * |bmap| && m < 8 * |bmap|
    ensures IsSet(ClrBit(bmap, n), m) <==> m != n && IsSet(bmap, m)
  {
    if n / 8 == m / 8 { MaskBits(bmap[n / 8], n % 8, m % 8); }
  }

  /** The first free bit below `size`. The bitmap may be shorter than `size` if it has a free bit. */
  method FindFree(bmap: array<bv8>, size: nat) returns (found: bool, free: nat)
    requires size <= 8 * bmap.Length || exists n :: 0 <= n < 8 * bmap.Length && !IsSet(bmap[..], n)
    ensures found ==> free < size && free < 8 * bmap.Length && !IsSet(bmap[..], free)
    ensures found ==> forall n :: 0 <= n < free ==> IsSet(bmap[..], n)
    ensures !found ==> size <= 8 * bmap.Length && forall n :: 0 <= n < size ==> IsSet(bmap[..], n)
  {
    var i := 0;
    while i < size
      invariant 0 <= i <= size && i <= 8 * bmap.Length
      invariant forall n :: 0 <= n < i ==> IsSet(bmap[..], n)
    {
      if bmap[i / 8] & Mask(i % 8) == 0 {
        return true, i;
      }
      i := i + 1;
    }
    return false, 0;
  }

  method BmapSet(bmap: array<bv8>, n: nat)
    requires n < 8 * bmap.Length
    modifies bmap
    ensures bmap[..] == SetBit(old(bmap[..]), n)
  {
    bmap[n / 8] := bmap[n / 8] | Mask(n % 8);
  }

  method BmapClr(bmap: array<bv8>, n: nat)
    requires n < 8 * bmap.Length
    modifies bmap
    ensures bmap[..] == ClrBit(old(bmap[..]), n)
  {
    bmap[n / 8] := bmap[n / 8] & !Mask(n % 8);
  }
}
