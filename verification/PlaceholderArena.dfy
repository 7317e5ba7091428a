/**
 The rules by which Windows manages a reserved range of addresses that is cut into placeholders.

 The reservation is at every moment a tiling of [0, size) by regions, each either free (a bare
 placeholder) or a view of the backing file. The four operations below accept exactly the requests the
 operating system accepts; everything else makes it return an error. Every operation takes, as ghost
 arguments, the decomposition of the tiling at the place the address names.
 */
module PlaceholderArena {
  import opened Options

  const PAGE_ALIGNMENT: nat := 0x1000

  predicate Aligned(x: int) {
    x % PAGE_ALIGNMENT == 0
  }

  datatype Region = Free(lo: nat, hi: nat) | View(lo: nat, hi: nat, host: nat)

  /** The regions cover [from, to) one after the other, without gap, overlap or empty region. */
  ghost predicate Tiles(rs: seq<Region>, from: nat, to: nat) {
    if rs == [] then from == to
    else rs[0].lo == from && from < rs[0].hi && Tiles(rs[1..], rs[0].hi, to)
  }

  /** What the hardware translates address x to: the offset into the backing file, if x is in a view. */
  ghost function TranslateRegions(rs: seq<Region>, x: nat): (r: Option<nat>) {
    if rs == [] then None
    else if rs[0].lo <= x < rs[0].hi then
      if rs[0].View? then Some(rs[0].host + (x - rs[0].lo)) else None
    else TranslateRegions(rs[1..], x)
  }

  class Arena {
    ghost var regions: seq<Region>
    const size: nat
    const backingSize: nat

    constructor Reserve(size: nat, backingSize: nat)
      requires 0 < size && Aligned(size)
      ensures regions == [Free(0, size)] && this.size == size && this.backingSize == backingSize
    {
      this.size := size;
      this.backingSize := backingSize;
      regions := [Free(0, size)];
    }

    /** VirtualFreeEx with MEM_PRESERVE_PLACEHOLDER: the range must be a proper part of one placeholder. */
    method Split(lo: nat, length: nat, ghost pre: seq<Region>, ghost r: Region, ghost post: seq<Region>)
      requires Aligned(lo) && Aligned(length)
      requires regions == pre + [r] + post && r.Free?
      requires 0 < length && r.lo <= lo && lo + length <= r.hi
      requires r.lo < lo || lo + length < r.hi
      modifies this
      ensures regions == pre + Pieces(r.lo, lo, lo + length, r.hi) + post
    {
      regions := pre + Pieces(r.lo, lo, lo + length, r.hi) + post;
    }

    /** VirtualFreeEx with MEM_COALESCE_PLACEHOLDERS: the range must be the union of two or more placeholders. */
    method Coalesce(lo: nat, length: nat, ghost pre: seq<Region>, ghost mid: seq<Region>, ghost post: seq<Region>)
      requires Aligned(lo) && Aligned(length)
      requires regions == pre + mid + post
      requires 2 <= |mid| && (forall r <- mid :: r.Free?)
      requires mid[0].lo == lo && mid[|mid| - 1].hi == lo + length
      modifies this
      ensures regions == pre + [Free(lo, lo + length)] + post
    {
      regions := pre + [Free(lo, lo + length)] + post;
    }

    /** MapViewOfFile3 with MEM_REPLACE_PLACEHOLDER: the range must be exactly one placeholder. */
    method MapView(lo: nat, host: nat, length: nat, ghost pre: seq<Region>, ghost post: seq<Region>)
      requires Aligned(lo) && Aligned(host) && Aligned(length) && host + length <= backingSize
      requires regions == pre + [Free(lo, lo + length)] + post
      modifies this
      ensures regions == pre + [View(lo, lo + length, host)] + post
    {
      regions := pre + [View(lo, lo + length, host)] + post;
    }

    /** UnmapViewOfFile2 with MEM_PRESERVE_PLACEHOLDER: the address must be the base of a whole view. */
    method UnmapView(base: nat, ghost pre: seq<Region>, ghost r: Region, ghost post: seq<Region>)
      requires regions == pre + [r] + post && r.View? && r.lo == base
      modifies this
      ensures regions == pre + [Free(base, r.hi)] + post
    {
      regions := pre + [Free(base, r.hi)] + post;
    }

    /** VirtualFree with MEM_RELEASE: only a reservation that is one single placeholder can be given back. */
    method Release()
      requires regions == [Free(0, size)]
      modifies this
      ensures regions == []
    {
      regions := [];
    }
  }

  /** A free gap, absent when it is empty. */
  function Gap(lo: nat, hi: nat): seq<Region> {
    if lo < hi then [Free(lo, hi)] else []
  }

  /** The two or three placeholders a split leaves behind. */
  ghost function Pieces(lo: nat, cutLo: nat, cutHi: nat, hi: nat): seq<Region> {
    Gap(lo, cutLo) + [Free(cutLo, cutHi)] + Gap(cutHi, hi)
  }

  /** In a tiling an address lies in one region only, so the ghost arguments above are forced. */
  lemma {:induction false} TilingUnique(rs: seq<Region>, from: nat, to: nat, i: nat, j: nat, x: nat)
    requires Tiles(rs, from, to) && i < |rs| && j < |rs|
    requires rs[i].lo <= x < rs[i].hi && rs[j].lo <= x < rs[j].hi
    ensures i == j
  {
    if i == 0 && j > 0 {
      TilingBounds(rs[1..], rs[0].hi, to, j - 1);
    } else if j == 0 && i > 0 {
      TilingBounds(rs[1..], rs[0].hi, to, i - 1);
    } else if i > 0 {
      TilingUnique(rs[1..], rs[0].hi, to, i - 1, j - 1, x);
    }
  }

  lemma {:induction false} TilingBounds(rs: seq<Region>, from: nat, to: nat, i: nat)
    requires Tiles(rs, from, to) && i < |rs|
    ensures from <= rs[i].lo < rs[i].hi <= to
  {
    if i > 0 {
      TilingBounds(rs[1..], rs[0].hi, to, i - 1);
      assert from < rs[0].hi;
    } else if |rs| > 1 {
      TilingBounds(rs[1..], rs[0].hi, to, |rs| - 2);
      TilingBounds(rs[1..], rs[0].hi, to, 0);
    }
  }
}
