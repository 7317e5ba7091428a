/**
 The bump allocator of the demangler: small requests are cut off the newest block, oversize requests get a
 block of their own behind it, and reset gives every block back except the buffer inside the allocator.
 Addresses are numbers; malloc enters through what it promises.
 */
module BumpAllocator {

  const ALLOC_SIZE := 4096
  const HEADER_SIZE := 16
  const USABLE_ALLOC_SIZE := ALLOC_SIZE - HEADER_SIZE
  const WORD32 := 0x1_0000_0000
  const WORD64 := 0x1_0000_0000_0000_0000

  /** Adding 15 and masking with ~15u, an unsigned 32-bit mask that also clears the upper half of a size_t. */
  function Rounded(n: nat): nat {
    ((n + 15) % WORD64) % WORD32 / 16 * 16
  }

  /** A request is rounded up to a multiple of 16 exactly up to 2^32 - 16 bytes; beyond that it shrinks. */
  lemma RoundedCovers(n: nat)
    requires n < WORD64
    ensures Rounded(n) % 16 == 0 && Rounded(n) < WORD32
    ensures Rounded(n) >= n <==> n <= WORD32 - 16
    ensures n <= WORD32 - 16 ==> Rounded(n) < n + 16
  {
    if n <= WORD32 - 16 {
      assert (n + 15) % WORD64 % WORD32 == n + 15;
    }
  }

  // ---------------------------------------------------------------------------------------------
  // malloc and free
  // ---------------------------------------------------------------------------------------------

  ghost predicate Apart(a: nat, n: nat, b: nat, m: nat) {
    a + n <= b || b + m <= a
  }

  /** The C heap: blocks above the static storage. */
  class Heap {
    const floor: nat
    ghost var live: map<nat, nat>
    var top: nat

    ghost predicate Valid()
      reads this
    {
      && floor <= top && top % 16 == 0
      && forall a :: a in live ==> floor <= a && 0 < live[a] && a + live[a] <= top
    }

    constructor (floor: nat)
      ensures Valid() && live == map[] && this.floor == floor
    {
      this.floor := floor;
      live := map[];
      top := (floor + 15) / 16 * 16;
    }

    /** Storage apart from every live block, aligned for anything. */
    method Malloc(size: nat) returns (p: nat)
      requires Valid() && 0 < size
      modifies this
      ensures Valid()
      ensures p % 16 == 0 && floor <= p && p !in old(live) && live == old(live)[p := size]
      ensures forall a :: a in old(live) ==> Apart(a, live[a], p, size)
    {
      p := top;
      live := live[p := size];
      top := (top + size + 15) / 16 * 16;
    }

    /** Only a live block may be freed, so a second free of it would be an error. */
    method Free(p: nat)
      requires Valid() && p in live
      modifies this
      ensures Valid() && live == old(live) - {p}
    {
      live := live - {p};
    }
  }

  // ---------------------------------------------------------------------------------------------
  // Blocks and regions
  // ---------------------------------------------------------------------------------------------

  /** A block and its header's Current; the header takes the first 16 bytes. */
  datatype Block = Block(base: nat, size: nat, current: nat)

  /** What a request was given, relative to its block. */
  datatype Region = Region(base: nat, offset: nat, len: nat) {
    function Address(): nat {
      base + offset
    }
  }

  ghost predicate BlockOk(b: Block) {
    b.base % 16 == 0 && HEADER_SIZE + b.current <= b.size
  }

  ghost predicate AllApart(blocks: seq<Block>) {
    forall i, j :: 0 <= i < j < |blocks| ==>
      Apart(blocks[i].base, blocks[i].size, blocks[j].base, blocks[j].size)
  }

  ghost predicate Inside(r: Region, b: Block) {
    r.base == b.base && HEADER_SIZE <= r.offset && r.offset + r.len <= b.size
  }

  /** Inside a block, aligned, and in the bump block below its Current. */
  ghost predicate Placed(r: Region, blocks: seq<Block>)
    requires |blocks| > 0
  {
    && r.Address() % 16 == 0
    && (exists i :: 0 <= i < |blocks| && Inside(r, blocks[i]))
    && (r.base == blocks[0].base ==> r.offset + r.len <= HEADER_SIZE + blocks[0].current)
  }

  ghost predicate RegionsApart(regions: seq<Region>) {
    forall i, j :: 0 <= i < j < |regions| ==>
      Apart(regions[i].Address(), regions[i].len, regions[j].Address(), regions[j].len)
  }

  ghost predicate Layout(blocks: seq<Block>, regions: seq<Region>) {
    && |blocks| > 0
    && blocks[0].size == ALLOC_SIZE
    && blocks[0].current % 16 == 0
    && (forall i :: 0 <= i < |blocks| ==> BlockOk(blocks[i]))
    && AllApart(blocks)
    && (forall k :: 0 <= k < |regions| ==> Placed(regions[k], blocks))
    && RegionsApart(regions)
  }

  /** A region cut off above everything placed in its block is apart from all others. */
  lemma CutIsApart(blocks: seq<Block>, regions: seq<Region>, r: Region, i: nat)
    requires Layout(blocks, regions) && i < |blocks| && Inside(r, blocks[i])
    requires forall k :: 0 <= k < |regions| && regions[k].base == r.base ==> regions[k].offset + regions[k].len <= r.offset
    ensures RegionsApart(regions + [r])
  {
    var longer := regions + [r];
    forall k, l | 0 <= k < l < |longer|
      ensures Apart(longer[k].Address(), longer[k].len, longer[l].Address(), longer[l].len)
    {
      if l == |regions| {
        assert Placed(regions[k], blocks);
        var j :| 0 <= j < |blocks| && Inside(regions[k], blocks[j]);
        if j < i {
          assert Apart(blocks[j].base, blocks[j].size, blocks[i].base, blocks[i].size);
        } else if i < j {
          assert Apart(blocks[i].base, blocks[i].size, blocks[j].base, blocks[j].size);
        }
      }
    }
  }

  /** Cutting n bytes off the bump block. */
  lemma BumpKeeps(blocks: seq<Block>, regions: seq<Region>, n: nat, bumped: seq<Block>, r: Region)
    requires Layout(blocks, regions) && n % 16 == 0 && blocks[0].current + n <= USABLE_ALLOC_SIZE
    requires bumped == [blocks[0].(current := blocks[0].current + n)] + blocks[1..]
    requires r == Region(blocks[0].base, HEADER_SIZE + blocks[0].current, n)
    ensures Layout(bumped, regions + [r])
  {
    assert Inside(r, blocks[0]) && Inside(r, bumped[0]);
    CutIsApart(blocks, regions, r, 0);
    forall k | 0 <= k < |regions| ensures Placed(regions[k], bumped) {
      var j :| 0 <= j < |blocks| && Inside(regions[k], blocks[j]);
      assert Inside(regions[k], bumped[j]);
    }
    assert Placed(r, bumped);
  }

  ghost predicate ApartFromAll(b: Block, blocks: seq<Block>) {
    forall i :: 0 <= i < |blocks| ==> Apart(blocks[i].base, blocks[i].size, b.base, b.size)
  }

  /** A block linked in at position p, 0 or 1. */
  lemma LinkKeepsApart(blocks: seq<Block>, b: Block, p: nat)
    requires AllApart(blocks) && p <= |blocks| && ApartFromAll(b, blocks)
    ensures AllApart(blocks[..p] + [b] + blocks[p..])
  {
    var linked := blocks[..p] + [b] + blocks[p..];
    forall i, j | 0 <= i < j < |linked|
      ensures Apart(linked[i].base, linked[i].size, linked[j].base, linked[j].size)
    {
      var i' := if i < p then i else i - 1;
      var j' := if j < p then j else j - 1;
      if i == p {
        assert linked[j] == blocks[j'];
      } else if j == p {
        assert linked[i] == blocks[i];
      } else {
        assert linked[i] == blocks[i'] && linked[j] == blocks[j'];
      }
    }
  }

  lemma StillInside(r: Region, blocks: seq<Block>, b: Block, p: nat)
    requires p <= |blocks| && exists i :: 0 <= i < |blocks| && Inside(r, blocks[i])
    ensures exists i :: 0 <= i < |blocks[..p] + [b] + blocks[p..]| && Inside(r, (blocks[..p] + [b] + blocks[p..])[i])
  {
    var i :| 0 <= i < |blocks| && Inside(r, blocks[i]);
    var linked := blocks[..p] + [b] + blocks[p..];
    assert linked[if i < p then i else i + 1] == blocks[i];
  }

  /** grow: the new block becomes the bump block. */
  lemma GrowKeeps(blocks: seq<Block>, regions: seq<Region>, b: Block)
    requires Layout(blocks, regions) && b.size == ALLOC_SIZE && b.current == 0 && b.base % 16 == 0
    requires ApartFromAll(b, blocks)
    ensures Layout([b] + blocks, regions)
  {
    var linked := [b] + blocks;
    assert linked == blocks[..0] + [b] + blocks[0..];
    LinkKeepsApart(blocks, b, 0);
    forall k | 0 <= k < |regions| ensures Placed(regions[k], linked) {
      assert Placed(regions[k], blocks);
      StillInside(regions[k], blocks, b, 0);
      var i :| 0 <= i < |blocks| && Inside(regions[k], blocks[i]);
    }
  }

  /** allocateMassive: the new block goes behind the bump block, which stays as it is. */
  lemma MassiveKeeps(blocks: seq<Block>, regions: seq<Region>, b: Block, r: Region)
    requires Layout(blocks, regions) && b.current == 0 && b.base % 16 == 0 && HEADER_SIZE < b.size
    requires ApartFromAll(b, blocks) && r == Region(b.base, HEADER_SIZE, b.size - HEADER_SIZE)
    ensures Layout([blocks[0], b] + blocks[1..], regions + [r])
  {
    var linked := [blocks[0], b] + blocks[1..];
    assert linked == blocks[..1] + [b] + blocks[1..];
    LinkKeepsApart(blocks, b, 1);
    forall k | 0 <= k < |regions| ensures Placed(regions[k], linked) && regions[k].base != b.base {
      assert Placed(regions[k], blocks);
      StillInside(regions[k], blocks, b, 1);
      var i :| 0 <= i < |blocks| && Inside(regions[k], blocks[i]);
    }
    assert Layout(linked, regions);
    assert Inside(r, linked[1]);
    CutIsApart(linked, regions, r, 1);
    assert Placed(r, linked);
  }

  /** The blocks of the list are the initial buffer and the live blocks of the heap. */
  ghost predicate Owns(blocks: seq<Block>, live: map<nat, nat>, initial: nat) {
    && (forall i :: 0 <= i < |blocks| ==> OwnBlock(blocks[i], live, initial))
    && (forall a :: a in live ==> exists i :: 0 <= i < |blocks| && blocks[i].base == a)
  }

  ghost predicate OwnBlock(b: Block, live: map<nat, nat>, initial: nat) {
    if b.base == initial then b.size == ALLOC_SIZE else b.base in live && b.size == live[b.base]
  }

  lemma OwnsNew(blocks: seq<Block>, live: map<nat, nat>, initial: nat, b: Block, p: nat)
    requires Owns(blocks, live, initial) && p <= |blocks| && b.base !in live && b.base != initial
    ensures Owns(blocks[..p] + [b] + blocks[p..], live[b.base := b.size], initial)
  {
    var linked, more := blocks[..p] + [b] + blocks[p..], live[b.base := b.size];
    forall a | a in more ensures exists i :: 0 <= i < |linked| && linked[i].base == a {
      if a == b.base {
        assert linked[p].base == a;
      } else {
        var i :| 0 <= i < |blocks| && blocks[i].base == a;
        assert linked[if i < p then i else i + 1].base == a;
      }
    }
    forall i | 0 <= i < |linked| ensures OwnBlock(linked[i], more, initial) {
      if i != p {
        assert linked[i] == blocks[if i < p then i else i - 1];
      }
    }
  }

  lemma OwnsSame(blocks: seq<Block>, bumped: seq<Block>, live: map<nat, nat>, initial: nat)
    requires Owns(blocks, live, initial) && |blocks| == |bumped|
    requires forall i :: 0 <= i < |blocks| ==> bumped[i].base == blocks[i].base && bumped[i].size == blocks[i].size
    ensures Owns(bumped, live, initial)
  {
    forall a | a in live ensures exists i :: 0 <= i < |bumped| && bumped[i].base == a {
      var i :| 0 <= i < |blocks| && blocks[i].base == a;
      assert bumped[i].base == a;
    }
  }

  /** Without its first block the list owns what is left when that block is freed. */
  lemma OwnsRest(blocks: seq<Block>, live: map<nat, nat>, initial: nat)
    requires Owns(blocks, live, initial) && AllApart(blocks) && blocks != [] && initial !in live
    requires forall i :: 0 <= i < |blocks| ==> BlockOk(blocks[i])
    ensures Owns(blocks[1..], live - {blocks[0].base}, initial)
    ensures AllApart(blocks[1..])
  {
    var rest, first := blocks[1..], blocks[0];
    forall i | 0 <= i < |rest| ensures OwnBlock(rest[i], live - {first.base}, initial) {
      assert Apart(blocks[0].base, blocks[0].size, blocks[i + 1].base, blocks[i + 1].size);
    }
    forall a | a in live - {first.base} ensures exists i :: 0 <= i < |rest| && rest[i].base == a {
      var i :| 0 <= i < |blocks| && blocks[i].base == a;
      assert rest[i - 1].base == a;
    }
  }

  // ---------------------------------------------------------------------------------------------
  // The allocator
  // ---------------------------------------------------------------------------------------------

  class BumpPointerAllocator {
    const initialBuffer: nat
    const heap: Heap
    var blocks: seq<Block>
    ghost var regions: seq<Region>

    ghost predicate Valid()
      reads this, heap
    {
      && heap.Valid() && initialBuffer + ALLOC_SIZE <= heap.floor && initialBuffer % 16 == 0
      && Owns(blocks, heap.live, initialBuffer)
      && Layout(blocks, regions)
    }

    constructor (initialBuffer: nat, heap: Heap)
      requires heap.Valid() && heap.live == map[] && initialBuffer % 16 == 0 && initialBuffer + ALLOC_SIZE <= heap.floor
      ensures Valid() && regions == [] && this.heap == heap && this.initialBuffer == initialBuffer
      ensures blocks == [Block(initialBuffer, ALLOC_SIZE, 0)]
    {
      this.initialBuffer, this.heap := initialBuffer, heap;
      blocks := [Block(initialBuffer, ALLOC_SIZE, 0)];
      regions := [];
    }

    /** A block from the heap, apart from all those in the list. */
    method NewBlock(size: nat) returns (b: Block)
      requires Valid() && HEADER_SIZE <= size
      modifies heap
      ensures heap.Valid() && Layout(blocks, regions)
      ensures b.size == size && b.current == 0 && b.base % 16 == 0 && b.base != initialBuffer
      ensures b.base !in old(heap.live) && heap.live == old(heap.live)[b.base := size]
      ensures ApartFromAll(b, blocks)
    {
      var p := heap.Malloc(size);
      b := Block(p, size, 0);
    }

    method Grow()
      requires Valid()
      modifies this`blocks, heap
      ensures Valid() && blocks[1..] == old(blocks) && blocks[0].current == 0
      ensures |heap.live| == old(|heap.live|) + 1
    {
      var b := NewBlock(ALLOC_SIZE);
      GrowKeeps(blocks, regions, b);
      ghost var before := blocks;
      blocks := [b] + blocks;
      assert blocks == before[..0] + [b] + before[0..];
      OwnsNew(before, old(heap.live), initialBuffer, b, 0);
    }

    method AllocateMassive(n: nat) returns (p: nat)
      requires Valid() && USABLE_ALLOC_SIZE < n && n % 16 == 0
      modifies this, heap
      ensures Valid()
      ensures |blocks| > 1 && blocks[0] == old(blocks[0]) && blocks[2..] == old(blocks[1..])
      ensures blocks[1] == Block(blocks[1].base, n + HEADER_SIZE, 0) && p == blocks[1].base + HEADER_SIZE
      ensures regions == old(regions) + [Region(blocks[1].base, HEADER_SIZE, n)]
      ensures |heap.live| == old(|heap.live|) + 1
    {
      var b := NewBlock(n + HEADER_SIZE);
      ghost var r := Region(b.base, HEADER_SIZE, n);
      MassiveKeeps(blocks, regions, b, r);
      ghost var before := blocks;
      blocks := [blocks[0], b] + blocks[1..];
      assert blocks == before[..1] + [b] + before[1..];
      regions := regions + [r];
      OwnsNew(before, old(heap.live), initialBuffer, b, 1);
      p := b.base + HEADER_SIZE;
    }

    /** A region of Rounded(n) bytes, apart from all others; a block is malloc'd only where the bump block is too full. */
    method Allocate(n: nat) returns (p: nat)
      requires Valid() && n < WORD64
      modifies this, heap
      ensures Valid()
      ensures |regions| == |old(regions)| + 1 && regions[..|regions| - 1] == old(regions)
      ensures regions[|regions| - 1].Address() == p && regions[|regions| - 1].len == Rounded(n) && p % 16 == 0
      ensures Rounded(n) > USABLE_ALLOC_SIZE ==> blocks[0] == old(blocks[0]) && blocks[2..] == old(blocks[1..])
      ensures Rounded(n) <= USABLE_ALLOC_SIZE && old(blocks[0].current) + Rounded(n) >= USABLE_ALLOC_SIZE ==>
                blocks[1..] == old(blocks) && p == blocks[0].base + HEADER_SIZE && blocks[0].current == Rounded(n)
      ensures old(blocks[0].current) + Rounded(n) < USABLE_ALLOC_SIZE ==>
                && blocks[1..] == old(blocks[1..]) && heap.live == old(heap.live)
                && p == old(blocks[0].base + HEADER_SIZE + blocks[0].current)
                && blocks[0] == old(blocks[0]).(current := old(blocks[0].current) + Rounded(n))
    {
      var m := Rounded(n);
      RoundedCovers(n);
      hide Rounded, Layout;
      LayoutHead();
      if m + blocks[0].current >= USABLE_ALLOC_SIZE {
        if m > USABLE_ALLOC_SIZE {
          p := AllocateMassive(m);
          LayoutLast();
          return;
        }
        Grow();
        LayoutHead();
      }
      ghost var before := blocks;
      ghost var r := Region(blocks[0].base, HEADER_SIZE + blocks[0].current, m);
      blocks := [blocks[0].(current := blocks[0].current + m)] + blocks[1..];
      BumpKeeps(before, regions, m, blocks, r);
      regions := regions + [r];
      OwnsSame(before, blocks, heap.live, initialBuffer);
      LayoutLast();
      p := blocks[0].base + HEADER_SIZE + blocks[0].current - m;
    }

    lemma LayoutHead()
      requires Layout(blocks, regions)
      ensures |blocks| > 0 && blocks[0].size == ALLOC_SIZE && HEADER_SIZE + blocks[0].current <= ALLOC_SIZE
    {
      assert BlockOk(blocks[0]);
    }

    lemma LayoutLast()
      requires Layout(blocks, regions) && regions != []
      ensures regions[|regions| - 1].Address() % 16 == 0
    {
      assert Placed(regions[|regions| - 1], blocks);
    }

    /** Every block of the heap is freed, once, and the initial buffer is not. */
    method Reset()
      requires Valid()
      modifies this, heap
      ensures Valid() && heap.live == map[] && regions == []
      ensures blocks == [Block(initialBuffer, ALLOC_SIZE, 0)]
    {
      while blocks != []
        invariant heap.Valid() && Owns(blocks, heap.live, initialBuffer) && AllApart(blocks)
        invariant forall i :: 0 <= i < |blocks| ==> BlockOk(blocks[i])
        decreases |blocks|
      {
        var tmp := blocks[0];
        ghost var before, live := blocks, heap.live;
        blocks := blocks[1..];
        if tmp.base != initialBuffer {
          heap.Free(tmp.base);
        }
        OwnsRest(before, live, initialBuffer);
      }
      assert heap.live == map[];
      blocks := [Block(initialBuffer, ALLOC_SIZE, 0)];
      regions := [];
    }
  }

  /** Any run of requests, from a new allocator: what the callers asked for is theirs alone. */
  method AllocateAll(initialBuffer: nat, requests: seq<nat>) returns (addresses: seq<nat>)
    requires initialBuffer % 16 == 0
    requires forall i :: 0 <= i < |requests| ==> requests[i] <= WORD32 - 16
    ensures |addresses| == |requests|
    ensures forall i :: 0 <= i < |addresses| ==> addresses[i] % 16 == 0
    ensures forall i, j :: 0 <= i < j < |addresses| ==> Apart(addresses[i], requests[i], addresses[j], requests[j])
  {
    var heap := new Heap(initialBuffer + ALLOC_SIZE);
    var a := new BumpPointerAllocator(initialBuffer, heap);
    addresses := [];
    hide Rounded, Layout;
    while |addresses| < |requests|
      invariant fresh(a) && fresh(a.heap) && a.Valid() && |a.regions| == |addresses| <= |requests|
      invariant forall i :: 0 <= i < |addresses| ==> GoodAnswer(addresses[i], requests[i], a.regions[i])
      decreases |requests| - |addresses|
    {
      var n := requests[|addresses|];
      RoundedCovers(n);
      ghost var before := a.regions;
      var p := a.Allocate(n);
      assert forall i :: 0 <= i < |before| ==> a.regions[i] == before[i];
      addresses := addresses + [p];
    }
    AnswersApart(addresses, requests, a.blocks, a.regions);
  }

  ghost predicate GoodAnswer(p: nat, n: nat, r: Region) {
    p == r.Address() && n <= r.len && p % 16 == 0
  }

  lemma AnswersApart(addresses: seq<nat>, requests: seq<nat>, blocks: seq<Block>, regions: seq<Region>)
    requires Layout(blocks, regions) && |addresses| == |requests| == |regions|
    requires forall i :: 0 <= i < |addresses| ==> GoodAnswer(addresses[i], requests[i], regions[i])
    ensures forall i, j :: 0 <= i < j < |addresses| ==> Apart(addresses[i], requests[i], addresses[j], requests[j])
  {
    forall i, j | 0 <= i < j < |addresses| ensures Apart(addresses[i], requests[i], addresses[j], requests[j]) {
      assert GoodAnswer(addresses[i], requests[i], regions[i]) && GoodAnswer(addresses[j], requests[j], regions[j]);
      assert Apart(regions[i].Address(), regions[i].len, regions[j].Address(), regions[j].len);
    }
  }

  /** Beyond the exact bound of RoundedCovers the allocator hands out too little: here nothing, twice the same address. */
  method HugeRequestGetsNothing(a: BumpPointerAllocator) returns (p: nat, q: nat)
    requires a.Valid() && a.blocks[0].current + 16 < USABLE_ALLOC_SIZE
    modifies a, a.heap
    ensures p == q
  {
    assert Rounded(WORD32) == 0 && Rounded(16) == 16;
    p := a.Allocate(WORD32);
    q := a.Allocate(16);
  }
}
