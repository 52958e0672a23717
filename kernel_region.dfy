/** Region memory: a stack-disciplined handle on a space's scratch area that
    falls back to tracked heap blocks when the area is exhausted. Sizes are
    counted in abstract units; a typed block of n objects of a type whose
    size is `unit` takes unit * n of them. */
module Kernel {

  /** Identity of a block obtained from the heap. */
  type BlockId = nat

  /** The process heap: the blocks currently allocated and the identity the
      next allocation receives. */
  class Heap {
    var live: set<BlockId>
    var next: BlockId

    /** Every live block was handed out before `next`. */
    ghost predicate Valid()
      reads this
    {
      forall b :: b in live ==> b < next
    }

    constructor ()
      ensures Valid() && live == {} && next == 0
    {
      live, next := {}, 0;
    }

    /** A fresh block, distinct from every block handed out before. */
    method Allocate() returns (b: BlockId)
      requires Valid()
      modifies this
      ensures Valid()
      ensures b == old(next) && b !in old(live)
      ensures live == old(live) + {b} && next == old(next) + 1
    {
      b := next;
      live, next := live + {b}, next + 1;
    }

    /** Returns the blocks in bs to the operating system. */
    method Release(bs: set<BlockId>)
      requires Valid()
      modifies this
      ensures Valid()
      ensures live == old(live) - bs && next == old(next)
    {
      live := live - bs;
    }
  }

  /** A space's scratch area (home.sra): memory is handed out downwards from
      the cursor `free`, which is also the number of units still available. */
  class RegionArea {
    var free: nat

    constructor (capacity: nat)
      ensures free == capacity
    {
      free := capacity;
    }

    /** alloc(s, p): succeeds exactly when s units remain; the block starts at
        the lowered cursor. */
    method Alloc(s: nat) returns (ok: bool, at: nat)
      modifies this
      ensures ok == (s <= old(free))
      ensures ok ==> free == old(free) - s && at == free
      ensures !ok ==> free == old(free)
    {
      if s <= free {
        free := free - s;
        ok, at := true, free;
      } else {
        ok, at := false, 0;
      }
    }
  }

  /** Where raw memory handed out by a region lives. */
  datatype Addr = InArea(at: nat) | OnHeap(block: BlockId)

  /** The heap blocks a region holds: none, a single block (the marked
      pointer), or a list of two or more (the HeapInfo record). */
  datatype HeapInfo = NoHeap | Single(block: BlockId) | Many(blocks: seq<BlockId>)

  function Blocks(h: HeapInfo): set<BlockId> {
    match h
    case NoHeap => {}
    case Single(b) => {b}
    case Many(bs) => set b | b in bs
  }

  /** A list is only used once a second block arrives. */
  predicate WellFormed(h: HeapInfo) {
    h.Many? ==> |h.blocks| >= 2
  }

  /** Records one more heap block: none becomes single, single becomes a
      list of two, a list grows by one. */
  function Record(h: HeapInfo, b: BlockId): (r: HeapInfo)
    ensures Blocks(r) == Blocks(h) + {b}
    ensures r != NoHeap
    ensures WellFormed(h) ==> WellFormed(r)
  {
    match h
    case NoHeap => Single(b)
    case Single(a) => Many([a, b])
    case Many(bs) => Many(bs + [b])
  }

  /** The state of one object slot of a typed block. */
  datatype Slot<T> = Raw | Live(value: T) | Dead

  /** What the destroy count `m-n` of realloc's shrinking branch evaluates to
      on 32-bit unsigned operands. */
  function WrittenShrinkCount(n: nat, m: nat): (r: nat)
    requires n < 0x1_0000_0000 && m < 0x1_0000_0000
    ensures r < 0x1_0000_0000
    ensures (r + n - m) % 0x1_0000_0000 == 0
  {
    (m - n) % 0x1_0000_0000
  }

  /** When m < n the written count wraps to 2^32 - (n - m) instead of n - m,
      so (whenever n - m is below 2^31) the destructors would run past the n
      objects of the block. With
      n == 3 and m == 1 it is 4294967294. */
  lemma ShrinkCountWraps(n: nat, m: nat)
    requires n < 0x1_0000_0000 && m < n
    ensures WrittenShrinkCount(n, m) == 0x1_0000_0000 - (n - m)
    ensures n - m < 0x8000_0000 ==> m + WrittenShrinkCount(n, m) > n
    ensures WrittenShrinkCount(3, 1) == 4294967294
  {
    var r := WrittenShrinkCount(n, m);
    assert r == m - n + 0x1_0000_0000 by {
      assert 0 <= m - n + 0x1_0000_0000 < 0x1_0000_0000;
    }
    assert m + r == 0x1_0000_0000 - n + 2 * m;
  }

  /** A handle to temporary memory of a space. */
  class Region {
    const home: RegionArea
    const heap: Heap
    /** The cursor of the scratch area when the region was created. */
    const freeReset: nat
    var hi: HeapInfo

    /** The recorded blocks are live heap blocks. */
    ghost predicate Valid()
      reads this, heap
    {
      && heap.Valid()
      && WellFormed(hi)
      && Blocks(hi) <= heap.live
    }

    /** Records the area's cursor and starts with no heap block. */
    constructor (home: RegionArea, heap: Heap)
      requires heap.Valid()
      ensures Valid()
      ensures this.home == home && this.heap == heap
      ensures freeReset == home.free && hi == NoHeap
    {
      this.home := home;
      this.heap := heap;
      freeReset := home.free;
      hi := NoHeap;
    }

    /** The effect of a raw request of s units that returned a: memory from
        the area when s units remain there, otherwise a new heap block that
        the region records. */
    twostate predicate Ralloced(s: nat, a: Addr)
      reads this, home, heap
    {
      if s <= old(home.free) then
        && a == InArea(home.free)
        && home.free == old(home.free) - s
        && heap.live == old(heap.live) && heap.next == old(heap.next)
        && hi == old(hi)
      else
        && a == OnHeap(old(heap.next))
        && old(heap.next) !in old(heap.live)
        && home.free == old(home.free)
        && heap.live == old(heap.live) + {old(heap.next)}
        && heap.next == old(heap.next) + 1
        && hi == Record(old(hi), old(heap.next))
    }

    /** heap_alloc(s): a fresh heap block, recorded in hi. */
    method HeapAlloc(s: nat) returns (b: BlockId)
      requires Valid()
      modifies this, heap
      ensures Valid()
      ensures b == old(heap.next) && b !in old(heap.live)
      ensures heap.live == old(heap.live) + {b} && heap.next == old(heap.next) + 1
      ensures hi == Record(old(hi), b)
    {
      b := heap.Allocate();
      hi := Record(hi, b);
    }

    /** heap_free(): releases every recorded block. */
    method HeapFree()
      requires Valid() && hi != NoHeap
      modifies heap
      ensures heap.Valid()
      ensures heap.live == old(heap.live) - Blocks(hi)
      ensures heap.next == old(heap.next)
    {
      heap.Release(Blocks(hi));
    }

    /** ralloc(s): the area first, the heap only when the area refuses. */
    method Ralloc(s: nat) returns (a: Addr)
      requires Valid()
      modifies this, home, heap
      ensures Valid()
      ensures Ralloced(s, a)
    {
      var ok, at := home.Alloc(s);
      if ok {
        return InArea(at);
      }
      var b := HeapAlloc(s);
      a := OnHeap(b);
    }

    /** rfree(p, s): memory is only reclaimed when the region goes away. */
    method Rfree<T>(p: array<Slot<T>>, s: nat)
      ensures unchanged(this, home, heap) && unchanged(p)
    {
    }

    /** ~Region(): the cursor returns to where it was at construction and
        every heap block the region took is released. */
    method Destroy()
      requires Valid()
      modifies home, heap
      ensures home.free == freeReset
      ensures heap.Valid()
      ensures heap.live == old(heap.live) - Blocks(hi)
      ensures Blocks(hi) !! heap.live
      ensures heap.next == old(heap.next)
    {
      home.free := freeReset;
      if hi != NoHeap {
        HeapFree();
      }
    }

    /** alloc<T>(n): a block of n default-constructed objects. */
    method Alloc<T>(n: nat, unit: nat, dflt: T) returns (a: Addr, p: array<Slot<T>>)
      requires Valid()
      modifies this, home, heap
      ensures Valid()
      ensures Ralloced(unit * n, a)
      ensures fresh(p) && p.Length == n
      ensures forall i :: 0 <= i < n ==> p[i] == Live(dflt)
    {
      a := Ralloc(unit * n);
      p := new Slot<T>[n](_ => Raw);
      var i := n;
      while i > 0
        invariant 0 <= i <= n
        invariant forall k :: i <= k < n ==> p[k] == Live(dflt)
        modifies p
      {
        i := i - 1;
        p[i] := Live(dflt);
      }
    }

    /** free<T>(b + start, n): runs the destructors of the n objects from
        start on; no memory is returned. */
    method Free<T>(b: array<Slot<T>>, start: nat, n: nat, unit: nat)
      requires start + n <= b.Length
      modifies b
      ensures forall i :: 0 <= i < b.Length ==>
        b[i] == if start <= i < start + n then Dead else old(b[i])
    {
      var i := n;
      while i > 0
        invariant 0 <= i <= n
        invariant forall k :: 0 <= k < b.Length ==>
          b[k] == if start + i <= k < start + n then Dead else old(b[k])
      {
        i := i - 1;
        b[start + i] := Dead;
      }
      Rfree(b, unit * n);
    }

    /** realloc<T>(b, n, m). Growing copies the n objects into a new block of
        m, default-constructs the rest and destroys the old objects; otherwise
        the objects from m to n are destroyed in place and b is returned. The
        destroy count is n - m here (see WrittenShrinkCount for the count as
        written). */
    method Realloc<T>(b: array<Slot<T>>, addr: Addr, n: nat, m: nat, unit: nat, dflt: T)
      returns (a: Addr, p: array<Slot<T>>)
      requires Valid()
      requires n <= b.Length
      requires forall i :: 0 <= i < n ==> b[i].Live?
      modifies this, home, heap, b
      ensures Valid()
      ensures n < m ==>
        && Ralloced(unit * m, a)
        && fresh(p) && p.Length == m
        && (forall i :: 0 <= i < n ==> p[i] == old(b[i]))
        && (forall i :: n <= i < m ==> p[i] == Live(dflt))
        && (forall i :: 0 <= i < b.Length ==> b[i] == if i < n then Dead else old(b[i]))
      ensures m <= n ==>
        && a == addr && p == b
        && unchanged(this, home, heap)
        && (forall i :: 0 <= i < b.Length ==> b[i] == if m <= i < n then Dead else old(b[i]))
    {
      if n < m {
        a := Ralloc(unit * m);
        p := new Slot<T>[m](_ => Raw);
        var i := n;
        while i > 0
          invariant 0 <= i <= n
          invariant forall k :: i <= k < n ==> p[k] == b[k]
          invariant forall k :: n <= k < m ==> p[k] == Raw
          modifies p
        {
          i := i - 1;
          p[i] := Live(b[i].value);
        }
        var j := n;
        while j < m
          invariant n <= j <= m
          invariant forall k :: 0 <= k < n ==> p[k] == old(b[k])
          invariant forall k :: n <= k < j ==> p[k] == Live(dflt)
          modifies p
        {
          p[j] := Live(dflt);
          j := j + 1;
        }
        Free(b, 0, n, unit);
      } else {
        Free(b, m, n - m, unit);
        a, p := addr, b;
      }
    }
  }

  /** Two regions that end in LIFO order: an outer one takes s units, an
      inner one created after it takes t, the inner one is destroyed, then
      the outer one. Right after the inner destructor (`midFree`,
      `outerBlocks`, `midLive`) the outer region still holds its memory: the
      cursor stays s units down when the area granted it, and the outer
      region's heap blocks are still live. Once both are gone the cursor and
      the heap are where they started. */
  method NestedRegions(area: RegionArea, heap: Heap, s: nat, t: nat)
    returns (ghost midFree: nat, ghost outerBlocks: set<BlockId>, ghost midLive: set<BlockId>)
    requires heap.Valid()
    modifies area, heap
    ensures s <= old(area.free) ==> midFree == old(area.free) - s
    ensures s > old(area.free) ==> midFree == old(area.free)
    ensures s > old(area.free) ==> outerBlocks != {}
    ensures outerBlocks <= midLive
    ensures area.free == old(area.free)
    ensures heap.live == old(heap.live)
  {
    var outer := new Region(area, heap);
    var a := outer.Ralloc(s);
    ghost var mark := heap.next;
    assert Blocks(outer.hi) <= heap.live;
    var inner := new Region(area, heap);
    var b := inner.Ralloc(t);
    assert Blocks(inner.hi) !! Blocks(outer.hi);
    inner.Destroy();
    midFree, outerBlocks, midLive := area.free, Blocks(outer.hi), heap.live;
    assert outer.Valid();
    outer.Destroy();
  }

  /** Any sequence of raw requests on one region leaves nothing behind once
      the region is destroyed: the cursor is back and no heap block taken
      survives. */
  method ScopedRequests(area: RegionArea, heap: Heap, sizes: seq<nat>)
    requires heap.Valid()
    modifies area, heap
    ensures area.free == old(area.free)
    ensures heap.live == old(heap.live)
  {
    var r := new Region(area, heap);
    var i := 0;
    while i < |sizes|
      invariant 0 <= i <= |sizes|
      invariant r.Valid() && r.home == area && r.heap == heap
      invariant r.freeReset == old(area.free)
      invariant heap.live == old(heap.live) + Blocks(r.hi)
      invariant forall b :: b in Blocks(r.hi) ==> old(heap.next) <= b
      invariant old(heap.next) <= heap.next
    {
      var a := r.Ralloc(sizes[i]);
      i := i + 1;
    }
    r.Destroy();
  }

  /** Destroying an older region before a younger one breaks the discipline:
      the older region's destructor pulls the cursor back above the younger
      region's area memory, so a region created next is handed that same
      memory again (`reissued` equals `younger`) while the younger region still
      holds it; the younger destructor then lowers the cursor again, so the
      older region's s units are never given back. */
  method OutOfOrderDestruction(area: RegionArea, heap: Heap, s: nat, t: nat)
    returns (younger: Addr, reissued: Addr)
    requires heap.Valid()
    requires s + t <= area.free
    modifies area, heap
    ensures younger == InArea(old(area.free) - s - t)
    ensures reissued == younger
    ensures area.free == old(area.free) - s
  {
    var older := new Region(area, heap);
    var a := older.Ralloc(s);
    var inner := new Region(area, heap);
    younger := inner.Ralloc(t);
    assert younger == InArea(old(area.free) - s - t);
    older.Destroy();
    assert area.free == old(area.free);
    var third := new Region(area, heap);
    reissued := third.Ralloc(s + t);
    assert reissued == younger;
    third.Destroy();
    assert inner.Valid();
    inner.Destroy();
  }
}
