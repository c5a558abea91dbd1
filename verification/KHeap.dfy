/**
 The kernel heap of kernel/mm.c: `init_kheap`, `kmalloc`, `kfree` and `count_free_block` over
 an array of headers. A payload pointer is one unit above the block's header, as in the source;
 0 is the null pointer.
 */
module KernelHeap {
  import opened HeapModel
  import opened HeapMemory
  import opened AlignedSplit

  const HEAP_SIZE := 0x400000
  const HEADER_SIZE := 16   // sizeof(malloc_header)
  const INT_MIN := -0x8000_0000
  const INT_MAX := 0x7fff_ffff

  /** C's integer division, which truncates towards zero. */
  function Quotient(a: int, b: int): (r: int)
    requires 0 < b
    ensures 0 <= a ==> r == a / b
    ensures a < 0 ==> r <= 0 && r * b >= a && (r - 1) * b < a
  {
    if 0 <= a then a / b else -((-a) / b)
  }

  function RoundUpBlock(byte: int, block: int): (n: int)
    requires 0 < block
  {
    Quotient(byte + block - 1, block)
  }

  /** The units asked for: payload plus one header, converted to `uint64_t`. */
  function Units(size: int): (n: int)
    ensures 0 <= n
  {
    (RoundUpBlock(size, HEADER_SIZE) + 1) % 0x1_0000_0000_0000_0000
  }

  /** A block of `Units(size)` has room for `size` bytes behind its header, and not a unit to spare. */
  lemma UnitsHoldSize(size: int)
    requires 0 <= size <= INT_MAX - (HEADER_SIZE - 1)
    ensures size <= HEADER_SIZE * (Units(size) - 1) < size + HEADER_SIZE
  {
  }

  /** The request sizes for which the conversion yields no unit at all. */
  lemma NoUnits(size: int)
    requires INT_MIN <= size <= INT_MAX - (HEADER_SIZE - 1)
    ensures Units(size) == 0 <==> -46 <= size <= -31
  {
  }

  /** Negative sizes: a header without payload, no unit, or more units than any heap has. */
  lemma UnitsOfNegatives(size: int)
    requires INT_MIN <= size < 0
    ensures -30 <= size ==> Units(size) == 1
    ensures size < -46 ==> 0x8000_0000_0000_0000 < Units(size) < 0x1_0000_0000_0000_0000
  {
  }

  lemma {:induction false} SubsetIsNoLarger<T>(a: set<T>, b: set<T>)
    requires a <= b
    ensures |a| <= |b|
  {
    if a != {} {
      var x :| x in a;
      SubsetIsNoLarger(a - {x}, b - {x});
    }
  }

  /** The nodes met before `p` on a lap, and `p`: at most all there are. */
  lemma LapGrows(h: Heap, lap: set<int>, p: int)
    requires lap <= h.free + {h.base} && h.Node(p) && forall a | a in lap :: h.Lap(a) < h.Lap(p)
    ensures lap + {p} <= h.free + {h.base} && |lap + {p}| == |lap| + 1 <= |h.free| + 1
  {
    SubsetIsNoLarger(lap + {p}, h.free + {h.base});
  }

  // ---------------------------------------------------------------- requests for no unit

  /** A lap from `freep` starts with `q == freep` and the node `p` that follows it. */
  ghost predicate FirstNode(mem: seq<Header>, freep: int, q: int, p: int) {
    q == freep && 0 <= q < |mem| && p == mem[q].next
  }

  /** Header `a`, and that of `n` units taken from its end, are in memory. */
  ghost predicate Available(mem: seq<Header>, a: int, n: int) {
    0 <= a < |mem| && (mem[a].size == n || 0 <= a + mem[a].size - n < |mem|)
  }

  /** The unit behind the first block of a lap is in memory. */
  ghost predicate LapStartsInside(mem: seq<Header>, freep: int) {
    0 <= freep < |mem| && Available(mem, mem[freep].next, 0)
  }

  /**
   What `kmalloc` does with a request for no unit: it writes a length of 0 into the header of
   the live block behind the first free one, or takes the sentinel off the list. Either way no
   heap is left behind; only when nothing is free it does no harm.
   */
  lemma TakingNothingDamages(mem: seq<Header>, h: Heap)
    requires h.Valid() && Represents(mem, h) && LapStartsInside(mem, h.freep)
    ensures 0 <= mem[h.freep].next < |mem|
    ensures Intact(TakeStores(mem, h.freep, mem[h.freep].next, 0), h.base, h.lo, h.freep, h.Live()) <==> h.free == {}
  {
    var q := h.freep;
    var p := mem[q].next;
    var mem' := TakeStores(mem, q, p, 0);
    assert Linked(mem, h, q) && Sized(mem, h, p);
    if h.free == {} {
      assert mem' == mem;
      assert Holds(h, mem', h.base, h.lo, q, h.Live());
    } else if p == h.base {
      var f := Some(h.free);
      SentinelStaysListed(mem, h, f);
    } else {
      NeighbourLosesItsSize(mem, h, p);
    }
  }

  /** The last free block then links back to the first: the list is no longer ordered. */
  lemma SentinelStaysListed(mem: seq<Header>, h: Heap, f: int)
    requires h.Valid() && Represents(mem, h) && f in h.free
    requires 0 <= h.freep < |mem| && mem[h.freep].next == h.base
    ensures !Intact(TakeStores(mem, h.freep, h.base, 0), h.base, h.lo, h.freep, h.Live())
  {
    var q := h.freep;
    var mem' := TakeStores(mem, q, h.base, 0);
    var live := h.Live();
    assert Linked(mem, h, q) && Linked(mem, h, h.base);
    var first := mem[h.base].next;
    assert h.base < h.lo <= f && h.base !in h.free;
    assert first in h.free && first <= q && mem'[q].next == first;
    forall h': Heap {:trigger Holds(h', mem', h.base, h.lo, q, live)}
      ensures !Holds(h', mem', h.base, h.lo, q, live)
    {
      if Holds(h', mem', h.base, h.lo, q, live) {
        LinkGoesUp(mem', h', q);
      }
    }
  }

  lemma LinkGoesUp(mem: seq<Header>, h: Heap, q: int)
    requires h.Valid() && Represents(mem, h) && h.Node(q) && 0 <= q < |mem|
    ensures q < mem[q].next || mem[q].next == h.base
  {
    assert Linked(mem, h, q);
  }

  lemma LiveHasLength(mem: seq<Header>, h: Heap, a: int)
    requires h.Valid() && Represents(mem, h) && a in h.Live()
    ensures 0 <= a < |mem| && 0 < mem[a].size
  {
    assert Sized(mem, h, a);
  }

  /** The header behind the free block `p` belongs to a live block, which has units. */
  lemma NeighbourLosesItsSize(mem: seq<Header>, h: Heap, p: int)
    requires h.Valid() && Represents(mem, h) && p in h.free
    requires 0 <= h.freep < |mem| && 0 <= p < |mem| && mem[p].size == h.size[p] && p + h.size[p] < |mem|
    ensures !Intact(TakeStores(mem, h.freep, p, 0), h.base, h.lo, h.freep, h.Live())
  {
    var end := p + h.size[p];
    var mem' := TakeStores(mem, h.freep, p, 0);
    var live := h.Live();
    assert h.Joined(p) && h.Apart(p);
    assert end in live && mem'[end].size == 0;
    forall h': Heap {:trigger Holds(h', mem', h.base, h.lo, h.freep, live)}
      ensures !Holds(h', mem', h.base, h.lo, h.freep, live)
    {
      if Holds(h', mem', h.base, h.lo, h.freep, live) {
        LiveHasLength(mem', h', end);
      }
    }
  }

  lemma Some<T>(s: set<T>) returns (x: T)
    requires s != {}
    ensures x in s
  {
    x :| x in s;
  }

  class KHeap {
    const base: int
    const start: int
    const mem: array<Header>
    var freep: int
    ghost var heap: Heap

    ghost predicate Valid()
      reads this, mem
    {
      && heap.Valid() && Represents(mem[..], heap)
      && heap.base == base && heap.lo == start && heap.hi == mem.Length && heap.freep == freep
      && mem.Length == start + HEAP_SIZE / HEADER_SIZE
    }

    /** The static initialisers and `init_kheap`. */
    constructor (memory: array<Header>, base: int, start: int)
      requires 0 <= base < start && memory.Length == start + HEAP_SIZE / HEADER_SIZE
      modifies memory
      ensures Valid() && fresh(this) && mem == memory && this.base == base && this.start == start
      ensures heap == Pristine(base, start, start + HEAP_SIZE / HEADER_SIZE, base) && freep == base
      ensures mem[start] == Header(base, 0x40000) && mem[base] == Header(start, 0)
      ensures forall u | 0 <= u < mem.Length && u != base && u != start :: mem[u] == old(memory[u])
    {
      this.base := base;
      this.start := start;
      mem := memory;
      freep := base;
      heap := Pristine(base, start, start + HEAP_SIZE / HEADER_SIZE, base);
      new;
      mem[start] := Header(base, HEAP_SIZE / HEADER_SIZE);
      mem[base] := Header(start, 0);
      PristineIsRepresented(mem[..], base, start, base);
    }

    /** A thread writes into the payload of a block it owns. */
    method Store(ghost p: int, u: int, x: Header)
      requires Valid() && p in heap.Live() && p < u < p + heap.size[p]
      modifies mem
      ensures Valid() && heap == old(heap) && mem[..] == old(mem[..])[u := x]
    {
      StoreKeepsHeap(mem[..], heap, p, u, x);
      mem[u] := x;
    }

    /**
     The search loop of `kmalloc`: the first block of at least `n` units that a lap from
     `freep` meets, and the node before it. `steps` counts the nodes examined: at most one lap.
     Asked for no unit, it is content with the first node, even the sentinel.
     */
    method WalkLap(n: int) returns (found: bool, q: int, p: int, ghost steps: nat)
      requires Valid() && 0 <= n
      ensures 0 < n && found ==> heap.First(p, heap.Fitting(n)) && heap.IsPred(q, p)
      ensures 0 < n && !found ==> heap.Fitting(n) == {}
      ensures n == 0 ==> found && FirstNode(mem[..], freep, q, p)
      ensures steps <= |heap.free| + 1
    {
      q := freep;
      assert Linked(mem[..], heap, q);
      p := mem[q].next;
      steps := 0;
      ghost var lap, good := {}, if n == 0 then {} else heap.Fitting(n);
      while true
        invariant heap.Node(q) && heap.Node(p) && heap.IsNext(q, p)
        invariant n == 0 ==> FirstNode(mem[..], freep, q, p)
        invariant forall a | a in good :: heap.Lap(p) <= heap.Lap(a)
        invariant lap <= heap.free + {base} && steps == |lap|
        invariant forall a | a in lap :: heap.Lap(a) < heap.Lap(p)
        decreases heap.Lap(freep) - heap.Lap(p)
      {
        LapGrows(heap, lap, p);
        lap, steps := lap + {p}, steps + 1;
        assert Sized(mem[..], heap, p) && Linked(mem[..], heap, p);
        if mem[p].size >= n {
          found := true;
          return;
        }
        if p == freep {
          LapEnds(heap, good);
          found := false;
          return;
        }
        LapAdvances(heap, p, mem[p].next, good);
        q, p := p, mem[p].next;
      }
    }

    /** The same, in the words of the free list. */
    method FindFit(n: int) returns (found: bool, q: int, p: int, ghost steps: nat)
      requires Valid() && 0 <= n
      ensures 0 < n && found ==> heap.Fits(p, n) && heap.First(p, heap.Fitting(n)) && heap.IsPred(q, p)
      ensures 0 < n ==> (!found <==> forall a | a in heap.free :: heap.size[a] < n)
      ensures 0 < n && found ==> p in heap.free && n <= heap.size[p]
      ensures 0 < n && found ==> forall b | b in heap.free && n <= heap.size[b] ::
        if freep < p then b <= freep || p <= b else p <= b <= freep
      ensures 0 < n && !found ==> heap.Fitting(n) == {}
      ensures n == 0 ==> found && FirstNode(mem[..], freep, q, p)
      ensures steps <= |heap.free| + 1
    {
      found, q, p, steps := WalkLap(n);
      if n != 0 {
        FittingMeans(heap, n);
        if found {
          FirstIsFirst(heap, p, heap.Fitting(n));
        }
      }
    }

    /** What `kmalloc` does once the block `a` behind `q` is chosen. */
    method Take(q: int, a: int, n: int) returns (r: int)
      requires 0 <= q < mem.Length && 0 <= a < mem.Length && Available(mem[..], a, n)
      modifies this`freep, mem
      ensures mem[..] == TakeStores(old(mem[..]), q, a, n) && freep == q
      ensures r == (if old(mem[a].size) == n then a else a + old(mem[a].size) - n) + 1
    {
      var p := a;
      if mem[p].size == n {
        mem[q] := mem[q].(next := mem[p].next);
      } else {
        mem[p] := mem[p].(size := mem[p].size - n);
        p := p + mem[p].size;
        mem[p] := mem[p].(size := n);
      }
      freep := q;
      r := p + 1;
    }

    /** `kmalloc` once the units are counted. */
    method Allocate(nunits: int) returns (r: int, ghost at: int)
      requires Valid() && 0 <= nunits && (nunits == 0 ==> LapStartsInside(mem[..], freep))
      modifies this, mem
      ensures nunits != 0 ==> Valid() && Allocated(old(heap), heap, nunits, at, r)
      ensures nunits != 0 && r == 0 ==> mem[..] == old(mem[..])
      ensures nunits != 0 ==>
        forall u | 0 <= u < mem.Length && u != freep && u != at && u != r - 1 :: mem[u] == old(mem[u])
      ensures nunits == 0 ==>
        && LapStartsInside(old(mem[..]), freep) && freep == old(freep) && r != 0
        && FirstNode(old(mem[..]), freep, freep, at) && mem[..] == TakeStores(old(mem[..]), freep, at, 0)
      ensures nunits == 0 ==>
        (Intact(mem[..], base, start, freep, old(heap.Live())) <==> old(heap.free) == {})
    {
      var found, q, p, steps := FindFit(nunits);
      at := p;
      if !found {
        r := 0;
        return;
      }
      ghost var before, h := mem[..], heap;
      if nunits != 0 {
        TakeRepresents(before, h, q, p, nunits);
        CarveIsValid(h, q, p, nunits);
      } else {
        TakingNothingDamages(before, h);
      }
      r := Take(q, p, nunits);
      if nunits != 0 {
        heap := h.Carve(q, at, nunits);
      }
    }

    /**
     First fit after `freep`; `at` is the block the units come from. For a size that asks for
     no unit, the stores go into the first node of the lap, and no block is handed out: the
     heap survives them exactly when nothing is free.
     */
    method Kmalloc(size: int) returns (r: int, ghost at: int)
      requires Valid() && INT_MIN <= size <= INT_MAX - (HEADER_SIZE - 1)
      requires Units(size) == 0 ==> LapStartsInside(mem[..], freep)
      modifies this, mem
      ensures Units(size) != 0 ==> Valid() && Allocated(old(heap), heap, Units(size), at, r)
      ensures Units(size) != 0 && r == 0 ==> mem[..] == old(mem[..])
      ensures Units(size) != 0 ==>
        forall u | 0 <= u < mem.Length && u != freep && u != at && u != r - 1 :: mem[u] == old(mem[u])
      ensures Units(size) != 0 ==> (r == 0 <==> forall a | a in old(heap.free) :: old(heap.size)[a] < Units(size))
      ensures Units(size) != 0 && r != 0 ==>
        && at in old(heap.free) && Units(size) <= old(heap.size)[at]
        && r - 1 + Units(size) == at + old(heap.size)[at]
      ensures Units(size) != 0 && r != 0 ==> forall b | b in old(heap.free) && Units(size) <= old(heap.size)[b] ::
        if old(freep) < at then b <= old(freep) || at <= b else at <= b <= old(freep)
      ensures Units(size) != 0 && r != 0 ==> freep < at && (freep == base || freep in old(heap.free))
      ensures Units(size) != 0 && r != 0 ==> forall b | b in old(heap.free) :: b <= freep || at <= b
      ensures Units(size) != 0 ==>
        heap.Live() == if r == 0 then old(heap.Live()) else old(heap.Live())[r - 1 := Units(size)]
      ensures Units(size) == 0 ==>
        && LapStartsInside(old(mem[..]), freep) && freep == old(freep) && r != 0
        && FirstNode(old(mem[..]), freep, freep, at) && mem[..] == TakeStores(old(mem[..]), freep, at, 0)
      ensures Units(size) == 0 ==>
        (Intact(mem[..], base, start, freep, old(heap.Live())) <==> old(heap.free) == {})
    {
      ghost var h := heap;
      r, at := Allocate(Units(size));
      if Units(size) != 0 {
        AllocatedMeans(h, heap, Units(size), at, r);
      }
    }

    /** The search loop of `kfree`: the list node after which the block `p` belongs, within one lap. */
    method FindPredecessor(p: int) returns (q: int, ghost steps: nat)
      requires Valid() && p in heap.Live()
      ensures heap.IsPred(q, p)
      ensures steps <= |heap.free| + 1
    {
      q := freep;
      assert Linked(mem[..], heap, q);
      steps := 1;
      ghost var lap := {q};
      while !(p > q && p < mem[q].next)
        invariant Searching(heap, p, q) && Linked(mem[..], heap, q)
        invariant lap <= heap.free + {base} && steps == |lap|
        invariant forall a | a in lap :: if a < freep then a <= q < freep else q < freep || a <= q
        decreases freep <= q, heap.hi - q
      {
        if q >= mem[q].next && (p > q || p < mem[q].next) {
          break;
        }
        SearchGoesOn(heap, p, q, mem[q].next);
        q := mem[q].next;
        assert Linked(mem[..], heap, q);
        lap, steps := lap + {q}, steps + 1;
      }
      SearchEnds(heap, p, q, mem[q].next);
      SubsetIsNoLarger(lap, heap.free + {base});
    }

    /** The stores of `kfree` once the node `q` below the block `p` is found. */
    method GiveBack(q: int, p: int)
      requires 0 <= q < p < mem.Length && 0 < mem[p].size
      requires p + mem[p].size == mem[q].next ==> mem[q].next < mem.Length
      modifies this`freep, mem
      ensures mem[..] == JoinBelow(JoinAbove(old(mem[..]), q, p), q, p) && freep == q
    {
      if p + mem[p].size == mem[q].next {
        mem[p] := mem[p].(size := mem[p].size + mem[mem[q].next].size);
        mem[p] := mem[p].(next := mem[mem[q].next].next);
      } else {
        mem[p] := mem[p].(next := mem[q].next);
      }
      assert mem[..] == JoinAbove(old(mem[..]), q, p);
      if q + mem[q].size == p {
        mem[q] := mem[q].(size := mem[q].size + mem[p].size);
        mem[q] := mem[q].(next := mem[p].next);
      } else {
        mem[q] := mem[q].(next := p);
      }
      freep := q;
    }

    /** `kfree` of the block `p`: the search and the stores. */
    method Insert(p: int)
      requires Valid() && p in heap.Live()
      modifies this, mem
      ensures Valid()
      ensures Released(old(heap), heap, p)
      ensures forall u | 0 <= u < mem.Length && u != freep && u != p :: mem[u] == old(mem[u])
    {
      var q, steps := FindPredecessor(p);
      ghost var h := heap;
      ReleaseRepresents(mem[..], h, q, p);
      GiveBack(q, p);
      heap := h.Release(q, p);
    }

    /** Returns the live block whose payload is `ptr`, merging it with the free blocks it touches. */
    method Kfree(ptr: int)
      requires Valid() && ptr - 1 in heap.Live()
      modifies this, mem
      ensures Valid()
      ensures Released(old(heap), heap, ptr - 1)
      ensures heap.Live() == old(heap.Live()) - {ptr - 1}
      ensures freep < ptr - 1 && (freep == base || freep in old(heap.free))
      ensures forall b | b in old(heap.free) :: b <= freep || ptr - 1 < b
      ensures forall u | 0 <= u < mem.Length && u != freep && u != ptr - 1 :: mem[u] == old(mem[u])
    {
      ghost var h := heap;
      Insert(ptr - 1);
      ReleasedMeans(h, heap, ptr - 1);
    }

    /** The highest unit inside the block, past its header, that is aligned; 0 when there is none. */
    method GetAlignedAddress(start: int, blockLength: int, alignSize: int) returns (r: int)
      requires 0 < alignSize && 0 <= start
      ensures r == 0 ==> forall u :: !Highest(start, blockLength, alignSize, u)
      ensures r != 0 ==> Highest(start, blockLength, alignSize, r)
      ensures r == 0 <==> forall u | start < u < start + blockLength :: Address(u) % alignSize != 0
      ensures r != 0 ==> start < r < start + blockLength && 16 * r % alignSize == 0
      ensures r != 0 ==> forall u | r < u < start + blockLength :: Address(u) % alignSize != 0
    {
      var i := start + blockLength - 1;
      while i > start
        invariant forall u | i < u < start + blockLength :: start < u ==> Address(u) % alignSize != 0
      {
        if 16 * i % alignSize == 0 {
          return i;
        }
        i := i - 1;
      }
      return 0;
    }

    /** The search loop of `kmalloc_alignas`: the first block of a lap whose highest aligned unit leaves room. */
    method FindAligned(n: int, alignSize: int) returns (r: int, q: int, p: int)
      requires Valid() && 0 < n && 0 < alignSize
      ensures r != 0 ==> heap.First(p, Suiting(heap, n, alignSize)) && heap.IsPred(q, p)
      ensures r != 0 ==> SuitsAt(heap, p, n, alignSize, r)
      ensures r == 0 ==> Suiting(heap, n, alignSize) == {}
    {
      q := freep;
      assert Linked(mem[..], heap, q);
      p := mem[q].next;
      ghost var good := Suiting(heap, n, alignSize);
      while true
        invariant heap.Node(q) && heap.Node(p) && heap.IsNext(q, p)
        invariant forall a | a in good :: heap.Lap(p) <= heap.Lap(a)
        decreases heap.Lap(freep) - heap.Lap(p)
      {
        assert Sized(mem[..], heap, p) && Linked(mem[..], heap, p);
        r := GetAlignedAddress(p, mem[p].size, alignSize);
        if r != 0 && r - 1 + n <= p + mem[p].size {
          assert SuitsAt(heap, p, n, alignSize, r);
          return;
        }
        if p in heap.size {
          HighestIsUnique(heap, p, n, alignSize, r);
        }
        if p == freep {
          LapEnds(heap, good);
          r := 0;
          return;
        }
        LapAdvances(heap, p, mem[p].next, good);
        q, p := p, mem[p].next;
      }
    }

    /** The stores of `kmalloc_alignas` once the block `p` behind `q` and the payload `r` are chosen. */
    method PlaceAligned(q: int, p: int, r: int, nunits: int, alignSize: int)
      requires Valid() && heap.IsPred(q, p) && p in heap.free
      requires 0 < nunits && p < r && r - 1 + nunits <= p + heap.size[p]
      modifies this, mem
      ensures freep == q && Fills(old(heap), old(mem[..]), p, r - 1, nunits)
      ensures mem[..] == SplitStores(old(mem[..]), p, r - 1, nunits)
      ensures Intact(mem[..], base, start, freep, old(heap.Live())[r - 1 := nunits])
        <==> p < r - 1 && r - 1 + nunits == p + old(heap).size[p]
      ensures p < r - 1 && r - 1 + nunits == p + old(heap).size[p] ==>
        Valid() && heap == old(heap).Carve(freep, p, nunits)
    {
      ghost var before, h := mem[..], heap;
      var m := r - 1;
      assert Sized(before, heap, p);
      AlignedSplitIntact(before, heap, q, p, m, nunits);
      if m + nunits == p + mem[p].size {
        mem[p] := mem[p].(size := mem[p].size - nunits);
        mem[m] := mem[m].(size := nunits);
      } else {
        var front := m - p;
        var back := p + mem[p].size - (m - nunits);
        mem[p] := mem[p].(size := front);
        mem[m] := mem[m].(size := nunits);
        var nextP := p + front + nunits;
        mem[nextP] := mem[nextP].(size := back);
        mem[nextP] := mem[nextP].(next := mem[p].next);
        mem[p] := mem[p].(next := nextP);
      }
      freep := q;
      assert mem[..] == SplitStores(before, p, m, nunits);
      if p < m && m + nunits == p + h.size[p] {
        ExactFitIsCarve(before, h, q, p, m, nunits);
        heap := h.Carve(q, p, nunits);
      }
    }

    /**
     Aligned allocation. Small alignments are `kmalloc`. Otherwise the header goes just below
     the highest aligned unit of the first suiting block, and the last clauses say exactly
     when what is left is a heap: when the allocation ends the block but does not start it.
     */
    method KmallocAlignas(size: int, alignSize: int) returns (r: int, ghost at: int)
      requires Valid() && INT_MIN <= size <= INT_MAX - (HEADER_SIZE - 1)
      requires if alignSize <= 16 then Units(size) == 0 ==> LapStartsInside(mem[..], freep) else 0 <= size
      modifies this, mem
      ensures alignSize <= 16 && Units(size) != 0 ==> Valid() && Allocated(old(heap), heap, Units(size), at, r)
      ensures alignSize <= 16 && Units(size) == 0 ==>
        && LapStartsInside(old(mem[..]), freep) && freep == old(freep) && r != 0
        && FirstNode(old(mem[..]), freep, freep, at) && mem[..] == TakeStores(old(mem[..]), freep, at, 0)
        && (Intact(mem[..], base, start, freep, old(heap.Live())) <==> old(heap.free) == {})
      ensures r == 0 ==> Valid() && heap == old(heap) && mem[..] == old(mem[..])
      ensures 16 < alignSize ==> (r == 0 <==> Suiting(old(heap), Units(size), alignSize) == {})
      ensures 16 < alignSize && r != 0 ==>
        && old(heap).First(at, Suiting(old(heap), Units(size), alignSize)) && old(heap).IsPred(freep, at)
        && SuitsAt(old(heap), at, Units(size), alignSize, r)
        && Fills(old(heap), old(mem[..]), at, r - 1, Units(size))
        && mem[..] == SplitStores(old(mem[..]), at, r - 1, Units(size))
      ensures 16 < alignSize && r != 0 ==>
        16 * r % alignSize == 0 && at in old(heap.free) && at < r && r - 1 + Units(size) <= at + old(heap.size)[at]
      ensures 16 < alignSize && r != 0 ==> (
        Intact(mem[..], base, start, freep, old(heap.Live())[r - 1 := Units(size)])
        <==> at < r - 1 && r - 1 + Units(size) == at + old(heap).size[at])
      ensures 16 < alignSize && r != 0 && at < r - 1 && r - 1 + Units(size) == at + old(heap).size[at] ==>
        Valid() && heap == old(heap).Carve(freep, at, Units(size))
    {
      var nunits := Units(size);
      if alignSize <= 16 {
        r, at := Kmalloc(size);
        return;
      }
      var q, p;
      r, q, p := FindAligned(nunits, alignSize);
      at := p;
      if r != 0 {
        PlaceAligned(q, p, r, nunits, alignSize);
      }
    }

    /** Counts the maximal free stretches of the heap. */
    method CountFreeBlock() returns (count: nat)
      requires Valid()
      ensures count == |heap.free|
    {
      count := 0;
      var p := base;
      ghost var seen: set<int> := {};
      assert Linked(mem[..], heap, p);
      while mem[p].next != base
        invariant heap.Node(p) && Linked(mem[..], heap, p)
        invariant seen <= heap.free && (forall f | f in heap.free :: f in seen <==> f <= p)
        invariant count == |seen|
        decreases heap.hi - p
      {
        p := mem[p].next;
        assert Linked(mem[..], heap, p);
        seen := seen + {p};
        count := count + 1;
      }
      assert seen == heap.free;
    }
  }
}
