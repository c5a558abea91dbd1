/**
 The value the kernel heap stands for, independently of how headers lie in memory.

 Addresses count allocation units of sizeof(malloc_header) = 16 bytes. A heap is a tiling of
 the units `lo <= u < hi` by blocks, some of them free; `base` is the address of the list
 sentinel, which the linker script puts below the heap.
 */
module HeapModel {

  /** A `malloc_header`: the successor on the free list and the block length in units. */
  datatype Header = Header(next: int, size: int)

  /** The block `a` reaches the end of the heap or the next block. */
  ghost predicate Meets(size: map<int, int>, hi: int, a: int)
    requires a in size
  {
    a + size[a] == hi || a + size[a] in size
  }

  /** The blocks tile `lo..hi` exactly: none is empty, none overlap, each ends where another begins. */
  ghost predicate Tiling(size: map<int, int>, lo: int, hi: int) {
    && lo in size
    && (forall a | a in size :: lo <= a && 0 < size[a] && a + size[a] <= hi)
    && (forall a {:trigger Meets(size, hi, a)} | a in size :: Meets(size, hi, a))
    && (forall a, b | a in size && b in size && a < b :: a + size[a] <= b)
  }

  /** Two blocks in place of one: the last `n` units of `a` become a block of their own. */
  ghost function Cut(size: map<int, int>, a: int, n: int): (r: map<int, int>)
    requires a in size
  {
    size[a := size[a] - n][a + size[a] - n := n]
  }

  /** One block in place of two that touch. */
  ghost function Fuse(size: map<int, int>, a: int, b: int): (r: map<int, int>)
    requires a in size && b in size
  {
    (size - {b})[a := size[a] + size[b]]
  }

  lemma CutTiles(size: map<int, int>, lo: int, hi: int, a: int, n: int)
    requires Tiling(size, lo, hi) && a in size && 0 < n < size[a]
    ensures a + size[a] - n !in size && Tiling(Cut(size, a, n), lo, hi)
  {
    var size', r := Cut(size, a, n), a + size[a] - n;
    assert r !in size;
    forall b {:trigger Meets(size', hi, b)} | b in size' ensures Meets(size', hi, b) {
      CutMeets(size, lo, hi, a, n, b);
    }
    forall c, d | c in size' && d in size' && c < d ensures c + size'[c] <= d {
      CutApart(size, lo, hi, a, n, c, d);
    }
  }

  lemma CutMeets(size: map<int, int>, lo: int, hi: int, a: int, n: int, b: int)
    requires Tiling(size, lo, hi) && a in size && 0 < n < size[a] && b in Cut(size, a, n)
    ensures Meets(Cut(size, a, n), hi, b)
  {
    var r := a + size[a] - n;
    assert r !in size;
    assert Meets(size, hi, if b == r then a else b);
  }

  lemma CutApart(size: map<int, int>, lo: int, hi: int, a: int, n: int, c: int, d: int)
    requires Tiling(size, lo, hi) && a in size && 0 < n < size[a]
    requires c in Cut(size, a, n) && d in Cut(size, a, n) && c < d
    ensures c + Cut(size, a, n)[c] <= d
  {
  }

  lemma FuseTiles(size: map<int, int>, lo: int, hi: int, a: int, b: int)
    requires Tiling(size, lo, hi) && a in size && b in size && a + size[a] == b
    ensures Tiling(Fuse(size, a, b), lo, hi)
  {
    var size' := Fuse(size, a, b);
    forall c {:trigger Meets(size', hi, c)} | c in size' ensures Meets(size', hi, c) {
      FuseMeets(size, lo, hi, a, b, c);
    }
    forall c, d | c in size' && d in size' && c < d ensures c + size'[c] <= d {
      FuseApart(size, lo, hi, a, b, c, d);
    }
  }

  lemma FuseMeets(size: map<int, int>, lo: int, hi: int, a: int, b: int, c: int)
    requires Tiling(size, lo, hi) && a in size && b in size && a + size[a] == b && c in Fuse(size, a, b)
    ensures Meets(Fuse(size, a, b), hi, c)
  {
    assert Meets(size, hi, if c == a then b else c);
  }

  lemma FuseApart(size: map<int, int>, lo: int, hi: int, a: int, b: int, c: int, d: int)
    requires Tiling(size, lo, hi) && a in size && b in size && a + size[a] == b
    requires c in Fuse(size, a, b) && d in Fuse(size, a, b) && c < d
    ensures c + Fuse(size, a, b)[c] <= d
  {
  }

  datatype Heap = Heap(base: int, lo: int, hi: int, size: map<int, int>, free: set<int>, freep: int)
  {
    /** The blocks handed out and not yet returned. */
    ghost function Live(): (live: map<int, int>) {
      size - free
    }

    ghost predicate Tiled() {
      Tiling(size, lo, hi)
    }

    ghost predicate Joined(a: int)
      requires a in size
    {
      Meets(size, hi, a)
    }

    /** Free neighbours are always merged. */
    ghost predicate Coalesced() {
      forall a {:trigger Apart(a)} | a in free :: a in size && Apart(a)
    }

    ghost predicate Apart(a: int) {
      a in size ==> a + size[a] !in free
    }

    /** The addresses that are on the circular list. */
    ghost predicate Node(a: int) {
      a == base || a in free
    }

    ghost predicate Valid() {
      && base < lo < hi
      && Tiled()
      && free <= size.Keys
      && Coalesced()
      && Node(freep)
    }

    /** `n` follows `a` on the circular list: the next free block by address, or the sentinel. */
    ghost predicate IsNext(a: int, n: int) {
      || (n in free && a < n && forall f | f in free :: f <= a || n <= f)
      || (n == base && forall f | f in free :: f <= a)
    }

    /** `q` is the last list node below address `p`. */
    ghost predicate IsPred(q: int, p: int) {
      && Node(q) && q < p
      && forall f | f in free :: f <= q || p <= f
    }

    /** How far into a lap that starts just after `freep` the node `a` is met. */
    ghost function Lap(a: int): (at: int) {
      if freep < a then a else a + (hi - base)
    }

    ghost predicate Fits(a: int, n: int) {
      a in free && a in size && n <= size[a]
    }

    /** The free blocks of at least `n` units. */
    ghost function Fitting(n: int): (blocks: set<int>) {
      set a | a in free && Fits(a, n)
    }

    /** Of the blocks `good`, the first that a lap from `freep` meets. */
    ghost predicate First(a: int, good: set<int>) {
      a in good && forall b | b in good :: Lap(a) <= Lap(b)
    }

    /** Unit `u` belongs to a free block. */
    ghost predicate InFree(u: int) {
      exists a :: FreeAt(a, u)
    }

    ghost predicate FreeAt(a: int, u: int) {
      a in free && a in size && a <= u < a + size[a]
    }

    /** The heap after `n` units are taken from the end of the free block `a`, whose predecessor is `q`. */
    ghost function Carve(q: int, a: int, n: int): (h': Heap)
      requires a in size
    {
      if size[a] == n
      then this.(free := free - {a}, freep := q)
      else this.(size := Cut(size, a, n), freep := q)
    }

    /** Where the block carved from `a` starts. */
    ghost function Carved(a: int, n: int): (u: int)
      requires a in size
    {
      a + size[a] - n
    }

    /** The heap after the block `p` returns to the free list behind `q`, merged with free neighbours. */
    ghost function Release(q: int, p: int): (h': Heap)
      requires p in size
    {
      MergeAbove(q, p).MergeBelow(q, p)
    }

    ghost function MergeAbove(q: int, p: int): (h': Heap)
      requires p in size
    {
      var e := p + size[p];
      if e in free && e in size
      then this.(size := Fuse(size, p, e), free := free - {e} + {p}, freep := q)
      else this.(free := free + {p}, freep := q)
    }

    ghost function MergeBelow(q: int, p: int): (h': Heap)
      requires p in size
    {
      if q in free && q in size && q + size[q] == p
      then this.(size := Fuse(size, q, p), free := free - {p})
      else this
    }
  }

  /**
   One allocation of `n` units: refused exactly when no free block is long enough; otherwise
   taken from the end of `at`, the first that fits, with payload `r`.
   */
  ghost predicate Allocated(h: Heap, h': Heap, n: int, at: int, r: int) {
    if r == 0 then
      h' == h && h.Fitting(n) == {}
    else
      h.First(at, h.Fitting(n)) && h.IsPred(h'.freep, at) && h' == h.Carve(h'.freep, at, n) && r == h.Carved(at, n) + 1
  }

  /** The live block `p` is given back. */
  ghost predicate Released(h: Heap, h': Heap, p: int) {
    p in h.Live() && h.IsPred(h'.freep, p) && h' == h.Release(h'.freep, p)
  }

  /** In the words of the table: refused only when every free block is shorter, and which block it is otherwise. */
  lemma AllocatedMeans(h: Heap, h': Heap, n: int, at: int, r: int)
    requires h.Valid() && 0 < n && Allocated(h, h', n, at, r)
    ensures r == 0 <==> forall a | a in h.free :: h.size[a] < n
    ensures r != 0 ==> at in h.free && n <= h.size[at] && r - 1 + n == at + h.size[at]
    ensures r != 0 ==> forall b | b in h.free && n <= h.size[b] ::
      if h.freep < at then b <= h.freep || at <= b else at <= b <= h.freep
    ensures r != 0 ==> h'.freep < at && (h'.freep == h.base || h'.freep in h.free)
    ensures r != 0 ==> forall b | b in h.free :: b <= h'.freep || at <= b
    ensures h'.Live() == if r == 0 then h.Live() else h.Live()[r - 1 := n]
  {
    FittingMeans(h, n);
    if r != 0 {
      FirstIsFirst(h, at, h.Fitting(n));
      CarveIsValid(h, h'.freep, at, n);
      assert h.lo <= at < at + h.size[at] <= h.hi;
    }
  }

  lemma FittingMeans(h: Heap, n: int)
    requires h.Valid()
    ensures forall a :: a in h.Fitting(n) <==> a in h.free && n <= h.size[a]
    ensures h.Fitting(n) == {} <==> forall a | a in h.free :: h.size[a] < n
  {
    forall a ensures a in h.Fitting(n) <==> a in h.free && n <= h.size[a] {
    }
    if forall a | a in h.free :: h.size[a] < n {
      assert forall a :: a !in h.Fitting(n);
    }
  }

  /** Nothing in `good` lies between `freep` and the first of them, going round. */
  lemma FirstIsFirst(h: Heap, at: int, good: set<int>)
    requires h.Valid() && good <= h.free && h.First(at, good)
    ensures forall b | b in good :: if h.freep < at then b <= h.freep || at <= b else at <= b <= h.freep
  {
    forall b | b in good ensures if h.freep < at then b <= h.freep || at <= b else at <= b <= h.freep {
      assert b in h.free && at in h.free;
      assert h.lo <= b < b + h.size[b] <= h.hi && h.lo <= at < at + h.size[at] <= h.hi;
    }
  }

  lemma ReleasedMeans(h: Heap, h': Heap, p: int)
    requires h.Valid() && Released(h, h', p)
    ensures h'.Live() == h.Live() - {p}
    ensures h'.freep < p && (h'.freep == h.base || h'.freep in h.free)
    ensures forall b | b in h.free :: b <= h'.freep || p < b
  {
    ReleaseIsValid(h, h'.freep, p);
  }

  /** A whole heap that is one free block, as `init_kheap` leaves it. */
  ghost function Pristine(base: int, lo: int, hi: int, freep: int): (h: Heap) {
    Heap(base, lo, hi, map[lo := hi - lo], {lo}, freep)
  }

  // ---------------------------------------------------------------- what the tiling means

  /** Every unit of the heap lies in a block. */
  lemma {:induction false} Owner(h: Heap, from: int, u: int) returns (a: int)
    requires h.Valid() && from in h.size && from <= u < h.hi
    ensures a in h.size && a <= u < a + h.size[a]
    decreases u - from
  {
    if u < from + h.size[from] {
      a := from;
    } else {
      assert h.Joined(from);
      a := Owner(h, from + h.size[from], u);
    }
  }

  /** ... and in no other. */
  lemma OwnerIsUnique(h: Heap, a: int, b: int, u: int)
    requires h.Valid() && a in h.size && b in h.size
    requires a <= u < a + h.size[a] && b <= u < b + h.size[b]
    ensures a == b
  {
  }

  /** No block begins inside another. */
  lemma NoBlockInside(h: Heap, a: int, u: int)
    requires h.Valid() && a in h.size && a < u < a + h.size[a]
    ensures u !in h.size
  {
  }

  /** With nothing live, coalescing leaves exactly one block: the heap of `init_kheap`. */
  lemma AllFreeIsPristine(h: Heap)
    requires h.Valid() && h.Live() == map[]
    ensures h == Pristine(h.base, h.lo, h.hi, h.freep)
  {
    forall a | a in h.size ensures a in h.free {
      assert a in h.free || a in h.Live();
    }
    assert h.Joined(h.lo) && h.Apart(h.lo);
    assert h.lo + h.size[h.lo] == h.hi;
    forall a | a in h.size ensures a == h.lo {
      assert h.lo <= a && 0 < h.size[a] && a + h.size[a] <= h.hi;
    }
    assert h.size.Keys == {h.lo} && h.free == {h.lo};
    assert h.size == map[h.lo := h.hi - h.lo];
  }

  /** `u` starts a maximal stretch of free units. */
  ghost predicate GapStart(h: Heap, u: int) {
    h.InFree(u) && !h.InFree(u - 1)
  }

  /** The maximal free stretches and the free blocks are the same thing. */
  lemma GapsAreFreeBlocks(h: Heap, u: int)
    requires h.Valid()
    ensures GapStart(h, u) <==> u in h.free
  {
    if u in h.free {
      assert h.FreeAt(u, u);
      forall a {:trigger h.FreeAt(a, u - 1)} ensures !h.FreeAt(a, u - 1) {
        assert a in h.free ==> h.Apart(a);
      }
    } else if h.InFree(u) {
      var a :| h.FreeAt(a, u);
      assert h.FreeAt(a, u - 1);
    }
  }

  // ---------------------------------------------------------------- allocation

  lemma CarveIsValid(h: Heap, q: int, a: int, n: int)
    requires h.Valid() && h.IsPred(q, a) && h.Fits(a, n) && 0 < n
    ensures h.Carve(q, a, n).Valid()
    ensures h.Carved(a, n) !in h.Live()
    ensures h.Carve(q, a, n).Live() == h.Live()[h.Carved(a, n) := n]
  {
    if h.size[a] == n {
      CarveWhole(h, q, a);
    } else {
      CarvePart(h, q, a, n);
    }
  }

  lemma CarveWhole(h: Heap, q: int, a: int)
    requires h.Valid() && h.IsPred(q, a) && a in h.free
    ensures var h' := h.(free := h.free - {a}, freep := q);
      h'.Valid() && h'.Live() == h.Live()[a := h.size[a]]
  {
    var h' := h.(free := h.free - {a}, freep := q);
    forall b {:trigger h'.Apart(b)} | b in h'.free ensures b in h'.size && h'.Apart(b) { assert h.Apart(b); }
    assert h'.Live() == h.Live()[a := h.size[a]];
  }

  lemma CarvePart(h: Heap, q: int, a: int, n: int)
    requires h.Valid() && h.IsPred(q, a) && a in h.free && 0 < n < h.size[a]
    ensures var h' := h.Carve(q, a, n); var r := h.Carved(a, n);
      h'.Valid() && r !in h.size && h'.Live() == h.Live()[r := n]
  {
    var h' := h.Carve(q, a, n);
    var r := h.Carved(a, n);
    CutTiles(h.size, h.lo, h.hi, a, n);
    forall b {:trigger h'.Apart(b)} | b in h'.free ensures b in h'.size && h'.Apart(b) {
      assert h.Apart(b);
    }
    assert h'.Live() == h.Live()[r := n];
  }

  /** Exactly the returned units leave the free space. */
  lemma CarveTakesItsUnits(h: Heap, q: int, a: int, n: int, u: int)
    requires h.Valid() && h.IsPred(q, a) && h.Fits(a, n) && 0 < n
    ensures h.Carve(q, a, n).InFree(u) <==> h.InFree(u) && !(h.Carved(a, n) <= u < h.Carved(a, n) + n)
  {
    var h' := h.Carve(q, a, n);
    if h'.InFree(u) {
      var b :| h'.FreeAt(b, u);
      assert h.FreeAt(b, u);
    }
    if h.InFree(u) && !(h.Carved(a, n) <= u < h.Carved(a, n) + n) {
      var b :| h.FreeAt(b, u);
      assert h'.FreeAt(b, u);
    }
  }

  /** Short of `freep`, the next node is met later in the lap and no block in between is skipped. */
  lemma LapAdvances(h: Heap, p: int, next: int, good: set<int>)
    requires h.Valid() && h.Node(p) && p != h.freep && h.IsNext(p, next) && p !in good && good <= h.free
    requires forall a | a in good :: h.Lap(p) <= h.Lap(a)
    ensures h.Lap(p) < h.Lap(next) <= h.Lap(h.freep)
    ensures forall a | a in good :: h.Lap(next) <= h.Lap(a)
  {
  }

  /** A lap ends at `freep`, so a lap that found nothing has seen every block. */
  lemma LapEnds(h: Heap, good: set<int>)
    requires h.Valid() && good <= h.free && h.freep !in good
    requires forall a | a in good :: h.Lap(h.freep) <= h.Lap(a)
    ensures good == {}
  {
    forall a ensures a !in good {
      assert a in h.free ==> h.lo <= a < a + h.size[a] <= h.hi;
    }
  }

  /** No two free blocks are met at the same point of a lap: the first one is unique. */
  lemma FirstIsUnique(h: Heap, a: int, b: int, good: set<int>)
    requires h.Valid() && good <= h.free && h.First(a, good) && h.First(b, good)
    ensures a == b
  {
    assert a in h.free && b in h.free;
    assert h.lo <= a < a + h.size[a] <= h.hi && h.lo <= b < b + h.size[b] <= h.hi;
  }

  // ---------------------------------------------------------------- release

  /** Where the search of `kfree` for the block `p` may be: from `freep` up, or after the wrap below `p`. */
  ghost predicate Searching(h: Heap, p: int, q: int) {
    h.Node(q) && (if q < h.freep then q < p < h.freep else h.freep < p ==> q < p)
  }

  /** The block belongs between `q` and the `next` node, or `q` is the last node and the block lies beyond. */
  lemma SearchEnds(h: Heap, p: int, q: int, next: int)
    requires h.Valid() && p in h.Live() && Searching(h, p, q) && h.IsNext(q, next)
    requires q < p < next || (q >= next && (p > q || p < next))
    ensures h.IsPred(q, p)
  {
    assert h.base < h.lo <= p;
  }

  lemma SearchGoesOn(h: Heap, p: int, q: int, next: int)
    requires h.Valid() && p in h.Live() && Searching(h, p, q) && h.IsNext(q, next)
    requires !(q < p < next) && !(q >= next && (p > q || p < next))
    ensures Searching(h, p, next) && next <= h.hi
    ensures if next <= q then h.freep <= q && next < h.freep else next < h.freep <==> q < h.freep
  {
    assert h.base < h.lo <= p;
  }

  lemma ReleaseIsValid(h: Heap, q: int, p: int)
    requires h.Valid() && p in h.Live() && h.IsPred(q, p)
    ensures h.Release(q, p).Valid()
    ensures h.Release(q, p).Live() == h.Live() - {p}
  {
    var h' := h.MergeAbove(q, p);
    MergeAboveIsTiled(h, q, p);
    MergeAboveIsLive(h, q, p);
    if q in h'.free && q in h'.size && q + h'.size[q] == p {
      MergeBelowIsValid(h', q, p);
    } else {
      NothingBelow(h', q, p);
    }
  }

  /** `b` touches no free block above it, unless that is `p`. */
  ghost predicate AlmostApart(h: Heap, p: int, b: int) {
    b in h.size ==> b + h.size[b] == p || b + h.size[b] !in h.free
  }

  /** The heap between the two merges: at most `p` and the free block just below it touch. */
  ghost predicate Merging(h: Heap, q: int, p: int) {
    && h.base < h.lo < h.hi && h.Tiled() && h.free <= h.size.Keys && h.freep == q && h.Node(q)
    && p in h.free && q < p
    && (forall b {:trigger AlmostApart(h, p, b)} | b in h.free :: AlmostApart(h, p, b))
    && (forall f | f in h.free :: f <= q || p <= f)
  }

  lemma MergeAboveIsTiled(h: Heap, q: int, p: int)
    requires h.Valid() && p in h.Live() && h.IsPred(q, p)
    ensures Merging(h.MergeAbove(q, p), q, p)
  {
    if h.size[p] + p in h.free {
      MergeAboveAbsorbs(h, q, p);
    } else {
      MergeAboveLists(h, q, p);
    }
  }

  lemma MergeAboveLists(h: Heap, q: int, p: int)
    requires h.Valid() && p in h.Live() && h.IsPred(q, p) && p + h.size[p] !in h.free
    ensures Merging(h.MergeAbove(q, p), q, p)
  {
    var h' := h.MergeAbove(q, p);
    forall b {:trigger AlmostApart(h', p, b)} | b in h'.free ensures AlmostApart(h', p, b) {
      assert h.Apart(b);
    }
  }

  lemma MergeAboveAbsorbs(h: Heap, q: int, p: int)
    requires h.Valid() && p in h.Live() && h.IsPred(q, p) && p + h.size[p] in h.free
    ensures Merging(h.MergeAbove(q, p), q, p)
  {
    var h' := h.MergeAbove(q, p);
    var e := p + h.size[p];
    FuseTiles(h.size, h.lo, h.hi, p, e);
    forall b {:trigger AlmostApart(h', p, b)} | b in h'.free ensures AlmostApart(h', p, b) {
      assert h.Apart(if b == p then e else b);
    }
  }

  lemma MergeAboveIsLive(h: Heap, q: int, p: int)
    requires h.Valid() && p in h.Live() && h.IsPred(q, p)
    ensures h.MergeAbove(q, p).Live() == h.Live() - {p}
  {
  }

  lemma MergeBelowIsValid(h: Heap, q: int, p: int)
    requires Merging(h, q, p) && q in h.free && q + h.size[q] == p
    ensures h.MergeBelow(q, p).Valid() && h.MergeBelow(q, p).Live() == h.Live()
  {
    var h' := h.MergeBelow(q, p);
    FuseTiles(h.size, h.lo, h.hi, q, p);
    assert h'.Coalesced() by {
      forall b {:trigger h'.Apart(b)} | b in h'.free ensures b in h'.size && h'.Apart(b) {
        assert AlmostApart(h, p, if b == q then p else b);
      }
    }
  }

  lemma NothingBelow(h: Heap, q: int, p: int)
    requires Merging(h, q, p) && !(q in h.free && q + h.size[q] == p)
    ensures h.Valid()
  {
    forall b {:trigger h.Apart(b)} | b in h.free ensures b in h.size && h.Apart(b) {
      assert AlmostApart(h, p, b);
    }
  }

  /** Exactly the block's own units return to the free space. */
  lemma ReleaseReturnsItsUnits(h: Heap, q: int, p: int, u: int)
    requires h.Valid() && p in h.Live() && h.IsPred(q, p)
    ensures h.Release(q, p).InFree(u) <==> h.InFree(u) || p <= u < p + h.size[p]
  {
    var h' := h.MergeAbove(q, p);
    MergeAboveUnits(h, q, p, u);
    MergeAboveIsTiled(h, q, p);
    if q in h'.free && q in h'.size && q + h'.size[q] == p {
      MergeBelowUnits(h', q, p, u);
    }
  }

  lemma MergeBelowUnits(h: Heap, q: int, p: int, u: int)
    requires Merging(h, q, p) && q in h.free && q + h.size[q] == p
    ensures h.MergeBelow(q, p).InFree(u) <==> h.InFree(u)
  {
    var h' := h.MergeBelow(q, p);
    if h'.InFree(u) {
      var a :| h'.FreeAt(a, u);
      var b := if a == q && p <= u then p else a;
      assert h.FreeAt(b, u);
    }
    if h.InFree(u) {
      var a :| h.FreeAt(a, u);
      var b := if a == p then q else a;
      assert h'.FreeAt(b, u);
    }
  }

  lemma MergeAboveUnits(h: Heap, q: int, p: int, u: int)
    requires h.Valid() && p in h.Live() && h.IsPred(q, p)
    ensures h.MergeAbove(q, p).InFree(u) <==> h.InFree(u) || p <= u < p + h.size[p]
  {
    var h' := h.MergeAbove(q, p);
    var e := p + h.size[p];
    if h'.InFree(u) && !(p <= u < e) {
      var a :| h'.FreeAt(a, u);
      var b := if a == p then e else a;
      assert h.FreeAt(b, u);
    }
    if h.InFree(u) {
      var a :| h.FreeAt(a, u);
      var b := if a == e then p else a;
      assert h'.FreeAt(b, u);
    }
    if p <= u < e {
      assert h'.FreeAt(p, u);
    }
  }
}
