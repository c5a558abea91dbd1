/**
 Whole runs of the heap: any sequence of allocations and releases from `init_kheap`.
 */
module HeapRuns {
  import opened HeapModel
  import opened HeapMemory
  import opened AlignedSplit

  /**
   A call of `kmalloc` for `n` units, of `kmalloc_alignas` that leaves the heap intact (its
   allocation ends the block but does not start it), or of `kfree` for the block `p`.
   */
  datatype Call = Malloc(n: int) | MallocAlignas(n: int) | Free(p: int)

  ghost predicate Step(h: Heap, c: Call, h': Heap) {
    match c
    case Malloc(n) => 0 < n && exists at, r :: Allocated(h, h', n, at, r)
    case MallocAlignas(n) => 0 < n && exists at :: AllocatedAligned(h, h', n, at)
    case Free(p) => Released(h, h', p)
  }

  ghost predicate AllocatedAligned(h: Heap, h': Heap, n: int, at: int) {
    h.Fits(at, n) && n < h.size[at] && h.IsPred(h'.freep, at) && h' == h.Carve(h'.freep, at, n)
  }

  ghost predicate Run(hs: seq<Heap>, cs: seq<Call>) {
    |hs| == |cs| + 1 && forall i {:trigger cs[i]} | 0 <= i < |cs| :: Step(hs[i], cs[i], hs[i + 1])
  }

  ghost predicate SameArena(h: Heap, h': Heap) {
    h'.base == h.base && h'.lo == h.lo && h'.hi == h.hi
  }

  /** One call keeps the invariant and changes the live blocks by at most the one it hands out or takes back. */
  lemma StepKeepsHeap(h: Heap, c: Call, h': Heap)
    requires h.Valid() && Step(h, c, h')
    ensures h'.Valid() && SameArena(h, h')
    ensures match c
      case Malloc(n) => h'.Live() == h.Live() || exists r :: r !in h.Live() && h'.Live() == h.Live()[r := n]
      case MallocAlignas(n) => exists r :: r !in h.Live() && h'.Live() == h.Live()[r := n]
      case Free(p) => p in h.Live() && h'.Live() == h.Live() - {p}
  {
    match c
    case Malloc(n) =>
      var at, r :| Allocated(h, h', n, at, r);
      if r != 0 { CarveIsValid(h, h'.freep, at, n); }
    case MallocAlignas(n) =>
      var at :| AllocatedAligned(h, h', n, at);
      CarveIsValid(h, h'.freep, at, n);
    case Free(p) =>
      ReleaseIsValid(h, h'.freep, p);
  }

  /** The tiling, the ordered list and the coalescing survive every call of a run. */
  lemma {:induction false} RunIsValid(hs: seq<Heap>, cs: seq<Call>, k: nat)
    requires Run(hs, cs) && hs[0].Valid() && k < |hs|
    ensures hs[k].Valid() && SameArena(hs[0], hs[k])
  {
    if k != 0 {
      RunIsValid(hs, cs, k - 1);
      StepKeepsHeap(hs[k - 1], cs[k - 1], hs[k]);
    }
  }

  /**
   Full coalescing: whenever nothing is live, whatever was allocated before and in whatever
   order it was freed, the heap is again the one free block of `init_kheap`, and memory links
   the sentinel to it and back.
   */
  lemma EverythingFreedIsPristine(hs: seq<Heap>, cs: seq<Call>, k: nat, mem: seq<Header>)
    requires Run(hs, cs) && hs[0].Valid() && k < |hs| && hs[k].Live() == map[]
    requires Represents(mem, hs[k])
    ensures hs[k] == Pristine(hs[0].base, hs[0].lo, hs[0].hi, hs[k].freep)
    ensures mem[hs[0].base] == Header(hs[0].lo, 0)
    ensures mem[hs[0].lo] == Header(hs[0].base, hs[0].hi - hs[0].lo)
  {
    RunIsValid(hs, cs, k);
    var h := hs[k];
    AllFreeIsPristine(h);
    assert Sized(mem, h, h.lo) && Linked(mem, h, h.lo) && Linked(mem, h, h.base);
  }

  /** Conservation: at every point of a run each unit is in exactly one of a free and a live block. */
  lemma UnitsAreConserved(hs: seq<Heap>, cs: seq<Call>, k: nat, u: int)
    requires Run(hs, cs) && hs[0].Valid() && k < |hs| && hs[0].lo <= u < hs[0].hi
    ensures hs[k].InFree(u) <==> !exists a :: a in hs[k].Live() && a <= u < a + hs[k].Live()[a]
  {
    RunIsValid(hs, cs, k);
    var h := hs[k];
    var a := Owner(h, h.lo, u);
    forall b | b in h.size && b <= u < b + h.size[b] ensures b == a {
      OwnerIsUnique(h, a, b, u);
    }
    assert a in h.free ==> h.FreeAt(a, u);
    assert a in h.free || (a in h.Live() && a <= u < a + h.Live()[a]);
  }

  /** A block keeps its place and length until the call that frees it. */
  lemma {:induction false} LiveUntilFreed(hs: seq<Heap>, cs: seq<Call>, i: nat, k: nat, p: int)
    requires Run(hs, cs) && hs[0].Valid() && i <= k < |hs| && p in hs[i].Live()
    requires forall j | i <= j < k :: cs[j] != Free(p)
    ensures p in hs[k].Live() && hs[k].Live()[p] == hs[i].Live()[p]
    decreases k
  {
    if i < k {
      LiveUntilFreed(hs, cs, i, k - 1, p);
      RunIsValid(hs, cs, k - 1);
      StepKeepsHeap(hs[k - 1], cs[k - 1], hs[k]);
    }
  }

  /** Freeing the live blocks one by one, in any order, empties the heap. */
  lemma {:induction false} AnyOrderDrains(hs: seq<Heap>, cs: seq<Call>, order: seq<int>, k: nat)
    requires Run(hs, cs) && hs[0].Valid() && |order| == |cs| && k <= |order|
    requires forall i | 0 <= i < |cs| :: cs[i] == Free(order[i])
    ensures hs[k].Live() == hs[0].Live() - set i | 0 <= i < k :: order[i]
  {
    if k != 0 {
      AnyOrderDrains(hs, cs, order, k - 1);
      RunIsValid(hs, cs, k - 1);
      StepKeepsHeap(hs[k - 1], cs[k - 1], hs[k]);
      assert (set i | 0 <= i < k :: order[i]) == (set i | 0 <= i < k - 1 :: order[i]) + {order[k - 1]};
    }
  }

  /** ... so that draining a heap in any order ends where `init_kheap` began. */
  lemma DrainedIsPristine(hs: seq<Heap>, cs: seq<Call>, order: seq<int>)
    requires Run(hs, cs) && hs[0].Valid() && |order| == |cs|
    requires forall i | 0 <= i < |cs| :: cs[i] == Free(order[i])
    requires hs[0].Live().Keys <= set i | 0 <= i < |order| :: order[i]
    ensures hs[|cs|] == Pristine(hs[0].base, hs[0].lo, hs[0].hi, hs[|cs|].freep)
  {
    AnyOrderDrains(hs, cs, order, |cs|);
    RunIsValid(hs, cs, |cs|);
    AllFreeIsPristine(hs[|cs|]);
  }

  /**
   The aligned allocation of tests/malloc-test.cpp (32 words of 8 bytes at a page boundary, on
   a drained heap whose end is page-aligned, wherever the frees have left `freep`) takes the
   branch that damages the heap.
   */
  lemma AlignedTestDamagesHeap(mem: seq<Header>, base: int, lo: int, freep: int)
    requires 0 <= base < lo && |mem| == lo + 0x40000 && lo % 0x40000 == 0 && freep in {base, lo}
    requires mem[lo] == Header(base, 0x40000) && mem[base] == Header(lo, 0)
    ensures var h := Pristine(base, lo, |mem|, freep);
      h.Valid() && Represents(mem, h)
      && SuitsAt(h, lo, 17, 0x1000, |mem| - 256)
      && !Intact(SplitStores(mem, lo, |mem| - 257, 17), base, lo, base, h.Live()[|mem| - 257 := 17])
  {
    PristineIsRepresented(mem, base, lo, freep);
    var h := Pristine(base, lo, |mem|, freep);
    assert h.IsPred(base, lo);
    HighestInPages(lo);
    AlignedSplitIntact(mem, h, base, lo, |mem| - 257, 17);
  }

  /** In a heap of whole pages the highest page boundary is a page below its end. */
  lemma HighestInPages(lo: int)
    requires lo % 0x40000 == 0
    ensures Highest(lo, 0x40000, 0x1000, lo + 0x40000 - 256)
  {
    var q := lo / 0x40000;
    var page := 0x400 * q + 0x3ff;
    assert lo == 0x40000 * q;
    UnitInPage(page, 0);
    forall v | lo + 0x40000 - 256 < v < lo + 0x40000 ensures Address(v) % 0x1000 != 0 {
      UnitInPage(page, v - 256 * page);
    }
  }

  /** A page has 256 units. */
  lemma UnitInPage(page: int, d: int)
    requires 0 <= d < 256
    ensures Address(256 * page + d) % 0x1000 == 16 * d
  {
  }
}
