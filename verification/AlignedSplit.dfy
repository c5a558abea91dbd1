/**
 What `kmalloc_alignas` does to a block, and when that leaves a heap behind. Its two branches
 are the exact fit, where the allocation ends with the block, and the split, where a tail
 stays free. The code computes the tail's length with the wrong sign, so the split always
 damages the heap; the exact fit damages it when the allocation also starts with the block.
 */
module AlignedSplit {
  import opened HeapModel
  import opened HeapMemory

  /** The byte address of unit `u`. */
  function Address(u: int): (addr: int) {
    16 * u
  }

  /** `u` is what `get_aligned_address` looks for: the highest aligned unit above `start`. */
  ghost predicate Highest(start: int, length: int, align: int, u: int)
    requires 0 < align
  {
    && start < u < start + length && Address(u) % align == 0
    && forall v | u < v < start + length :: Address(v) % align != 0
  }

  /** Block `a` passes the test of `kmalloc_alignas` with payload `u`. */
  ghost predicate SuitsAt(h: Heap, a: int, n: int, align: int, u: int)
    requires 0 < align
  {
    a in h.size && Highest(a, h.size[a], align, u) && u - 1 + n <= a + h.size[a]
  }

  ghost function Suiting(h: Heap, n: int, align: int): (blocks: set<int>)
    requires 0 < align
  {
    set a | a in h.free && exists u :: SuitsAt(h, a, n, align, u)
  }

  /** A block suits with its highest aligned unit or not at all. */
  lemma HighestIsUnique(h: Heap, a: int, n: int, align: int, u: int)
    requires 0 < align && a in h.size
    requires if u == 0 then forall v :: !Highest(a, h.size[a], align, v) else Highest(a, h.size[a], align, u)
    requires u == 0 || u - 1 + n > a + h.size[a]
    ensures a !in Suiting(h, n, align)
  {
    forall v ensures !SuitsAt(h, a, n, align, v) {
      if Highest(a, h.size[a], align, v) && u != 0 {
        assert u == v;
      }
    }
  }

  /** An aligned unit in a block: then there is a highest one. */
  lemma {:induction false} HighestExists(start: int, length: int, align: int, u: int) returns (top: int)
    requires 0 < align && start < u < start + length && Address(u) % align == 0
    ensures u <= top && Highest(start, length, align, top)
    decreases start + length - u
  {
    if v :| u < v < start + length && Address(v) % align == 0 {
      top := HighestExists(start, length, align, v);
    } else {
      top := u;
    }
  }

  /** A free block suits exactly when it has an aligned unit and none of them is too close to its end. */
  lemma SuitingMeans(h: Heap, n: int, align: int, a: int)
    requires 0 < align && h.Valid() && a in h.free
    ensures a in Suiting(h, n, align) <==>
      && (exists u :: a < u < a + h.size[a] && Address(u) % align == 0)
      && (forall u | a < u < a + h.size[a] && Address(u) % align == 0 :: u - 1 + n <= a + h.size[a])
  {
    if a in Suiting(h, n, align) {
      var u :| SuitsAt(h, a, n, align, u);
      assert Address(u) % align == 0;
    } else if u :| a < u < a + h.size[a] && Address(u) % align == 0 {
      var top := HighestExists(a, h.size[a], align, u);
      assert !SuitsAt(h, a, n, align, top);
      assert Address(top) % align == 0 && top - 1 + n > a + h.size[a];
    }
  }

  /** The block `p` of the heap in `mem` has room for an `n`-unit allocation whose header is `m`. */
  ghost predicate Fills(h: Heap, mem: seq<Header>, p: int, m: int, n: int) {
    0 <= p <= m < |mem| && 0 < n && m + n <= p + mem[p].size <= |mem| && p in h.size && mem[p].size == h.size[p]
  }

  /** The stores of a split at header `m`, with `back` for the length of the tail behind the allocation. */
  ghost function SplitWith(mem: seq<Header>, p: int, m: int, n: int, back: int): (r: seq<Header>)
    requires 0 <= p <= m < |mem| && 0 < n && m + n < |mem|
  {
    var t := m + n;
    mem[p := Header(t, m - p)][m := Header(if m == p then t else mem[m].next, n)][t := Header(mem[p].next, back)]
  }

  /** The stores of `kmalloc_alignas` when header `m` of an `n`-unit allocation goes into block `p`. */
  ghost function SplitStores(mem: seq<Header>, p: int, m: int, n: int): (r: seq<Header>)
    requires 0 <= p <= m < |mem| && 0 < n && m + n <= p + mem[p].size <= |mem|
  {
    var end := p + mem[p].size;
    if m + n == end then
      mem[p := mem[p].(size := mem[p].size - n)][m := Header((mem[m]).next, n)]
    else
      SplitWith(mem, p, m, n, end - (m - n))
  }

  /** Memory holds a proper heap whose live blocks are `live`. */
  ghost predicate Intact(mem: seq<Header>, base: int, lo: int, freep: int, live: map<int, int>) {
    exists h: Heap :: Holds(h, mem, base, lo, freep, live)
  }

  ghost predicate Holds(h: Heap, mem: seq<Header>, base: int, lo: int, freep: int, live: map<int, int>) {
    h.Valid() && Represents(mem, h) && h.base == base && h.lo == lo && h.freep == freep && h.Live() == live
  }

  /** Every address above the sentinel has a list node below it. */
  lemma PredExists(h: Heap, p: int) returns (q: int)
    requires h.base < p
    ensures h.IsPred(q, p)
  {
    var below := set f | f in h.free && h.base < f < p;
    q := MaxOr(h.base, below);
    forall f | f in h.free ensures f <= q || p <= f {
      assert h.base < f < p ==> f in below;
    }
  }

  lemma {:induction false} MaxOr(low: int, s: set<int>) returns (q: int)
    requires forall x | x in s :: low < x
    ensures q == low || q in s
    ensures forall x | x in s :: x <= q
  {
    if x :| x in s {
      q := MaxOr(low, s - {x});
      q := if q < x then x else q;
      forall y | y in s ensures y <= q {
        assert y == x || y in s - {x};
      }
    } else {
      q := low;
    }
  }

  /** Whatever heap a memory holds, it lists the nodes that the memory links. */
  lemma {:induction false} StaysOnList(mem: seq<Header>, h: Heap, mem': seq<Header>, h': Heap, f: int)
    requires h.Valid() && Represents(mem, h) && Represents(mem', h')
    requires h'.base == h.base && |mem'| == |mem| && f in h.free
    requires forall a | 0 <= a < f && h.Node(a) :: mem'[a].next == mem[a].next
    ensures f in h'.free
    decreases f - h.base
  {
    var q := PredExists(h, f);
    if q != h.base {
      StaysOnList(mem, h, mem', h', q);
    }
    assert Linked(mem, h, q) && Linked(mem', h', q);
  }

  lemma ExactFitIsCarve(mem: seq<Header>, h: Heap, q: int, p: int, m: int, n: int)
    requires h.Valid() && Represents(mem, h) && h.IsPred(q, p) && p in h.free && 0 < n
    requires p < m && m + n == p + h.size[p]
    ensures 0 <= p < |mem| && mem[p].size == h.size[p] && m < |mem|
    ensures Holds(h.Carve(q, p, n), SplitStores(mem, p, m, n), h.base, h.lo, q, h.Live()[m := n])
  {
    assert Sized(mem, h, p);
    CarveIsValid(h, q, p, n);
    SplitRepresents(mem, h, q, p, n);
  }

  // ---------------------------------------------------------------- the split

  /** The heap after an allocation from the middle of the free block `p`: front and tail are both free. */
  ghost function Split(h: Heap, q: int, p: int, m: int, n: int): (r: Heap)
    requires p in h.size
  {
    var end := p + h.size[p];
    h.(size := h.size[p := m - p][m := n][m + n := end - (m + n)], free := h.free + {m + n}, freep := q)
  }

  lemma CutTwice(size: map<int, int>, p: int, m: int, n: int)
    requires p in size && p < m && 0 < n && m + n < p + size[p]
    ensures var end := p + size[p]; var once := Cut(size, p, end - m);
      m in once && once[m] == end - m
      && Cut(once, m, end - (m + n)) == size[p := m - p][m := n][m + n := end - (m + n)]
  {
  }

  lemma SplitIsTiled(size: map<int, int>, lo: int, hi: int, p: int, m: int, n: int)
    requires Tiling(size, lo, hi) && p in size && 0 < n && p < m && m + n < p + size[p]
    ensures Tiling(size[p := m - p][m := n][m + n := p + size[p] - (m + n)], lo, hi)
  {
    var end := p + size[p];
    CutTwice(size, p, m, n);
    CutTiles(size, lo, hi, p, end - m);
    CutTiles(Cut(size, p, end - m), lo, hi, m, end - (m + n));
  }

  lemma SplitIsApart(h: Heap, q: int, p: int, m: int, n: int, f: int)
    requires h.Valid() && p in h.free && 0 < n && p < m && m + n < p + h.size[p]
    requires f in Split(h, q, p, m, n).free
    ensures Split(h, q, p, m, n).Apart(f)
  {
    NoBlockInside(h, p, m);
    assert h.Apart(if f == m + n then p else f);
  }

  lemma SplitIsValid(h: Heap, q: int, p: int, m: int, n: int)
    requires h.Valid() && h.IsPred(q, p) && p in h.free && 0 < n && p < m && m + n < p + h.size[p]
    ensures Split(h, q, p, m, n).Valid()
  {
    var h' := Split(h, q, p, m, n);
    SplitIsTiled(h.size, h.lo, h.hi, p, m, n);
    forall f {:trigger h'.Apart(f)} | f in h'.free ensures f in h'.size && h'.Apart(f) {
      SplitIsApart(h, q, p, m, n, f);
    }
  }

  lemma SplitIsLive(h: Heap, q: int, p: int, m: int, n: int)
    requires h.Valid() && p in h.free && 0 < n && p < m && m + n < p + h.size[p]
    ensures Split(h, q, p, m, n).Live() == h.Live()[m := n]
  {
    NoBlockInside(h, p, m);
    NoBlockInside(h, p, m + n);
  }

  lemma SplitIsRepresented(mem: seq<Header>, h: Heap, q: int, p: int, m: int, n: int)
    requires h.Valid() && Represents(mem, h) && p in h.free && 0 < n && p < m && m + n < p + h.size[p]
    ensures 0 <= p && m + n < |mem|
    ensures Represents(SplitWith(mem, p, m, n, p + h.size[p] - (m + n)), Split(h, q, p, m, n))
  {
    var h' := Split(h, q, p, m, n);
    var t := m + n;
    assert Sized(mem, h, p) && Linked(mem, h, p);
    assert m !in h.size && t !in h.size;
    var mem' := SplitWith(mem, p, m, n, p + h.size[p] - t);
    forall b {:trigger Sized(mem', h', b)} | b in h'.size ensures Sized(mem', h', b) {
      assert b in h.size ==> Sized(mem, h, b);
    }
    forall b {:trigger Linked(mem', h', b)} | h'.Node(b) ensures Linked(mem', h', b) {
      assert Linked(mem, h, if b == t then p else b);
    }
  }

  /** A heap that the stores of a split leave behind lists the front and the tail. */
  lemma TailIsListed(mem: seq<Header>, h: Heap, p: int, m: int, n: int, back: int, h': Heap)
    requires h.Valid() && Represents(mem, h) && p in h.free && 0 < n && p <= m && m + n < p + h.size[p]
    ensures 0 <= p && m + n < |mem|
    ensures h'.base == h.base && Represents(SplitWith(mem, p, m, n, back), h') ==>
      p in h'.free && m + n in h'.free && (m + n in h'.size ==> h'.size[m + n] == back)
  {
    var mem' := SplitWith(mem, p, m, n, back);
    if h'.base == h.base && Represents(mem', h') {
      StaysOnList(mem, h, mem', h', p);
      assert Linked(mem', h', p) && (m + n in h'.size ==> Sized(mem', h', m + n));
    }
  }

  /** The unit behind the free block `p` is not free, and no block but those of the split begins inside it. */
  lemma TailEndsWithBlock(h: Heap, p: int, m: int, n: int, h': Heap)
    requires h.Valid() && p in h.free && 0 < n && p < m && m + n < p + h.size[p]
    requires h'.Valid() && h'.hi == h.hi && h'.Live() == h.Live()[m := n] && m + n in h'.free
    ensures m + n + h'.size[m + n] == p + h.size[p]
  {
    var t, end := m + n, p + h.size[p];
    assert h.Joined(p) && h.Apart(p) && h'.Joined(t) && h'.Apart(t);
    var e := t + h'.size[t];
    assert e == h.hi || e in h'.Live();
    assert e in h'.Live() ==> e == m || e in h.size;
    assert end == h.hi || end in h'.Live();
  }

  /** A split leaves a heap exactly when the allocation does not start the block and the tail's length is right. */
  lemma TailDecides(mem: seq<Header>, h: Heap, q: int, p: int, m: int, n: int, back: int)
    requires h.Valid() && Represents(mem, h) && h.IsPred(q, p) && p in h.free && 0 < n
    requires p <= m && m + n < p + h.size[p]
    ensures 0 <= p && m + n < |mem|
    ensures Intact(SplitWith(mem, p, m, n, back), h.base, h.lo, q, h.Live()[m := n])
      <==> p < m && back == p + h.size[p] - (m + n)
  {
    var mem' := SplitWith(mem, p, m, n, back);
    var live := h.Live()[m := n];
    assert m in live;
    if p < m && back == p + h.size[p] - (m + n) {
      SplitIsValid(h, q, p, m, n);
      SplitIsLive(h, q, p, m, n);
      SplitIsRepresented(mem, h, q, p, m, n);
      assert Holds(Split(h, q, p, m, n), mem', h.base, h.lo, q, live);
    } else {
      forall h': Heap {:trigger Holds(h', mem', h.base, h.lo, q, live)}
        ensures !Holds(h', mem', h.base, h.lo, q, live)
      {
        if Holds(h', mem', h.base, h.lo, q, live) {
          TailIsListed(mem, h, p, m, n, back, h');
          if p < m {
            TailEndsWithBlock(h, p, m, n, h');
          }
        }
      }
    }
  }

  // ---------------------------------------------------------------- both branches

  /** When the allocation is the whole block, the block stays linked. */
  lemma WholeBlockStaysListed(mem: seq<Header>, h: Heap, q: int, p: int, n: int)
    requires h.Valid() && Represents(mem, h) && p in h.free && 0 < n == h.size[p]
    ensures 0 <= p < |mem| && mem[p].size == h.size[p]
    ensures !Intact(SplitStores(mem, p, p, n), h.base, h.lo, q, h.Live()[p := n])
  {
    assert Sized(mem, h, p);
    var mem' := SplitStores(mem, p, p, n);
    var live := h.Live()[p := n];
    assert p in live;
    forall h': Heap {:trigger Holds(h', mem', h.base, h.lo, q, live)}
      ensures !Holds(h', mem', h.base, h.lo, q, live)
    {
      if Holds(h', mem', h.base, h.lo, q, live) {
        StaysOnList(mem, h, mem', h', p);
      }
    }
  }

  /** What the code's split records for the tail: its true length and `2 * n` units more. */
  lemma TailIsTooLong(mem: seq<Header>, h: Heap, p: int, m: int, n: int)
    requires h.Valid() && Represents(mem, h) && p in h.free && 0 < n && p <= m && m + n < p + h.size[p]
    ensures 0 <= p && m + n < |mem| && mem[p].size == h.size[p]
    ensures var mem' := SplitStores(mem, p, m, n);
      && mem'[m + n].size == p + h.size[p] - (m + n) + 2 * n && mem'[m + n].next == mem[p].next
      && mem'[m].size == n && mem'[p].next == m + n && (p != m ==> mem'[p].size == m - p)
      && forall a | 0 <= a < |mem| && a != p && a != m && a != m + n :: mem'[a] == mem[a]
  {
    assert Sized(mem, h, p);
  }

  /** Exactly when an aligned allocation leaves a heap with the new block live and nothing else changed. */
  lemma AlignedSplitIntact(mem: seq<Header>, h: Heap, q: int, p: int, m: int, n: int)
    requires h.Valid() && Represents(mem, h) && h.IsPred(q, p) && p in h.free && 0 < n
    requires p <= m && m + n <= p + h.size[p]
    ensures 0 <= p < |mem| && mem[p].size == h.size[p] && m < |mem|
    ensures Intact(SplitStores(mem, p, m, n), h.base, h.lo, q, h.Live()[m := n])
      <==> p < m && m + n == p + h.size[p]
  {
    assert Sized(mem, h, p);
    if m + n < p + h.size[p] {
      TailDecides(mem, h, q, p, m, n, p + h.size[p] - (m - n));
    } else if p < m {
      ExactFitIsCarve(mem, h, q, p, m, n);
    } else {
      WholeBlockStaysListed(mem, h, q, p, n);
    }
  }
}
