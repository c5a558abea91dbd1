/**
 How a heap lies in memory: each block's header holds its length, and the headers of the
 free blocks, with the sentinel, are linked into one circular list ordered by address.
 Memory is a sequence of units seen as headers; what lies inside blocks is arbitrary.
 */
module HeapMemory {
  import opened HeapModel

  ghost predicate Linked(mem: seq<Header>, h: Heap, a: int) {
    0 <= a < |mem| ==> h.IsNext(a, mem[a].next)
  }

  ghost predicate Sized(mem: seq<Header>, h: Heap, a: int) {
    0 <= a < |mem| && a in h.size ==> mem[a].size == h.size[a]
  }

  ghost predicate Represents(mem: seq<Header>, h: Heap) {
    && 0 <= h.base < h.lo < h.hi == |mem|
    && mem[h.base].size == 0
    && (forall a {:trigger Sized(mem, h, a)} | a in h.size :: Sized(mem, h, a))
    && (forall a {:trigger Linked(mem, h, a)} | h.Node(a) :: Linked(mem, h, a))
  }

  /** Writes inside a live block, past its header, cannot disturb the heap. */
  lemma StoreKeepsHeap(mem: seq<Header>, h: Heap, p: int, u: int, x: Header)
    requires h.Valid() && Represents(mem, h)
    requires p in h.Live() && p < u < p + h.size[p] && u < |mem|
    ensures Represents(mem[u := x], h)
  {
    var mem' := mem[u := x];
    assert u !in h.size;
    forall a {:trigger Sized(mem', h, a)} | a in h.size ensures Sized(mem', h, a) {
      assert Sized(mem, h, a);
    }
    forall a {:trigger Linked(mem', h, a)} | h.Node(a) ensures Linked(mem', h, a) {
      assert Linked(mem, h, a);
    }
  }

  lemma PristineIsRepresented(mem: seq<Header>, base: int, lo: int, freep: int)
    requires 0 <= base < lo < |mem| && freep in {base, lo}
    requires mem[lo] == Header(base, |mem| - lo) && mem[base] == Header(lo, 0)
    ensures Pristine(base, lo, |mem|, freep).Valid()
    ensures Represents(mem, Pristine(base, lo, |mem|, freep))
  {
    var h := Pristine(base, lo, |mem|, freep);
    assert h.Joined(lo) && h.Apart(lo);
  }

  // ---------------------------------------------------------------- allocation

  /** Unlinking a block that fits exactly. */
  lemma UnlinkRepresents(mem: seq<Header>, h: Heap, q: int, a: int)
    requires h.Valid() && Represents(mem, h) && h.IsPred(q, a) && a in h.free
    ensures 0 <= q < |mem| && 0 <= a < |mem|
    ensures Represents(mem[q := mem[q].(next := mem[a].next)], h.Carve(q, a, h.size[a]))
  {
    var mem' := mem[q := mem[q].(next := mem[a].next)];
    var h' := h.Carve(q, a, h.size[a]);
    forall b {:trigger Sized(mem', h', b)} | b in h'.size ensures Sized(mem', h', b) {
      assert Sized(mem, h, b);
    }
    forall b {:trigger Linked(mem', h', b)} | h'.Node(b) ensures Linked(mem', h', b) {
      assert Linked(mem, h, if b == q then a else b);
    }
  }

  /** Carving the tail off a larger block; the list does not change. */
  lemma SplitRepresents(mem: seq<Header>, h: Heap, q: int, a: int, n: int)
    requires h.Valid() && Represents(mem, h) && h.IsPred(q, a) && a in h.free && 0 < n < h.size[a]
    ensures 0 <= a < h.Carved(a, n) < |mem|
    ensures var r := h.Carved(a, n);
      Represents(mem[a := mem[a].(size := h.size[a] - n)][r := mem[r].(size := n)], h.Carve(q, a, n))
  {
    var r := h.Carved(a, n);
    var mem' := mem[a := mem[a].(size := h.size[a] - n)][r := mem[r].(size := n)];
    var h' := h.Carve(q, a, n);
    assert r !in h.size;
    forall b {:trigger Sized(mem', h', b)} | b in h'.size ensures Sized(mem', h', b) {
      assert Sized(mem, h, b);
    }
    forall b {:trigger Linked(mem', h', b)} | h'.Node(b) ensures Linked(mem', h', b) {
      assert Linked(mem, h, b);
    }
  }

  /** The stores of `kmalloc` that take `n` units from the end of block `a`, found behind `q`. */
  ghost function TakeStores(mem: seq<Header>, q: int, a: int, n: int): (r: seq<Header>)
    requires 0 <= q < |mem| && 0 <= a < |mem| && (mem[a].size == n || 0 <= a + mem[a].size - n < |mem|)
  {
    if mem[a].size == n then
      mem[q := mem[q].(next := mem[a].next)]
    else
      var cut := mem[a := mem[a].(size := mem[a].size - n)];
      var r := a + mem[a].size - n;
      cut[r := cut[r].(size := n)]
  }

  /** They turn the memory of `h` into that of the heap with the units carved from `a`. */
  lemma TakeRepresents(mem: seq<Header>, h: Heap, q: int, a: int, n: int)
    requires h.Valid() && Represents(mem, h) && h.IsPred(q, a) && h.Fits(a, n) && 0 < n
    ensures 0 <= q < |mem| && 0 <= a < |mem| && mem[a].size == h.size[a] && 0 <= h.Carved(a, n) < |mem|
    ensures Represents(TakeStores(mem, q, a, n), h.Carve(q, a, n))
  {
    assert Sized(mem, h, a);
    if h.size[a] == n {
      UnlinkRepresents(mem, h, q, a);
    } else {
      SplitRepresents(mem, h, q, a, n);
    }
  }

  // ---------------------------------------------------------------- release

  /** The stores of `kfree` for the block behind `p`. */
  ghost function JoinAbove(mem: seq<Header>, q: int, p: int): (mem': seq<Header>)
    requires 0 <= q < |mem| && 0 <= p < |mem|
  {
    var n := mem[q].next;
    if p + mem[p].size == n && 0 <= n < |mem|
    then mem[p := Header(mem[n].next, mem[p].size + mem[n].size)]
    else mem[p := mem[p].(next := n)]
  }

  /** The stores of `kfree` for the block in front of `p`. */
  ghost function JoinBelow(mem: seq<Header>, q: int, p: int): (mem': seq<Header>)
    requires 0 <= q < |mem| && 0 <= p < |mem|
  {
    if q + mem[q].size == p
    then mem[q := Header(mem[p].next, mem[q].size + mem[p].size)]
    else mem[q := mem[q].(next := p)]
  }

  /** Between the two merges `p` is linked to its successor but not yet from `q`. */
  ghost predicate HalfLinked(mem: seq<Header>, h: Heap, q: int, p: int) {
    && 0 <= h.base < h.lo < h.hi == |mem|
    && mem[h.base].size == 0
    && (forall a {:trigger Sized(mem, h, a)} | a in h.size :: Sized(mem, h, a))
    && (forall a {:trigger Linked(mem, h, a)} | h.Node(a) && a != q :: Linked(mem, h, a))
  }

  lemma JoinAboveRepresents(mem: seq<Header>, h: Heap, q: int, p: int)
    requires h.Valid() && Represents(mem, h) && p in h.Live() && h.IsPred(q, p)
    ensures 0 <= q < |mem| && 0 <= p < |mem|
    ensures HalfLinked(JoinAbove(mem, q, p), h.MergeAbove(q, p), q, p)
  {
    var mem' := JoinAbove(mem, q, p);
    var h' := h.MergeAbove(q, p);
    assert Linked(mem, h, q) && Sized(mem, h, p);
    var n := mem[q].next;
    assert p + h.size[p] in h.free ==> p + h.size[p] == n && Sized(mem, h, n);
    forall b {:trigger Sized(mem', h', b)} | b in h'.size ensures Sized(mem', h', b) {
      assert Sized(mem, h, b);
    }
    forall b {:trigger Linked(mem', h', b)} | h'.Node(b) && b != q ensures Linked(mem', h', b) {
      assert Linked(mem, h, if b == p then n else b);
    }
  }

  lemma JoinBelowRepresents(mem: seq<Header>, h: Heap, q: int, p: int)
    requires Merging(h, q, p) && 0 <= q < |mem| && 0 <= p < |mem| && HalfLinked(mem, h, q, p)
    ensures Represents(JoinBelow(mem, q, p), h.MergeBelow(q, p))
  {
    var mem' := JoinBelow(mem, q, p);
    var h' := h.MergeBelow(q, p);
    assert Sized(mem, h, p) && Sized(mem, h, q);
    forall b {:trigger Sized(mem', h', b)} | b in h'.size ensures Sized(mem', h', b) {
      assert Sized(mem, h, b);
    }
    forall b {:trigger Linked(mem', h', b)} | h'.Node(b) ensures Linked(mem', h', b) {
      if b != q || q + mem[q].size == p {
        assert Linked(mem, h, if b == q then p else b);
      }
    }
  }

  /** The stores of `kfree` turn the memory of `h` into that of the heap with `p` released. */
  lemma ReleaseRepresents(mem: seq<Header>, h: Heap, q: int, p: int)
    requires h.Valid() && Represents(mem, h) && p in h.Live() && h.IsPred(q, p)
    ensures 0 <= q < p < |mem| && mem[p].size == h.size[p]
    ensures p + mem[p].size == mem[q].next ==> p < mem[q].next < |mem|
    ensures h.Release(q, p).Valid() && h.Release(q, p).freep == q
    ensures Represents(JoinBelow(JoinAbove(mem, q, p), q, p), h.Release(q, p))
  {
    assert Sized(mem, h, p) && Linked(mem, h, q);
    ReleaseIsValid(h, q, p);
    MergeAboveIsTiled(h, q, p);
    JoinAboveRepresents(mem, h, q, p);
    JoinBelowRepresents(JoinAbove(mem, q, p), h.MergeAbove(q, p), q, p);
  }
}
