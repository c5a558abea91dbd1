/**
 The kernel page table built by `create_kpgtable` (kernel/mm.c), read back through the
 hardware's walk for 4-level paging (Intel SDM volume 3A, section 4.5).

 The table occupies consecutive 64-bit words from the physical address `start`; `gib` is the
 source's `pdpt_num`, the number of GiB to map.
 */
module PageTable {
  const ENTRY_NUM := 512
  const PAGE_4KB := 0x1000
  const PD_NUM := 512
  const PT_NUM := 512
  const PHYS_LIMIT := 0x10_0000_0000_0000   // 2^52, the widest physical address

  // word offsets of the tables from `start`
  const PML4 := 0
  const PDPT := ENTRY_NUM

  function Pd(gib: int): (j: int) {
    PDPT + ENTRY_NUM * gib
  }

  function Pt(gib: int): (j: int) {
    Pd(gib) + ENTRY_NUM * PD_NUM
  }

  function TableWords(gib: int): (n: int) {
    Pt(gib) + gib * PD_NUM * PT_NUM
  }

  /** `addr | 0x003`. */
  function Or3(addr: int): (e: int) {
    addr - addr % 4 + 3
  }

  /** The word that belongs at offset `j`: an entry of one of the four tables, or zero. */
  ghost function WordAt(start: int, gib: int, j: int): (word: int) {
    if j < PDPT then
      if j == 0 then start + 8 * PDPT + 3 else 0
    else if j < Pd(gib) then
      if j - PDPT < gib then start + 8 * (Pd(gib) + ENTRY_NUM * (j - PDPT)) + 3 else 0
    else if j < Pt(gib) then
      if j - Pd(gib) < gib * PD_NUM then start + 8 * (Pt(gib) + ENTRY_NUM * (j - Pd(gib))) + 3 else 0
    else
      (j - Pt(gib)) * PAGE_4KB + 3
  }

  /** Every word is zero or the address of a page with the present and writable bits and no other. */
  lemma WordsAreEntries(start: int, gib: int, j: int)
    requires 1 <= gib <= 512 && start % PAGE_4KB == 0 && 0 <= j
    ensures WordAt(start, gib, j) == 0 || WordAt(start, gib, j) % PAGE_4KB == 3
  {
    var q := start / PAGE_4KB;
    assert start == PAGE_4KB * q;
    if j < PDPT {
      EntryOfPage(q + 1);
    } else if j < Pd(gib) {
      EntryOfPage(q + 1 + gib + (j - PDPT));
    } else if j < Pt(gib) {
      EntryOfPage(q + 1 + gib + PD_NUM + (j - Pd(gib)));
    } else {
      EntryOfPage(j - Pt(gib));
    }
  }

  lemma EntryOfPage(page: int)
    ensures (PAGE_4KB * page + 3) % PAGE_4KB == 3
  {
  }

  /** On a table that starts on a page, setting the low two bits of an entry's address adds 3. */
  lemma OrEntry(start: int, k: int)
    requires start % PAGE_4KB == 0
    ensures Or3(start + 8 * k) == start + 8 * k + 3
  {
    var q := start / 0x1000;
    OrMultiple(start + 8 * k, 1024 * q + 2 * k);
  }

  lemma OrMultiple(a: int, m: int)
    requires a == 4 * m
    ensures Or3(a) == a + 3
  {
  }

  /** `memset` with 0 over the first `n` words. */
  method ClearWords(mem: array<int>, n: int)
    requires 0 <= n <= mem.Length
    modifies mem
    ensures forall j | 0 <= j < n :: mem[j] == 0
    ensures forall j | n <= j < mem.Length :: mem[j] == old(mem[j])
  {
    for i := 0 to n
      invariant forall j | 0 <= j < i :: mem[j] == 0
      invariant forall j | i <= j < mem.Length :: mem[j] == old(mem[j])
    {
      mem[i] := 0;
    }
  }

  /** The loop that fills the page tables: entry `i` maps page `i`. */
  method MapPages(mem: array<int>, pt: int, n: int)
    requires 0 <= pt && 0 <= n && pt + n <= mem.Length
    modifies mem
    ensures forall j | pt <= j < pt + n :: mem[j] == (j - pt) * PAGE_4KB + 3
    ensures forall j | 0 <= j < mem.Length && !(pt <= j < pt + n) :: mem[j] == old(mem[j])
  {
    for i := 0 to n
      invariant forall j | pt <= j < pt + i :: mem[j] == (j - pt) * PAGE_4KB + 3
      invariant forall j | 0 <= j < mem.Length && !(pt <= j < pt + i) :: mem[j] == old(mem[j])
    {
      OrEntry(0, i * (PAGE_4KB / 8));
      mem[pt + i] := Or3(i * PAGE_4KB);
    }
  }

  /** The loop of each higher level: entry `i` of `table` points to the `i`-th table at `lower`. */
  method LinkTables(mem: array<int>, start: int, table: int, n: int, lower: int)
    requires start % PAGE_4KB == 0 && 0 <= table && 0 <= n && table + n <= mem.Length
    modifies mem
    ensures forall j | table <= j < table + n :: mem[j] == start + 8 * (lower + ENTRY_NUM * (j - table)) + 3
    ensures forall j | 0 <= j < mem.Length && !(table <= j < table + n) :: mem[j] == old(mem[j])
  {
    for i := 0 to n
      invariant forall j | table <= j < table + i :: mem[j] == start + 8 * (lower + ENTRY_NUM * (j - table)) + 3
      invariant forall j | 0 <= j < mem.Length && !(table <= j < table + i) :: mem[j] == old(mem[j])
    {
      OrEntry(start, lower + ENTRY_NUM * i);
      mem[table + i] := Or3(start + 8 * (lower + ENTRY_NUM * i));
    }
  }

  method CreateKpgtable(mem: array<int>, start: int, gib: int)
    requires 1 <= gib <= 512 && start % PAGE_4KB == 0 && TableWords(gib) <= mem.Length
    modifies mem
    ensures forall j | 0 <= j < TableWords(gib) :: mem[j] == WordAt(start, gib, j)
    ensures forall j | TableWords(gib) <= j < mem.Length :: mem[j] == old(mem[j])
  {
    // the range cleared ends inside the page tables, which are filled completely anyway
    ClearWords(mem, ENTRY_NUM * (PT_NUM + PD_NUM + gib + 1));
    var pdpt, pd, pt := PDPT, Pd(gib), Pt(gib);
    MapPages(mem, pt, gib * PD_NUM * PT_NUM);
    LinkTables(mem, start, pd, gib * PD_NUM, pt);
    LinkTables(mem, start, pdpt, gib, pd);
    LinkTables(mem, start, PML4, 1, pdpt);
  }

  // ---------------------------------------------------------------- the hardware's walk

  /** `Unmodelled` is a walk that leaves the memory the model knows. */
  datatype Translation = NotPresent | Unmodelled | Mapped(phys: int, writable: bool)

  predicate Present(e: int) { e % 2 == 1 }
  predicate Writable(e: int) { e / 2 % 2 == 1 }
  predicate LargePage(e: int) { e / 128 % 2 == 1 }

  /** The physical address an entry holds, for pages or tables of `size` bytes. */
  function Frame(e: int, size: int): (addr: int)
    requires 0 < size
  {
    e % PHYS_LIMIT / size * size
  }

  function Index(lin: int, span: int): (i: int)
    requires 0 < span
  {
    lin / span % ENTRY_NUM
  }

  /**
   One level: the entry for `lin` in the table at `table`, each entry spanning `span` bytes.
   Entries that span 1 GiB or 2 MiB may map a page themselves.
   */
  function Walk(mem: seq<int>, start: int, table: int, span: int, lin: int, writable: bool): (t: Translation)
    requires span in {0x80_0000_0000, 0x4000_0000, 0x20_0000, 0x1000}
    decreases span
  {
    var addr := table + 8 * Index(lin, span);
    if addr < start || (addr - start) % 8 != 0 || (addr - start) / 8 >= |mem| then
      Unmodelled
    else
      var e := mem[(addr - start) / 8];
      var w := writable && Writable(e);
      if !Present(e) then
        NotPresent
      else if span == 0x1000 || (span != 0x80_0000_0000 && LargePage(e)) then
        Mapped(Frame(e, span) + lin % span, w)
      else
        Walk(mem, start, Frame(e, PAGE_4KB), span / ENTRY_NUM, lin, w)
  }

  /** The translation of a 48-bit linear address when CR3 holds `start`. */
  function Translate(mem: seq<int>, start: int, lin: int): (t: Translation) {
    Walk(mem, start, start, 0x80_0000_0000, lin, true)
  }

  ghost predicate Built(mem: seq<int>, start: int, gib: int) {
    && 1 <= gib <= 512 && 0 <= start && OnPage(start)
    && TableWords(gib) <= |mem| && start + 8 * TableWords(gib) <= PHYS_LIMIT
    && forall j | 0 <= j < TableWords(gib) :: mem[j] == WordAt(start, gib, j)
  }

  lemma EntryFields(a: int)
    requires 0 <= a < PHYS_LIMIT && OnPage(a)
    ensures Present(a + 3) && Writable(a + 3) && !LargePage(a + 3) && Frame(a + 3, PAGE_4KB) == a
  {
    var k := a / PAGE_4KB;
    EntryQuotients(k);
    Parity(0x800 * k + 1, 0x400 * k, 1);
    Parity(0x20 * k, 0x10 * k, 0);
    Parity(0x1000 * k + 3, 0x800 * k + 1, 1);
    EntryFrame(k);
  }

  lemma EntryQuotients(k: int)
    ensures (0x1000 * k + 3) / 2 == 0x800 * k + 1 && (0x1000 * k + 3) / 128 == 0x20 * k
  {
  }

  lemma Parity(x: int, half: int, r: int)
    requires x == 2 * half + r && 0 <= r < 2
    ensures x % 2 == r
  {
  }

  lemma EntryFrame(k: int)
    requires 0 <= 0x1000 * k < PHYS_LIMIT
    ensures Frame(0x1000 * k + 3, PAGE_4KB) == 0x1000 * k
  {
  }

  predicate OnPage(a: int) { a % PAGE_4KB == 0 }

  lemma TableOnPage(start: int, k: int)
    requires OnPage(start)
    ensures OnPage(start + 8 * (ENTRY_NUM * k))
  {
    assert start + 8 * (ENTRY_NUM * k) == (start / PAGE_4KB + k) * PAGE_4KB;
  }

  /** The indices of a linear address in the higher two tables, when it lies below 512 GiB. */
  lemma SplitHigh(lin: int)
    requires 0 <= lin < 0x80_0000_0000
    ensures Index(lin, 0x80_0000_0000) == 0 && Index(lin, 0x4000_0000) == lin / 0x4000_0000
  {
  }

  /** Its index in the page directory of its GiB, and in the page table of its 2 MiB. */
  lemma SplitLow(lin: int)
    requires 0 <= lin
    ensures ENTRY_NUM * (lin / 0x4000_0000) + Index(lin, 0x20_0000) == lin / 0x20_0000
    ensures ENTRY_NUM * (lin / 0x20_0000) + Index(lin, 0x1000) == lin / 0x1000
  {
  }

  /** One step of the walk through a word that is a table entry. */
  lemma WalkThrough(mem: seq<int>, start: int, table: int, span: int, lower: int, lin: int, j: int, next: int)
    requires span in {0x80_0000_0000, 0x4000_0000, 0x20_0000} && span == ENTRY_NUM * lower
    requires 0 <= j < |mem| && table + 8 * Index(lin, span) == start + 8 * j
    requires 0 <= next < PHYS_LIMIT && OnPage(next) && mem[j] == next + 3
    ensures Walk(mem, start, table, span, lin, true) == Walk(mem, start, next, lower, lin, true)
  {
    EntryFields(next);
  }

  /** The page directory of GiB `i`, and the page table of the 2 MiB with number `i`. */
  function PdTable(start: int, gib: int, i: int): (addr: int) { start + 8 * (Pd(gib) + ENTRY_NUM * i) }

  function PtTable(start: int, gib: int, i: int): (addr: int) { start + 8 * (Pt(gib) + ENTRY_NUM * i) }

  lemma TablesAreTables(mem: seq<int>, start: int, gib: int, i: int)
    requires Built(mem, start, gib)
    ensures OnPage(start + 8 * PDPT) && 0 <= start + 8 * PDPT < PHYS_LIMIT && mem[0] == start + 8 * PDPT + 3
    ensures 0 <= i < gib ==> OnPage(PdTable(start, gib, i)) && 0 <= PdTable(start, gib, i) < PHYS_LIMIT
    ensures 0 <= i < gib ==> mem[PDPT + i] == PdTable(start, gib, i) + 3
    ensures 0 <= i < gib * PD_NUM ==> OnPage(PtTable(start, gib, i)) && 0 <= PtTable(start, gib, i) < PHYS_LIMIT
    ensures 0 <= i < gib * PD_NUM ==> mem[Pd(gib) + i] == PtTable(start, gib, i) + 3
  {
    TableOnPage(start, 1);
    TableOnPage(start, 1 + gib + i);
    TableOnPage(start, 1 + gib + PD_NUM + i);
  }

  /** The walk from the root reaches the page directory pointer table. */
  lemma WalkFromRoot(mem: seq<int>, start: int, gib: int, lin: int)
    requires Built(mem, start, gib) && 0 <= lin < 0x80_0000_0000
    ensures Translate(mem, start, lin) == Walk(mem, start, start + 8 * PDPT, 0x4000_0000, lin, true)
  {
    SplitHigh(lin);
    TablesAreTables(mem, start, gib, 0);
    WalkThrough(mem, start, start, 0x80_0000_0000, 0x4000_0000, lin, 0, start + 8 * PDPT);
  }

  /** ... from there the page directory of the address's GiB ... */
  lemma WalkToDirectory(mem: seq<int>, start: int, gib: int, lin: int, i: int)
    requires Built(mem, start, gib) && 0 <= i < gib && Index(lin, 0x4000_0000) == i
    ensures Walk(mem, start, start + 8 * PDPT, 0x4000_0000, lin, true) ==
      Walk(mem, start, PdTable(start, gib, i), 0x20_0000, lin, true)
  {
    TablesAreTables(mem, start, gib, i);
    WalkThrough(mem, start, start + 8 * PDPT, 0x4000_0000, 0x20_0000, lin, PDPT + i, PdTable(start, gib, i));
  }

  /** ... and then the page table of its 2 MiB. */
  lemma WalkToPageTable(mem: seq<int>, start: int, gib: int, lin: int, i: int, j: int)
    requires Built(mem, start, gib) && 0 <= j < gib * PD_NUM && ENTRY_NUM * i + Index(lin, 0x20_0000) == j
    ensures Walk(mem, start, PdTable(start, gib, i), 0x20_0000, lin, true) ==
      Walk(mem, start, PtTable(start, gib, j), 0x1000, lin, true)
  {
    TablesAreTables(mem, start, gib, j);
    WalkThrough(mem, start, PdTable(start, gib, i), 0x20_0000, 0x1000, lin, Pd(gib) + j, PtTable(start, gib, j));
  }

  /** The last level: the page table entry gives the page. */
  lemma WalkToPage(mem: seq<int>, start: int, gib: int, lin: int, j: int, page: int)
    requires Built(mem, start, gib) && 0 <= page < gib * PD_NUM * PT_NUM
    requires ENTRY_NUM * j + Index(lin, 0x1000) == page
    ensures Walk(mem, start, PtTable(start, gib, j), 0x1000, lin, true) == Mapped(page * PAGE_4KB + lin % 0x1000, true)
  {
    assert mem[Pt(gib) + page] == page * PAGE_4KB + 3;
    TableOnPage(0, page);
    EntryFields(page * PAGE_4KB);
  }

  /** Every linear address below `gib` GiB is mapped to itself, present and writable. */
  lemma IdentityMapped(mem: seq<int>, start: int, gib: int, lin: int)
    requires Built(mem, start, gib) && 0 <= lin < gib * 0x4000_0000
    ensures Translate(mem, start, lin) == Mapped(lin, true)
  {
    SplitHigh(lin);
    SplitLow(lin);
    WalkFromRoot(mem, start, gib, lin);
    WalkToDirectory(mem, start, gib, lin, lin / 0x4000_0000);
    WalkToPageTable(mem, start, gib, lin, lin / 0x4000_0000, lin / 0x20_0000);
    WalkToPage(mem, start, gib, lin, lin / 0x20_0000, lin / 0x1000);
  }

  /** Every higher 48-bit address is not present. */
  lemma NothingElseMapped(mem: seq<int>, start: int, gib: int, lin: int)
    requires Built(mem, start, gib) && gib * 0x4000_0000 <= lin < 0x1_0000_0000_0000
    ensures Translate(mem, start, lin) == NotPresent
  {
    var i4 := lin / 0x80_0000_0000;
    if i4 == 0 {
      WalkFromRoot(mem, start, gib, lin);
      SplitHigh(lin);
      assert mem[PDPT + lin / 0x4000_0000] == 0;
    } else {
      assert mem[i4] == 0;
    }
  }
}
