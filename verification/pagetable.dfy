/** The three-level Sv39 page-table walk and `map_page` of kernel/src/memory.rs,
    on physical memory whose frames are handed out by the bump allocator.

    Physical memory is split by use: `tables` holds the frames used as page
    tables (512 entries each), `frames` the frames used as data pages. A frame
    is identified by its physical address. */
module PageTable {
  import opened Bits
  import opened Wrappers
  import opened Allocator
  import opened Sv39

  const ENTRIES: nat := 512

  datatype Memory = Memory(heap: BumpAllocator, tables: map<nat, seq<uint64>>, frames: map<nat, seq<uint8>>)

  /** A page-table frame as `alloc_zeroed` returns it: every entry is zero. */
  function ZeroTable(): seq<uint64> {
    seq(ENTRIES, _ => 0)
  }

  /** Entry `i` of the table at `t` (zero where no table is recorded). */
  function Entry(m: Memory, t: nat, i: nat): uint64 {
    if t in m.tables && i < |m.tables[t]| then m.tables[t][i] else 0
  }

  /** Entry `i` of table `t` is valid, so the walk follows it. */
  predicate Points(m: Memory, t: nat, i: nat) {
    Valid(Entry(m, t, i))
  }

  /** The frame entry `i` of table `t` points to (`PTE::into_paddr`). */
  function Child(m: Memory, t: nat, i: nat): nat {
    IntoPaddr(Entry(m, t, i))
  }

  // ---------------------------------------------------------------------------
  // The invariant of a process's page-table tree
  // ---------------------------------------------------------------------------

  predicate Shaped(m: Memory) {
    forall t | t in m.tables :: |m.tables[t]| == ENTRIES
  }

  /** Every recorded frame lies below the allocator's `next`, so whatever the
      allocator hands out next is a frame nobody uses yet. */
  predicate Fresh(m: Memory) {
    && m.heap.Ready?
    && (forall t | t in m.tables :: t < m.heap.next)
    && (forall f | f in m.frames :: f < m.heap.next)
  }

  /** The level-1 table behind root slot `i` is recorded and is not the root. */
  predicate Level1Ok(m: Memory, root: nat, i: nat) {
    Child(m, root, i) in m.tables && Child(m, root, i) != root
  }

  /** The level-0 table behind slot `j` of the level-1 table `t1` is recorded,
      is not the root, and is none of the level-1 tables. */
  predicate Level0Ok(m: Memory, root: nat, t1: nat, j: nat) {
    var c := Child(m, t1, j);
    && c in m.tables
    && c != root
    && forall k | 0 <= k < ENTRIES && Points(m, root, k) :: c != Child(m, root, k)
  }

  /** Every valid root slot leads to a recorded level-1 table other than the root. */
  predicate RootOk(m: Memory, root: nat) {
    forall i | 0 <= i < ENTRIES && Points(m, root, i) :: Level1Ok(m, root, i)
  }

  /** No two valid root slots lead to the same level-1 table. */
  predicate Level1Distinct(m: Memory, root: nat) {
    forall i, k | 0 <= i < ENTRIES && 0 <= k < ENTRIES && i != k && Points(m, root, i) && Points(m, root, k)
      :: Child(m, root, i) != Child(m, root, k)
  }

  /** Every valid level-1 slot leads to a recorded level-0 table outside the
      upper two levels. */
  predicate Level0Closed(m: Memory, root: nat) {
    forall i, j | 0 <= i < ENTRIES && 0 <= j < ENTRIES && Points(m, root, i) && Points(m, Child(m, root, i), j)
      :: Level0Ok(m, root, Child(m, root, i), j)
  }

  /** No two valid level-1 slots lead to the same level-0 table. */
  predicate Level0Distinct(m: Memory, root: nat) {
    forall i, j, k, l |
      && 0 <= i < ENTRIES && 0 <= j < ENTRIES && 0 <= k < ENTRIES && 0 <= l < ENTRIES
      && (i != k || j != l)
      && Points(m, root, i) && Points(m, Child(m, root, i), j)
      && Points(m, root, k) && Points(m, Child(m, root, k), l)
      :: Child(m, Child(m, root, i), j) != Child(m, Child(m, root, k), l)
  }

  /** The root's valid slots lead to level-1 tables, those lead to level-0
      tables, the three levels are disjoint, and no table has two parents. */
  predicate Tree(m: Memory, root: nat) {
    && Shaped(m)
    && Fresh(m)
    && root in m.tables
    && RootOk(m, root)
    && Level1Distinct(m, root)
    && Level0Closed(m, root)
    && Level0Distinct(m, root)
  }

  // ---------------------------------------------------------------------------
  // Operations
  // ---------------------------------------------------------------------------

  /** `alloc_pages(n)`: `n` zeroed, page-aligned pages from the kernel heap.
      The byte count `PAGE_SIZE * n` overflowing panics, and so does a layout
      whose size exceeds what `Layout::from_size_align` accepts. */
  function AllocPages(a: BumpAllocator, n: uint64): (r: Outcome<(BumpAllocator, uint64)>)
    ensures PAGE_SIZE * n >= WORD_MODULUS ==> r == Panic("attempt to multiply with overflow")
    ensures PAGE_SIZE * n < WORD_MODULUS && PAGE_SIZE * n > ISIZE_MAX - (PAGE_SIZE - 1) ==>
      r == Panic("called `Result::unwrap()` on an `Err` value: LayoutError")
    ensures r.Done? ==>
      var (a', addr) := r.value;
      && a.Ready? && a'.Ready?
      && addr % PAGE_SIZE == 0
      && a.next <= addr < a.next + PAGE_SIZE
      && addr + PAGE_SIZE * n <= a.end
      && a'.next == addr + PAGE_SIZE * n
      && a'.end == a.end
  {
    if PAGE_SIZE * n >= WORD_MODULUS then Panic("attempt to multiply with overflow")
    else if PAGE_SIZE * n > ISIZE_MAX - (PAGE_SIZE - 1) then
      Panic("called `Result::unwrap()` on an `Err` value: LayoutError")
    else
      PageAlignIsPowerOfTwo();
      Alloc(a, Layout(PAGE_SIZE * n, PAGE_SIZE))
  }

  /** A byte count the layout accepts makes `alloc_pages` exactly the heap's
      `alloc` of that many page-aligned bytes; it succeeds exactly when the
      pages fit between `next` rounded up to a page and `end`, and then
      they start right at that rounded address. */
  lemma AllocPagesIsAlloc(a: BumpAllocator, n: uint64)
    requires PAGE_SIZE * n <= ISIZE_MAX - (PAGE_SIZE - 1)
    ensures ValidLayout(Layout(PAGE_SIZE * n, PAGE_SIZE))
    ensures AllocPages(a, n) == Alloc(a, Layout(PAGE_SIZE * n, PAGE_SIZE))
    ensures a.Uninitialized? ==> AllocPages(a, n) == Panic("Allocator not initialized")
    ensures a.Ready? ==>
      var start := a.next + (PAGE_SIZE - a.next % PAGE_SIZE) % PAGE_SIZE;
      && (AllocPages(a, n).Done? <==> start + PAGE_SIZE * n <= a.end)
      && (AllocPages(a, n).Done? ==> AllocPages(a, n).value.1 == start)
  {
    PageAlignIsPowerOfTwo();
    var layout := Layout(PAGE_SIZE * n, PAGE_SIZE);
    if a.Ready? {
      var m := NextMultipleOf(a.next, PAGE_SIZE);
      if m.Done? {
        AllocFailsIffNoRoom(a, layout);
        assert m.value == a.next + (PAGE_SIZE - a.next % PAGE_SIZE) % PAGE_SIZE;
      }
    }
  }

  lemma PageAlignIsPowerOfTwo()
    ensures IsPowerOfTwo(PAGE_SIZE)
  {
    assert IsPowerOfTwo(1);
    assert IsPowerOfTwo(2);
    assert IsPowerOfTwo(4);
    assert IsPowerOfTwo(8);
    assert IsPowerOfTwo(16);
    assert IsPowerOfTwo(32);
    assert IsPowerOfTwo(64);
    assert IsPowerOfTwo(128);
    assert IsPowerOfTwo(256);
    assert IsPowerOfTwo(512);
    assert IsPowerOfTwo(1024);
    assert IsPowerOfTwo(2048);
  }

  /** Records a fresh zeroed table at `n` and points slot `i` of table `t` at it. */
  function Install(m: Memory, heap: BumpAllocator, t: nat, i: nat, n: uint64): Memory
    requires t in m.tables && i < |m.tables[t]|
  {
    Memory(heap, m.tables[n := ZeroTable()][t := m.tables[t][i := PointerEntry(n)]], m.frames)
  }

  /** Writes entry `i` of the table at `t`. */
  function SetEntry(m: Memory, t: nat, i: nat, v: uint64): Memory
    requires t in m.tables && i < |m.tables[t]|
  {
    var row: seq<uint64> := m.tables[t][i := v];
    m.(tables := m.tables[t := row])
  }

  /** One iteration of `walk`'s loop at `level`: follow the slot's entry if it
      is valid; otherwise allocate and install a zeroed table if `alloc`, or
      give up. */
  function Step(m: Memory, t: nat, va: uint64, level: nat, alloc: bool): (r: Outcome<(Memory, Option<nat>)>)
    requires 1 <= level <= 2 && Shaped(m) && t in m.tables
    requires var i := PtIndexForLevel(va, level); Points(m, t, i) ==> Child(m, t, i) in m.tables
    ensures r.Done? ==> Shaped(r.value.0) && (r.value.1.Some? ==> r.value.1.value in r.value.0.tables)
  {
    var i := PtIndexForLevel(va, level);
    if Points(m, t, i) then Done((m, Some(Child(m, t, i))))
    else if alloc then
      var (heap, n) :- Alloc(m.heap, Layout(PAGE_SIZE, PAGE_SIZE));
      Done((Install(m, heap, t, i, n), Some(n)))
    else Done((m, None))
  }

  /** `walk`: the level-2 step from the root, the level-1 step from its result,
      and the slot of the level-0 index in the table reached. */
  function Walk(m: Memory, root: nat, va: uint64, alloc: bool): (r: Outcome<(Memory, Option<(nat, nat)>)>)
    requires Tree(m, root)
    ensures r.Done? && r.value.1.Some? ==>
      r.value.1.value.0 in r.value.0.tables && r.value.1.value.1 == PtIndexForLevel(va, 0)
  {
    var i2 := PtIndexForLevel(va, 2);
    var (m1, t1) :- Step(m, root, va, 2, alloc);
    if t1.None? then Done((m1, None))
    else
      StepIntoLevel1(m, root, va, alloc);
      var (m2, t0) :- Step(m1, t1.value, va, 1, alloc);
      if t0.None? then Done((m2, None))
      else Done((m2, Some((t0.value, PtIndexForLevel(va, 0)))))
  }

  /** After the level-2 step, the level-1 step is well defined. */
  lemma StepIntoLevel1(m: Memory, root: nat, va: uint64, alloc: bool)
    requires Tree(m, root)
    requires Step(m, root, va, 2, alloc).Done? && Step(m, root, va, 2, alloc).value.1.Some?
    ensures var (m1, t1) := Step(m, root, va, 2, alloc).value;
      var j := PtIndexForLevel(va, 1);
      Points(m1, t1.value, j) ==> Child(m1, t1.value, j) in m1.tables
  {
    var i := PtIndexForLevel(va, 2);
    var j := PtIndexForLevel(va, 1);
    if !Points(m, root, i) {
      var (heap, n) := Alloc(m.heap, Layout(PAGE_SIZE, PAGE_SIZE)).value;
      InstallEntry(m, heap, root, i, n, n, j);
      ZeroInvalid();
    }
  }

  /** `map_page`: panics on an unaligned virtual or physical address, walks
      with allocation, panics on a remap, and otherwise writes the leaf
      `from_paddr(paddr).with_flags(flags).set_valid()`. */
  function MapPage(m: Memory, root: nat, va: uint64, paddr: uint64, flags: PageFlags): (r: Outcome<Memory>)
    requires Tree(m, root)
    ensures !VaddrIsAligned(va) ==> r == Panic("Virtual address not page-aligned")
    ensures VaddrIsAligned(va) && !IsAligned(paddr) ==> r == Panic("Physical address not page-aligned")
  {
    if !VaddrIsAligned(va) then Panic("Virtual address not page-aligned")
    else if !IsAligned(paddr) then Panic("Physical address not page-aligned")
    else
      var (m1, slot) :- Walk(m, root, va, true);
      match slot
      case None => Panic("internal error: entered unreachable code")
      case Some((t0, i0)) =>
        if Points(m1, t0, i0) then Panic("remap")
        else Done(SetEntry(m1, t0, i0, LeafEntry(paddr, flags)))
  }

  /** Address translation as the kernel's own walk performs it without
      allocating: the leaf entry's physical address and permissions, if the
      leaf is valid. */
  function Translate(m: Memory, root: nat, va: uint64): Option<(uint64, PageFlags)>
    requires Tree(m, root)
  {
    match Walk(m, root, va, false)
    case Done((_, Some((t, i)))) =>
      if Points(m, t, i) then Some((IntoPaddr(Entry(m, t, i)), FlagsOf(Entry(m, t, i)))) else None
    case _ => None
  }

  /** Reference three-level lookup by index triple: the leaf entry, if every
      entry on the path root[i2] → [i1] → [i0] is valid. */
  function Lookup(m: Memory, root: nat, i2: nat, i1: nat, i0: nat): Option<uint64> {
    var t1 := Child(m, root, i2);
    var t0 := Child(m, t1, i1);
    if Points(m, root, i2) && Points(m, t1, i1) && Points(m, t0, i0) then Some(Entry(m, t0, i0))
    else None
  }

  // ---------------------------------------------------------------------------
  // Entries after an update
  // ---------------------------------------------------------------------------

  lemma ZeroInvalid()
    ensures !Valid(0)
  {
  }

  lemma InstallEntry(m: Memory, heap: BumpAllocator, t: nat, i: nat, n: uint64, u: nat, k: nat)
    requires t in m.tables && i < |m.tables[t]| && n !in m.tables
    ensures Entry(Install(m, heap, t, i, n), u, k) ==
      if u == t then (if k == i then PointerEntry(n) else Entry(m, t, k))
      else if u == n then 0
      else Entry(m, u, k)
  {
  }

  // ---------------------------------------------------------------------------
  // Walking without allocation
  // ---------------------------------------------------------------------------

  /** The slot `walk` reaches for the index triple, when the level-2 and
      level-1 entries on the path are valid. */
  function PathSlot(m: Memory, root: nat, i2: nat, i1: nat, i0: nat): Option<(nat, nat)> {
    if Points(m, root, i2) && Points(m, Child(m, root, i2), i1) then
      Some((Child(m, Child(m, root, i2), i1), i0))
    else None
  }

  /** Without allocation `walk` changes no table, and it gives up (None) exactly
      when the level-2 or the level-1 entry on the path is invalid. */
  lemma WalkReadOnly(m: Memory, root: nat, va: uint64)
    requires Tree(m, root)
    ensures Walk(m, root, va, false)
         == Done((m, PathSlot(m, root, PtIndexForLevel(va, 2), PtIndexForLevel(va, 1), PtIndexForLevel(va, 0))))
  {
  }

  /** `translate` over the kernel's walk is the reference three-level lookup
      of the address's level-2, level-1 and level-0 indices. */
  lemma TranslateIsLookup(m: Memory, root: nat, va: uint64)
    requires Tree(m, root)
    ensures Translate(m, root, va) ==
      match Lookup(m, root, PtIndexForLevel(va, 2), PtIndexForLevel(va, 1), PtIndexForLevel(va, 0))
      case Some(e) => Some((IntoPaddr(e), FlagsOf(e)))
      case None => None
  {
    WalkReadOnly(m, root, va);
  }

  // ---------------------------------------------------------------------------
  // Installing a fresh table under the root
  // ---------------------------------------------------------------------------

  /** What the allocator hands out for a fresh table: a page-aligned frame at
      or above `next`, with `next` moved past it. */
  predicate FreshFrame(m: Memory, heap: BumpAllocator, n: nat) {
    && m.heap.Ready? && heap.Ready?
    && n % PAGE_SIZE == 0 && m.heap.next <= n && heap.next == n + PAGE_SIZE
  }

  lemma PointerTo(n: uint64)
    requires n % PAGE_SIZE == 0
    ensures Valid(PointerEntry(n)) && IntoPaddr(PointerEntry(n)) == n
  {
    PointerEntryRoundTrip(n);
  }

  /** Entries after a fresh table `n` is installed in slot `i` of table `t`:
      that slot now points at `n`, `n` is all zeroes, and every other entry of
      a recorded table is as before. */
  lemma InstallEntries(m: Memory, t: nat, i: nat, heap: BumpAllocator, n: uint64)
    requires Shaped(m) && Fresh(m) && t in m.tables && i < ENTRIES && FreshFrame(m, heap, n)
    ensures var m' := Install(m, heap, t, i, n);
      && n !in m.tables && n != t
      && m'.tables.Keys == m.tables.Keys + {n}
      && Shaped(m') && Fresh(m')
      && Points(m', t, i) && Child(m', t, i) == n
      && (forall k | 0 <= k < ENTRIES :: Entry(m', n, k) == 0)
      && (forall u, k | u in m.tables && (u != t || k != i) :: Entry(m', u, k) == Entry(m, u, k))
  {
    var m' := Install(m, heap, t, i, n);
    PointerTo(n);
    InstallEntry(m, heap, t, i, n, t, i);
    forall k | 0 <= k < ENTRIES
      ensures Entry(m', n, k) == 0
    {
      InstallEntry(m, heap, t, i, n, n, k);
    }
    forall u, k | u in m.tables && (u != t || k != i)
      ensures Entry(m', u, k) == Entry(m, u, k)
    {
      InstallEntry(m, heap, t, i, n, u, k);
    }
  }

  /** Installing a fresh table in an invalid root slot keeps the tree. */
  lemma InstallRootKeepsTree(m: Memory, root: nat, i: nat, heap: BumpAllocator, n: uint64)
    requires Tree(m, root) && i < ENTRIES && !Points(m, root, i) && FreshFrame(m, heap, n)
    ensures Tree(Install(m, heap, root, i, n), root)
  {
    var m' := Install(m, heap, root, i, n);
    InstallEntries(m, root, i, heap, n);
    ZeroInvalid();
    InstallRootUpper(m, root, i, heap, n);
    InstallRootLower(m, root, i, heap, n);
  }

  lemma InstallRootUpper(m: Memory, root: nat, i: nat, heap: BumpAllocator, n: uint64)
    requires Tree(m, root) && i < ENTRIES && !Points(m, root, i) && FreshFrame(m, heap, n)
    ensures var m' := Install(m, heap, root, i, n);
      Shaped(m') && Fresh(m') && root in m'.tables && RootOk(m', root) && Level1Distinct(m', root)
  {
    var m' := Install(m, heap, root, i, n);
    InstallEntries(m, root, i, heap, n);
    ZeroInvalid();
    assert m'.tables.Keys == m.tables.Keys + {n};
    forall k | 0 <= k < ENTRIES && Points(m', root, k)
      ensures Level1Ok(m', root, k)
    {
      if k != i {
        assert Entry(m', root, k) == Entry(m, root, k);
        assert Level1Ok(m, root, k);
      }
    }
    forall k, l | 0 <= k < ENTRIES && 0 <= l < ENTRIES && k != l && Points(m', root, k) && Points(m', root, l)
      ensures Child(m', root, k) != Child(m', root, l)
    {
      assert Entry(m', root, k) == Entry(m, root, k) || k == i;
      assert Entry(m', root, l) == Entry(m, root, l) || l == i;
      if k != i && l != i {
        assert Child(m, root, k) != Child(m, root, l);
      } else if k != i {
        assert Level1Ok(m, root, k);
      } else {
        assert Level1Ok(m, root, l);
      }
    }
  }

  lemma InstallRootLower(m: Memory, root: nat, i: nat, heap: BumpAllocator, n: uint64)
    requires Tree(m, root) && i < ENTRIES && !Points(m, root, i) && FreshFrame(m, heap, n)
    ensures var m' := Install(m, heap, root, i, n);
      Level0Closed(m', root) && Level0Distinct(m', root)
  {
    var m' := Install(m, heap, root, i, n);
    InstallEntries(m, root, i, heap, n);
    ZeroInvalid();
    forall k, l | 0 <= k < ENTRIES && 0 <= l < ENTRIES && Points(m', root, k) && Points(m', Child(m', root, k), l)
      ensures Level0Ok(m', root, Child(m', root, k), l)
    {
      InstallRootPath(m, root, i, heap, n, k, l);
      var c := Child(m, Child(m, root, k), l);
      assert Level0Ok(m, root, Child(m, root, k), l);
      forall q | 0 <= q < ENTRIES && Points(m', root, q)
        ensures c != Child(m', root, q)
      {
        if q != i {
          assert Entry(m', root, q) == Entry(m, root, q);
          assert Points(m, root, q);
          assert Child(m', root, q) == Child(m, root, q);
          assert c != Child(m, root, q);
        } else {
          assert Child(m', root, q) == n;
          assert c in m.tables;
        }
      }
    }
    forall k, l, p, q |
      && 0 <= k < ENTRIES && 0 <= l < ENTRIES && 0 <= p < ENTRIES && 0 <= q < ENTRIES
      && (k != p || l != q)
      && Points(m', root, k) && Points(m', Child(m', root, k), l)
      && Points(m', root, p) && Points(m', Child(m', root, p), q)
      ensures Child(m', Child(m', root, k), l) != Child(m', Child(m', root, p), q)
    {
      InstallRootPath(m, root, i, heap, n, k, l);
      InstallRootPath(m, root, i, heap, n, p, q);
    }
  }

  /** A valid level-1 slot of the tree after the install is one of the old
      tree's, leading to the same level-0 table. */
  lemma InstallRootPath(m: Memory, root: nat, i: nat, heap: BumpAllocator, n: uint64, k: nat, l: nat)
    requires Tree(m, root) && i < ENTRIES && !Points(m, root, i) && FreshFrame(m, heap, n)
    requires k < ENTRIES && l < ENTRIES
    requires var m' := Install(m, heap, root, i, n);
      Points(m', root, k) && Points(m', Child(m', root, k), l)
    ensures var m' := Install(m, heap, root, i, n);
      && k != i && Points(m, root, k) && Child(m', root, k) == Child(m, root, k)
      && Points(m, Child(m, root, k), l) && Child(m', Child(m', root, k), l) == Child(m, Child(m, root, k), l)
  {
    var m' := Install(m, heap, root, i, n);
    InstallEntries(m, root, i, heap, n);
    ZeroInvalid();
    ZeroInvalid();
    if k == i {
      assert false;
    }
    assert Entry(m', root, k) == Entry(m, root, k);
    var t1 := Child(m, root, k);
    assert Level1Ok(m, root, k);
    assert Entry(m', t1, l) == Entry(m, t1, l);
  }

  /** Installing a fresh table in an invalid root slot changes no translation:
      the new table is empty. */
  lemma InstallRootKeepsLookups(m: Memory, root: nat, i: nat, heap: BumpAllocator, n: uint64, a: nat, b: nat, c: nat)
    requires Tree(m, root) && i < ENTRIES && !Points(m, root, i) && FreshFrame(m, heap, n)
    requires a < ENTRIES && b < ENTRIES && c < ENTRIES
    ensures Lookup(Install(m, heap, root, i, n), root, a, b, c) == Lookup(m, root, a, b, c)
  {
    InstallEntries(m, root, i, heap, n);
    ZeroInvalid();
    ZeroInvalid();
  }

  // ---------------------------------------------------------------------------
  // Installing a fresh table under a level-1 table
  // ---------------------------------------------------------------------------

  /** Root slot `i` is valid and slot `j` of its level-1 table is not: the
      situation in which `walk` installs a fresh level-0 table. */
  predicate Level1Gap(m: Memory, root: nat, i: nat, j: nat) {
    i < ENTRIES && j < ENTRIES && Points(m, root, i) && !Points(m, Child(m, root, i), j)
  }

  /** Installing a fresh level-0 table keeps the tree. */
  lemma InstallLevel1KeepsTree(m: Memory, root: nat, i: nat, j: nat, heap: BumpAllocator, n: uint64)
    requires Tree(m, root) && Level1Gap(m, root, i, j) && FreshFrame(m, heap, n)
    ensures Tree(Install(m, heap, Child(m, root, i), j, n), root)
  {
    InstallLevel1Upper(m, root, i, j, heap, n);
    InstallLevel1Lower(m, root, i, j, heap, n);
  }

  lemma InstallLevel1Upper(m: Memory, root: nat, i: nat, j: nat, heap: BumpAllocator, n: uint64)
    requires Tree(m, root) && Level1Gap(m, root, i, j) && FreshFrame(m, heap, n)
    ensures var m' := Install(m, heap, Child(m, root, i), j, n);
      && Shaped(m') && Fresh(m') && root in m'.tables
      && RootOk(m', root) && Level1Distinct(m', root)
      && forall k | 0 <= k < ENTRIES :: Entry(m', root, k) == Entry(m, root, k)
  {
    var t1 := Child(m, root, i);
    var m' := Install(m, heap, t1, j, n);
    assert Level1Ok(m, root, i);
    InstallEntries(m, t1, j, heap, n);
    forall k | 0 <= k < ENTRIES
      ensures Entry(m', root, k) == Entry(m, root, k)
    {
    }
    forall k | 0 <= k < ENTRIES && Points(m', root, k)
      ensures Level1Ok(m', root, k)
    {
      assert Level1Ok(m, root, k);
    }
    forall k, l | 0 <= k < ENTRIES && 0 <= l < ENTRIES && k != l && Points(m', root, k) && Points(m', root, l)
      ensures Child(m', root, k) != Child(m', root, l)
    {
      assert Child(m, root, k) != Child(m, root, l);
    }
  }

  lemma InstallLevel1Lower(m: Memory, root: nat, i: nat, j: nat, heap: BumpAllocator, n: uint64)
    requires Tree(m, root) && Level1Gap(m, root, i, j) && FreshFrame(m, heap, n)
    ensures var m' := Install(m, heap, Child(m, root, i), j, n);
      Level0Closed(m', root) && Level0Distinct(m', root)
  {
    var t1 := Child(m, root, i);
    var m' := Install(m, heap, t1, j, n);
    InstallLevel1Upper(m, root, i, j, heap, n);
    InstallEntries(m, t1, j, heap, n);
    forall k, l | 0 <= k < ENTRIES && 0 <= l < ENTRIES && Points(m', root, k) && Points(m', Child(m', root, k), l)
      ensures Level0Ok(m', root, Child(m', root, k), l)
    {
      InstallLevel1Path(m, root, i, j, heap, n, k, l);
      var c := Child(m', Child(m', root, k), l);
      forall q | 0 <= q < ENTRIES && Points(m', root, q)
        ensures c != Child(m', root, q)
      {
        assert Points(m, root, q);
        assert Level1Ok(m, root, q);
      }
    }
    forall k, l, p, q |
      && 0 <= k < ENTRIES && 0 <= l < ENTRIES && 0 <= p < ENTRIES && 0 <= q < ENTRIES
      && (k != p || l != q)
      && Points(m', root, k) && Points(m', Child(m', root, k), l)
      && Points(m', root, p) && Points(m', Child(m', root, p), q)
      ensures Child(m', Child(m', root, k), l) != Child(m', Child(m', root, p), q)
    {
      InstallLevel1Path(m, root, i, j, heap, n, k, l);
      InstallLevel1Path(m, root, i, j, heap, n, p, q);
    }
  }

  /** A valid level-1 slot after the install is either the filled gap, leading
      to `n`, or one of the old tree's, leading to the same recorded table. */
  lemma InstallLevel1Path(m: Memory, root: nat, i: nat, j: nat, heap: BumpAllocator, n: uint64, k: nat, l: nat)
    requires Tree(m, root) && Level1Gap(m, root, i, j) && FreshFrame(m, heap, n)
    requires k < ENTRIES && l < ENTRIES
    requires var m' := Install(m, heap, Child(m, root, i), j, n);
      Points(m', root, k) && Points(m', Child(m', root, k), l)
    ensures var m' := Install(m, heap, Child(m, root, i), j, n);
      && Points(m, root, k) && Child(m', root, k) == Child(m, root, k)
      && n in m'.tables && n != root
      && (k == i && l == j ==> Child(m', Child(m', root, k), l) == n)
      && (k != i || l != j ==>
            && Points(m, Child(m, root, k), l)
            && Child(m', Child(m', root, k), l) == Child(m, Child(m, root, k), l)
            && Child(m, Child(m, root, k), l) in m.tables)
      && (forall q | 0 <= q < ENTRIES && Points(m, root, q) :: Child(m, root, q) in m.tables)
  {
    var t1 := Child(m, root, i);
    var m' := Install(m, heap, t1, j, n);
    InstallLevel1Upper(m, root, i, j, heap, n);
    InstallEntries(m, t1, j, heap, n);
    assert Entry(m', root, k) == Entry(m, root, k);
    var u := Child(m, root, k);
    assert Level1Ok(m, root, k);
    if k != i || l != j {
      if k != i {
        assert u != t1;
      }
      assert Entry(m', u, l) == Entry(m, u, l);
      assert Level0Ok(m, root, u, l);
    }
  }

  /** Installing a fresh level-0 table changes no translation: it is empty. */
  lemma InstallLevel1KeepsLookups(m: Memory, root: nat, i: nat, j: nat, heap: BumpAllocator, n: uint64, a: nat, b: nat, c: nat)
    requires Tree(m, root) && Level1Gap(m, root, i, j) && FreshFrame(m, heap, n)
    requires a < ENTRIES && b < ENTRIES && c < ENTRIES
    ensures Lookup(Install(m, heap, Child(m, root, i), j, n), root, a, b, c) == Lookup(m, root, a, b, c)
  {
    var t1 := Child(m, root, i);
    var m' := Install(m, heap, t1, j, n);
    InstallLevel1Upper(m, root, i, j, heap, n);
    InstallEntries(m, t1, j, heap, n);
    ZeroInvalid();
    if Points(m', root, a) && Points(m', Child(m', root, a), b) {
      InstallLevel1Path(m, root, i, j, heap, n, a, b);
      if a != i || b != j {
        var t0 := Child(m, Child(m, root, a), b);
        assert Level0Ok(m, root, Child(m, root, a), b);
        assert Entry(m', t0, c) == Entry(m, t0, c);
      }
    } else if Points(m, root, a) {
      var u := Child(m, root, a);
      assert Level1Ok(m, root, a);
      if a == i && b == j {
      } else {
        assert Entry(m', u, b) == Entry(m, u, b);
      }
    }
  }

  // ---------------------------------------------------------------------------
  // Writing a leaf entry
  // ---------------------------------------------------------------------------

  /** Root slot `i` and slot `j` of its level-1 table are valid: the path
      reaches a level-0 table. */
  predicate PathTo(m: Memory, root: nat, i: nat, j: nat) {
    i < ENTRIES && j < ENTRIES && Points(m, root, i) && Points(m, Child(m, root, i), j)
  }

  lemma SetEntryEntry(m: Memory, t: nat, i: nat, v: uint64, u: nat, k: nat)
    requires t in m.tables && i < |m.tables[t]|
    ensures Entry(SetEntry(m, t, i, v), u, k) == if u == t && k == i then v else Entry(m, u, k)
  {
  }

  /** Writing an entry of a level-0 table leaves the root and every level-1
      table as they were. */
  lemma WriteLeafUpper(m: Memory, root: nat, i: nat, j: nat, c: nat, v: uint64)
    requires Tree(m, root) && PathTo(m, root, i, j) && c < ENTRIES
    ensures var t0 := Child(m, Child(m, root, i), j);
      && t0 in m.tables
      && var m' := SetEntry(m, t0, c, v);
      && (forall k | 0 <= k < ENTRIES :: Entry(m', root, k) == Entry(m, root, k))
      && (forall k, l | 0 <= k < ENTRIES && 0 <= l < ENTRIES && Points(m, root, k) ::
            Entry(m', Child(m, root, k), l) == Entry(m, Child(m, root, k), l))
  {
    var t0 := Child(m, Child(m, root, i), j);
    assert Level0Ok(m, root, Child(m, root, i), j);
    var m' := SetEntry(m, t0, c, v);
    forall k | 0 <= k < ENTRIES
      ensures Entry(m', root, k) == Entry(m, root, k)
    {
      SetEntryEntry(m, t0, c, v, root, k);
    }
    forall k, l | 0 <= k < ENTRIES && 0 <= l < ENTRIES && Points(m, root, k)
      ensures Entry(m', Child(m, root, k), l) == Entry(m, Child(m, root, k), l)
    {
      SetEntryEntry(m, t0, c, v, Child(m, root, k), l);
    }
  }

  /** Writing an entry of a level-0 table keeps the tree: the invariant only
      looks at the upper two levels. */
  lemma WriteLeafKeepsTree(m: Memory, root: nat, i: nat, j: nat, c: nat, v: uint64)
    requires Tree(m, root) && PathTo(m, root, i, j) && c < ENTRIES
    ensures Child(m, Child(m, root, i), j) in m.tables
    ensures Tree(SetEntry(m, Child(m, Child(m, root, i), j), c, v), root)
  {
    var t0 := Child(m, Child(m, root, i), j);
    WriteLeafUpper(m, root, i, j, c, v);
    var m' := SetEntry(m, t0, c, v);
    assert m'.tables.Keys == m.tables.Keys;
    SameUpperKeepsTree(m, m', root);
  }

  /** The invariant only reads the root and the level-1 tables: a memory that
      agrees with a tree on those, records at least its tables, and keeps
      every table below the allocator's `next` is a tree too. */
  lemma SameUpperKeepsTree(m: Memory, m': Memory, root: nat)
    requires Tree(m, root) && Shaped(m') && Fresh(m') && m.tables.Keys <= m'.tables.Keys
    requires forall k | 0 <= k < ENTRIES :: Entry(m', root, k) == Entry(m, root, k)
    requires forall k, l | 0 <= k < ENTRIES && 0 <= l < ENTRIES && Points(m, root, k) ::
      Entry(m', Child(m, root, k), l) == Entry(m, Child(m, root, k), l)
    ensures Tree(m', root)
  {
    forall k | 0 <= k < ENTRIES
      ensures Points(m', root, k) == Points(m, root, k) && Child(m', root, k) == Child(m, root, k)
    {
    }
    forall k, l | 0 <= k < ENTRIES && 0 <= l < ENTRIES && Points(m, root, k)
      ensures Points(m', Child(m', root, k), l) == Points(m, Child(m, root, k), l)
      ensures Child(m', Child(m', root, k), l) == Child(m, Child(m, root, k), l)
    {
    }
  }

  /** Writing entry `c` of the level-0 table reached by `(i, j)` changes the
      lookup of that one index triple and of no other. */
  lemma WriteLeafLookups(m: Memory, root: nat, i: nat, j: nat, c: nat, v: uint64, a: nat, b: nat, d: nat)
    requires Tree(m, root) && PathTo(m, root, i, j) && c < ENTRIES
    requires a < ENTRIES && b < ENTRIES && d < ENTRIES
    ensures Child(m, Child(m, root, i), j) in m.tables
    ensures Lookup(SetEntry(m, Child(m, Child(m, root, i), j), c, v), root, a, b, d) ==
      if a == i && b == j && d == c then (if Valid(v) then Some(v) else None)
      else Lookup(m, root, a, b, d)
  {
    var t0 := Child(m, Child(m, root, i), j);
    WriteLeafUpper(m, root, i, j, c, v);
    var m' := SetEntry(m, t0, c, v);
    assert Entry(m', root, a) == Entry(m, root, a);
    if Points(m, root, a) {
      var u := Child(m, root, a);
      assert Entry(m', u, b) == Entry(m, u, b);
      if Points(m, u, b) {
        var w := Child(m, u, b);
        SetEntryEntry(m, t0, c, v, w, d);
        if a != i || b != j {
          assert w != t0;
        }
      }
    }
  }

  // ---------------------------------------------------------------------------
  // Walking with allocation
  // ---------------------------------------------------------------------------

  /** A successful page allocation yields a fresh frame. */
  lemma AllocFreshFrame(m: Memory)
    requires Fresh(m)
    ensures var r := Alloc(m.heap, Layout(PAGE_SIZE, PAGE_SIZE));
      r.Done? ==> FreshFrame(m, r.value.0, r.value.1)
  {
  }

  /** What a successful allocating walk guarantees about the memory it returns. */
  predicate WalkedTo(m: Memory, m': Memory, root: nat, va: uint64, slot: Option<(nat, nat)>) {
    var i2, i1 := PtIndexForLevel(va, 2), PtIndexForLevel(va, 1);
    && Tree(m', root)
    && PathTo(m', root, i2, i1)
    && slot == Some((Child(m', Child(m', root, i2), i1), PtIndexForLevel(va, 0)))
    && (forall a, b, c | 0 <= a < ENTRIES && 0 <= b < ENTRIES && 0 <= c < ENTRIES ::
          Lookup(m', root, a, b, c) == Lookup(m, root, a, b, c))
    && m'.frames == m.frames && m.heap.Ready? && m'.heap.Ready? && m.heap.next <= m'.heap.next && m'.heap.end == m.heap.end
  }

  /** With allocation, `walk` never gives up: it either panics because the
      heap ran out, or reaches the level-0 slot of the address along a valid
      path, keeping the tree invariant and changing no translation. When the
      path is already complete it allocates nothing and changes nothing. */
  lemma WalkAllocates(m: Memory, root: nat, va: uint64)
    requires Tree(m, root)
    ensures var r := Walk(m, root, va, true);
      r.Done? ==> WalkedTo(m, r.value.0, root, va, r.value.1)
    ensures var i2, i1, i0 := PtIndexForLevel(va, 2), PtIndexForLevel(va, 1), PtIndexForLevel(va, 0);
      PathTo(m, root, i2, i1) ==> Walk(m, root, va, true) == Done((m, PathSlot(m, root, i2, i1, i0)))
  {
    var i2, i1 := PtIndexForLevel(va, 2), PtIndexForLevel(va, 1);
    if !Points(m, root, i2) {
      WalkFromGapAt2(m, root, va);
    } else if !Points(m, Child(m, root, i2), i1) {
      WalkFromGapAt1(m, root, va);
    }
  }

  /** The level-1 step of an allocating walk that meets an invalid slot. */
  lemma WalkFromGapAt1(m: Memory, root: nat, va: uint64)
    requires Tree(m, root)
    requires Level1Gap(m, root, PtIndexForLevel(va, 2), PtIndexForLevel(va, 1))
    ensures Points(m, root, PtIndexForLevel(va, 2))
    ensures var r := Step(m, Child(m, root, PtIndexForLevel(va, 2)), va, 1, true);
      && Walk(m, root, va, true) == (if r.Done? then Done((r.value.0, Some((r.value.1.value, PtIndexForLevel(va, 0))))) else Panic(r.msg))
      && (r.Done? ==> r.value.1.Some? && WalkedTo(m, r.value.0, root, va, Some((r.value.1.value, PtIndexForLevel(va, 0)))))
  {
    var i2, i1 := PtIndexForLevel(va, 2), PtIndexForLevel(va, 1);
    var t1 := Child(m, root, i2);
    AllocFreshFrame(m);
    var a := Alloc(m.heap, Layout(PAGE_SIZE, PAGE_SIZE));
    if a.Done? {
      var (heap, n) := a.value;
      var m' := Install(m, heap, t1, i1, n);
      InstallLevel1KeepsTree(m, root, i2, i1, heap, n);
      InstallLevel1Path(m, root, i2, i1, heap, n, i2, i1);
      InstallLevel1Upper(m, root, i2, i1, heap, n);
      InstallEntries(m, t1, i1, heap, n);
      assert Child(m', root, i2) == t1;
      forall x, y, z | 0 <= x < ENTRIES && 0 <= y < ENTRIES && 0 <= z < ENTRIES
        ensures Lookup(m', root, x, y, z) == Lookup(m, root, x, y, z)
      {
        InstallLevel1KeepsLookups(m, root, i2, i1, heap, n, x, y, z);
      }
    }
  }

  /** An allocating walk that meets an invalid root slot installs a fresh
      level-1 table, and then a fresh level-0 table under it. */
  lemma WalkFromGapAt2(m: Memory, root: nat, va: uint64)
    requires Tree(m, root)
    requires !Points(m, root, PtIndexForLevel(va, 2))
    ensures var r := Walk(m, root, va, true);
      r.Done? ==> WalkedTo(m, r.value.0, root, va, r.value.1)
  {
    var i2, i1 := PtIndexForLevel(va, 2), PtIndexForLevel(va, 1);
    AllocFreshFrame(m);
    var a := Alloc(m.heap, Layout(PAGE_SIZE, PAGE_SIZE));
    if a.Done? {
      var (heap, n) := a.value;
      var m1 := Install(m, heap, root, i2, n);
      InstallRootKeepsTree(m, root, i2, heap, n);
      InstallEntries(m, root, i2, heap, n);
      ZeroInvalid();
      assert Step(m, root, va, 2, true) == Done((m1, Some(n)));
      assert Level1Gap(m1, root, i2, i1);
      WalkFromGapAt1(m1, root, va);
      forall x, y, z | 0 <= x < ENTRIES && 0 <= y < ENTRIES && 0 <= z < ENTRIES
        ensures Lookup(m1, root, x, y, z) == Lookup(m, root, x, y, z)
      {
        InstallRootKeepsLookups(m, root, i2, heap, n, x, y, z);
      }
    }
  }

  /** The only panics of an allocating walk are the heap's. */
  predicate HeapPanic(msg: string) {
    msg == "Out of Memory!" || msg == "attempt to add with overflow"
  }

  lemma WalkPanics(m: Memory, root: nat, va: uint64)
    requires Tree(m, root)
    ensures var r := Walk(m, root, va, true);
      r.Panic? ==> HeapPanic(r.msg) && !PathTo(m, root, PtIndexForLevel(va, 2), PtIndexForLevel(va, 1))
  {
    WalkAllocates(m, root, va);
  }

  // ---------------------------------------------------------------------------
  // map_page
  // ---------------------------------------------------------------------------

  /** A mapped address: `map_page` panics with "remap" when the address's leaf
      entry is already valid. */
  lemma MapPageRefusesRemap(m: Memory, root: nat, va: uint64, paddr: uint64, flags: PageFlags)
    requires Tree(m, root) && VaddrIsAligned(va) && IsAligned(paddr)
    requires Lookup(m, root, PtIndexForLevel(va, 2), PtIndexForLevel(va, 1), PtIndexForLevel(va, 0)).Some?
    ensures MapPage(m, root, va, paddr, flags) == Panic("remap")
  {
    WalkAllocates(m, root, va);
  }

  /** The panics `map_page` can raise on aligned addresses: a remap, or the
      heap running out while the walk allocates tables. Its `unreachable!`
      branch is indeed unreachable. */
  lemma MapPagePanics(m: Memory, root: nat, va: uint64, paddr: uint64, flags: PageFlags)
    requires Tree(m, root) && VaddrIsAligned(va) && IsAligned(paddr)
    ensures var r := MapPage(m, root, va, paddr, flags);
      r.Panic? ==> r.msg == "remap" || HeapPanic(r.msg)
  {
    WalkAllocates(m, root, va);
    WalkPanics(m, root, va);
  }

  /** A successful `map_page` keeps the tree invariant; afterwards the address
      translates to `paddr` with exactly `flags`, and the translation of every
      other index triple is as before. */
  lemma MapPageMaps(m: Memory, root: nat, va: uint64, paddr: uint64, flags: PageFlags)
    requires Tree(m, root)
    ensures var r := MapPage(m, root, va, paddr, flags);
      var i2, i1, i0 := PtIndexForLevel(va, 2), PtIndexForLevel(va, 1), PtIndexForLevel(va, 0);
      r.Done? ==>
        && Tree(r.value, root)
        && Lookup(m, root, i2, i1, i0) == None
        && Lookup(r.value, root, i2, i1, i0) == Some(LeafEntry(paddr, flags))
        && Translate(r.value, root, va) == Some((paddr, flags))
        && (forall a, b, c | 0 <= a < ENTRIES && 0 <= b < ENTRIES && 0 <= c < ENTRIES && (a != i2 || b != i1 || c != i0) ::
              Lookup(r.value, root, a, b, c) == Lookup(m, root, a, b, c))
        && r.value.frames == m.frames
  {
    var r := MapPage(m, root, va, paddr, flags);
    var i2, i1, i0 := PtIndexForLevel(va, 2), PtIndexForLevel(va, 1), PtIndexForLevel(va, 0);
    if r.Done? {
      WalkAllocates(m, root, va);
      var (m1, slot) := Walk(m, root, va, true).value;
      var t0 := Child(m1, Child(m1, root, i2), i1);
      var leaf := LeafEntry(paddr, flags);
      assert r.value == SetEntry(m1, t0, i0, leaf);
      LeafEntryRoundTrip(paddr, flags);
      WriteLeafKeepsTree(m1, root, i2, i1, i0, leaf);
      WriteLeafLookups(m1, root, i2, i1, i0, leaf, i2, i1, i0);
      assert Lookup(m1, root, i2, i1, i0) == None;
      forall a, b, c | 0 <= a < ENTRIES && 0 <= b < ENTRIES && 0 <= c < ENTRIES && (a != i2 || b != i1 || c != i0)
        ensures Lookup(r.value, root, a, b, c) == Lookup(m, root, a, b, c)
      {
        WriteLeafLookups(m1, root, i2, i1, i0, leaf, a, b, c);
      }
      TranslateIsLookup(r.value, root, va);
    }
  }

  /** Slot `i` of table `t` holds only the valid bit and the page number of a
      table that did not exist in `m`. */
  predicate Installed(m: Memory, m': Memory, t: nat, i: nat) {
    Entry(m', t, i) == PointerEntry(Child(m', t, i)) && Child(m', t, i) !in m.tables
  }

  /** Each entry an allocating walk installs holds only the valid bit and the
      page number of a table that did not exist before; the new tables are
      zero except for the entry installed in them; no other entry of an
      existing table changes. */
  lemma WalkInstallsFreshTables(m: Memory, root: nat, va: uint64)
    requires Tree(m, root)
    ensures var r := Walk(m, root, va, true);
      var i2, i1 := PtIndexForLevel(va, 2), PtIndexForLevel(va, 1);
      r.Done? ==>
        var m' := r.value.0;
        var t1 := Child(m', root, i2);
        var t0 := Child(m', t1, i1);
        && (!Points(m, root, i2) ==>
              Installed(m, m', root, i2) && forall k | 0 <= k < ENTRIES && k != i1 :: Entry(m', t1, k) == 0)
        && (!Points(m, t1, i1) ==>
              Installed(m, m', t1, i1) && forall k | 0 <= k < ENTRIES :: Entry(m', t0, k) == 0)
        && (forall u, k | u in m.tables && (u != root || k != i2) && (u != t1 || k != i1) ::
              Entry(m', u, k) == Entry(m, u, k))
  {
    var i2, i1 := PtIndexForLevel(va, 2), PtIndexForLevel(va, 1);
    if !Points(m, root, i2) {
      FreshAt2(m, root, va);
    } else if !Points(m, Child(m, root, i2), i1) {
      FreshAt1(m, root, va);
    }
  }

  lemma FreshAt1(m: Memory, root: nat, va: uint64)
    requires Tree(m, root)
    requires Level1Gap(m, root, PtIndexForLevel(va, 2), PtIndexForLevel(va, 1))
    ensures var r := Step(m, Child(m, root, PtIndexForLevel(va, 2)), va, 1, true);
      var i2, i1 := PtIndexForLevel(va, 2), PtIndexForLevel(va, 1);
      r.Done? ==>
        var m' := r.value.0;
        var t1 := Child(m, root, i2);
        && Child(m', root, i2) == t1
        && Installed(m, m', t1, i1)
        && (forall k | 0 <= k < ENTRIES :: Entry(m', Child(m', t1, i1), k) == 0)
        && (forall u, k | u in m.tables && (u != t1 || k != i1) :: Entry(m', u, k) == Entry(m, u, k))
  {
    var i2, i1 := PtIndexForLevel(va, 2), PtIndexForLevel(va, 1);
    var t1 := Child(m, root, i2);
    AllocFreshFrame(m);
    var a := Alloc(m.heap, Layout(PAGE_SIZE, PAGE_SIZE));
    if a.Done? {
      var (heap, n) := a.value;
      InstallLevel1Upper(m, root, i2, i1, heap, n);
      assert Level1Ok(m, root, i2);
      InstallEntries(m, t1, i1, heap, n);
    }
  }

  lemma FreshAt2(m: Memory, root: nat, va: uint64)
    requires Tree(m, root)
    requires !Points(m, root, PtIndexForLevel(va, 2))
    ensures var r := Walk(m, root, va, true);
      var i2, i1 := PtIndexForLevel(va, 2), PtIndexForLevel(va, 1);
      r.Done? ==>
        var m' := r.value.0;
        var t1 := Child(m', root, i2);
        && Installed(m, m', root, i2)
        && (forall k | 0 <= k < ENTRIES && k != i1 :: Entry(m', t1, k) == 0)
        && Installed(m, m', t1, i1)
        && (forall k | 0 <= k < ENTRIES :: Entry(m', Child(m', t1, i1), k) == 0)
        && (forall u, k | u in m.tables && (u != root || k != i2) :: Entry(m', u, k) == Entry(m, u, k))
  {
    var i2, i1 := PtIndexForLevel(va, 2), PtIndexForLevel(va, 1);
    AllocFreshFrame(m);
    var a := Alloc(m.heap, Layout(PAGE_SIZE, PAGE_SIZE));
    if a.Done? {
      var (heap, n) := a.value;
      var m1 := Install(m, heap, root, i2, n);
      InstallRootKeepsTree(m, root, i2, heap, n);
      InstallEntries(m, root, i2, heap, n);
      ZeroInvalid();
      assert Step(m, root, va, 2, true) == Done((m1, Some(n)));
      assert Level1Gap(m1, root, i2, i1);
      FreshAt1(m1, root, va);
      WalkFromGapAt1(m1, root, va);
      var r := Step(m1, n, va, 1, true);
      if r.Done? {
        var m' := r.value.0;
        assert Walk(m, root, va, true).value.0 == m';
        assert Entry(m', root, i2) == Entry(m1, root, i2);
        forall k | 0 <= k < ENTRIES && k != i1
          ensures Entry(m', n, k) == 0
        {
          assert Entry(m', n, k) == Entry(m1, n, k);
        }
        assert Child(m', n, i1) !in m.tables;
        forall u, k | u in m.tables && (u != root || k != i2)
          ensures Entry(m', u, k) == Entry(m, u, k)
        {
          assert Entry(m', u, k) == Entry(m1, u, k);
        }
      }
    }
  }

  // ---------------------------------------------------------------------------
  // Building a whole address space
  // ---------------------------------------------------------------------------

  /** The leaf entry for a virtual address, by its three indices. */
  function LookupVa(m: Memory, root: nat, va: uint64): Option<uint64> {
    Lookup(m, root, PtIndexForLevel(va, 2), PtIndexForLevel(va, 1), PtIndexForLevel(va, 0))
  }

  /** Every translation of `m` is still present, unchanged, in `m'`. */
  predicate Extends(m: Memory, m': Memory, root: nat) {
    forall a, b, c | 0 <= a < ENTRIES && 0 <= b < ENTRIES && 0 <= c < ENTRIES && Lookup(m, root, a, b, c).Some? ::
      Lookup(m', root, a, b, c) == Lookup(m, root, a, b, c)
  }

  lemma ExtendsTransitive(m1: Memory, m2: Memory, m3: Memory, root: nat)
    requires Extends(m1, m2, root) && Extends(m2, m3, root)
    ensures Extends(m1, m3, root)
  {
  }

  /** A translation an extension keeps, read by virtual address. */
  lemma ExtendsLookupVa(m: Memory, m': Memory, root: nat, va: uint64)
    requires Extends(m, m', root) && LookupVa(m, root, va).Some?
    ensures LookupVa(m', root, va) == LookupVa(m, root, va)
  {
    var a, b, c := PtIndexForLevel(va, 2), PtIndexForLevel(va, 1), PtIndexForLevel(va, 0);
    assert Lookup(m, root, a, b, c).Some?;
  }

  /** The frame condition of `map_page` in the form a sequence of mappings
      needs: the page is mapped, nothing mapped before is lost, data frames and
      the allocator's region are kept. */
  lemma MapPageExtends(m: Memory, root: nat, va: uint64, paddr: uint64, flags: PageFlags)
    requires Tree(m, root)
    ensures var r := MapPage(m, root, va, paddr, flags);
      r.Done? ==>
        && Tree(r.value, root)
        && Extends(m, r.value, root)
        && LookupVa(r.value, root, va) == Some(LeafEntry(paddr, flags))
        && r.value.frames == m.frames
        && m.heap.next <= r.value.heap.next && r.value.heap.end == m.heap.end
  {
    MapPageMaps(m, root, va, paddr, flags);
    WalkAllocates(m, root, va);
  }

  /** A translation read through `Translate`. */
  lemma TranslateOfLookup(m: Memory, root: nat, va: uint64, paddr: uint64, flags: PageFlags)
    requires Tree(m, root) && IsAligned(paddr)
    requires LookupVa(m, root, va) == Some(LeafEntry(paddr, flags))
    ensures Translate(m, root, va) == Some((paddr, flags))
  {
    TranslateIsLookup(m, root, va);
    LeafEntryRoundTrip(paddr, flags);
  }

  /** Records a data frame handed out by the allocator. */
  function AddFrame(m: Memory, heap: BumpAllocator, page: nat, bytes: seq<uint8>): Memory {
    m.(heap := heap, frames := m.frames[page := bytes])
  }

  /** Recording a freshly allocated data frame keeps the tree and every
      translation, and overwrites no existing frame. */
  lemma AddFrameKeeps(m: Memory, root: nat, heap: BumpAllocator, page: nat, bytes: seq<uint8>)
    requires Tree(m, root) && FreshFrame(m, heap, page)
    ensures var m' := AddFrame(m, heap, page, bytes);
      && Tree(m', root) && Extends(m, m', root)
      && page !in m.frames
      && (forall f | f in m.frames :: f in m'.frames && m'.frames[f] == m.frames[f])
  {
    var m' := AddFrame(m, heap, page, bytes);
    assert forall t, k :: Entry(m', t, k) == Entry(m, t, k);
    SameUpperKeepsTree(m, m', root);
  }

  /** A freshly allocated zeroed frame used as a root is an (empty) tree. */
  lemma NewRootTree(m: Memory, heap: BumpAllocator, root: nat)
    requires Shaped(m) && Fresh(m) && FreshFrame(m, heap, root)
    ensures var m' := m.(heap := heap, tables := m.tables[root := ZeroTable()]);
      Tree(m', root) && m'.frames == m.frames
  {
    var m' := m.(heap := heap, tables := m.tables[root := ZeroTable()]);
    ZeroInvalid();
    assert forall k | 0 <= k < ENTRIES :: !Points(m', root, k);
  }

  /** `alloc_pages(1)` from a heap below which every frame lies yields a fresh frame. */
  lemma AllocPageFresh(m: Memory)
    requires Fresh(m)
    ensures var r := AllocPages(m.heap, 1);
      r.Done? ==> FreshFrame(m, r.value.0, r.value.1)
  {
  }
}
