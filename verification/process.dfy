/** The process table and cooperative round-robin scheduler of
    kernel/src/process.rs: eight fixed slots with the idle process in slot 0,
    the scan for the next process to run, the `satp` value of a switch, and
    the address space and saved frame `create_process` builds. */
module Process {
  import opened Bits
  import opened Wrappers
  import opened Allocator
  import opened Sv39
  import opened PageTable

  const PROCS_MAX: nat := 8
  const PROC_STACK_SIZE: nat := 8192
  /** The kernel stack of a process, as 64-bit words. */
  const STACK_WORDS: nat := 1024
  /** Words `switch_context` saves: ra, s0–s11 and one for alignment. */
  const NUM_REGISTERS: nat := 14
  const USER_BASE: nat := 0x1000000

  datatype Pid = Pid(idx: nat)

  function IdlePid(): Pid {
    Pid(0)
  }

  predicate IsIdle(pid: Pid) {
    pid.idx == 0
  }

  /** `Pid::new`: a pid for slot `idx`; the idle pid 0 cannot be created. */
  function NewPid(idx: nat): (r: Outcome<Pid>)
    ensures r.Done? <==> idx != 0
    ensures r.Done? ==> r.value.idx == idx && !IsIdle(r.value)
    ensures r.Panic? ==> r.msg == "Tried to create an idle process"
  {
    if idx != 0 then Done(Pid(idx)) else Panic("Tried to create an idle process")
  }

  /** A process: pid, saved stack pointer, root page table, kernel stack. */
  datatype Proc = Proc(pid: Pid, sp: uint64, pageTable: uint64, stack: seq<uint64>)

  /** `Process::uninitialized` (and the idle process): all zero. */
  function Uninitialized(): Proc {
    Proc(IdlePid(), 0, 0, seq(STACK_WORDS, _ => 0))
  }

  datatype Scheduler = Scheduler(procs: seq<Option<Proc>>, current: Pid)

  /** The shape every reachable scheduler has: eight slots, the idle process
      in slot 0, each process in the slot its pid names, and `current`
      naming an occupied slot. */
  predicate WellFormed(s: Scheduler) {
    && |s.procs| == PROCS_MAX
    && s.procs[0].Some? && IsIdle(s.procs[0].value.pid)
    && (forall i | 0 <= i < PROCS_MAX && s.procs[i].Some? :: s.procs[i].value.pid.idx == i)
    && s.current.idx < PROCS_MAX && s.procs[s.current.idx].Some?
  }

  /** `Scheduler::new` */
  function NewScheduler(): (r: Scheduler)
    ensures WellFormed(r)
    ensures r.procs[0] == Some(Uninitialized()) && r.current == IdlePid()
    ensures forall i | 1 <= i < PROCS_MAX :: r.procs[i].None?
  {
    Scheduler([Some(Uninitialized()), None, None, None, None, None, None, None], IdlePid())
  }

  /** `get`/`get_mut`: the slot a pid names (indexing past the table panics). */
  function Get(s: Scheduler, pid: Pid): (r: Outcome<Option<Proc>>)
    ensures r.Done? <==> pid.idx < |s.procs|
    ensures r.Done? ==> r.value == s.procs[pid.idx]
  {
    if pid.idx < |s.procs| then Done(s.procs[pid.idx]) else Panic("index out of bounds")
  }

  // ---------------------------------------------------------------------------
  // Round-robin selection
  // ---------------------------------------------------------------------------

  /** The slot `find_next_process` inspects at step `i`. */
  function SlotAt(s: Scheduler, i: nat): nat {
    (s.current.idx + i) % PROCS_MAX
  }

  /** A slot holding a process other than the idle one. */
  predicate Runnable(s: Scheduler, k: nat)
    requires |s.procs| == PROCS_MAX
  {
    k < PROCS_MAX && s.procs[k].Some? && !IsIdle(s.procs[k].value.pid)
  }

  /** The scan of `find_next_process` from step `i` on: the first step `j` of
      `i..=8` whose slot is runnable; none panics as `unreachable!()`. */
  function Scan(s: Scheduler, i: nat): (r: Outcome<nat>)
    requires |s.procs| == PROCS_MAX && 1 <= i <= PROCS_MAX + 1
    decreases PROCS_MAX + 1 - i
    ensures r.Done? ==>
      && i <= r.value <= PROCS_MAX
      && Runnable(s, SlotAt(s, r.value))
      && forall j | i <= j < r.value :: !Runnable(s, SlotAt(s, j))
    ensures r.Panic? <==> forall j | i <= j <= PROCS_MAX :: !Runnable(s, SlotAt(s, j))
    ensures r.Panic? ==> r.msg == "internal error: entered unreachable code"
  {
    if i > PROCS_MAX then Panic("internal error: entered unreachable code")
    else if Runnable(s, SlotAt(s, i)) then Done(i)
    else Scan(s, i + 1)
  }

  /** `find_next_process`: the slot of the process to switch to. */
  function FindNextProcess(s: Scheduler): (r: Outcome<nat>)
    requires |s.procs| == PROCS_MAX
    ensures r.Done? ==> Runnable(s, r.value)
  {
    var j :- Scan(s, 1);
    Done(SlotAt(s, j))
  }

  /** The `satp` value that selects Sv39 translation rooted at `pageTable`:
      `(8 << 60) | (page_table / PAGE_SIZE)`. */
  function Satp(pageTable: uint64): uint64 {
    Pow2Values();
    OrBound(Shl64(8, 60), pageTable / PAGE_SIZE, 64);
    Or(Shl64(8, 60), pageTable / PAGE_SIZE)
  }

  /** What a switch writes to the hart: `satp`, `sscratch` (the top of
      the next process's kernel stack) and `sp`, loaded from the next
      process's saved stack pointer. */
  datatype Switch = Switch(satp: uint64, sscratch: nat, sp: uint64)

  /** `do_yield`: pick the next process; if it is not the current one, make
      it current, save the outgoing stack pointer `kernelSp` (the one
      `switch_context` has after pushing its 14 registers) into the
      previous process, and report the register values of the switch.
      `stackBase(k)` is the address of slot `k`'s kernel stack. */
  function DoYield(s: Scheduler, stackBase: nat -> nat, kernelSp: uint64)
    : (r: Outcome<(Scheduler, Option<Switch>)>)
    requires WellFormed(s)
  {
    var k :- FindNextProcess(s);
    var next := s.procs[k].value;
    if s.current != next.pid then
      var prev := s.current.idx;
      var procs := s.procs[prev := Some(s.procs[prev].value.(sp := kernelSp))];
      Done((Scheduler(procs, next.pid), Some(Switch(Satp(next.pageTable), stackBase(k) + PROC_STACK_SIZE, next.sp))))
    else Done((s, None))
  }

  // ---------------------------------------------------------------------------
  // Creating a process
  // ---------------------------------------------------------------------------

  /** The scan of `find_free_process` from slot `i` on. */
  function FreeScan(s: Scheduler, i: nat): (r: Outcome<nat>)
    requires |s.procs| == PROCS_MAX && i <= PROCS_MAX
    decreases PROCS_MAX - i
    ensures r.Done? ==>
      && i <= r.value < PROCS_MAX && s.procs[r.value].None?
      && forall j | i <= j < r.value :: s.procs[j].Some?
    ensures r.Panic? <==> forall j | i <= j < PROCS_MAX :: s.procs[j].Some?
    ensures r.Panic? ==> r.msg == "No free processes"
  {
    if i == PROCS_MAX then Panic("No free processes")
    else if s.procs[i].None? then Done(i)
    else FreeScan(s, i + 1)
  }

  /** `find_free_process`: the lowest empty slot receives an all-zero process
      whose pid names the slot. */
  function FindFreeProcess(s: Scheduler): (r: Outcome<(Scheduler, nat)>)
    requires |s.procs| == PROCS_MAX
  {
    var i :- FreeScan(s, 0);
    var pid :- NewPid(i);
    Done((s.(procs := s.procs[i := Some(Uninitialized().(pid := pid))]), i))
  }

  /** Identity-maps the pages `addr, addr + 4096, …` below `end` with
      `kernel_all`, as `create_process`'s first loop does. */
  function MapKernel(m: Memory, root: nat, addr: nat, end: nat): (r: Outcome<Memory>)
    requires Tree(m, root) && end <= WORD_MODULUS
    decreases end - addr
    ensures r.Done? ==>
      && Tree(r.value, root) && Extends(m, r.value, root) && r.value.frames == m.frames
      && m.heap.next <= r.value.heap.next && r.value.heap.end == m.heap.end
      && (addr < end ==> IsAligned(addr))
      && forall va: uint64 | addr <= va < end && (va - addr) % PAGE_SIZE == 0 ::
           LookupVa(r.value, root, va) == Some(LeafEntry(va, KernelAll()))
  {
    if addr >= end then Done(m)
    else
      MapPageExtends(m, root, addr, addr, KernelAll());
      var m' :- MapPage(m, root, addr, addr, KernelAll());
      var r := MapKernel(m', root, addr + PAGE_SIZE, end);
      if r.Done? then
        ExtendsTransitive(m, m', r.value, root);
        KernelPagesStep(m', r.value, root, addr, end);
        r
      else r
  }

  /** The pages from `a` on are mapped once `a` is and those after it are. */
  lemma KernelPagesStep(m1: Memory, m': Memory, root: nat, a: uint64, end: nat)
    requires LookupVa(m1, root, a) == Some(LeafEntry(a, KernelAll()))
    requires Extends(m1, m', root)
    requires forall va: uint64 | a + PAGE_SIZE <= va < end && (va - (a + PAGE_SIZE)) % PAGE_SIZE == 0 ::
      LookupVa(m', root, va) == Some(LeafEntry(va, KernelAll()))
    ensures forall va: uint64 | a <= va < end && (va - a) % PAGE_SIZE == 0 ::
      LookupVa(m', root, va) == Some(LeafEntry(va, KernelAll()))
  {
    forall va: uint64 | a <= va < end && (va - a) % PAGE_SIZE == 0
      ensures LookupVa(m', root, va) == Some(LeafEntry(va, KernelAll()))
    {
      if va == a {
        ExtendsLookupVa(m1, m', root, va);
      } else {
        NextMultiple(va, a);
      }
    }
  }

  /** What the frame of the user page at `offset` holds: the next (at most)
      4096 bytes of the image, the rest of the zeroed page untouched. */
  function PageImage(image: seq<uint8>, offset: nat): (r: seq<uint8>)
    requires offset < |image|
    ensures |r| == PAGE_SIZE
    ensures forall b | 0 <= b < PAGE_SIZE :: r[b] == if offset + b < |image| then image[offset + b] else 0
  {
    var n := if |image| - offset < PAGE_SIZE then |image| - offset else PAGE_SIZE;
    image[offset..offset + n] + seq(PAGE_SIZE - n, _ => 0)
  }

  /** A zeroed frame from `alloc_pages(1)` holding the image's page at `offset`. */
  function UserFrame(m: Memory, root: nat, image: seq<uint8>, offset: nat): (r: Outcome<(Memory, uint64)>)
    requires Tree(m, root) && offset < |image|
    ensures r.Done? ==>
      && Tree(r.value.0, root) && Extends(m, r.value.0, root)
      && r.value.0.frames == m.frames[r.value.1 := PageImage(image, offset)]
      && r.value.1 !in m.frames && IsAligned(r.value.1)
      && m.heap.next <= r.value.0.heap.next && r.value.0.heap.end == m.heap.end
  {
    AllocPageFresh(m);
    var (heap, page) :- AllocPages(m.heap, 1);
    AddFrameKeeps(m, root, heap, page, PageImage(image, offset));
    Done((AddFrame(m, heap, page, PageImage(image, offset)), page))
  }

  /** One iteration of `create_process`'s second loop: the image's page at
      `offset` in a fresh frame, mapped at `USER_BASE + offset` with `all`
      (the address overflowing panics). Returns the memory, the virtual
      address and the frame. */
  function MapUserPage(m: Memory, root: nat, image: seq<uint8>, offset: nat): (r: Outcome<(Memory, uint64, uint64)>)
    requires Tree(m, root) && offset < |image|
    ensures r.Done? ==>
      var (m', va, page) := r.value;
      && va == USER_BASE + offset
      && Tree(m', root) && Extends(m, m', root)
      && LookupVa(m', root, va) == Some(LeafEntry(page, All()))
      && m'.frames == m.frames[page := PageImage(image, offset)]
      && page !in m.frames && IsAligned(page)
      && m.heap.next <= m'.heap.next && m'.heap.end == m.heap.end
  {
    var (m1, page) :- UserFrame(m, root, image, offset);
    if USER_BASE + offset >= WORD_MODULUS then Panic("attempt to add with overflow")
    else
      var va: uint64 := USER_BASE + offset;
      MapPageExtends(m1, root, va, page, All());
      var m2 :- MapPage(m1, root, va, page, All());
      ExtendsTransitive(m, m1, m2, root);
      Done((m2, va, page))
  }

  /** The addresses `vas` are the pages from `USER_BASE + offset` on. */
  predicate UserVas(offset: nat, vas: seq<uint64>) {
    forall k | 0 <= k < |vas| :: vas[k] == USER_BASE + offset + PAGE_SIZE * k
  }

  /** Each address of `vas` is mapped with `all` to the frame of the same index. */
  predicate MappedAll(m: Memory, root: nat, vas: seq<uint64>, pages: seq<uint64>) {
    && |vas| == |pages|
    && forall k | 0 <= k < |vas| :: LookupVa(m, root, vas[k]) == Some(LeafEntry(pages[k], All()))
  }

  /** The frames `pages` hold the image's pages from `offset` on. */
  predicate UserPagesHold(m: Memory, image: seq<uint8>, offset: nat, pages: seq<uint64>) {
    forall k | 0 <= k < |pages| ::
      && offset + PAGE_SIZE * k < |image|
      && pages[k] in m.frames && m.frames[pages[k]] == PageImage(image, offset + PAGE_SIZE * k)
  }

  /** The frames `pages` are aligned, pairwise distinct, and none of them was
      a frame of `m`. */
  predicate FreshPages(m: Memory, pages: seq<uint64>) {
    && (forall k | 0 <= k < |pages| :: pages[k] !in m.frames && IsAligned(pages[k]))
    && (forall k, l | 0 <= k < l < |pages| :: pages[k] != pages[l])
  }

  /** What the second loop of `create_process` leaves from `offset` on, going
      from `m` to `m'`: the tree grown and nothing of `m` lost, one fresh
      frame per started 4096 bytes of the image, holding that page and
      mapped with `all` at the matching address from `USER_BASE + offset`. */
  predicate UserLoaded(m: Memory, m': Memory, root: nat, image: seq<uint8>, offset: nat,
                       vas: seq<uint64>, pages: seq<uint64>)
  {
    && m.heap.Ready? && Tree(m', root) && Extends(m, m', root)
    && (forall f | f in m.frames :: f in m'.frames && m'.frames[f] == m.frames[f])
    && m.heap.next <= m'.heap.next && m'.heap.end == m.heap.end
    && (|pages| == 0 || offset + PAGE_SIZE * (|pages| - 1) < |image|)
    && offset + PAGE_SIZE * |pages| >= |image|
    && UserVas(offset, vas) && MappedAll(m', root, vas, pages)
    && UserPagesHold(m', image, offset, pages)
    && FreshPages(m, pages)
  }

  /** `create_process`'s second loop from `offset` on; also returns the
      addresses and frames it mapped. */
  function MapUser(m: Memory, root: nat, image: seq<uint8>, offset: nat): (r: Outcome<(Memory, seq<uint64>, seq<uint64>)>)
    requires Tree(m, root)
    decreases |image| - offset
    ensures r.Done? ==> UserLoaded(m, r.value.0, root, image, offset, r.value.1, r.value.2)
  {
    if offset >= |image| then Done((m, [], []))
    else
      var (m1, va, page) :- MapUserPage(m, root, image, offset);
      var r := MapUser(m1, root, image, offset + PAGE_SIZE);
      if r.Done? then
        var (m', vas, pages) := r.value;
        UserLoadedStep(m, m1, m', root, image, offset, va, page, vas, pages);
        Done((m', [va] + vas, [page] + pages))
      else Panic(r.msg)
  }

  lemma UserLoadedStep(m: Memory, m1: Memory, m': Memory, root: nat, image: seq<uint8>, offset: nat,
                       va: uint64, page: uint64, vas: seq<uint64>, pages: seq<uint64>)
    requires offset < |image| && va == USER_BASE + offset
    requires Tree(m, root) && Tree(m1, root) && Extends(m, m1, root)
    requires LookupVa(m1, root, va) == Some(LeafEntry(page, All()))
    requires m1.frames == m.frames[page := PageImage(image, offset)]
    requires page !in m.frames && IsAligned(page)
    requires m.heap.next <= m1.heap.next && m1.heap.end == m.heap.end
    requires UserLoaded(m1, m', root, image, offset + PAGE_SIZE, vas, pages)
    ensures UserLoaded(m, m', root, image, offset, [va] + vas, [page] + pages)
  {
    ExtendsTransitive(m, m1, m', root);
    VasStep(offset, va, vas);
    MappedStep(m1, m', root, va, page, vas, pages);
    HoldStep(m1, m', image, offset, page, pages);
    FreshStep(m, m1, page, pages);
  }

  lemma VasStep(offset: nat, va: uint64, vas: seq<uint64>)
    requires va == USER_BASE + offset && UserVas(offset + PAGE_SIZE, vas)
    ensures UserVas(offset, [va] + vas)
  {
    var all := [va] + vas;
    forall k | 0 <= k < |all|
      ensures all[k] == USER_BASE + offset + PAGE_SIZE * k
    {
      if k > 0 {
        assert all[k] == vas[k - 1];
      }
    }
  }

  lemma MappedStep(m1: Memory, m': Memory, root: nat, va: uint64, page: uint64, vas: seq<uint64>, pages: seq<uint64>)
    requires LookupVa(m1, root, va) == Some(LeafEntry(page, All())) && Extends(m1, m', root)
    requires MappedAll(m', root, vas, pages)
    ensures MappedAll(m', root, [va] + vas, [page] + pages)
  {
    ExtendsLookupVa(m1, m', root, va);
    MappedCons(m', root, va, page, vas, pages);
  }

  lemma MappedCons(m: Memory, root: nat, va: uint64, page: uint64, vas: seq<uint64>, pages: seq<uint64>)
    requires LookupVa(m, root, va) == Some(LeafEntry(page, All()))
    requires MappedAll(m, root, vas, pages)
    ensures MappedAll(m, root, [va] + vas, [page] + pages)
  {
    var allV, allP := [va] + vas, [page] + pages;
    forall k | 0 <= k < |allV|
      ensures LookupVa(m, root, allV[k]) == Some(LeafEntry(allP[k], All()))
    {
      if k > 0 {
        assert allV[k] == vas[k - 1] && allP[k] == pages[k - 1];
      }
    }
  }

  lemma HoldStep(m1: Memory, m': Memory, image: seq<uint8>, offset: nat, page: uint64, pages: seq<uint64>)
    requires offset < |image| && page in m1.frames && m1.frames[page] == PageImage(image, offset)
    requires forall f | f in m1.frames :: f in m'.frames && m'.frames[f] == m1.frames[f]
    requires UserPagesHold(m', image, offset + PAGE_SIZE, pages)
    ensures UserPagesHold(m', image, offset, [page] + pages)
  {
    var all := [page] + pages;
    forall k | 0 <= k < |all|
      ensures offset + PAGE_SIZE * k < |image|
      ensures all[k] in m'.frames && m'.frames[all[k]] == PageImage(image, offset + PAGE_SIZE * k)
    {
      if k > 0 {
        assert all[k] == pages[k - 1];
        assert offset + PAGE_SIZE * k == offset + PAGE_SIZE + PAGE_SIZE * (k - 1);
      }
    }
  }

  lemma FreshStep(m: Memory, m1: Memory, page: uint64, pages: seq<uint64>)
    requires page !in m.frames && page in m1.frames && IsAligned(page)
    requires forall f | f in m.frames :: f in m1.frames
    requires FreshPages(m1, pages)
    ensures FreshPages(m, [page] + pages)
  {
    var all := [page] + pages;
    forall k | 0 <= k < |all|
      ensures all[k] !in m.frames && IsAligned(all[k])
    {
      if k > 0 {
        assert all[k] == pages[k - 1];
      }
    }
    forall k, l | 0 <= k < l < |all|
      ensures all[k] != all[l]
    {
      assert all[l] == pages[l - 1];
      if k > 0 {
        assert all[k] == pages[k - 1];
      }
    }
  }

  /** The saved-register area `create_process` leaves on a new process's
      stack: 14 words below the top, the first holding the entry point (the
      saved `ra`), all others zero. */
  function InitialStack(userEntry: uint64): (r: seq<uint64>)
    ensures |r| == STACK_WORDS
  {
    seq(STACK_WORDS, k => if k == STACK_WORDS - NUM_REGISTERS then userEntry else 0)
  }

  /** `create_process`: takes the lowest free slot, allocates a root table,
      identity-maps the kernel `[kernelStart, heapEnd)`, maps the image at
      `USER_BASE`, and prepares a stack that `switch_context` will pop into
      `user_entry`. `stackBase(k)` is the address of slot `k`'s kernel stack. */
  function CreateProcess(s: Scheduler, m: Memory, image: seq<uint8>, kernelStart: uint64, heapEnd: uint64,
                         stackBase: nat -> nat, userEntry: uint64): (r: Outcome<(Scheduler, Memory, Pid)>)
    requires WellFormed(s) && Shaped(m) && Fresh(m)
    requires forall k | 0 <= k < PROCS_MAX :: NUM_REGISTERS * 8 <= stackBase(k) + PROC_STACK_SIZE < WORD_MODULUS
  {
    var (s1, i) :- FindFreeProcess(s);
    AllocPageFresh(m);
    var (heap, root) :- AllocPages(m.heap, 1);
    var m1 := m.(heap := heap, tables := m.tables[root := ZeroTable()]);
    NewRootTree(m, heap, root);
    var m2 :- MapKernel(m1, root, kernelStart, heapEnd);
    var (m3, _, _) :- MapUser(m2, root, image, 0);
    var sp := stackBase(i) + PROC_STACK_SIZE - NUM_REGISTERS * 8;
    var proc := Proc(Pid(i), sp, root, InitialStack(userEntry));
    Done((s1.(procs := s1.procs[i := Some(proc)]), m3, Pid(i)))
  }

  // ---------------------------------------------------------------------------
  // Properties of the scheduler
  // ---------------------------------------------------------------------------

  /** How many steps after `current` the scan reaches slot `k`: 1 for the
      slot right after it, 8 for `current` itself. */
  function Offset(s: Scheduler, k: nat): (r: nat)
    requires s.current.idx < PROCS_MAX && k < PROCS_MAX
    ensures 1 <= r <= PROCS_MAX
  {
    if k > s.current.idx then k - s.current.idx else k + PROCS_MAX - s.current.idx
  }

  /** The reference choice of the scheduler: a runnable slot that no other
      runnable slot precedes in the rotation starting after `current`. */
  predicate Nearest(s: Scheduler, k: nat)
    requires |s.procs| == PROCS_MAX && s.current.idx < PROCS_MAX
  {
    && k < PROCS_MAX && Runnable(s, k)
    && forall k' | 0 <= k' < PROCS_MAX && Runnable(s, k') :: Offset(s, k) <= Offset(s, k')
  }

  lemma SlotOfOffset(s: Scheduler, k: nat)
    requires s.current.idx < PROCS_MAX && k < PROCS_MAX
    ensures SlotAt(s, Offset(s, k)) == k
  {
  }

  lemma OffsetOfSlot(s: Scheduler, j: nat)
    requires s.current.idx < PROCS_MAX && 1 <= j <= PROCS_MAX
    ensures SlotAt(s, j) < PROCS_MAX && Offset(s, SlotAt(s, j)) == j
  {
    if s.current.idx + j < PROCS_MAX {
      assert SlotAt(s, j) == s.current.idx + j;
    } else {
      assert SlotAt(s, j) == s.current.idx + j - PROCS_MAX;
    }
  }

  /** `find_next_process` panics exactly when no slot holds a process other
      than the idle one: the scan visits every slot. */
  lemma FindNextPanics(s: Scheduler)
    requires |s.procs| == PROCS_MAX && s.current.idx < PROCS_MAX
    ensures FindNextProcess(s).Panic? <==> forall k | 0 <= k < PROCS_MAX :: !Runnable(s, k)
  {
    if FindNextProcess(s).Panic? {
      forall k | 0 <= k < PROCS_MAX
        ensures !Runnable(s, k)
      {
        SlotOfOffset(s, k);
      }
    }
  }

  /** `find_next_process` returns exactly the runnable slot nearest after
      `current` in the rotation, `current` itself coming last. */
  lemma FindNextIsNearest(s: Scheduler, k: nat)
    requires |s.procs| == PROCS_MAX && s.current.idx < PROCS_MAX
    ensures FindNextProcess(s) == Done(k) <==> Nearest(s, k)
  {
    var r := Scan(s, 1);
    if r.Done? {
      var j := r.value;
      var k0 := SlotAt(s, j);
      OffsetOfSlot(s, j);
      forall k' | 0 <= k' < PROCS_MAX && Runnable(s, k')
        ensures Offset(s, k0) <= Offset(s, k')
      {
        SlotOfOffset(s, k');
      }
      assert Nearest(s, k0);
      if Nearest(s, k) {
        assert Offset(s, k) == Offset(s, k0);
        SlotOfOffset(s, k);
        SlotOfOffset(s, k0);
      }
    } else {
      FindNextPanics(s);
    }
  }

  /** The scheduler stays with `current` only when no other slot is runnable. */
  lemma StaysOnlyWhenAlone(s: Scheduler)
    requires |s.procs| == PROCS_MAX && s.current.idx < PROCS_MAX
    requires FindNextProcess(s) == Done(s.current.idx)
    ensures forall k | 0 <= k < PROCS_MAX && k != s.current.idx :: !Runnable(s, k)
  {
    FindNextIsNearest(s, s.current.idx);
    assert Offset(s, s.current.idx) == PROCS_MAX;
  }

  /** `do_yield`: it panics exactly when no process but the idle one exists;
      otherwise the new current process is the nearest runnable one. A
      switch happens exactly when that process differs from the old current
      one: it loads the new process's `satp`, `sscratch` and saved stack
      pointer, and the only change to the table is the outgoing stack
      pointer saved into the previous process. Without a switch nothing
      changes. */
  lemma DoYieldChoosesNearest(s: Scheduler, stackBase: nat -> nat, kernelSp: uint64)
    requires WellFormed(s)
    ensures var r := DoYield(s, stackBase, kernelSp);
      && (r.Panic? <==> forall k | 0 <= k < PROCS_MAX :: !Runnable(s, k))
      && (r.Done? ==>
        var (s', sw) := r.value;
        var k, prev := s'.current.idx, s.current.idx;
        && WellFormed(s') && Nearest(s, k) && !IsIdle(s'.current)
        && (sw.None? <==> s'.current == s.current)
        && (sw.None? ==> s' == s)
        && (sw.Some? ==>
          && sw.value == Switch(Satp(s.procs[k].value.pageTable), stackBase(k) + PROC_STACK_SIZE, s.procs[k].value.sp)
          && s'.procs[prev] == Some(s.procs[prev].value.(sp := kernelSp))
          && forall j | 0 <= j < PROCS_MAX && j != prev :: s'.procs[j] == s.procs[j]))
  {
    FindNextPanics(s);
    var f := FindNextProcess(s);
    if f.Done? {
      FindNextIsNearest(s, f.value);
    }
  }

  /** `find_free_process` takes the lowest empty slot, which is never the
      idle slot; it fills it with a zeroed process carrying the slot's pid and
      changes nothing else; it panics exactly when the table is full. */
  lemma FindFreeTakesLowest(s: Scheduler)
    requires WellFormed(s)
    ensures var r := FindFreeProcess(s);
      && (r.Panic? <==> forall j | 0 <= j < PROCS_MAX :: s.procs[j].Some?)
      && (r.Panic? ==> r.msg == "No free processes")
      && (r.Done? ==>
        var (s', i) := r.value;
        && 1 <= i < PROCS_MAX && s.procs[i].None?
        && (forall j | 0 <= j < i :: s.procs[j].Some?)
        && s'.procs[i] == Some(Proc(Pid(i), 0, 0, Uninitialized().stack))
        && (forall j | 0 <= j < PROCS_MAX && j != i :: s'.procs[j] == s.procs[j])
        && |s'.procs| == PROCS_MAX && s'.current == s.current
        && WellFormed(s'))
  {
  }

  /** The `satp` value of a root table below 2^56 (the width of a physical
      address): Sv39 mode 8 in bits 60–63, address-space id 0 in bits 44–59,
      and the root's page number in bits 0–43. */
  lemma SatpFields(pageTable: uint64)
    requires pageTable < 0x100_0000_0000_0000
    ensures Field(Satp(pageTable), 60, 4) == 8
    ensures Field(Satp(pageTable), 44, 16) == 0
    ensures Low(Satp(pageTable), 44) == pageTable / PAGE_SIZE
  {
    var q := pageTable / PAGE_SIZE;
    Pow2Values();
    Pow2Add(12, 44);
    assert q < Pow2(44);
    Pow2Monotone(44, 60);
    Shl64NoWrap(8, 60, 4);
    var x := Shl(8, 60);
    assert Satp(pageTable) == Or(x, q);
    FieldOr(x, q, 60, 4);
    FieldOfShl(8, 60, 60, 4);
    FieldOfSmall(q, 60, 4);
    assert Field(8, 0, 4) == 8 by { LowBound(8, 4); }
    OrZero(8);
    FieldOr(x, q, 44, 16);
    FieldOfShl(8, 60, 44, 16);
    Pow2Monotone(44, 44);
    FieldOfSmall(q, 44, 16);
    OrZero(0);
    OrLow(x, q, 44);
    LowShl(8, 60, 44);
    LowBound(q, 44);
    OrZero(q);
  }

  // ---------------------------------------------------------------------------
  // The address space of a new process
  // ---------------------------------------------------------------------------

  lemma AlignedStep(v: int, a: int)
    requires a % PAGE_SIZE == 0 && (v - a) % PAGE_SIZE == 0
    ensures v % PAGE_SIZE == 0
  {
    DivModUnique(v, PAGE_SIZE, a / PAGE_SIZE + (v - a) / PAGE_SIZE, 0);
  }

  /** The next page boundary after `a` on the way to `v`. */
  lemma NextMultiple(v: int, a: int)
    requires v > a && (v - a) % PAGE_SIZE == 0
    ensures a + PAGE_SIZE <= v && (v - (a + PAGE_SIZE)) % PAGE_SIZE == 0
  {
    var q := (v - a) / PAGE_SIZE;
    assert v - (a + PAGE_SIZE) == PAGE_SIZE * (q - 1);
    DivModUnique(v - (a + PAGE_SIZE), PAGE_SIZE, q - 1, 0);
  }

  /** Every page of `[start, end)` translates to itself with `kernel_all`. */
  predicate KernelIdentity(m: Memory, root: nat, start: nat, end: nat)
    requires Tree(m, root)
  {
    forall va: uint64 | start <= va < end && (va - start) % PAGE_SIZE == 0 ::
      Translate(m, root, va) == Some((va, KernelAll()))
  }

  /** Every page of the image translates, at `USER_BASE` plus its offset,
      with `all` to a frame holding that page. */
  predicate ImageMapped(m: Memory, root: nat, image: seq<uint8>)
    requires Tree(m, root)
  {
    forall offset: nat | offset < |image| && offset % PAGE_SIZE == 0 ::
      && USER_BASE + offset < WORD_MODULUS
      && var t := Translate(m, root, USER_BASE + offset);
      && t.Some? && t.value.1 == All()
      && t.value.0 in m.frames && m.frames[t.value.0] == PageImage(image, offset)
  }

  /** A kernel page mapped by the first loop still translates to itself
      after later mappings. */
  lemma KernelPageKept(m: Memory, m': Memory, root: nat, start: uint64, va: uint64)
    requires Tree(m', root) && Extends(m, m', root) && IsAligned(start)
    requires start <= va && (va - start) % PAGE_SIZE == 0
    requires LookupVa(m, root, va) == Some(LeafEntry(va, KernelAll()))
    ensures Translate(m', root, va) == Some((va, KernelAll()))
  {
    ExtendsLookupVa(m, m', root, va);
    AlignedStep(va, start);
    TranslateOfLookup(m', root, va, va, KernelAll());
  }

  /** The address and frame the second loop used for the image's page at
      `offset`. */
  lemma UserPageAt(m: Memory, m': Memory, root: nat, image: seq<uint8>, vas: seq<uint64>, pages: seq<uint64>, offset: nat)
    returns (va: uint64, page: uint64)
    requires UserLoaded(m, m', root, image, 0, vas, pages)
    requires offset < |image| && offset % PAGE_SIZE == 0
    ensures va == USER_BASE + offset && IsAligned(page)
    ensures LookupVa(m', root, va) == Some(LeafEntry(page, All()))
    ensures page in m'.frames && m'.frames[page] == PageImage(image, offset)
  {
    var k := offset / PAGE_SIZE;
    assert offset == PAGE_SIZE * k;
    va, page := vas[k], pages[k];
  }

  /** The page of the image at `offset` as the second loop left it. */
  lemma ImagePage(m': Memory, root: nat, image: seq<uint8>, va: uint64, page: uint64, offset: nat)
    requires Tree(m', root) && IsAligned(page) && offset < |image|
    requires va == USER_BASE + offset && LookupVa(m', root, va) == Some(LeafEntry(page, All()))
    requires page in m'.frames && m'.frames[page] == PageImage(image, offset)
    ensures var t := Translate(m', root, USER_BASE + offset);
      && t.Some? && t.value.1 == All()
      && t.value.0 in m'.frames && m'.frames[t.value.0] == PageImage(image, offset)
  {
    TranslateOfLookup(m', root, va, page, All());
  }

  /** What `create_process` builds: the lowest free slot holds a process
      with that slot's pid, a fresh root table, the saved-register frame 14
      words below the top of its stack with the entry point as `ra`; the
      kernel range is identity-mapped and the image mapped at `USER_BASE`;
      no other slot and not the current pid change; a full table panics. */
  lemma CreateProcessLayout(s: Scheduler, m: Memory, image: seq<uint8>, kernelStart: uint64, heapEnd: uint64,
                            stackBase: nat -> nat, userEntry: uint64)
    requires WellFormed(s) && Shaped(m) && Fresh(m)
    requires forall k | 0 <= k < PROCS_MAX :: NUM_REGISTERS * 8 <= stackBase(k) + PROC_STACK_SIZE < WORD_MODULUS
    ensures var r := CreateProcess(s, m, image, kernelStart, heapEnd, stackBase, userEntry);
      && ((forall j | 0 <= j < PROCS_MAX :: s.procs[j].Some?) ==> r == Panic("No free processes"))
      && (r.Done? ==>
        var (s', m', pid) := r.value;
        && 1 <= pid.idx < PROCS_MAX && s.procs[pid.idx].None?
        && (forall j | 0 <= j < pid.idx :: s.procs[j].Some?)
        && WellFormed(s') && s'.current == s.current
        && (forall j | 0 <= j < PROCS_MAX && j != pid.idx :: s'.procs[j] == s.procs[j])
        && s'.procs[pid.idx].Some?
        && var p := s'.procs[pid.idx].value;
        && p.pid == pid
        && p.sp == stackBase(pid.idx) + PROC_STACK_SIZE - NUM_REGISTERS * 8
        && |p.stack| == STACK_WORDS && p.stack[STACK_WORDS - NUM_REGISTERS] == userEntry
        && (forall w | 0 <= w < STACK_WORDS && w != STACK_WORDS - NUM_REGISTERS :: p.stack[w] == 0)
        && p.pageTable !in m.tables && p.pageTable !in m.frames
        && Tree(m', p.pageTable)
        && KernelIdentity(m', p.pageTable, kernelStart, heapEnd)
        && ImageMapped(m', p.pageTable, image))
  {
    FindFreeTakesLowest(s);
    var r := CreateProcess(s, m, image, kernelStart, heapEnd, stackBase, userEntry);
    if r.Done? {
      var (s1, i) := FindFreeProcess(s).value;
      AllocPageFresh(m);
      var (heap, root) := AllocPages(m.heap, 1).value;
      var m1 := m.(heap := heap, tables := m.tables[root := ZeroTable()]);
      NewRootTree(m, heap, root);
      var m2 := MapKernel(m1, root, kernelStart, heapEnd).value;
      var (m3, vas, pages) := MapUser(m2, root, image, 0).value;
      assert r.value.1 == m3;
      AddressSpaceBuilt(m2, m3, root, kernelStart, heapEnd, image, vas, pages);
    }
  }

  /** The two loops of `create_process` together: the kernel range mapped
      by the first survives the second, which maps the image. */
  lemma AddressSpaceBuilt(m2: Memory, m3: Memory, root: nat, start: uint64, end: nat, image: seq<uint8>,
                          vas: seq<uint64>, pages: seq<uint64>)
    requires start < end ==> IsAligned(start)
    requires forall va: uint64 | start <= va < end && (va - start) % PAGE_SIZE == 0 ::
      LookupVa(m2, root, va) == Some(LeafEntry(va, KernelAll()))
    requires UserLoaded(m2, m3, root, image, 0, vas, pages)
    ensures Tree(m3, root) && KernelIdentity(m3, root, start, end) && ImageMapped(m3, root, image)
  {
    forall va: uint64 | start <= va < end && (va - start) % PAGE_SIZE == 0
      ensures Translate(m3, root, va) == Some((va, KernelAll()))
    {
      KernelPageKept(m2, m3, root, start, va);
    }
    forall offset: nat | offset < |image| && offset % PAGE_SIZE == 0
      ensures USER_BASE + offset < WORD_MODULUS
      ensures var t := Translate(m3, root, USER_BASE + offset);
        && t.Some? && t.value.1 == All()
        && t.value.0 in m3.frames && m3.frames[t.value.0] == PageImage(image, offset)
    {
      var va, page := UserPageAt(m2, m3, root, image, vas, pages, offset);
      ImagePage(m3, root, image, va, page, offset);
    }
  }
}
