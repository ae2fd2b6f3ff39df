/** The kernel heap: a bump allocator over the region `[start, end)`
    (kernel/src/allocator.rs). Memory is handed out in increasing address
    order and never reclaimed. Arithmetic overflow follows Rust's checked
    (debug-build) semantics: it panics. */
module Allocator {
  import opened Bits
  import opened Wrappers

  const ISIZE_MAX: int := 0x7FFF_FFFF_FFFF_FFFF

  predicate IsPowerOfTwo(n: nat)
    decreases n
  {
    n == 1 || (n > 1 && n % 2 == 0 && IsPowerOfTwo(n / 2))
  }

  /** `core::alloc::Layout`: a size and a power-of-two alignment such that the
      size rounded up to the alignment does not exceed `isize::MAX`. */
  datatype Layout = Layout(size: uint64, align: uint64)

  predicate ValidLayout(l: Layout) {
    IsPowerOfTwo(l.align) && l.size <= ISIZE_MAX - (l.align - 1)
  }

  /** `Option<Mutable>` behind the allocator's lock. */
  datatype BumpAllocator = Uninitialized | Ready(next: uint64, end: uint64)

  /** `BumpAllocator::init`: installs a fresh region, replacing any earlier one. */
  function Init(a: BumpAllocator, start: uint64, end: uint64): (r: BumpAllocator)
    ensures r.Ready? && r.next == start && r.end == end
  {
    Ready(start, end)
  }

  /** `usize::next_multiple_of`; the sum overflowing 64 bits panics. */
  function NextMultipleOf(n: uint64, align: nat): (r: Outcome<uint64>)
    requires align > 0
    ensures r.Done? ==> r.value % align == 0 && n <= r.value < n + align
    ensures r.Panic? <==> n % align != 0 && n + (align - n % align) >= WORD_MODULUS
  {
    var rem := n % align;
    RoundUpIsMultiple(n, align);
    if rem == 0 then Done(n)
    else if n + (align - rem) >= WORD_MODULUS then Panic("attempt to add with overflow")
    else Done(n + (align - rem))
  }

  lemma RoundUpIsMultiple(n: nat, align: nat)
    requires align > 0
    ensures n % align != 0 ==> (n + (align - n % align)) % align == 0
  {
    var q, rem := n / align, n % align;
    if rem != 0 {
      assert n + (align - rem) == align * (q + 1);
      DivModUnique(n + (align - rem), align, q + 1, 0);
    }
  }

  /** `usize::saturating_add` */
  function SaturatingAdd(a: uint64, b: uint64): (r: uint64)
    ensures a + b < WORD_MODULUS ==> r == a + b
    ensures a + b >= WORD_MODULUS ==> r == WORD_MODULUS - 1
  {
    if a + b < WORD_MODULUS then a + b else WORD_MODULUS - 1
  }

  /** `GlobalAlloc::alloc`: returns the new allocator state and the address. */
  function Alloc(a: BumpAllocator, layout: Layout): (r: Outcome<(BumpAllocator, uint64)>)
    requires ValidLayout(layout)
    ensures a.Uninitialized? ==> r == Panic("Allocator not initialized")
    ensures r.Done? ==>
      var (a', addr) := r.value;
      && a.Ready? && a'.Ready?
      && addr % layout.align == 0
      && a.next <= addr < a.next + layout.align
      && addr + layout.size <= a.end
      && a'.next == addr + layout.size
      && a'.end == a.end
  {
    if a.Uninitialized? then Panic("Allocator not initialized")
    else
      var addr :- NextMultipleOf(a.next, layout.align);
      if SaturatingAdd(addr, layout.size) > a.end then Panic("Out of Memory!")
      else if addr + layout.size >= WORD_MODULUS then Panic("attempt to add with overflow")
      else Done((Ready(addr + layout.size, a.end), addr))
  }

  /** `GlobalAlloc::dealloc`: only prints a message; the state is untouched. */
  function Dealloc(a: BumpAllocator, ptr: uint64, layout: Layout): (r: BumpAllocator)
    ensures r == a
  {
    a
  }

  /** The address `Alloc` returns is the SMALLEST multiple of the alignment
      that is at least `next`: no other multiple lies in between. */
  lemma {:induction false} AllocIsSmallestMultiple(a: BumpAllocator, layout: Layout, m: int)
    requires ValidLayout(layout)
    requires Alloc(a, layout).Done?
    requires m % layout.align == 0 && a.next <= m
    ensures Alloc(a, layout).value.1 <= m
  {
    var addr := Alloc(a, layout).value.1;
    NoMultipleInBetween(a.next, layout.align, addr, m);
  }

  /** Of two multiples of `al` at or above `n`, one less than `n + al` is the smaller. */
  lemma NoMultipleInBetween(n: int, al: int, addr: int, m: int)
    requires al > 0 && addr % al == 0 && m % al == 0
    requires n <= addr < n + al && n <= m
    ensures addr <= m
  {
    var i, j := m / al, addr / al;
    assert m == al * i && addr == al * j;
    assert al * j < al * (i + 1);
    MulCancelLess(al, j, i + 1);
    MulMonotone(al, j, i);
  }

  lemma MulCancelLess(a: int, x: int, y: int)
    requires a > 0 && a * x < a * y
    ensures x < y
  {
    if x >= y {
      MulMonotone(a, y, x);
    }
  }

  lemma MulMonotone(a: int, x: int, y: int)
    requires a >= 0 && x <= y
    ensures a * x <= a * y
  {
    assert a * y - a * x == a * (y - x);
  }

  /** The allocation fails exactly when the request, placed at the next
      aligned address, would run past `end`. The message is "Out of Memory!"
      unless `end` is the top of the address space, where the saturated sum
      passes the check and the overflow is caught by the next addition. */
  lemma AllocFailsIffNoRoom(a: BumpAllocator, layout: Layout)
    requires ValidLayout(layout) && a.Ready?
    requires NextMultipleOf(a.next, layout.align).Done?
    ensures var addr := NextMultipleOf(a.next, layout.align).value;
      && (Alloc(a, layout).Panic? <==> addr + layout.size > a.end)
      && (Alloc(a, layout).Panic? && a.end < WORD_MODULUS - 1 ==>
            Alloc(a, layout).msg == "Out of Memory!")
  {
  }

  /** Two successive allocations occupy disjoint address ranges, the second
      above the first, and `next` never moves backwards. */
  lemma AllocDisjoint(a: BumpAllocator, l1: Layout, l2: Layout)
    requires ValidLayout(l1) && ValidLayout(l2)
    requires Alloc(a, l1).Done?
    requires Alloc(Alloc(a, l1).value.0, l2).Done?
    ensures var (a1, addr1) := Alloc(a, l1).value;
      var (a2, addr2) := Alloc(a1, l2).value;
      && a.next <= a1.next <= a2.next
      && addr1 + l1.size <= addr2
      && a2.end == a.end
  {
  }

  /** Right after `init(start, end)`, a request is placed at the first
      multiple of its alignment at or above `start`, whatever came before. */
  lemma InitThenAlloc(a: BumpAllocator, start: uint64, end: uint64, layout: Layout)
    requires ValidLayout(layout)
    requires start % layout.align == 0 && start + layout.size <= end
    ensures Alloc(Init(a, start, end), layout) == Done((Ready(start + layout.size, end), start))
  {
  }

  /** Freeing memory gives nothing back: the next allocation is placed as if
      `dealloc` had never been called. */
  lemma DeallocReclaimsNothing(a: BumpAllocator, ptr: uint64, freed: Layout, layout: Layout)
    requires ValidLayout(layout)
    ensures Alloc(Dealloc(a, ptr, freed), layout) == Alloc(a, layout)
  {
  }
}
