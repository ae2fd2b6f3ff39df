/** Sv39 virtual addresses, page-table entries and permission flags
    (kernel/src/memory.rs), following section 4.4 of the RISC-V Privileged
    Architecture, version 20211203.

    A virtual address splits into a 12-bit page offset and three 9-bit
    table indices (bits 12..20, 21..29, 30..38). A page-table entry holds a
    44-bit physical page number in bits 10..53 (PPN[0], PPN[1], PPN[2]) and
    the permission bits V, R, W, X, U in bits 0..4. */
module Sv39 {
  import opened Bits

  const PAGE_SIZE: nat := 4096

  /** `Vaddr::is_aligned`: `(va & 0xFFF) == 0`. */
  predicate VaddrIsAligned(va: uint64) {
    Low(va, 12) == 0
  }

  /** `memory::is_aligned`: `value % 4096 == 0`, used for physical addresses. */
  predicate IsAligned(value: uint64) {
    value % PAGE_SIZE == 0
  }

  /** `Vaddr::pt_index_for_level`: `(va >> (12 + 9 * level)) & 0x1FF`. The
      shift amount must stay below 64, as a Rust shift demands. */
  function PtIndexForLevel(va: uint64, level: nat): (r: nat)
    requires 12 + 9 * level < 64
    ensures r < 512
  {
    Pow2Values();
    LowBound(Shr(va, 12 + 9 * level), 9);
    Field(va, 12 + 9 * level, 9)
  }

  /** `PTE::new`: the three PPN fields shifted into place, OR-ed with the flags. */
  function PteNew(ppn2: uint32, ppn1: uint32, ppn0: uint32, flags: uint16): uint64
  {
    var a, b, c := Shl64(ppn2, 28), Shl64(ppn1, 19), Shl64(ppn0, 10);
    Pow2Values();
    OrBound(a, b, 64);
    OrBound(Or(a, b), c, 64);
    OrBound(Or(Or(a, b), c), flags, 64);
    Or(Or(Or(a, b), c), flags)
  }

  /** `PTE::into_paddr`: `(pte >> 10) << 12`, the address of the page named by the PPN. */
  function IntoPaddr(pte: uint64): uint64 {
    Shl64(Shr(pte, 10), 12)
  }

  /** `PTE::from_paddr`: `(paddr >> 12) << 10`, an entry holding the page number of
      `paddr` and no flags. */
  function FromPaddr(paddr: uint64): uint64 {
    Shl64(Shr(paddr, 12), 10)
  }

  function Ppn0(pte: uint64): nat { Field(pte, 10, 9) }
  function Ppn1(pte: uint64): nat { Field(pte, 19, 9) }
  function Ppn2(pte: uint64): nat { Field(pte, 28, 26) }

  predicate Valid(pte: uint64) { Bit(pte, 0) }
  predicate Readable(pte: uint64) { Bit(pte, 1) }
  predicate Writable(pte: uint64) { Bit(pte, 2) }
  predicate Executable(pte: uint64) { Bit(pte, 3) }
  predicate UserAccessible(pte: uint64) { Bit(pte, 4) }

  /** `PTE::set_valid`: `pte | 1`. */
  function SetValid(pte: uint64): uint64 {
    Pow2Values();
    OrBound(pte, 1, 64);
    Or(pte, 1)
  }

  /** `PageFlags`: the permissions a mapping grants. */
  datatype PageFlags = PageFlags(read: bool, write: bool, execute: bool, user: bool)

  /** `PageFlags::default()` */
  function NoFlags(): PageFlags {
    PageFlags(false, false, false, false)
  }

  /** `PageFlags::kernel_all()`: read, write and execute, for the kernel only. */
  function KernelAll(): PageFlags {
    NoFlags().(read := true).(write := true).(execute := true)
  }

  /** `PageFlags::all()`: read, write and execute, accessible from user mode. */
  function All(): PageFlags {
    KernelAll().(user := true)
  }

  function BoolBit(b: bool): nat {
    if b then 1 else 0
  }

  /** `PageFlags::as_raw`: each permission OR-ed into its bit (R=1, W=2, X=3, U=4). */
  function AsRaw(f: PageFlags): (r: uint64)
    ensures r == 2 * BoolBit(f.read) + 4 * BoolBit(f.write) + 8 * BoolBit(f.execute) + 16 * BoolBit(f.user)
  {
    AsRawIsSum(f);
    Or(Or(Or(Or(0, Shl(BoolBit(f.read), 1)), Shl(BoolBit(f.write), 2)),
          Shl(BoolBit(f.execute), 3)), Shl(BoolBit(f.user), 4))
  }

  /** `PTE::with_flags`: `pte | flags.as_raw()`. */
  function WithFlags(pte: uint64, f: PageFlags): uint64 {
    Pow2Values();
    OrBound(pte, AsRaw(f), 64);
    Or(pte, AsRaw(f))
  }

  /** The permissions an entry grants, read back from its bits. */
  function FlagsOf(pte: uint64): PageFlags {
    PageFlags(Readable(pte), Writable(pte), Executable(pte), UserAccessible(pte))
  }

  /** The leaf entry `map_page` installs: `from_paddr(paddr).with_flags(f).set_valid()`. */
  function LeafEntry(paddr: uint64, f: PageFlags): uint64 {
    SetValid(WithFlags(FromPaddr(paddr), f))
  }

  /** The entry `walk` installs for a fresh intermediate table: `from_paddr(t).set_valid()`. */
  function PointerEntry(table: uint64): uint64 {
    SetValid(FromPaddr(table))
  }

  // ---------------------------------------------------------------------------
  // Properties
  // ---------------------------------------------------------------------------

  lemma AsRawIsSum(f: PageFlags)
    ensures Or(Or(Or(Or(0, Shl(BoolBit(f.read), 1)), Shl(BoolBit(f.write), 2)),
                  Shl(BoolBit(f.execute), 3)), Shl(BoolBit(f.user), 4))
         == 2 * BoolBit(f.read) + 4 * BoolBit(f.write) + 8 * BoolBit(f.execute) + 16 * BoolBit(f.user)
  {
    var r, w, x, u := BoolBit(f.read), BoolBit(f.write), BoolBit(f.execute), BoolBit(f.user);
    ShlSmall(r, w, x, u);
    OrZero(2 * r);
    OrInto(2 * r, w, 2);
    OrInto(2 * r + 4 * w, x, 3);
    OrInto(2 * r + 4 * w + 8 * x, u, 4);
  }

  lemma ShlSmall(r: nat, w: nat, x: nat, u: nat)
    ensures Shl(r, 1) == 2 * r && Shl(w, 2) == 4 * w && Shl(x, 3) == 8 * x && Shl(u, 4) == 16 * u
  {
    assert Shl(u, 4) == 2 * Shl(u, 3) == 4 * Shl(u, 2) == 8 * Shl(u, 1);
    assert Shl(x, 3) == 2 * Shl(x, 2) == 4 * Shl(x, 1);
    assert Shl(w, 2) == 2 * Shl(w, 1);
  }

  /** OR-ing bit `k` (as `b << k`) into a value below 2^k adds it. */
  lemma OrInto(acc: nat, b: nat, k: nat)
    requires acc < Pow2(k) && b <= 1
    ensures Or(acc, Shl(b, k)) == acc + Shl(b, k)
  {
    LowShl(b, k, k);
    OrDisjoint(Shl(b, k), acc, k);
    OrComm(acc, Shl(b, k));
  }

  /** Alignment of an address means its low 12 bits are zero: the mask test used
      for virtual addresses and the remainder test used for physical addresses
      agree, and both say no bit below 12 is set. */
  lemma AlignmentAgrees(x: uint64)
    ensures VaddrIsAligned(x) <==> IsAligned(x)
    ensures IsAligned(x) <==> forall i | 0 <= i < 12 :: !Bit(x, i)
  {
    Low12(x);
    if IsAligned(x) {
      forall i | 0 <= i < 12 ensures !Bit(x, i) {
        LowZeroBit(x, 12, i);
      }
    }
    if forall i | 0 <= i < 12 :: !Bit(x, i) {
      LowBitsZero(x, 12);
    }
  }

  /** A value with none of its low `k` bits set has its low `k` bits equal to zero. */
  lemma {:induction false} LowBitsZero(x: nat, k: nat)
    requires forall i | 0 <= i < k :: !Bit(x, i)
    ensures Low(x, k) == 0
  {
    if k > 0 {
      assert !Bit(x, 0);
      forall i | 0 <= i < k - 1 ensures !Bit(x / 2, i) {
        assert !Bit(x, i + 1);
      }
      LowBitsZero(x / 2, k - 1);
    }
  }

  /** `pt_index_for_level(l)` is the 9-bit field of the address starting at bit
      12 + 9l, so that the three levels together with the page offset rebuild any
      address below 2^39. */
  lemma PtIndexRebuildsAddress(va: uint64)
    requires va < Pow2(39)
    ensures va == Shl(PtIndexForLevel(va, 2), 30) + Shl(PtIndexForLevel(va, 1), 21)
                + Shl(PtIndexForLevel(va, 0), 12) + Low(va, 12)
  {
    assert PtIndexForLevel(va, 0) == Field(va, 12, 9);
    assert PtIndexForLevel(va, 1) == Field(va, 21, 9);
    assert PtIndexForLevel(va, 2) == Field(va, 30, 9);
    FieldsRebuild(va);
  }

  lemma FieldsRebuild(va: nat)
    requires va < Pow2(39)
    ensures va == Shl(Field(va, 30, 9), 30) + Shl(Field(va, 21, 9), 21)
                + Shl(Field(va, 12, 9), 12) + Low(va, 12)
  {
    assert Field(va, 30, 9) == Shr(va, 30) by { TopField(va); }
    SplitAt(va, 12);
    PeelIndex(va, 12);
    PeelIndex(va, 21);
  }

  /** The bits of `va` from `k` upwards are the bits from `k + 9` upwards
      plus the 9-bit index field at `k`. */
  lemma PeelIndex(va: nat, k: nat)
    ensures Shl(Shr(va, k), k) == Shl(Shr(va, k + 9), k + 9) + Shl(Field(va, k, 9), k)
  {
    var s := Shr(va, k);
    assert s == Shl(Shr(va, k + 9), 9) + Field(va, k, 9) by {
      SplitAt(s, 9);
      ShrShr(va, k, 9);
    }
    ShlOfSum(Shl(Shr(va, k + 9), 9), Field(va, k, 9), k);
    ShlShl(Shr(va, k + 9), 9, k);
  }

  /** Below 2^39, the level-2 index is everything above bit 30. */
  lemma TopField(va: nat)
    requires va < Pow2(39)
    ensures Field(va, 30, 9) == Shr(va, 30)
  {
    Pow2Add(9, 30);
    ShrBound(va, 30, 9);
    LowBound(Shr(va, 30), 9);
  }

  /** For page numbers and flags that fit their fields, the PPN accessors read
      back exactly what `PTE::new` put in. */
  lemma PteNewRoundTrip(ppn2: uint32, ppn1: uint32, ppn0: uint32, flags: uint16)
    requires ppn0 < 512 && ppn1 < 512 && ppn2 < Pow2(26) && flags < 1024
    ensures var pte := PteNew(ppn2, ppn1, ppn0, flags);
      Ppn0(pte) == ppn0 && Ppn1(pte) == ppn1 && Ppn2(pte) == ppn2 && Low(pte, 10) == flags
  {
    Pow2Values();
    var a, b, c := Shl64(ppn2, 28), Shl64(ppn1, 19), Shl64(ppn0, 10);
    Shl64NoWrap(ppn2, 28, 26);
    Shl64NoWrap(ppn1, 19, 9);
    Shl64NoWrap(ppn0, 10, 9);
    var pte := PteNew(ppn2, ppn1, ppn0, flags);
    assert pte == Or(Or(Or(a, b), c), flags);
    // PPN[0]: bits 10..18
    FieldOr(Or(Or(a, b), c), flags, 10, 9);
    FieldOr(Or(a, b), c, 10, 9);
    FieldOr(a, b, 10, 9);
    FieldOfShl(ppn2, 28, 10, 9);
    FieldOfShl(ppn1, 19, 10, 9);
    FieldOfShl(ppn0, 10, 10, 9);
    FieldOfSmall(flags, 10, 9);
    LowBound(Shr(ppn0, 0), 9);
    OrZero(0);
    OrZero(ppn0);
    // PPN[1]: bits 19..27
    FieldOr(Or(Or(a, b), c), flags, 19, 9);
    FieldOr(Or(a, b), c, 19, 9);
    FieldOr(a, b, 19, 9);
    FieldOfShl(ppn2, 28, 19, 9);
    FieldOfShl(ppn1, 19, 19, 9);
    FieldOfShl(ppn0, 10, 19, 9);
    assert Field(ppn0, 9, 9) == 0 by { FieldOfSmall(ppn0, 9, 9); }
    FieldOfSmall(flags, 19, 9);
    LowBound(ppn1, 9);
    OrZero(ppn1);
    // PPN[2]: bits 28..53
    FieldOr(Or(Or(a, b), c), flags, 28, 26);
    FieldOr(Or(a, b), c, 28, 26);
    FieldOr(a, b, 28, 26);
    FieldOfShl(ppn2, 28, 28, 26);
    FieldOfShl(ppn1, 19, 28, 26);
    FieldOfShl(ppn0, 10, 28, 26);
    assert Field(ppn1, 9, 26) == 0 by { FieldOfSmall(ppn1, 9, 26); }
    assert Field(ppn0, 18, 26) == 0 by { Pow2Monotone(9, 18); FieldOfSmall(ppn0, 18, 26); }
    FieldOfSmall(flags, 28, 26);
    LowBound(ppn2, 26);
    OrZero(ppn2);
    // flags: bits 0..9
    OrLow(Or(Or(a, b), c), flags, 10);
    OrLow(Or(a, b), c, 10);
    OrLow(a, b, 10);
    LowShl(ppn2, 28, 10);
    LowShl(ppn1, 19, 10);
    LowShl(ppn0, 10, 10);
    LowBound(flags, 10);
    OrZero(flags);
  }

  /** `as_raw` sets only the R, W, X and U bits, each exactly when the flag is
      set, and never the valid bit. */
  lemma AsRawBits(f: PageFlags)
    ensures !Bit(AsRaw(f), 0)
    ensures Bit(AsRaw(f), 1) == f.read && Bit(AsRaw(f), 2) == f.write
    ensures Bit(AsRaw(f), 3) == f.execute && Bit(AsRaw(f), 4) == f.user
    ensures forall i | i >= 5 :: !Bit(AsRaw(f), i)
    ensures FlagsOf(AsRaw(f)) == f
  {
    var r, w, x, u := BoolBit(f.read), BoolBit(f.write), BoolBit(f.execute), BoolBit(f.user);
    var v := AsRaw(f);
    ShrSteps(v);
    SumBits(r, w, x, u);
    forall i | i >= 5 ensures !Bit(v, i) {
      AsRawHighBits(v, i);
    }
  }

  lemma AsRawHighBits(v: nat, i: nat)
    requires v < 32 && i >= 5
    ensures !Bit(v, i)
  {
    Pow2Small();
    Pow2Monotone(5, i);
    ShrSmall(v, i);
  }

  lemma SumBits(r: nat, w: nat, x: nat, u: nat)
    requires r <= 1 && w <= 1 && x <= 1 && u <= 1
    ensures var v := 2 * r + 4 * w + 8 * x + 16 * u;
      v % 2 == 0 && (v / 2) % 2 == r && (v / 4) % 2 == w && (v / 8) % 2 == x && (v / 16) % 2 == u
  {
  }

  lemma ShrSteps(v: nat)
    ensures Shr(v, 1) == v / 2 && Shr(v, 2) == v / 4 && Shr(v, 3) == v / 8 && Shr(v, 4) == v / 16
  {
    assert Shr(v, 1) == Shr(v / 2, 0);
    assert Shr(v, 2) == Shr(v / 2, 1) == Shr(v / 4, 0);
    assert Shr(v, 3) == Shr(v / 2, 2) == Shr(v / 4, 1) == Shr(v / 8, 0);
    assert Shr(v, 4) == Shr(v / 2, 3) == Shr(v / 4, 2) == Shr(v / 8, 1) == Shr(v / 16, 0);
  }

  /** `kernel_all` is R|W|X without U; `all` is R|W|X|U. */
  lemma NamedFlagSets()
    ensures AsRaw(KernelAll()) == 0xE && AsRaw(All()) == 0x1E
    ensures !KernelAll().user && All().user
  {
  }

  /** Mapping a page-aligned physical address with any flags and reading the
      address back with `into_paddr` returns it unchanged: the flag bits never
      disturb the page number. The entry is valid and grants exactly `f`. */
  lemma LeafEntryRoundTrip(paddr: uint64, f: PageFlags)
    requires IsAligned(paddr)
    ensures IntoPaddr(LeafEntry(paddr, f)) == paddr
    ensures Valid(LeafEntry(paddr, f))
    ensures FlagsOf(LeafEntry(paddr, f)) == f
  {
    var x := FromPaddr(paddr);
    EntryKeepsPaddr(paddr, AsRaw(f));
    FromPaddrShape(paddr);
    LowShl(Shr(paddr, 12), 10, 10);
    LowBitsOfEntry(x, AsRaw(f), 0);
    LowBitsOfEntry(x, AsRaw(f), 1);
    LowBitsOfEntry(x, AsRaw(f), 2);
    LowBitsOfEntry(x, AsRaw(f), 3);
    LowBitsOfEntry(x, AsRaw(f), 4);
    AsRawBits(f);
  }

  /** Below bit 10, an entry built from `x` (whose low 10 bits are clear) by
      OR-ing in `raw` and the valid bit has exactly the bits of `raw`, plus V. */
  lemma LowBitsOfEntry(x: nat, raw: nat, i: nat)
    requires Low(x, 10) == 0 && i < 10
    ensures Bit(Or(Or(x, raw), 1), i) <==> i == 0 || Bit(raw, i)
  {
    LowZeroBit(x, 10, i);
    OrBit(Or(x, raw), 1, i);
    OrBit(x, raw, i);
    if i > 0 {
      ShrSmall(1, i);
    }
  }

  /** The entry installed for a fresh page-aligned table is valid, grants no
      permission, and points back at the table. */
  lemma PointerEntryRoundTrip(table: uint64)
    requires IsAligned(table)
    ensures IntoPaddr(PointerEntry(table)) == table
    ensures Valid(PointerEntry(table))
    ensures FlagsOf(PointerEntry(table)) == NoFlags()
  {
    assert PointerEntry(table) == LeafEntry(table, NoFlags()) by {
      assert AsRaw(NoFlags()) == 0;
      OrZero(FromPaddr(table));
    }
    LeafEntryRoundTrip(table, NoFlags());
  }

  /** OR-ing flags and the valid bit into `from_paddr(p)` keeps `into_paddr` at `p`. */
  lemma EntryKeepsPaddr(paddr: uint64, raw: nat)
    requires IsAligned(paddr) && raw < 1024
    ensures Or(Or(FromPaddr(paddr), raw), 1) < WORD_MODULUS
    ensures IntoPaddr(Or(Or(FromPaddr(paddr), raw), 1)) == paddr
  {
    var q := Shr(paddr, 12);
    FromPaddrShape(paddr);
    var x := FromPaddr(paddr);
    var e := Or(Or(x, raw), 1);
    LowFlagsBound(x, raw);
    LowFlagsKeepHigh(x, raw);
    ShrShl(q, 10);
    assert Shr(e, 10) == q;
    PageNumberRebuilds(paddr);
  }

  /** `from_paddr(p)` is the page number of `p` shifted to bit 10, below 2^62. */
  lemma FromPaddrShape(paddr: uint64)
    ensures FromPaddr(paddr) == Shl(Shr(paddr, 12), 10) < Pow2(62)
  {
    assert Shr(paddr, 12) < Pow2(52) by {
      Pow2Values();
      ShrBound(paddr, 12, 52);
    }
    Shl64NoWrap(Shr(paddr, 12), 10, 52);
  }

  lemma LowFlagsBound(x: nat, raw: nat)
    requires x < Pow2(62) && raw < 1024
    ensures Or(Or(x, raw), 1) < WORD_MODULUS
  {
    Pow2Values();
    Pow2Monotone(10, 62);
    OrBound(x, raw, 62);
    OrBound(Or(x, raw), 1, 62);
  }

  lemma LowFlagsKeepHigh(x: nat, raw: nat)
    requires raw < 1024
    ensures Shr(Or(Or(x, raw), 1), 10) == Shr(x, 10)
  {
    Pow2Values();
    OrHigh(Or(x, raw), 1, 10);
    OrHigh(x, raw, 10);
  }

  /** The page number of an aligned address, shifted back, is the address. */
  lemma PageNumberRebuilds(paddr: uint64)
    requires IsAligned(paddr)
    ensures Shl64(Shr(paddr, 12), 12) == paddr
  {
    Low12(paddr);
    ShlShr(paddr, 12);
  }

  lemma {:induction false} OrComm(x: nat, y: nat)
    ensures Or(x, y) == Or(y, x)
    decreases x + y
  {
    if x != 0 && y != 0 {
      OrComm(x / 2, y / 2);
    }
  }

  lemma {:induction false} ShlOfSum(x: nat, y: nat, s: nat)
    ensures Shl(x + y, s) == Shl(x, s) + Shl(y, s)
  {
    if s > 0 {
      ShlOfSum(x, y, s - 1);
    }
  }

  lemma {:induction false} ShlShl(x: nat, a: nat, b: nat)
    ensures Shl(Shl(x, a), b) == Shl(x, a + b)
  {
    if b > 0 {
      ShlShl(x, a, b - 1);
    }
  }
}
