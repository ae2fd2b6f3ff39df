/** The supervisor trap handler of kernel/src/trap.rs: decoding of `scause`
    (section 4.1.8 of the RISC-V Privileged Architecture, version 20211203)
    and the dispatch of the two system calls the kernel serves. The handler
    is a pure function from the trap CSRs and the saved frame to either the
    frame and `sepc` to return with, or the panic it raises. */
module Trap {
  import opened Bits
  import opened Wrappers

  /** Bit 63 of `scause`: set for interrupts, clear for exceptions. */
  const INTERRUPT: nat := 0x8000_0000_0000_0000

  /** Exception code 8, environment call from U-mode: a system call. */
  const ECALL_FROM_U: nat := 8

  /** The system-call numbers the kernel dispatches on (saved `x13`). */
  const SYS_PUTCHAR: nat := 3
  const SYS_GETCHAR: nat := 2

  /** Length of an `ecall` instruction. */
  const ECALL_LEN: nat := 4

  /** The registers `trap_vector` saves: `x1` … `x31` (`regs[k - 1]` is
      `xk`) and the stack pointer at the time of the trap. */
  datatype TrapFrame = TrapFrame(regs: seq<uint64>, sp: uint64)

  predicate ValidFrame(f: TrapFrame) {
    |f.regs| == 31
  }

  /** Saved register `xk`, `1 <= k <= 31`. */
  function X(f: TrapFrame, k: nat): uint64
    requires ValidFrame(f) && 1 <= k <= 31
  {
    f.regs[k - 1]
  }

  /** What a trap ends in: a return to user mode with the (possibly changed)
      frame, the new `sepc` and the byte written to the console, if any; or
      one of the kernel's panics. */
  datatype TrapResult =
    | Resume(frame: TrapFrame, sepc: uint64, output: Option<uint8>)
    | CauseFault(msg: string, sepc: uint64, stval: uint64)
    | UnknownScause(scause: uint64)
    | UnknownSyscall(number: uint64)
    | Overflow

  /** The causes the table names, independently of their messages: exception
      codes 0 to 23 except 8 (handled), 14 and 16 to 19 (reserved), and
      interrupt codes 0 to 11. */
  predicate Listed(scause: uint64) {
    || (scause < 24 && scause != ECALL_FROM_U && scause != 14 && !(16 <= scause <= 19))
    || (INTERRUPT <= scause < INTERRUPT + 12)
  }

  /** The message the handler panics with for each named cause other than
      the system call. */
  function CauseMessage(scause: uint64): (r: Option<string>)
    ensures r.Some? <==> Listed(scause)
    ensures r.Some? ==> |r.value| > 0
  {
    if scause >= INTERRUPT then InterruptMessage(scause - INTERRUPT) else ExceptionMessage(scause)
  }

  /** The names of the exception codes, standard and guest ones alike. */
  function ExceptionMessage(code: nat): (r: Option<string>)
    ensures r.Some? <==> code < 24 && code != ECALL_FROM_U && code != 14 && !(16 <= code <= 19)
    ensures r.Some? ==> |r.value| > 0
  {
    match code
    case 0 => Some("instr address misalign")
    case 1 => Some("instruction access fault")
    case 2 => Some("illegal instruction")
    case 3 => Some("breakpoint")
    case 4 => Some("load address misaligned")
    case 5 => Some("load access fault")
    case 6 => Some("store/AMO address misaligned")
    case 7 => Some("store/AMO access fault")
    case 9 => Some("environment call from HS-mode")
    case 10 => Some("environment call from VS-mode")
    case 11 => Some("environment call from M-mode")
    case 12 => Some("instruction page fault")
    case 13 => Some("load page fault")
    case 15 => Some("store/AMO page fault")
    case 20 => Some("instruction guest-page fault")
    case 21 => Some("load guest-page fault")
    case 22 => Some("virtual instruction")
    case 23 => Some("store/AMO guest-page fault")
    case _ => None
  }

  /** The names of the interrupt codes: software, timer and external
      interrupts of the user, supervisor, hypervisor and machine levels. */
  function InterruptMessage(code: nat): (r: Option<string>)
    ensures r.Some? <==> code < 12
    ensures r.Some? ==> |r.value| > 0
  {
    match code
    case 0 => Some("user software interrupt")
    case 1 => Some("supervisor software interrupt")
    case 2 => Some("hypervisor software interrupt")
    case 3 => Some("machine software interrupt")
    case 4 => Some("user timer interrupt")
    case 5 => Some("supervisor timer interrupt")
    case 6 => Some("hypervisor timer interrupt")
    case 7 => Some("machine timer interrupt")
    case 8 => Some("user external interrupt")
    case 9 => Some("supervisor external interrupt")
    case 10 => Some("hypervisor external interrupt")
    case 11 => Some("machine external interrupt")
    case _ => None
  }

  /** `handle_syscall`: the number in saved `x13` selects putchar (3), which
      writes the low byte of saved `x10`, or getchar (2), which stores the
      character `getchar_coop` returns (`input`) into saved `x10`; any other
      number panics. Then `sepc` moves past the `ecall`. */
  function HandleSyscall(userPc: uint64, f: TrapFrame, input: uint8): (r: TrapResult)
    requires ValidFrame(f)
    ensures r.Resume? || r.UnknownSyscall? || r.Overflow?
    ensures r.UnknownSyscall? <==> X(f, 13) != SYS_PUTCHAR && X(f, 13) != SYS_GETCHAR
    ensures r.UnknownSyscall? ==> r.number == X(f, 13)
    ensures r.Overflow? <==> !r.UnknownSyscall? && userPc + ECALL_LEN >= WORD_MODULUS
    ensures r.Resume? ==>
      && r.sepc == userPc + ECALL_LEN
      && ValidFrame(r.frame) && r.frame.sp == f.sp
      && (forall k | 1 <= k <= 31 && k != 10 :: X(r.frame, k) == X(f, k))
      && (X(f, 13) == SYS_PUTCHAR ==> r.frame == f && r.output == Some(X(f, 10) % 256))
      && (X(f, 13) == SYS_GETCHAR ==> X(r.frame, 10) == input && r.output.None?)
  {
    var (frame, output) :=
      if X(f, 13) == SYS_PUTCHAR then (f, Some((X(f, 10) % 256) as uint8))
      else if X(f, 13) == SYS_GETCHAR then (f.(regs := f.regs[9 := input]), None)
      else (f, None);
    if X(f, 13) != SYS_PUTCHAR && X(f, 13) != SYS_GETCHAR then UnknownSyscall(X(f, 13))
    else if userPc + ECALL_LEN >= WORD_MODULUS then Overflow
    else Resume(frame, userPc + ECALL_LEN, output)
  }

  /** `trap_handler`: a system call is handled and returns; a named cause
      panics with its message, `sepc` and `stval`; any other cause panics as
      unknown. */
  function TrapHandler(scause: uint64, sepc: uint64, stval: uint64, f: TrapFrame, input: uint8): (r: TrapResult)
    requires ValidFrame(f)
    ensures r.Resume? ==> scause == ECALL_FROM_U
    ensures scause == ECALL_FROM_U ==> r == HandleSyscall(sepc, f, input)
    ensures Listed(scause) <==> r.CauseFault?
    ensures r.CauseFault? ==> Some(r.msg) == CauseMessage(scause) && r.sepc == sepc && r.stval == stval
    ensures r == UnknownScause(scause) <==> scause != ECALL_FROM_U && !Listed(scause)
  {
    if scause == ECALL_FROM_U then HandleSyscall(sepc, f, input)
    else match CauseMessage(scause)
      case Some(msg) => CauseFault(msg, sepc, stval)
      case None => UnknownScause(scause)
  }

  /** A left shift by `s` multiplies by `2^s`. */
  lemma {:induction false} ShlIsMul(z: nat, s: nat)
    ensures Shl(z, s) == z * Pow2(s)
  {
    if s > 0 {
      ShlIsMul(z, s - 1);
      assert z * Pow2(s) == 2 * (z * Pow2(s - 1));
    }
  }

  /** Bit 63 of a 64-bit `scause` is set exactly for the values at or above
      `INTERRUPT`, and the remaining 63 bits are the cause code. */
  lemma InterruptBit(scause: uint64)
    ensures Bit(scause, 63) <==> scause >= INTERRUPT
    ensures Low(scause, 63) == if scause >= INTERRUPT then scause - INTERRUPT else scause
  {
    Pow2Values();
    assert Pow2(63) == INTERRUPT;
    assert Pow2(1 + 63) == WORD_MODULUS;
    ShrBound(scause, 63, 1);
    SplitAt(scause, 63);
    LowBound(scause, 63);
    ShlIsMul(Shr(scause, 63), 63);
  }

  /** Every interrupt panics, the supervisor timer included: the twelve
      standard interrupt codes with their message, the others as unknown. */
  lemma InterruptsPanic(scause: uint64, sepc: uint64, stval: uint64, f: TrapFrame, input: uint8)
    requires ValidFrame(f) && Bit(scause, 63)
    ensures var r := TrapHandler(scause, sepc, stval, f, input);
      && !r.Resume?
      && (r.CauseFault? <==> Low(scause, 63) < 12)
      && (!r.CauseFault? ==> r == UnknownScause(scause))
  {
    InterruptBit(scause);
  }
}
