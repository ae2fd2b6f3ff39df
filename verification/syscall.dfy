/** The shared system-call numbering of common/src/lib.rs. The kernel does
    not use it: its dispatch in kernel/src/trap.rs expects the shell's
    numbering (module ShellSyscall), and the two disagree on putchar. */
module CommonSyscall {
  import opened Bits
  import opened Wrappers
  import Trap

  datatype Syscall = Putchar | Getchar | Exit

  /** `Into<u64>`: PUTCHAR is 1, GETCHAR 2, EXIT 3. */
  function Into(s: Syscall): (r: uint64)
    ensures 1 <= r <= 3
    ensures s.Putchar? <==> r == 1
    ensures s.Getchar? <==> r == 2
    ensures s.Exit? <==> r == 3
  {
    match s
    case Putchar => 1
    case Getchar => 2
    case Exit => 3
  }

  /** `TryFrom<u64>`: the inverse of `Into`, handing back any other number
      as the error. */
  function TryFrom(v: uint64): (r: Result<Syscall, uint64>)
    ensures r.Ok? <==> 1 <= v <= 3
    ensures r.Ok? ==> Into(r.value) == v
    ensures r.Err? ==> r.error == v
  {
    match v
    case 1 => Ok(Putchar)
    case 2 => Ok(Getchar)
    case 3 => Ok(Exit)
    case _ => Err(v)
  }

  /** Decoding an encoded call gives the call back. */
  lemma RoundTrip(s: Syscall)
    ensures TryFrom(Into(s)) == Ok(s)
  {
  }

  /** A call numbered this way reaches the kernel's dispatcher with a
      different meaning: PUTCHAR (1) is an unknown system call there, EXIT
      (3) is served as putchar, and only GETCHAR (2) agrees. */
  lemma KernelDisagrees()
    ensures Into(Putchar) != Trap.SYS_PUTCHAR && Into(Putchar) != Trap.SYS_GETCHAR
    ensures Into(Exit) == Trap.SYS_PUTCHAR
    ensures Into(Getchar) == Trap.SYS_GETCHAR
  {
  }
}

/** The shell's system-call stubs, shell/src/syscall.rs: the numbering, the
    registers the `ecall` carries and the shaping of the result. */
module ShellSyscall {
  import opened Bits
  import opened Wrappers
  import opened Trap

  datatype Syscall = Putchar | Getchar

  /** `Into<u64>`: PUTCHAR is 3 and GETCHAR 2, the kernel's numbers. */
  function Into(s: Syscall): (r: uint64)
    ensures s.Putchar? <==> r == SYS_PUTCHAR
    ensures s.Getchar? <==> r == SYS_GETCHAR
  {
    match s
    case Putchar => 3
    case Getchar => 2
  }

  /** Distinct calls get distinct numbers. */
  lemma IntoInjective(a: Syscall, b: Syscall)
    ensures Into(a) == Into(b) <==> a == b
  {
  }

  /** The frame the kernel saves for `syscall(arg0, arg1, arg2, sysno)`:
      the arguments in `a0`, `a1`, `a2` (`x10` to `x12`) and the number in
      `a3` (`x13`); the other registers are whatever the caller had. */
  function CallFrame(f: TrapFrame, arg0: uint64, arg1: uint64, arg2: uint64, sysno: Syscall): (r: TrapFrame)
    requires ValidFrame(f)
    ensures ValidFrame(r) && r.sp == f.sp
    ensures X(r, 10) == arg0 && X(r, 11) == arg1 && X(r, 12) == arg2 && X(r, 13) == Into(sysno)
    ensures forall k | 1 <= k <= 31 && !(10 <= k <= 13) :: X(r, k) == X(f, k)
  {
    f.(regs := f.regs[9 := arg0][10 := arg1][11 := arg2][12 := Into(sysno)])
  }

  /** `putchar(ch)`: the byte zero-extended in `a0`, zeros in `a1` and
      `a2`, the number in `a3`. */
  function PutcharFrame(f: TrapFrame, ch: uint8): TrapFrame
    requires ValidFrame(f)
  {
    CallFrame(f, ch, 0, 0, Putchar)
  }

  /** `getchar()`: zeros in `a0` to `a2`, the number in `a3`. */
  function GetcharFrame(f: TrapFrame): TrapFrame
    requires ValidFrame(f)
  {
    CallFrame(f, 0, 0, 0, Getchar)
  }

  /** The `as u8` on the returned `a0`: its low eight bits. */
  function GetcharResult(a0: uint64): (r: uint8)
    ensures r == a0 % 256
    ensures a0 < 256 ==> r == a0
  {
    a0 % 256
  }

  /** The kernel serves the shell's putchar: the byte is written to the
      console and the shell resumes after its `ecall` with its registers
      as they were. */
  lemma PutcharServed(f: TrapFrame, ch: uint8, pc: uint64, stval: uint64, input: uint8)
    requires ValidFrame(f) && pc + ECALL_LEN < WORD_MODULUS
    ensures TrapHandler(ECALL_FROM_U, pc, stval, PutcharFrame(f, ch), input)
      == Resume(PutcharFrame(f, ch), pc + ECALL_LEN, Some(ch))
  {
  }

  /** The kernel serves the shell's getchar: the shell resumes with the
      character the console gave in `a0`, and its result is that
      character. */
  lemma GetcharServed(f: TrapFrame, pc: uint64, stval: uint64, input: uint8)
    requires ValidFrame(f) && pc + ECALL_LEN < WORD_MODULUS
    ensures var r := TrapHandler(ECALL_FROM_U, pc, stval, GetcharFrame(f), input);
      && r.Resume? && r.sepc == pc + ECALL_LEN && r.output.None?
      && GetcharResult(X(r.frame, 10)) == input
  {
  }
}
