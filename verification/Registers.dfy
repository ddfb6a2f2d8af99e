/** The register files that travel between a trap, a system call and the scheduler. */
module Registers {
  import opened Bytes

  type word = x: int | 0 <= x < TWO_64

  datatype Registers = Registers(
    rip: word, rsp: word, rflags: word, rax: word, rbx: word, rcx: word, rdx: word, rsi: word, rdi: word, rbp: word,
    r8: word, r9: word, r10: word, r11: word, r12: word, r13: word, r14: word, r15: word)

  /** What a trap pushes. */
  datatype TrapFrame = TrapFrame(regs: Registers, vector: word, errorCode: word, cs: word, ss: word)

  /** A system call's view of the trapped registers. */
  datatype SyscallFrame = SyscallFrame(
    number: word, arg0: word, arg1: word, arg2: word, arg3: word, arg4: word, arg5: word, rbx: word, rcx: word, rbp: word,
    r11: word, r12: word, r13: word, r14: word, r15: word, userRip: word, userRsp: word, rflags: word)

  /** The copy exception_dispatch makes on the way in. */
  function SyscallOf(f: TrapFrame): SyscallFrame {
    var r := f.regs;
    SyscallFrame(r.rax, r.rdi, r.rsi, r.rdx, r.r10, r.r8, r.r9, r.rbx, r.rcx, r.rbp, r.r11, r.r12, r.r13, r.r14, r.r15,
                 r.rip, r.rsp, r.rflags)
  }

  /** And on the way out, with the result in rax. */
  function BackToTrap(f: TrapFrame, s: SyscallFrame, result: word): TrapFrame {
    f.(regs := Registers(s.userRip, s.userRsp, s.rflags, result, s.rbx, s.rcx, s.arg2, s.arg1, s.arg0, s.rbp,
                         s.arg4, s.arg5, s.arg3, s.r11, s.r12, s.r13, s.r14, s.r15))
  }

  /** registers_from_syscall_frame. */
  function RegistersOf(s: SyscallFrame): Registers {
    Registers(s.userRip, s.userRsp, s.rflags, 0, s.rbx, s.rcx, s.arg2, s.arg1, s.arg0, s.rbp, s.arg4, s.arg5, s.arg3,
              s.r11, s.r12, s.r13, s.r14, s.r15)
  }

  /** syscall_frame_from_registers; the call number stays. */
  function WithRegisters(s: SyscallFrame, r: Registers): SyscallFrame {
    SyscallFrame(s.number, r.rdi, r.rsi, r.rdx, r.r10, r.r8, r.r9, r.rbx, r.rcx, r.rbp, r.r11, r.r12, r.r13, r.r14, r.r15,
                 r.rip, r.rsp, r.rflags)
  }

  /** A call that changes nothing but its result gives the trap its registers back. */
  lemma PlainReturn(f: TrapFrame, result: word)
    ensures BackToTrap(f, SyscallOf(f), result) == f.(regs := f.regs.(rax := result))
  {
  }

  /** The registers a parent traps with, saved when it starts a child, come out of the child's last trap: every one of
      them, with the child's status in rax. Four copies in a row lose and exchange nothing. */
  lemma ParentResumes(parent: TrapFrame, child: TrapFrame, status: word)
    ensures BackToTrap(child, WithRegisters(SyscallOf(child), RegistersOf(SyscallOf(parent))), status)
            == child.(regs := parent.regs.(rax := status))
  {
  }
}
