/** arch/x86/context.c: the saved context of a thread and the interrupt frame it is copied from and to.

    The frame starts at the stack top handed to __context_save. Its words 0 to 16 are the registers pushed by
    context_save, word 17 is that routine's own return address, and words 18 to 22 are pushed by the processor. */
module Context {

  const REGISTERS := 22
  const RETURN_SLOT := 17
  const FRAME := 23
  const RAX := 0

  type Frame = f: seq<int> | |f| >= FRAME witness seq(FRAME, _ => 0)

  /** The words of a context_t. */
  type Registers = r: seq<int> | |r| == REGISTERS witness seq(REGISTERS, _ => 0)

  /** The registers in a frame, in the order of context_t. */
  ghost function Regs(frame: Frame): Registers {
    frame[..RETURN_SLOT] + frame[RETURN_SLOT + 1..FRAME]
  }

  /** The frame with its registers replaced and every other word kept. */
  ghost function Restored(frame: Frame, regs: Registers): Frame {
    seq(|frame|, i requires 0 <= i < |frame| =>
      if i < RETURN_SLOT then regs[i] else if RETURN_SLOT < i < FRAME then regs[i - 1] else frame[i])
  }

  /** Loading puts back what was saved, in whatever frame, and touches neither the return address nor the
      words above the frame. */
  lemma LoadInvertsSave(frame: Frame, regs: Registers)
    ensures Regs(Restored(frame, regs)) == regs
    ensures Restored(frame, Regs(frame)) == frame
    ensures Restored(frame, regs)[RETURN_SLOT] == frame[RETURN_SLOT]
    ensures Restored(frame, regs)[FRAME..] == frame[FRAME..]
  {
  }

  // ----- What the words are -----

  /** The registers of an interrupted thread, in the order of context_t. */
  datatype Cpu = Cpu(rax: int, rcx: int, rdx: int, rbx: int, rbp: int, rsi: int, rdi: int,
                     r8: int, r9: int, r10: int, r11: int, r12: int, r13: int, r14: int, r15: int,
                     fs: int, gs: int, rip: int, cs: int, rflags: int, rsp: int, ss: int)

  /** The stack in an interrupt handler when context_save has pushed its registers, the last word pushed first. The
      processor pushed SS, RSP, RFLAGS, CS and RIP; the call of context_save pushed `ret`; GS and FS, R15 to R8, RDI,
      RSI, RBP, RBX, RDX, RCX and RAX followed. */
  ghost function Stack(cpu: Cpu, ret: int, rest: seq<int>): Frame {
    var pushed := [cpu.rip, cpu.cs, cpu.rflags, cpu.rsp, cpu.ss] + rest;
    [ cpu.rax, cpu.rcx, cpu.rdx, cpu.rbx, cpu.rbp, cpu.rsi, cpu.rdi,
      cpu.r8, cpu.r9, cpu.r10, cpu.r11, cpu.r12, cpu.r13, cpu.r14, cpu.r15, cpu.fs, cpu.gs ] + [ret] + pushed
  }

  /** What the pops of context_load take from the stack, from RAX to GS, and what iretq takes behind the return
      address. */
  ghost function Popped(f: Frame): Cpu {
    Cpu(f[0], f[1], f[2], f[3], f[4], f[5], f[6], f[7], f[8], f[9], f[10], f[11], f[12], f[13], f[14],
        f[15], f[16], f[18], f[19], f[20], f[21], f[22])
  }

  /** The fields of a context_t. */
  ghost function Fields(r: Registers): Cpu {
    Cpu(r[0], r[1], r[2], r[3], r[4], r[5], r[6], r[7], r[8], r[9], r[10], r[11], r[12], r[13], r[14],
        r[15], r[16], r[17], r[18], r[19], r[20], r[21])
  }

  lemma StackPops(cpu: Cpu, ret: int, rest: seq<int>)
    ensures var f := Stack(cpu, ret, rest); Popped(f) == cpu && f[17] == ret && f[23..] == rest
  {
  }

  /** A frame is the stack of its parts. */
  lemma StackOfParts(f: Frame)
    ensures f == Stack(Popped(f), f[17], f[23..])
  {
    var g := Stack(Popped(f), f[17], f[23..]);
    StackPops(Popped(f), f[17], f[23..]);
    SameParts(f, g);
  }

  lemma SameParts(f: Frame, g: Frame)
    requires Popped(f) == Popped(g) && f[17] == g[17] && f[23..] == g[23..]
    ensures f == g
  {
    assert |f[23..]| == |g[23..]|;
    forall i | 23 <= i < |f| ensures f[i] == g[i] {
      assert f[i] == f[23..][i - 23] == g[23..][i - 23];
    }
  }

  /** Saving puts every register of the interrupted thread into its field. */
  lemma SavedFields(f: Frame)
    ensures Fields(Regs(f)) == Popped(f)
  {
  }

  /** Loading leaves on the stack what makes context_load and iretq resume with the fields of the context, and the
      return address of context_load in its place between them. */
  lemma LoadedFields(f: Frame, regs: Registers)
    ensures Restored(f, regs) == Stack(Fields(regs), f[17], f[23..])
  {
    var g := Restored(f, regs);
    assert g[23..] == f[23..];
    assert Popped(g) == Fields(regs);
    StackOfParts(g);
  }

  /** The word a system call's result is stored to is RAX. */
  lemma ResultField(regs: Registers, value: int)
    ensures Fields(regs[RAX := value]) == Fields(regs).(rax := value)
  {
  }
}
