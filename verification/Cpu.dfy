/** The processor as `switch_task` sees it: registers, a stack in memory, and the nine
    instructions of the context switch. */
module CpuModule {
  import opened Words
  import opened SchedSpec

  /** The caller of `switch_task` pushed two arguments, a fresh task's entry point did not. */
  function ArgumentBytes(eip: word): int {
    if eip == IN_YIELD || eip == IN_PREEMPT then 8 else 0
  }

  /** The context a saved stack pointer s stands for: four callee-saved registers, lowest first,
      the return address, and the stack pointer once the caller has dropped its arguments. */
  function FrameAt(m: Mem, s: int): Context {
    Context(Load(m, s + 16), Load(m, s + 12), Load(m, s + 8), Load(m, s + 4), Load(m, s),
            s + 20 + ArgumentBytes(Load(m, s + 16)))
  }

  class Cpu {
    const ram: Ram
    var eip: word
    var esp: word
    var ebp: word
    var ebx: word
    var esi: word
    var edi: word
    var eax: word

    constructor (ram: Ram)
      ensures this.ram == ram
    {
      this.ram := ram;
      eip, esp, ebp, ebx, esi, edi, eax := 0, 0, 0, 0, 0, 0, 0;
    }

    /** What the running task would come back to if it were switched out here, returning to site. */
    ghost function ContextAt(site: word): Context
      reads this
    {
      Context(site, ebp, ebx, esi, edi, esp)
    }

    method Push(v: word)
      requires esp >= 4 && Aligned(esp)
      modifies this`esp, ram
      ensures esp == old(esp) - 4
      ensures Put(old(ram.m), ram.m, esp, v)
    {
      esp := esp - 4;
      ram.Store(esp, v);
    }

    method Pop() returns (v: word)
      requires esp + 4 < U32 && Aligned(esp)
      modifies this`esp
      ensures esp == old(esp) + 4
      ensures v == Load(ram.m, old(esp))
    {
      v := Load(ram.m, esp);
      esp := esp + 4;
    }

    /** `switch_task`, entered with the return address, &old_esp and new_esp on the stack. */
    method SwitchTask()
      requires esp >= 16 && esp + 12 <= U32 && Aligned(esp)
      requires Aligned(Load(ram.m, esp + 4)) && Aligned(Load(ram.m, esp + 8))
      requires Load(ram.m, esp + 4) < esp - 16 || Load(ram.m, esp + 4) >= esp + 12
      requires Load(ram.m, esp + 8) + 20 < U32
      modifies this, ram
      ensures var e, m := old(esp), old(ram.m);
              && Pushed(m, ram.m, e, old(ebp), old(ebx), old(esi), old(edi), Load(m, e + 4))
              && Resumes(Load(m, e + 8))
    {
      PushRegisters();
      eax := Load(ram.m, esp + 20);
      ram.Store(eax, esp);
      esp := Load(ram.m, esp + 24);
      PopRegisters();
      eip := Pop();
    }

    /** `push ebp`, `push ebx`, `push esi`, `push edi`. */
    method PushRegisters()
      requires esp >= 16 && Aligned(esp)
      modifies `esp, ram
      ensures var e := old(esp);
              && esp == e - 16
              && Load(ram.m, e - 4) == ebp && Load(ram.m, e - 8) == ebx
              && Load(ram.m, e - 12) == esi && Load(ram.m, e - 16) == edi
              && forall x {:trigger Load(ram.m, x)} ::
                   x != e - 4 && x != e - 8 && x != e - 12 && x != e - 16 ==> Load(ram.m, x) == Load(old(ram.m), x)
    {
      Push(ebp);
      Push(ebx);
      Push(esi);
      Push(edi);
    }

    /** `pop edi`, `pop esi`, `pop ebx`, `pop ebp`. */
    method PopRegisters()
      requires esp + 16 < U32 && Aligned(esp)
      modifies `esp, `edi, `esi, `ebx, `ebp
      ensures var s := old(esp);
              && esp == s + 16
              && edi == Load(ram.m, s) && esi == Load(ram.m, s + 4)
              && ebx == Load(ram.m, s + 8) && ebp == Load(ram.m, s + 12)
    {
      edi := Pop();
      esi := Pop();
      ebx := Pop();
      ebp := Pop();
    }

    /** The registers are those of the frame saved at s, and that frame is off the stack. */
    ghost predicate Resumes(s: int)
      reads this, ram
    {
      && eip == Load(ram.m, s + 16) && ebp == Load(ram.m, s + 12) && ebx == Load(ram.m, s + 8)
      && esi == Load(ram.m, s + 4) && edi == Load(ram.m, s) && esp == s + 20
    }
  }

  /** n is m with four registers pushed below e and the new stack pointer stored in cell. */
  ghost predicate Pushed(m: Mem, n: Mem, e: int, ebp: word, ebx: word, esi: word, edi: word, cell: int) {
    && Load(n, e - 4) == ebp && Load(n, e - 8) == ebx && Load(n, e - 12) == esi && Load(n, e - 16) == edi
    && Load(n, cell) == e - 16
    && forall x {:trigger Load(n, x)} ::
         x != cell && x != e - 4 && x != e - 8 && x != e - 12 && x != e - 16 ==> Load(n, x) == Load(m, x)
  }
}
