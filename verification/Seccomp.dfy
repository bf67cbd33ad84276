// The system call filter: macros expand a whitelist to a BPF program, and an interpreter gives the program its meaning.
module Seccomp {

  type Word = w: int | 0 <= w < 0x1_0000_0000

  const SECCOMP_RET_KILL: Word := 0
  const SECCOMP_RET_ALLOW: Word := 0x7fff0000
  // AUDIT_ARCH_X86_64
  const ARCH_NR: Word := 0xC000003E
  // offsets in struct seccomp_data
  const SYSCALL_NR_OFFSET: nat := 0
  const ARCH_NR_OFFSET: nat := 4

  // The three instructions the macros use: load a word of the seccomp data, compare and jump forward, return.
  datatype Instruction =
    | Load(offset: nat)
    | JumpEqual(k: Word, jt: nat, jf: nat)
    | Return(k: Word)

  datatype SyscallData = SyscallData(nr: Word, arch: Word)

  datatype Outcome =
    | Running(pc: nat, accumulator: Word)
    | Returned(value: Word)
    | Fault

  function VALIDATE_ARCHITECTURE(): seq<Instruction> {
    [Load(ARCH_NR_OFFSET), JumpEqual(ARCH_NR, 1, 0), Return(SECCOMP_RET_KILL)]
  }

  function EXAMINE_SYSCALL(): seq<Instruction> {
    [Load(SYSCALL_NR_OFFSET)]
  }

  function ALLOW_SYSCALL(nr: Word): seq<Instruction> {
    [JumpEqual(nr, 0, 1), Return(SECCOMP_RET_ALLOW)]
  }

  function KILL_PROCESS(): seq<Instruction> {
    [Return(SECCOMP_RET_KILL)]
  }

  function AllowAll(whitelist: seq<Word>): (r: seq<Instruction>)
    ensures |r| == 2 * |whitelist|
  {
    if whitelist == [] then [] else ALLOW_SYSCALL(whitelist[0]) + AllowAll(whitelist[1..])
  }

  // The filter array.
  function Filter(whitelist: seq<Word>): (r: seq<Instruction>)
    ensures |r| == 5 + 2 * |whitelist|
  {
    VALIDATE_ARCHITECTURE() + EXAMINE_SYSCALL() + AllowAll(whitelist) + KILL_PROCESS()
  }

  // The program word by word: the architecture stands at offset 4 of the data and the number at offset 0, in the ABI of
  // x86-64 (0xC000003E); 0x7fff0000 allows and 0 kills.
  lemma FilterText(whitelist: seq<Word>, k: nat)
    requires k < |whitelist|
    ensures Filter(whitelist)[..4] == [Load(4), JumpEqual(0xC000003E, 1, 0), Return(0), Load(0)]
    ensures Filter(whitelist)[4 + 2 * k] == JumpEqual(whitelist[k], 0, 1)
    ensures Filter(whitelist)[5 + 2 * k] == Return(0x7fff0000)
    ensures Filter(whitelist)[4 + 2 * |whitelist|] == Return(0)
  {
    ChainText(whitelist, k);
    hide AllowAll;
  }

  lemma {:induction false} ChainText(whitelist: seq<Word>, k: nat)
    requires k < |whitelist|
    ensures AllowAll(whitelist)[2 * k] == JumpEqual(whitelist[k], 0, 1)
    ensures AllowAll(whitelist)[2 * k + 1] == Return(0x7fff0000)
  {
    if k > 0 {
      ChainText(whitelist[1..], k - 1);
    }
  }

  // One instruction. Leaving the program, or loading anything but the two words above, is a fault.
  function Step(program: seq<Instruction>, data: SyscallData, pc: nat, accumulator: Word): Outcome {
    if pc >= |program| then Fault
    else
      match program[pc]
      case Load(offset) =>
        if offset == SYSCALL_NR_OFFSET then Running(pc + 1, data.nr)
        else if offset == ARCH_NR_OFFSET then Running(pc + 1, data.arch)
        else Fault
      case JumpEqual(k, jt, jf) => Running(pc + 1 + if accumulator == k then jt else jf, accumulator)
      case Return(k) => Returned(k)
  }

  // Jumps only go forward, so a program runs for at most as many steps as it has instructions.
  function Run(program: seq<Instruction>, data: SyscallData, pc: nat, accumulator: Word): Outcome
    decreases if pc < |program| then |program| - pc else 0
  {
    match Step(program, data, pc, accumulator)
    case Running(pc', accumulator') => if pc < |program| then Run(program, data, pc', accumulator') else Fault
    case Returned(k) => Returned(k)
    case Fault => Fault
  }

  // Running from instruction `pc` on is running the rest of the program from its start.
  lemma {:induction false} RunSuffix(head: seq<Instruction>, program: seq<Instruction>, data: SyscallData, pc: nat,
      accumulator: Word)
    ensures Run(head + program, data, |head| + pc, accumulator)
            == Run(program, data, pc, accumulator)
    decreases if pc < |program| then |program| - pc else 0
  {
    if pc < |program| {
      assert (head + program)[|head| + pc] == program[pc];
      match Step(program, data, pc, accumulator) {
        case Running(pc', accumulator') => RunSuffix(head, program, data, pc', accumulator');
        case Returned(k) =>
        case Fault =>
      }
    }
  }

  // The chain of comparisons: allowed if the number in the accumulator is listed, killed otherwise.
  lemma {:induction false} ChainMeaning(whitelist: seq<Word>, data: SyscallData, accumulator: Word)
    ensures Run(AllowAll(whitelist) + KILL_PROCESS(), data, 0, accumulator)
            == Returned(if accumulator in whitelist then SECCOMP_RET_ALLOW else SECCOMP_RET_KILL)
  {
    var program := AllowAll(whitelist) + KILL_PROCESS();
    if whitelist == [] {
      assert program[0] == Return(SECCOMP_RET_KILL);
    } else {
      var head, rest := ALLOW_SYSCALL(whitelist[0]), AllowAll(whitelist[1..]) + KILL_PROCESS();
      assert program == head + rest;
      assert program[0] == head[0] && program[1] == head[1];
      if accumulator == whitelist[0] {
        assert Run(program, data, 1, accumulator) == Returned(SECCOMP_RET_ALLOW);
      } else {
        RunSuffix(head, rest, data, 0, accumulator);
        ChainMeaning(whitelist[1..], data, accumulator);
        assert accumulator in whitelist <==> accumulator in whitelist[1..];
      }
    }
  }

  // For a whitelist of any length, on any architecture and any number, the filter returns, and it returns ALLOW exactly
  // when the architecture is the expected one and the number is listed, KILL otherwise. It never faults.
  lemma FilterMeaning(whitelist: seq<Word>, data: SyscallData, accumulator: Word)
    ensures Run(Filter(whitelist), data, 0, accumulator)
            == Returned(if data.arch == ARCH_NR && data.nr in whitelist then SECCOMP_RET_ALLOW else SECCOMP_RET_KILL)
  {
    var program := Filter(whitelist);
    var head, rest := VALIDATE_ARCHITECTURE() + EXAMINE_SYSCALL(), AllowAll(whitelist) + KILL_PROCESS();
    assert program == head + rest;
    assert program[0] == Load(ARCH_NR_OFFSET) && program[1] == JumpEqual(ARCH_NR, 1, 0);
    assert program[2] == Return(SECCOMP_RET_KILL) && program[3] == Load(SYSCALL_NR_OFFSET);
    hide AllowAll;
    assert Run(program, data, 0, accumulator) == Run(program, data, 1, data.arch);
    if data.arch == ARCH_NR {
      assert Run(program, data, 1, data.arch) == Run(program, data, 3, data.arch) == Run(program, data, 4, data.nr);
      RunSuffix(head, rest, data, 0, data.nr);
      ChainMeaning(whitelist, data, data.nr);
    } else {
      assert Run(program, data, 2, data.arch) == Returned(SECCOMP_RET_KILL);
    }
  }

  // The kernel refuses programs whose jumps leave them; every jump of a filter stays inside.
  lemma {:induction false} ChainJumpsInside(whitelist: seq<Word>, i: nat)
    requires i < 2 * |whitelist| && AllowAll(whitelist)[i].JumpEqual?
    ensures var j := AllowAll(whitelist)[i]; i + 1 + j.jt <= 2 * |whitelist| && i + 1 + j.jf <= 2 * |whitelist|
  {
    if i >= 2 {
      ChainJumpsInside(whitelist[1..], i - 2);
    }
  }

  lemma JumpsStayInside(whitelist: seq<Word>, i: nat)
    requires i < |Filter(whitelist)| && Filter(whitelist)[i].JumpEqual?
    ensures var j := Filter(whitelist)[i]; i + 1 + j.jt < |Filter(whitelist)| && i + 1 + j.jf < |Filter(whitelist)|
    ensures Filter(whitelist)[|Filter(whitelist)| - 1].Return?
  {
    if 4 <= i < 4 + 2 * |whitelist| {
      assert Filter(whitelist)[i] == AllowAll(whitelist)[i - 4];
      ChainJumpsInside(whitelist, i - 4);
    }
  }

  // The order of the whitelist and repetitions in it do not matter.
  lemma OrderDoesNotMatter(list1: seq<Word>, list2: seq<Word>, data: SyscallData, accumulator: Word)
    ensures (forall nr: Word :: nr in list1 <==> nr in list2) ==>
              Run(Filter(list1), data, 0, accumulator) == Run(Filter(list2), data, 0, accumulator)
  {
    FilterMeaning(list1, data, accumulator);
    FilterMeaning(list2, data, accumulator);
  }

  // ----- The sandbox of submitProblem (system call numbers of Linux on x86-64, in the order of the array) -----

  const SANDBOX: seq<Word> := [
    0, 1, 19, 20, 3, 5, 262, 8,
    9, 10, 11, 12, 25,
    59, 60, 231,
    158, 218, 273, 334, 63, 99, 89, 318, 302, 21, 269]

  // What the solution may call on x86-64: 0 read, 1 write, 3 close, 5 fstat, 8 lseek, 9 mmap, 10 mprotect, 11 munmap,
  // 12 brk, 19 readv, 20 writev, 21 access, 25 mremap, 59 execve, 60 exit, 63 uname, 89 readlink, 99 sysinfo,
  // 158 arch_prctl, 218 set_tid_address, 231 exit_group, 262 newfstatat, 269 faccessat, 273 set_robust_list,
  // 302 prlimit64, 318 getrandom, 334 rseq.
  predicate Permitted(nr: int) {
    || 0 <= nr <= 1 || nr == 3 || nr == 5 || 8 <= nr <= 12 || 19 <= nr <= 21 || nr == 25 || 59 <= nr <= 60 || nr == 63
    || nr == 89 || nr == 99 || nr == 158 || nr == 218 || nr == 231 || nr == 262 || nr == 269 || nr == 273 || nr == 302
    || nr == 318 || nr == 334
  }

  // Exactly these calls return 0x7fff0000, which lets them go on; every other call, and every call on any other
  // architecture, returns 0, which kills the process. So fork (57), vfork (58), clone (56), open (2), openat (257),
  // socket (41), connect (42) and kill (62) are killed.
  lemma SandboxMeaning(nr: Word, arch: Word, accumulator: Word)
    ensures Run(Filter(SANDBOX), SyscallData(nr, arch), 0, accumulator)
            == Returned(if arch == 0xC000003E && Permitted(nr) then 0x7fff0000 else 0)
    ensures nr in {2, 41, 42, 56, 57, 58, 62, 257} ==> !Permitted(nr)
  {
    hide Run, Filter;
    FilterMeaning(SANDBOX, SyscallData(nr, arch), accumulator);
    SandboxIsPermitted(nr);
  }

  lemma SandboxIsPermitted(nr: Word)
    ensures nr in SANDBOX <==> Permitted(nr)
  {
  }
}
