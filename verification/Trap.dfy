/** The exception entry path: what the CPU pushes, the 256 stubs, the common entry code, and the return.
    Stack words and registers are plain integers: nothing on this path computes with them except for
    the stack pointer, which is taken not to run below address 0. */
module Trap {
  type Reg = r: nat | r < 15

  // General registers, numbered by their place in `trapframe_t`.
  const RAX: Reg := 0
  const RCX: Reg := 1
  const RDX: Reg := 2
  const RBX: Reg := 3
  const RBP: Reg := 4
  const RSI: Reg := 5
  const RDI: Reg := 6
  const R8: Reg := 7
  const R9: Reg := 8
  const R10: Reg := 9
  const R11: Reg := 10
  const R12: Reg := 11
  const R13: Reg := 12
  const R14: Reg := 13
  const R15: Reg := 14

  // The other fields of `trapframe_t`, as word offsets.
  const TF_VECTOR: nat := 15
  const TF_ERR: nat := 16
  const TF_RIP: nat := 17
  const TF_CS: nat := 18
  const TF_RFLAGS: nat := 19
  const TF_RSP: nat := 20
  const TF_SS: nat := 21

  const CS_SEL: int := 8

  type Gprs = g: seq<int> | |g| == 15 witness [0, 0, 0, 0, 0, 0, 0, 0, 0, 0, 0, 0, 0, 0, 0]
  type Stack = map<int, int>

  /** Entry points by vector, as the interrupt descriptor table gives them. */
  type Entries = e: seq<int> | |e| == 256 witness seq(256, _ => 0)

  type Vector = v: nat | v < 256

  datatype Cpu = Cpu(gpr: Gprs, rsp: int, rip: int, rflags: int, cs: int, ss: int, stack: Stack)

  datatype Instr = PushImm(value: int) | Push(reg: Reg) | Pop(reg: Reg) | MovRspToRdi | AddRsp(n: nat) | Iretq

  function Load(stack: Stack, addr: int): (r: int) { if addr in stack then stack[addr] else 0 }

  function PushWord(s: Cpu, w: int): (r: Cpu) { s.(rsp := s.rsp - 8, stack := s.stack[s.rsp - 8 := w]) }

  function SetReg(g: Gprs, r: Reg, w: int): (result: Gprs) { g[r := w] }

  function Exec(s: Cpu, i: Instr): (r: Cpu)
  {
    match i
    case PushImm(v) => PushWord(s, v)
    case Push(r) => PushWord(s, s.gpr[r])
    case Pop(r) => s.(gpr := SetReg(s.gpr, r, Load(s.stack, s.rsp)), rsp := s.rsp + 8)
    case MovRspToRdi => s.(gpr := SetReg(s.gpr, RDI, s.rsp))
    case AddRsp(n) => s.(rsp := s.rsp + n)
    case Iretq =>
      s.(rip := Load(s.stack, s.rsp), cs := Load(s.stack, s.rsp + 8), rflags := Load(s.stack, s.rsp + 16),
         rsp := Load(s.stack, s.rsp + 24), ss := Load(s.stack, s.rsp + 32))
  }

  function Run(s: Cpu, code: seq<Instr>): (r: Cpu)
    decreases |code|
  {
    if code == [] then s else Run(Exec(s, code[0]), code[1..])
  }

  // ----- The code of exception.S -----

  /** The stubs that expect an error code from the CPU. */
  predicate ErrorVector(v: nat) { v == 8 || 10 <= v <= 14 || v == 17 }

  function Stub(v: Vector): (r: seq<Instr>)
  {
    if ErrorVector(v) then [PushImm(v)] else [PushImm(0), PushImm(v)]
  }

  /** `common_exception_entry` up to the call. */
  const SAVE: seq<Instr> :=
    [Push(R15), Push(R14), Push(R13), Push(R12), Push(R11), Push(R10), Push(R9), Push(R8),
     Push(RDI), Push(RSI), Push(RBP), Push(RBX), Push(RDX), Push(RCX), Push(RAX), MovRspToRdi]

  /** `common_exception_entry` after the call. */
  const RESTORE: seq<Instr> :=
    [Pop(RAX), Pop(RCX), Pop(RDX), Pop(RBX), Pop(RBP), Pop(RSI), Pop(RDI), Pop(R8), Pop(R9),
     Pop(R10), Pop(R11), Pop(R12), Pop(R13), Pop(R14), Pop(R15), AddRsp(16), Iretq]

  // ----- Delivery by the CPU -----

  function ClearBit(x: int, bit: int): (r: int)
    requires bit > 0
  {
    if x / bit % 2 == 1 then x - bit else x
  }

  /** RFLAGS behind an interrupt gate: IF, TF, NT and RF are clear. */
  function GateFlags(rflags: int): (r: int)
  {
    ClearBit(ClearBit(ClearBit(ClearBit(rflags, 0x200), 0x100), 0x4000), 0x1_0000)
  }

  function AlignDown(a: int): (r: int) { a - a % 16 }

  /** Delivery through a 64-bit interrupt gate at unchanged privilege (AMD64 Architecture Programmer's
      Manual, Volume 2, section 8.9): the stack is aligned, five words are pushed, and the error code
      too for the exceptions that have one. */
  function Deliver(s: Cpu, entry: int, hasCode: bool, code: int): (r: Cpu)
  {
    var s0 := s.(rsp := AlignDown(s.rsp));
    var s5 := PushWord(PushWord(PushWord(PushWord(PushWord(s0, s.ss), s.rsp), s.rflags), s.cs), s.rip);
    var s6 := if hasCode then PushWord(s5, code) else s5;
    s6.(rip := entry, cs := CS_SEL, rflags := GateFlags(s.rflags))
  }

  // ----- Handlers and whole traps -----

  datatype Option<T> = None | Some(value: T)

  /** What happens while a handler runs.  Compute: the handler's code between two traps leaves arbitrary
      registers and flags, its stack pointer somewhere below its frame, and arbitrary words there.
      Nested: another trap is taken at this point. */
  datatype Action =
    | Compute(gpr: Gprs, rip: int, rflags: int, drop: nat, writes: seq<(nat, int)>)
    | Nested(trap: Trap)

  /** What happens at an instruction boundary of the entry and exit code: the next instruction executes,
      or another trap is taken first (a non-maskable interrupt, a machine check, a fault on the stack). */
  datatype Moment = Step | Take(trap: Trap)

  /** One trap: the vector, whether the CPU pushed an error code and which, the moments of the entry code,
      what happens in the handler, the moments of the exit code, and the value the handler stores to
      `tf->rip`, if any. */
  datatype Trap = Trap(vector: Vector, hasCode: bool, code: int, entry: seq<Moment>, body: seq<Action>, exit: seq<Moment>,
                       setRip: Option<int>)

  /** A trap without nested ones, whose handler stores nothing. */
  function Plain(v: Vector, hasCode: bool, code: int): (t: Trap) { Trap(v, hasCode, code, [], [], [], None) }

  /** Words stored at or below an address. */
  function Scribble(stack: Stack, top: int, writes: seq<(nat, int)>): (r: Stack)
    decreases |writes|
  {
    if writes == [] then stack
    else Scribble(stack[top - writes[0].0 := writes[0].1], top, writes[1..])
  }

  /** The code up to the call, which pushes a return address; 0 stands for it. */
  function EntryCode(v: Vector): (code: seq<Instr>) { Stub(v) + SAVE + [PushImm(0)] }

  /** State at the call when nothing interrupts the entry code: the frame pointer is in rdi and the return
      address has been pushed. */
  function CalmAtCall(idt: Entries, s: Cpu, t: Trap): (c: Cpu)
  {
    PushWord(Run(Deliver(s, idt[t.vector], t.hasCode, t.code), Stub(t.vector) + SAVE), 0)
  }

  /** Straight-line code with traps taken at instruction boundaries; once the script is used up, the rest
      of the code runs undisturbed. */
  function RunScript(idt: Entries, s: Cpu, code: seq<Instr>, script: seq<Moment>): (r: Cpu)
    decreases script, 1
  {
    if code == [] then s
    else if script == [] then Run(s, code)
    else if script[0].Step? then RunScript(idt, Exec(s, code[0]), code[1..], script[1..])
    else RunScript(idt, RunMoment(idt, s, script[0]), code, script[1..])
  }

  /** The trap of a moment, if it has one. */
  function RunMoment(idt: Entries, s: Cpu, moment: Moment): (r: Cpu)
    decreases moment, 0
  {
    match moment
    case Step => s
    case Take(t) => RunTrap(idt, s, t)
  }

  function AtCall(idt: Entries, s: Cpu, t: Trap): (c: Cpu)
    decreases t, 1
  {
    RunScript(idt, Deliver(s, idt[t.vector], t.hasCode, t.code), EntryCode(t.vector), t.entry)
  }

  function FrameOf(idt: Entries, s: Cpu, t: Trap): (tf: int)
    decreases t, 2
  {
    AtCall(idt, s, t).rsp + 8
  }

  function RunAction(idt: Entries, s: Cpu, frame: int, a: Action): (r: Cpu)
    decreases a, 0
  {
    match a
    case Compute(gpr, rip, rflags, drop, writes) =>
      s.(gpr := gpr, rip := rip, rflags := rflags, rsp := frame - 8 - drop, stack := Scribble(s.stack, frame - 16, writes))
    case Nested(t) => RunTrap(idt, s, t)
  }

  function RunBody(idt: Entries, s: Cpu, frame: int, body: seq<Action>): (r: Cpu)
    decreases body, 1
  {
    if body == [] then s else RunBody(idt, RunAction(idt, s, frame, body[0]), frame, body[1..])
  }

  /** The handler's stores to the frame, and its return. */
  function Return(s: Cpu, frame: int, setRip: Option<int>): (r: Cpu)
  {
    s.(rsp := frame, stack := if setRip.Some? then s.stack[frame + 8 * TF_RIP := setRip.value] else s.stack)
  }

  /** A whole trap, from the interrupted instruction to the instruction after `iretq`. */
  function RunTrap(idt: Entries, s: Cpu, t: Trap): (r: Cpu)
    decreases t, 3
  {
    var body := RunBody(idt, AtCall(idt, s, t), FrameOf(idt, s, t), t.body);
    RunScript(idt, Return(body, FrameOf(idt, s, t), t.setRip), RESTORE, t.exit)
  }

  // ----- Straight-line code -----

  lemma {:induction false} RunConcat(s: Cpu, a: seq<Instr>, b: seq<Instr>)
    ensures Run(s, a + b) == Run(Run(s, a), b)
    decreases |a|
  {
    hide Exec;
    if a == [] {
      assert a + b == b;
    } else {
      RunConcat(Exec(s, a[0]), a[1..], b);
      assert (a + b)[1..] == a[1..] + b;
    }
  }

  lemma RunLast(s: Cpu, code: seq<Instr>, j: nat)
    requires j < |code|
    ensures Run(s, code[..j + 1]) == Exec(Run(s, code[..j]), code[j])
  {
    hide Exec;
    assert code[..j + 1] == code[..j] + [code[j]];
    RunConcat(s, code[..j], [code[j]]);
    assert [code[j]][1..] == [];
  }

  lemma SaveOrder(i: nat)
    requires i < 15
    ensures SAVE[i] == Push(14 - i) && RESTORE[i] == Pop(i)
  {
  }

  /** r is s with its registers 15-j to 14 pushed, the last one first. */
  ghost predicate Pushed(s: Cpu, r: Cpu, j: nat)
  {
    && r == s.(rsp := s.rsp - 8 * j, stack := r.stack)
    && (forall k: nat :: 15 - j <= k < 15 ==> Load(r.stack, s.rsp - 120 + 8 * k) == s.gpr[k])
    && (forall a :: a >= s.rsp ==> Load(r.stack, a) == Load(s.stack, a))
  }

  lemma PushOneMore(s: Cpu, r: Cpu, j: nat)
    requires 1 <= j <= 15 && Pushed(s, r, j - 1)
    ensures Pushed(s, PushWord(r, s.gpr[15 - j]), j)
  {
  }

  /** The first j pushes of the common entry. */
  lemma {:induction false} Pushes(s: Cpu, j: nat)
    requires j <= 15
    ensures Pushed(s, Run(s, SAVE[..j]), j)
  {
    if j == 0 {
      assert SAVE[..0] == [];
    } else {
      Pushes(s, j - 1);
      RunLast(s, SAVE, j - 1);
      SaveOrder(j - 1);
      hide Run, SAVE;
      assert Run(s, SAVE[..j - 1]).gpr == s.gpr;
      hide Pushed, PushWord;
      PushOneMore(s, Run(s, SAVE[..j - 1]), j);
    }
  }

  /** The first j pops of the common exit. */
  lemma {:induction false} Pops(s: Cpu, j: nat)
    requires j <= 15
    ensures var r := Run(s, RESTORE[..j]);
            && r == s.(gpr := r.gpr, rsp := s.rsp + 8 * j)
            && (forall i: nat :: i < j ==> r.gpr[i] == Load(s.stack, s.rsp + 8 * i))
  {
    if j == 0 {
      assert RESTORE[..0] == [];
    } else {
      Pops(s, j - 1);
      RunLast(s, RESTORE, j - 1);
      SaveOrder(j - 1);
      hide Run;
      var before, r := Run(s, RESTORE[..j - 1]), Run(s, RESTORE[..j]);
      assert r == Exec(before, Pop(j - 1));
    }
  }

  lemma SaveEffect(s: Cpu)
    ensures var r := Run(s, SAVE);
            && r.rsp == s.rsp - 120 && r.gpr[RDI] == r.rsp
            && (forall k: nat :: k < 15 ==> Load(r.stack, r.rsp + 8 * k) == s.gpr[k])
            && (forall a :: a >= s.rsp ==> Load(r.stack, a) == Load(s.stack, a))
  {
    Pushes(s, 15);
    RunLast(s, SAVE, 15);
    assert SAVE[..16] == SAVE;
    hide Run;
    assert Run(s, SAVE) == Exec(Run(s, SAVE[..15]), MovRspToRdi);
  }

  lemma RestoreEffect(s: Cpu)
    ensures var r := Run(s, RESTORE);
            && (forall k: nat :: k < 15 ==> r.gpr[k] == Load(s.stack, s.rsp + 8 * k))
            && r.rip == Load(s.stack, s.rsp + 8 * TF_RIP) && r.cs == Load(s.stack, s.rsp + 8 * TF_CS)
            && r.rflags == Load(s.stack, s.rsp + 8 * TF_RFLAGS) && r.rsp == Load(s.stack, s.rsp + 8 * TF_RSP)
            && r.ss == Load(s.stack, s.rsp + 8 * TF_SS) && r.stack == s.stack
  {
    Pops(s, 15);
    RunLast(s, RESTORE, 15);
    RunLast(s, RESTORE, 16);
    assert RESTORE[..17] == RESTORE;
    hide Run;
    var p := Run(s, RESTORE[..15]);
    assert Run(s, RESTORE) == Exec(Exec(p, AddRsp(16)), Iretq);
  }

  // ----- The frame the handler sees -----

  /** The vectors for which the CPU pushes an error code (AMD64 Architecture Programmer's Manual, Volume 2,
      sections 8.2 and 8.4); 21, 29 and 30 are exceptions of newer processors only. */
  predicate CpuPushesCode(v: nat, newer: bool)
  {
    v == 8 || v == 10 || v == 11 || v == 12 || v == 13 || v == 14 || v == 17 || (newer && (v == 21 || v == 29 || v == 30))
  }

  /** The stubs expect an error code exactly for the vectors of older processors. */
  lemma StubsAgree(v: Vector)
    ensures ErrorVector(v) == CpuPushesCode(v, false)
    ensures v != 21 && v != 29 && v != 30 ==> CpuPushesCode(v, true) == CpuPushesCode(v, false)
    ensures Stub(v) == if CpuPushesCode(v, false) then [PushImm(v)] else [PushImm(0), PushImm(v)]
  {
  }

  /** The trap has an error code as the CPU gives it; 21, 29 and 30 come without one. */
  predicate Matching(t: Trap) { t.hasCode == CpuPushesCode(t.vector, false) }

  /** The frame at tf holds the registers and the return state of s, each at its offset. */
  ghost predicate FrameHolds(stack: Stack, tf: int, s: Cpu)
  {
    && (forall k: nat :: k < 15 ==> Load(stack, tf + 8 * k) == s.gpr[k])
    && Load(stack, tf + 8 * TF_RIP) == s.rip && Load(stack, tf + 8 * TF_CS) == s.cs
    && Load(stack, tf + 8 * TF_RFLAGS) == s.rflags && Load(stack, tf + 8 * TF_RSP) == s.rsp
    && Load(stack, tf + 8 * TF_SS) == s.ss
  }

  /** The frame left by entry code that nothing interrupts. */
  ghost predicate FrameComplete(stack: Stack, tf: int, s: Cpu, t: Trap)
  {
    && FrameHolds(stack, tf, s)
    && Load(stack, tf + 8 * TF_VECTOR) == t.vector
    && Load(stack, tf + 8 * TF_ERR) == (if t.hasCode then t.code else 0)
    && (forall a :: a >= AlignDown(s.rsp) ==> Load(stack, a) == Load(s.stack, a))
  }

  lemma CalmFrame(idt: Entries, s: Cpu, t: Trap)
    requires Matching(t)
    ensures var c := CalmAtCall(idt, s, t);
            var tf := c.rsp + 8;
            && tf == AlignDown(s.rsp) - 176 && tf % 16 == 0 && c.gpr[RDI] == tf && FrameComplete(c.stack, tf, s, t)
  {
    StubsAgree(t.vector);
    hide Deliver, Run, Stub, SAVE, CalmAtCall, Load, PushWord, GateFlags, ErrorVector, CpuPushesCode;
    var d := Deliver(s, idt[t.vector], t.hasCode, t.code);
    var u := Run(d, Stub(t.vector));
    DeliverEffect(s, idt[t.vector], t.hasCode, t.code);
    StubEffect(d, t.vector);
    SaveEffect(u);
    CalmSplit(idt, s, t);
  }

  lemma CalmSplit(idt: Entries, s: Cpu, t: Trap)
    ensures var u := Run(Run(Deliver(s, idt[t.vector], t.hasCode, t.code), Stub(t.vector)), SAVE);
            && CalmAtCall(idt, s, t) == PushWord(u, 0)
            && CalmAtCall(idt, s, t).gpr == u.gpr && CalmAtCall(idt, s, t).rsp == u.rsp - 8
            && (forall a :: a >= u.rsp ==> Load(CalmAtCall(idt, s, t).stack, a) == Load(u.stack, a))
  {
    hide Deliver, Run, Stub, SAVE;
    RunConcat(Deliver(s, idt[t.vector], t.hasCode, t.code), Stub(t.vector), SAVE);
  }

  /** The entry code in one piece, the call included. */
  lemma CalmIsEntryCode(idt: Entries, s: Cpu, t: Trap)
    ensures CalmAtCall(idt, s, t) == Run(Deliver(s, idt[t.vector], t.hasCode, t.code), EntryCode(t.vector))
  {
    hide Deliver, Run, Stub, SAVE, PushWord;
    var d := Deliver(s, idt[t.vector], t.hasCode, t.code);
    RunConcat(d, Stub(t.vector) + SAVE, [PushImm(0)]);
    RunOne(Run(d, Stub(t.vector) + SAVE), PushImm(0));
    PushIs(Run(d, Stub(t.vector) + SAVE));
  }

  lemma PushIs(s: Cpu)
    ensures Exec(s, PushImm(0)) == PushWord(s, 0)
  {
  }

  lemma CalmSplitIs(idt: Entries, s: Cpu, v: Vector, hasCode: bool, code: int)
    ensures CalmAtCall(idt, s, Plain(v, hasCode, code)) == PushWord(Run(Deliver(s, idt[v], hasCode, code), Stub(v) + SAVE), 0)
  {
    hide Run, Stub, SAVE, Deliver;
  }

  lemma PlainIsCalm(idt: Entries, s: Cpu, v: Vector, hasCode: bool, code: int)
    ensures var t := Plain(v, hasCode, code);
            AtCall(idt, s, t) == CalmAtCall(idt, s, t) && FrameOf(idt, s, t) == CalmAtCall(idt, s, t).rsp + 8
    ensures hasCode == CpuPushesCode(v, false) ==> AllMatching(Plain(v, hasCode, code))
  {
    hide Deliver, Run, Stub, SAVE, CalmAtCall, CpuPushesCode;
    CalmIsEntryCode(idt, s, Plain(v, hasCode, code));
  }

  /** What a stub leaves: the vector on top, and an error code or a 0 below it. */
  lemma StubEffect(d: Cpu, v: Vector)
    ensures var u := Run(d, Stub(v));
            && u.gpr == d.gpr && u.rsp == d.rsp - (if ErrorVector(v) then 8 else 16)
            && Load(u.stack, u.rsp) == v && (!ErrorVector(v) ==> Load(u.stack, u.rsp + 8) == 0)
            && (forall a :: a >= d.rsp ==> Load(u.stack, a) == Load(d.stack, a))
  {
    if ErrorVector(v) {
      RunOne(d, PushImm(v));
    } else {
      RunConcat(d, [PushImm(0)], [PushImm(v)]);
      assert [PushImm(0)] + [PushImm(v)] == [PushImm(0), PushImm(v)];
      RunOne(d, PushImm(0));
      RunOne(PushWord(d, 0), PushImm(v));
    }
    hide Run;
  }

  lemma RunOne(s: Cpu, i: Instr)
    ensures Run(s, [i]) == Exec(s, i)
  {
    hide Exec;
    assert [i][1..] == [];
    assert Run(s, [i]) == Run(Exec(s, i), []);
  }

  lemma DeliverEffect(s: Cpu, entry: int, hasCode: bool, code: int)
    ensures var d := Deliver(s, entry, hasCode, code);
            var a := AlignDown(s.rsp);
            && d.gpr == s.gpr && d.rsp == a - (if hasCode then 48 else 40)
            && Load(d.stack, a - 8) == s.ss && Load(d.stack, a - 16) == s.rsp && Load(d.stack, a - 24) == s.rflags
            && Load(d.stack, a - 32) == s.cs && Load(d.stack, a - 40) == s.rip
            && (hasCode ==> Load(d.stack, a - 48) == code)
            && (forall b :: b >= a ==> Load(d.stack, b) == Load(s.stack, b))
  {
    hide GateFlags;
  }

  // ----- Round trip -----

  /** r is s resumed at rip: registers, flags and segments as before, and the stack intact from the
      interrupted stack pointer (rounded down to 16 bytes) up. */
  ghost predicate Resumed(s: Cpu, r: Cpu, rip: int)
  {
    && r.gpr == s.gpr && r.rsp == s.rsp && r.rflags == s.rflags && r.cs == s.cs && r.ss == s.ss && r.rip == rip
    && forall a :: a >= AlignDown(s.rsp) ==> Load(r.stack, a) == Load(s.stack, a)
  }

  /** Every trap of a nested run matches its stub, and those taken inside entry and exit code return to
      where they were taken. */
  predicate AllMatching(t: Trap)
    decreases t, 1
  {
    Matching(t) && HarmlessScript(t.entry) && AllMatchingIn(t.body) && HarmlessScript(t.exit)
  }

  predicate HarmlessScript(script: seq<Moment>)
    decreases script, 0
  {
    script == [] || (HarmlessMoment(script[0]) && HarmlessScript(script[1..]))
  }

  predicate HarmlessMoment(moment: Moment)
    decreases moment, 2
  {
    match moment
    case Step => true
    case Take(t) => AllMatching(t) && t.setRip.None?
  }

  predicate AllMatchingIn(body: seq<Action>)
    decreases body, 0
  {
    body == [] || (MatchingAction(body[0]) && AllMatchingIn(body[1..]))
  }

  predicate MatchingAction(a: Action)
    decreases a, 2
  {
    match a
    case Compute(_, _, _, _, _) => true
    case Nested(t) => AllMatching(t)
  }

  // ----- Traps inside entry and exit code -----

  ghost predicate SameRegs(u: Cpu, v: Cpu)
  {
    u.gpr == v.gpr && u.rsp == v.rsp && u.rip == v.rip && u.rflags == v.rflags && u.cs == v.cs && u.ss == v.ss
  }

  /** The same words on the stack: those from the stack pointer rsp up, 8 bytes apart, and everything from
      top up. */
  ghost predicate SameFrom(a: Stack, b: Stack, rsp: int, top: int)
  {
    forall x :: x >= top || (x >= rsp && (x - rsp) % 8 == 0) ==> Load(a, x) == Load(b, x)
  }

  /** How far an instruction other than `iretq` can move the stack pointer up. */
  function Lift(i: Instr): (n: nat) { if i.Pop? then 8 else if i.AddRsp? then i.n else 0 }

  function Rise(code: seq<Instr>): (n: nat) { if code == [] then 0 else Lift(code[0]) + Rise(code[1..]) }

  /** Code that keeps to whole words of the stack and has `iretq` at its end only. */
  predicate StraightLine(code: seq<Instr>)
  {
    forall i: nat :: i < |code| ==> (code[i].Iretq? ==> i + 1 == |code|) && (code[i].AddRsp? ==> code[i].n % 8 == 0)
  }

  predicate NoIret(code: seq<Instr>) { forall i: nat :: i < |code| ==> !code[i].Iretq? }

  lemma PushAgrees(a: Stack, b: Stack, rsp: int, top: int, w: int)
    requires SameFrom(a, b, rsp, top)
    ensures SameFrom(a[rsp - 8 := w], b[rsp - 8 := w], rsp - 8, top)
  {
    var a', b' := a[rsp - 8 := w], b[rsp - 8 := w];
    forall x | x >= top || (x >= rsp - 8 && (x - (rsp - 8)) % 8 == 0) ensures Load(a', x) == Load(b', x) {
      if x != rsp - 8 {
        assert (x - rsp) % 8 == (x - (rsp - 8)) % 8;
        assert Load(a', x) == Load(a, x) && Load(b', x) == Load(b, x);
      }
    }
  }

  lemma DropAgrees(a: Stack, b: Stack, rsp: int, top: int, n: nat)
    requires SameFrom(a, b, rsp, top) && n % 8 == 0
    ensures SameFrom(a, b, rsp + n, top)
  {
    hide Load;
    forall x | x >= top || (x >= rsp + n && (x - (rsp + n)) % 8 == 0) ensures Load(a, x) == Load(b, x) {
      assert x < top ==> (x - rsp) % 8 == 0;
    }
  }

  lemma PopAgrees(a: Stack, b: Stack, rsp: int, top: int, k: nat)
    requires SameFrom(a, b, rsp, top)
    ensures Load(a, rsp + 8 * k) == Load(b, rsp + 8 * k)
  {
    hide Load;
    assert (rsp + 8 * k - rsp) % 8 == 0;
  }

  lemma ExecAgrees(u: Cpu, v: Cpu, i: Instr, top: int)
    requires SameRegs(u, v) && SameFrom(u.stack, v.stack, v.rsp, top) && (i.AddRsp? ==> i.n % 8 == 0)
    ensures SameRegs(Exec(u, i), Exec(v, i))
    ensures if i.Iretq? then Exec(u, i).stack == u.stack && Exec(v, i).stack == v.stack
            else SameFrom(Exec(u, i).stack, Exec(v, i).stack, Exec(v, i).rsp, top) && Exec(v, i).rsp <= v.rsp + Lift(i)
  {
    hide Load, SameFrom;
    match i {
      case PushImm(w) => PushAgrees(u.stack, v.stack, v.rsp, top, w);
      case Push(r) => PushAgrees(u.stack, v.stack, v.rsp, top, v.gpr[r]);
      case Pop(r) =>
        PopAgrees(u.stack, v.stack, v.rsp, top, 0);
        DropAgrees(u.stack, v.stack, v.rsp, top, 8);
      case MovRspToRdi =>
      case AddRsp(n) => DropAgrees(u.stack, v.stack, v.rsp, top, n);
      case Iretq =>
        PopAgrees(u.stack, v.stack, v.rsp, top, 0);
        PopAgrees(u.stack, v.stack, v.rsp, top, 1);
        PopAgrees(u.stack, v.stack, v.rsp, top, 2);
        PopAgrees(u.stack, v.stack, v.rsp, top, 3);
        PopAgrees(u.stack, v.stack, v.rsp, top, 4);
    }
  }

  lemma CodeTail(code: seq<Instr>)
    requires code != [] && StraightLine(code)
    ensures StraightLine(code[1..]) && (code[0].Iretq? ==> |code| == 1) && (code[0].AddRsp? ==> code[0].n % 8 == 0)
    ensures Rise(code) == Lift(code[0]) + Rise(code[1..])
    ensures NoIret(code) ==> NoIret(code[1..])
  {
    forall i: nat | i < |code[1..]|
      ensures (code[1..][i].Iretq? ==> i + 1 == |code[1..]|) && (code[1..][i].AddRsp? ==> code[1..][i].n % 8 == 0)
    {
      assert code[1..][i] == code[i + 1];
    }
  }

  /** r and w have the same registers and the same words from top up, and without `iretq` in the code the
      same words from the stack pointer up. */
  ghost predicate Agree(r: Cpu, w: Cpu, code: seq<Instr>, top: int)
  {
    && SameRegs(r, w) && (forall x :: x >= top ==> Load(r.stack, x) == Load(w.stack, x))
    && (NoIret(code) ==> SameFrom(r.stack, w.stack, w.rsp, top))
  }

  lemma AgreeAtEnd(r: Cpu, w: Cpu, code: seq<Instr>, rsp: int, top: int)
    requires SameRegs(r, w) && SameFrom(r.stack, w.stack, rsp, top) && (NoIret(code) ==> rsp == w.rsp)
    ensures Agree(r, w, code, top)
  {
    hide Load;
  }

  lemma AgreeTail(r: Cpu, w: Cpu, code: seq<Instr>, top: int)
    requires code != [] && Agree(r, w, code[1..], top) && (NoIret(code) ==> NoIret(code[1..]))
    ensures Agree(r, w, code, top)
  {
    hide Load, SameFrom;
  }

  lemma LastInstruction(s: Cpu, code: seq<Instr>)
    requires |code| == 1
    ensures Run(s, code) == Exec(s, code[0]) && code[1..] == [] && (code[0].Iretq? ==> !NoIret(code))
  {
    hide Exec;
  }

  /** Code run from two states that differ below the stack pointer only. */
  lemma {:induction false} RunAgrees(u: Cpu, v: Cpu, code: seq<Instr>, top: int)
    requires StraightLine(code) && SameRegs(u, v) && SameFrom(u.stack, v.stack, v.rsp, top) && v.rsp + Rise(code) <= top
    ensures Agree(Run(u, code), Run(v, code), code, top)
    decreases |code|
  {
    hide *;
    if code == [] {
      RunNothing(u, v, code);
      AgreeAtEnd(u, v, code, v.rsp, top);
    } else {
      CodeTail(code);
      ExecAgrees(u, v, code[0], top);
      RunNext(u, code);
      RunNext(v, code);
      if code[0].Iretq? {
        LastInstruction(u, code);
        LastInstruction(v, code);
        AgreeAtEnd(Exec(u, code[0]), Exec(v, code[0]), code, v.rsp, top);
      } else {
        RunAgrees(Exec(u, code[0]), Exec(v, code[0]), code[1..], top);
        AgreeTail(Run(u, code), Run(v, code), code, top);
      }
    }
  }

  /** Harmless traps at any instruction boundaries, as many as there may be, change nothing that the code
      can see: the run agrees with the undisturbed one in the registers and in every stack word from the
      stack pointer up. */
  lemma {:induction false} ScriptAgrees(idt: Entries, u: Cpu, v: Cpu, code: seq<Instr>, script: seq<Moment>, top: int)
    requires HarmlessScript(script) && StraightLine(code)
    requires SameRegs(u, v) && SameFrom(u.stack, v.stack, v.rsp, top) && v.rsp + Rise(code) <= top
    ensures Agree(RunScript(idt, u, code, script), Run(v, code), code, top)
    decreases script, 1
  {
    hide *;
    ScriptNext(idt, u, code, script);
    if code == [] || script == [] {
      RunAgrees(u, v, code, top);
    } else if script[0].Take? {
      TakeAgrees(idt, u, v, script[0], top);
      ScriptAgrees(idt, RunMoment(idt, u, script[0]), v, code, script[1..], top);
    } else {
      CodeTail(code);
      ExecAgrees(u, v, code[0], top);
      RunNext(v, code);
      if code[0].Iretq? {
        LastInstruction(v, code);
        ScriptNext(idt, Exec(u, code[0]), [], script[1..]);
        RunNothing(Exec(u, code[0]), v, []);
        AgreeAtEnd(Exec(u, code[0]), Exec(v, code[0]), code, v.rsp, top);
      } else {
        ScriptAgrees(idt, Exec(u, code[0]), Exec(v, code[0]), code[1..], script[1..], top);
        AgreeTail(RunScript(idt, u, code, script), Run(v, code), code, top);
      }
    }
  }

  lemma ScriptNext(idt: Entries, s: Cpu, code: seq<Instr>, script: seq<Moment>)
    ensures code == [] || script == [] ==> RunScript(idt, s, code, script) == Run(s, code)
    ensures code != [] && script != [] ==>
              RunScript(idt, s, code, script) ==
              if script[0].Step? then RunScript(idt, Exec(s, code[0]), code[1..], script[1..])
              else RunScript(idt, RunMoment(idt, s, script[0]), code, script[1..])
    ensures HarmlessScript(script) && script != [] ==> HarmlessMoment(script[0]) && HarmlessScript(script[1..])
  {
    hide Exec, RunMoment, HarmlessMoment;
  }

  lemma RunNothing(u: Cpu, v: Cpu, code: seq<Instr>)
    ensures Run(u, []) == u && Run(v, []) == v
    ensures code == [] ==> Run(u, code) == u
  {
  }

  lemma RunNext(v: Cpu, code: seq<Instr>)
    requires code != []
    ensures Run(v, code) == Run(Exec(v, code[0]), code[1..])
  {
  }

  /** One harmless trap, seen from the code it interrupts. */
  lemma {:induction false} TakeAgrees(idt: Entries, u: Cpu, v: Cpu, moment: Moment, top: int)
    requires HarmlessMoment(moment) && moment.Take?
    requires SameRegs(u, v) && SameFrom(u.stack, v.stack, v.rsp, top) && v.rsp <= top
    ensures SameRegs(RunMoment(idt, u, moment), v) && SameFrom(RunMoment(idt, u, moment).stack, v.stack, v.rsp, top)
    decreases moment, 0
  {
    hide RunTrap, AllMatching, Load;
    NestedRoundTrip(idt, u, moment.trap);
  }

  /** The trap frame as the handler finds it, whatever traps were taken on the way: 16-byte aligned below
      the interrupted stack, every field at its offset, the vector of the stub, and the CPU's error code
      or 0. */
  lemma {:induction false} FrameFields(idt: Entries, s: Cpu, t: Trap)
    requires Matching(t) && HarmlessScript(t.entry)
    ensures var c := AtCall(idt, s, t);
            var tf := FrameOf(idt, s, t);
            && tf == AlignDown(s.rsp) - 176 && tf % 16 == 0 && c.gpr[RDI] == tf && FrameComplete(c.stack, tf, s, t)
    decreases t, 2
  {
    hide *;
    var d, code, top := Deliver(s, idt[t.vector], t.hasCode, t.code), EntryCode(t.vector), AlignDown(s.rsp);
    CalmFrame(idt, s, t);
    CalmIsEntryCode(idt, s, t);
    EntryShape(idt, s, t);
    SameStart(d, top);
    ScriptAgrees(idt, d, d, code, t.entry, top);
    AtCallAgrees(CalmAtCall(idt, s, t), AtCall(idt, s, t), code, s, t);
  }

  lemma SameStart(s: Cpu, top: int)
    ensures SameRegs(s, s) && SameFrom(s.stack, s.stack, s.rsp, top)
  {
  }

  lemma EntryShape(idt: Entries, s: Cpu, t: Trap)
    ensures var d := Deliver(s, idt[t.vector], t.hasCode, t.code);
            var code := EntryCode(t.vector);
            && NoIret(code) && StraightLine(code) && d.rsp + Rise(code) <= AlignDown(s.rsp)
            && AtCall(idt, s, t) == RunScript(idt, d, code, t.entry) && FrameOf(idt, s, t) == AtCall(idt, s, t).rsp + 8
  {
    var code := EntryCode(t.vector);
    assert forall i: nat :: i < |code| ==> Lift(code[i]) == 0 && !code[i].Iretq? && !code[i].AddRsp?;
    hide EntryCode, RunScript, GateFlags, AlignDown, SAVE, Stub;
    NoRise(code);
  }

  lemma {:induction false} NoRise(code: seq<Instr>)
    requires forall i: nat :: i < |code| ==> Lift(code[i]) == 0
    ensures Rise(code) == 0
    decreases |code|
  {
    if code != [] {
      NoRise(code[1..]);
    }
  }

  lemma AtCallAgrees(c: Cpu, r: Cpu, code: seq<Instr>, s: Cpu, t: Trap)
    requires c.rsp == AlignDown(s.rsp) - 184 && FrameComplete(c.stack, c.rsp + 8, s, t)
    requires NoIret(code) && Agree(r, c, code, AlignDown(s.rsp))
    ensures r.rsp == c.rsp && r.gpr == c.gpr && FrameComplete(r.stack, c.rsp + 8, s, t)
  {
    hide AlignDown, Load;
    var tf := c.rsp + 8;
    forall k: nat ensures Load(r.stack, tf + 8 * k) == Load(c.stack, tf + 8 * k) {
      assert (tf + 8 * k - c.rsp) % 8 == 0;
    }
    assert forall k: nat :: k < 15 ==> Load(r.stack, tf + 8 * k) == s.gpr[k];
  }

  lemma FrameKept(a: Stack, b: Stack, tf: int, s: Cpu)
    requires FrameHolds(a, tf, s) && forall x :: x >= tf ==> Load(a, x) == Load(b, x)
    ensures FrameHolds(b, tf, s)
  {
    forall k: nat | k < 15 ensures Load(b, tf + 8 * k) == s.gpr[k] {
      assert Load(a, tf + 8 * k) == Load(b, tf + 8 * k);
    }
  }

  lemma {:induction false} ScribbleBelow(stack: Stack, top: int, writes: seq<(nat, int)>, a: int)
    requires a > top
    ensures Load(Scribble(stack, top, writes), a) == Load(stack, a)
    decreases |writes|
  {
    if writes != [] {
      ScribbleBelow(stack[top - writes[0].0 := writes[0].1], top, writes[1..], a);
    }
  }

  /** Whatever happens in a handler, nested traps included, stays below its frame. */
  lemma {:induction false} BodyStaysBelow(idt: Entries, s: Cpu, frame: int, body: seq<Action>)
    requires AllMatchingIn(body) && s.rsp < frame
    ensures forall a :: a >= frame ==> Load(RunBody(idt, s, frame, body).stack, a) == Load(s.stack, a)
    decreases body, 1
  {
    if body != [] {
      ActionStaysBelow(idt, s, frame, body[0]);
      BodyStaysBelow(idt, RunAction(idt, s, frame, body[0]), frame, body[1..]);
    }
  }

  lemma {:induction false} ActionStaysBelow(idt: Entries, s: Cpu, frame: int, act: Action)
    requires MatchingAction(act) && s.rsp < frame
    ensures RunAction(idt, s, frame, act).rsp < frame
    ensures forall a :: a >= frame ==> Load(RunAction(idt, s, frame, act).stack, a) == Load(s.stack, a)
    decreases act, 0
  {
    match act {
      case Compute(gpr, rip, rflags, drop, writes) =>
        forall a | a >= frame ensures Load(Scribble(s.stack, frame - 16, writes), a) == Load(s.stack, a) {
          ScribbleBelow(s.stack, frame - 16, writes, a);
        }
      case Nested(t) =>
        NestedRoundTrip(idt, s, t);
        hide RunTrap;
    }
  }

  /** The round trip: for any nesting of traps that match their stubs, taken inside handlers or at any
      instruction boundary of entry and exit code, and any handlers that store nothing but `tf->rip` above
      their own frames, the interrupted program resumes with every register it had, its stack intact, at
      the address the handler chose. */
  lemma {:induction false} NestedRoundTrip(idt: Entries, s: Cpu, t: Trap)
    requires AllMatching(t)
    ensures Resumed(s, RunTrap(idt, s, t), if t.setRip.Some? then t.setRip.value else s.rip)
    decreases t, 3
  {
    hide AtCall, FrameOf, RunBody, RunTrap, RunScript, Run, Return, RESTORE, AlignDown, Matching, AllMatching, AllMatchingIn, HarmlessScript,
         Load, FrameComplete, Resumed, Rise, Agree, SameRegs, SameFrom, StraightLine;
    var c, tf := AtCall(idt, s, t), FrameOf(idt, s, t);
    var b := RunBody(idt, c, tf, t.body);
    var ret := Return(b, tf, t.setRip);
    TrapParts(idt, s, t);
    FrameFields(idt, s, t);
    FrameParts(c.stack, tf, s, t);
    BodyStaysBelow(idt, c, tf, t.body);
    ReturnResumes(s, c.stack, b, tf, t.setRip);
    ReturnEffect(b, tf, t.setRip);
    RestoreShape();
    SameStart(ret, tf + 176);
    ScriptAgrees(idt, ret, ret, RESTORE, t.exit, tf + 176);
    ResumedSame(s, Run(ret, RESTORE), RunTrap(idt, s, t), tf + 176, if t.setRip.Some? then t.setRip.value else s.rip);
  }

  lemma FrameParts(stack: Stack, tf: int, s: Cpu, t: Trap)
    requires FrameComplete(stack, tf, s, t)
    ensures FrameHolds(stack, tf, s) && forall a :: a >= AlignDown(s.rsp) ==> Load(stack, a) == Load(s.stack, a)
  {
  }

  lemma ResumedSame(s: Cpu, w: Cpu, r: Cpu, top: int, rip: int)
    requires Resumed(s, w, rip) && Agree(r, w, RESTORE, top) && top <= AlignDown(s.rsp)
    ensures Resumed(s, r, rip)
  {
    hide AlignDown, Load, NoIret, RESTORE, SameFrom;
  }

  lemma RestoreShape()
    ensures StraightLine(RESTORE) && Rise(RESTORE) <= 176
  {
    RestoreRises(0);
    assert RESTORE[0..] == RESTORE;
  }

  /** How far the rest of the exit code moves the stack pointer up. */
  lemma {:induction false} RestoreRises(j: nat)
    requires j <= 15
    ensures Rise(RESTORE[j..]) == 8 * (15 - j) + 16
    decreases 15 - j
  {
    if j < 15 {
      RestoreRises(j + 1);
      SaveOrder(j);
      hide RESTORE;
      assert RESTORE[j..][0] == RESTORE[j] && RESTORE[j..][1..] == RESTORE[j + 1..];
    } else {
      assert RESTORE[15..] == [AddRsp(16), Iretq];
      assert RESTORE[15..][1..] == [Iretq] && [Iretq][1..] == [];
    }
  }

  /** Returning over a frame that still holds the state of s resumes s. */
  lemma ReturnResumes(s: Cpu, atCall: Stack, b: Cpu, tf: int, setRip: Option<int>)
    requires FrameHolds(atCall, tf, s) && tf == AlignDown(s.rsp) - 176
    requires forall a :: a >= AlignDown(s.rsp) ==> Load(atCall, a) == Load(s.stack, a)
    requires forall a :: a >= tf ==> Load(b.stack, a) == Load(atCall, a)
    ensures Resumed(s, Run(Return(b, tf, setRip), RESTORE), if setRip.Some? then setRip.value else s.rip)
  {
    ReturnEffect(b, tf, setRip);
    RestoreEffect(Return(b, tf, setRip));
    hide Run, Return, RESTORE, AlignDown, Load;
    var r := Run(Return(b, tf, setRip), RESTORE);
    forall k: nat | k < 15 ensures r.gpr[k] == s.gpr[k] {
      assert Load(b.stack, tf + 8 * k) == Load(atCall, tf + 8 * k);
    }
    assert r.gpr == s.gpr;
  }

  lemma TrapParts(idt: Entries, s: Cpu, t: Trap)
    ensures RunTrap(idt, s, t) ==
            RunScript(idt, Return(RunBody(idt, AtCall(idt, s, t), FrameOf(idt, s, t), t.body), FrameOf(idt, s, t), t.setRip), RESTORE, t.exit)
    ensures AtCall(idt, s, t).rsp == FrameOf(idt, s, t) - 8
    ensures AllMatching(t) ==> Matching(t) && HarmlessScript(t.entry) && AllMatchingIn(t.body) && HarmlessScript(t.exit)
  {
    hide AtCall, RunBody, RunScript, Return;
  }

  lemma ReturnEffect(s: Cpu, frame: int, setRip: Option<int>)
    ensures var r := Return(s, frame, setRip);
            && r.rsp == frame
            && Load(r.stack, frame + 8 * TF_RIP) == (if setRip.Some? then setRip.value else Load(s.stack, frame + 8 * TF_RIP))
            && (forall a :: a != frame + 8 * TF_RIP ==> Load(r.stack, a) == Load(s.stack, a))
  {
  }

  // ----- Vectors whose error code the stub gets wrong -----

  /** Where a trap with a mismatched error code returns to: a code the stub did not expect is taken for
      the return address, and a missing one makes the code segment selector the return address. */
  lemma MismatchReturnsElsewhere(idt: Entries, s: Cpu, v: Vector, hasCode: bool, code: int)
    requires hasCode != CpuPushesCode(v, false)
    ensures RunTrap(idt, s, Plain(v, hasCode, code)).rip == if hasCode then code else s.cs
  {
    var t := Plain(v, hasCode, code);
    var c, tf := AtCall(idt, s, t), FrameOf(idt, s, t);
    MismatchedFrame(idt, s, v, hasCode, code);
    TrapParts(idt, s, t);
    EmptyBody(idt, c, tf);
    NoScript(idt, Return(c, tf, None));
    ReturnEffect(c, tf, None);
    RestoreEffect(Return(c, tf, None));
    hide Run, RESTORE, AtCall, FrameOf, Load, Return, RunTrap, RunBody, RunScript;
  }

  lemma EmptyBody(idt: Entries, s: Cpu, frame: int)
    ensures RunBody(idt, s, frame, []) == s
  {
  }

  lemma NoScript(idt: Entries, s: Cpu)
    ensures RunScript(idt, s, RESTORE, []) == Run(s, RESTORE)
  {
    hide Run;
  }

  lemma MismatchedFrame(idt: Entries, s: Cpu, v: Vector, hasCode: bool, code: int)
    requires hasCode != CpuPushesCode(v, false)
    ensures var t := Plain(v, hasCode, code);
            Load(AtCall(idt, s, t).stack, FrameOf(idt, s, t) + 8 * TF_RIP) == if hasCode then code else s.cs
  {
    StubsAgree(v);
    hide Deliver, Run, Stub, SAVE, AtCall, FrameOf, CalmAtCall, Load, ErrorVector, CpuPushesCode, PushWord;
    var t := Plain(v, hasCode, code);
    var d := Deliver(s, idt[v], hasCode, code);
    var u := Run(d, Stub(v));
    DeliverEffect(s, idt[v], hasCode, code);
    StubEffect(d, v);
    SaveEffect(u);
    CalmSplit(idt, s, t);
    PlainIsCalm(idt, s, v, hasCode, code);
    assert FrameOf(idt, s, t) + 8 * TF_RIP == u.rsp + 16;
  }

  /** The trap path is transparent for a vector exactly when the CPU and the stub agree on its error
      code.  The stubs expect one for vectors 8, 10 to 14 and 17 only, so on processors that push one
      for 21, 29 or 30 those three do not return to the interrupted program. */
  lemma TransparentIffMatching(v: Vector, hasCode: bool)
    ensures (forall idt: Entries, s: Cpu, code: int :: Resumed(s, RunTrap(idt, s, Plain(v, hasCode, code)), s.rip))
            <==> hasCode == CpuPushesCode(v, false)
  {
    hide RunTrap, Resumed, CpuPushesCode;
    if hasCode == CpuPushesCode(v, false) {
      forall idt: Entries, s: Cpu, code: int
        ensures Resumed(s, RunTrap(idt, s, Plain(v, hasCode, code)), s.rip)
      {
        PlainIsCalm(idt, s, v, hasCode, code);
        NestedRoundTrip(idt, s, Plain(v, hasCode, code));
      }
    } else {
      var idt: Entries := seq(256, _ => 0);
      var s := Cpu([0, 0, 0, 0, 0, 0, 0, 0, 0, 0, 0, 0, 0, 0, 0], 0x1000, 0x2000, 2, CS_SEL, 0, map[]);
      MismatchReturnsElsewhere(idt, s, v, hasCode, 0);
      NotResumed(s, RunTrap(idt, s, Plain(v, hasCode, 0)));
    }
  }

  /** Processor by processor: with the error codes the CPU really pushes, the path of a vector restores
      every interrupted program except for vectors 21, 29 and 30 on the newer ones. */
  lemma TransparentVectors(v: Vector, newer: bool)
    ensures (forall idt: Entries, s: Cpu, code: int :: Resumed(s, RunTrap(idt, s, Plain(v, CpuPushesCode(v, newer), code)), s.rip))
            <==> !(newer && (v == 21 || v == 29 || v == 30))
  {
    hide RunTrap, Resumed;
    TransparentIffMatching(v, CpuPushesCode(v, newer));
  }

  lemma NotResumed(s: Cpu, r: Cpu)
    requires r.rip != s.rip
    ensures !Resumed(s, r, s.rip)
  {
  }

  // ----- The processor as an object -----

  /** The registers and the stack, changed instruction by instruction. */
  class Processor {
    var gpr: Gprs
    var rsp: int
    var rip: int
    var rflags: int
    var cs: int
    var ss: int
    var stack: Stack

    function State(): (r: Cpu)
      reads this
    {
      Cpu(gpr, rsp, rip, rflags, cs, ss, stack)
    }

    constructor (s: Cpu)
      ensures State() == s
    {
      gpr, rsp, rip, rflags, cs, ss, stack := s.gpr, s.rsp, s.rip, s.rflags, s.cs, s.ss, s.stack;
    }

    method PushValue(w: int)
      modifies this`rsp, this`stack
      ensures State() == PushWord(old(State()), w)
    {
      rsp := rsp - 8;
      stack := stack[rsp := w];
    }

    method PopValue() returns (w: int)
      modifies this`rsp
      ensures w == Load(old(stack), old(rsp)) && State() == old(State()).(rsp := old(rsp) + 8)
    {
      w := Load(stack, rsp);
      rsp := rsp + 8;
    }

    method Step(i: Instr)
      modifies this
      ensures State() == Exec(old(State()), i)
    {
      match i {
        case PushImm(v) =>
          PushValue(v);
        case Push(r) =>
          PushValue(gpr[r]);
        case Pop(r) =>
          var w := PopValue();
          gpr := SetReg(gpr, r, w);
        case MovRspToRdi =>
          gpr := SetReg(gpr, RDI, rsp);
        case AddRsp(n) =>
          rsp := rsp + n;
        case Iretq =>
          rip := PopValue();
          cs := PopValue();
          rflags := PopValue();
          var newRsp := PopValue();
          ss := PopValue();
          rsp := newRsp;
      }
    }

    method Execute(code: seq<Instr>)
      modifies this
      ensures State() == Run(old(State()), code)
    {
      hide Exec;
      for i := 0 to |code|
        invariant Run(State(), code[i..]) == Run(old(State()), code)
      {
        assert code[i..][0] == code[i] && code[i..][1..] == code[i + 1..];
        Step(code[i]);
      }
      assert code[|code|..] == [];
    }

    /** Interrupt delivery, by the hardware. */
    method Interrupt(entry: int, hasCode: bool, code: int)
      modifies this
      ensures State() == Deliver(old(State()), entry, hasCode, code)
    {
      hide GateFlags;
      var frameRsp, frameFlags := rsp, rflags;
      rsp := AlignDown(rsp);
      PushValue(ss);
      PushValue(frameRsp);
      PushValue(frameFlags);
      PushValue(cs);
      PushValue(rip);
      if hasCode {
        PushValue(code);
      }
      rip, cs, rflags := entry, CS_SEL, GateFlags(frameFlags);
    }

    /** From the interrupted instruction to the call of the handler. */
    method Enter(idt: Entries, v: Vector, hasCode: bool, code: int)
      modifies this
      ensures State() == AtCall(idt, old(State()), Plain(v, hasCode, code))
    {
      hide Run, Stub, SAVE, Deliver, AtCall, CalmAtCall;
      PlainIsCalm(idt, State(), v, hasCode, code);
      CalmSplitIs(idt, State(), v, hasCode, code);
      Interrupt(idt[v], hasCode, code);
      Execute(Stub(v) + SAVE);
      PushValue(0);
    }

    /** Handler code: arbitrary registers and flags, and arbitrary words below its frame. */
    method HandlerCode(frame: int, g: Gprs, flags: int, drop: nat, writes: seq<(nat, int)>)
      modifies this
      ensures State() == old(State()).(gpr := g, rflags := flags, rsp := frame - 8 - drop,
                                       stack := Scribble(old(stack), frame - 16, writes))
    {
      gpr, rflags, rsp, stack := g, flags, frame - 8 - drop, Scribble(stack, frame - 16, writes);
    }

    /** The handler has returned to the common exit. */
    method Leave(frame: int, setRip: Option<int>)
      modifies this
      ensures State() == Run(Return(old(State()), frame, setRip), RESTORE)
    {
      hide Run, RESTORE;
      rsp := frame;
      if setRip.Some? {
        stack := stack[frame + 8 * TF_RIP := setRip.value];
      }
      Execute(RESTORE);
    }
  }
}
