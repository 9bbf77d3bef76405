/** The interrupt descriptor table: packing of the gates, the `lidt` operand, and what the CPU reads
    back from them (AMD64 Architecture Programmer's Manual, Volume 2, sections 4.8 and 8.9). */
module Gates {
  import opened Words
  import opened Trap

  type i64 = x: int | -0x8000_0000_0000_0000 <= x < 0x8000_0000_0000_0000

  /** `struct gatedesc`, field by field; the bounds are the widths of its bit fields. */
  datatype Gate = Gate(off15: u16, cs: u16, ist: nat, rsv0: nat, kind: nat, s: nat, dpl: nat, p: nat,
                       off31: u16, off63: u32, rsv1: u32)

  predicate FitsFields(g: Gate)
  {
    g.ist < 8 && g.rsv0 < 32 && g.kind < 16 && g.s < 2 && g.dpl < 4 && g.p < 2
  }

  /** `SETGATE`, for an offset read from a table of signed words; the shifts are arithmetic. */
  function SetGate(sel: u16, off: i64): (g: Gate)
    ensures FitsFields(g)
  {
    Gate(off % 0x1_0000_0000 % 0x1_0000, sel, 0, 0, 14, 0, 0, 1, off / 0x1_0000 % 0x1_0000, off / 0x1_0000_0000 % 0x1_0000_0000, 0)
  }

  /** The 16 bytes of a gate, as four little-endian words of 32 bits. */
  function Pack(g: Gate): (d: seq<u32>)
    requires FitsFields(g)
    ensures |d| == 4
  {
    [g.off15 + g.cs * 0x1_0000,
     g.ist + g.rsv0 * 8 + g.kind * 0x100 + g.s * 0x1000 + g.dpl * 0x2000 + g.p * 0x8000 + g.off31 * 0x1_0000,
     g.off63,
     g.rsv1]
  }

  // ----- The hardware's reading -----

  /** What a 64-bit gate says: target, code segment, stack-table index, type, privilege, present. */
  datatype Target = Target(offset: u64, selector: u16, ist: nat, kind: nat, system: bool, dpl: nat, present: bool)

  function Decode(d: seq<u32>): (r: Target)
    requires |d| == 4
  {
    Target((d[0] as int) % 0x1_0000 + (d[1] as int) / 0x1_0000 * 0x1_0000 + (d[2] as int) * 0x1_0000_0000, d[0] / 0x1_0000, d[1] % 8,
           d[1] / 0x100 % 16, d[1] / 0x1000 % 2 == 0, d[1] / 0x2000 % 4, d[1] / 0x8000 % 2 == 1)
  }

  datatype Idtr = Idtr(limit: u16, base: u64)

  /** `lidt` on a ten-byte operand. */
  function LoadIdtr(pd: seq<u16>): (r: Idtr)
    requires |pd| == 5
  {
    Idtr(pd[0], (pd[1] as int) + (pd[2] as int) * 0x1_0000 + (pd[3] as int) * 0x1_0000_0000 + (pd[4] as int) * 0x1_0000_0000_0000)
  }

  /** Memory by 32-bit word address. */
  type Dwords = map<nat, u32>

  function Dword(m: Dwords, a: nat): (r: u32) { if a in m then m[a] else 0 }

  /** Gate fetch for a vector; outside the limit the CPU raises #GP instead. */
  function Fetch(idtr: Idtr, m: Dwords, v: nat): (r: Option<Target>)
  {
    if 16 * v + 15 > idtr.limit then None
    else
      var a := idtr.base + 16 * v;
      Some(Decode([Dword(m, a), Dword(m, a + 4), Dword(m, a + 8), Dword(m, a + 12)]))
  }

  /** The packed table lies in memory at base. */
  ghost predicate TableAtBase(m: Dwords, base: u64, gates: seq<Gate>)
  {
    forall v: nat, j: nat :: v < |gates| && j < 4 ==>
      FitsFields(gates[v]) && Dword(m, base + 16 * v + 4 * j) == Pack(gates[v])[j]
  }

  // ----- init_exception -----

  /** `lidt`: the operand is assembled half-word by half-word. */
  method Lidt(p: u64, size: nat) returns (operand: seq<u16>)
    requires 1 <= size <= 0x1_0000
    ensures |operand| == 5 && LoadIdtr(operand) == Idtr(size - 1, p)
  {
    var pd := new u16[5];
    pd[0] := (size - 1) % 0x1_0000;
    pd[1] := p % 0x1_0000;
    pd[2] := p / 0x1_0000 % 0x1_0000;
    pd[3] := p / 0x1_0000_0000 % 0x1_0000;
    pd[4] := p / 0x1_0000_0000_0000 % 0x1_0000;
    operand := pd[..];
    HalfWords(p);
  }

  lemma HalfWords(p: u64)
    ensures p == p % 0x1_0000 + p / 0x1_0000 % 0x1_0000 * 0x1_0000 + p / 0x1_0000_0000 % 0x1_0000 * 0x1_0000_0000
                 + p / 0x1_0000_0000_0000 % 0x1_0000 * 0x1_0000_0000_0000
  {
    assert p / 0x1_0000 / 0x1_0000 == p / 0x1_0000_0000;
    assert p / 0x1_0000_0000 / 0x1_0000 == p / 0x1_0000_0000_0000;
  }

  /** `init_exception` over the table at address `base`. */
  method InitException(idt: array<Gate>, base: u64, exceptionEntries: seq<i64>) returns (operand: seq<u16>)
    requires idt.Length == 256 == |exceptionEntries|
    modifies idt
    ensures forall v: nat :: v < 256 ==> idt[v] == SetGate(CS_SEL, exceptionEntries[v])
    ensures |operand| == 5 && LoadIdtr(operand) == Idtr(4095, base)
  {
    for i := 0 to 256
      invariant forall v: nat :: v < i ==> idt[v] == SetGate(CS_SEL, exceptionEntries[v])
    {
      idt[i] := SetGate(CS_SEL, exceptionEntries[i]);
    }
    operand := Lidt(base, 16 * 256);
  }

  // ----- Round trip and dispatch -----

  /** The 64-bit pattern of a signed word. */
  function Bits(off: i64): (r: u64) { off % TWO64 }

  lemma OffsetParts(off: i64)
    ensures Bits(off) == off % 0x1_0000_0000 % 0x1_0000 + off / 0x1_0000 % 0x1_0000 * 0x1_0000
                         + off / 0x1_0000_0000 % 0x1_0000_0000 * 0x1_0000_0000
  {
    hide Bits;
    if off < 0 {
      NegativeParts(off);
      WordParts(off + TWO64);
    } else {
      WordParts(off);
      NonNegativeBits(off);
    }
  }

  lemma NonNegativeBits(off: i64)
    requires off >= 0
    ensures Bits(off) == off
  {
  }

  lemma WordParts(b: u64)
    ensures b == b % 0x1_0000_0000 % 0x1_0000 + b / 0x1_0000 % 0x1_0000 * 0x1_0000
                 + b / 0x1_0000_0000 % 0x1_0000_0000 * 0x1_0000_0000
  {
    assert b / 0x1_0000 / 0x1_0000 == b / 0x1_0000_0000;
    assert b % 0x1_0000_0000 == b - b / 0x1_0000_0000 * 0x1_0000_0000;
  }

  lemma NegativeParts(off: i64)
    requires off < 0
    ensures var b := off + TWO64;
            && Bits(off) == b && off % 0x1_0000_0000 == b % 0x1_0000_0000
            && off / 0x1_0000 % 0x1_0000 == b / 0x1_0000 % 0x1_0000
            && off / 0x1_0000_0000 % 0x1_0000_0000 == b / 0x1_0000_0000 % 0x1_0000_0000
  {
    var b := off + TWO64;
    assert b / 0x1_0000 == off / 0x1_0000 + 0x1_0000_0000 * 0x1_0000;
    assert b / 0x1_0000_0000 == off / 0x1_0000_0000 + 0x1_0000_0000;
    SameRest16(off / 0x1_0000, 0x1_0000_0000);
    SameRest32(off, 0x1_0000_0000);
    SameRest32(off / 0x1_0000_0000, 1);
  }

  lemma SameRest16(x: int, k: int)
    ensures (x + k * 0x1_0000) % 0x1_0000 == x % 0x1_0000
  {
  }

  lemma SameRest32(x: int, k: int)
    ensures (x + k * 0x1_0000_0000) % 0x1_0000_0000 == x % 0x1_0000_0000
  {
  }

  /** The CPU reads back from a packed gate the full 64-bit offset, negative offsets included, and an
      interrupt gate for the given selector, present, at privilege 0, on the current stack. */
  lemma GateRoundTrip(sel: u16, off: i64)
    ensures Decode(Pack(SetGate(sel, off))) == Target(Bits(off), sel, 0, 14, true, 0, true)
  {
    OffsetParts(off);
    var g := SetGate(sel, off);
    assert Pack(g)[1] == 0x8e00 + g.off31 * 0x1_0000;
    HighHalf(0x8e00, g.off31);
    AccessBits(g.off31);
    HighHalf(g.off15, sel);
  }

  lemma HighHalf(low: u16, high: u16)
    ensures (low + high * 0x1_0000) / 0x1_0000 == high && (low + high * 0x1_0000) % 0x1_0000 == low
  {
  }

  /** The access byte of an interrupt gate, under any upper offset bits. */
  lemma AccessBits(high: u16)
    ensures var d := 0x8e00 + high * 0x1_0000;
            && d % 8 == 0 && d / 0x100 % 16 == 14 && d / 0x1000 % 2 == 0 && d / 0x2000 % 4 == 0 && d / 0x8000 % 2 == 1
  {
    var d := 0x8e00 + high * 0x1_0000;
    assert d / 0x100 == 16 * (8 + high * 0x10) + 14;
    assert d / 0x1000 == 2 * (4 + high * 8);
    assert d / 0x2000 == 4 * (1 + high * 2);
    assert d / 0x8000 == 2 * high + 1;
    Remainders(0x11c0 + high * 0x2000, 8 + high * 0x10, 4 + high * 8, 1 + high * 2, high);
  }

  lemma Remainders(a: nat, b: nat, c: nat, d: nat, e: nat)
    ensures (8 * a) % 8 == 0 && (16 * b + 14) % 16 == 14 && (2 * c) % 2 == 0 && (4 * d) % 4 == 0 && (2 * e + 1) % 2 == 1
  {
  }

  /** Vectors reach their own stubs: through the descriptor and the packed table, vector v is sent to
      the address of `exception_entries[v]`, and no vector is refused by the limit. */
  lemma Dispatch(m: Dwords, base: u64, gates: seq<Gate>, exceptionEntries: seq<i64>, v: Vector)
    requires |gates| == 256 == |exceptionEntries| && TableAtBase(m, base, gates)
    requires forall i: nat :: i < 256 ==> gates[i] == SetGate(CS_SEL, exceptionEntries[i])
    ensures Fetch(Idtr(4095, base), m, v) == Some(Target(Bits(exceptionEntries[v]), CS_SEL, 0, 14, true, 0, true))
  {
    GateRoundTrip(CS_SEL, exceptionEntries[v]);
    var d := Pack(gates[v]);
    hide Pack, SetGate, Decode, Bits;
    assert Dword(m, base + 16 * v + 4 * 0) == d[0] && Dword(m, base + 16 * v + 4 * 1) == d[1];
    assert Dword(m, base + 16 * v + 4 * 2) == d[2] && Dword(m, base + 16 * v + 4 * 3) == d[3];
    assert [d[0], d[1], d[2], d[3]] == d;
  }

  /** From the vector to the handler: the CPU enters the code at the gate's address, and if the label
      table points at the stubs, the handler is called with a frame naming that very vector. */
  lemma HandlerSeesVector(m: Dwords, base: u64, gates: seq<Gate>, exceptionEntries: seq<i64>,
                          code: map<int, seq<Instr>>, s: Cpu, v: Vector, hasCode: bool, err: int)
    requires |gates| == 256 == |exceptionEntries| && TableAtBase(m, base, gates)
    requires forall i: nat :: i < 256 ==> gates[i] == SetGate(CS_SEL, exceptionEntries[i])
    requires forall i: Vector :: Bits(exceptionEntries[i]) in code && code[Bits(exceptionEntries[i])] == Stub(i) + SAVE
    requires hasCode == CpuPushesCode(v, false)
    ensures Fetch(Idtr(4095, base), m, v).Some?
    ensures var entry := Fetch(Idtr(4095, base), m, v).value.offset;
            var d := Deliver(s, entry, hasCode, err);
            && d.rip in code && d.cs == Fetch(Idtr(4095, base), m, v).value.selector == 8
            && d.rflags / 0x200 % 2 == 0 && d.rflags / 0x100 % 2 == 0
            && (var h := Run(d, code[d.rip]);
                var tf := h.gpr[RDI];
                && Load(h.stack, tf + 8 * TF_VECTOR) == v
                && Load(h.stack, tf + 8 * TF_ERR) == (if hasCode then err else 0)
                && FrameHolds(h.stack, tf, s) && tf % 16 == 0)
  {
    Dispatch(m, base, gates, exceptionEntries, v);
    var entry := Bits(exceptionEntries[v]);
    assert code[entry] == Stub(v) + SAVE;
    DeliveredFlags(s.rflags);
    DeliveredTo(s, entry, hasCode, err);
    assert CS_SEL == 8;
    hide Fetch, Bits, Deliver, GateFlags, Run, Stub, SAVE, CpuPushesCode;
    FrameAtEntry(s, entry, v, hasCode, err);
  }

  /** Interrupts and single steps are off behind an interrupt gate. */
  lemma DeliveredFlags(rflags: int)
    ensures GateFlags(rflags) / 0x200 % 2 == 0 && GateFlags(rflags) / 0x100 % 2 == 0
  {
    hide ClearBit;
    var a := ClearBit(rflags, 0x200);
    var b := ClearBit(a, 0x100);
    ClearedInterrupts(rflags);
    ClearedSteps(a);
    ClearedHigher(b, 0x20);
    ClearedHigher(ClearBit(b, 0x4000), 0x80);
  }

  lemma ClearedInterrupts(x: int)
    ensures ClearBit(x, 0x200) / 0x200 % 2 == 0
  {
    assert (x - 0x200) / 0x200 == x / 0x200 - 1;
  }

  lemma ClearedSteps(x: int)
    ensures ClearBit(x, 0x100) / 0x100 % 2 == 0 && ClearBit(x, 0x100) / 0x200 == x / 0x200
  {
    assert (x - 0x100) / 0x100 == x / 0x100 - 1;
    assert x / 0x200 == x / 0x100 / 2 && (x - 0x100) / 0x200 == (x / 0x100 - 1) / 2;
  }

  /** Clearing a bit above both changes neither. */
  lemma ClearedHigher(x: int, k: nat)
    requires k > 0 && k % 2 == 0
    ensures ClearBit(x, 0x200 * k) / 0x200 % 2 == x / 0x200 % 2 && ClearBit(x, 0x200 * k) / 0x100 % 2 == x / 0x100 % 2
  {
    assert ClearBit(x, 0x200 * k) == x || ClearBit(x, 0x200 * k) == x - 0x200 * k;
    hide ClearBit;
    LowerBits(x, k / 2);
  }

  lemma LowerBits(x: int, h: nat)
    ensures (x - 0x400 * h) / 0x200 % 2 == x / 0x200 % 2 && (x - 0x400 * h) / 0x100 % 2 == x / 0x100 % 2
  {
    var q, r := x / 0x100, x % 0x100;
    assert x - 0x400 * h == 0x100 * (q - 4 * h) + r;
    assert (x - 0x400 * h) / 0x100 == q - 4 * h;
    SameParity(q, 2 * h);
    assert (x - 0x400 * h) / 0x200 == (q - 4 * h) / 2 == q / 2 - 2 * h && x / 0x200 == q / 2;
    SameParity(q / 2, h);
  }

  lemma SameParity(q: int, h: int)
    ensures (q - 2 * h) % 2 == q % 2
  {
  }

  lemma DeliveredTo(s: Cpu, entry: int, hasCode: bool, err: int)
    ensures var d := Deliver(s, entry, hasCode, err);
            d.rip == entry && d.cs == CS_SEL && d.rflags == GateFlags(s.rflags)
  {
    hide GateFlags;
  }

  lemma FrameAtEntry(s: Cpu, entry: int, v: Vector, hasCode: bool, err: int)
    requires hasCode == CpuPushesCode(v, false)
    ensures var h := Run(Deliver(s, entry, hasCode, err), Stub(v) + SAVE);
            var tf := h.gpr[RDI];
            && Load(h.stack, tf + 8 * TF_VECTOR) == v
            && Load(h.stack, tf + 8 * TF_ERR) == (if hasCode then err else 0)
            && FrameHolds(h.stack, tf, s) && tf % 16 == 0
  {
    hide *;
    var idt: Entries := seq(256, _ => entry);
    var t := Plain(v, hasCode, err);
    PlainFields(v, hasCode, err);
    CalmFrame(idt, s, t);
    CalmSplit(idt, s, t);
    RunConcat(Deliver(s, entry, hasCode, err), Stub(v), SAVE);
    assert idt[v] == entry;
    var h := Run(Deliver(s, entry, hasCode, err), Stub(v) + SAVE);
    FrameReads(CalmAtCall(idt, s, t).stack, h.stack, h.gpr[RDI], s, t);
  }

  lemma PlainFields(v: Vector, hasCode: bool, err: int)
    ensures var t := Plain(v, hasCode, err);
            t.vector == v && t.hasCode == hasCode && t.code == err && (Matching(t) <==> hasCode == CpuPushesCode(v, false))
  {
  }

  lemma FrameReads(a: Stack, b: Stack, tf: int, s: Cpu, t: Trap)
    requires FrameComplete(a, tf, s, t) && forall x :: x >= tf ==> Load(a, x) == Load(b, x)
    ensures FrameHolds(b, tf, s)
    ensures Load(b, tf + 8 * TF_VECTOR) == t.vector && Load(b, tf + 8 * TF_ERR) == if t.hasCode then t.code else 0
  {
    hide Load, AlignDown, FrameHolds;
    FrameKept(a, b, tf, s);
  }
}
