/** The P-Enclave's exception benchmark: the handler, traps taken through it, and the whole run. */
module Enclave {
  import opened Words
  import opened PageEntry
  import opened PageTable
  import opened Translation
  import opened Protection
  import opened Paging
  import opened Repair
  import opened Trap
  import opened Accounting

  /** Address of an interrupted program after a handled trap: `ud2` is skipped, everything else retried. */
  function ResumeAt(v: Vector, rip: int): (r: int) { if v == 6 then (rip + 2) % TWO64 else rip }

  /** A trap as the hardware raises it: vector, error code if any, and the address in CR2 for a page fault. */
  datatype Raised = Raised(vector: Vector, hasCode: bool, code: int, cr2: u64)

  /** What the CPU raises: error codes where the stubs expect them, and page faults at canonical addresses
      only (other addresses raise other exceptions). */
  predicate Raisable(r: Raised) { r.hasCode == CpuPushesCode(r.vector, false) && (r.vector == 14 ==> Canonical(r.cr2)) }

  /** The traps on which the handler aborts: vectors it does not know, and page faults at an unaligned
      address or on a large page (other than in the last page of the address space). */
  predicate Fatal(m: Memory, cr3: u64, r: Raised)
  {
    || KindOf(r.vector).None?
    || (r.vector == 14 && (r.cr2 % 0x1000 != 0 || (TableAt(m, cr3, PageOf(r.cr2), 3).Large? && !LastPage(r.cr2))))
  }

  function Vectors(traps: seq<Raised>): (vs: seq<Vector>)
    ensures |vs| == |traps| && forall i: nat :: i < |traps| ==> vs[i] == traps[i].vector
  {
    if traps == [] then [] else Vectors(traps[..|traps| - 1]) + [traps[|traps| - 1].vector]
  }

  /** Where a program is after a run of handled traps. */
  function ResumeAfter(traps: seq<Raised>, rip: int): (r: int)
  {
    if traps == [] then rip else ResumeAt(traps[|traps| - 1].vector, ResumeAfter(traps[..|traps| - 1], rip))
  }

  /** `c++` on an `int` counter, with the wrap-around of two's complement. */
  function Bumped(c: int): (r: int) { if c == 0x7fff_ffff then -0x8000_0000 else c + 1 }

  class Machine {
    const mmu: Mmu
    const cpu: Processor
    const idt: Entries
    var handlerSet: bool
    var intrCount: int
    var pfCount: int
    var udCount: int
    ghost var events: seq<Vector>
    ghost var faults: seq<nat>

    /** Tables in the shape of a tree, nothing stale in the TLB, and honest counters. */
    ghost predicate Ready()
      reads this, mmu
    {
      && TreeShaped(mmu.mem, mmu.cr3) && CoherentExcept(mmu.mem, mmu.cr3, mmu.tlb, {})
      && Counting()
    }

    /** Ready, and the walk starts from the right root. */
    ghost predicate Valid()
      reads this, mmu
    {
      Ready() && mmu.cachedCr3 == mmu.cr3
    }

    /** The counters hold the counts of the log, which has only events the handler knows; the log of
        faulting pages has one page per page fault. */
    ghost predicate Counting()
      reads this
    {
      && intrCount == Int32(Count(events, Intr)) && pfCount == Int32(Count(events, Pf)) && udCount == Int32(Count(events, Ud))
      && (forall i: nat :: i < |events| ==> KindOf(events[i]).Some?)
      && |faults| == Count(events, Pf)
    }

    constructor (mmu: Mmu, s: Cpu, idt: Entries)
      requires TreeShaped(mmu.mem, mmu.cr3) && CoherentExcept(mmu.mem, mmu.cr3, mmu.tlb, {})
      ensures Ready() && this.mmu == mmu && fresh(cpu) && cpu.State() == s && !handlerSet && events == []
    {
      this.mmu := mmu;
      cpu := new Processor(s);
      this.idt := idt;
      handlerSet := false;
      intrCount, pfCount, udCount := 0, 0, 0;
      events, faults := [], [];
    }

    /** `exception_handler`.  `setRip` is what it stores to `info->rip`, if anything. */
    method ExceptionHandler(vector: Vector, cr2: u64, rip: int) returns (out: Outcome, setRip: Option<int>)
      requires Valid()
      modifies this`intrCount, this`pfCount, this`udCount, this`events, this`faults, mmu`mem, mmu`tlb
      ensures match KindOf(vector)
              case None =>
                out == Aborted && mmu.mem == old(mmu.mem) && events == old(events)
              case Some(kind) =>
                && events == old(events) + [vector]
                && (kind == Pf ==>
                      && mmu.mem == RepairOnce(old(mmu.mem), mmu.cr3, cr2).mem
                      && out == (if RepairOnce(old(mmu.mem), mmu.cr3, cr2).aborted then Aborted else Returned(0))
                      && faults == old(faults) + [PageOf(cr2)])
                && (kind != Pf ==> out == Returned(0) && mmu.mem == old(mmu.mem) && mmu.tlb == old(mmu.tlb) && faults == old(faults))
      ensures vector < 32 && vector != 6 && vector != 14 ==> out == Aborted
      ensures vector == 6 || vector >= 32 ==> out == Returned(0)
      ensures udCount == (if vector == 6 then Bumped(old(udCount)) else old(udCount))
      ensures pfCount == (if vector == 14 then Bumped(old(pfCount)) else old(pfCount))
      ensures intrCount == (if vector >= 32 then Bumped(old(intrCount)) else old(intrCount))
      ensures out.Returned? ==> setRip == if vector == 6 then Some((rip + 2) % TWO64) else None
      ensures Counting() && mmu.Valid()
      ensures out.Returned? && (vector == 14 ==> Canonical(cr2)) ==> Valid()
    {
      hide RepairOnce, TreeShaped, Translate, PageOf, Unflushed, ProtectRange, Canonical, Count;
      setRip := None;
      CountSnoc(events, vector, Ud);
      CountSnoc(events, vector, Pf);
      CountSnoc(events, vector, Intr);
      Int32Step(Count(events, Ud));
      Int32Step(Count(events, Pf));
      Int32Step(Count(events, Intr));
      BumpedIs(Count(events, Ud));
      BumpedIs(Count(events, Pf));
      BumpedIs(Count(events, Intr));
      hide Int32, Bumped;
      if vector == 6 {
        udCount := Int32(udCount + 1);
        events := events + [vector];
        return Returned(0), Some((rip + 2) % TWO64);
      } else if vector == 14 {
        pfCount := Int32(pfCount + 1);
        events, faults := events + [vector], faults + [PageOf(cr2)];
        RepairCall(mmu.mem, mmu.cr3, cr2);
        var ret := mmu.Mprotect(cr2, PGSIZE, RW);
        if ret != Returned(0) {
          return Aborted, None;
        }
        return Returned(0), None;
      } else if vector >= 32 {
        intrCount := Int32(intrCount + 1);
        events := events + [vector];
        return Returned(0), None;
      } else {
        return Aborted, None;
      }
    }

    /** A trap taken through the stubs and the common entry, with arbitrary handler code around the
        effects of `exception_handler`.  Without a registered handler it is simply returned from. */
    method TakeTrap(v: Vector, hasCode: bool, code: int, cr2: u64) returns (out: Outcome)
      requires Valid() && hasCode == CpuPushesCode(v, false)
      modifies this`intrCount, this`pfCount, this`udCount, this`events, this`faults, mmu`mem, mmu`tlb, cpu
      ensures !handlerSet ==> out == Returned(0) && mmu.mem == old(mmu.mem) && events == old(events) && faults == old(faults)
      ensures handlerSet ==>
              match KindOf(v)
              case None => out == Aborted
              case Some(kind) =>
                && events == old(events) + [v]
                && (kind == Pf ==>
                      && mmu.mem == RepairOnce(old(mmu.mem), mmu.cr3, cr2).mem
                      && out == (if RepairOnce(old(mmu.mem), mmu.cr3, cr2).aborted then Aborted else Returned(0))
                      && faults == old(faults) + [PageOf(cr2)])
                && (kind != Pf ==> out == Returned(0) && mmu.mem == old(mmu.mem) && faults == old(faults))
      ensures handlerSet && v < 32 && v != 6 && v != 14 ==> out == Aborted
      ensures udCount == (if handlerSet && v == 6 then Bumped(old(udCount)) else old(udCount))
      ensures pfCount == (if handlerSet && v == 14 then Bumped(old(pfCount)) else old(pfCount))
      ensures intrCount == (if handlerSet && v >= 32 then Bumped(old(intrCount)) else old(intrCount))
      ensures out.Returned? ==>
              Resumed(old(cpu.State()), cpu.State(), if handlerSet then ResumeAt(v, old(cpu.rip)) else old(cpu.rip))
      ensures out.Returned? && (v == 14 ==> Canonical(cr2)) ==> Valid()
    {
      hide Run, AtCall, CalmAtCall, FrameOf, Return, RESTORE, AlignDown, Count, RepairOnce, Translate, TreeShaped, Canonical,
           FrameHolds, Resumed, CpuPushesCode, Scribble, CoherentExcept, PageOf, Int32, Bumped;
      ghost var s, t := cpu.State(), Plain(v, hasCode, code);
      CalmFrame(idt, s, t);
      PlainIsCalm(idt, s, v, hasCode, code);
      cpu.Enter(idt, v, hasCode, code);
      ghost var atCall := cpu.stack;
      var frame := cpu.gpr[RDI];
      FrameRip(atCall, frame, s);
      var setRip: Option<int> := None;
      out := Returned(0);
      if handlerSet {
        out, setRip := ExceptionHandler(Load(cpu.stack, frame + 8 * TF_VECTOR), cr2, Load(cpu.stack, frame + 8 * TF_RIP));
        if out == Aborted {
          return;
        }
      }
      var g: Gprs, flags: int, drop: nat, writes: seq<(nat, int)> := *, *, *, *;
      cpu.HandlerCode(frame, g, flags, drop, writes);
      ScribbleStaysBelow(atCall, frame, writes);
      ReturnResumes(s, atCall, cpu.State(), frame, setRip);
      cpu.Leave(frame, setRip);
    }

    /** Conservation of events, over any sequence of traps.  If it does not abort, every trap has been
        counted once under its kind, the three counters together have grown by the number of traps, and the
        interrupted program is back with its registers and stack.  It aborts exactly when one of the traps
        does so on the tables as they are at the start. */
    method TakeTraps(traps: seq<Raised>) returns (out: Outcome)
      requires Valid() && handlerSet && forall i: nat :: i < |traps| ==> Raisable(traps[i])
      modifies this`intrCount, this`pfCount, this`udCount, this`events, this`faults, mmu`mem, mmu`tlb, cpu
      ensures out.Returned? ==>
                && Valid() && events == old(events) + Vectors(traps)
                && (forall kind :: Count(events, kind) == Count(old(events), kind) + Count(Vectors(traps), kind))
                && Count(Vectors(traps), Ud) + Count(Vectors(traps), Pf) + Count(Vectors(traps), Intr) == |traps|
                && Int32(udCount + pfCount + intrCount) == Int32(old(udCount + pfCount + intrCount) + |traps|)
                && (old(udCount) + Count(Vectors(traps), Ud) < 0x8000_0000 ==> udCount == old(udCount) + Count(Vectors(traps), Ud))
                && (old(pfCount) + Count(Vectors(traps), Pf) < 0x8000_0000 ==> pfCount == old(pfCount) + Count(Vectors(traps), Pf))
                && (old(intrCount) + Count(Vectors(traps), Intr) < 0x8000_0000 ==>
                      intrCount == old(intrCount) + Count(Vectors(traps), Intr))
                && Resumed(old(cpu.State()), cpu.State(), ResumeAfter(traps, old(cpu.rip)))
      ensures out == Aborted <==> exists i: nat :: i < |traps| && Fatal(old(mmu.mem), mmu.cr3, traps[i])
    {
      hide TreeShaped, Translate, CoherentExcept, Canonical, AlignDown, Count, RepairOnce, PageOf, CpuPushesCode, Int32, Load, ResumeAt, ResumeAfter, Vectors, Fatal, SameTables;
      ghost var before, m0 := events, mmu.mem;
      SameTablesRefl(m0, mmu.cr3);
      out := Returned(0);
      RaisedNone(traps, before, old(cpu.rip));
      for i := 0 to |traps|
        invariant Valid() && out == Returned(0) && events == before + Vectors(traps[..i])
        invariant SameTables(m0, mmu.mem, mmu.cr3) && forall j: nat :: j < i ==> !Fatal(m0, mmu.cr3, traps[j])
        invariant Resumed(old(cpu.State()), cpu.State(), ResumeAfter(traps[..i], old(cpu.rip)))
      {
        var t := traps[i];
        RaisedNext(traps, i, before, old(cpu.rip));
        FatalIs(m0, mmu.mem, mmu.cr3, t);
        out := TakeTrap(t.vector, t.hasCode, t.code, t.cr2);
        if out == Aborted {
          return;
        }
      }
      assert traps[..|traps|] == traps;
      EventsOf(m0, mmu.cr3, traps);
      CountsGrow(before, Vectors(traps));
      CountShown(Count(before, Ud), Count(Vectors(traps), Ud));
      CountShown(Count(before, Pf), Count(Vectors(traps), Pf));
      CountShown(Count(before, Intr), Count(Vectors(traps), Intr));
    }

    /** The other half of fault progress.  A write to a page that the handler cannot make writable is
        retried n times: each retry faults and is counted as one #PF, the tables do not change after the
        first, neither they nor the TLB ever allow the write, and the program stays where it is. */
    method RefusedWrite(vaddr: u64, n: nat) returns (out: Outcome)
      requires Valid() && handlerSet && vaddr % 0x1000 == 0 && Canonical(vaddr)
      requires !CanWrite(Translate(mmu.mem, mmu.cr3, PageOf(vaddr))) && !Repairable(mmu.mem, mmu.cr3, vaddr)
      requires TableAt(mmu.mem, mmu.cr3, PageOf(vaddr), 3).Large? ==> LastPage(vaddr)
      modifies this`intrCount, this`pfCount, this`udCount, this`events, this`faults, mmu`mem, mmu`tlb, cpu
      ensures Valid() && out == Returned(0)
      ensures !Allows(mmu.Lookup(PageOf(vaddr)), true) && !CanWrite(Translate(mmu.mem, mmu.cr3, PageOf(vaddr)))
      ensures mmu.mem == if n == 0 then old(mmu.mem) else RepairOnce(old(mmu.mem), mmu.cr3, vaddr).mem
      ensures Count(events, Pf) == Count(old(events), Pf) + n && faults == old(faults) + seq(n, _ => PageOf(vaddr))
      ensures udCount == old(udCount) && intrCount == old(intrCount)
      ensures pfCount == Int32(old(pfCount) + n) && (old(pfCount) + n < 0x8000_0000 ==> pfCount == old(pfCount) + n)
      ensures Resumed(old(cpu.State()), cpu.State(), old(cpu.rip))
    {
      hide TreeShaped, Translate, Repairable, RepairOnce, Canonical, AlignDown, Count, PageOf, TableAt, Int32, LastPage;
      ghost var m0 := mmu.mem;
      out := Returned(0);
      WrapIdem(Count(events, Pf), 0);
      for i := 0 to n
        invariant Valid() && out == Returned(0)
        invariant mmu.mem == RepairTimes(m0, mmu.cr3, vaddr, i).mem && !RepairTimes(m0, mmu.cr3, vaddr, i).aborted
        invariant i > 0 ==> mmu.mem == RepairOnce(m0, mmu.cr3, vaddr).mem
        invariant !CanWrite(Translate(mmu.mem, mmu.cr3, PageOf(vaddr)))
        invariant Count(events, Pf) == Count(old(events), Pf) + i && faults == old(faults) + seq(i, _ => PageOf(vaddr))
        invariant Count(events, Ud) == Count(old(events), Ud) && Count(events, Intr) == Count(old(events), Intr)
        invariant Resumed(old(cpu.State()), cpu.State(), old(cpu.rip))
      {
        mmu.Hardware();
        assert !Allows(mmu.Lookup(PageOf(vaddr)), true);
        CountSnoc(events, 14, Pf);
        CountSnoc(events, 14, Ud);
        CountSnoc(events, 14, Intr);
        FaultProgress(m0, mmu.cr3, vaddr, i + 1);
        out := TakeTrap(14, true, 2, vaddr);
      }
      WrapIdem(Count(old(events), Pf), n);
      CountShown(Count(old(events), Pf), n);
    }

    /** Any number of external interrupts, on vectors the CPU raises without an error code. */
    method Interrupts()
      requires Valid() && handlerSet
      modifies this`intrCount, this`pfCount, this`udCount, this`events, this`faults, mmu`mem, mmu`tlb, cpu
      ensures Valid() && mmu.mem == old(mmu.mem) && faults == old(faults)
      ensures Count(events, Ud) == Count(old(events), Ud) && Count(events, Pf) == Count(old(events), Pf)
      ensures Resumed(old(cpu.State()), cpu.State(), old(cpu.rip))
    {
      hide TreeShaped, Translate, CoherentExcept, Canonical, AlignDown, Count;
      var n: nat := *;
      while n > 0
        invariant Valid() && mmu.mem == old(mmu.mem) && faults == old(faults)
        invariant Count(events, Ud) == Count(old(events), Ud) && Count(events, Pf) == Count(old(events), Pf)
        invariant Resumed(old(cpu.State()), cpu.State(), old(cpu.rip))
      {
        var v: Vector :| v >= 32;
        CountSnoc(events, v, Ud);
        CountSnoc(events, v, Pf);
        var out := TakeTrap(v, false, 0, 0);
        n := n - 1;
      }
    }

    /** One access to the first byte of a page: retried after each fault until the hardware allows it.
        It faults at most once, and only if the tables did not allow it to begin with. */
    method Access(vaddr: u64, write: bool) returns (out: Outcome)
      requires Valid() && handlerSet && vaddr % 0x1000 == 0 && Canonical(vaddr)
      requires Allows(Translate(mmu.mem, mmu.cr3, PageOf(vaddr)), write) || Repairable(mmu.mem, mmu.cr3, vaddr)
      modifies this`intrCount, this`pfCount, this`udCount, this`events, this`faults, mmu`mem, mmu`tlb, cpu
      ensures Valid() && out == Returned(0)
      ensures if Allows(Translate(old(mmu.mem), mmu.cr3, PageOf(vaddr)), write)
              then mmu.mem == old(mmu.mem) && faults == old(faults)
              else mmu.mem == RepairOnce(old(mmu.mem), mmu.cr3, vaddr).mem && faults == old(faults) + [PageOf(vaddr)]
      ensures Count(events, Ud) == Count(old(events), Ud)
      ensures Resumed(old(cpu.State()), cpu.State(), old(cpu.rip))
    {
      hide TreeShaped, Translate, Repairable, RepairOnce, Canonical, AlignDown, Count, PageOf, TableAt, SameTables;
      ghost var allowed := Allows(Translate(mmu.mem, mmu.cr3, PageOf(vaddr)), write);
      ghost var faulted := false;
      if !allowed {
        RepairSucceeds(mmu.mem, mmu.cr3, vaddr);
      }
      while true
        invariant Valid() && allowed == Allows(Translate(old(mmu.mem), mmu.cr3, PageOf(vaddr)), write)
        invariant !faulted ==> mmu.mem == old(mmu.mem) && faults == old(faults)
        invariant faulted ==> !allowed && mmu.mem == RepairOnce(old(mmu.mem), mmu.cr3, vaddr).mem
                              && faults == old(faults) + [PageOf(vaddr)]
        invariant Count(events, Ud) == Count(old(events), Ud)
        invariant Resumed(old(cpu.State()), cpu.State(), old(cpu.rip))
        decreases if faulted || allowed then 0 else 1
      {
        mmu.Hardware();
        Interrupts();
        if Allows(mmu.Lookup(PageOf(vaddr)), write) {
          return Returned(0);
        }
        assert !allowed && !faulted;
        CountSnoc(events, 14, Ud);
        var trap := TakeTrap(14, true, if write then 2 else 0, vaddr);
        faulted := true;
      }
    }

    /** `test_buf[i] = 0` for the first byte of every page of an n-page buffer. */
    method WriteSweep(buf: u64, n: nat) returns (out: Outcome)
      requires Valid() && handlerSet && buf % 0x1000 == 0 && SweepRange(buf / 0x1000, buf / 0x1000 + n)
      requires BufferMapped(mmu.mem, mmu.cr3, buf / 0x1000, buf / 0x1000 + n)
      modifies this`intrCount, this`pfCount, this`udCount, this`events, this`faults, mmu`mem, mmu`tlb, cpu
      ensures Valid() && out == Returned(0) && SameTables(old(mmu.mem), mmu.mem, mmu.cr3)
      ensures LeafMap(mmu.mem, mmu.cr3) == Swept(LeafMap(old(mmu.mem), mmu.cr3), buf / 0x1000, buf / 0x1000 + n)
      ensures var a := LeafMap(old(mmu.mem), mmu.cr3);
              LeafMap(mmu.mem, mmu.cr3).Keys == a.Keys &&
              forall p :: p in a ==>
                LeafMap(mmu.mem, mmu.cr3)[p] ==
                if Touched(p, buf / 0x1000, buf / 0x1000 + n) && a[p] % 4 != 3 then FrameNumber(a[p]) * 0x1000 + 3 else a[p]
      ensures faults == old(faults) + FaultsOf(LeafMap(old(mmu.mem), mmu.cr3), buf / 0x1000, buf / 0x1000 + n)
      ensures Count(events, Ud) == Count(old(events), Ud)
      ensures Resumed(old(cpu.State()), cpu.State(), old(cpu.rip))
    {
      hide TreeShaped, Translate, Repairable, RepairOnce, Canonical, AlignDown, Count, TableAt, SameTables, LeafMap, LastPage, PageOf, Swept,
           StepPage, BufferMapped, LeafAllowsWrite, Rewrite, FrameNumber, Touched;
      ghost var lo, a := buf / 0x1000, LeafMap(mmu.mem, mmu.cr3);
      SameTablesRefl(mmu.mem, mmu.cr3);
      SweptNothing(a, lo);
      SweptEntries(a, lo, lo + n);
      for i := 0 to n
        invariant Valid() && SameTables(old(mmu.mem), mmu.mem, mmu.cr3)
        invariant BufferMapped(mmu.mem, mmu.cr3, lo, lo + n)
        invariant LeafMap(mmu.mem, mmu.cr3) == Swept(a, lo, lo + i)
        invariant faults == old(faults) + FaultsOf(a, lo, lo + i)
        invariant Count(events, Ud) == Count(old(events), Ud)
        invariant Resumed(old(cpu.State()), cpu.State(), old(cpu.rip))
      {
        var vaddr := buf + i * PGSIZE;
        ghost var m, k := mmu.mem, lo + i;
        assert vaddr / 0x1000 == k && vaddr % 0x1000 == 0;
        SweepStep(m, mmu.cr3, lo, lo + n, k, vaddr, a);
        BufferPage(m, mmu.cr3, lo, lo + n, k);
        RepairUpdatesLeaf(m, mmu.cr3, vaddr);
        SameTablesRefl(m, mmu.cr3);
        out := Access(vaddr, true);
        SweptStep(a, lo, lo + n, k);
        SameTablesTrans(old(mmu.mem), m, mmu.mem, mmu.cr3);
        BufferStaysMapped(m, mmu.mem, mmu.cr3, lo, lo + n);
      }
      out := Returned(0);
    }

    /** The `mprotect` of the whole buffer: every leaf entry of it becomes its old frame with bit 0 set and
        nothing else. */
    method ProtectBuffer(buf: u64, n: nat) returns (ret: Outcome)
      requires Valid() && buf % 0x1000 == 0 && SweepRange(buf / 0x1000, buf / 0x1000 + n)
      requires BufferMapped(mmu.mem, mmu.cr3, buf / 0x1000, buf / 0x1000 + n)
      modifies mmu`mem, mmu`tlb
      ensures Valid() && ret == Returned(0) && SameTables(old(mmu.mem), mmu.mem, mmu.cr3)
      ensures LeafMap(mmu.mem, mmu.cr3) == Protected(LeafMap(old(mmu.mem), mmu.cr3), buf / 0x1000, buf / 0x1000 + n, PTE_P)
      ensures var a := LeafMap(old(mmu.mem), mmu.cr3);
              LeafMap(mmu.mem, mmu.cr3).Keys == a.Keys &&
              forall p :: p in a ==>
                LeafMap(mmu.mem, mmu.cr3)[p] ==
                if Touched(p, buf / 0x1000, buf / 0x1000 + n) then FrameNumber(a[p]) * 0x1000 + 1 else a[p]
    {
      hide TreeShaped, Translate, Canonical, Count, TableAt, SameTables, LeafMap, Int32, Touched, Protected, StepPage, BufferMapped, Rewrite,
           ProtectRange, Unflushed, CoherentExcept, SweepRange, EndStep, FrameNumber, MeetsLarge;
      BufferProtect(mmu.mem, mmu.cr3, buf, n);
      ProtectedEntries(LeafMap(mmu.mem, mmu.cr3), buf / 0x1000, buf / 0x1000 + n, PTE_P);
      ret := mmu.Mprotect(buf, n * PGSIZE, PTE_P);
    }

    /** `ecall_exception` on an n-page buffer (the program has n = 32768).  It never aborts.  The page
        faults are, in order: one for each page that was not writable to begin with, and then one for
        each page of the buffer.  Every page ends up with its old frame and the flags P and W, no other
        leaf entry has changed, and the interrupted program has its registers and stack back. */
    method EcallException(buf: u64, n: nat, nrepeats: nat, ud2At: int) returns (out: Outcome)
      requires Ready() && buf % 0x1000 == 0 && n > 0 && SweepRange(buf / 0x1000, buf / 0x1000 + n)
      requires BufferMapped(mmu.mem, mmu.cr3, buf / 0x1000, buf / 0x1000 + n)
      modifies this`handlerSet, this`intrCount, this`pfCount, this`udCount, this`events, this`faults,
               mmu`cachedCr3, mmu`mem, mmu`tlb, cpu
      ensures Valid() && out == Returned(0)
      ensures var lo, a := buf / 0x1000, LeafMap(old(mmu.mem), mmu.cr3);
              && LeafMap(mmu.mem, mmu.cr3) == Protected(a, lo, lo + n, RW)
              && faults == old(faults) + FaultsOf(a, lo, lo + n) + seq(n, i requires 0 <= i => StepPage(lo + i))
              && pfCount == Int32(Count(old(events), Pf) + |FaultsOf(a, lo, lo + n)| + n)
      ensures var lo, a := buf / 0x1000, LeafMap(old(mmu.mem), mmu.cr3);
              LeafMap(mmu.mem, mmu.cr3).Keys == a.Keys &&
              forall p :: p in a ==>
                LeafMap(mmu.mem, mmu.cr3)[p] == if Touched(p, lo, lo + n) then FrameNumber(a[p]) * 0x1000 + 3 else a[p]
      ensures var growth := |FaultsOf(LeafMap(old(mmu.mem), mmu.cr3), buf / 0x1000, buf / 0x1000 + n)| + n;
              old(pfCount) + growth < 0x8000_0000 ==> pfCount == old(pfCount) + growth
      ensures udCount == Int32(Count(old(events), Ud) + nrepeats)
      ensures old(udCount) + nrepeats < 0x8000_0000 ==> udCount == old(udCount) + nrepeats
      ensures Resumed(old(cpu.State()), cpu.State(), if nrepeats == 0 then old(cpu.rip) else (ud2At + 2) % TWO64)
    {
      hide TreeShaped, Translate, Canonical, AlignDown, Count, TableAt, SameTables, LeafMap, Swept, Int32, Touched, Protected,
           StepPage, BufferMapped, LeafAllowsWrite, Rewrite, ProtectRange, Stop, Unflushed, CoherentExcept, FaultsOf, SweepRange, EndStep,
           FrameNumber, MeetsLarge;
      ghost var lo, hi, m0, a := buf / 0x1000, buf / 0x1000 + n, mmu.mem, LeafMap(mmu.mem, mmu.cr3);
      handlerSet := true;
      mmu.CacheCr3(mmu.cr3);
      out := WriteSweep(buf, n);
      ghost var m1 := mmu.mem;
      BufferStaysMapped(m0, m1, mmu.cr3, lo, hi);
      var ret := ProtectBuffer(buf, n);
      if ret != Returned(0) {
        return Aborted;
      }
      ghost var m2 := mmu.mem;
      BufferStaysMapped(m1, m2, mmu.cr3, lo, hi);
      FirstPageReadable(m1, m2, mmu.cr3, buf, n);
      out := Access(buf, false);
      assert mmu.mem == m2;
      out := WriteSweep(buf, n);
      SweepProtectSweep(a, lo, hi);
      ProtectedEntries(a, lo, hi, RW);
      CountShown(Count(old(events), Pf), |FaultsOf(a, lo, hi)| + n);
      CountShown(Count(old(events), Ud), nrepeats);
      ProtectedSweepFaults(Swept(a, lo, hi), lo, hi, hi);
      RunUd2(nrepeats, ud2At);
      out := Returned(0);
    }

    /** The loop of `ud2` instructions: one #UD each, however many interrupts arrive in between. */
    method RunUd2(nrepeats: nat, ud2At: int)
      requires Valid() && handlerSet
      modifies this`intrCount, this`pfCount, this`udCount, this`events, this`faults, mmu`mem, mmu`tlb, cpu
      ensures Valid() && mmu.mem == old(mmu.mem) && faults == old(faults)
      ensures Count(events, Ud) == Count(old(events), Ud) + nrepeats
      ensures old(udCount) + nrepeats < 0x8000_0000 ==> udCount == old(udCount) + nrepeats
      ensures Resumed(old(cpu.State()), cpu.State(), if nrepeats == 0 then old(cpu.rip) else (ud2At + 2) % TWO64)
    {
      hide TreeShaped, Translate, Canonical, AlignDown, Count, CoherentExcept, Int32;
      CountShown(Count(events, Ud), nrepeats);
      for i := 0 to nrepeats
        invariant Valid() && handlerSet && mmu.mem == old(mmu.mem) && faults == old(faults)
        invariant Count(events, Ud) == Count(old(events), Ud) + i
        invariant Resumed(old(cpu.State()), cpu.State(), if i == 0 then old(cpu.rip) else (ud2At + 2) % TWO64)
      {
        Interrupts();
        cpu.rip := ud2At;
        CountSnoc(events, 6, Ud);
        var trap := TakeTrap(6, false, 0, 0);
      }
    }
  }

  /** Whether a trap is fatal does not depend on what repairs have done to the leaf entries so far, and no
      repair touches the tables above them. */
  lemma FatalIs(m0: Memory, m: Memory, cr3: u64, r: Raised)
    requires TreeShaped(m, cr3) && SameTables(m0, m, cr3)
    ensures Fatal(m0, cr3, r) <==> KindOf(r.vector).None? || (KindOf(r.vector) == Some(Pf) && RepairOnce(m, cr3, r.cr2).aborted)
    ensures SameTables(m0, RepairOnce(m, cr3, r.cr2).mem, cr3)
  {
    hide TableAt, ProtectRange, PageOf, LastPage, TreeShaped;
    var p := PageOf(r.cr2);
    assert TableAt(m, cr3, p, 3) == TableAt(m0, cr3, p, 3);
    hide SameTables;
    SameTablesRefl(m, cr3);
    if r.cr2 % 0x1000 == 0 {
      StoreAtEffect(m, cr3, p, Rewrite(LeafWord(m, cr3, p), RW));
    }
    SameTablesTrans(m0, m, RepairOnce(m, cr3, r.cr2).mem, cr3);
  }

  lemma EventsOf(m: Memory, cr3: u64, traps: seq<Raised>)
    requires forall i: nat :: i < |traps| ==> !Fatal(m, cr3, traps[i])
    ensures Count(Vectors(traps), Ud) + Count(Vectors(traps), Pf) + Count(Vectors(traps), Intr) == |traps|
  {
    hide Count, KindOf, TableAt, PageOf, LastPage;
    EventsConserved(Vectors(traps));
  }

  lemma RaisedNone(traps: seq<Raised>, before: seq<Vector>, rip: int)
    ensures before + Vectors(traps[..0]) == before && ResumeAfter(traps[..0], rip) == rip
  {
    assert traps[..0] == [];
  }

  lemma RaisedNext(traps: seq<Raised>, i: nat, before: seq<Vector>, rip: int)
    requires i < |traps|
    ensures before + Vectors(traps[..i + 1]) == before + Vectors(traps[..i]) + [traps[i].vector]
    ensures ResumeAfter(traps[..i + 1], rip) == ResumeAt(traps[i].vector, ResumeAfter(traps[..i], rip))
  {
    assert traps[..i + 1][..i] == traps[..i];
  }

  /** Counts, exact and wrapped, after more events. */
  lemma CountsGrow(a: seq<Vector>, b: seq<Vector>)
    ensures forall kind :: Count(a + b, kind) == Count(a, kind) + Count(b, kind)
    ensures var n := Count(b, Ud) + Count(b, Pf) + Count(b, Intr);
            Int32(Int32(Count(a + b, Ud)) + Int32(Count(a + b, Pf)) + Int32(Count(a + b, Intr))) ==
            Int32(Int32(Count(a, Ud)) + Int32(Count(a, Pf)) + Int32(Count(a, Intr)) + n)
  {
    hide Count, Int32;
    forall kind ensures Count(a + b, kind) == Count(a, kind) + Count(b, kind) {
      CountConcat(a, b, kind);
    }
    Int32Sum(Count(a + b, Ud), Count(a + b, Pf), Count(a + b, Intr), 0);
    Int32Sum(Count(a, Ud), Count(a, Pf), Count(a, Intr), Count(b, Ud) + Count(b, Pf) + Count(b, Intr));
  }

  lemma WrapIdem(c: int, n: int)
    ensures Int32(Int32(c) + n) == Int32(c + n)
  {
    Int32Sum(c, 0, 0, n);
  }

  lemma BumpedIs(c: int)
    ensures Int32(Int32(c) + 1) == Bumped(Int32(c))
  {
    Int32Range(c);
    Int32Range(Int32(c) + 1);
  }

  /** A counter that does not overflow shows n more after n more events. */
  lemma CountShown(c: int, n: nat)
    ensures Int32(c) + n < 0x8000_0000 ==> Int32(c + n) == Int32(c) + n
  {
    Int32Range(c);
    if Int32(c) + n < 0x8000_0000 {
      Int32Grows(c, n);
    }
  }

  lemma RepairCall(m: Memory, cr3: u64, fault: u64)
    ensures fault % 0x1000 == 0 ==> RepairOnce(m, cr3, fault) == ProtectRange(m, cr3, fault / 0x1000, EndStep(fault, 0x1000), RW)
    ensures fault % 0x1000 != 0 ==> RepairOnce(m, cr3, fault) == Effect(m, true)
    ensures fault % 0x1000 == 0 && Canonical(fault) ==> Unflushed(fault / 0x1000, EndStep(fault, 0x1000)) == {}
  {
    hide ProtectRange, RepairOnce;
    if fault % 0x1000 == 0 {
      RepairIsMprotect(m, cr3, fault);
    } else {
      UnalignedAborts(m, cr3, fault);
    }
    if fault % 0x1000 == 0 && Canonical(fault) {
      UnflushedOne(fault / 0x1000, EndStep(fault, 0x1000));
    }
  }

  lemma UnalignedAborts(m: Memory, cr3: u64, fault: u64)
    requires fault % 0x1000 != 0
    ensures RepairOnce(m, cr3, fault) == Effect(m, true)
  {
  }

  lemma UnflushedOne(k: nat, hi: nat)
    requires CanonicalStep(k) && hi <= k + 1
    ensures Unflushed(k, hi) == {}
  {
    forall p: nat ensures !UnflushedBy(p, k, hi) {
    }
  }

  lemma FrameRip(stack: Stack, tf: int, s: Cpu)
    requires FrameHolds(stack, tf, s)
    ensures Load(stack, tf + 8 * TF_RIP) == s.rip
  {
  }

  lemma ScribbleStaysBelow(stack: Stack, frame: int, writes: seq<(nat, int)>)
    ensures forall a :: a >= frame ==> Load(Scribble(stack, frame - 16, writes), a) == Load(stack, a)
  {
    forall a | a >= frame ensures Load(Scribble(stack, frame - 16, writes), a) == Load(stack, a) {
      ScribbleBelow(stack, frame - 16, writes, a);
    }
  }

  /** Every page of the buffer has a leaf slot below entries that allow writes. */
  ghost predicate BufferMapped(m: Memory, cr3: u64, lo: nat, hi: nat)
  {
    forall k: nat :: lo <= k < hi ==> HasSlot(m, cr3, StepPage(k)) && WritableAbove(m, cr3, StepPage(k), 3)
  }

  lemma BufferStaysMapped(m: Memory, m': Memory, cr3: u64, lo: nat, hi: nat)
    requires BufferMapped(m, cr3, lo, hi) && SameTables(m, m', cr3)
    ensures BufferMapped(m', cr3, lo, hi)
  {
    hide TableAt, StepPage;
    forall k: nat | lo <= k < hi ensures HasSlot(m', cr3, StepPage(k)) && WritableAbove(m', cr3, StepPage(k), 3) {
      assert TableAt(m', cr3, StepPage(k), 3) == TableAt(m, cr3, StepPage(k), 3);
      WritableAboveSame(m, m', cr3, StepPage(k), 3);
    }
  }

  lemma RepairSucceeds(m: Memory, cr3: u64, vaddr: u64)
    requires TreeShaped(m, cr3) && vaddr % 0x1000 == 0 && Repairable(m, cr3, vaddr)
    requires !CanWrite(Translate(m, cr3, PageOf(vaddr)))
    ensures !RepairOnce(m, cr3, vaddr).aborted
    ensures CanWrite(Translate(RepairOnce(m, cr3, vaddr).mem, cr3, PageOf(vaddr)))
  {
    RepairProgress(m, cr3, vaddr);
  }

  /** On a page with a slot below writable entries, the leaf entry alone decides. */
  lemma LeafDecides(m: Memory, cr3: u64, p: nat)
    requires TreeShaped(m, cr3) && p < PAGES && HasSlot(m, cr3, p) && WritableAbove(m, cr3, p, 3)
    ensures p in LeafMap(m, cr3)
    ensures Allows(Translate(m, cr3, p), true) <==> LeafAllowsWrite(LeafMap(m, cr3)[p])
    ensures Allows(Translate(m, cr3, p), false) <==> Present(LeafMap(m, cr3)[p])
  {
    HwUsesSlot(m, cr3, p);
  }

  lemma StepAddress(k: nat, lo: nat, hi: nat)
    requires SweepRange(lo, hi) && lo <= k < hi
    ensures k * 0x1000 < TWO64 && k * 0x1000 % 0x1000 == 0 && StepPage(k) < PAGES
    ensures Canonical(k * 0x1000) && PageOf(k * 0x1000) == StepPage(k) && !LastPage(k * 0x1000)
  {
    assert k * 0x1000 / 0x1000 == k;
  }

  lemma RepairUpdatesLeaf(m: Memory, cr3: u64, vaddr: u64)
    requires TreeShaped(m, cr3) && vaddr % 0x1000 == 0 && !LastPage(vaddr) && HasSlot(m, cr3, PageOf(vaddr))
    ensures var p := PageOf(vaddr);
            && p in LeafMap(m, cr3)
            && LeafMap(RepairOnce(m, cr3, vaddr).mem, cr3) == LeafMap(m, cr3)[p := Rewrite(LeafMap(m, cr3)[p], RW)]
            && SameTables(m, RepairOnce(m, cr3, vaddr).mem, cr3)
  {
    StoreAtEffect(m, cr3, PageOf(vaddr), Rewrite(LeafWord(m, cr3, PageOf(vaddr)), RW));
  }

  /** The next access of a sweep, seen in the abstract page table. */
  lemma SweepStep(m: Memory, cr3: u64, lo: nat, hi: nat, k: nat, vaddr: u64, a: map<nat, u64>)
    requires TreeShaped(m, cr3) && SweepRange(lo, hi) && BufferMapped(m, cr3, lo, hi) && lo <= k < hi
    requires vaddr == k * 0x1000 && LeafMap(m, cr3) == Swept(a, lo, k)
    ensures Canonical(vaddr) && PageOf(vaddr) == StepPage(k) && StepPage(k) in a
    ensures Allows(Translate(m, cr3, StepPage(k)), true) || Repairable(m, cr3, vaddr)
    ensures Allows(Translate(m, cr3, StepPage(k)), true) <==> LeafAllowsWrite(a[StepPage(k)])
  {
    hide *;
    BufferPage(m, cr3, lo, hi, k);
    LeafDecides(m, cr3, StepPage(k));
    SweptKeys(a, lo, k);
    assert StepPage(k) in LeafMap(m, cr3).Keys;
    SweptStep(a, lo, hi, k);
  }

  lemma BufferPage(m: Memory, cr3: u64, lo: nat, hi: nat, k: nat)
    requires SweepRange(lo, hi) && BufferMapped(m, cr3, lo, hi) && lo <= k < hi
    ensures k * 0x1000 < TWO64 && k * 0x1000 % 0x1000 == 0 && StepPage(k) < PAGES
    ensures Canonical(k * 0x1000) && PageOf(k * 0x1000) == StepPage(k) && !LastPage(k * 0x1000)
    ensures HasSlot(m, cr3, StepPage(k)) && WritableAbove(m, cr3, StepPage(k), 3) && Repairable(m, cr3, k * 0x1000)
  {
    hide TableAt, StepPage, PageOf, Canonical, LastPage, SweepRange, PAGES;
    StepAddress(k, lo, hi);
    assert HasSlot(m, cr3, StepPage(k)) && WritableAbove(m, cr3, StepPage(k), 3);
    hide *;
    RepairableIf(m, cr3, k * 0x1000);
  }

  lemma RepairableIf(m: Memory, cr3: u64, vaddr: u64)
    requires HasSlot(m, cr3, PageOf(vaddr)) && WritableAbove(m, cr3, PageOf(vaddr), 3) && !LastPage(vaddr)
    ensures Repairable(m, cr3, vaddr)
  {
  }

  /** Protecting the whole buffer. */
  lemma BufferProtect(m: Memory, cr3: u64, buf: u64, n: nat)
    requires TreeShaped(m, cr3) && buf % 0x1000 == 0 && SweepRange(buf / 0x1000, buf / 0x1000 + n)
    requires BufferMapped(m, cr3, buf / 0x1000, buf / 0x1000 + n)
    ensures n * 0x1000 < TWO64 && n * 0x1000 % 0x1000 == 0 && EndStep(buf, n * 0x1000) == buf / 0x1000 + n
    ensures var lo := buf / 0x1000;
            var r := ProtectRange(m, cr3, lo, lo + n, PTE_P);
            && Unflushed(lo, lo + n) == {} && !r.aborted && SameTables(m, r.mem, cr3)
            && LeafMap(r.mem, cr3) == Protected(LeafMap(m, cr3), lo, lo + n, PTE_P)
  {
    hide *;
    var lo, hi := buf / 0x1000, buf / 0x1000 + n;
    BufferEnd(buf, n);
    SweepInHalf(lo, hi);
    CanonicalRangeFlushed(lo, hi);
    BufferHasNoLarge(m, cr3, lo, hi);
    ProtectRefines(m, cr3, lo, hi, PTE_P);
  }

  lemma SweepInHalf(lo: nat, hi: nat)
    requires SweepRange(lo, hi)
    ensures hi <= 0x8_0000_0000 || (0xf_fff8_0000_0000 <= lo && hi <= 0x10_0000_0000_0000)
  {
  }

  lemma BufferEnd(buf: u64, n: nat)
    requires buf % 0x1000 == 0 && SweepRange(buf / 0x1000, buf / 0x1000 + n)
    ensures n * 0x1000 < TWO64 && n * 0x1000 % 0x1000 == 0 && EndStep(buf, n * 0x1000) == buf / 0x1000 + n
  {
    assert buf + n * 0x1000 == (buf / 0x1000 + n) * 0x1000;
  }

  lemma BufferHasNoLarge(m: Memory, cr3: u64, lo: nat, hi: nat)
    requires lo <= hi && BufferMapped(m, cr3, lo, hi)
    ensures Stop(m, cr3, lo, hi) == hi
  {
    hide TableAt, StepPage, Stop;
    forall k: nat | lo <= k < hi ensures !LargeAt(m, cr3, k) {
      assert HasSlot(m, cr3, StepPage(k));
    }
    hide LargeAt, BufferMapped;
    StopIsFirst(m, cr3, lo, hi);
  }

  /** The read between protection and the write sweep does not fault. */
  lemma FirstPageReadable(m1: Memory, m2: Memory, cr3: u64, buf: u64, n: nat)
    requires TreeShaped(m2, cr3) && buf % 0x1000 == 0 && n > 0 && SweepRange(buf / 0x1000, buf / 0x1000 + n)
    requires BufferMapped(m2, cr3, buf / 0x1000, buf / 0x1000 + n)
    requires LeafMap(m2, cr3) == Protected(LeafMap(m1, cr3), buf / 0x1000, buf / 0x1000 + n, PTE_P)
    ensures Canonical(buf) && Allows(Translate(m2, cr3, PageOf(buf)), false)
  {
    var lo, hi := buf / 0x1000, buf / 0x1000 + n;
    StepAddress(lo, lo, hi);
    assert HasSlot(m2, cr3, StepPage(lo)) && WritableAbove(m2, cr3, StepPage(lo), 3);
    hide TreeShaped, Translate, TableAt, StepPage, Canonical, LastPage, Rewrite, WritableAbove, LeafMap;
    LeafDecides(m2, cr3, StepPage(lo));
    assert lo <= lo < hi && Touched(StepPage(lo), lo, hi);
    ReadOnlyFlags(LeafMap(m1, cr3)[StepPage(lo)]);
  }
}
