/** World switches of the edge-call benchmark: nested ECALLs and OCALLs, the crossings they make, and the
    counts that `bench_main` reports. */
module EdgeCalls {
  import opened Words

  datatype Switch = EENTER | EEXIT

  /** A call across the boundary with the calls made while it runs. */
  datatype Call = Ecall(inner: seq<Call>) | Ocall(inner: seq<Call>)

  /** The world switches of one call: an OCALL leaves by EEXIT and comes back by EENTER. */
  function Trace(c: Call): (r: seq<Switch>)
    decreases c, 1
  {
    match c
    case Ecall(inner) => [EENTER] + Traces(inner) + [EEXIT]
    case Ocall(inner) => [EEXIT] + Traces(inner) + [EENTER]
  }

  function Traces(calls: seq<Call>): (r: seq<Switch>)
    decreases calls, 0
  {
    if calls == [] then [] else Trace(calls[0]) + Traces(calls[1..])
  }

  function Size(c: Call): (r: nat)
    decreases c, 1
  {
    match c
    case Ecall(inner) => 1 + Sizes(inner)
    case Ocall(inner) => 1 + Sizes(inner)
  }

  function Sizes(calls: seq<Call>): (r: nat)
    decreases calls, 0
  {
    if calls == [] then 0 else Size(calls[0]) + Sizes(calls[1..])
  }

  function Tally(trace: seq<Switch>, s: Switch): (r: nat)
  {
    if trace == [] then 0 else (if trace[0] == s then 1 else 0) + Tally(trace[1..], s)
  }

  lemma {:induction false} TallyConcat(a: seq<Switch>, b: seq<Switch>, s: Switch)
    ensures Tally(a + b, s) == Tally(a, s) + Tally(b, s)
    decreases |a|
  {
    if a == [] {
      assert a + b == b;
    } else {
      TallyConcat(a[1..], b, s);
      assert (a + b)[1..] == a[1..] + b;
    }
  }

  /** Every call, of either kind and at any depth, makes one EENTER and one EEXIT. */
  lemma {:induction false} BalancedCall(c: Call, s: Switch)
    ensures Tally(Trace(c), s) == Size(c)
    decreases c, 1
  {
    BalancedCrossings(c.inner, s);
    TallyConcat([EENTER] + Traces(c.inner), [EEXIT], s);
    TallyConcat([EENTER], Traces(c.inner), s);
    TallyConcat([EEXIT] + Traces(c.inner), [EENTER], s);
    TallyConcat([EEXIT], Traces(c.inner), s);
    OneSwitch(EENTER, s);
    OneSwitch(EEXIT, s);
  }

  lemma OneSwitch(x: Switch, s: Switch)
    ensures Tally([x], s) == if x == s then 1 else 0
  {
    assert [x][1..] == [];
  }

  /** EENTERs = EEXITs = ECALLs + OCALLs, for every forest of nested calls. */
  lemma {:induction false} BalancedCrossings(calls: seq<Call>, s: Switch)
    ensures Tally(Traces(calls), s) == Sizes(calls)
    decreases calls, 0
  {
    if calls != [] {
      BalancedCall(calls[0], s);
      BalancedCrossings(calls[1..], s);
      TallyConcat(Trace(calls[0]), Traces(calls[1..]), s);
    }
  }

  // ----- Alternation -----

  datatype Side = App | Enclave | Stuck

  /** The side of the boundary after a trace; a switch from the wrong side is impossible. */
  function SideAfter(trace: seq<Switch>, side: Side): (r: Side)
    decreases |trace|
  {
    if trace == [] then side else SideAfter(trace[1..], Cross(side, trace[0]))
  }

  function Cross(side: Side, x: Switch): (r: Side)
  {
    if x == EENTER && side == App then Enclave else if x == EEXIT && side == Enclave then App else Stuck
  }

  /** ECALLs are made by the application, OCALLs by the enclave. */
  predicate Nested(calls: seq<Call>, side: Side)
    decreases calls, 0
  {
    calls == [] || (NestedCall(calls[0], side) && Nested(calls[1..], side))
  }

  predicate NestedCall(c: Call, side: Side)
    decreases c, 1
  {
    match c
    case Ecall(inner) => side == App && Nested(inner, Enclave)
    case Ocall(inner) => side == Enclave && Nested(inner, App)
  }

  lemma {:induction false} SideConcat(a: seq<Switch>, b: seq<Switch>, side: Side)
    ensures SideAfter(a + b, side) == SideAfter(b, SideAfter(a, side))
    decreases |a|
  {
    if a == [] {
      assert a + b == b;
    } else {
      SideConcat(a[1..], b, Cross(side, a[0]));
      assert (a + b)[1..] == a[1..] + b;
    }
  }

  lemma {:induction false} StuckStays(a: seq<Switch>)
    ensures SideAfter(a, Stuck) == Stuck
    decreases |a|
  {
    if a != [] {
      StuckStays(a[1..]);
    }
  }

  lemma OneSide(x: Switch, side: Side)
    ensures SideAfter([x], side) == Cross(side, x)
  {
    assert [x][1..] == [];
  }

  /** The trace of a forest of calls can be executed, and ends on the side it began, exactly when ECALLs
      and OCALLs alternate down every branch. */
  lemma {:induction false} TraceExecutable(calls: seq<Call>, side: Side)
    requires side != Stuck
    ensures SideAfter(Traces(calls), side) == (if Nested(calls, side) then side else Stuck)
    decreases calls, 0
  {
    if calls != [] {
      CallExecutable(calls[0], side);
      SideConcat(Trace(calls[0]), Traces(calls[1..]), side);
      if NestedCall(calls[0], side) {
        TraceExecutable(calls[1..], side);
      } else {
        StuckStays(Traces(calls[1..]));
      }
    }
  }

  lemma {:induction false} CallExecutable(c: Call, side: Side)
    requires side != Stuck
    ensures SideAfter(Trace(c), side) == (if NestedCall(c, side) then side else Stuck)
    decreases c, 1
  {
    var first, last := if c.Ecall? then EENTER else EEXIT, if c.Ecall? then EEXIT else EENTER;
    assert Trace(c) == [first] + Traces(c.inner) + [last];
    SideConcat([first] + Traces(c.inner), [last], side);
    SideConcat([first], Traces(c.inner), side);
    OneSide(first, side);
    var inside := SideAfter([first], side);
    if inside == Stuck {
      StuckStays(Traces(c.inner));
    } else {
      TraceExecutable(c.inner, inside);
    }
    OneSide(last, SideAfter(Traces(c.inner), inside));
  }

  // ----- The benchmark -----

  lemma {:induction false} TracesConcat(a: seq<Call>, b: seq<Call>)
    ensures Traces(a + b) == Traces(a) + Traces(b) && Sizes(a + b) == Sizes(a) + Sizes(b)
    decreases |a|
  {
    hide Trace, Size;
    if a == [] {
      assert a + b == b;
    } else {
      TracesConcat(a[1..], b);
      assert (a + b)[1..] == a[1..] + b;
    }
  }

  const EMPTY_ECALL: Call := Ecall([])
  const EMPTY_OCALL: Call := Ocall([])

  /** Reading the time stamp counter inside the enclave: one instruction, or an OCALL. */
  function ReadStamp(rdtscInEnclave: bool): (r: seq<Call>) { if rdtscInEnclave then [] else [EMPTY_OCALL] }

  /** The OCALLs of one `bench_ocall_empty`. */
  function BenchOcall(rdtscInEnclave: bool): (r: seq<Call>) { ReadStamp(rdtscInEnclave) + [EMPTY_OCALL] + ReadStamp(rdtscInEnclave) }

  /** A forest repeated n times. */
  function Times(calls: seq<Call>, n: nat): (r: seq<Call>) { if n == 0 then [] else Times(calls, n - 1) + calls }

  /** The calls of the whole program: the SDK's initial ECALL, `ecall_hello` with its print, the ECALL
      benchmark, the time-stamp benchmark when it needs OCALLs, the OCALL benchmark, and the read-out. */
  function ProgramCalls(count: nat, rdtscInEnclave: bool): (r: seq<Call>)
  {
    [EMPTY_ECALL, Ecall([EMPTY_OCALL])]
    + Times([EMPTY_ECALL], count + 1)
    + (if rdtscInEnclave then [] else [Ecall(Times([EMPTY_OCALL, EMPTY_OCALL], count + 1))])
    + [Ecall(Times(BenchOcall(rdtscInEnclave), count + 1))]
    + [EMPTY_ECALL]
  }

  lemma {:induction false} SizesTimes(calls: seq<Call>, n: nat)
    ensures Sizes(Times(calls, n)) == n * Sizes(calls)
    decreases n
  {
    if n > 0 {
      SizesTimes(calls, n - 1);
      TracesConcat(Times(calls, n - 1), calls);
      assert n * Sizes(calls) == (n - 1) * Sizes(calls) + Sizes(calls);
    }
  }

  lemma SizesOne(c: Call)
    ensures Sizes([c]) == Size(c) && Traces([c]) == Trace(c)
  {
    assert [c][1..] == [];
  }

  lemma EmptyCalls()
    ensures Size(EMPTY_ECALL) == 1 && Size(EMPTY_OCALL) == 1 && Sizes([EMPTY_ECALL]) == 1 && Sizes([EMPTY_OCALL]) == 1
    ensures Trace(EMPTY_ECALL) == [EENTER, EEXIT] && Trace(EMPTY_OCALL) == [EEXIT, EENTER]
  {
    SizesOne(EMPTY_ECALL);
    SizesOne(EMPTY_OCALL);
  }

  lemma BenchOcallSize(rdtscInEnclave: bool)
    ensures Sizes(BenchOcall(rdtscInEnclave)) == if rdtscInEnclave then 1 else 3
  {
    EmptyCalls();
    TracesConcat(ReadStamp(rdtscInEnclave) + [EMPTY_OCALL], ReadStamp(rdtscInEnclave));
    TracesConcat(ReadStamp(rdtscInEnclave), [EMPTY_OCALL]);
  }

  /** Number of calls of the program, and so of EENTERs and of EEXITs, for `count` recorded samples. */
  lemma ProgramSize(count: nat, rdtscInEnclave: bool)
    ensures Sizes(ProgramCalls(count, rdtscInEnclave)) == if rdtscInEnclave then 2 * (count + 1) + 5 else 6 * (count + 1) + 6
  {
    hide *;
    var hello, bench := [EMPTY_ECALL, Ecall([EMPTY_OCALL])], Times([EMPTY_ECALL], count + 1);
    var pair := [EMPTY_OCALL, EMPTY_OCALL];
    var stamps := if rdtscInEnclave then [] else [Ecall(Times(pair, count + 1))];
    var ocalls := [Ecall(Times(BenchOcall(rdtscInEnclave), count + 1))];
    EmptyCalls();
    ProgramParts(count, rdtscInEnclave);
    TracesConcat([EMPTY_ECALL], [Ecall([EMPTY_OCALL])]);
    assert hello == [EMPTY_ECALL] + [Ecall([EMPTY_OCALL])];
    SizesOne(Ecall([EMPTY_OCALL]));
    assert Sizes(hello) == 3;
    SizesTimes([EMPTY_ECALL], count + 1);
    assert Sizes(bench) == count + 1;
    TracesConcat([EMPTY_OCALL], [EMPTY_OCALL]);
    assert pair == [EMPTY_OCALL] + [EMPTY_OCALL];
    SizesTimes(pair, count + 1);
    SizesOne(Ecall(Times(pair, count + 1)));
    assert Sizes(stamps) == if rdtscInEnclave then 0 else 1 + 2 * (count + 1);
    BenchOcallSize(rdtscInEnclave);
    SizesTimes(BenchOcall(rdtscInEnclave), count + 1);
    SizesOne(Ecall(Times(BenchOcall(rdtscInEnclave), count + 1)));
    assert Sizes(ocalls) == 1 + (if rdtscInEnclave then 1 else 3) * (count + 1);
    SizesFive(hello, bench, stamps, ocalls, [EMPTY_ECALL]);
  }

  /** The run of the documentation: 10000 warm-up and 1000000 measured samples, with in-enclave time
      stamps. */
  lemma DocumentedRun()
    ensures Sizes(ProgramCalls(10000 + 1000000, true)) == 2020007
  {
    ProgramSize(1010000, true);
  }

  lemma ProgramParts(count: nat, rdtscInEnclave: bool)
    ensures ProgramCalls(count, rdtscInEnclave) ==
            [EMPTY_ECALL, Ecall([EMPTY_OCALL])] + Times([EMPTY_ECALL], count + 1)
            + (if rdtscInEnclave then [] else [Ecall(Times([EMPTY_OCALL, EMPTY_OCALL], count + 1))])
            + [Ecall(Times(BenchOcall(rdtscInEnclave), count + 1))] + [EMPTY_ECALL]
    ensures Sizes([]) == 0
    ensures Size(Ecall([EMPTY_OCALL])) == 1 + Sizes([EMPTY_OCALL])
    ensures Size(Ecall(Times([EMPTY_OCALL, EMPTY_OCALL], count + 1))) == 1 + Sizes(Times([EMPTY_OCALL, EMPTY_OCALL], count + 1))
    ensures Size(Ecall(Times(BenchOcall(rdtscInEnclave), count + 1))) == 1 + Sizes(Times(BenchOcall(rdtscInEnclave), count + 1))
  {
  }

  lemma SizesFive(a: seq<Call>, b: seq<Call>, c: seq<Call>, d: seq<Call>, e: seq<Call>)
    ensures Sizes(a + b + c + d + e) == Sizes(a) + Sizes(b) + Sizes(c) + Sizes(d) + Sizes(e)
    ensures Traces(a + b + c + d + e) == Traces(a) + Traces(b) + Traces(c) + Traces(d) + Traces(e)
  {
    TracesConcat(a + b + c + d, e);
    TracesConcat(a + b + c, d);
    TracesConcat(a + b, c);
    TracesConcat(a, b);
  }

  /** The program and the enclave it talks to, seen from the statistics. */
  class Session {
    var eenterCount: u64
    var eexitCount: u64
    ghost var trace: seq<Switch>

    ghost predicate Valid()
      reads this
    {
      eenterCount == Tally(trace, EENTER) % TWO64 && eexitCount == Tally(trace, EEXIT) % TWO64
    }

    method Eenter()
      requires Valid()
      modifies this
      ensures Valid() && trace == old(trace) + [EENTER]
    {
      TallyConcat(trace, [EENTER], EENTER);
      TallyConcat(trace, [EENTER], EEXIT);
      OneSwitch(EENTER, EENTER);
      OneSwitch(EENTER, EEXIT);
      eenterCount := (eenterCount + 1) % TWO64;
      trace := trace + [EENTER];
    }

    method Eexit()
      requires Valid()
      modifies this
      ensures Valid() && trace == old(trace) + [EEXIT]
    {
      TallyConcat(trace, [EEXIT], EENTER);
      TallyConcat(trace, [EEXIT], EEXIT);
      OneSwitch(EEXIT, EENTER);
      OneSwitch(EEXIT, EEXIT);
      eexitCount := (eexitCount + 1) % TWO64;
      trace := trace + [EEXIT];
    }

    method OcallEmpty()
      requires Valid()
      modifies this
      ensures Valid() && trace == old(trace) + Traces([EMPTY_OCALL])
    {
      EmptyCalls();
      SizesOne(EMPTY_OCALL);
      Eexit();
      Eenter();
    }

    method EcallEmpty()
      requires Valid()
      modifies this
      ensures Valid() && trace == old(trace) + Traces([EMPTY_ECALL])
    {
      EmptyCalls();
      SizesOne(EMPTY_ECALL);
      Eenter();
      Eexit();
    }

    method EcallHello()
      requires Valid()
      modifies this
      ensures Valid() && trace == old(trace) + Traces([Ecall([EMPTY_OCALL])])
    {
      SizesOne(Ecall([EMPTY_OCALL]));
      Eenter();
      OcallEmpty();
      Eexit();
    }

    method EnclaveRdtscp(rdtscInEnclave: bool)
      requires Valid()
      modifies this
      ensures Valid() && trace == old(trace) + Traces(ReadStamp(rdtscInEnclave))
    {
      if !rdtscInEnclave {
        OcallEmpty();
      }
    }

    method BenchOcallEmpty(rdtscInEnclave: bool)
      requires Valid()
      modifies this
      ensures Valid() && trace == old(trace) + Traces(BenchOcall(rdtscInEnclave))
    {
      hide Traces, Sizes, ReadStamp, EMPTY_OCALL, Tally;
      TracesConcat(ReadStamp(rdtscInEnclave) + [EMPTY_OCALL], ReadStamp(rdtscInEnclave));
      TracesConcat(ReadStamp(rdtscInEnclave), [EMPTY_OCALL]);
      EnclaveRdtscp(rdtscInEnclave);
      OcallEmpty();
      EnclaveRdtscp(rdtscInEnclave);
    }

    method BenchEnclaveRdtscp()
      requires Valid()
      modifies this
      ensures Valid() && trace == old(trace) + Traces([EMPTY_OCALL, EMPTY_OCALL])
    {
      TracesConcat([EMPTY_OCALL], [EMPTY_OCALL]);
      assert [EMPTY_OCALL, EMPTY_OCALL] == [EMPTY_OCALL] + [EMPTY_OCALL];
      EnclaveRdtscp(false);
      EnclaveRdtscp(false);
    }

    /** `ecall_bench_ocall_empty`: one warm-up call of the benchmark and `count` recorded ones. */
    method EcallBenchOcallEmpty(count: nat, rdtscInEnclave: bool)
      requires Valid()
      modifies this
      ensures Valid() && trace == old(trace) + Traces([Ecall(Times(BenchOcall(rdtscInEnclave), count + 1))])
    {
      hide Traces, Trace, Tally, BenchOcall;
      var one := BenchOcall(rdtscInEnclave);
      Eenter();
      BenchOcallEmpty(rdtscInEnclave);
      TimesOne(one);
      ghost var before := old(trace) + [EENTER];
      for i := 0 to count
        invariant Valid() && trace == before + Traces(Times(one, i + 1))
      {
        TracesConcat(Times(one, i + 1), one);
        BenchOcallEmpty(rdtscInEnclave);
      }
      Eexit();
      EcallTrace(Times(one, count + 1));
    }

    method EcallBenchEnclaveRdtscp(count: nat)
      requires Valid()
      modifies this
      ensures Valid() && trace == old(trace) + Traces([Ecall(Times([EMPTY_OCALL, EMPTY_OCALL], count + 1))])
    {
      hide Traces, Trace, Tally;
      var one := [EMPTY_OCALL, EMPTY_OCALL];
      Eenter();
      BenchEnclaveRdtscp();
      TimesOne(one);
      ghost var before := old(trace) + [EENTER];
      for i := 0 to count
        invariant Valid() && trace == before + Traces(Times(one, i + 1))
      {
        TracesConcat(Times(one, i + 1), one);
        BenchEnclaveRdtscp();
      }
      Eexit();
      EcallTrace(Times(one, count + 1));
    }

    /** `bench_in_app` with `bench_ecall_empty`. */
    method BenchEcallEmpty(count: nat)
      requires Valid()
      modifies this
      ensures Valid() && trace == old(trace) + Traces(Times([EMPTY_ECALL], count + 1))
    {
      hide Traces, Trace, Tally;
      var one := [EMPTY_ECALL];
      EcallEmpty();
      TimesOne(one);
      for i := 0 to count
        invariant Valid() && trace == old(trace) + Traces(Times(one, i + 1))
      {
        TracesConcat(Times(one, i + 1), one);
        EcallEmpty();
      }
    }

    /** `ecall_get_eenter_stats` reads the counter from inside: its own EENTER is counted already. */
    method EcallGetEenterStats() returns (count: u64)
      requires Valid()
      modifies this
      ensures Valid() && trace == old(trace) + Traces([EMPTY_ECALL])
      ensures count == eenterCount
    {
      EmptyCalls();
      SizesOne(EMPTY_ECALL);
      Eenter();
      count := eenterCount;
      TallyConcat(trace, [EEXIT], EENTER);
      OneSwitch(EEXIT, EENTER);
      Eexit();
    }

    /** `bench_main` in a session that has seen the SDK's initial ECALL: both reported counts are the
        number of calls of the whole program. */
    method BenchMain(warmup: nat, test: nat, rdtscInEnclave: bool) returns (eenters: u64, eexits: u64)
      requires Valid() && trace == Traces([EMPTY_ECALL])
      modifies this
      ensures Valid() && trace == Traces(ProgramCalls(warmup + test, rdtscInEnclave))
      ensures eenters == eexits == (if rdtscInEnclave then 2 * (warmup + test + 1) + 5 else 6 * (warmup + test + 1) + 6) % TWO64
    {
      hide Traces, Trace, Tally, Times, Sizes;
      var n := warmup + test;
      EcallHello();
      BenchEcallEmpty(n);
      if !rdtscInEnclave {
        EcallBenchEnclaveRdtscp(n);
      }
      EcallBenchOcallEmpty(n, rdtscInEnclave);
      eenters := EcallGetEenterStats();
      eexits := eexitCount;
      ProgramTrace(n, rdtscInEnclave);
      ProgramSize(n, rdtscInEnclave);
      BalancedCrossings(ProgramCalls(n, rdtscInEnclave), EENTER);
      BalancedCrossings(ProgramCalls(n, rdtscInEnclave), EEXIT);
    }
  }

  lemma TimesOne(calls: seq<Call>)
    ensures Times(calls, 1) == calls
  {
    assert Times(calls, 0) == [];
  }

  lemma EcallTrace(inner: seq<Call>)
    ensures Traces([Ecall(inner)]) == [EENTER] + Traces(inner) + [EEXIT]
  {
    SizesOne(Ecall(inner));
  }

  lemma ProgramTrace(n: nat, rdtscInEnclave: bool)
    ensures Traces(ProgramCalls(n, rdtscInEnclave)) ==
            Traces([EMPTY_ECALL]) + Traces([Ecall([EMPTY_OCALL])]) + Traces(Times([EMPTY_ECALL], n + 1))
            + (if rdtscInEnclave then [] else Traces([Ecall(Times([EMPTY_OCALL, EMPTY_OCALL], n + 1))]))
            + Traces([Ecall(Times(BenchOcall(rdtscInEnclave), n + 1))]) + Traces([EMPTY_ECALL])
  {
    var stamps := if rdtscInEnclave then [] else [Ecall(Times([EMPTY_OCALL, EMPTY_OCALL], n + 1))];
    assert Traces([]) == [];
    ProgramParts(n, rdtscInEnclave);
    hide *;
    TracesConcat([EMPTY_ECALL], [Ecall([EMPTY_OCALL])]);
    assert [EMPTY_ECALL] + [Ecall([EMPTY_OCALL])] == [EMPTY_ECALL, Ecall([EMPTY_OCALL])];
    SizesFive([EMPTY_ECALL, Ecall([EMPTY_OCALL])], Times([EMPTY_ECALL], n + 1), stamps,
              [Ecall(Times(BenchOcall(rdtscInEnclave), n + 1))], [EMPTY_ECALL]);
  }
}
