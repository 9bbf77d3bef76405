/** The EENTER/EEXIT statistics: any number of threads cross the enclave boundary, each crossing timed by
    two `rdtscp` and booked by two separate atomic additions. */
module Counters {
  import opened Words

  /** The time stamps at the two ends of one crossing. */
  datatype Crossing = Crossing(from: u64, to: u64)

  /** Where a thread is.  r8 and r9 hold the halves of the first time stamp across the boundary, rdx the
      difference that is about to be added; `from` and `crossing` record the true stamps for the proof. */
  datatype Thread =
    | Outside
    | Entering(r8: u32, r9: u32, from: u64)
    | EnterBoth(rdx: u64, crossing: Crossing)
    | EnterCycles(rdx: u64, crossing: Crossing)
    | Inside
    | Exiting(r8: u32, r9: u32, from: u64)
    | ExitBoth(rdx: u64, crossing: Crossing)
    | ExitCycles(rdx: u64, crossing: Crossing)

  /** The four global counters, and the log of crossings whose cycles have been added. */
  datatype World = World(threads: seq<Thread>,
                         eenterCount: u64, eenterCycles: u64, eexitCount: u64, eexitCycles: u64,
                         entered: seq<Crossing>, exited: seq<Crossing>)

  /** `rdtscp`: the two halves of the counter. */
  function Low(t: u64): (r: u32) { t % TWO32 }
  function High(t: u64): (r: u32) { t / TWO32 }

  /** Both time stamps are put together from their halves, and the first is subtracted from the second
      modulo 2^64. */
  function Difference(r8: u32, r9: u32, rax: u32, rdx: u32): (r: u64)
  {
    var start := (r9 * TWO32 % TWO64 + r8) % TWO64;
    var stop := (rdx * TWO32 % TWO64 + rax) % TWO64;
    (stop - start) % TWO64
  }

  function Duration(c: Crossing): (r: u64) { (c.to - c.from) % TWO64 }

  function LockAdd(counter: u64, x: u64): (r: u64) { (counter + x) % TWO64 }

  /** The next step of thread i; t is what the time stamp counter shows should the thread read it. */
  function Step(w: World, i: nat, t: u64): (r: World)
    requires i < |w.threads|
  {
    match w.threads[i]
    case Outside => w.(threads := w.threads[i := Entering(Low(t), High(t), t)])
    case Entering(r8, r9, from) =>
      w.(threads := w.threads[i := EnterBoth(Difference(r8, r9, Low(t), High(t)), Crossing(from, t))])
    case EnterBoth(rdx, c) => w.(threads := w.threads[i := EnterCycles(rdx, c)], eenterCount := LockAdd(w.eenterCount, 1))
    case EnterCycles(rdx, c) =>
      w.(threads := w.threads[i := Inside], eenterCycles := LockAdd(w.eenterCycles, rdx), entered := w.entered + [c])
    case Inside => w.(threads := w.threads[i := Exiting(Low(t), High(t), t)])
    case Exiting(r8, r9, from) =>
      w.(threads := w.threads[i := ExitBoth(Difference(r8, r9, Low(t), High(t)), Crossing(from, t))])
    case ExitBoth(rdx, c) => w.(threads := w.threads[i := ExitCycles(rdx, c)], eexitCount := LockAdd(w.eexitCount, 1))
    case ExitCycles(rdx, c) =>
      w.(threads := w.threads[i := Outside], eexitCycles := LockAdd(w.eexitCycles, rdx), exited := w.exited + [c])
  }

  /** n threads outside the enclave and all counters zero. */
  function Start(n: nat): (r: World) { World(seq(n, _ => Outside), 0, 0, 0, 0, [], []) }

  /** Which thread moves next, and the time stamp counter at that moment. */
  type Schedule = seq<(nat, u64)>

  function Run(w: World, schedule: Schedule): (r: World)
    decreases |schedule|
  {
    if schedule == [] then w
    else
      var before := Run(w, schedule[..|schedule| - 1]);
      var (i, t) := schedule[|schedule| - 1];
      if i < |before.threads| then Step(before, i, t) else before
  }

  // ----- Totals -----

  function Total(log: seq<Crossing>): (r: nat)
  {
    if log == [] then 0 else Total(log[..|log| - 1]) + Duration(log[|log| - 1])
  }

  lemma TotalSnoc(log: seq<Crossing>, c: Crossing)
    ensures Total(log + [c]) == Total(log) + Duration(c)
  {
    assert (log + [c])[..|log|] == log;
  }

  /** Places in the protocol that the counters care about. */
  datatype Place = BeforeEnterAdds | BetweenEnterAdds | BeforeExitAdds | BetweenExitAdds | InEnclave

  predicate At(t: Thread, place: Place)
  {
    match place
    case BeforeEnterAdds => t.EnterBoth?
    case BetweenEnterAdds => t.EnterCycles?
    case BeforeExitAdds => t.ExitBoth?
    case BetweenExitAdds => t.ExitCycles?
    case InEnclave => t.EnterBoth? || t.EnterCycles? || t.Inside? || t.Exiting?
  }

  /** Number of threads at a place. */
  function Tally(threads: seq<Thread>, place: Place): (r: nat)
  {
    if threads == [] then 0 else Tally(threads[..|threads| - 1], place) + (if At(threads[|threads| - 1], place) then 1 else 0)
  }

  lemma {:induction false} TallyUpdate(threads: seq<Thread>, i: nat, x: Thread, place: Place)
    requires i < |threads|
    ensures Tally(threads[i := x], place) + (if At(threads[i], place) then 1 else 0) == Tally(threads, place) + (if At(x, place) then 1 else 0)
    decreases |threads|
  {
    var n := |threads| - 1;
    if i < n {
      assert threads[i := x][..n] == threads[..n][i := x];
      TallyUpdate(threads[..n], i, x, place);
    } else {
      assert threads[i := x][..n] == threads[..n];
    }
  }

  lemma {:induction false} TallyNone(threads: seq<Thread>, place: Place)
    requires forall i: nat :: i < |threads| ==> !At(threads[i], place)
    ensures Tally(threads, place) == 0
    decreases |threads|
  {
    if threads != [] {
      TallyNone(threads[..|threads| - 1], place);
    }
  }

  /** The registers of a thread agree with the true stamps. */
  predicate Honest(t: Thread)
  {
    match t
    case Entering(r8, r9, from) => r8 == Low(from) && r9 == High(from)
    case Exiting(r8, r9, from) => r8 == Low(from) && r9 == High(from)
    case EnterBoth(rdx, c) => rdx == Duration(c)
    case EnterCycles(rdx, c) => rdx == Duration(c)
    case ExitBoth(rdx, c) => rdx == Duration(c)
    case ExitCycles(rdx, c) => rdx == Duration(c)
    case Outside => true
    case Inside => true
  }

  /** The protocol invariant. */
  ghost predicate Inv(w: World)
  {
    && (forall i: nat :: i < |w.threads| ==> Honest(w.threads[i]))
    && EenterBooked(w) && EexitBooked(w)
    && Entries(w) == Exits(w) + Tally(w.threads, InEnclave)
  }

  /** A number as a 64-bit counter shows it. */
  function Wrapped(n: nat): (r: u64) { n % TWO64 }

  /** The EENTER counters: booked crossings, plus for the count the threads between the two additions. */
  predicate EenterBooked(w: World)
  {
    && w.eenterCount == Wrapped(|w.entered| + Tally(w.threads, BetweenEnterAdds))
    && w.eenterCycles == Wrapped(Total(w.entered))
  }

  predicate EexitBooked(w: World)
  {
    && w.eexitCount == Wrapped(|w.exited| + Tally(w.threads, BetweenExitAdds))
    && w.eexitCycles == Wrapped(Total(w.exited))
  }

  /** EENTERs and EEXITs executed, booked or not. */
  function Entries(w: World): (r: nat) { |w.entered| + Tally(w.threads, BeforeEnterAdds) + Tally(w.threads, BetweenEnterAdds) }
  function Exits(w: World): (r: nat) { |w.exited| + Tally(w.threads, BeforeExitAdds) + Tally(w.threads, BetweenExitAdds) }

  /** The 32-bit halves give back the full 64-bit difference. */
  lemma DifferenceIsDuration(from: u64, to: u64)
    ensures Difference(Low(from), High(from), Low(to), High(to)) == Duration(Crossing(from, to))
  {
    Reassembled(from);
    Reassembled(to);
  }

  lemma Reassembled(t: u64)
    ensures (High(t) * TWO32 % TWO64 + Low(t)) % TWO64 == t
  {
  }

  lemma AddMod(a: nat, b: u64)
    ensures LockAdd(Wrapped(a), b) == Wrapped(a + b)
  {
    var q := a / TWO64;
    assert a == q * TWO64 + a % TWO64;
    if a % TWO64 + b >= TWO64 {
      assert a + b == (q + 1) * TWO64 + (a % TWO64 + b - TWO64);
      SmallRest(a + b, q + 1, a % TWO64 + b - TWO64);
    } else {
      SmallRest(a + b, q, a % TWO64 + b);
    }
  }

  lemma SmallRest(x: nat, q: nat, r: u64)
    requires x == q * TWO64 + r
    ensures x % TWO64 == r
  {
  }

  lemma StepKeepsHonest(w: World, i: nat, t: u64)
    requires i < |w.threads| && forall j: nat :: j < |w.threads| ==> Honest(w.threads[j])
    ensures |Step(w, i, t).threads| == |w.threads|
    ensures Step(w, i, t).threads == w.threads[i := Step(w, i, t).threads[i]]
    ensures forall j: nat :: j < |w.threads| ==> Honest(Step(w, i, t).threads[j])
  {
    match w.threads[i] {
      case Entering(r8, r9, from) => DifferenceIsDuration(from, t);
      case Exiting(r8, r9, from) => DifferenceIsDuration(from, t);
      case _ =>
    }
    hide Difference, Duration, Low, High, LockAdd;
  }

  lemma StepTallies(w: World, i: nat, t: u64, place: Place)
    requires i < |w.threads|
    ensures |Step(w, i, t).threads| == |w.threads|
    ensures Tally(Step(w, i, t).threads, place) + (if At(w.threads[i], place) then 1 else 0) ==
            Tally(w.threads, place) + (if At(Step(w, i, t).threads[i], place) then 1 else 0)
  {
    hide Difference, Low, High, LockAdd, Tally;
    TallyUpdate(w.threads, i, Step(w, i, t).threads[i], place);
  }

  lemma StepKeepsEenter(w: World, i: nat, t: u64)
    requires i < |w.threads| && Honest(w.threads[i]) && EenterBooked(w)
    ensures EenterBooked(Step(w, i, t))
  {
    StepTallies(w, i, t, BetweenEnterAdds);
    AddMod(|w.entered| + Tally(w.threads, BetweenEnterAdds), 1);
    if w.threads[i].EnterCycles? {
      HonestCycles(w.threads[i]);
      TotalSnoc(w.entered, w.threads[i].crossing);
      AddMod(Total(w.entered), w.threads[i].rdx);
    }
    hide Difference, Duration, Low, High, LockAdd, Wrapped, Tally, Total, Honest;
  }

  lemma StepKeepsEexit(w: World, i: nat, t: u64)
    requires i < |w.threads| && Honest(w.threads[i]) && EexitBooked(w)
    ensures EexitBooked(Step(w, i, t))
  {
    StepTallies(w, i, t, BetweenExitAdds);
    AddMod(|w.exited| + Tally(w.threads, BetweenExitAdds), 1);
    if w.threads[i].ExitCycles? {
      HonestCycles(w.threads[i]);
      TotalSnoc(w.exited, w.threads[i].crossing);
      AddMod(Total(w.exited), w.threads[i].rdx);
    }
    hide Difference, Duration, Low, High, LockAdd, Wrapped, Tally, Total, Honest;
  }

  lemma StepKeepsFlow(w: World, i: nat, t: u64)
    requires i < |w.threads| && Entries(w) == Exits(w) + Tally(w.threads, InEnclave)
    ensures Entries(Step(w, i, t)) == Exits(Step(w, i, t)) + Tally(Step(w, i, t).threads, InEnclave)
  {
    StepTallies(w, i, t, BeforeEnterAdds);
    StepTallies(w, i, t, BetweenEnterAdds);
    StepTallies(w, i, t, BeforeExitAdds);
    StepTallies(w, i, t, BetweenExitAdds);
    StepTallies(w, i, t, InEnclave);
    hide Difference, Duration, Low, High, LockAdd, Tally;
  }

  /** Every step of every thread keeps the invariant. */
  lemma StepKeepsInv(w: World, i: nat, t: u64)
    requires i < |w.threads| && Inv(w)
    ensures Inv(Step(w, i, t))
  {
    StepKeepsHonest(w, i, t);
    assert Honest(w.threads[i]);
    hide Step, EenterBooked, EexitBooked, Entries, Exits, Honest;
    StepKeepsEenter(w, i, t);
    StepKeepsEexit(w, i, t);
    StepKeepsFlow(w, i, t);
  }

  lemma HonestCycles(t: Thread)
    requires Honest(t) && (t.EnterCycles? || t.ExitCycles?)
    ensures t.rdx == Duration(t.crossing)
  {
  }

  lemma StartInv(n: nat)
    ensures Inv(Start(n))
  {
    var threads := Start(n).threads;
    TallyNone(threads, BetweenEnterAdds);
    TallyNone(threads, BetweenExitAdds);
    TallyNone(threads, BeforeEnterAdds);
    TallyNone(threads, BeforeExitAdds);
    TallyNone(threads, InEnclave);
  }

  /** Exact counters, for any number of threads and any interleaving: each count exceeds the crossings
      booked in full by the threads between their two additions, each cycle counter is the sum of the
      64-bit durations of those crossings, and entries exceed exits by the threads in the enclave. */
  lemma {:induction false} CountersExact(n: nat, schedule: Schedule)
    ensures Inv(Run(Start(n), schedule))
    decreases |schedule|
  {
    if schedule == [] {
      StartInv(n);
    } else {
      var (i, t) := schedule[|schedule| - 1];
      CountersExact(n, schedule[..|schedule| - 1]);
      var before := Run(Start(n), schedule[..|schedule| - 1]);
      hide Inv, Step;
      if i < |before.threads| {
        StepKeepsInv(before, i, t);
      }
    }
  }

  /** When all threads are back outside, both counters show the same number: that of all entries, which
      is that of all exits. */
  lemma QuiescentCountersAgree(n: nat, schedule: Schedule)
    requires forall i: nat :: i < |Run(Start(n), schedule).threads| ==> Run(Start(n), schedule).threads[i].Outside?
    ensures var w := Run(Start(n), schedule);
            && |w.entered| == |w.exited|
            && w.eenterCount == w.eexitCount == |w.entered| % TWO64
            && w.eenterCycles == Total(w.entered) % TWO64 && w.eexitCycles == Total(w.exited) % TWO64
  {
    CountersExact(n, schedule);
    hide *;
    AllOutside(Run(Start(n), schedule));
  }

  lemma AllOutside(w: World)
    requires Inv(w) && forall i: nat :: i < |w.threads| ==> w.threads[i].Outside?
    ensures |w.entered| == |w.exited| && w.eenterCount == w.eexitCount == |w.entered| % TWO64
    ensures w.eenterCycles == Total(w.entered) % TWO64 && w.eexitCycles == Total(w.exited) % TWO64
  {
    OutsideTally(w.threads, BetweenEnterAdds);
    OutsideTally(w.threads, BetweenExitAdds);
    OutsideTally(w.threads, BeforeEnterAdds);
    OutsideTally(w.threads, BeforeExitAdds);
    OutsideTally(w.threads, InEnclave);
    hide Tally, Total, Honest;
  }

  lemma OutsideTally(threads: seq<Thread>, place: Place)
    requires forall i: nat :: i < |threads| ==> threads[i].Outside?
    ensures Tally(threads, place) == 0
  {
    TallyNone(threads, place);
  }

  // ----- Where the stamps come from -----

  /** How many steps of a schedule are thread i's.  Every thread goes round in eight steps: its steps 0 and 1
      stamp an entry, 2 and 3 add it up, 4 and 5 stamp an exit, 6 and 7 add that up. */
  function Turns(s: Schedule, i: nat): (k: nat)
  {
    if s == [] then 0 else Turns(s[..|s| - 1], i) + (if s[|s| - 1].0 == i then 1 else 0)
  }

  /** Thread i read the counter at two successive steps of its own, in the given phase of its round, and it
      showed the two stamps of the crossing. */
  ghost predicate Made(s: Schedule, i: nat, c: Crossing, phase: nat)
  {
    exists j: nat, k: nat ::
      && j < k < |s| && s[j] == (i, c.from) && s[k] == (i, c.to) && Turns(s[..j], i) % 8 == phase
      && forall x: nat :: j < x < k ==> s[x].0 != i
  }

  /** Thread i's last step, in the given phase of its round, read the counter as `from`. */
  ghost predicate Opened(s: Schedule, i: nat, from: u64, phase: nat)
  {
    exists j: nat ::
      && j < |s| && s[j] == (i, from) && Turns(s[..j], i) % 8 == phase
      && forall x: nat :: j < x < |s| ==> s[x].0 != i
  }

  /** A thread is where its number of steps says, with stamps from the schedule. */
  ghost predicate Tracked(s: Schedule, i: nat, t: Thread)
  {
    match t
    case Outside => Turns(s, i) % 8 == 0
    case Entering(_, _, from) => Turns(s, i) % 8 == 1 && Opened(s, i, from, 0)
    case EnterBoth(_, c) => Turns(s, i) % 8 == 2 && Made(s, i, c, 0)
    case EnterCycles(_, c) => Turns(s, i) % 8 == 3 && Made(s, i, c, 0)
    case Inside => Turns(s, i) % 8 == 4
    case Exiting(_, _, from) => Turns(s, i) % 8 == 5 && Opened(s, i, from, 4)
    case ExitBoth(_, c) => Turns(s, i) % 8 == 6 && Made(s, i, c, 4)
    case ExitCycles(_, c) => Turns(s, i) % 8 == 7 && Made(s, i, c, 4)
  }

  /** Every logged crossing was made by one of the n threads. */
  ghost predicate AllMade(s: Schedule, n: nat, log: seq<Crossing>, phase: nat)
  {
    forall c :: c in log ==> exists i: nat :: i < n && Made(s, i, c, phase)
  }

  lemma TurnsNext(s: Schedule, i0: nat, t0: u64, i: nat)
    ensures Turns(s + [(i0, t0)], i) == Turns(s, i) + (if i == i0 then 1 else 0)
  {
    assert (s + [(i0, t0)])[..|s|] == s;
  }

  /** What was made stays made. */
  lemma MadeStays(s: Schedule, i0: nat, t0: u64, i: nat, c: Crossing, phase: nat)
    requires Made(s, i, c, phase)
    ensures Made(s + [(i0, t0)], i, c, phase)
  {
    var s' := s + [(i0, t0)];
    var j: nat, k: nat :|
      && j < k < |s| && s[j] == (i, c.from) && s[k] == (i, c.to) && Turns(s[..j], i) % 8 == phase
      && forall x: nat :: j < x < k ==> s[x].0 != i;
    assert s'[..j] == s[..j];
    assert s'[j] == (i, c.from) && s'[k] == (i, c.to);
  }

  lemma OpenedStays(s: Schedule, i0: nat, t0: u64, i: nat, from: u64, phase: nat)
    requires Opened(s, i, from, phase) && i != i0
    ensures Opened(s + [(i0, t0)], i, from, phase)
  {
    var s' := s + [(i0, t0)];
    var j: nat :|
      && j < |s| && s[j] == (i, from) && Turns(s[..j], i) % 8 == phase
      && forall x: nat :: j < x < |s| ==> s[x].0 != i;
    assert s'[..j] == s[..j];
    assert s'[j] == (i, from);
  }

  lemma OpenedIsMade(s: Schedule, i: nat, t: u64, from: u64, phase: nat)
    requires Opened(s, i, from, phase)
    ensures Made(s + [(i, t)], i, Crossing(from, t), phase)
  {
    var s', k := s + [(i, t)], |s|;
    var j: nat :|
      && j < |s| && s[j] == (i, from) && Turns(s[..j], i) % 8 == phase
      && forall x: nat :: j < x < |s| ==> s[x].0 != i;
    assert s'[..j] == s[..j];
    assert s'[j] == (i, from) && s'[k] == (i, t);
  }

  lemma NewlyOpened(s: Schedule, i: nat, t: u64)
    ensures Opened(s + [(i, t)], i, t, Turns(s, i) % 8)
  {
    var s', j := s + [(i, t)], |s|;
    assert s'[..j] == s && s'[j] == (i, t);
  }

  lemma OthersTracked(s: Schedule, i0: nat, t0: u64, i: nat, t: Thread)
    requires Tracked(s, i, t) && i != i0
    ensures Tracked(s + [(i0, t0)], i, t)
  {
    TurnsNext(s, i0, t0, i);
    hide Turns, Made, Opened;
    match t {
      case Entering(_, _, from) => OpenedStays(s, i0, t0, i, from, 0);
      case Exiting(_, _, from) => OpenedStays(s, i0, t0, i, from, 4);
      case EnterBoth(_, c) => MadeStays(s, i0, t0, i, c, 0);
      case EnterCycles(_, c) => MadeStays(s, i0, t0, i, c, 0);
      case ExitBoth(_, c) => MadeStays(s, i0, t0, i, c, 4);
      case ExitCycles(_, c) => MadeStays(s, i0, t0, i, c, 4);
      case _ =>
    }
  }

  lemma StepTracked(w: World, s: Schedule, i: nat, t: u64)
    requires i < |w.threads| && Tracked(s, i, w.threads[i])
    ensures |Step(w, i, t).threads| == |w.threads| && Tracked(s + [(i, t)], i, Step(w, i, t).threads[i])
  {
    TurnsNext(s, i, t, i);
    NewlyOpened(s, i, t);
    hide Turns, Made, Opened, Difference, Low, High, LockAdd;
    match w.threads[i] {
      case Entering(_, _, from) => OpenedIsMade(s, i, t, from, 0);
      case Exiting(_, _, from) => OpenedIsMade(s, i, t, from, 4);
      case EnterBoth(_, c) => MadeStays(s, i, t, i, c, 0);
      case ExitBoth(_, c) => MadeStays(s, i, t, i, c, 4);
      case _ =>
    }
  }

  lemma LogStaysMade(s: Schedule, i0: nat, t0: u64, n: nat, log: seq<Crossing>, phase: nat)
    requires AllMade(s, n, log, phase)
    ensures AllMade(s + [(i0, t0)], n, log, phase)
  {
    hide Made;
    forall c | c in log ensures exists i: nat :: i < n && Made(s + [(i0, t0)], i, c, phase) {
      var i: nat :| i < n && Made(s, i, c, phase);
      MadeStays(s, i0, t0, i, c, phase);
    }
  }

  /** The stamps are real, for any number of threads and any interleaving: each crossing in the two logs was
      made by some thread reading the time stamp counter at two successive steps of its own, the first two
      of its round for an entry and the fifth and sixth for an exit. */
  lemma {:induction false} StampsReal(n: nat, s: Schedule)
    ensures var w := Run(Start(n), s);
            && |w.threads| == n && (forall i: nat :: i < n ==> Tracked(s, i, w.threads[i]))
            && AllMade(s, n, w.entered, 0) && AllMade(s, n, w.exited, 4)
    decreases |s|
  {
    if s != [] {
      var s0 := s[..|s| - 1];
      var (i, t) := s[|s| - 1];
      var w0 := Run(Start(n), s0);
      StampsReal(n, s0);
      assert s == s0 + [(i, t)];
      LogStaysMade(s0, i, t, n, w0.entered, 0);
      LogStaysMade(s0, i, t, n, w0.exited, 4);
      forall k: nat | k < n && k != i ensures Tracked(s, k, w0.threads[k]) {
        OthersTracked(s0, i, t, k, w0.threads[k]);
      }
      if i < n {
        StepTracked(w0, s0, i, t);
        StepLogs(w0, s0, i, t, n);
      }
    }
  }

  lemma StepLogs(w: World, s: Schedule, i: nat, t: u64, n: nat)
    requires i < |w.threads| == n && Tracked(s, i, w.threads[i])
    requires AllMade(s + [(i, t)], n, w.entered, 0) && AllMade(s + [(i, t)], n, w.exited, 4)
    ensures AllMade(s + [(i, t)], n, Step(w, i, t).entered, 0) && AllMade(s + [(i, t)], n, Step(w, i, t).exited, 4)
    ensures Step(w, i, t).threads == w.threads[i := Step(w, i, t).threads[i]]
  {
    hide Turns, Made, Opened, Difference, Low, High, LockAdd;
    match w.threads[i] {
      case EnterCycles(_, c) => MadeStays(s, i, t, i, c, 0);
      case ExitCycles(_, c) => MadeStays(s, i, t, i, c, 4);
      case _ =>
    }
  }

  // ----- How many crossings -----

  /** Over the first n threads, the steps of each plus d, divided by eight. */
  function Rounds(s: Schedule, n: nat, d: nat): (k: nat)
  {
    if n == 0 then 0 else Rounds(s, n - 1, d) + (Turns(s, n - 1) + d) / 8
  }

  lemma {:induction false} RoundsNext(s: Schedule, i: nat, t: u64, n: nat, d: nat)
    ensures Rounds(s + [(i, t)], n, d) == Rounds(s, n, d) + (if i < n && (Turns(s, i) + d + 1) % 8 == 0 then 1 else 0)
    decreases n
  {
    hide Turns;
    if n > 0 {
      RoundsNext(s, i, t, n - 1, d);
      TurnsNext(s, i, t, n - 1);
      NextEighth(Turns(s, n - 1) + d);
    }
  }

  lemma NextEighth(x: nat)
    ensures (x + 1) / 8 == x / 8 + (if (x + 1) % 8 == 0 then 1 else 0)
  {
  }

  lemma {:induction false} RoundsNone(n: nat, d: nat)
    requires d < 8
    ensures Rounds([], n, d) == 0
    decreases n
  {
    if n > 0 {
      RoundsNone(n - 1, d);
    }
  }

  /** The counters of w are those that the steps of a schedule account for. */
  ghost predicate Accounted(w: World, s: Schedule, n: nat)
  {
    && w.eenterCount == Rounds(s, n, 5) % TWO64 && |w.entered| == Rounds(s, n, 4)
    && w.eexitCount == Rounds(s, n, 1) % TWO64 && |w.exited| == Rounds(s, n, 0)
  }

  /** The counters by the numbers of steps: a thread has counted an entry with its third step and logged it
      with its fourth, counted an exit with its seventh and logged it with its eighth, round after round. */
  lemma {:induction false} CountsBySteps(n: nat, s: Schedule)
    ensures Accounted(Run(Start(n), s), s, n)
    decreases |s|
  {
    if s == [] {
      NothingAccounted(n);
    } else {
      var s0 := s[..|s| - 1];
      var (i, t) := s[|s| - 1];
      assert s == s0 + [(i, t)];
      hide *;
      CountsBySteps(n, s0);
      StampsReal(n, s0);
      RunSnoc(Start(n), s0, i, t);
      if i < n {
        StepAccounted(Run(Start(n), s0), s0, i, t, n);
      } else {
        OthersAccounted(Run(Start(n), s0), s0, i, t, n);
      }
    }
  }

  lemma NothingAccounted(n: nat)
    ensures Accounted(Run(Start(n), []), [], n)
  {
    RoundsNone(n, 5);
    RoundsNone(n, 4);
    RoundsNone(n, 1);
    RoundsNone(n, 0);
    hide Rounds;
  }

  lemma OthersAccounted(w: World, s: Schedule, i: nat, t: u64, n: nat)
    requires Accounted(w, s, n) && i >= n
    ensures Accounted(w, s + [(i, t)], n)
  {
    hide Rounds, Turns;
    RoundsNext(s, i, t, n, 5);
    RoundsNext(s, i, t, n, 4);
    RoundsNext(s, i, t, n, 1);
    RoundsNext(s, i, t, n, 0);
  }

  lemma StepAccounted(w: World, s: Schedule, i: nat, t: u64, n: nat)
    requires i < |w.threads| == n && Tracked(s, i, w.threads[i]) && Accounted(w, s, n)
    ensures Accounted(Step(w, i, t), s + [(i, t)], n)
  {
    hide Rounds, Turns, Step, Tracked;
    RoundsNext(s, i, t, n, 5);
    RoundsNext(s, i, t, n, 4);
    RoundsNext(s, i, t, n, 1);
    RoundsNext(s, i, t, n, 0);
    StepCounts(w, s, i, t, Rounds(s, n, 5), Rounds(s, n, 1));
  }

  lemma StepCounts(w: World, s: Schedule, i: nat, t: u64, entries: nat, exits: nat)
    requires i < |w.threads| && Tracked(s, i, w.threads[i])
    requires w.eenterCount == entries % TWO64 && w.eexitCount == exits % TWO64
    ensures var w', k := Step(w, i, t), Turns(s, i);
            && w'.eenterCount == (entries + (if (k + 6) % 8 == 0 then 1 else 0)) % TWO64
            && |w'.entered| == |w.entered| + (if (k + 5) % 8 == 0 then 1 else 0)
            && w'.eexitCount == (exits + (if (k + 2) % 8 == 0 then 1 else 0)) % TWO64
            && |w'.exited| == |w.exited| + (if (k + 1) % 8 == 0 then 1 else 0)
  {
    AddMod(entries, 1);
    AddMod(exits, 1);
    ByPhase(Turns(s, i));
    hide Turns, Made, Opened, Difference, Low, High, LockAdd;
  }

  lemma ByPhase(k: nat)
    ensures (k + 6) % 8 == 0 <==> k % 8 == 2
    ensures (k + 5) % 8 == 0 <==> k % 8 == 3
    ensures (k + 2) % 8 == 0 <==> k % 8 == 6
    ensures (k + 1) % 8 == 0 <==> k % 8 == 7
  {
  }

  lemma RunSnoc(w: World, s: Schedule, i: nat, t: u64)
    ensures Run(w, s + [(i, t)]) == if i < |Run(w, s).threads| then Step(Run(w, s), i, t) else Run(w, s)
  {
    assert (s + [(i, t)])[..|s|] == s;
    hide Step;
  }

  /** The next four steps of a lone thread. */
  function FourSteps(w: World, a: u64, b: u64): (r: World)
    requires |w.threads| == 1
  {
    var w1 := Step(w, 0, a);
    var w2 := Step(w1, 0, b);
    var w3 := Step(w2, 0, 0);
    Step(w3, 0, 0)
  }

  lemma WayIn(w: World, a: u64, b: u64)
    requires w.threads == [Outside] && w.eenterCount == 0 && w.eenterCycles == 0
    ensures var r := FourSteps(w, a, b);
            && r.threads == [Inside] && r.eenterCount == 1 && r.eenterCycles == (b - a) % TWO64
            && r.eexitCount == w.eexitCount && r.eexitCycles == w.eexitCycles
  {
    DifferenceIsDuration(a, b);
    hide Difference, Low, High;
  }

  lemma WayOut(w: World, a: u64, b: u64)
    requires w.threads == [Inside] && w.eexitCount == 0 && w.eexitCycles == 0
    ensures var r := FourSteps(w, a, b);
            && r.threads == [Outside] && r.eexitCount == 1 && r.eexitCycles == (b - a) % TWO64
            && r.eenterCount == w.eenterCount && r.eenterCycles == w.eenterCycles
  {
    DifferenceIsDuration(a, b);
    hide Difference, Low, High;
  }

  lemma RunFour(w: World, s: Schedule, a: u64, b: u64)
    requires |Run(w, s).threads| == 1
    ensures Run(w, s + [(0, a)] + [(0, b)] + [(0, 0)] + [(0, 0)]) == FourSteps(Run(w, s), a, b)
  {
    hide Run;
    RunSnoc(w, s, 0, a);
    RunSnoc(w, s + [(0, a)], 0, b);
    RunSnoc(w, s + [(0, a)] + [(0, b)], 0, 0);
    RunSnoc(w, s + [(0, a)] + [(0, b)] + [(0, 0)], 0, 0);
    hide Difference, Low, High, LockAdd;
  }

  lemma RunNothing(w: World)
    ensures Run(w, []) == w
  {
  }

  lemma StartsOutside()
    ensures var w := Start(1);
            w.threads == [Outside] && w.eenterCount == 0 && w.eenterCycles == 0 && w.eexitCount == 0 && w.eexitCycles == 0
  {
  }

  /** One thread goes in, from 1000 to 1500, and out again, from 2^32 - 1 to 2^32 + 1. */
  lemma OneRound()
    ensures var w := Run(Start(1), [(0, 1000), (0, 1500), (0, 0), (0, 0), (0, 0xffff_ffff), (0, 0x1_0000_0001), (0, 0), (0, 0)]);
            w.eenterCount == 1 && w.eenterCycles == 500 && w.eexitCount == 1 && w.eexitCycles == 2
  {
    hide Run, Step, Start, FourSteps;
    var s: Schedule := [(0, 1000), (0, 1500), (0, 0), (0, 0)];
    RunNothing(Start(1));
    StartsOutside();
    RunFour(Start(1), [], 1000, 1500);
    assert [] + [(0, 1000)] + [(0, 1500)] + [(0, 0)] + [(0, 0)] == s;
    WayIn(Start(1), 1000, 1500);
    RunFour(Start(1), s, 0xffff_ffff, 0x1_0000_0001);
    WayOut(Run(Start(1), s), 0xffff_ffff, 0x1_0000_0001);
    assert s + [(0, 0xffff_ffff)] + [(0, 0x1_0000_0001)] + [(0, 0)] + [(0, 0)] ==
           [(0, 1000), (0, 1500), (0, 0), (0, 0), (0, 0xffff_ffff), (0, 0x1_0000_0001), (0, 0), (0, 0)];
  }

  // ----- Reading the counters -----

  /** What `sgx_get_eexit_stats` leaves behind its two pointers. */
  datatype Stats = Untouched | Stats(count: u64, cycles: u64)

  /** The count is loaded in one world and the cycles in a later one; with a null pointer nothing is. */
  function GetEexitStats(atCount: World, atCycles: World, countPtr: bool, cyclesPtr: bool): (s: Stats)
  {
    if countPtr && cyclesPtr then Stats(atCount.eexitCount, atCycles.eexitCycles) else Untouched
  }

  lemma {:induction false} RunConcat(w: World, a: Schedule, b: Schedule)
    ensures Run(w, a + b) == Run(Run(w, a), b)
    decreases |b|
  {
    hide Step;
    if b == [] {
      assert a + b == a;
    } else {
      var n := |b| - 1;
      assert (a + b)[..|a + b| - 1] == a + b[..n];
      RunConcat(w, a, b[..n]);
    }
  }

  lemma {:induction false} LogGrows(w: World, b: Schedule)
    ensures w.exited <= Run(w, b).exited && |Run(w, b).exited| <= |w.exited| + |b|
    decreases |b|
  {
    if b != [] {
      LogGrows(w, b[..|b| - 1]);
      hide Difference, Low, High, LockAdd;
    }
  }

  /** A read while threads run on between the two loads, and any steps b they take.  Nothing is written
      unless both pointers are given.  The count is that of the crossings booked at the first load and of
      those between their two additions then; the cycles are those of the same booked crossings and of the
      ones booked since, of which there are at most as many as steps. */
  lemma ReaderSees(n: nat, a: Schedule, b: Schedule, countPtr: bool, cyclesPtr: bool)
    ensures var w1, w2 := Run(Start(n), a), Run(Start(n), a + b);
            var s := GetEexitStats(w1, w2, countPtr, cyclesPtr);
            && (s.Untouched? <==> !countPtr || !cyclesPtr)
            && w1.exited <= w2.exited && |w2.exited| <= |w1.exited| + |b|
            && (s.Stats? ==>
                  && s.count == (|w1.exited| + Tally(w1.threads, BetweenExitAdds)) % TWO64
                  && s.cycles == Total(w2.exited) % TWO64)
  {
    CountersExact(n, a);
    CountersExact(n, a + b);
    hide Run, Step, Tally, Total, Honest, Entries, Exits;
    RunConcat(Start(n), a, b);
    LogGrows(Run(Start(n), a), b);
  }

  /** Read at rest, both numbers are about the same crossings: all that were made. */
  lemma ReaderAtRest(n: nat, a: Schedule)
    requires forall i: nat :: i < |Run(Start(n), a).threads| ==> Run(Start(n), a).threads[i].Outside?
    ensures var w := Run(Start(n), a);
            GetEexitStats(w, w, true, true) == Stats(|w.exited| % TWO64, Total(w.exited) % TWO64)
  {
    QuiescentCountersAgree(n, a);
  }
}
