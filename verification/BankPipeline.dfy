/** Unpacker and math thread together: T0 unpacks tile after tile into SrcA and SrcB, T1 adds
    them, and neither ever gets stuck. */
module BankPipeline {
  import opened Banks

  datatype Thread = T0 | T1

  /** The tiles of a run of `n`, and how far each thread has come: completed instructions
      of T0 and T1, and the pairs of banks that T1 has read. */
  datatype Job = Job(n: nat, a: nat -> int, b: nat -> int)

  datatype Pipe = Pipe(p: Pair, i: nat, j: nat, sums: seq<(Slot, Slot)>)

  /** T0 alternates UNPACR to SrcA and SrcB; T1 runs ELWADD and gives both banks back. */
  function Next(job: Job, st: Pipe, t: Thread): Action {
    match t
    case T0 => if st.i % 2 == 0 then Unpacr(A, job.a(st.i / 2), true, true) else Unpacr(B, job.b(st.i / 2), true, true)
    case T1 => Elementwise(true, true)
  }

  predicate Left(job: Job, st: Pipe, t: Thread) {
    if t.T0? then st.i < 2 * job.n else st.j < job.n
  }

  predicate Finished(job: Job, st: Pipe) { !Left(job, st, T0) && !Left(job, st, T1) }

  predicate Enabled(job: Job, st: Pipe, t: Thread)
    requires WellFormed(st.p)
  {
    Left(job, st, t) && Step(st.p, Next(job, st, t)).Done?
  }

  /** One call of the step function for a thread: a blocked instruction stays pending. */
  function Attempt(job: Job, st: Pipe, t: Thread): (st': Pipe)
    requires WellFormed(st.p)
    ensures WellFormed(st'.p)
    ensures st'.i + st'.j == st.i + st.j + if Enabled(job, st, t) then 1 else 0
  {
    if !Enabled(job, st, t) then st
    else
      var o := Step(st.p, Next(job, st, t));
      if t.T0? then Pipe(o.p, st.i + 1, st.j, st.sums) else Pipe(o.p, st.i, st.j + 1, st.sums + o.e.read)
  }

  function Attempts(job: Job, st: Pipe, schedule: seq<Thread>): (st': Pipe)
    requires WellFormed(st.p)
    ensures WellFormed(st'.p)
    decreases |schedule|
  {
    if schedule == [] then st else Attempts(job, Attempt(job, st, schedule[0]), schedule[1..])
  }

  // ------------------------------------------------ what every schedule keeps

  function Tiles(f: nat -> int, n: nat): (s: seq<Slot>)
    ensures |s| == n && forall k :: 0 <= k < n ==> s[k] == Slot(f(k), false)
  {
    seq(n, k requires 0 <= k < n => Slot(f(k), false))
  }

  function RingA(job: Job, st: Pipe): Ring { Ring(Tiles(job.a, (st.i + 1) / 2), st.j) }

  function RingB(job: Job, st: Pipe): Ring { Ring(Tiles(job.b, st.i / 2), st.j) }

  ghost predicate Invariant(job: Job, st: Pipe) {
    && st.i <= 2 * job.n && st.j <= job.n && |st.sums| == st.j
    && InRing(st.p.a, RingA(job, st)) && InRing(st.p.b, RingB(job, st))
    && forall k :: 0 <= k < st.j ==> st.sums[k] == (Slot(job.a(k), false), Slot(job.b(k), false))
  }

  function Started(p: Pair): Pipe { Pipe(p, 0, 0, []) }

  lemma TilesGrow(f: nat -> int, n: nat)
    ensures Tiles(f, n) + [Slot(f(n), false)] == Tiles(f, n + 1)
    ensures Tiles(f, n) + [] == Tiles(f, n)
  {}

  lemma UnpacrEffect(p: Pair, which: Which, data: int)
    requires WellFormed(p)
    ensures var o := Step(p, Unpacr(which, data, true, true));
            o.Done? ==> o.e == if which.A? then Effect([Slot(data, false)], [], [], [], [])
                                           else Effect([], [], [Slot(data, false)], [], [])
  {}

  lemma ElementwiseEffect(p: Pair)
    requires WellFormed(p)
    ensures var o := Step(p, Elementwise(true, true));
            o.Done? ==> o.e.toA == o.e.toB == [] && |o.e.fromA| == |o.e.fromB| == 1
  {}

  lemma AttemptKeepsT0(job: Job, st: Pipe)
    requires Invariant(job, st) && Left(job, st, T0)
    ensures Enabled(job, st, T0) <==> !Full(if st.i % 2 == 0 then RingA(job, st) else RingB(job, st))
    ensures Invariant(job, Attempt(job, st, T0))
  {
    hide InRing, InOrder, Step, Tiles;
    var ra, rb, act := RingA(job, st), RingB(job, st), Next(job, st, T0);
    Ownership(st.p.a, ra);
    Ownership(st.p.b, rb);
    UnpacrRefines(st.p, act, ra, rb);
    UnpacrEffect(st.p, act.which, act.data);
    TilesGrow(job.a, (st.i + 1) / 2);
    TilesGrow(job.b, st.i / 2);
  }

  lemma AttemptKeepsT1(job: Job, st: Pipe)
    requires Invariant(job, st) && Left(job, st, T1)
    ensures Enabled(job, st, T1) <==> st.i / 2 > st.j
    ensures Invariant(job, Attempt(job, st, T1))
  {
    hide InRing, InOrder, Step, Tiles;
    var ra, rb := RingA(job, st), RingB(job, st);
    Ownership(st.p.a, ra);
    Ownership(st.p.b, rb);
    MathRefines(st.p, Next(job, st, T1), ra, rb);
    ElementwiseEffect(st.p);
    TilesGrow(job.a, (st.i + 1) / 2);
    TilesGrow(job.b, st.i / 2);
  }

  lemma {:induction false} AttemptsKeep(job: Job, st: Pipe, schedule: seq<Thread>)
    requires Invariant(job, st)
    ensures Invariant(job, Attempts(job, st, schedule))
    decreases |schedule|
  {
    if schedule != [] {
      var t := schedule[0];
      if Left(job, st, t) {
        if t.T0? { AttemptKeepsT0(job, st); } else { AttemptKeepsT1(job, st); }
      }
      AttemptsKeep(job, Attempt(job, st, t), schedule[1..]);
    }
  }

  /** No deadlock: whatever was tried before, an unfinished pipeline can go on. */
  lemma NeverStuck(job: Job, st: Pipe)
    requires Invariant(job, st) && !Finished(job, st)
    ensures Enabled(job, st, T0) || Enabled(job, st, T1)
  {
    if Left(job, st, T0) { AttemptKeepsT0(job, st); }
    if Left(job, st, T1) { AttemptKeepsT1(job, st); }
  }

  /** Every schedule from the reset state: while the pipeline is unfinished some thread can
      go on, once no thread can exactly 3n instructions have completed, and the k-th ELWADD
      has read the k-th tile of either side. */
  lemma EverySchedule(job: Job, p: Pair, schedule: seq<Thread>)
    requires InRing(p.a, Ring([], 0)) && InRing(p.b, Ring([], 0))
    ensures var st := Attempts(job, Started(p), schedule);
            && (Finished(job, st) <==> !Enabled(job, st, T0) && !Enabled(job, st, T1))
            && (Finished(job, st) <==> st.i + st.j == 3 * job.n)
            && |st.sums| == st.j
            && forall k :: 0 <= k < st.j ==> st.sums[k] == (Slot(job.a(k), false), Slot(job.b(k), false))
  {
    var s0 := Started(p);
    assert RingA(job, s0) == Ring([], 0) && RingB(job, s0) == Ring([], 0);
    AttemptsKeep(job, s0, schedule);
    var st := Attempts(job, s0, schedule);
    if !Finished(job, st) { NeverStuck(job, st); }
  }

  /** `rounds` rounds of trying each thread once. */
  function RoundRobin(rounds: nat): seq<Thread> {
    if rounds == 0 then [] else [T0, T1] + RoundRobin(rounds - 1)
  }

  /** Trying the threads in turn finishes: 3n rounds are enough for n tiles. */
  lemma {:induction false} RoundRobinFinishes(job: Job, st: Pipe, rounds: nat)
    requires Invariant(job, st) && st.i + st.j + rounds >= 3 * job.n
    ensures Finished(job, Attempts(job, st, RoundRobin(rounds)))
    decreases rounds
  {
    if rounds > 0 {
      var schedule, rest := RoundRobin(rounds), RoundRobin(rounds - 1);
      assert schedule[0] == T0 && schedule[1..][0] == T1 && schedule[1..][1..] == rest;
      var st1 := Attempt(job, st, T0);
      var st2 := Attempt(job, st1, T1);
      assert Attempts(job, st, schedule) == Attempts(job, st2, rest);
      assert Invariant(job, st1) && Invariant(job, st2) by {
        AttemptsKeep(job, st, [T0]);
        AttemptsKeep(job, st1, [T1]);
        assert [T0][1..] == [] && [T1][1..] == [];
      }
      if !Finished(job, st) { NeverStuck(job, st); }
      RoundRobinFinishes(job, st2, rounds - 1);
    }
  }
}
