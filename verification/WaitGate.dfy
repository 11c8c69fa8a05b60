/** The wait gate of a thread: wait instructions latch a condition that holds back later
    instructions, and every instruction leaves the FIFO in order. */
module WaitGate {
  import opened Powers
  import opened Words
  import opened Encoding

  const FIFO_SIZE: nat := 32
  const STALLWAIT: nat := 0xa2
  const SEMWAIT: nat := 0xa6
  const STREAMWAIT: nat := 0xa7
  const MOP_CFG: nat := 0x03
  const NOP: nat := 0x02
  const SEMINIT: nat := 0xa3
  const SEMPOST: nat := 0xa4
  const SEMGET: nat := 0xa5

  predicate IsWait(opcode: nat) { opcode == STALLWAIT || opcode == SEMWAIT || opcode == STREAMWAIT }

  /** The bits that are set in a field of `width` bits. */
  function BitsOf(field: nat, width: nat): set<nat> {
    set k: nat | k < width && field / Pow2(k) % 2 == 1
  }

  const AllBlocks := set k: nat | k < 9

  /** Which block bits hold an instruction back: the unit that carries it out. */
  function BlockBits(opcode: nat): set<nat> {
    if IsWait(opcode) then AllBlocks else UnitBits(opcode)
  }

  function UnitBits(opcode: nat): set<nat> {
    match opcode
    case 0x53 | 0x56 | 0x52 | 0x55 | 0x44 | 0x50 | 0x5e | 0x51 | 0x54 | 0x57 => {0}
    case 0xa0 | 0xa1 | 0xa5 | 0xa3 | 0xa4 => {1}
    case 0x41 | 0x4a => {0, 2}
    case 0x42 | 0x43 => {0, 3}
    case 0x40 => {0, 4}
    case 0x58 | 0x64 | 0x61 | 0x62 | 0x63 | 0x5b | 0x5d | 0x60 | 0x46 | 0x49 | 0x68 | 0x5a | 0x48 | 0x45 |
      0x5c | 0x66 | 0x67 | 0x59 => {0, 5}
    case 0x25 | 0x32 | 0x36 | 0x21 | 0x22 | 0x23 | 0x29 | 0x28 | 0x27 | 0x30 | 0x34 | 0x35 | 0x33 | 0x38 |
      0x3a | 0x12 | 0x0b | 0x13 | 0x08 | 0x0a | 0x09 | 0x24 | 0x31 | 0x26 | 0x37 | 0x17 | 0x18 | 0x16 |
      0x10 | 0x11 => {6}
    case 0xb8 | 0xb1 | 0xb3 | 0xb4 | 0xb5 | 0xb6 | 0xb2 | 0xb7 | 0xb0 => {7}
    case 0x7d | 0x85 | 0x75 | 0x7e | 0x99 | 0x90 | 0x8b | 0x91 | 0x76 | 0x8a | 0x77 | 0x78 | 0x97 | 0x79 |
      0x96 | 0x70 | 0x71 | 0x93 | 0x73 | 0x95 | 0x81 | 0x84 | 0x7c | 0x86 | 0x98 | 0x74 | 0x8f | 0x80 |
      0x7f | 0x88 | 0x87 | 0x7b | 0x82 | 0x83 | 0x89 | 0x7a | 0x94 | 0x8e | 0x72 | 0x92 | 0x8c | 0x8d => {8}
    case _ => {}
  }

  // ------------------------------------------------ the gate

  datatype Gate = Gate(active: bool, opcode: nat, block: set<nat>, cond: set<nat>, sems: set<nat>)

  const Cleared := Gate(false, 0, {}, {}, {})

  /** A missing block mask stands for the matrix unit. */
  function BlockOf(param: nat): (block: set<nat>)
    ensures block != {} && block <= AllBlocks
  {
    var b := BitsOf(param / 0x8000, 9);
    if b == {} then {6} else b
  }

  function Latched(insn: Word): Gate {
    var param := Param(insn);
    var block := BlockOf(param);
    if Opcode(insn) == STALLWAIT then
      Gate(true, STALLWAIT, block, if param % 0x8000 == 0 then {0, 1, 2, 3} else BitsOf(param, 15), {})
    else if Opcode(insn) == SEMWAIT then
      if param % 4 == 0 then Gate(true, STALLWAIT, block, {0, 1, 2, 3}, {})
      else Gate(true, SEMWAIT, block, BitsOf(param, 2), BitsOf(param / 4, 13))
    else
      Gate(true, STREAMWAIT, block, {param / 8 % 2}, {})
  }

  /** What the gate looks at: eight semaphores and which banks are still in use. */
  datatype CoreState = CoreState(sem: seq<nat>, max: seq<nat>, unpA: bool, unpB: bool, mathA: bool, mathB: bool)

  type Core = c: CoreState | |c.sem| == 8 && |c.max| == 8
    witness CoreState(seq(8, _ => 0), seq(8, _ => 0), false, false, false, false)

  /** The gate's condition: nothing it waits for is outstanding. `unpA` and `unpB` say that
      the unpackers' bank belongs to the matrix unit, `mathA` and `mathB` that the matrix
      unit's bank does. */
  predicate Satisfied(g: Gate, c: Core) {
    if g.opcode == STALLWAIT then
      && !(5 in g.cond && c.unpA) && !(6 in g.cond && c.unpB)
      && !(7 in g.cond && !c.mathA) && !(8 in g.cond && !c.mathB)
    else if g.opcode == SEMWAIT then
      && (0 in g.cond ==> forall s :: 0 <= s < 8 && s in g.sems ==> c.sem[s] != 0)
      && (1 in g.cond ==> forall s :: 0 <= s < 8 && s in g.sems ==> c.sem[s] < c.max[s])
    else true
  }

  /** Does the gate hold this instruction back until its condition is met? NOP is held
      back only by a gate that blocks everything. */
  predicate Holds(g: Gate, insn: Word) {
    g.active &&
      if Opcode(insn) == NOP && g.block == AllBlocks then true
      else BlockBits(Opcode(insn)) * g.block != {}
  }

  // ------------------------------------------------ one thread

  /** A check that let an instruction pass: the gate, the core as it was then, and when. */
  datatype Check = Check(gate: Gate, core: Core, at: nat)

  /** A completed instruction and the checks it passed, at whatever attempt. */
  datatype Entry = Entry(insn: Word, met: seq<Check>)

  /** `met` belongs to the pending instruction, `time` counts pushes and steps. */
  datatype Thread = Thread(
    fifo: seq<Word>, pending: seq<Word>, met: seq<Check>, gate: Gate,
    log: seq<Entry>, accepted: seq<Word>, time: nat)

  const Idle := Thread([], [], [], Cleared, [], [], 0)

  /** A push is refused when the FIFO is full. */
  function Pushed(t: Thread, insn: Word): Thread {
    if |t.fifo| >= FIFO_SIZE then t else t.(fifo := t.fifo + [insn], accepted := t.accepted + [insn])
  }

  function Completed(t: Thread, insn: Word, gate: Gate, met: seq<Check>): Thread {
    t.(pending := [], met := [], gate := gate, log := t.log + [Entry(insn, met)])
  }

  /** One step with an instruction in hand: the gate that holds it back is checked and then
      cleared; `runs` says whether the instruction then finds its banks ready and finishes. */
  function Attempted(t: Thread, insn: Word, core: Core, runs: bool): Thread {
    if Opcode(insn) == MOP_CFG then Completed(t, insn, t.gate, t.met)
    else if Holds(t.gate, insn) && !Satisfied(t.gate, core) then t.(pending := [insn])
    else
      var gate := if Holds(t.gate, insn) then Cleared else t.gate;
      var met := if Holds(t.gate, insn) then t.met + [Check(t.gate, core, t.time)] else t.met;
      if IsWait(Opcode(insn)) then Completed(t, insn, Latched(insn), met)
      else if runs then Completed(t, insn, gate, met)
      else t.(pending := [insn], met := met, gate := gate)
  }

  function Stepped(t: Thread, core: Core, runs: bool): Thread {
    if t.pending != [] then Attempted(t.(pending := []), t.pending[0], core, runs)
    else if t.fifo != [] then Attempted(t.(fifo := t.fifo[1..]), t.fifo[0], core, runs)
    else t
  }

  /** A push, or a step that finds the core in some state. */
  datatype Event = Push(insn: Word) | Step(core: Core, runs: bool)

  function Happened(t: Thread, e: Event): Thread {
    match e
    case Push(insn) => Pushed(t, insn).(time := t.time + 1)
    case Step(core, runs) => Stepped(t, core, runs).(time := t.time + 1)
  }

  function Run(t: Thread, events: seq<Event>): Thread
    decreases |events|
  {
    if events == [] then t else Run(Happened(t, events[0]), events[1..])
  }

  // ------------------------------------------------ what every run keeps

  function Insns(log: seq<Entry>): seq<Word> {
    if log == [] then [] else Insns(log[..|log| - 1]) + [log[|log| - 1].insn]
  }

  /** An instruction subject to the gate `g`. */
  predicate Held(g: Gate, insn: Word) { Opcode(insn) != MOP_CFG && Holds(g, insn) }

  /** The gate in force after a sequence of completed instructions: what the last wait
      latched, until an instruction it holds back has completed. */
  function InForce(insns: seq<Word>): Gate {
    if insns == [] then Cleared
    else
      var g, insn := InForce(insns[..|insns| - 1]), insns[|insns| - 1];
      if IsWait(Opcode(insn)) then Latched(insn) else if Held(g, insn) then Cleared else g
  }

  /** A passed check: exactly the gate in force, and its condition held. */
  predicate Passes(met: seq<Check>, g: Gate) {
    |met| == 1 && met[0].gate == g && Satisfied(g, met[0].core)
  }

  /** Whatever the gate in force held back has completed only after a check at which the
      gate's condition held; nothing else was checked. */
  ghost predicate Obeyed(log: seq<Entry>) {
    forall j :: 0 <= j < |log| ==>
      var g := InForce(Insns(log[..j]));
      if Held(g, log[j].insn) then Passes(log[j].met, g) else log[j].met == []
  }

  /** The thread's gate is the one in force, unless the pending instruction has passed it. */
  ghost predicate Gated(t: Thread) {
    var g := InForce(Insns(t.log));
    || (t.met == [] && t.gate == g)
    || (t.pending != [] && Held(g, t.pending[0]) && Passes(t.met, g) && t.gate == Cleared)
  }

  /** Nothing is lost, doubled or reordered, and every gate is obeyed. */
  ghost predicate Good(t: Thread) {
    && |t.fifo| <= FIFO_SIZE && |t.pending| <= 1
    && t.accepted == Insns(t.log) + t.pending + t.fifo
    && Obeyed(t.log) && Gated(t)
  }

  lemma InsnsAppend(log: seq<Entry>, e: Entry)
    ensures Insns(log + [e]) == Insns(log) + [e.insn]
  {}

  /** A gate in force that is active blocks something. */
  lemma {:induction false} InForceBlocks(insns: seq<Word>)
    ensures var g := InForce(insns); g.active ==> g.block != {} && g.block <= AllBlocks
  {
    if insns != [] {
      InForceBlocks(insns[..|insns| - 1]);
    }
  }

  /** No wait instruction passes an active gate unchecked. */
  lemma WaitsAreHeld(g: Gate, insn: Word)
    requires g.active && g.block != {} && g.block <= AllBlocks && IsWait(Opcode(insn))
    ensures Held(g, insn)
  {
    var b :| b in g.block;
    assert b in BlockBits(Opcode(insn)) * g.block;
  }

  /** So a wait is completed, and its gate replaces the one in force, only after that one
      was met. */
  lemma ReplacedOnlyWhenMet(log: seq<Entry>, j: nat)
    requires Obeyed(log) && j < |log| && IsWait(Opcode(log[j].insn)) && InForce(Insns(log[..j])).active
    ensures Passes(log[j].met, InForce(Insns(log[..j])))
  {
    InForceBlocks(Insns(log[..j]));
    WaitsAreHeld(InForce(Insns(log[..j])), log[j].insn);
  }

  lemma ObeyedAppend(log: seq<Entry>, e: Entry)
    requires Obeyed(log)
    requires var g := InForce(Insns(log)); if Held(g, e.insn) then Passes(e.met, g) else e.met == []
    ensures Obeyed(log + [e])
  {
    hide Held, Passes, InForce, Insns;
    var l := log + [e];
    forall j | 0 <= j < |l|
      ensures var g := InForce(Insns(l[..j])); if Held(g, l[j].insn) then Passes(l[j].met, g) else l[j].met == []
    {
      assert l[..j] == log[..j];
      if j == |log| { assert log[..j] == log; }
    }
  }

  lemma NextInForce(insns: seq<Word>, insn: Word)
    ensures InForce(insns + [insn]) ==
            var g := InForce(insns);
            if IsWait(Opcode(insn)) then Latched(insn) else if Held(g, insn) then Cleared else g
  {
    assert (insns + [insn])[..|insns|] == insns;
  }

  /** Taking the instruction in hand out of the thread. */
  ghost predicate InHand(t: Thread, insn: Word, rest: Thread) {
    && Good(t) && t.pending + t.fifo == [insn] + rest.fifo && rest.pending == [] && |rest.fifo| <= FIFO_SIZE
    && rest.gate == t.gate && rest.met == t.met && rest.log == t.log
    && rest.accepted == t.accepted && rest.time == t.time
  }

  lemma CompletedGood(t: Thread, insn: Word, gate: Gate, met: seq<Check>, rest: Thread)
    requires InHand(t, insn, rest)
    requires var g := InForce(Insns(t.log)); if Held(g, insn) then Passes(met, g) else met == []
    requires gate == InForce(Insns(t.log) + [insn])
    ensures Good(Completed(rest, insn, gate, met))
  {
    hide Held, Passes, InForce;
    ObeyedAppend(t.log, Entry(insn, met));
    InsnsAppend(t.log, Entry(insn, met));
    assert t.accepted == Insns(t.log) + (t.pending + t.fifo);
    assert Insns(t.log) + [insn] + [] + rest.fifo == Insns(t.log) + ([insn] + rest.fifo);
  }

  lemma PendingGood(t: Thread, insn: Word, gate: Gate, met: seq<Check>, rest: Thread)
    requires InHand(t, insn, rest)
    requires var g := InForce(Insns(t.log));
             (met == [] && gate == g) || (Held(g, insn) && Passes(met, g) && gate == Cleared)
    ensures Good(rest.(pending := [insn], met := met, gate := gate))
  {
    hide Held, Passes, InForce, Obeyed;
    assert t.accepted == Insns(t.log) + (t.pending + t.fifo);
    assert Insns(t.log) + [insn] + rest.fifo == Insns(t.log) + ([insn] + rest.fifo);
  }

  lemma AttemptedGood(t: Thread, insn: Word, core: Core, runs: bool, rest: Thread)
    requires InHand(t, insn, rest)
    ensures Good(Attempted(rest, insn, core, runs))
  {
    var g := InForce(Insns(t.log));
    assert t.pending != [] ==> t.pending[0] == insn by {
      if t.pending != [] { assert (t.pending + t.fifo)[0] == insn; }
    }
    InForceBlocks(Insns(t.log));
    NextInForce(Insns(t.log), insn);
    ClearedHoldsNothing(insn);
    hide Good, Holds, Satisfied, Latched, Obeyed, InForce;
    var held := Holds(t.gate, insn);
    var gate := if held then Cleared else t.gate;
    var met := if held then t.met + [Check(t.gate, core, t.time)] else t.met;
    if Opcode(insn) == MOP_CFG {
      CompletedGood(t, insn, t.gate, t.met, rest);
    } else if held && !Satisfied(t.gate, core) {
      PendingGood(t, insn, t.gate, t.met, rest);
    } else if IsWait(Opcode(insn)) {
      CompletedGood(t, insn, Latched(insn), met, rest);
    } else if runs {
      CompletedGood(t, insn, gate, met, rest);
    } else {
      PendingGood(t, insn, gate, met, rest);
    }
  }

  lemma ClearedHoldsNothing(insn: Word)
    ensures !Holds(Cleared, insn)
  {}

  lemma HappenedGood(t: Thread, e: Event)
    requires Good(t)
    ensures Good(Happened(t, e))
  {
    hide Obeyed, InForce, Held, Passes;
    match e
    case Push(insn) =>
      assert Insns(t.log) + t.pending + (t.fifo + [insn]) == (Insns(t.log) + t.pending + t.fifo) + [insn];
    case Step(core, runs) =>
      if t.pending != [] {
        assert t.pending == [t.pending[0]];
        AttemptedGood(t, t.pending[0], core, runs, t.(pending := []));
      } else if t.fifo != [] {
        assert [] + t.fifo == [t.fifo[0]] + t.fifo[1..];
        AttemptedGood(t, t.fifo[0], core, runs, t.(fifo := t.fifo[1..]));
      }
  }

  lemma {:induction false} RunGood(t: Thread, events: seq<Event>)
    requires Good(t)
    ensures Good(Run(t, events))
    decreases |events|
  {
    if events != [] {
      HappenedGood(t, events[0]);
      RunGood(Happened(t, events[0]), events[1..]);
    }
  }

  /** The check was made by that event of the run, against the core it found. */
  predicate Seen(c: Check, events: seq<Event>) {
    c.at < |events| && events[c.at].Step? && events[c.at].core == c.core
  }

  predicate AllSeen(met: seq<Check>, events: seq<Event>) {
    forall j :: 0 <= j < |met| ==> Seen(met[j], events)
  }

  ghost predicate Witnessed(t: Thread, events: seq<Event>) {
    && t.time == |events| && AllSeen(t.met, events)
    && forall j :: 0 <= j < |t.log| ==> AllSeen(t.log[j].met, events)
  }

  lemma SeenLater(met: seq<Check>, events: seq<Event>, e: Event)
    requires AllSeen(met, events)
    ensures AllSeen(met, events + [e])
  {
    assert forall j :: 0 <= j < |events| ==> (events + [e])[j] == events[j];
  }

  lemma HappenedWitnessed(t: Thread, events: seq<Event>, e: Event)
    requires Witnessed(t, events)
    ensures Witnessed(Happened(t, e), events + [e])
  {
    hide AllSeen, Holds, Satisfied, Latched;
    SeenLater(t.met, events, e);
    forall j | 0 <= j < |t.log| ensures AllSeen(t.log[j].met, events + [e]) {
      SeenLater(t.log[j].met, events, e);
    }
    NothingSeen(events + [e]);
    if e.Step? {
      SeenNow(t.met, Check(t.gate, e.core, t.time), events, e);
    }
  }

  lemma NothingSeen(events: seq<Event>)
    ensures AllSeen([], events)
  {}

  lemma SeenNow(met: seq<Check>, c: Check, events: seq<Event>, e: Event)
    requires AllSeen(met, events) && c.at == |events| && e.Step? && e.core == c.core
    ensures AllSeen(met + [c], events + [e])
  {
    SeenLater(met, events, e);
  }

  lemma {:induction false} RunWitnessed(t: Thread, before: seq<Event>, events: seq<Event>)
    requires Witnessed(t, before)
    ensures Witnessed(Run(t, events), before + events)
    decreases |events|
  {
    hide Witnessed, Happened;
    if events == [] {
      assert before + events == before;
    } else {
      HappenedWitnessed(t, before, events[0]);
      RunWitnessed(Happened(t, events[0]), before + [events[0]], events[1..]);
      assert before + [events[0]] + events[1..] == before + events;
    }
  }

  /** In every run of pushes and steps, whatever the core does meanwhile: completed, pending
      and queued instructions are the accepted ones in order, and every instruction that the
      gate in force held back completed only after a step of the run at which its condition
      held. */
  lemma EveryRun(events: seq<Event>)
    ensures Good(Run(Idle, events)) && Witnessed(Run(Idle, events), events)
  {
    RunGood(Idle, events);
    RunWitnessed(Idle, [], events);
    assert [] + events == events;
  }

  /** An active gate changes only in a step at which its condition held, and only because an
      instruction it held back was in hand. */
  lemma GateLeavesOnlyWhenMet(t: Thread, e: Event)
    requires Good(t) && t.gate.active && Happened(t, e).gate != t.gate
    ensures e.Step? && Satisfied(t.gate, e.core)
    ensures t.pending + t.fifo != [] && Held(t.gate, (t.pending + t.fifo)[0])
  {
    hide Obeyed, Satisfied, Latched, InForce, Insns;
    var insn := (t.pending + t.fifo)[0];
    if t.pending != [] { assert insn == t.pending[0]; }
    InForceBlocks(Insns(t.log));
    if IsWait(Opcode(insn)) { WaitsAreHeld(t.gate, insn); }
  }
}
