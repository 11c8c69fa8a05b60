/** Semaphores: a producer that waits for room before every post and a consumer that waits for
    something before every get never lose a count. */
module Semaphores {
  import opened Powers
  import opened Words
  import opened Encoding
  import opened WaitGate

  const SYNC_UNIT: nat := 1

  /** The semaphores selected by SEMINIT, SEMPOST and SEMGET. */
  function Selected(insn: Word): set<nat> { BitsOf(Param(insn) / 4, 8) }

  /** Counts stop at 15 and at 0. */
  function Posted(sem: seq<nat>, sel: set<nat>): (r: seq<nat>)
    requires |sem| == 8
    ensures |r| == 8 && forall k :: 0 <= k < 8 ==> r[k] == if k in sel && sem[k] < 15 then sem[k] + 1 else sem[k]
  {
    seq(8, k requires 0 <= k < 8 => if k in sel && sem[k] < 15 then sem[k] + 1 else sem[k])
  }

  function Got(sem: seq<nat>, sel: set<nat>): (r: seq<nat>)
    requires |sem| == 8
    ensures |r| == 8 && forall k :: 0 <= k < 8 ==> r[k] == if k in sel && sem[k] > 0 then sem[k] - 1 else sem[k]
  {
    seq(8, k requires 0 <= k < 8 => if k in sel && sem[k] > 0 then sem[k] - 1 else sem[k])
  }

  function Assigned(s: seq<nat>, sel: set<nat>, v: nat): (r: seq<nat>)
    requires |s| == 8
    ensures |r| == 8 && forall k :: 0 <= k < 8 ==> r[k] == if k in sel then v else s[k]
  {
    seq(8, k requires 0 <= k < 8 => if k in sel then v else s[k])
  }

  /** What a completed instruction does to the semaphores. */
  function Effect(c: Core, insn: Word): Core {
    if Opcode(insn) == SEMPOST then c.(sem := Posted(c.sem, Selected(insn)))
    else if Opcode(insn) == SEMGET then c.(sem := Got(c.sem, Selected(insn)))
    else if Opcode(insn) == SEMINIT then
      c.(sem := Assigned(c.sem, Selected(insn), Param(insn) / 0x1_0000 % 16),
         max := Assigned(c.max, Selected(insn), Param(insn) / 0x10_0000))
    else c
  }

  // ------------------------------------------------ producer and consumer

  datatype Role = Producer | Consumer

  /** Does the instruction change semaphore `s` in the way the role does? */
  predicate Moves(role: Role, insn: Word, s: nat) {
    Opcode(insn) == (if role.Producer? then SEMPOST else SEMGET) && s in Selected(insn)
  }

  predicate Touches(insn: Word, s: nat) {
    (Opcode(insn) == SEMPOST || Opcode(insn) == SEMGET || Opcode(insn) == SEMINIT) && s in Selected(insn)
  }

  /** A gate that lets SEMPOST, or SEMGET, on `s` pass only below the maximum, or above zero. */
  predicate GuardsGate(role: Role, g: Gate, s: nat) {
    && g.active && g.opcode == SEMWAIT && s in g.sems && SYNC_UNIT in g.block
    && (if role.Producer? then 1 else 0) in g.cond
  }

  predicate Guards(role: Role, insn: Word, s: nat) {
    IsWait(Opcode(insn)) && GuardsGate(role, Latched(insn), s)
  }

  /** Every post, or get, of `s` has its own wait before it; `armed` says that one is open. */
  predicate Disciplined(role: Role, prog: seq<Word>, armed: bool, s: nat) {
    prog != [] ==>
      && (Touches(prog[0], s) ==> Moves(role, prog[0], s) && armed)
      && Disciplined(role, prog[1..], NowArmed(role, prog[0], armed, s), s)
  }

  predicate NowArmed(role: Role, insn: Word, armed: bool, s: nat) {
    if Moves(role, insn, s) then false else armed || Guards(role, insn, s)
  }

  /** Is there room, or something to take? */
  predicate Credit(role: Role, c: Core, s: nat)
    requires s < 8
  {
    if role.Producer? then c.sem[s] < c.max[s] else c.sem[s] > 0
  }

  /** A thread of either role, with its program still to run and the number of posts or
      gets it has completed. */
  datatype Actor = Actor(role: Role, prog: seq<Word>, gate: Gate, armed: bool, moves: nat)

  datatype System = System(core: Core, p: Actor, c: Actor)

  /** One step of the thread: the check of the gate and the instruction are one action. */
  function Act(a: Actor, core: Core, runs: bool, s: nat): (r: (Actor, Core))
    ensures r.0.role == a.role
  {
    if a.prog == [] then (a, core)
    else
      var insn := a.prog[0];
      var t := Attempted(Idle.(gate := a.gate), insn, core, runs);
      if t.log == [] then (a.(gate := t.gate), core)
      else
        (Actor(a.role, a.prog[1..], t.gate, NowArmed(a.role, insn, a.armed, s),
               a.moves + if Moves(a.role, insn, s) then 1 else 0),
         Effect(core, insn))
  }

  ghost predicate Ready(a: Actor, core: Core, s: nat)
    requires s < 8
  {
    && Disciplined(a.role, a.prog, a.armed, s)
    && (a.armed ==> GuardsGate(a.role, a.gate, s) || Credit(a.role, core, s))
    && (a.gate.active ==> a.gate.block != {} && a.gate.block <= AllBlocks)
  }

  /** No count has been lost: the value is what was there at first, plus posts, minus gets. */
  ghost predicate Balanced(sys: System, s: nat, initial: nat, max: nat) {
    && s < 8 && sys.p.role == Producer && sys.c.role == Consumer
    && sys.core.max[s] == max <= 15
    && sys.core.sem[s] == initial + sys.p.moves - sys.c.moves && sys.core.sem[s] <= max
    && Ready(sys.p, sys.core, s) && Ready(sys.c, sys.core, s)
  }

  /** An open guard gate means credit. */
  lemma SatisfiedCredit(role: Role, g: Gate, c: Core, s: nat)
    requires s < 8 && GuardsGate(role, g, s) && Satisfied(g, c)
    ensures Credit(role, c, s)
  {}

  lemma HeldByGuard(role: Role, g: Gate, insn: Word, s: nat)
    requires GuardsGate(role, g, s) && Moves(role, insn, s)
    ensures Holds(g, insn)
  {
    assert SYNC_UNIT in BlockBits(Opcode(insn)) * g.block;
  }

  /** A post completes only with room, a get only with something to take. */
  lemma MovesWithCredit(a: Actor, core: Core, s: nat)
    requires s < 8 && Ready(a, core, s) && a.prog != [] && Moves(a.role, a.prog[0], s)
    requires Holds(a.gate, a.prog[0]) ==> Satisfied(a.gate, core)
    ensures Credit(a.role, core, s)
  {
    hide Holds, Satisfied;
    if GuardsGate(a.role, a.gate, s) {
      HeldByGuard(a.role, a.gate, a.prog[0], s);
      SatisfiedCredit(a.role, a.gate, core, s);
    }
  }

  lemma UntouchedSemaphore(core: Core, insn: Word, s: nat)
    requires s < 8 && !Touches(insn, s)
    ensures Effect(core, insn).sem[s] == core.sem[s] && Effect(core, insn).max[s] == core.max[s]
  {}

  lemma MovedSemaphore(role: Role, core: Core, insn: Word, s: nat)
    requires s < 8 && Moves(role, insn, s) && Credit(role, core, s) && core.max[s] <= 15
    ensures Effect(core, insn).sem[s] == core.sem[s] + (if role.Producer? then 1 else -1)
    ensures Effect(core, insn).max[s] == core.max[s]
  {}

  /** How a step moves the semaphore, in terms of the moves it counts. */
  lemma ActMoves(a: Actor, core: Core, runs: bool, s: nat)
    requires s < 8 && Ready(a, core, s) && core.max[s] <= 15
    ensures var (a', core') := Act(a, core, runs, s);
            && a.moves <= a'.moves <= a.moves + 1 && core'.max[s] == core.max[s]
            && core'.sem[s] == core.sem[s] + (if a.role.Producer? then a'.moves - a.moves else a.moves - a'.moves)
            && (a'.moves > a.moves ==> Credit(a.role, core, s))
  {
    hide Holds, Satisfied, Effect, Latched, Moves, NowArmed;
    if a.prog != [] && Act(a, core, runs, s).0.prog != a.prog {
      var insn := a.prog[0];
      if Moves(a.role, insn, s) {
        NotMopCfg(a.role, insn, s);
        MovesWithCredit(a, core, s);
        MovedSemaphore(a.role, core, insn, s);
      } else {
        UntouchedSemaphore(core, insn, s);
      }
    }
  }

  lemma NotMopCfg(role: Role, insn: Word, s: nat)
    requires Moves(role, insn, s)
    ensures Opcode(insn) != MOP_CFG && !IsWait(Opcode(insn)) && Touches(insn, s)
  {}

  /** The actor's own step keeps its promise: an open wait is a guarding gate or credit. */
  lemma ActReady(a: Actor, core: Core, runs: bool, s: nat)
    requires s < 8 && Ready(a, core, s) && core.max[s] <= 15
    ensures var (a', core') := Act(a, core, runs, s); Ready(a', core', s)
  {
    hide Holds, Satisfied, Effect, Latched, Moves, GuardsGate;
    if a.prog != [] {
      var insn := a.prog[0];
      if GuardsGate(a.role, a.gate, s) && Satisfied(a.gate, core) {
        SatisfiedCredit(a.role, a.gate, core, s);
      }
      if a.gate.active && IsWait(Opcode(insn)) {
        WaitsAreHeld(a.gate, insn);
      }
      LatchedBlocks(insn);
      if !Moves(a.role, insn, s) {
        UntouchedSemaphore(core, insn, s);
      }
      if a.armed && !a.gate.active {
        InactiveGuardsNothing(a.role, a.gate, s);
      }
    }
  }

  lemma LatchedBlocks(insn: Word)
    ensures Latched(insn).block != {} && Latched(insn).block <= AllBlocks
  {}

  lemma InactiveGuardsNothing(role: Role, g: Gate, s: nat)
    requires !g.active
    ensures !GuardsGate(role, g, s)
  {}

  /** The other actor's promise survives: a post only adds, a get only takes. */
  lemma OtherReady(a: Actor, core: Core, core': Core, s: nat)
    requires s < 8 && Ready(a, core, s) && core'.max[s] == core.max[s]
    requires if a.role.Producer? then core'.sem[s] <= core.sem[s] else core'.sem[s] >= core.sem[s]
    ensures Ready(a, core', s)
  {}

  /** A turn of one of the two threads. Since the last turn everything but the semaphore may
      have changed to what `others` says: other semaphores, the banks' owners. */
  datatype Turn = Turn(who: Role, runs: bool, others: Core)

  function Around(core: Core, others: Core, s: nat): Core
    requires s < 8
  {
    others.(sem := others.sem[s := core.sem[s]], max := others.max[s := core.max[s]])
  }

  function Took(sys: System, t: Turn, s: nat): System
    requires s < 8
  {
    var core := Around(sys.core, t.others, s);
    if t.who.Producer? then
      var (p', core') := Act(sys.p, core, t.runs, s);
      System(core', p', sys.c)
    else
      var (c', core') := Act(sys.c, core, t.runs, s);
      System(core', sys.p, c')
  }

  function Turns(sys: System, turns: seq<Turn>, s: nat): System
    requires s < 8
    decreases |turns|
  {
    if turns == [] then sys else Turns(Took(sys, turns[0], s), turns[1..], s)
  }

  lemma TookBalanced(sys: System, t: Turn, s: nat, initial: nat, max: nat)
    requires Balanced(sys, s, initial, max)
    ensures Balanced(Took(sys, t, s), s, initial, max)
  {
    var a, b := if t.who.Producer? then sys.p else sys.c, if t.who.Producer? then sys.c else sys.p;
    var core := Around(sys.core, t.others, s);
    OtherReady(a, sys.core, core, s);
    hide Act, Ready;
    ActMoves(a, core, t.runs, s);
    ActReady(a, core, t.runs, s);
    var (a', core') := Act(a, core, t.runs, s);
    OtherReady(b, sys.core, core', s);
  }

  lemma {:induction false} TurnsBalanced(sys: System, turns: seq<Turn>, s: nat, initial: nat, max: nat)
    requires Balanced(sys, s, initial, max)
    ensures Balanced(Turns(sys, turns, s), s, initial, max)
    decreases |turns|
  {
    hide Took;
    if turns != [] {
      TookBalanced(sys, turns[0], s, initial, max);
      TurnsBalanced(Took(sys, turns[0], s), turns[1..], s, initial, max);
    }
  }

  function Start(core: Core, posts: seq<Word>, gets: seq<Word>): System {
    System(core, Actor(Producer, posts, Cleared, false, 0), Actor(Consumer, gets, Cleared, false, 0))
  }

  /** Two disciplined programs start out balanced. */
  lemma StartsBalanced(core: Core, posts: seq<Word>, gets: seq<Word>, s: nat)
    requires s < 8 && core.sem[s] <= core.max[s] <= 15
    requires Disciplined(Producer, posts, false, s) && Disciplined(Consumer, gets, false, s)
    ensures Balanced(Start(core, posts, gets), s, core.sem[s], core.max[s])
  {}

  /** In every interleaving of a disciplined producer and a disciplined consumer the value stays
      between zero and the maximum and equals the initial value plus completed posts minus
      completed gets: nothing saturates. */
  lemma EveryInterleaving(core: Core, posts: seq<Word>, gets: seq<Word>, turns: seq<Turn>, s: nat)
    requires s < 8 && core.sem[s] <= core.max[s] <= 15
    requires Disciplined(Producer, posts, false, s) && Disciplined(Consumer, gets, false, s)
    ensures var after := Turns(Start(core, posts, gets), turns, s);
            && after.core.max[s] == core.max[s] && after.core.sem[s] <= core.max[s]
            && after.core.sem[s] == core.sem[s] + after.p.moves - after.c.moves
  {
    StartsBalanced(core, posts, gets, s);
    TurnsBalanced(Start(core, posts, gets), turns, s, core.sem[s], core.max[s]);
  }
}
