/** Macro-operation fusion: runs of instructions replaced by one fused instruction,
    and exactly when a block means the same afterwards. */
module Fusion {
  import opened Words
  import opened Machine

  /** Which runs are fused: several LUI, SW, LW or shift-immediate instructions. */
  datatype Kind = Luis | Stores | Loads | Shifts

  /** An instruction of a block after fusion. `LuiAdd` keeps the destination of the
      LUI in `rd`, the destination of the ADD in `rs2` and its other operand in `rs1`. */
  datatype Ir =
    | Single(i: Insn)
    | Group(kind: Kind, entries: seq<Insn>)
    | LuiAdd(rd: Reg, rs1: Reg, rs2: Reg, imm: Int32)

  /** The LW of a mailbox keeps its opcode, so fusion cannot tell it apart. */
  predicate Joins(kind: Kind, op: Op) {
    match kind
    case Luis => op == Lui
    case Stores => op == Store(Sw)
    case Loads => op == Load(Lw) || op == MailboxLw
    case Shifts => op.AluImm? && (op.immOp == Slli || op.immOp == Srli || op.immOp == Srai)
  }

  // ------------------------------------------------ running fused instructions

  datatype Loop = Done(x: Regs, trace: seq<Access>) | Hit(store: bool, addr: Word, x: Regs, trace: seq<Access>)

  /** One round of the loop inside a fused instruction. */
  function Round(kind: Kind, i: Insn, x: Regs, trace: seq<Access>, e: Env): Loop {
    var addr := U32(x[i.rs1] + i.imm);
    match kind
    case Luis => Done(x[i.rd := U32(i.imm)], trace)
    case Stores =>
      if !MayAccess(e, Full, addr) then Hit(true, addr, x, trace)
      else Done(x, trace + [Write(Full, addr, x[i.rs2])])
    case Loads =>
      if !MayAccess(e, Full, addr) then Hit(false, addr, x, trace)
      else
        var t := trace + [Read(Full, addr)];
        Done(x[i.rd := e.answer(t)], t)
    case Shifts =>
      if i.op.AluImm? then Done(x[i.rd := ImmResult(i.op.immOp, x[i.rs1], i.imm)], trace) else Done(x, trace)
  }

  function Rounds(kind: Kind, entries: seq<Insn>, x: Regs, trace: seq<Access>, e: Env): Loop {
    if entries == [] then Done(x, trace)
    else
      match Round(kind, entries[0], x, trace, e)
      case Done(x', t') => Rounds(kind, entries[1..], x', t', e)
      case Hit(st, a, x', t') => Hit(st, a, x', t')
  }

  /** A fused instruction counts all its cycles first and moves the program counter
      last; a trap in the middle reports the address of the group. */
  function GroupStep(kind: Kind, entries: seq<Insn>, s: State, e: Env): Outcome {
    match Rounds(kind, entries, s.x, s.trace, e)
    case Done(x, t) => Go(State(x, U32(s.pc + 4 * |entries|), s.cycle + |entries|, t))
    case Hit(store, addr, x, t) => Halt(Misaligned(store, addr), State(x, s.pc, s.cycle + |entries|, t))
  }

  function IrStep(ir: Ir, s: State, e: Env): Outcome {
    match ir
    case Single(i) => Step(i, s, e)
    case Group(kind, entries) => GroupStep(kind, entries, s, e)
    case LuiAdd(rd, rs1, rs2, imm) =>
      var x := s.x[rd := U32(imm)];
      Go(s.(x := x[rs2 := U32(x[rd] + x[rs1])], pc := U32(s.pc + 8), cycle := s.cycle + 2))
  }

  function IrRun(irs: seq<Ir>, s: State, e: Env): Outcome {
    if irs == [] then Halt(Ended, s)
    else
      match IrStep(irs[0], s, e)
      case Go(s') => IrRun(irs[1..], s', e)
      case Halt(how, s') => Halt(how, s')
  }

  // ------------------------------------------------ the pass on values

  /** Length of the run of `kind` at the front of a block. */
  function RunLength(kind: Kind, block: seq<Insn>): (n: nat)
    ensures n <= |block|
    ensures forall j :: 0 <= j < n ==> Joins(kind, block[j].op)
    ensures n < |block| ==> !Joins(kind, block[n].op)
  {
    if block == [] || !Joins(kind, block[0].op) then 0 else 1 + RunLength(kind, block[1..])
  }

  predicate AddsUp(lui: Insn, add: Insn) {
    lui.op == Lui && add.op == AluReg(Add) && (lui.rd == add.rs2 || lui.rd == add.rs1)
  }

  predicate Fusible(op: Op) {
    Joins(Luis, op) || Joins(Stores, op) || Joins(Loads, op) || Joins(Shifts, op)
  }

  function KindOf(op: Op): (kind: Kind)
    requires Fusible(op)
    ensures Joins(kind, op)
  {
    if Joins(Luis, op) then Luis else if Joins(Stores, op) then Stores else if Joins(Loads, op) then Loads else Shifts
  }

  /** How many instructions the pass replaces at the front of a block in one round;
      `memory` says whether the table of a group could be allocated. */
  function Width(block: seq<Insn>, memory: bool): (n: nat)
    requires block != []
    ensures 1 <= n <= |block|
  {
    if |block| == 1 then 1
    else if AddsUp(block[0], block[1]) then 2
    else if Fusible(block[0].op) && memory then RunLength(KindOf(block[0].op), block)
    else 1
  }

  function Paired(lui: Insn, add: Insn): Ir {
    LuiAdd(lui.rd, if lui.rd == add.rs2 then add.rs1 else add.rs2, add.rd, lui.imm)
  }

  function Head(block: seq<Insn>, memory: bool): Ir
    requires block != []
  {
    var n := Width(block, memory);
    if n == 1 then Single(block[0])
    else if AddsUp(block[0], block[1]) then Paired(block[0], block[1])
    else
      Group(KindOf(block[0].op), block[..n])
  }

  /** How many instructions leave the list: the head stands for all it replaces, but
      the number of removed successors is a uint8_t. */
  function Consumed(block: seq<Insn>, memory: bool): (n: nat)
    requires block != []
    ensures 1 <= n <= |block|
  {
    1 + (Width(block, memory) - 1) % 256
  }

  /** The pass: `round` counts the iterations of its loop. */
  function Fuse(block: seq<Insn>, round: nat, memory: nat -> bool): seq<Ir>
    decreases |block|
  {
    if block == [] then []
    else [Head(block, memory(round))] + Fuse(block[Consumed(block, memory(round))..], round + 1, memory)
  }

  // ------------------------------------------------ meaning

  /** No run that the pass fuses is longer than `limit`. */
  predicate Within(block: seq<Insn>, round: nat, memory: nat -> bool, limit: nat)
    decreases |block|
  {
    block != [] ==>
      && Width(block, memory(round)) <= limit
      && Within(block[Consumed(block, memory(round))..], round + 1, memory, limit)
  }

  predicate Fits(block: seq<Insn>, round: nat, memory: nat -> bool) { Within(block, round, memory, 256) }

  /** The block with the instructions that the pass fails to remove written out again. */
  function Unrolled(block: seq<Insn>, round: nat, memory: nat -> bool): seq<Insn>
    decreases |block|
  {
    if block == [] then []
    else block[..Width(block, memory(round))] + Unrolled(block[Consumed(block, memory(round))..], round + 1, memory)
  }

  /** Translation ends a block at a mailbox LW. */
  predicate MailboxLast(block: seq<Insn>) {
    forall j :: 0 <= j < |block| - 1 ==> block[j].op != MailboxLw
  }

  /** No access of the run traps, and no mailbox read stalls. */
  predicate Clean(kind: Kind, entries: seq<Insn>, x: Regs, trace: seq<Access>, e: Env) {
    entries != [] ==>
      var r := Round(kind, entries[0], x, trace, e);
      && r.Done? && (entries[0].op == MailboxLw ==> !e.stalls(r.trace))
      && Clean(kind, entries[1..], r.x, r.trace, e)
  }

  /** Every fused instruction that is reached runs cleanly. */
  predicate RunsClean(irs: seq<Ir>, s: State, e: Env) {
    irs != [] ==>
      && (irs[0].Group? ==> Clean(irs[0].kind, irs[0].entries, s.x, s.trace, e))
      && match IrStep(irs[0], s, e)
         case Go(s') => RunsClean(irs[1..], s', e)
         case Halt(_, _) => true
  }

  /** A round of the loop does what the instruction does, program counter and cycle
      count aside. */
  lemma RoundIsStep(kind: Kind, i: Insn, s: State, e: Env)
    requires Joins(kind, i.op)
    ensures var r := Round(kind, i, s.x, s.trace, e);
            if i.op == MailboxLw then
              && Step(i, s, e).Halt?
              && (r.Done? && !e.stalls(r.trace) ==>
                    Step(i, s, e) == Halt(Ended, State(r.x, U32(s.pc + 4), s.cycle + 1, r.trace)))
              && (r.Done? && e.stalls(r.trace) ==> Step(i, s, e).how == Stalled)
              && (r.Hit? ==> !Step(i, s, e).how.Misaligned?)
            else if r.Done? then
              Step(i, s, e) == Go(State(r.x, U32(s.pc + 4), s.cycle + 1, r.trace))
            else
              && Step(i, s, e) == Halt(Misaligned(r.store, r.addr), s.(cycle := s.cycle + 1))
              && r.x == s.x && r.trace == s.trace
  {}

  /** How a block behaves on a run that is not clean. */
  predicate Disturbed(o: Outcome, kind: Kind, entries: seq<Insn>, s: State, e: Env) {
    var r := Rounds(kind, entries, s.x, s.trace, e);
    && o.Halt?
    && (o.how.Misaligned? ==>
          && r.Hit? && o.s.cycle <= s.cycle + |entries|
          && (o.s.cycle == s.cycle + |entries| ==> o.s.pc == U32(s.pc + 4 * (|entries| - 1))))
    && (o.how == Ended ==> r.Hit?)
    && (!o.how.Misaligned? ==> entries != [] && entries[|entries| - 1].op == MailboxLw)
  }

  /** What running a run of instructions one by one comes to. */
  ghost predicate Matches(o: Outcome, kind: Kind, entries: seq<Insn>, rest: seq<Insn>, s: State, e: Env) {
    var r := Rounds(kind, entries, s.x, s.trace, e);
    if Clean(kind, entries, s.x, s.trace, e) then
      r.Done? && o == Run(rest, State(r.x, U32(s.pc + 4 * |entries|), s.cycle + |entries|, r.trace), e)
    else
      Disturbed(o, kind, entries, s, e)
  }

  lemma WrapTwice(pc: int, n: int)
    ensures U32(U32(pc + 4) + 4 * n) == U32(pc + 4 * (n + 1))
  {}

  lemma MatchesDone(o: Outcome, kind: Kind, entries: seq<Insn>, rest: seq<Insn>, s: State, s': State, e: Env)
    requires entries != [] && entries[0].op != MailboxLw
    requires Round(kind, entries[0], s.x, s.trace, e) == Done(s'.x, s'.trace)
    requires s'.pc == U32(s.pc + 4) && s'.cycle == s.cycle + 1
    requires Matches(o, kind, entries[1..], rest, s', e)
    ensures Matches(o, kind, entries, rest, s, e)
  {
    var tail := entries[1..];
    assert Rounds(kind, entries, s.x, s.trace, e) == Rounds(kind, tail, s'.x, s'.trace, e);
    assert Clean(kind, entries, s.x, s.trace, e) == Clean(kind, tail, s'.x, s'.trace, e);
    WrapTwice(s.pc, |tail|);
    WrapTwice(s.pc, |tail| - 1);
    if tail != [] {
      assert tail[|tail| - 1] == entries[|entries| - 1];
    }
  }

  lemma MatchesLast(kind: Kind, i: Insn, s: State, e: Env)
    requires Joins(kind, i.op) && i.op == MailboxLw
    ensures Matches(Run([i], s, e), kind, [i], [], s, e)
  {
    RoundIsStep(kind, i, s, e);
    var r := Round(kind, i, s.x, s.trace, e);
    assert [i][1..] == [];
    assert Rounds(kind, [i], s.x, s.trace, e) == r;
    assert Clean(kind, [i], s.x, s.trace, e) <==> r.Done? && !e.stalls(r.trace);
    assert Run([i], s, e) == Step(i, s, e);
  }

  lemma MatchesHit(kind: Kind, entries: seq<Insn>, rest: seq<Insn>, s: State, e: Env)
    requires entries != [] && Joins(kind, entries[0].op) && entries[0].op != MailboxLw
    requires Round(kind, entries[0], s.x, s.trace, e).Hit?
    ensures Matches(Run(entries + rest, s, e), kind, entries, rest, s, e)
  {
    hide Round, Step;
    var i := entries[0];
    RoundIsStep(kind, i, s, e);
    assert (entries + rest)[0] == i;
    assert Run(entries + rest, s, e) == Step(i, s, e);
    assert Rounds(kind, entries, s.x, s.trace, e) == Round(kind, i, s.x, s.trace, e);
    assert !Clean(kind, entries, s.x, s.trace, e);
  }

  lemma MatchesNone(kind: Kind, rest: seq<Insn>, s: State, e: Env)
    ensures Matches(Run(rest, s, e), kind, [], rest, s, e)
  {
    hide Run, Step, Round;
    assert State(s.x, U32(s.pc + 4 * 0), s.cycle + 0, s.trace) == s;
  }

  lemma {:induction false} Sequential(kind: Kind, entries: seq<Insn>, rest: seq<Insn>, s: State, e: Env)
    requires forall j :: 0 <= j < |entries| ==> Joins(kind, entries[j].op)
    requires MailboxLast(entries + rest)
    ensures Matches(Run(entries + rest, s, e), kind, entries, rest, s, e)
  {
    hide Round, Step, Matches;
    if entries == [] {
      assert [] + rest == rest;
      MatchesNone(kind, rest, s, e);
    } else {
      var i, tail := entries[0], entries[1..];
      assert (entries + rest)[0] == i && (entries + rest)[1..] == tail + rest;
      if i.op == MailboxLw {
        assert |entries + rest| == 1;
        assert entries == [i] && rest == [] && entries + rest == [i];
        MatchesLast(kind, i, s, e);
      } else {
        var r := Round(kind, i, s.x, s.trace, e);
        if r.Hit? {
          MatchesHit(kind, entries, rest, s, e);
        } else {
          assert MailboxLast(tail + rest) by {
            assert forall j :: 0 <= j < |tail + rest| ==> (tail + rest)[j] == (entries + rest)[j + 1];
          }
          var s' := State(r.x, U32(s.pc + 4), s.cycle + 1, r.trace);
          RoundIsStep(kind, i, s, e);
          assert Run(entries + rest, s, e) == Run(tail + rest, s', e);
          Sequential(kind, tail, rest, s', e);
          MatchesDone(Run(entries + rest, s, e), kind, entries, rest, s, s', e);
        }
      }
    }
  }

  /** The fused step `o` does not lead where the block leads. */
  ghost predicate Parts(o: Outcome, block: seq<Insn>, rest: seq<Insn>, s: State, e: Env) {
    if o.Halt? then Run(block, s, e) != o
    else rest == [] && Run(block, s, e) != Halt(Ended, o.s)
  }

  /** The fused step leads where the block leads, unless it is a group that does not run cleanly. */
  ghost predicate StepsAlike(ir: Ir, block: seq<Insn>, rest: seq<Insn>, s: State, e: Env) {
    var o := IrStep(ir, s, e);
    if ir.Group? && !Clean(ir.kind, ir.entries, s.x, s.trace, e) then
      Parts(o, block, rest, s, e)
    else
      Run(block, s, e) == if o.Halt? then o else Run(rest, o.s, e)
  }

  lemma PairStep(lui: Insn, add: Insn, s: State, e: Env)
    requires AddsUp(lui, add)
    ensures Step(lui, s, e).Go? && Step(add, Step(lui, s, e).s, e) == IrStep(Paired(lui, add), s, e)
    ensures IrStep(Paired(lui, add), s, e).Go?
  {
    WrapTwice(s.pc, 1);
  }

  lemma PairAlike(lui: Insn, add: Insn, rest: seq<Insn>, s: State, e: Env)
    requires AddsUp(lui, add)
    ensures StepsAlike(Paired(lui, add), [lui, add] + rest, rest, s, e)
  {
    hide Step, IrStep;
    var block := [lui, add] + rest;
    assert block[0] == lui && block[1..] == [add] + rest && ([add] + rest)[1..] == rest;
    PairStep(lui, add, s, e);
    assert Run(block, s, e) == Run([add] + rest, Step(lui, s, e).s, e);
  }

  lemma SingleAlike(block: seq<Insn>, s: State, e: Env)
    requires block != []
    ensures StepsAlike(Single(block[0]), block, block[1..], s, e)
  {}

  lemma GroupAlike(block: seq<Insn>, n: nat, kind: Kind, s: State, e: Env)
    requires 2 <= n <= |block| && n <= 0x4000_0000 && MailboxLast(block)
    requires forall j :: 0 <= j < n ==> Joins(kind, block[j].op)
    ensures StepsAlike(Group(kind, block[..n]), block, block[n..], s, e)
  {
    assert block == block[..n] + block[n..];
    Sequential(kind, block[..n], block[n..], s, e);
    if !Clean(kind, block[..n], s.x, s.trace, e) {
      DisturbedDiffers(block, n, kind, s, e);
    }
  }

  /** The three forms a replacement takes. */
  ghost predicate Forms(ir: Ir, block: seq<Insn>, n: nat) {
    || (n == 1 && block != [] && ir == Single(block[0]))
    || (n == 2 <= |block| && AddsUp(block[0], block[1]) && ir == Paired(block[0], block[1]))
    || (2 <= n <= |block| && ir.Group? && ir.entries == block[..n]
        && forall j :: 0 <= j < n ==> Joins(ir.kind, block[j].op))
  }

  lemma HeadForms(block: seq<Insn>, memory: bool, rest: seq<Insn>)
    requires block != []
    ensures Forms(Head(block, memory), block[..Width(block, memory)] + rest, Width(block, memory))
  {
    var n := Width(block, memory);
    var all := block[..n] + rest;
    assert all[..n] == block[..n];
    assert forall j :: 0 <= j < n ==> all[j] == block[j];
  }

  /** One round of the pass, and exactly when it preserves the meaning. */
  lemma FormPreserves(ir: Ir, block: seq<Insn>, n: nat, s: State, e: Env)
    requires Forms(ir, block, n) && n <= 0x4000_0000 && MailboxLast(block)
    ensures n <= |block| && StepsAlike(ir, block, block[n..], s, e)
  {
    if ir.Single? {
      SingleAlike(block, s, e);
    } else if ir.LuiAdd? {
      assert block == [block[0], block[1]] + block[2..];
      PairAlike(block[0], block[1], block[2..], s, e);
    } else {
      GroupAlike(block, n, ir.kind, s, e);
    }
  }

  lemma DisturbedDiffers(block: seq<Insn>, n: nat, kind: Kind, s: State, e: Env)
    requires 2 <= n <= |block| && n <= 0x4000_0000 && MailboxLast(block)
    requires Disturbed(Run(block, s, e), kind, block[..n], s, e)
    ensures Parts(GroupStep(kind, block[..n], s, e), block, block[n..], s, e)
  {
    assert block[..n][n - 1] == block[n - 1];
  }

  lemma MailboxTail(block: seq<Insn>, n: nat)
    requires MailboxLast(block) && n <= |block|
    ensures MailboxLast(block[n..])
  {
    assert forall j :: 0 <= j < |block| - n ==> block[n..][j] == block[j + n];
  }

  /** match_pattern preserves the meaning of the unrolled block if and only if every fused
      instruction that is reached runs cleanly. The address space bounds the length of runs. */
  lemma {:induction false} FuseUnrolls(block: seq<Insn>, round: nat, memory: nat -> bool, s: State, e: Env)
    requires Within(block, round, memory, 0x4000_0000) && MailboxLast(Unrolled(block, round, memory))
    ensures RunsClean(Fuse(block, round, memory), s, e)
            <==> IrRun(Fuse(block, round, memory), s, e) == Run(Unrolled(block, round, memory), s, e)
    decreases |block|
  {
    if block != [] {
      var irs, all := Fuse(block, round, memory), Unrolled(block, round, memory);
      var n, left := Width(block, memory(round)), block[Consumed(block, memory(round))..];
      var rest := Unrolled(left, round + 1, memory);
      assert all == block[..n] + rest && all[n..] == rest;
      HeadForms(block, memory(round), rest);
      FormPreserves(irs[0], all, n, s, e);
      assert irs[0] == Head(block, memory(round)) && irs[1..] == Fuse(left, round + 1, memory);
      match IrStep(irs[0], s, e)
      case Halt(_, _) =>
      case Go(s') =>
        MailboxTail(all, n);
        FuseUnrolls(left, round + 1, memory, s', e);
    }
  }

  lemma {:induction false} FitsUnrolled(block: seq<Insn>, round: nat, memory: nat -> bool)
    requires Fits(block, round, memory)
    ensures Unrolled(block, round, memory) == block && Within(block, round, memory, 0x4000_0000)
    decreases |block|
  {
    if block != [] {
      var n := Width(block, memory(round));
      assert Consumed(block, memory(round)) == n && block == block[..n] + block[n..];
      FitsUnrolled(block[n..], round + 1, memory);
    }
  }

  /** No fused run that comes before an instruction which leaves the block is longer than 256. */
  predicate FitsReached(block: seq<Insn>, round: nat, memory: nat -> bool)
    decreases |block|
  {
    block != [] ==>
      && Width(block, memory(round)) <= 256
      && (Leaves(block[0].op) || FitsReached(block[Consumed(block, memory(round))..], round + 1, memory))
  }

  lemma ConsumedIs(block: seq<Insn>, memory: bool)
    requires block != []
    ensures Consumed(block, memory) <= Width(block, memory)
    ensures Consumed(block, memory) == Width(block, memory) <==> Width(block, memory) <= 256
  {}

  lemma LeavesAlone(block: seq<Insn>, memory: bool, s: State, e: Env)
    requires block != [] && Leaves(block[0].op) && MailboxLast(block)
    ensures Width(block, memory) == 1 && IrStep(Head(block, memory), s, e).Halt?
  {}

  /** If all that leaves stands last, the condition is about the whole block. */
  lemma {:induction false} FitsAll(block: seq<Insn>, round: nat, memory: nat -> bool)
    requires forall j :: 0 <= j < |block| - 1 ==> !Leaves(block[j].op)
    ensures FitsReached(block, round, memory) <==> Fits(block, round, memory)
    decreases |block|
  {
    if block != [] {
      var left := block[Consumed(block, memory(round))..];
      assert forall j :: 0 <= j < |left| ==> left[j] == block[j + Consumed(block, memory(round))];
      FitsAll(left, round + 1, memory);
      if Leaves(block[0].op) { assert left == []; }
    }
  }

  /** A block that fits as far as it can be reached keeps its meaning if and only if every fused
      instruction that is reached runs cleanly. */
  lemma {:induction false} FusePreserves(block: seq<Insn>, round: nat, memory: nat -> bool, s: State, e: Env)
    requires FitsReached(block, round, memory) && MailboxLast(block)
    ensures RunsClean(Fuse(block, round, memory), s, e)
            <==> IrRun(Fuse(block, round, memory), s, e) == Run(block, s, e)
    decreases |block|
  {
    hide Step, Head, Consumed, Forms;
    if block != [] {
      var irs, n := Fuse(block, round, memory), Width(block, memory(round));
      ConsumedIs(block, memory(round));
      var rest := block[n..];
      assert block == block[..n] + rest;
      HeadForms(block, memory(round), rest);
      FormPreserves(irs[0], block, n, s, e);
      assert irs[0] == Head(block, memory(round)) && irs[1..] == Fuse(rest, round + 1, memory);
      if IrStep(irs[0], s, e).Go? {
        if Leaves(block[0].op) { LeavesAlone(block, memory(round), s, e); }
        MailboxTail(block, n);
        FusePreserves(rest, round + 1, memory, IrStep(irs[0], s, e).s, e);
      }
    }
  }

  lemma {:induction false} RunLengthOf(kind: Kind, run: seq<Insn>, rest: seq<Insn>)
    requires forall j :: 0 <= j < |run| ==> Joins(kind, run[j].op)
    requires rest != [] ==> !Joins(kind, rest[0].op)
    ensures RunLength(kind, run + rest) == |run|
  {
    if run == [] {
      assert run + rest == rest;
    } else {
      assert (run + rest)[0] == run[0] && (run + rest)[1..] == run[1..] + rest;
      RunLengthOf(kind, run[1..], rest);
    }
  }

  /** The pass does fuse: a whole run of up to 256 becomes one instruction. */
  lemma FusesRun(kind: Kind, run: seq<Insn>, rest: seq<Insn>, round: nat, memory: nat -> bool)
    requires 2 <= |run| <= 256 && memory(round) && forall j :: 0 <= j < |run| ==> Joins(kind, run[j].op)
    requires rest != [] ==> !Joins(kind, rest[0].op)
    ensures Fuse(run + rest, round, memory) == [Group(kind, run)] + Fuse(rest, round + 1, memory)
  {
    var block, n := run + rest, |run|;
    RunLengthOf(kind, run, rest);
    assert block[0] == run[0] && block[1] == run[1] && block[..n] == run && block[n..] == rest;
    OneKind(kind, run[0].op, run[1].op);
    hide RunLength;
    assert Width(block, true) == n && Consumed(block, true) == n;
  }

  lemma OneKind(kind: Kind, op: Op, next: Op)
    requires Joins(kind, op) && Joins(kind, next)
    ensures Fusible(op) && KindOf(op) == kind && next != AluReg(Add)
  {}

  /** And a LUI with an ADD that uses it becomes one. */
  lemma FusesPair(lui: Insn, add: Insn, rest: seq<Insn>, round: nat, memory: nat -> bool)
    requires lui.op == Lui && add.op == AluReg(Add) && (add.rs1 == lui.rd || add.rs2 == lui.rd)
    ensures var irs := Fuse([lui, add] + rest, round, memory);
            irs != [] && irs[0].LuiAdd? && irs[1..] == Fuse(rest, round + 1, memory)
  {
    var block := [lui, add] + rest;
    assert block[0] == lui && block[1] == add && block[2..] == rest;
    assert Width(block, memory(round)) == 2 && Consumed(block, memory(round)) == 2;
  }

  lemma PairOfLoads(i: Insn, j: Insn, memory: nat -> bool, s: State, e: Env)
    requires Joins(Loads, i.op) && Joins(Loads, j.op) && memory(0)
    ensures var o := GroupStep(Loads, [i, j], s, e);
            IrRun(Fuse([i, j], 0, memory), s, e) == if o.Go? then Halt(Ended, o.s) else o
  {
    hide GroupStep;
    var block := [i, j];
    assert block[1..] == [j] && [j][1..] == [] && block[..2] == block && block[2..] == [];
    assert KindOf(i.op) == Loads && RunLength(Loads, block) == 2 && Width(block, memory(0)) == 2;
    assert Consumed(block, memory(0)) == 2 && Fuse(block[2..], 1, memory) == [];
    var irs := Fuse(block, 0, memory);
    assert irs == [Group(Loads, block)] && irs[1..] == [];
  }

  /** The two rounds, if the first one does not trap. */
  lemma SecondRound(i: Insn, j: Insn, s: State, e: Env)
    requires i.op == Load(Lw) && Joins(Loads, j.op) && Round(Loads, i, s.x, s.trace, e).Done?
    ensures Step(i, s, e).Go?
    ensures var s1 := Step(i, s, e).s;
            && s1 == State(Round(Loads, i, s.x, s.trace, e).x, U32(s.pc + 4), s.cycle + 1, s1.trace)
            && s1.trace == Round(Loads, i, s.x, s.trace, e).trace
            && Run([i, j], s, e) == Run([j], s1, e)
            && Rounds(Loads, [i, j], s.x, s.trace, e) == Round(Loads, j, s1.x, s1.trace, e)
  {
    RoundIsStep(Loads, i, s, e);
    hide Step, Round;
    assert [i, j][1..] == [j] && [j][1..] == [];
    var s1 := Step(i, s, e).s;
    assert Rounds(Loads, [j], s1.x, s1.trace, e) == Round(Loads, j, s1.x, s1.trace, e);
  }

  /** Two loads, one by one and fused, by what the second one does. */
  lemma TwoLoads(i: Insn, j: Insn, memory: nat -> bool, s: State, e: Env)
    requires memory(0) && i.op == Load(Lw) && Joins(Loads, j.op) && Round(Loads, i, s.x, s.trace, e).Done?
    ensures var r := Round(Loads, i, s.x, s.trace, e);
            var r' := Round(Loads, j, r.x, r.trace, e);
            var o, o' := Run([i, j], s, e), IrRun(Fuse([i, j], 0, memory), s, e);
            && o.Halt? && o'.Halt?
            && (j.op == Load(Lw) && r'.Hit? ==>
                  o.how == o'.how == Misaligned(r'.store, r'.addr) && o.s.pc == U32(s.pc + 4) && o'.s.pc == s.pc)
            && (j.op == MailboxLw && r'.Done? && e.stalls(r'.trace) ==> o.how == Stalled && o'.how == Ended)
  {
    PairOfLoads(i, j, memory, s, e);
    SecondRound(i, j, s, e);
    hide Fuse, IrRun, Rounds, Step, Round, U32;
    var s1 := Step(i, s, e).s;
    RoundIsStep(Loads, j, s1, e);
    RunOne(j, s1, e);
  }

  /** A load from a small address. */
  lemma RoundAt(i: Insn, x: Regs, trace: seq<Access>, e: Env)
    requires i.rs1 == 0 && x[0] == 0 && i.imm >= 0
    ensures Round(Loads, i, x, trace, e) ==
            if !e.allowMisalign && i.imm % 4 != 0 then Hit(false, i.imm, x, trace)
            else Done(x[i.rd := e.answer(trace + [Read(Full, i.imm)])], trace + [Read(Full, i.imm)])
  {
    SmallAddress(i.imm);
    hide U32;
  }

  lemma SmallAddress(a: Int32)
    requires a >= 0
    ensures U32(0 + a) == a
  {}

  lemma RunOne(j: Insn, s: State, e: Env)
    ensures Run([j], s, e) == if Step(j, s, e).Go? then Halt(Ended, Step(j, s, e).s) else Step(j, s, e)
  {
    hide Step;
    assert [j][1..] == [];
  }

  /** For instance two loads of which the second is misaligned: the trap reports the address
      of the first. */
  lemma TrapMoves(memory: nat -> bool, s: State, e: Env)
    requires memory(0) && s.x[0] == 0 && s.pc == 0 && !e.allowMisalign
    ensures var block := [Insn(Load(Lw), 5, 0, 0, 0, 0), Insn(Load(Lw), 6, 0, 0, 2, 4)];
            var o, o' := Run(block, s, e), IrRun(Fuse(block, 0, memory), s, e);
            && o.Halt? && o'.Halt? && o.how == o'.how == Misaligned(false, 2)
            && o.s.pc == 4 && o'.s.pc == 0
  {
    var i, j := Insn(Load(Lw), 5, 0, 0, 0, 0), Insn(Load(Lw), 6, 0, 0, 2, 4);
    hide Fuse, IrRun, Run, Round, U32;
    RoundAt(i, s.x, s.trace, e);
    var r := Round(Loads, i, s.x, s.trace, e);
    RoundAt(j, r.x, r.trace, e);
    SmallAddress(4);
    TwoLoads(i, j, memory, s, e);
  }

  /** And a load before a mailbox load that stalls: the fused form does not stall. */
  lemma StallIsLost(memory: nat -> bool, s: State, e: Env)
    requires memory(0) && s.x[0] == 0 && e.stalls(s.trace + [Read(Full, 0)] + [Read(Full, 4)])
    ensures var block := [Insn(Load(Lw), 5, 0, 0, 0, 0), Insn(MailboxLw, 6, 0, 0, 4, 4)];
            var o, o' := Run(block, s, e), IrRun(Fuse(block, 0, memory), s, e);
            o.Halt? && o'.Halt? && o.how == Stalled && o'.how == Ended
  {
    var i, j := Insn(Load(Lw), 5, 0, 0, 0, 0), Insn(MailboxLw, 6, 0, 0, 4, 4);
    hide Fuse, IrRun, Run, Round, U32;
    RoundAt(i, s.x, s.trace, e);
    var r := Round(Loads, i, s.x, s.trace, e);
    RoundAt(j, r.x, r.trace, e);
    SmallAddress(4);
    TwoLoads(i, j, memory, s, e);
  }

  // ------------------------------------------------ runs longer than a uint8_t counts

  /** How translation ends a block: a mailbox LW or a branch is its last instruction. */
  predicate EndsBlock(block: seq<Insn>) {
    forall j :: 0 <= j < |block| - 1 ==> block[j].op != MailboxLw && !block[j].op.Branch?
  }

  /** How many instructions a fused block counts until it is left. */
  function Counted(block: seq<Insn>, round: nat, memory: nat -> bool): nat
    decreases |block|
  {
    if block == [] then 0
    else if Leaves(block[0].op) then 1
    else Width(block, memory(round)) + Counted(block[Consumed(block, memory(round))..], round + 1, memory)
  }

  /** How many the block itself has until it is left. */
  function Reached(block: seq<Insn>): nat {
    if block == [] then 0 else if Leaves(block[0].op) then 1 else 1 + Reached(block[1..])
  }

  lemma {:induction false} ReachedSplit(block: seq<Insn>, n: nat)
    requires n <= |block| && (forall j :: 0 <= j < n - 1 ==> !Leaves(block[j].op))
    requires n > 0 && Leaves(block[n - 1].op) ==> n == |block|
    ensures Reached(block) == n + Reached(block[n..])
  {
    if n > 0 {
      assert block[n..] == block[1..][n - 1..];
      if n > 1 {
        assert forall j :: 0 <= j < n - 1 ==> block[1..][j] == block[j + 1];
        ReachedSplit(block[1..], n - 1);
      }
    }
  }

  lemma HeadStays(block: seq<Insn>, memory: bool)
    requires block != [] && MailboxLast(block) && !Leaves(block[0].op)
    ensures var n := Width(block, memory);
            && (forall j :: 0 <= j < n - 1 ==> !Leaves(block[j].op))
            && (Leaves(block[n - 1].op) ==> n == |block|)
  {}

  /** A block with a run that is too long counts at least 256 instructions more. */
  lemma {:induction false} CountedGrows(block: seq<Insn>, round: nat, memory: nat -> bool)
    requires MailboxLast(block)
    ensures Counted(block, round, memory) >= Reached(block)
    ensures !FitsReached(block, round, memory) ==> Counted(block, round, memory) >= Reached(block) + 256
    decreases |block|
  {
    hide Width, Consumed, Leaves;
    if block != [] {
      var n, c := Width(block, memory(round)), Consumed(block, memory(round));
      if Leaves(block[0].op) {
        LeavesNarrow(block, memory(round));
      } else {
        ConsumedShort(block, memory(round));
        HeadStays(block, memory(round));
        ReachedSplit(block, n);
        assert block[c..][n - c..] == block[n..];
        assert forall j :: 0 <= j < n - c ==> block[c..][j] == block[j + c];
        ReachedSplit(block[c..], n - c);
        MailboxTail(block, c);
        CountedGrows(block[c..], round + 1, memory);
      }
    }
  }

  lemma LeavesNarrow(block: seq<Insn>, memory: bool)
    requires block != [] && Leaves(block[0].op) && MailboxLast(block)
    ensures Width(block, memory) == 1
  {}

  lemma ConsumedShort(block: seq<Insn>, memory: bool)
    requires block != []
    ensures var n, c := Width(block, memory), Consumed(block, memory); c <= n && (n > 256 ==> c + 256 <= n)
  {}

  lemma StepCycle(i: Insn, s: State, e: Env)
    ensures var o := Step(i, s, e);
            && s.cycle <= o.s.cycle <= s.cycle + 1
            && (Leaves(i.op) ==> o.Halt?)
            && (o.Go? ==> o.s.cycle == s.cycle + 1)
            && (o.Halt? && !o.how.Misaligned? && !o.how.Stalled? ==> Leaves(i.op) || i.op.Branch?)
  {}

  lemma {:induction false} RunCycles(block: seq<Insn>, s: State, e: Env)
    ensures Run(block, s, e).Halt? && Run(block, s, e).s.cycle <= s.cycle + Reached(block)
  {
    hide Step, Leaves;
    if block != [] {
      StepCycle(block[0], s, e);
      if Step(block[0], s, e).Go? { RunCycles(block[1..], Step(block[0], s, e).s, e); }
    }
  }

  lemma HeadCycles(block: seq<Insn>, memory: bool, s: State, e: Env)
    requires block != [] && MailboxLast(block)
    ensures var o := IrStep(Head(block, memory), s, e);
            && s.cycle <= o.s.cycle
            && (o.Go? ==> o.s.cycle == s.cycle + Width(block, memory) && !Leaves(block[0].op))
            && (o.Halt? && !o.how.Misaligned? && !o.how.Stalled? ==>
                  Width(block, memory) == 1 && (Leaves(block[0].op) || block[0].op.Branch?))
  {
    hide Step, Rounds;
    StepCycle(block[0], s, e);
    if Leaves(block[0].op) { LeavesAlone(block, memory, s, e); }
  }

  /** A fused block that is run until it is left counts all of these, the last one aside. */
  lemma {:induction false} FusedCycles(block: seq<Insn>, round: nat, memory: nat -> bool, s: State, e: Env)
    requires EndsBlock(block)
    requires var o := IrRun(Fuse(block, round, memory), s, e); o.Halt? && !o.how.Misaligned? && !o.how.Stalled?
    ensures IrRun(Fuse(block, round, memory), s, e).s.cycle + 1 >= s.cycle + Counted(block, round, memory)
    decreases |block|
  {
    hide IrStep, Head, Width, Leaves;
    if block != [] {
      var irs, left := Fuse(block, round, memory), block[Consumed(block, memory(round))..];
      assert irs[0] == Head(block, memory(round)) && irs[1..] == Fuse(left, round + 1, memory);
      HeadCycles(block, memory(round), s, e);
      match IrStep(irs[0], s, e)
      case Halt(_, _) => if block[0].op.Branch? { assert |block| == 1; }
      case Go(s') =>
        assert EndsBlock(left) by {
          assert forall j :: 0 <= j < |left| ==> left[j] == block[j + Consumed(block, memory(round))];
        }
        FusedCycles(left, round + 1, memory, s', e);
    }
  }

  /** A fused block that is run until it ends, jumps or calls, cleanly, has kept its meaning
      exactly when no run reached was longer than 256: otherwise instructions ran again. */
  lemma EndsWellIffItFits(block: seq<Insn>, memory: nat -> bool, s: State, e: Env)
    requires EndsBlock(block) && RunsClean(Fuse(block, 0, memory), s, e)
    requires var o := IrRun(Fuse(block, 0, memory), s, e); o.Halt? && !o.how.Misaligned? && !o.how.Stalled?
    ensures FitsReached(block, 0, memory) <==> IrRun(Fuse(block, 0, memory), s, e) == Run(block, s, e)
  {
    hide Fuse, IrRun, Run, RunsClean;
    if FitsReached(block, 0, memory) {
      FusePreserves(block, 0, memory, s, e);
    } else {
      FusedCycles(block, 0, memory, s, e);
      RunCycles(block, s, e);
      CountedGrows(block, 0, memory);
    }
  }

  predicate AllLui(block: seq<Insn>) {
    forall j :: 0 <= j < |block| ==> block[j].op == Lui
  }

  function Triangle(m: nat): nat {
    if m == 0 then 0 else m + Triangle(m - 1)
  }

  lemma {:induction false} LuiRun(block: seq<Insn>, s: State, e: Env)
    requires AllLui(block)
    ensures var o := Run(block, s, e); o.Halt? && o.how == Ended && o.s.cycle == s.cycle + |block|
  {
    if block != [] {
      LuiRun(block[1..], Step(block[0], s, e).s, e);
    }
  }

  lemma {:induction false} LuiRounds(block: seq<Insn>, x: Regs, trace: seq<Access>, e: Env)
    requires AllLui(block)
    ensures Rounds(Luis, block, x, trace, e).Done?
  {
    if block != [] {
      var r := Round(Luis, block[0], x, trace, e);
      LuiRounds(block[1..], r.x, r.trace, e);
    }
  }

  lemma LuiHead(block: seq<Insn>)
    requires AllLui(block) && block != []
    ensures Consumed(block, true) == 1 + (|block| - 1) % 256
    ensures Head(block, true) == if |block| == 1 then Single(block[0]) else Group(Luis, block)
  {}

  lemma LuiHeadStep(block: seq<Insn>, s: State, e: Env)
    requires AllLui(block) && block != []
    ensures var o := IrStep(Head(block, true), s, e); o.Go? && o.s.cycle == s.cycle + |block|
  {
    LuiHead(block);
    LuiRounds(block, s.x, s.trace, e);
  }

  /** How often instructions of a run of `n` are run again: 256 of them, 512 of them, and so on. */
  function Repeated(n: nat): nat {
    if n == 0 then 0 else 256 * Triangle((n - 1) / 256)
  }

  lemma RepeatedStep(n: nat)
    requires n > 0
    ensures var left := n - (1 + (n - 1) % 256); left >= 0 && Repeated(n) == left + Repeated(left)
  {}

  lemma LuiUnfold(block: seq<Insn>, round: nat, memory: nat -> bool, s: State, e: Env)
    requires AllLui(block) && block != [] && memory(round)
    ensures var o := IrStep(Head(block, true), s, e);
            && o.Go? && o.s.cycle == s.cycle + |block|
            && IrRun(Fuse(block, round, memory), s, e)
               == IrRun(Fuse(block[1 + (|block| - 1) % 256..], round + 1, memory), o.s, e)
  {
    LuiHead(block);
    LuiHeadStep(block, s, e);
    var rest := Fuse(block[1 + (|block| - 1) % 256..], round + 1, memory);
    assert Fuse(block, round, memory) == [Head(block, true)] + rest;
    assert ([Head(block, true)] + rest)[1..] == rest;
  }

  lemma LuiNone(round: nat, memory: nat -> bool, s: State, e: Env)
    ensures IrRun(Fuse([], round, memory), s, e) == Halt(Ended, s) && Repeated(0) == 0
  {}

  /** A block of LUI instructions only: the pass removes too few of them once the run is
      longer than 256, and they are run again. */
  lemma {:induction false} LuiCycles(block: seq<Insn>, round: nat, memory: nat -> bool, s: State, e: Env)
    requires AllLui(block) && forall r :: memory(r)
    ensures var o := IrRun(Fuse(block, round, memory), s, e);
            o.Halt? && o.how == Ended && o.s.cycle == s.cycle + |block| + Repeated(|block|)
    decreases |block|
  {
    hide IrStep, IrRun, Head, Fuse, Repeated;
    if block == [] {
      LuiNone(round, memory, s, e);
    } else {
      assert memory(round);
      RepeatedStep(|block|);
      LuiUnfold(block, round, memory, s, e);
      LuiCycles(block[1 + (|block| - 1) % 256..], round + 1, memory, IrStep(Head(block, true), s, e).s, e);
    }
  }

  /** So such a block keeps its meaning exactly when it has at most 256 instructions. */
  lemma LongRunsRepeat(block: seq<Insn>, memory: nat -> bool, s: State, e: Env)
    requires AllLui(block) && forall r :: memory(r)
    ensures |block| <= 256 <==> IrRun(Fuse(block, 0, memory), s, e) == Run(block, s, e)
  {
    LuiRun(block, s, e);
    LuiCycles(block, 0, memory, s, e);
    if |block| <= 256 {
      LuiFits(block, 0, memory);
      FitsAll(block, 0, memory);
      FusePreserves(block, 0, memory, s, e);
      LuiClean(block, 0, memory, s, e);
    }
  }

  lemma LuiFits(block: seq<Insn>, round: nat, memory: nat -> bool)
    requires AllLui(block) && |block| <= 256 && memory(round)
    ensures Fits(block, round, memory)
  {}

  lemma LuiClean(block: seq<Insn>, round: nat, memory: nat -> bool, s: State, e: Env)
    requires AllLui(block) && |block| <= 256 && memory(round)
    ensures RunsClean(Fuse(block, round, memory), s, e)
  {
    if block != [] {
      LuiHead(block);
      LuiRoundsClean(block, s.x, s.trace, e);
      assert block[Consumed(block, true)..] == [];
      assert Fuse(block, round, memory) == [Head(block, true)];
    }
  }

  lemma {:induction false} LuiRoundsClean(block: seq<Insn>, x: Regs, trace: seq<Access>, e: Env)
    requires AllLui(block)
    ensures Clean(Luis, block, x, trace, e)
  {
    if block != [] {
      var r := Round(Luis, block[0], x, trace, e);
      LuiRoundsClean(block[1..], r.x, r.trace, e);
    }
  }
}
