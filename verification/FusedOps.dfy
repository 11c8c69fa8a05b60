/** The fused instructions as they run on a core, and the whole pipeline of a block:
    folded, fused, then run. */
module FusedOps {
  import opened Words
  import opened Machine
  import opened ConstFold
  import opened Fusion
  import opened IrPasses

  lemma NextRound(kind: Kind, fuse: seq<Insn>, i: nat, x: Regs, trace: seq<Access>, e: Env)
    requires i < |fuse|
    ensures var r := Round(kind, fuse[i], x, trace, e);
            Rounds(kind, fuse[i..], x, trace, e) == if r.Done? then Rounds(kind, fuse[i + 1..], r.x, r.trace, e) else r
  {}

  lemma LastRound(kind: Kind, fuse: seq<Insn>, x: Regs, trace: seq<Access>, e: Env)
    ensures Rounds(kind, fuse[|fuse|..], x, trace, e) == Done(x, trace)
    ensures fuse[0..] == fuse
  {}

  class Core {
    const x: array<Word>
    var pc: Word
    var cycle: nat
    var trace: seq<Access>

    ghost predicate Valid() { x.Length == 32 }

    ghost function Now(): State
      requires Valid()
      reads this, x
    {
      State(x[..], pc, cycle, trace)
    }

    constructor ()
      ensures Valid() && fresh(x)
    {
      x := new Word[32](r => 0);
      pc, cycle, trace := 0, 0, [];
    }

    /** do_fuse1: several LUI. */
    method Luis(fuse: seq<Insn>, ghost e: Env)
      requires Valid()
      modifies this, x
      ensures Go(Now()) == GroupStep(Kind.Luis, fuse, old(Now()), e)
    {
      hide Rounds;
      ghost var all := Rounds(Kind.Luis, fuse, x[..], trace, e);
      assert fuse[0..] == fuse;
      cycle := cycle + |fuse|;
      for i := 0 to |fuse|
        modifies x
        invariant Rounds(Kind.Luis, fuse[i..], x[..], trace, e) == all
      {
        var f := fuse[i];
        NextRound(Kind.Luis, fuse, i, x[..], trace, e);
        ghost var before: Regs := x[..];
        x[f.rd] := U32(f.imm);
        assert x[..] == before[f.rd := U32(f.imm)];
      }
      LastRound(Kind.Luis, fuse, x[..], trace, e);
      pc := U32(pc + 4 * |fuse|);
    }

    /** do_fuse2: LUI and ADD. */
    method LuiAndAdd(ir: Ir, ghost e: Env)
      requires Valid() && ir.LuiAdd?
      modifies this, x
      ensures Go(Now()) == IrStep(ir, old(Now()), e)
    {
      cycle := cycle + 2;
      x[ir.rd] := U32(ir.imm);
      var sum: int := x[ir.rd] as int + x[ir.rs1];
      x[ir.rs2] := U32(sum);
      pc := U32(pc + 8);
    }

    /** do_fuse3: several SW. */
    method Stores(fuse: seq<Insn>, e: Env) returns (trap: bool, at: Word)
      requires Valid()
      modifies this
      ensures GroupStep(Kind.Stores, fuse, old(Now()), e) == if trap then Halt(Misaligned(true, at), Now())
              else Go(Now())
    {
      hide Rounds;
      ghost var all := Rounds(Kind.Stores, fuse, x[..], trace, e);
      assert fuse[0..] == fuse;
      cycle := cycle + |fuse|;
      for i := 0 to |fuse|
        modifies this`trace
        invariant Rounds(Kind.Stores, fuse[i..], x[..], trace, e) == all
      {
        var f := fuse[i];
        NextRound(Kind.Stores, fuse, i, x[..], trace, e);
        at := U32(x[f.rs1] + f.imm);
        if !MayAccess(e, Full, at) { return true, at; }
        trace := trace + [Write(Full, at, x[f.rs2])];
      }
      LastRound(Kind.Stores, fuse, x[..], trace, e);
      pc := U32(pc + 4 * |fuse|);
      return false, 0;
    }

    /** do_fuse4: several LW. */
    method Loads(fuse: seq<Insn>, e: Env) returns (trap: bool, at: Word)
      requires Valid()
      modifies this, x
      ensures GroupStep(Kind.Loads, fuse, old(Now()), e) == if trap then Halt(Misaligned(false, at), Now())
              else Go(Now())
    {
      hide Rounds;
      ghost var all := Rounds(Kind.Loads, fuse, x[..], trace, e);
      assert fuse[0..] == fuse;
      cycle := cycle + |fuse|;
      for i := 0 to |fuse|
        modifies this`trace, x
        invariant Rounds(Kind.Loads, fuse[i..], x[..], trace, e) == all
      {
        var f := fuse[i];
        NextRound(Kind.Loads, fuse, i, x[..], trace, e);
        ghost var before: Regs := x[..];
        at := U32(x[f.rs1] + f.imm);
        if !MayAccess(e, Full, at) { return true, at; }
        trace := trace + [Read(Full, at)];
        x[f.rd] := e.answer(trace);
        assert x[..] == before[f.rd := e.answer(trace)];
      }
      LastRound(Kind.Loads, fuse, x[..], trace, e);
      pc := U32(pc + 4 * |fuse|);
      return false, 0;
    }

    /** do_fuse5: several shifts by an immediate. */
    method Shifts(fuse: seq<Insn>, ghost e: Env)
      requires Valid() && forall j :: 0 <= j < |fuse| ==> Joins(Kind.Shifts, fuse[j].op)
      modifies this, x
      ensures Go(Now()) == GroupStep(Kind.Shifts, fuse, old(Now()), e)
    {
      hide Rounds;
      ghost var all := Rounds(Kind.Shifts, fuse, x[..], trace, e);
      assert fuse[0..] == fuse;
      cycle := cycle + |fuse|;
      for i := 0 to |fuse|
        modifies x
        invariant Rounds(Kind.Shifts, fuse[i..], x[..], trace, e) == all
      {
        var f := fuse[i];
        NextRound(Kind.Shifts, fuse, i, x[..], trace, e);
        ghost var before: Regs := x[..];
        var v := ImmResult(f.op.immOp, x[f.rs1], f.imm);
        x[f.rd] := v;
        assert x[..] == before[f.rd := v];
      }
      LastRound(Kind.Shifts, fuse, x[..], trace, e);
      pc := U32(pc + 4 * |fuse|);
    }
  }

  // ------------------------------------------------ both passes

  lemma {:induction false} FoldKeepsMailbox(block: seq<Insn>, k: Facts)
    requires MailboxLast(block)
    ensures MailboxLast(Fold(block, k))
  {
    forall j | 0 <= j < |block| - 1 ensures Fold(block, k)[j].op != MailboxLw {
      FoldKeepsOp(block, k, j);
    }
  }

  lemma {:induction false} FoldKeepsOp(block: seq<Insn>, k: Facts, j: nat)
    requires j < |block|
    ensures Fold(block, k)[j].op == MailboxLw ==> block[j].op == MailboxLw
  {
    if j > 0 {
      FoldKeepsOp(block[1..], Learned(block[0], k), j - 1);
    }
  }

  /** A translated block that is folded and then fused runs as it did before, exactly when
      every fused instruction that is reached runs cleanly. */
  lemma PassesPreserve(block: seq<Insn>, memory: nat -> bool, s: State, e: Env)
    requires Translated(block, s.pc) && MailboxLast(block) && s.x[0] == 0
    requires Harmless(block, Initial(), Initial()) && FitsReached(Fold(block, Initial()), 0, memory)
    ensures var irs := Fuse(Fold(block, Initial()), 0, memory);
            RunsClean(irs, s, e) <==> IrRun(irs, s, e) == Run(block, s, e)
  {
    hide Fold, Fuse, Run, IrRun, RunsClean, Initial;
    OptimizePreserves(block, s, e);
    FoldKeepsMailbox(block, Initial());
    FusePreserves(Fold(block, Initial()), 0, memory, s, e);
  }

  /** From every state that starts the block, the list runs as the block does exactly when
      every fused instruction that is reached runs cleanly. */
  ghost predicate MeansSame(irs: seq<Ir>, block: seq<Insn>) {
    forall s: State, e: Env :: Translated(block, s.pc) && s.x[0] == 0 ==>
      (RunsClean(irs, s, e) <==> IrRun(irs, s, e) == Run(block, s, e))
  }

  /** optimize_constant and match_pattern, one after the other, on the list of the block. */
  method OptimizeBlock(b: Block, memory: nat -> bool, ghost block: seq<Insn>)
    requires b.Valid() && Holds(b.nodes, block)
    modifies b, b.nodes
    ensures var irs := Fuse(Fold(block, Initial()), 0, memory);
            && b.Valid() && Shows(b.nodes, irs)
            && (MailboxLast(block) && Harmless(block, Initial(), Initial())
                && FitsReached(Fold(block, Initial()), 0, memory)
                ==> MeansSame(irs, block))
  {
    hide Fold, Fuse, Run, IrRun, RunsClean, Initial, FitsReached, Harmless, MailboxLast, Translated, Shows, Holds;
    hide Block.Valid;
    OptimizeConstant(b, block);
    MatchPattern(b, memory, Fold(block, Initial()));
    ghost var irs := Fuse(Fold(block, Initial()), 0, memory);
    if MailboxLast(block) && Harmless(block, Initial(), Initial()) && FitsReached(Fold(block, Initial()), 0, memory) {
      forall s: State, e: Env | Translated(block, s.pc) && s.x[0] == 0
        ensures RunsClean(irs, s, e) <==> IrRun(irs, s, e) == Run(block, s, e)
      {
        PassesPreserve(block, memory, s, e);
      }
    }
  }
}
