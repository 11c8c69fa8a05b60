/** Constant folding of a block: what the pass does to it, and why the block means
    the same afterwards. */
module ConstFold {
  import opened Words
  import opened Machine

  datatype Fact = Unknown | Is(v: Word)

  type Facts = k: seq<Fact> | |k| == 32 witness seq(32, _ => Unknown)

  /** Every register recorded as constant holds its recorded value. */
  ghost predicate Sound(k: Facts, x: Regs) {
    forall r: Reg :: k[r].Is? ==> x[r] == k[r].v
  }

  // ------------------------------------------------ what the pass computes

  /** The new immediate of a folded register-immediate instruction, as the pass
      evaluates it on `int32_t` and `uint32_t` operands. */
  function ImmFold(op: ImmOp, imm: Int32, c: Word): Int32 {
    match op
    case Addi => S32(imm + c)
    case Slti => if S32(c) < imm then 1 else 0
    case Sltiu => if c < U32(imm) then 1 else 0
    case Xori => S32(Xor(U32(imm), c))
    case Ori => S32(Or(U32(imm), c))
    case Andi => S32(And(U32(imm), c))
    case Slli => S32(Shl(c, U32(imm)))
    case Srli => S32(Shr(c, U32(imm)))
    case Srai => S32(Sar(c, U32(imm)))
  }

  /** The same for two known registers. MULHU multiplies as int64_t and shifts the
      signed product; MULHSU multiplies a signed by a non-negative int64_t. */
  function RegFold(op: RegOp, a: Word, b: Word): Int32 {
    match op
    case Add => S32(a + b)
    case Sub => S32(a - b)
    case Sll => S32(Shl(a, b))
    case Slt => if S32(a) < S32(b) then 1 else 0
    case Sltu => if a < b then 1 else 0
    case XorR => S32(Xor(a, b))
    case Srl => S32(Shr(a, b))
    case Sra => S32(Sar(a, b))
    case OrR => S32(Or(a, b))
    case AndR => S32(And(a, b))
    case Mul => S32(U64(S32(a) * S32(b)) % W32)
    case Mulh => S32(U64(S32(a) * S32(b)) / W32)
    case Mulhsu => S32(U64(S32(a) * b) / W32)
    case Mulhu => S32(S64(a * b) / W32)
    case Div =>
      S32(if S32(b) == 0 then W32 - 1 else if S32(b) == -1 && a == 0x8000_0000 then a else Quot(S32(a), S32(b)))
    case Divu => S32(if b == 0 then W32 - 1 else a / b)
    case RemS =>
      S32(if S32(b) == 0 then S32(a) else if S32(b) == -1 && a == 0x8000_0000 then 0 else Rem(S32(a), S32(b)))
    case Remu => S32(if b == 0 then a else a % b)
  }

  lemma ImmFoldCorrect(op: ImmOp, imm: Int32, c: Word)
    ensures ImmFold(op, imm, c) == S32(ImmResult(op, c, imm))
  {
    hide Xor, Or, And, Shl, Shr, Sar;
    match op
    case Xori => BitwiseCommutes(U32(imm), c);
    case Ori => BitwiseCommutes(U32(imm), c);
    case Andi => BitwiseCommutes(U32(imm), c);
    case _ =>
  }

  /** The signed reading of a word does not care whether it was reduced first. */
  lemma SignOf(x: int)
    ensures S32(U32(x)) == S32(x)
  {}

  lemma MulhuFold(a: Word, b: Word)
    ensures S32(S64(a * b) / W32) == S32(U32(U64(a * b) / W32))
  {
    HighHalf(a * b);
    SignOf(S64(a * b) / W32);
  }

  lemma RegFoldCorrect(op: RegOp, a: Word, b: Word)
    ensures RegFold(op, a, b) == S32(RegResult(op, a, b))
  {
    hide Xor, Or, And, Shl, Shr, Sar, Quot, Rem, U64, S64, S32, U32, Bool;
    match op
    case Add => SignOf(a + b);
    case Sub => SignOf(a - b);
    case Slt => Bits(S32(a) < S32(b));
    case Sltu => Bits(a < b);
    case Srl => SignOf(Shr(a, b));
    case Sra => SignOf(Sar(a, b));
    case Mul => SignOf(U64(S32(a) * S32(b)) % W32);
    case Mulh => SignOf(U64(S32(a) * S32(b)) / W32);
    case Mulhsu =>
      WrapFactor(S32(a), b);
      SignOf(U64(S32(a) * b) / W32);
    case Mulhu => MulhuFold(a, b);
    case Div => if S32(b) != 0 { SignOf(Quot(S32(a), S32(b))); }
    case Divu => if b != 0 { SignOf(a / b); }
    case RemS =>
      SignOf(S32(a));
      if S32(b) != 0 { SignOf(Rem(S32(a), S32(b))); }
    case Remu => if b != 0 { SignOf(a % b); }
    case _ =>
  }

  lemma Bits(b: bool)
    ensures S32(Bool(b)) == if b then 1 else 0
  {}

  // ------------------------------------------------ the pass on values

  /** An instruction whose result is known becomes a load of that result, a branch
      whose direction is known a jump. */
  function Folded(i: Insn, k: Facts): Insn {
    match i.op
    case Auipc => i.(op := Lui, imm := S32(i.imm + i.pc))
    case AluImm(op) =>
      if k[i.rs1].Is? then i.(op := Lui, imm := S32(ImmResult(op, k[i.rs1].v, i.imm))) else i
    case AluReg(op) =>
      if k[i.rs1].Is? && k[i.rs2].Is? then i.(op := Lui, imm := S32(RegResult(op, k[i.rs1].v, k[i.rs2].v))) else i
    case Branch(op) =>
      if k[i.rs1].Is? && k[i.rs2].Is?
      then i.(op := Jal, imm := if Taken(op, k[i.rs1].v, k[i.rs2].v) then i.imm else 4)
      else i
    case _ => i
  }

  /** What is known after an instruction. */
  function Learned(i: Insn, k: Facts): Facts {
    match i.op
    case Lui => k[i.rd := Is(U32(i.imm))]
    case Auipc => k[i.rd := Is(U32(i.imm + i.pc))]
    case Jal => if i.rd == 0 then k else k[i.rd := Is(U32(i.pc + 4))]
    case Jalr => if i.rd == 0 then k else k[i.rd := Is(U32(i.pc + 4))]
    case AluImm(op) =>
      k[i.rd := if k[i.rs1].Is? then Is(ImmResult(op, k[i.rs1].v, i.imm)) else Unknown]
    case AluReg(op) =>
      k[i.rd := if k[i.rs1].Is? && k[i.rs2].Is? then Is(RegResult(op, k[i.rs1].v, k[i.rs2].v)) else Unknown]
    case Load(_) => k[i.rd := Unknown]
    case MailboxLw => k[i.rd := Unknown]
    case Csr(_) => k[i.rd := Unknown]
    case Lr => if i.rd == 0 then k else k[i.rd := Unknown]
    case Amo(_) => if i.rd == 0 then k else k[i.rd := Unknown]
    case _ => k
  }

  function Fold(block: seq<Insn>, k: Facts): (folded: seq<Insn>)
    ensures |folded| == |block|
  {
    if block == [] then [] else [Folded(block[0], k)] + Fold(block[1..], Learned(block[0], k))
  }

  /** The pass starts from x0 = 0. */
  function Initial(): Facts { seq(32, r => if r == 0 then Is(0) else Unknown) }

  // ------------------------------------------------ blocks

  /** What decoding and translation guarantee: computational instructions never
      write x0, a branch has no destination, only the last instruction branches,
      and each instruction records its own address. */
  predicate Decoded(i: Insn) {
    match i.op
    case Lui => i.rd != 0
    case Auipc => i.rd != 0
    case AluImm(_) => i.rd != 0
    case AluReg(_) => i.rd != 0
    case Branch(_) => i.rd == 0
    case _ => true
  }

  ghost predicate Translated(block: seq<Insn>, pc: Word) {
    block != [] ==>
      && Decoded(block[0]) && block[0].pc == pc
      && (block[0].op.Branch? ==> |block| == 1)
      && Translated(block[1..], U32(pc + 4))
  }

  /** At every SC.W the destination is not recorded as a non-zero constant. */
  ghost predicate ScTracked(block: seq<Insn>, k: Facts) {
    block != [] ==>
      && (block[0].op.Sc? ==> k[block[0].rd] == Unknown || k[block[0].rd] == Is(0))
      && ScTracked(block[1..], Learned(block[0], k))
  }

  lemma {:induction false} NoScTracked(block: seq<Insn>, k: Facts)
    requires forall j :: 0 <= j < |block| ==> !block[j].op.Sc?
    ensures ScTracked(block, k)
  {
    if block != [] {
      assert forall j :: 0 <= j < |block[1..]| ==> block[1..][j] == block[j + 1];
      NoScTracked(block[1..], Learned(block[0], k));
    }
  }

  // ------------------------------------------------ meaning

  lemma LoadsValue(i: Insn, v: Word, s: State, e: Env)
    ensures Step(i.(op := Lui, imm := S32(v)), s, e) == Put(s, i.rd, v)
  {}

  /** Apart from a branch, folding does not change what an instruction does. */
  lemma FoldedStep(i: Insn, k: Facts, s: State, e: Env)
    requires Sound(k, s.x) && s.pc == i.pc && !i.op.Branch?
    ensures Step(Folded(i, k), s, e) == Step(i, s, e)
  {
    hide ImmResult, RegResult;
    match i.op
    case AluImm(op) =>
      if k[i.rs1].Is? { LoadsValue(i, ImmResult(op, k[i.rs1].v, i.imm), s, e); }
    case AluReg(op) =>
      if k[i.rs1].Is? && k[i.rs2].Is? { LoadsValue(i, RegResult(op, k[i.rs1].v, k[i.rs2].v), s, e); }
    case Auipc => LoadsValue(i, U32(i.imm + i.pc), s, e);
    case _ =>
  }

  lemma FoldedBranch(i: Insn, k: Facts, s: State, e: Env)
    requires Sound(k, s.x) && s.pc == i.pc && i.op.Branch? && Decoded(i)
    ensures Run([Folded(i, k)], s, e) == Run([i], s, e)
  {}

  /** What the pass learns is true of the registers an instruction leaves behind. */
  lemma LearnedSound(i: Insn, k: Facts, s: State, e: Env)
    requires Sound(k, s.x) && s.pc == i.pc && Decoded(i) && Step(i, s, e).Go? && !i.op.Sc?
    requires i.op.Nop? ==> k[0] == Unknown || k[0] == Is(0)
    ensures Sound(Learned(i, k), Step(i, s, e).s.x)
  {}

  /** SC.W zeroes its destination, which the pass does not record: the record stays
      true exactly when it did not claim something else. */
  lemma ScSound(i: Insn, k: Facts, s: State, e: Env)
    requires Sound(k, s.x) && i.op.Sc? && Step(i, s, e).Go?
    ensures Sound(Learned(i, k), Step(i, s, e).s.x) <==> k[i.rd] == Unknown || k[i.rd] == Is(0)
  {
    assert Step(i, s, e).s.x == s.x[i.rd := 0];
    assert Learned(i, k) == k;
    if k[i.rd].Is? && k[i.rd].v != 0 {
      assert s.x[i.rd := 0][i.rd] != k[i.rd].v;
    }
  }

  // ------------------------------------------------ the exact condition

  /** What is really known after an instruction: SC.W leaves zero in its destination. */
  function Truly(i: Insn, t: Facts): Facts {
    if i.op.Sc? then t[i.rd := Is(0)] else Learned(i, t)
  }

  /** The record `k` of the pass lets no instruction that can be reached be folded otherwise
      than the true record `t` does. */
  predicate Harmless(block: seq<Insn>, k: Facts, t: Facts) {
    block != [] ==>
      && Folded(block[0], k) in {block[0], Folded(block[0], t)}
      && (Leaves(block[0].op) || Harmless(block[1..], Learned(block[0], k), Truly(block[0], t)))
  }

  /** Agreement on x0. */
  predicate ZeroKept(t: Facts) { t[0] == Unknown || t[0] == Is(0) }

  lemma TrulySound(i: Insn, t: Facts, s: State, e: Env)
    requires Sound(t, s.x) && s.pc == i.pc && Decoded(i) && Step(i, s, e).Go? && ZeroKept(t)
    ensures Sound(Truly(i, t), Step(i, s, e).s.x) && ZeroKept(Truly(i, t))
    ensures Step(i, s, e).s.pc == U32(s.pc + 4)
  {
    hide Step;
    GoAdvances(i, s, e);
    if i.op.Sc? { ScStep(i, s, e); } else { LearnedSound(i, t, s, e); }
  }

  lemma ScStep(i: Insn, s: State, e: Env)
    requires i.op.Sc? && Step(i, s, e).Go?
    ensures Step(i, s, e).s.x == s.x[i.rd := 0]
  {}

  lemma LeavesAtOnce(i: Insn, k: Facts, s: State, e: Env)
    requires Leaves(i.op)
    ensures Step(i, s, e).Halt? && Folded(i, k) == i
  {}

  /** If no reachable instruction is folded wrongly, the block means the same. */
  lemma {:induction false} FoldPreserves(block: seq<Insn>, k: Facts, t: Facts, s: State, e: Env)
    requires Translated(block, s.pc) && Harmless(block, k, t) && Sound(t, s.x) && ZeroKept(t)
    ensures Run(Fold(block, k), s, e) == Run(block, s, e)
  {
    hide Step, Folded, Learned;
    if block != [] {
      var i := block[0];
      assert Fold(block, k)[1..] == Fold(block[1..], Learned(i, k));
      if i.op.Branch? {
        assert block == [i];
        FoldedBranch(i, t, s, e);
        assert Fold(block, k) == [Folded(i, k)];
      } else {
        FoldedStep(i, t, s, e);
        if Leaves(i.op) {
          LeavesAtOnce(i, k, s, e);
        } else if Step(i, s, e).Go? {
          TrulySound(i, t, s, e);
          FoldPreserves(block[1..], Learned(i, k), Truly(i, t), Step(i, s, e).s, e);
        }
      }
    }
  }

  /** optimize_constant preserves the meaning of a translated block, for every
      environment: registers, accesses in order, next address and cycle count. */
  lemma OptimizePreserves(block: seq<Insn>, s: State, e: Env)
    requires Translated(block, s.pc) && s.x[0] == 0 && Harmless(block, Initial(), Initial())
    ensures Run(Fold(block, Initial()), s, e) == Run(block, s, e)
  {
    FoldPreserves(block, Initial(), Initial(), s, e);
  }

  /** What the pass holds for known is known. */
  predicate Covers(t: Facts, k: Facts) { forall r: Reg :: k[r].Is? ==> t[r].Is? }

  lemma CoversNext(i: Insn, k: Facts, t: Facts)
    requires Covers(t, k)
    ensures Covers(Truly(i, t), Learned(i, k))
  {}

  /** With accesses of any alignment allowed, everything else goes on. */
  lemma GoesOn(i: Insn, s: State, e: Env)
    requires e.allowMisalign && !Leaves(i.op) && !i.op.Branch?
    ensures Step(i, s, e).Go?
  {}

  /** A wrong fold shows at once. */
  lemma WrongFold(i: Insn, k: Facts, t: Facts, s: State, e: Env)
    requires Sound(t, s.x) && s.pc == i.pc && Decoded(i) && Covers(t, k)
    requires Folded(i, k) !in {i, Folded(i, t)}
    ensures Run([Folded(i, k)], s, e) != Run([i], s, e)
  {
    var j, j' := Folded(i, k), Folded(i, t);
    assert j.imm != j'.imm && j == j'.(imm := j.imm);
    if i.op.Branch? {
      FoldedBranch(i, t, s, e);
      JumpDiffers(j, j', s, e);
    } else {
      FoldedStep(i, t, s, e);
      LoadDiffers(j, j', s, e);
    }
  }

  lemma WordsDiffer(pc: Word, a: Int32, b: Int32)
    requires a != b
    ensures U32(pc + a) != U32(pc + b)
  {}

  lemma JumpDiffers(j: Insn, j': Insn, s: State, e: Env)
    requires j.op == Jal && j == j'.(imm := j.imm) && j.imm != j'.imm
    ensures Run([j], s, e) != Run([j'], s, e)
  {
    hide U32;
    WordsDiffer(s.pc, j.imm, j'.imm);
    assert Run([j], s, e) == Step(j, s, e) && Run([j'], s, e) == Step(j', s, e);
  }

  lemma LoadDiffers(j: Insn, j': Insn, s: State, e: Env)
    requires j.op == Lui && j == j'.(imm := j.imm) && j.imm != j'.imm
    ensures Run([j], s, e) != Run([j'], s, e)
  {
    hide U32;
    WordsDiffer(0, j.imm, j'.imm);
    assert Run([j], s, e) == Halt(Ended, Step(j, s, e).s);
    assert Run([j'], s, e) == Halt(Ended, Step(j', s, e).s);
    assert Step(j, s, e).s.x[j.rd] != Step(j', s, e).s.x[j.rd];
  }

  /** Running the first `n` instructions, folded and as they were, gives the same. */
  ghost predicate AgreesUpTo(block: seq<Insn>, k: Facts, n: nat, s: State, e: Env)
    requires n <= |block|
  {
    Run(Fold(block, k)[..n], s, e) == Run(block[..n], s, e)
  }

  /** Otherwise the wrong fold is reached, in every state and every such environment. */
  lemma {:induction false} HarmShows(block: seq<Insn>, k: Facts, t: Facts, s: State, e: Env) returns (n: nat)
    requires Translated(block, s.pc) && !Harmless(block, k, t) && Sound(t, s.x) && ZeroKept(t) && Covers(t, k)
    requires e.allowMisalign
    ensures n <= |block| && !AgreesUpTo(block, k, n, s, e)
  {
    hide Step, Folded, Learned, Leaves;
    var i := block[0];
    var folded := Fold(block, k);
    if Folded(i, k) !in {i, Folded(i, t)} {
      WrongFold(i, k, t, s, e);
      n := 1;
      assert folded[..1] == [Folded(i, k)] && block[..1] == [i];
    } else {
      NotBranch(block, k, t, s.pc);
      FoldedStep(i, t, s, e);
      GoesOn(i, s, e);
      TrulySound(i, t, s, e);
      CoversNext(i, k, t);
      var m := HarmShows(block[1..], Learned(i, k), Truly(i, t), Step(i, s, e).s, e);
      n := m + 1;
      assert folded[..n][1..] == Fold(block[1..], Learned(i, k))[..m] && block[..n][1..] == block[1..][..m];
      assert folded[..n][0] == Folded(i, k) && block[..n][0] == i;
    }
  }

  lemma NotBranch(block: seq<Insn>, k: Facts, t: Facts, pc: Word)
    requires block != [] && Translated(block, pc) && !Harmless(block, k, t)
    requires Folded(block[0], k) in {block[0], Folded(block[0], t)}
    ensures !block[0].op.Branch? && !Leaves(block[0].op)
  {}

  lemma {:induction false} FoldPrefix(block: seq<Insn>, k: Facts, n: nat)
    requires n <= |block|
    ensures Fold(block, k)[..n] == Fold(block[..n], k)
  {
    hide Folded, Learned;
    if n > 0 {
      assert block[..n][0] == block[0] && block[..n][1..] == block[1..][..n - 1];
      FoldPrefix(block[1..], Learned(block[0], k), n - 1);
    }
  }

  lemma {:induction false} HarmlessPrefix(block: seq<Insn>, k: Facts, t: Facts, n: nat)
    requires Harmless(block, k, t) && n <= |block|
    ensures Harmless(block[..n], k, t)
  {
    hide Folded, Learned, Truly, Leaves;
    if n > 0 {
      assert block[..n][0] == block[0] && block[..n][1..] == block[1..][..n - 1];
      if !Leaves(block[0].op) { HarmlessPrefix(block[1..], Learned(block[0], k), Truly(block[0], t), n - 1); }
    }
  }

  lemma {:induction false} TranslatedPrefix(block: seq<Insn>, n: nat, pc: Word)
    requires Translated(block, pc) && n <= |block|
    ensures Translated(block[..n], pc)
  {
    if n > 0 {
      assert block[..n][0] == block[0] && block[..n][1..] == block[1..][..n - 1];
      TranslatedPrefix(block[1..], n - 1, U32(pc + 4));
    }
  }

  /** From every state and in every environment, every beginning of the block means the same. */
  ghost predicate AgreesAlways(block: seq<Insn>, pc: Word) {
    forall s: State, e: Env, n: nat :: s.pc == pc && s.x[0] == 0 && n <= |block| ==>
      AgreesUpTo(block, Initial(), n, s, e)
  }

  /** The pass preserves what a block does, instruction by instruction, exactly when no
      reachable instruction is folded from a stale record of SC.W. */
  lemma PreservesIffHarmless(block: seq<Insn>, pc: Word)
    requires Translated(block, pc)
    ensures Harmless(block, Initial(), Initial()) <==> AgreesAlways(block, pc)
  {
    hide Fold, Run, Translated, Harmless;
    if Harmless(block, Initial(), Initial()) {
      forall s: State, e: Env, n: nat | s.pc == pc && s.x[0] == 0 && n <= |block|
        ensures AgreesUpTo(block, Initial(), n, s, e)
      {
        FoldPrefix(block, Initial(), n);
        HarmlessPrefix(block, Initial(), Initial(), n);
        TranslatedPrefix(block, n, pc);
        OptimizePreserves(block[..n], s, e);
      }
    } else {
      var s, e := State(seq(32, _ => 0), pc, 0, []), Env(true, _ => 0, _ => false);
      var n := HarmShows(block, Initial(), Initial(), s, e);
    }
  }

  /** A record without stale entries does no harm. */
  lemma {:induction false} TrackedHarmless(block: seq<Insn>, k: Facts, t: Facts)
    requires ScTracked(block, k) && forall r: Reg :: k[r].Is? ==> t[r] == k[r]
    ensures Harmless(block, k, t)
  {
    if block != [] {
      TrackedHarmless(block[1..], Learned(block[0], k), Truly(block[0], t));
    }
  }

  /** Arithmetic on nothing but constants and results that stand before it in the block;
      `written` are the registers written so far. A branch may end it. */
  predicate Closed(block: seq<Insn>, written: set<Reg>) {
    block != [] ==>
      var i := block[0];
      && (i.op == Lui || i.op == Auipc || (i.op.AluImm? && i.rs1 in written)
          || ((i.op.AluReg? || i.op.Branch?) && i.rs1 in written && i.rs2 in written))
      && Closed(block[1..], written + {i.rd})
  }

  lemma {:induction false} ClosedFolds(block: seq<Insn>, k: Facts, written: set<Reg>, j: nat)
    requires Closed(block, written) && (forall r :: r in written ==> k[r].Is?) && j < |block|
    requires block[j].op.Branch? ==> j == |block| - 1
    requires forall m :: 0 <= m < |block| - 1 ==> !block[m].op.Branch?
    ensures Fold(block, k)[j].op == if block[j].op.Branch? then Jal else Lui
  {
    if j > 0 {
      assert forall m :: 0 <= m < |block| - 1 ==> block[1..][m] == block[m + 1];
      ClosedFolds(block[1..], Learned(block[0], k), written + {block[0].rd}, j - 1);
    }
  }

  /** Such a block folds completely: every instruction becomes a load of its result, a
      branch at its end becomes a jump. */
  lemma ConstantsFold(block: seq<Insn>, j: nat)
    requires Closed(block, {0 as Reg}) && j < |block| && forall m :: 0 <= m < |block| - 1 ==> !block[m].op.Branch?
    ensures Fold(block, Initial())[j].op == if block[j].op.Branch? then Jal else Lui
  {
    var zero: set<Reg> := {0};
    assert forall r :: r in zero ==> Initial()[r].Is?;
    ClosedFolds(block, Initial(), zero, j);
  }

  /** With SC.W in the block the pass can change its result: here x6 receives 4096
      instead of 0. */
  lemma ScBreaksFolding()
    ensures var block := [
              Insn(Lui, 5, 0, 0, 4096, 0),
              Insn(Sc, 5, 0, 0, 0, 4),
              Insn(AluImm(Addi), 6, 5, 0, 0, 8)];
            var s, e := State(seq(32, _ => 0), 0, 0, []), Env(true, _ => 0, _ => false);
            && Translated(block, s.pc) && s.x[0] == 0
            && Run(block, s, e).s.x[6] == 0
            && Run(Fold(block, Initial()), s, e).s.x[6] == 4096
  {
    var i0, i1, i2 := Insn(Lui, 5, 0, 0, 4096, 0), Insn(Sc, 5, 0, 0, 0, 4), Insn(AluImm(Addi), 6, 5, 0, 0, 8);
    var block := [i0, i1, i2];
    var s, e := State(seq(32, _ => 0), 0, 0, []), Env(true, _ => 0, _ => false);
    assert block[1..] == [i1, i2] && [i1, i2][1..] == [i2] && [i2][1..] == [];
    var s1 := Step(i0, s, e).s;
    var s2 := Step(i1, s1, e).s;
    var s3 := Step(i2, s2, e).s;
    assert Run([i2], s2, e) == Halt(Ended, s3);
    assert Run([i1, i2], s1, e) == Halt(Ended, s3);
    var k := Initial();
    var k1 := Learned(i0, k);
    var j2 := Folded(i2, k1);
    assert Fold([i2], k1) == [j2];
    assert Fold([i1, i2], k1) == [i1, j2];
    assert Fold(block, k) == [i0, i1, j2];
    assert [i0, i1, j2][1..] == [i1, j2] && [i1, j2][1..] == [j2] && [j2][1..] == [];
    var t3 := Step(j2, s2, e).s;
    assert Run([j2], s2, e) == Halt(Ended, t3);
    assert Run([i1, j2], s1, e) == Halt(Ended, t3);
  }
}
