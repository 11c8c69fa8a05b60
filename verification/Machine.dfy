/** The interpreter's instructions and what running a basic block of them does to
    registers, program counter, cycle count and the ordered memory accesses. */
module Machine {
  import opened Words

  datatype ImmOp = Addi | Slti | Sltiu | Xori | Ori | Andi | Slli | Srli | Srai
  datatype RegOp =
    | Add | Sub | Sll | Slt | Sltu | XorR | Srl | Sra | OrR | AndR
    | Mul | Mulh | Mulhsu | Mulhu | Div | Divu | RemS | Remu
  datatype BranchOp = Beq | Bne | Blt | Bge | Bltu | Bgeu
  datatype LoadOp = Lb | Lh | Lw | Lbu | Lhu
  datatype StoreOp = Sb | Sh | Sw
  datatype AmoOp = Swap | AddW | XorW | AndW | OrW | MinW | MaxW | MinuW | MaxuW
  datatype CsrOp = Csrrw | Csrrs | Csrrc | Csrrwi | Csrrsi | Csrrci

  /** Instructions that leave the block: some by falling out of it, others by
      handing over to the environment. */
  datatype SysOp = Fence | FenceI | SfenceVma | Wfi | Ecall | Ebreak | Uret | Hret | Mret

  /** LW of a mailbox address keeps the LW opcode but has its own handler. */
  datatype Op =
    | Nop | Lui | Auipc | Jal | Jalr
    | Branch(branch: BranchOp) | Load(load: LoadOp) | MailboxLw | Store(store: StoreOp)
    | AluImm(immOp: ImmOp) | AluReg(regOp: RegOp)
    | Csr(csr: CsrOp) | Lr | Sc | Amo(amo: AmoOp) | Sys(sys: SysOp)

  type Reg = r: int | 0 <= r < 32

  datatype Insn = Insn(op: Op, rd: Reg, rs1: Reg, rs2: Reg, imm: Int32, pc: Word)

  type Regs = x: seq<Word> | |x| == 32 witness seq(32, _ => 0)

  datatype Width = Byte | Half | Full

  datatype Access =
    | Read(width: Width, addr: Word)
    | Write(width: Width, addr: Word, value: Word)
    | CsrAccess(op: CsrOp, reg: Word, operand: Word)

  datatype State = State(x: Regs, pc: Word, cycle: nat, trace: seq<Access>)

  /** Everything outside the core: any function of the accesses made so far may
      decide what the last of them returns, and whether a mailbox read stalls. */
  datatype Env = Env(allowMisalign: bool, answer: seq<Access> -> Word, stalls: seq<Access> -> bool)

  datatype How = Ended | Misaligned(store: bool, addr: Word) | Stalled | Called(sys: SysOp)

  datatype Outcome = Go(s: State) | Halt(how: How, s: State)

  // ------------------------------------------------ values

  function Bool(b: bool): Word { if b then 1 else 0 }

  function ImmResult(op: ImmOp, a: Word, imm: Int32): Word {
    match op
    case Addi => U32(a + imm)
    case Slti => Bool(S32(a) < imm)
    case Sltiu => Bool(a < U32(imm))
    case Xori => Xor(a, U32(imm))
    case Ori => Or(a, U32(imm))
    case Andi => And(a, U32(imm))
    case Slli => Shl(a, U32(imm))
    case Srli => U32(Shr(a, U32(imm)))
    case Srai => U32(Sar(a, U32(imm)))
  }

  function RegResult(op: RegOp, a: Word, b: Word): Word {
    match op
    case Add => U32(a + b)
    case Sub => U32(a - b)
    case Sll => Shl(a, b)
    case Slt => Bool(S32(a) < S32(b))
    case Sltu => Bool(a < b)
    case XorR => Xor(a, b)
    case Srl => U32(Shr(a, b))
    case Sra => U32(Sar(a, b))
    case OrR => Or(a, b)
    case AndR => And(a, b)
    case Mul => U32(U64(S32(a) * S32(b)) % W32)
    case Mulh => U32(U64(S32(a) * S32(b)) / W32)
    case Mulhsu => U32(U64(U64(S32(a)) * b) / W32)
    case Mulhu => U32(U64(a * b) / W32)
    case Div =>
      if S32(b) == 0 then W32 - 1
      else if S32(b) == -1 && a == 0x8000_0000 then a
      else U32(Quot(S32(a), S32(b)))
    case Divu => if b == 0 then W32 - 1 else U32(a / b)
    case RemS =>
      if S32(b) == 0 then U32(S32(a))
      else if S32(b) == -1 && a == 0x8000_0000 then 0
      else U32(Rem(S32(a), S32(b)))
    case Remu => if b == 0 then a else U32(a % b)
  }

  predicate Taken(op: BranchOp, a: Word, b: Word) {
    match op
    case Beq => !(a != b)
    case Bne => !(a == b)
    case Blt => !(S32(a) >= S32(b))
    case Bge => !(S32(a) < S32(b))
    case Bltu => !(a >= b)
    case Bgeu => !(a < b)
  }

  function LoadWidth(op: LoadOp): Width {
    match op
    case Lb => Byte
    case Lbu => Byte
    case Lh => Half
    case Lhu => Half
    case Lw => Full
  }

  /** The callbacks return 8, 16 or 32 bits; LB and LH sign-extend them. */
  function LoadResult(op: LoadOp, v: Word): Word {
    match op
    case Lb => if v % 0x100 < 0x80 then v % 0x100 else U32(v % 0x100 - 0x100)
    case Lbu => v % 0x100
    case Lh => if v % 0x1_0000 < 0x8000 then v % 0x1_0000 else U32(v % 0x1_0000 - 0x1_0000)
    case Lhu => v % 0x1_0000
    case Lw => v
  }

  function StoreWidth(op: StoreOp): Width {
    match op
    case Sb => Byte
    case Sh => Half
    case Sw => Full
  }

  predicate Aligned(w: Width, addr: Word) {
    match w
    case Byte => true
    case Half => addr % 2 == 0
    case Full => addr % 4 == 0
  }

  function AmoResult(op: AmoOp, a: Word, b: Word): Word {
    match op
    case Swap => b
    case AddW => U32(a + b)
    case XorW => Xor(a, b)
    case AndW => And(a, b)
    case OrW => Or(a, b)
    case MinW => if S32(a) < S32(b) then a else b
    case MaxW => if S32(a) > S32(b) then a else b
    case MinuW => if a < b then a else b
    case MaxuW => if a > b then a else b
  }

  // ------------------------------------------------ one instruction

  /** Continue with the next instruction, `rd` holding `v`. */
  function Put(s: State, rd: Reg, v: Word): Outcome {
    Go(s.(x := s.x[rd := v], pc := U32(s.pc + 4), cycle := s.cycle + 1))
  }

  function Skip(s: State): Outcome {
    Go(s.(pc := U32(s.pc + 4), cycle := s.cycle + 1))
  }

  function Jump(s: State, rd: Reg, target: Word): Outcome {
    var x := if rd == 0 then s.x else s.x[rd := U32(s.pc + 4)];
    Halt(Ended, s.(x := x, pc := target, cycle := s.cycle + 1))
  }

  function Trap(s: State, store: bool, addr: Word): Outcome {
    Halt(Misaligned(store, addr), s.(cycle := s.cycle + 1))
  }

  function Addr(i: Insn, s: State): Word { U32(s.x[i.rs1] + i.imm) }

  function Log(s: State, a: Access): State { s.(trace := s.trace + [a]) }

  predicate MayAccess(e: Env, w: Width, addr: Word) {
    e.allowMisalign || Aligned(w, addr)
  }

  function StepLoad(op: LoadOp, i: Insn, s: State, e: Env): Outcome {
    var addr := Addr(i, s);
    if !MayAccess(e, LoadWidth(op), addr) then Trap(s, false, addr)
    else
      var s' := Log(s, Read(LoadWidth(op), addr));
      Put(s', i.rd, LoadResult(op, e.answer(s'.trace)))
  }

  function StepStore(op: StoreOp, i: Insn, s: State, e: Env): Outcome {
    var addr := Addr(i, s);
    if !MayAccess(e, StoreWidth(op), addr) then Trap(s, true, addr)
    else Skip(Log(s, Write(StoreWidth(op), addr, s.x[i.rs2])))
  }

  function StepMailboxLw(i: Insn, s: State, e: Env): Outcome {
    var s' := Log(s, Read(Full, Addr(i, s)));
    var x := s.x[i.rd := e.answer(s'.trace)];
    if e.stalls(s'.trace) then Halt(Stalled, s'.(x := x[i.rs1 := s.x[i.rs1]], cycle := s.cycle + 1))
    else Halt(Ended, s'.(x := x, pc := U32(s.pc + 4), cycle := s.cycle + 1))
  }

  function StepAmo(op: AmoOp, i: Insn, s: State, e: Env): Outcome {
    var addr := s.x[i.rs1];
    if !MayAccess(e, Full, addr) then Trap(s, false, addr)
    else
      var s1 := Log(s, Read(Full, addr));
      var v1, v2 := e.answer(s1.trace), s.x[i.rs2];
      var s2 := Log(s1, Write(Full, addr, AmoResult(op, v1, v2)));
      if i.rd == 0 then Skip(s2) else Put(s2, i.rd, v1)
  }

  function StepLr(i: Insn, s: State, e: Env): Outcome {
    var addr := s.x[i.rs1];
    if !MayAccess(e, Full, addr) then Trap(s, false, addr)
    else if i.rd == 0 then Skip(s)
    else
      var s' := Log(s, Read(Full, addr));
      Put(s', i.rd, e.answer(s'.trace))
  }

  function StepSc(i: Insn, s: State, e: Env): Outcome {
    var addr := s.x[i.rs1];
    if !MayAccess(e, Full, addr) then Trap(s, true, addr)
    else Put(Log(s, Write(Full, addr, s.x[i.rs2])), i.rd, 0)
  }

  function StepCsr(op: CsrOp, i: Insn, s: State, e: Env): Outcome {
    var operand := match op {
      case Csrrw => s.x[i.rs1]
      case Csrrs => if i.rs1 == 0 then 0 else s.x[i.rs1]
      case Csrrc => if i.rs1 == 0 then 0 else s.x[i.rs1]
      case Csrrwi => i.rs1
      case Csrrsi => i.rs1
      case Csrrci => i.rs1
    };
    var s' := Log(s, CsrAccess(op, U32(i.imm), operand));
    if i.rd == 0 then Skip(s') else Put(s', i.rd, e.answer(s'.trace))
  }

  function StepSys(op: SysOp, s: State): Outcome {
    match op
    case Ecall => Halt(Called(op), s.(cycle := s.cycle + 1))
    case Ebreak => Halt(Called(op), s.(cycle := s.cycle + 1))
    case Uret => Halt(Called(op), s)
    case Hret => Halt(Called(op), s)
    case Mret => Halt(Called(op), s)
    case _ => Halt(Ended, s.(pc := U32(s.pc + 4), cycle := s.cycle + 1))
  }

  function Step(i: Insn, s: State, e: Env): Outcome {
    match i.op
    case Nop => Put(s, 0, 0)
    case Lui => Put(s, i.rd, U32(i.imm))
    case Auipc => Put(s, i.rd, U32(i.imm + s.pc))
    case Jal => Jump(s, i.rd, U32(s.pc + i.imm))
    case Jalr => Jump(s, i.rd, var t := U32(s.x[i.rs1] + i.imm); t - t % 2)
    case Branch(op) => if Taken(op, s.x[i.rs1], s.x[i.rs2]) then Jump(s, 0, U32(s.pc + i.imm)) else Skip(s)
    case Load(op) => StepLoad(op, i, s, e)
    case MailboxLw => StepMailboxLw(i, s, e)
    case Store(op) => StepStore(op, i, s, e)
    case AluImm(op) => Put(s, i.rd, ImmResult(op, s.x[i.rs1], i.imm))
    case AluReg(op) => Put(s, i.rd, RegResult(op, s.x[i.rs1], s.x[i.rs2]))
    case Csr(op) => StepCsr(op, i, s, e)
    case Lr => StepLr(i, s, e)
    case Sc => StepSc(i, s, e)
    case Amo(op) => StepAmo(op, i, s, e)
    case Sys(op) => StepSys(op, s)
  }

  /** Instructions that always leave the block. */
  predicate Leaves(op: Op) {
    op == Jal || op == Jalr || op == MailboxLw || op.Sys?
  }

  /** Run a block: instruction after instruction until one leaves it or it ends. */
  function Run(block: seq<Insn>, s: State, e: Env): Outcome {
    if block == [] then Halt(Ended, s)
    else
      match Step(block[0], s, e)
      case Go(s') => Run(block[1..], s', e)
      case Halt(how, s') => Halt(how, s')
  }

  /** An instruction that goes on advances the program counter and the cycle count by one. */
  lemma GoAdvances(i: Insn, s: State, e: Env)
    requires Step(i, s, e).Go?
    ensures Step(i, s, e).s.pc == U32(s.pc + 4) && Step(i, s, e).s.cycle == s.cycle + 1
  {}
}
