/** The passes as they run: a block is a linked list of IR nodes that constant folding
    rewrites in place and fusion shortens. */
module IrPasses {
  import opened Words
  import opened Machine
  import opened ConstFold
  import opened Fusion

  datatype Code = Plain(op: Op) | Fused(kind: Kind) | FusedLuiAdd

  class IrNode {
    var code: Code
    var rd: Reg
    var rs1: Reg
    var rs2: Reg
    var imm: Int32
    var pc: Word
    var fuse: seq<Insn>
    var next: IrNode?

    ghost predicate Is(i: Insn)
      reads this
    {
      code == Plain(i.op) && rd == i.rd && rs1 == i.rs1 && rs2 == i.rs2 && imm == i.imm && pc == i.pc
    }

    ghost function View(): Ir
      reads this
    {
      match code
      case Plain(op) => Single(Insn(op, rd, rs1, rs2, imm, pc))
      case Fused(kind) => Group(kind, fuse)
      case FusedLuiAdd => LuiAdd(rd, rs1, rs2, imm)
    }
  }

  /** `nodes` is the list that starts at its first node. */
  ghost predicate Linked(nodes: seq<IrNode>)
    reads nodes
  {
    && (forall a, b :: 0 <= a < b < |nodes| ==> nodes[a] != nodes[b])
    && (forall a, b :: 0 <= a < |nodes| && b == a + 1 && b < |nodes| ==> nodes[a].next == nodes[b])
    && (nodes != [] ==> nodes[|nodes| - 1].next == null)
  }

  /** The nodes hold these instructions, none of them fused. */
  ghost predicate Holds(nodes: seq<IrNode>, block: seq<Insn>)
    reads nodes
  {
    |nodes| == |block| && forall a :: 0 <= a < |nodes| ==> nodes[a].Is(block[a])
  }

  ghost predicate Shows(nodes: seq<IrNode>, irs: seq<Ir>)
    reads nodes
  {
    |nodes| == |irs| && forall a :: 0 <= a < |nodes| ==> nodes[a].View() == irs[a]
  }

  class Block {
    var head: IrNode
    var tail: IrNode
    var count: nat
    ghost var nodes: seq<IrNode>

    ghost predicate Valid()
      reads this, nodes
    {
      && nodes != [] && head == nodes[0] && tail == nodes[|nodes| - 1] && count == |nodes|
      && Linked(nodes)
    }

    constructor (first: IrNode)
      requires first.next == null
      ensures Valid() && nodes == [first]
    {
      head, tail, count, nodes := first, first, 1, [first];
    }
  }

  // ------------------------------------------------ constant folding

  ghost predicate Knows(isConstant: array<bool>, constVal: array<Word>, k: Facts)
    reads isConstant, constVal
  {
    && isConstant.Length == 32 && constVal.Length == 32
    && forall r: Reg :: k[r] == if isConstant[r] then Is(constVal[r]) else Unknown
  }

  method FoldTo(ir: IrNode, op: Op, imm: Int32)
    modifies ir
    ensures ir.code == Plain(op) && ir.imm == imm
    ensures ir.rd == old(ir.rd) && ir.rs1 == old(ir.rs1) && ir.rs2 == old(ir.rs2) && ir.pc == old(ir.pc)
    ensures ir.next == old(ir.next)
  {
    ir.imm := imm;
    ir.code := Plain(op);
  }

  method ConstoptImm(ir: IrNode, op: ImmOp, isConstant: array<bool>, constVal: array<Word>,
                     ghost i: Insn, ghost k: Facts)
    requires ir.Is(i) && i.op == AluImm(op) && Knows(isConstant, constVal, k)
    modifies ir, isConstant, constVal
    ensures ir.Is(Folded(i, k)) && ir.next == old(ir.next) && Knows(isConstant, constVal, Learned(i, k))
  {
    hide ImmFold, ImmResult;
    if isConstant[ir.rs1] {
      var v := ImmFold(op, ir.imm, constVal[ir.rs1]);
      ImmFoldCorrect(op, ir.imm, constVal[ir.rs1]);
      SignRoundTrip(ImmResult(op, constVal[ir.rs1], ir.imm));
      FoldTo(ir, Lui, v);
      isConstant[ir.rd] := true;
      constVal[ir.rd] := U32(v);
    } else {
      isConstant[ir.rd] := false;
    }
  }

  method ConstoptReg(ir: IrNode, op: RegOp, isConstant: array<bool>, constVal: array<Word>,
                     ghost i: Insn, ghost k: Facts)
    requires ir.Is(i) && i.op == AluReg(op) && Knows(isConstant, constVal, k)
    modifies ir, isConstant, constVal
    ensures ir.Is(Folded(i, k)) && ir.next == old(ir.next) && Knows(isConstant, constVal, Learned(i, k))
  {
    hide RegFold, RegResult;
    if isConstant[ir.rs1] && isConstant[ir.rs2] {
      var v := RegFold(op, constVal[ir.rs1], constVal[ir.rs2]);
      RegFoldCorrect(op, constVal[ir.rs1], constVal[ir.rs2]);
      SignRoundTrip(RegResult(op, constVal[ir.rs1], constVal[ir.rs2]));
      FoldTo(ir, Lui, v);
      isConstant[ir.rd] := true;
      constVal[ir.rd] := U32(v);
    } else {
      isConstant[ir.rd] := false;
    }
  }

  method ConstoptBranch(ir: IrNode, op: BranchOp, isConstant: array<bool>, constVal: array<Word>,
                        ghost i: Insn, ghost k: Facts)
    requires ir.Is(i) && i.op == Branch(op) && Knows(isConstant, constVal, k)
    modifies ir
    ensures ir.Is(Folded(i, k)) && ir.next == old(ir.next)
  {
    if isConstant[ir.rs1] && isConstant[ir.rs2] {
      if !Taken(op, constVal[ir.rs1], constVal[ir.rs2]) {
        ir.imm := 4;
      }
      ir.code := Plain(Jal);
    }
  }

  /** The remaining bodies: they only record what is known about rd. */
  method ConstoptOther(ir: IrNode, op: Op, isConstant: array<bool>, constVal: array<Word>,
                       ghost i: Insn, ghost k: Facts)
    requires ir.Is(i) && i.op == op && !op.AluImm? && !op.AluReg? && !op.Branch? && Knows(isConstant, constVal, k)
    modifies ir, isConstant, constVal
    ensures ir.Is(Folded(i, k)) && ir.next == old(ir.next) && Knows(isConstant, constVal, Learned(i, k))
  {
    var rd := ir.rd;
    match op {
      case Lui =>
        isConstant[rd] := true;
        constVal[rd] := U32(ir.imm);
      case Auipc =>
        FoldTo(ir, Lui, S32(ir.imm + ir.pc));
        isConstant[rd] := true;
        constVal[rd] := U32(ir.imm);
      case Jal =>
        if rd != 0 {
          isConstant[rd] := true;
          constVal[rd] := U32(ir.pc + 4);
        }
      case Jalr =>
        if rd != 0 {
          isConstant[rd] := true;
          constVal[rd] := U32(ir.pc + 4);
        }
      case Load(_) => isConstant[rd] := false;
      case MailboxLw => isConstant[rd] := false;
      case Csr(_) => isConstant[rd] := false;
      case Lr => if rd != 0 { isConstant[rd] := false; }
      case Amo(_) => if rd != 0 { isConstant[rd] := false; }
      case _ =>
    }
  }

  method Constopt(ir: IrNode, isConstant: array<bool>, constVal: array<Word>, ghost i: Insn, ghost k: Facts)
    requires ir.Is(i) && Knows(isConstant, constVal, k)
    modifies ir, isConstant, constVal
    ensures ir.Is(Folded(i, k)) && ir.next == old(ir.next) && Knows(isConstant, constVal, Learned(i, k))
  {
    match ir.code.op {
      case AluImm(op) => ConstoptImm(ir, op, isConstant, constVal, i, k);
      case AluReg(op) => ConstoptReg(ir, op, isConstant, constVal, i, k);
      case Branch(op) => ConstoptBranch(ir, op, isConstant, constVal, i, k);
      case _ => ConstoptOther(ir, ir.code.op, isConstant, constVal, i, k);
    }
  }

  /** One round of optimize_constant. */
  method ConstoptAt(ir: IrNode, isConstant: array<bool>, constVal: array<Word>,
      ghost nodes: seq<IrNode>, ghost at: nat, ghost block: seq<Insn>, ghost k: Facts)
    returns (next: IrNode?)
    requires Linked(nodes) && Holds(nodes, block) && at < |nodes| && nodes[at] == ir
    requires Knows(isConstant, constVal, k)
    modifies ir, isConstant, constVal
    ensures Linked(nodes) && Holds(nodes, block[at := Folded(block[at], k)])
    ensures Knows(isConstant, constVal, Learned(block[at], k))
    ensures next == if at + 1 < |nodes| then nodes[at + 1] else null
  {
    hide Folded, Learned, Knows;
    Constopt(ir, isConstant, constVal, block[at], k);
    next := ir.next;
  }

  lemma FoldNext(block: seq<Insn>, k: Facts, folded: seq<Insn>, i: nat)
    requires i < |block| == |folded| && folded[i..] == Fold(block[i..], k)
    ensures folded[i] == Folded(block[i], k) && folded[i + 1..] == Fold(block[i + 1..], Learned(block[i], k))
  {}

  /** The first `i` instructions are folded, the others not yet. */
  ghost predicate Between(now: seq<Insn>, folded: seq<Insn>, block: seq<Insn>, i: nat) {
    && i <= |now| == |folded| == |block|
    && forall a :: 0 <= a < |now| ==> now[a] == if a < i then folded[a] else block[a]
  }

  method NewInfo() returns (isConstant: array<bool>, constVal: array<Word>)
    ensures fresh(isConstant) && fresh(constVal) && Knows(isConstant, constVal, Initial())
  {
    isConstant := new bool[32](r => r == 0);
    constVal := new Word[32](r => 0);
  }

  method ConstoptAll(b: Block, isConstant: array<bool>, constVal: array<Word>, ghost block: seq<Insn>, ghost k0: Facts)
    requires b.Valid() && Holds(b.nodes, block) && |block| == |b.nodes| && Knows(isConstant, constVal, k0)
    modifies b.nodes, isConstant, constVal
    ensures b.Valid() && Holds(b.nodes, Fold(block, k0))
  {
    hide Fold, Folded, Learned, Knows, Holds, Linked;
    ghost var folded := Fold(block, k0);
    ghost var now, k := block, k0;
    var ir: IrNode? := b.head;
    for i := 0 to b.count
      invariant ir == if i < |b.nodes| then b.nodes[i] else null
      invariant Linked(b.nodes) && Holds(b.nodes, now) && Knows(isConstant, constVal, k)
      invariant Between(now, folded, block, i)
      invariant folded[i..] == Fold(block[i..], k)
    {
      FoldNext(block, k, folded, i);
      ir := ConstoptAt(ir, isConstant, constVal, b.nodes, i, now, k);
      now := now[i := folded[i]];
      k := Learned(block[i], k);
    }
    assert now == folded;
  }

  /** optimize_constant: the nodes stay, and hold the folded block afterwards. */
  method OptimizeConstant(b: Block, ghost block: seq<Insn>)
    requires b.Valid() && Holds(b.nodes, block)
    modifies b.nodes
    ensures b.Valid() && Holds(b.nodes, Fold(block, Initial()))
  {
    hide Fold, Knows, Initial;
    var isConstant, constVal := NewInfo();
    ConstoptAll(b, isConstant, constVal, block, Initial());
  }

  // ------------------------------------------------ fusion

  lemma LinkedSuffix(nodes: seq<IrNode>, at: nat)
    requires Linked(nodes) && at < |nodes|
    ensures Linked(nodes[at..])
  {}

  lemma RunLengthIs(kind: Kind, block: seq<Insn>, n: nat)
    requires n <= |block|
    requires forall j :: 0 <= j < n ==> Joins(kind, block[j].op)
    requires n < |block| ==> !Joins(kind, block[n].op)
    ensures RunLength(kind, block) == n
  {}

  /** The counting loop: how far the run goes on. */
  method CountRun(kind: Kind, ir: IrNode, ghost nodes: seq<IrNode>, ghost block: seq<Insn>) returns (count: nat)
    requires Linked(nodes) && Holds(nodes, block) && |nodes| >= 2 && nodes[0] == ir && Joins(kind, block[0].op)
    ensures count == RunLength(kind, block)
  {
    count := 1;
    var next: IrNode? := ir.next;
    assert next == nodes[1];
    while true
      invariant 1 <= count < |nodes| && next == nodes[count]
      invariant forall j :: 0 <= j < count ==> Joins(kind, block[j].op)
      decreases |nodes| - count
    {
      if !Joins(kind, next.code.op) { break; }
      count := count + 1;
      if next.next == null { break; }
      next := next.next;
    }
    RunLengthIs(kind, block, count);
  }

  /** The copying loop: the table of the fused instruction. */
  method CopyRun(ir: IrNode, count: nat, ghost nodes: seq<IrNode>, ghost block: seq<Insn>) returns (fuse: seq<Insn>)
    requires Linked(nodes) && Holds(nodes, block) && 1 <= count <= |nodes| && nodes[0] == ir
    ensures fuse == block[..count]
  {
    fuse := [Insn(ir.code.op, ir.rd, ir.rs1, ir.rs2, ir.imm, ir.pc)];
    var next: IrNode? := ir.next;
    for j := 1 to count
      invariant fuse == block[..j]
      invariant next == if j < |nodes| then nodes[j] else null
    {
      fuse := fuse + [Insn(next.code.op, next.rd, next.rs1, next.rs2, next.imm, next.pc)];
      assert j + 1 < |nodes| ==> next.next == nodes[j + 1];
      next := next.next;
    }
  }

  /** The list without the `n - 1` nodes after the one at `at`. */
  ghost function Cut(nodes: seq<IrNode>, at: nat, n: nat): seq<IrNode>
    requires 1 <= n && at + n <= |nodes|
  {
    nodes[..at + 1] + nodes[at + n..]
  }

  lemma CutNone(nodes: seq<IrNode>, at: nat)
    requires at < |nodes|
    ensures Cut(nodes, at, 1) == nodes
  {}

  /** Unlinking the node after `at`, whose link then skips it. */
  lemma LinkedUnlink(nodes: seq<IrNode>, at: nat, left: seq<IrNode>)
    requires at + 1 < |nodes| && left == nodes[..at + 1] + nodes[at + 2..]
    requires forall a, b :: 0 <= a < b < |nodes| ==> nodes[a] != nodes[b]
    requires forall a, b :: 0 <= a < |nodes| && b == a + 1 && b < |nodes| && a != at ==> nodes[a].next == nodes[b]
    requires at + 2 < |nodes| ==> nodes[|nodes| - 1].next == null
    requires nodes[at].next == if at + 2 < |nodes| then nodes[at + 2] else null
    ensures Linked(left)
  {}

  /** One round of remove_next_nth_ir. */
  method Unlink(ir: IrNode, ghost nodes: seq<IrNode>, ghost at: nat) returns (ghost left: seq<IrNode>)
    requires Linked(nodes) && at + 1 < |nodes| && nodes[at] == ir
    modifies ir`next
    ensures left == nodes[..at + 1] + nodes[at + 2..] && Linked(left)
  {
    assert nodes[at].next == nodes[at + 1];
    assert at + 2 < |nodes| ==> nodes[at + 1].next == nodes[at + 2];
    ir.next := ir.next.next;
    left := nodes[..at + 1] + nodes[at + 2..];
    LinkedUnlink(nodes, at, left);
  }

  lemma LinkedEnd(nodes: seq<IrNode>, at: nat)
    requires Linked(nodes) && at < |nodes|
    ensures nodes[at].next == null <==> at == |nodes| - 1
  {
    assert at + 1 < |nodes| ==> nodes[at].next == nodes[at + 1];
  }

  /** remove_next_nth_ir: the tail and the number of instructions follow the list. */
  method RemoveNextNth(b: Block, ir: IrNode, n: nat, ghost at: nat)
    requires b.Valid() && at + n < |b.nodes| && b.nodes[at] == ir && n < 256
    modifies b, ir`next
    ensures b.Valid() && b.nodes == Cut(old(b.nodes), at, n + 1)
  {
    hide Linked;
    ghost var nodes := b.nodes;
    ghost var left := nodes;
    for i := 0 to n
      modifies ir`next
      invariant Linked(left) && left == nodes[..at + 1] + nodes[at + 1 + i..]
    {
      ghost var before := left;
      left := Unlink(ir, before, at);
      assert left == nodes[..at + 1] + nodes[at + 2 + i..];
    }
    LinkedEnd(left, at);
    if ir.next == null {
      b.tail := ir;
    }
    b.count := b.count - n;
    b.nodes := left;
  }

  function InsnOf(ir: IrNode): Insn
    reads ir
    requires ir.code.Plain?
  {
    Insn(ir.code.op, ir.rd, ir.rs1, ir.rs2, ir.imm, ir.pc)
  }

  /** LUI followed by ADD. */
  method FusePair(b: Block, ir: IrNode, next: IrNode, ghost at: nat, ghost block: seq<Insn>)
    requires b.Valid() && at + 1 < |b.nodes| && b.nodes[at] == ir && b.nodes[at + 1] == next
    requires |block| >= 2 && ir.Is(block[0]) && next.Is(block[1]) && AddsUp(block[0], block[1])
    modifies b, ir
    ensures b.Valid() && b.nodes == Cut(old(b.nodes), at, 2)
    ensures ir.View() == Paired(block[0], block[1])
  {
    ir.code := FusedLuiAdd;
    ir.rs2 := next.rd;
    ir.rs1 := if ir.rd == next.rs2 then next.rs1 else next.rs2;
    RemoveNextNth(b, ir, 1, at);
  }

  method Mark(ir: IrNode, kind: Kind, fuse: seq<Insn>, ghost nodes: seq<IrNode>)
    requires Linked(nodes)
    modifies ir
    ensures Linked(nodes) && ir.code == Fused(kind) && ir.fuse == fuse
  {
    ir.fuse := fuse;
    ir.code := Fused(kind);
  }

  /** A run of one kind: counted, its table filled, the rest of it removed. */
  method FuseRun(b: Block, ir: IrNode, kind: Kind, memory: bool, ghost at: nat, ghost block: seq<Insn>)
    returns (ghost n: nat)
    requires b.Valid() && at + 1 < |b.nodes| && b.nodes[at] == ir && Holds(b.nodes[at..], block)
    requires Joins(kind, block[0].op) && ir.Is(block[0]) && |block| == |b.nodes| - at
    modifies b, ir
    ensures n == (if memory then RunLength(kind, block) else 1) && 1 <= n <= |block|
    ensures b.Valid() && b.nodes == Cut(old(b.nodes), at, 1 + (n - 1) % 256)
    ensures ir.View() == if n == 1 then Single(block[0]) else Group(kind, block[..n])
  {
    hide Linked, Holds, Joins, RunLength, Cut;
    ghost var nodes := b.nodes;
    CutNone(nodes, at);
    LinkedSuffix(nodes, at);
    var count := CountRun(kind, ir, nodes[at..], block);
    n := if memory then count else 1;
    if count > 1 && memory {
      var fuse := CopyRun(ir, count, nodes[at..], block);
      Mark(ir, kind, fuse, nodes);
      RemoveNextNth(b, ir, (count - 1) % 256, at);
    }
  }

  lemma HeadOf(block: seq<Insn>, memory: bool, n: nat)
    requires |block| >= 2 && !AddsUp(block[0], block[1]) && Fusible(block[0].op)
    requires n == if memory then RunLength(KindOf(block[0].op), block) else 1
    ensures Consumed(block, memory) == 1 + (n - 1) % 256
    ensures Head(block, memory) == if n == 1 then Single(block[0]) else Group(KindOf(block[0].op), block[..n])
  {}

  lemma FirstTwo(nodes: seq<IrNode>, at: nat, block: seq<Insn>)
    requires Linked(nodes) && at + 1 < |nodes| && Holds(nodes[at..], block)
    ensures |block| == |nodes| - at && nodes[at].Is(block[0]) && nodes[at + 1].Is(block[1])
    ensures nodes[at].next == nodes[at + 1]
  {}

  /** The switch of match_pattern: `ir` takes in what follows it. */
  method FuseHead(b: Block, ir: IrNode, memory: bool, ghost at: nat, ghost block: seq<Insn>)
    requires b.Valid() && at + 1 < |b.nodes| && b.nodes[at] == ir && Holds(b.nodes[at..], block)
    modifies b, ir
    ensures b.Valid() && |block| == |old(b.nodes)| - at
    ensures b.nodes == Cut(old(b.nodes), at, Consumed(block, memory))
    ensures ir.View() == Head(block, memory)
  {
    FirstTwo(b.nodes, at, block);
    CutNone(b.nodes, at);
    hide Linked, Holds, RunLength, Cut;
    var i, next := InsnOf(ir), InsnOf(ir.next);
    if AddsUp(i, next) {
      FusePair(b, ir, ir.next, at, block);
    } else if Fusible(i.op) {
      ghost var n := FuseRun(b, ir, KindOf(i.op), memory, at, block);
      HeadOf(block, memory, n);
    }
  }

  /** One round of match_pattern: list, index and number of instructions stay in step. */
  method FuseAt(b: Block, ir: IrNode, memory: bool, ghost at: nat, ghost done: seq<Ir>, ghost block: seq<Insn>)
    returns (next: IrNode?)
    requires b.Valid() && at + 1 < |b.nodes| && b.nodes[at] == ir
    requires Shows(b.nodes[..at], done) && Holds(b.nodes[at..], block) && block != []
    modifies b, ir
    ensures b.Valid() && at < |b.nodes| && Consumed(block, memory) <= |block|
    ensures Shows(b.nodes[..at + 1], done + [Head(block, memory)])
    ensures Holds(b.nodes[at + 1..], block[Consumed(block, memory)..])
    ensures next == if at + 1 < |b.nodes| then b.nodes[at + 1] else null
    ensures forall x :: x in b.nodes ==> x in old(b.nodes)
    ensures |b.nodes| - (at + 1) == |block| - Consumed(block, memory)
  {
    hide Head, Consumed;
    ghost var nodes, c := b.nodes, Consumed(block, memory);
    ghost var front, back := nodes[..at], nodes[at..];
    assert ir !in front && ir !in back[c..] by { Apart(nodes, at, c); }
    FuseHead(b, ir, memory, at, block);
    assert b.nodes[..at + 1] == front + [ir] && b.nodes[at + 1..] == back[c..];
    assert Holds(back[c..], block[c..]);
    LinkedEnd(b.nodes, at);
    next := ir.next;
  }

  lemma Apart(nodes: seq<IrNode>, at: nat, c: nat)
    requires Linked(nodes) && at < |nodes| && 1 <= c <= |nodes| - at
    ensures nodes[at] !in nodes[..at] && nodes[at] !in nodes[at..][c..]
  {}

  lemma LastShown(nodes: seq<IrNode>, at: nat, done: seq<Ir>, block: seq<Insn>, round: nat, memory: nat -> bool)
    requires at <= |nodes| && Shows(nodes[..at], done) && Holds(nodes[at..], block) && |block| <= 1
    ensures Shows(nodes, done + Fuse(block, round, memory))
  {}

  /** After `round` rounds of match_pattern on `block`: the nodes before that index show
      what is done, the others hold what is left. */
  ghost predicate Halfway(nodes: seq<IrNode>, block: seq<Insn>, round: nat, memory: nat -> bool,
      done: seq<Ir>, rest: seq<Insn>)
    reads nodes
  {
    && round <= |nodes| && |rest| == |nodes| - round
    && Shows(nodes[..round], done) && Holds(nodes[round..], rest)
    && done + Fuse(rest, round, memory) == Fuse(block, 0, memory)
  }

  lemma HalfwayStart(nodes: seq<IrNode>, block: seq<Insn>, memory: nat -> bool)
    requires Holds(nodes, block)
    ensures Halfway(nodes, block, 0, memory, [], block)
  {}

  lemma HalfwayDone(nodes: seq<IrNode>, block: seq<Insn>, round: nat, memory: nat -> bool, done: seq<Ir>,
                    rest: seq<Insn>)
    requires Halfway(nodes, block, round, memory, done, rest) && |nodes| <= round + 1
    ensures Shows(nodes, Fuse(block, 0, memory))
  {
    LastShown(nodes, round, done, rest, round, memory);
  }

  lemma FuseUnfold(done: seq<Ir>, block: seq<Insn>, round: nat, memory: nat -> bool)
    requires block != []
    ensures done + Fuse(block, round, memory)
            == done + [Head(block, memory(round))] + Fuse(block[Consumed(block, memory(round))..], round + 1, memory)
  {}

  method Pattern(b: Block, ir: IrNode, i: nat, memory: nat -> bool,
                 ghost block: seq<Insn>, ghost done: seq<Ir>, ghost rest: seq<Insn>)
    returns (next: IrNode?, ghost done': seq<Ir>, ghost rest': seq<Insn>)
    requires b.Valid() && i + 1 < |b.nodes| && b.nodes[i] == ir && Halfway(b.nodes, block, i, memory, done, rest)
    modifies b, ir
    ensures b.Valid() && Halfway(b.nodes, block, i + 1, memory, done', rest')
    ensures next == if i + 1 < |b.nodes| then b.nodes[i + 1] else null
    ensures i < |b.nodes| <= |old(b.nodes)| && forall x :: x in b.nodes ==> x in old(b.nodes)
  {
    hide Fuse, Head, Consumed, Linked, Shows, Holds;
    FuseUnfold(done, rest, i, memory);
    next := FuseAt(b, ir, memory(i), i, done, rest);
    done', rest' := done + [Head(rest, memory(i))], rest[Consumed(rest, memory(i))..];
  }

  /** match_pattern: the list shows the fused block afterwards. */
  method MatchPattern(b: Block, memory: nat -> bool, ghost block: seq<Insn>)
    requires b.Valid() && Holds(b.nodes, block)
    modifies b, b.nodes
    ensures b.Valid() && Shows(b.nodes, Fuse(block, 0, memory))
  {
    hide Linked, Shows, Holds, Fuse, Halfway;
    var i, ir: IrNode? := 0, b.head;
    ghost var done: seq<Ir>, rest := [], block;
    HalfwayStart(b.nodes, block, memory);
    while i < b.count - 1
      invariant b.Valid() && i <= |b.nodes| && ir == if i < |b.nodes| then b.nodes[i] else null
      invariant forall x :: x in b.nodes ==> x in old(b.nodes)
      invariant Halfway(b.nodes, block, i, memory, done, rest)
      decreases b.count - i
    {
      assert ir in b.nodes;
      ir, done, rest := Pattern(b, ir, i, memory, block, done, rest);
      i := i + 1;
    }
    HalfwayDone(b.nodes, block, i, memory, done, rest);
  }
}
