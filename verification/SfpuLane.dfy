/** One lane of the vector unit: what each instruction does to it, and what a structured
    program of nested conditionals makes of it. */
module SfpuLane {
  import opened Powers
  import opened Words

  type Nibble = n: nat | n < 16
  type Imm12 = n: nat | n < 4096
  type LRegs = x: seq<Word> | |x| == 16 witness seq(16, _ => 0)

  const STACK_DEPTH: nat := 8

  /** The instructions that compute; `vc`, `vb` and `vd` name local registers. */
  datatype LaneOp =
    | Iadd(imm12: Imm12, vc: Nibble, vd: Nibble, mod1: Nibble)
    | Shft(imm12: Imm12, vc: Nibble, vd: Nibble, mod1: Nibble)
    | Mov(vc: Nibble, vd: Nibble, mod1: Nibble)
    | Abs(vc: Nibble, vd: Nibble, mod1: Nibble)
    | AndOp(vb: Nibble, vc: Nibble, vd: Nibble, mod1: Nibble)
    | OrOp(vb: Nibble, vc: Nibble, vd: Nibble, mod1: Nibble)
    | XorOp(vc: Nibble, vd: Nibble)
    | NotOp(vc: Nibble, vd: Nibble)

  datatype Cond = Cond(imm12: Imm12, vc: Nibble, vd: Nibble, mod1: Nibble)

  datatype Insn =
    | Compute(op: LaneOp)
    | SetCc(cond: Cond)
    | PushC(vd: Nibble, mod1: Nibble)
    | PopC(vd: Nibble, mod1: Nibble)
    | CompC(vd: Nibble)

  datatype Data = Data(x: LRegs, prng: Word)

  datatype Saved = Saved(flag: bool, on: bool)

  /** `flag` is the lane's flag, `on` says whether flags decide which lanes are enabled. */
  datatype Lane = Lane(data: Data, flag: bool, on: bool, stack: seq<Saved>)

  // ------------------------------------------------ instructions on one lane

  /** Bit `k` of a modifier, `k` given as its weight. */
  predicate Bit(m: nat, weight: nat)
    requires weight > 0
  {
    m / weight % 2 == 1
  }

  predicate Enabled(l: Lane) { !l.on || l.flag }

  function Signed12(imm: Imm12): int { if imm >= 2048 then imm - 4096 else imm }

  function NextPrng(r: Word): Word {
    var taps := r / 0x8000_0000 + r / 0x20_0000 % 2 + r / 2 % 2 + r % 2;
    (if taps % 2 == 0 then 0x8000_0000 else 0) + r / 2
  }

  function Shifted(val: Word, shift: int, arithmetic: bool): Word {
    if shift >= 0 then Shl(val, shift % 32)
    else if arithmetic then U32(Sar(val, (-shift) % 32))
    else U32(Shr(val, (-shift) % 32))
  }

  function Magnitude(v: Word, float: bool): Word {
    if v < 0x8000_0000 then v
    else if !float then U32(W32 - v)
    else if v <= 0xff80_0000 then v - 0x8000_0000
    else v
  }

  /** The result of an instruction in a lane that carries it out. */
  function Result(op: LaneOp, d: Data): Word {
    match op
    case Iadd(imm12, vc, vd, mod1) =>
      if Bit(mod1, 1) then U32(d.x[vc] + Signed12(imm12))
      else if Bit(mod1, 2) then U32(d.x[vc] as int - d.x[vd])
      else U32(d.x[vc] as int + d.x[vd])
    case Shft(imm12, vc, vd, mod1) =>
      var val := if Bit(mod1, 1) && Bit(mod1, 4) then d.x[vc] else d.x[vd];
      Shifted(val, if Bit(mod1, 1) then Signed12(imm12) else S32(d.x[vc]), Bit(mod1, 2))
    case Mov(vc, vd, mod1) =>
      if Bit(mod1, 8) then (if vc == 9 then d.prng else 0)
      else if Bit(mod1, 1) then Xor(d.x[vc], 0x8000_0000)
      else d.x[vc]
    case Abs(vc, vd, mod1) => Magnitude(d.x[vc], Bit(mod1, 1))
    case AndOp(vb, vc, vd, mod1) => And(d.x[if Bit(mod1, 1) then vb else vd], d.x[vc])
    case OrOp(vb, vc, vd, mod1) => Or(d.x[if Bit(mod1, 1) then vb else vd], d.x[vc])
    case XorOp(vc, vd) => Xor(d.x[vd], d.x[vc])
    case NotOp(vc, vd) => W32 - 1 - d.x[vc]
  }

  /** The lane's data after it has carried out an instruction. A move with a destination
      from 8 to 11 writes nothing but still draws its random number. */
  function Computed(op: LaneOp, d: Data): Data {
    var prng := if op.Mov? && op.vd < 12 && Bit(op.mod1, 8) && op.vc == 9 then NextPrng(d.prng) else d.prng;
    Data(if op.vd < 8 then d.x[op.vd := Result(op, d)] else d.x, prng)
  }

  /** Only an integer add changes the flag. */
  function FlagAfter(op: LaneOp, d: Data, flag: bool): bool {
    if !op.Iadd? || op.vd >= 8 then flag
    else
      var f := if Bit(op.mod1, 4) then flag else S32(Result(op, d)) < 0;
      if Bit(op.mod1, 8) then !f else f
  }

  /** A move can be told to ignore the flags. */
  predicate Acts(op: LaneOp, l: Lane) { Enabled(l) || (op.Mov? && op.mod1 == 2) }

  function ComputeLane(op: LaneOp, l: Lane): Lane {
    if Acts(op, l) then l.(data := Computed(op, l.data), flag := FlagAfter(op, l.data, l.flag)) else l
  }

  /** The flag an enabled lane gets from SFPSETCC. */
  predicate Test(c: Cond, d: Data) {
    if c.vd >= 12 then true
    else if Bit(c.mod1, 8) then false
    else if Bit(c.mod1, 1) then c.imm12 % 2 == 1
    else
      var v := S32(d.x[c.vc]);
      match c.mod1
      case 0 => v < 0
      case 2 => v != 0
      case 4 => v >= 0
      case _ => v == 0
  }

  /** The tests of a register as its word: negative, not zero, not negative, zero. */
  lemma TestMeans(vc: Nibble, vd: Nibble, imm12: Imm12, d: Data)
    requires vd < 12
    ensures Test(Cond(imm12, vc, vd, 0), d) <==> d.x[vc] >= 0x8000_0000
    ensures Test(Cond(imm12, vc, vd, 2), d) <==> d.x[vc] != 0
    ensures Test(Cond(imm12, vc, vd, 4), d) <==> d.x[vc] < 0x8000_0000
    ensures Test(Cond(imm12, vc, vd, 6), d) <==> d.x[vc] == 0
    ensures Test(Cond(imm12, vc, vd, 1), d) <==> Odd(imm12)
    ensures !Test(Cond(imm12, vc, vd, 8), d)
  {}

  function SetCcLane(c: Cond, l: Lane): Lane {
    if c.vd >= 12 || !Enabled(l) then l
    else l.(flag := l.on && Test(c, l.data))
  }

  function BooleanOp(mod1: Nibble, a: bool, b: bool): bool {
    match mod1
    case 1 => b
    case 2 => !b
    case 3 => a && b
    case 4 => a || b
    case 5 => a && !b
    case 6 => a || !b
    case 7 => !a && b
    case 8 => !a || b
    case 9 => !a && !b
    case 10 => !a || !b
    case 11 => a != b
    case 12 => a == b
    case _ => false
  }

  /** The sixteen ways to combine two flags, as truth tables: bit 2a + b of the number. */
  const TABLES: seq<nat> := [0, 10, 5, 8, 14, 4, 13, 2, 11, 1, 7, 6, 9, 0, 0, 0]

  lemma BooleanTable(mod1: Nibble, a: bool, b: bool)
    ensures BooleanOp(mod1, a, b) <==> BitAt(TABLES[mod1], (if a then 2 else 0) + if b then 1 else 0)
  {
    BitsBelow(TABLES[mod1]);
  }

  lemma BitsBelow(t: nat)
    ensures BitAt(t, 0) == Odd(t) && BitAt(t, 1) == Odd(t / 2) && BitAt(t, 2) == Odd(t / 2 / 2)
    ensures BitAt(t, 3) == Odd(t / 2 / 2 / 2)
  {}

  /** A push on a full stack replaces the top. */
  function PushCLane(vd: Nibble, mod1: Nibble, l: Lane): Lane {
    var n := |l.stack|;
    if vd >= 12 then l
    else if mod1 == 0 then
      if n < STACK_DEPTH then l.(stack := l.stack + [Saved(l.flag, l.on)])
      else l.(stack := l.stack[n - 1 := Saved(l.flag, l.on)])
    else if n == 0 then l
    else if mod1 <= 12 then
      l.(stack := l.stack[n - 1 := Saved(BooleanOp(mod1, l.stack[n - 1].flag, l.flag), l.on)])
    else if mod1 == 13 then
      l.(flag := !l.flag, stack := l.stack[n - 1 := Saved(!l.flag, l.on)])
    else
      l.(stack := l.stack[n - 1 := Saved(mod1 == 14, true)])
  }

  /** A pop from an empty stack clears both flags. */
  function PopCLane(vd: Nibble, mod1: Nibble, l: Lane): Lane {
    var n := |l.stack|;
    var top := if n == 0 then Saved(false, false) else l.stack[n - 1];
    var stack := if mod1 == 0 && n > 0 then l.stack[..n - 1] else l.stack;
    if vd >= 12 then l.(stack := stack)
    else if mod1 == 0 then l.(flag := top.flag, on := top.on, stack := stack)
    else if mod1 <= 12 then l.(flag := BooleanOp(mod1, l.flag, top.flag), on := top.on)
    else if mod1 == 13 then l.(flag := !l.flag)
    else l.(flag := mod1 == 14, on := true)
  }

  function CompCLane(vd: Nibble, l: Lane): Lane {
    var n := |l.stack|;
    var top := if n == 0 then Saved(true, true) else l.stack[n - 1];
    if vd >= 12 then l
    else l.(flag := top.on && l.on && top.flag && !l.flag)
  }

  function LaneStep(i: Insn, l: Lane): Lane {
    match i
    case Compute(op) => ComputeLane(op, l)
    case SetCc(c) => SetCcLane(c, l)
    case PushC(vd, mod1) => PushCLane(vd, mod1, l)
    case PopC(vd, mod1) => PopCLane(vd, mod1, l)
    case CompC(vd) => CompCLane(vd, l)
  }

  function LaneRun(code: seq<Insn>, l: Lane): Lane {
    if code == [] then l else LaneRun(code[1..], LaneStep(code[0], l))
  }

  lemma {:induction false} LaneRunConcat(a: seq<Insn>, b: seq<Insn>, l: Lane)
    ensures LaneRun(a + b, l) == LaneRun(b, LaneRun(a, l))
  {
    if a == [] {
      assert a + b == b;
    } else {
      assert (a + b)[0] == a[0] && (a + b)[1..] == a[1..] + b;
      LaneRunConcat(a[1..], b, LaneStep(a[0], l));
    }
  }

  // ------------------------------------------------ structured programs

  /** Straight-line code and conditionals; a condition is a conjunction of tests. */
  datatype Prog =
    | Do(op: LaneOp)
    | Then(first: Prog, second: Prog)
    | If(tests: seq<Cond>, yes: Prog, no: Prog)

  /** Its computing instructions leave the flags alone. */
  predicate Neutral(op: LaneOp) {
    match op
    case Iadd(_, _, vd, mod1) => vd >= 8 || (Bit(mod1, 4) && !Bit(mod1, 8))
    case Mov(_, _, mod1) => mod1 != 2
    case _ => true
  }

  predicate Structured(p: Prog) {
    match p
    case Do(op) => Neutral(op)
    case Then(a, b) => Structured(a) && Structured(b)
    case If(_, a, b) => Structured(a) && Structured(b)
  }

  function Depth(p: Prog): nat {
    match p
    case Do(_) => 0
    case Then(a, b) => if Depth(a) > Depth(b) then Depth(a) else Depth(b)
    case If(_, a, b) => 1 + if Depth(a) > Depth(b) then Depth(a) else Depth(b)
  }

  function Tests(tests: seq<Cond>): seq<Insn> {
    seq(|tests|, j requires 0 <= j < |tests| => SetCc(tests[j]))
  }

  function Code(p: Prog): seq<Insn> {
    match p
    case Do(op) => [Compute(op)]
    case Then(a, b) => Code(a) + Code(b)
    case If(tests, a, b) => [PushC(0, 0)] + Tests(tests) + Code(a) + [CompC(0)] + Code(b) + [PopC(0, 0)]
  }

  predicate All(tests: seq<Cond>, d: Data) {
    forall j :: 0 <= j < |tests| ==> Test(tests[j], d)
  }

  /** The program run on the data of one lane alone, as ordinary control flow. */
  function Scalar(p: Prog, d: Data): Data {
    match p
    case Do(op) => Computed(op, d)
    case Then(a, b) => Scalar(b, Scalar(a, d))
    case If(tests, a, b) => if All(tests, d) then Scalar(a, d) else Scalar(b, d)
  }

  /** The same program with the flags switched off: both branches run. */
  function Unpredicated(p: Prog, d: Data): Data {
    match p
    case Do(op) => Computed(op, d)
    case Then(a, b) => Unpredicated(b, Unpredicated(a, d))
    case If(_, a, b) => Unpredicated(b, Unpredicated(a, d))
  }

  /** The code of a conditional, piece by piece. */
  lemma IfRun(tests: seq<Cond>, a: Prog, b: Prog, l: Lane)
    ensures LaneRun(Code(If(tests, a, b)), l)
            == var tested := LaneRun(Tests(tests), PushCLane(0, 0, l));
               PopCLane(0, 0, LaneRun(Code(b), CompCLane(0, LaneRun(Code(a), tested))))
  {
    hide LaneRun, PushCLane, PopCLane, CompCLane, Tests;
    var push, comp, pop := [PushC(0, 0)], [CompC(0)], [PopC(0, 0)];
    var c1 := push + Tests(tests);
    var c2 := c1 + Code(a);
    var c3 := c2 + comp;
    var c4 := c3 + Code(b);
    LaneRunConcat(push, Tests(tests), l);
    LaneRunConcat(c1, Code(a), l);
    LaneRunConcat(c2, comp, l);
    LaneRunConcat(c3, Code(b), l);
    LaneRunConcat(c4, pop, l);
    One(PushC(0, 0), l);
    One(CompC(0), LaneRun(c2, l));
    One(PopC(0, 0), LaneRun(c4, l));
  }

  lemma One(i: Insn, l: Lane)
    ensures LaneRun([i], l) == LaneStep(i, l)
  {}

  /** A row of SFPSETCC narrows the enabled lanes to those that pass every test. */
  lemma {:induction false} TestsRun(tests: seq<Cond>, l: Lane)
    ensures LaneRun(Tests(tests), l)
            == l.(flag := if l.on then l.flag && All(tests, l.data)
                          else l.flag && forall j :: 0 <= j < |tests| ==> tests[j].vd >= 12)
  {
    if tests != [] {
      var code, rest := Tests(tests), tests[1..];
      assert code[0] == SetCc(tests[0]) && code[1..] == Tests(rest);
      assert tests == [tests[0]] + rest;
      TestsRun(rest, LaneStep(code[0], l));
      assert All(tests, l.data) <==> Test(tests[0], l.data) && All(rest, l.data);
    }
  }

  /** With predication on and room on the stack, a lane that is enabled ends as the
      scalar run of its own data ends, a disabled lane does not change at all, and
      flags and stack are as they were. */
  lemma {:induction false} RunsAsScalar(p: Prog, l: Lane)
    requires Structured(p) && l.on && |l.stack| + Depth(p) <= STACK_DEPTH
    ensures LaneRun(Code(p), l) == if l.flag then l.(data := Scalar(p, l.data)) else l
  {
    match p
    case Do(op) =>
      One(Compute(op), l);
    case Then(a, b) =>
      LaneRunConcat(Code(a), Code(b), l);
      RunsAsScalar(a, l);
      RunsAsScalar(b, LaneRun(Code(a), l));
    case If(tests, a, b) =>
      IfRun(tests, a, b, l);
      var l1 := PushCLane(0, 0, l);
      TestsRun(tests, l1);
      var l2 := LaneRun(Tests(tests), l1);
      RunsAsScalar(a, l2);
      var l3 := CompCLane(0, LaneRun(Code(a), l2));
      RunsAsScalar(b, l3);
  }

  /** With predication off SFPSETCC disables nothing, so both branches run. */
  lemma {:induction false} RunsUnpredicated(p: Prog, l: Lane)
    requires Structured(p) && !l.on && |l.stack| + Depth(p) <= STACK_DEPTH
    ensures LaneRun(Code(p), l) == l.(data := Unpredicated(p, l.data))
  {
    match p
    case Do(op) =>
      One(Compute(op), l);
    case Then(a, b) =>
      LaneRunConcat(Code(a), Code(b), l);
      RunsUnpredicated(a, l);
      RunsUnpredicated(b, LaneRun(Code(a), l));
    case If(tests, a, b) =>
      IfRun(tests, a, b, l);
      var l1 := PushCLane(0, 0, l);
      TestsRun(tests, l1);
      var l2 := LaneRun(Tests(tests), l1);
      RunsUnpredicated(a, l2);
      RunsUnpredicated(b, CompCLane(0, LaneRun(Code(a), l2)));
  }

  // ------------------------------------------------ too deep a nesting

  /** Predication is off, and stays off whatever is popped. */
  predicate Off(l: Lane) {
    !l.on && forall d :: 0 <= d < |l.stack| ==> !l.stack[d].on
  }

  lemma {:induction false} StaysOff(p: Prog, l: Lane)
    requires Structured(p) && Off(l)
    ensures Off(LaneRun(Code(p), l))
  {
    match p
    case Do(op) =>
      One(Compute(op), l);
    case Then(a, b) =>
      LaneRunConcat(Code(a), Code(b), l);
      StaysOff(a, l);
      StaysOff(b, LaneRun(Code(a), l));
    case If(tests, a, b) =>
      IfRun(tests, a, b, l);
      var l1 := PushCLane(0, 0, l);
      TestsRun(tests, l1);
      var l2 := LaneRun(Tests(tests), l1);
      StaysOff(a, l2);
      StaysOff(b, CompCLane(0, LaneRun(Code(a), l2)));
  }

  /** A program never leaves more on the stack than it found. */
  lemma {:induction false} NeverGrows(p: Prog, l: Lane)
    requires |l.stack| <= STACK_DEPTH
    ensures |LaneRun(Code(p), l).stack| <= |l.stack|
  {
    match p
    case Do(op) =>
      One(Compute(op), l);
    case Then(a, b) =>
      LaneRunConcat(Code(a), Code(b), l);
      NeverGrows(a, l);
      NeverGrows(b, LaneRun(Code(a), l));
    case If(tests, a, b) =>
      IfRun(tests, a, b, l);
      var l1 := PushCLane(0, 0, l);
      TestsRun(tests, l1);
      var l2 := LaneRun(Tests(tests), l1);
      NeverGrows(a, l2);
      NeverGrows(b, CompCLane(0, LaneRun(Code(a), l2)));
  }

  /** A push is lost: fewer entries are left, or predication has been switched off. */
  predicate Sunk(l: Lane, before: nat) {
    |l.stack| < before || (before == 0 && l.stack == [] && Off(l))
  }

  lemma SinkOnPop(l: Lane, before: nat)
    requires |l.stack| <= before
    ensures Sunk(PopCLane(0, 0, l), before)
  {}

  lemma {:induction false} TooDeep(p: Prog, l: Lane)
    requires Structured(p) && |l.stack| <= STACK_DEPTH < |l.stack| + Depth(p)
    ensures Sunk(LaneRun(Code(p), l), |l.stack|)
  {
    var n := |l.stack|;
    match p
    case Then(a, b) =>
      LaneRunConcat(Code(a), Code(b), l);
      NeverGrows(a, l);
      var m := LaneRun(Code(a), l);
      NeverGrows(b, m);
      if n + Depth(a) > STACK_DEPTH {
        TooDeep(a, l);
        if n == 0 { StaysOff(b, m); }
      } else if |m.stack| == n {
        TooDeep(b, m);
      }
    case If(tests, a, b) =>
      IfRun(tests, a, b, l);
      var l1 := PushCLane(0, 0, l);
      TestsRun(tests, l1);
      var l2 := LaneRun(Tests(tests), l1);
      var l3 := CompCLane(0, LaneRun(Code(a), l2));
      var l4 := LaneRun(Code(b), l3);
      NeverGrows(a, l2);
      NeverGrows(b, l3);
      if n < STACK_DEPTH {
        if n + 1 + Depth(a) > STACK_DEPTH {
          TooDeep(a, l2);
        } else if |l3.stack| == n + 1 {
          TooDeep(b, l3);
        }
      }
      SinkOnPop(l4, n);
  }

  /** So the nesting depth that fits the stack is exactly the one that works. */
  lemma WorksIffItFits(p: Prog, l: Lane)
    requires Structured(p) && l.on && |l.stack| <= STACK_DEPTH
    ensures |l.stack| + Depth(p) <= STACK_DEPTH
            <==> LaneRun(Code(p), l) == if l.flag then l.(data := Scalar(p, l.data)) else l
  {
    if |l.stack| + Depth(p) <= STACK_DEPTH {
      RunsAsScalar(p, l);
    } else {
      TooDeep(p, l);
    }
  }

  // ------------------------------------------------ what the arithmetic amounts to

  /** SFPABS of an integer: its magnitude, except that -2^31 stays. */
  lemma AbsMeans(r: Nibble, vd: Nibble, d: Data)
    ensures var v := S32(d.x[r]);
            S32(Result(Abs(r, vd, 0), d)) == if v == -0x8000_0000 then v else if v < 0 then -v else v
  {}

  /** If the register is negative, invert it and add one. */
  function Negate(r: Nibble): Prog {
    If([Cond(0, r, 0, 0)], Then(Do(NotOp(r, r)), Do(Iadd(1, r, r, 5))), Do(Mov(r, r, 0)))
  }

  lemma NegateScalar(r: Nibble, d: Data)
    requires r < 8
    ensures Scalar(Negate(r), d) == Computed(Abs(r, r, 0), d)
  {
    var c := Cond(0, r, 0, 0);
    TestMeans(r, 0, 0, d);
    assert All([c], d) <==> Test(c, d) by { assert [c][0] == c; }
    var d1 := Computed(NotOp(r, r), d);
    assert d1.x[r] == W32 - 1 - d.x[r] && d1.prng == d.prng;
    var d2 := Computed(Iadd(1, r, r, 5), d1);
    assert d2.x[r] == U32(W32 - d.x[r]) && d2.x == d.x[r := d2.x[r]];
    assert Computed(Mov(r, r, 0), d) == d;
    NegateParts(r, d);
  }

  lemma NegateParts(r: Nibble, d: Data)
    ensures Structured(Negate(r)) <==> Neutral(NotOp(r, r)) && Neutral(Iadd(1, r, r, 5)) && Neutral(Mov(r, r, 0))
    ensures Depth(Negate(r)) == 1
    ensures Scalar(Negate(r), d) ==
            if All([Cond(0, r, 0, 0)], d) then Computed(Iadd(1, r, r, 5), Computed(NotOp(r, r), d))
            else Computed(Mov(r, r, 0), d)
  {
    hide Computed, All, Neutral;
    var first, second, both := Do(NotOp(r, r)), Do(Iadd(1, r, r, 5)), Then(Do(NotOp(r, r)), Do(Iadd(1, r, r, 5)));
    assert Structured(both) <==> Neutral(NotOp(r, r)) && Neutral(Iadd(1, r, r, 5));
    assert Depth(both) == 0;
    assert Scalar(both, d) == Computed(Iadd(1, r, r, 5), Computed(NotOp(r, r), d));
  }

  /** On a lane that is enabled this conditional leaves what SFPABS leaves. */
  lemma NegateIsAbs(r: Nibble, l: Lane)
    requires r < 8 && l.on && |l.stack| < STACK_DEPTH
    ensures LaneRun(Code(Negate(r)), l) == LaneRun([Compute(Abs(r, r, 0))], l)
  {
    NegateScalar(r, l.data);
    NegateParts(r, l.data);
    hide Scalar, Code, Computed;
    RunsAsScalar(Negate(r), l);
    One(Compute(Abs(r, r, 0)), l);
  }

  /** Adding and subtracting: what one adds the other takes away again. */
  lemma AddThenSubtract(vc: Nibble, vd: Nibble, d: Data)
    requires vc != vd && vd < 8
    ensures var sum := Computed(Iadd(0, vc, vd, 4), d);
            var back := Computed(Iadd(0, vc, vd, 6), sum);
            && sum.x[vd] == (d.x[vc] as int + d.x[vd]) % W32
            && (back.x[vd] as int + d.x[vd]) % W32 == 0
  {}

  /** SFPSHFT by an immediate: a product modulo 2^32, or a quotient rounded down. */
  lemma ShiftMeans(n: nat, vc: Nibble, vd: Nibble, d: Data)
    requires 0 < n < 32 && vd < 8
    ensures Result(Shft(n, vc, vd, 1), d) == (d.x[vd] * Pow2(n)) % W32
    ensures Result(Shft(4096 - n, vc, vd, 1), d) == d.x[vd] / Pow2(n)
    ensures Result(Shft(4096 - n, vc, vd, 3), d) == U32(S32(d.x[vd]) / Pow2(n))
  {
    assert Signed12(n) == n && Signed12(4096 - n) + n == 0 && n % 32 == n;
    QuotientSmall(d.x[vd], Pow2(n));
    hide Pow2, S32;
  }

  lemma QuotientSmall(a: Word, p: nat)
    requires p >= 1
    ensures U32(a / p) == a / p
  {
    assert 0 <= a / p <= a;
  }

  /** Conditionals nested `n` deep around one negation. */
  function Nested(n: nat): Prog {
    if n == 0 then Do(NotOp(0, 1)) else If([], Nested(n - 1), Do(NotOp(0, 2)))
  }

  lemma {:induction false} NestedDepth(n: nat)
    ensures Structured(Nested(n)) && Depth(Nested(n)) == n
  {
    if n > 0 { NestedDepth(n - 1); }
  }

  /** For instance: from an empty stack eight conditionals work, nine do not. */
  lemma NineFail(data: Data)
    ensures var l := Lane(data, true, true, []);
            && LaneRun(Code(Nested(8)), l) == l.(data := Scalar(Nested(8), data))
            && LaneRun(Code(Nested(9)), l) != l.(data := Scalar(Nested(9), data))
  {
    hide Nested, Code, LaneRun, Scalar;
    NestedDepth(8);
    NestedDepth(9);
    WorksIffItFits(Nested(8), Lane(data, true, true, []));
    WorksIffItFits(Nested(9), Lane(data, true, true, []));
  }
}
