/** The vector unit: 32 lanes of local registers, flags and a flag stack, updated lane by
    lane by each instruction. */
module Sfpu {
  import opened Words
  import opened SfpuLane

  const LANES: nat := 32

  type LaneId = k: nat | k < 32

  /** Registers 8, 10 and 11 hold the floating-point constants 0.8373, 1 and -1, register 15
      twice the number of the lane. */
  function Constant(r: Nibble, k: LaneId): Word {
    match r
    case 8 => 0x3f56_594b
    case 10 => 0x3f80_0000
    case 11 => 0xbf80_0000
    case 15 => 2 * k
    case _ => 0
  }

  function Start(k: LaneId): (l: Lane)
    ensures (forall r: Nibble :: l.data.x[r] == Constant(r, k)) && l.data.prng == 0 && l.flag && l.on && l.stack == []
  {
    Lane(Data(seq(16, r requires 0 <= r < 16 => Constant(r, k)), 0), true, true, [])
  }

  class VectorUnit {
    const lreg: array2<Word>
    const prng: array<Word>
    const laneFlags: array<bool>
    const useLaneFlags: array<bool>
    const stackFlags: array2<bool>
    const stackUse: array2<bool>
    var top: int
    ghost var lanes: seq<Lane>

    ghost predicate Shaped() {
      && lreg.Length0 == 16 && lreg.Length1 == LANES && prng.Length == LANES
      && laneFlags.Length == LANES && useLaneFlags.Length == LANES && laneFlags != useLaneFlags
      && stackFlags.Length0 == STACK_DEPTH && stackFlags.Length1 == LANES
      && stackUse.Length0 == STACK_DEPTH && stackUse.Length1 == LANES && stackUse != stackFlags
    }

    /** The arrays hold lane `k`, with `depth` entries of its stack. */
    ghost predicate Holds(k: LaneId, l: Lane)
      requires Shaped()
      reads lreg, prng, laneFlags, useLaneFlags, stackFlags, stackUse
    {
      && (forall r: Nibble :: lreg[r, k] == l.data.x[r])
      && prng[k] == l.data.prng && laneFlags[k] == l.flag && useLaneFlags[k] == l.on
      && |l.stack| <= STACK_DEPTH
      && (forall d: nat :: d < |l.stack| ==> stackFlags[d, k] == l.stack[d].flag && stackUse[d, k] == l.stack[d].on)
    }

    ghost predicate Valid()
      reads this, lreg, prng, laneFlags, useLaneFlags, stackFlags, stackUse
    {
      && Shaped() && |lanes| == LANES && -1 <= top < STACK_DEPTH
      && forall k: LaneId :: |lanes[k].stack| == top + 1 && Holds(k, lanes[k])
    }

    /** After power-on and the firmware's first instruction every lane is enabled and
        predication is on. */
    constructor ()
      ensures Valid() && |lanes| == LANES && forall k: LaneId :: lanes[k] == Start(k)
    {
      lreg := new Word[16, LANES]((r, k) => if 0 <= r < 16 && 0 <= k < LANES then Constant(r, k) else 0);
      prng := new Word[LANES](k => 0);
      laneFlags := new bool[LANES](k => true);
      useLaneFlags := new bool[LANES](k => true);
      stackFlags := new bool[STACK_DEPTH, LANES]((d, k) => false);
      stackUse := new bool[STACK_DEPTH, LANES]((d, k) => false);
      top := -1;
      lanes := seq(LANES, k requires 0 <= k < LANES => Start(k));
      new;
      assert forall k: LaneId :: Holds(k, Start(k));
    }

    ghost function Stepped(i: Insn, was: seq<Lane>): (now: seq<Lane>)
      requires |was| == LANES
      ensures |now| == LANES && forall k: LaneId :: now[k] == LaneStep(i, was[k])
    {
      seq(LANES, k requires 0 <= k < LANES => LaneStep(i, was[k]))
    }

    function RegsOf(k: LaneId): (x: LRegs)
      requires Shaped()
      reads lreg
      ensures forall r: Nibble :: x[r] == lreg[r, k]
    {
      seq(16, r requires Shaped() && 0 <= r < 16 reads lreg => lreg[r, k])
    }

    /** What one lane's share of an instruction leaves of the other lanes. */
    twostate predicate OthersKept(k: LaneId)
      requires Shaped()
      reads lreg, prng, laneFlags, useLaneFlags, stackFlags, stackUse
    {
      forall j: LaneId, m :: j != k && old(Holds(j, m)) ==> Holds(j, m)
    }

    method ComputeOne(op: LaneOp, k: LaneId, ghost l: Lane)
      requires Shaped() && Holds(k, l)
      modifies lreg, prng, laneFlags
      ensures Holds(k, ComputeLane(op, l)) && OthersKept(k)
    {
      hide Result, NextPrng, Bit;
      var acts := !useLaneFlags[k] || laneFlags[k] || (op.Mov? && op.mod1 == 2);
      if !acts { return; }
      var d := Data(RegsOf(k), prng[k]);
      assert d.x == l.data.x;
      if op.vd < 8 {
        lreg[op.vd, k] := Result(op, d);
      }
      if op.Iadd? && op.vd < 8 {
        laneFlags[k] := FlagAfter(op, d, laneFlags[k]);
      }
      if op.Mov? && op.vd < 12 && Bit(op.mod1, 8) && op.vc == 9 {
        prng[k] := NextPrng(d.prng);
      }
    }

    /** The computing instructions: one loop over the lanes. */
    method Compute(op: LaneOp)
      requires Valid()
      modifies this`lanes, lreg, prng, laneFlags
      ensures Valid() && top == old(top) && lanes == Stepped(Insn.Compute(op), old(lanes))
    {
      hide Computed, FlagAfter, Holds;
      ghost var was := lanes;
      for k := 0 to LANES
        modifies lreg, prng, laneFlags
        invariant forall j: LaneId :: Holds(j, if j < k then ComputeLane(op, was[j]) else was[j])
      {
        ComputeOne(op, k, was[k]);
      }
      lanes := Stepped(Insn.Compute(op), was);
    }

    method SetCcOne(c: Cond, k: LaneId, ghost l: Lane)
      requires Shaped() && Holds(k, l)
      modifies laneFlags
      ensures Holds(k, SetCcLane(c, l)) && OthersKept(k)
    {
      if c.vd >= 12 { return; }
      var enabled := !useLaneFlags[k] || laneFlags[k];
      if !enabled { return; }
      if !useLaneFlags[k] || Bit(c.mod1, 8) {
        laneFlags[k] := false;
      } else if Bit(c.mod1, 1) {
        laneFlags[k] := c.imm12 % 2 == 1;
      } else {
        var v := S32(lreg[c.vc, k]);
        match c.mod1 {
          case 0 => laneFlags[k] := v < 0;
          case 2 => laneFlags[k] := v != 0;
          case 4 => laneFlags[k] := v >= 0;
          case 6 => laneFlags[k] := v == 0;
          case _ =>
        }
      }
    }

    method SetCc(c: Cond)
      requires Valid()
      modifies this`lanes, laneFlags
      ensures Valid() && top == old(top) && lanes == Stepped(Insn.SetCc(c), old(lanes))
    {
      hide Test, Holds;
      ghost var was := lanes;
      for k := 0 to LANES
        modifies laneFlags
        invariant forall j: LaneId :: Holds(j, if j < k then SetCcLane(c, was[j]) else was[j])
      {
        SetCcOne(c, k, was[k]);
      }
      lanes := Stepped(Insn.SetCc(c), was);
    }

    method Invert(k: LaneId, ghost l: Lane)
      requires Shaped() && Holds(k, l)
      modifies laneFlags
      ensures Holds(k, l.(flag := !l.flag)) && laneFlags[k] == !l.flag && OthersKept(k)
    {
      laneFlags[k] := !laneFlags[k];
    }

    lemma Tops(stack: seq<Saved>, at: int)
      requires |stack| <= at + 1 <= |stack| + 1
      ensures at == |stack| ==> stack[..at] == stack
      ensures at >= 0 && at + 1 == |stack| ==> forall x :: stack[..at] + [x] == stack[at := x]
    {}

    /** Write the stack entry at the top. */
    method Save(k: LaneId, flag: bool, on: bool, ghost l: Lane)
      requires Shaped() && Holds(k, l) && 0 <= top < STACK_DEPTH && |l.stack| <= top + 1 <= |l.stack| + 1
      modifies stackFlags, stackUse
      ensures Holds(k, l.(stack := l.stack[..top] + [Saved(flag, on)])) && OthersKept(k)
    {
      stackFlags[top, k] := flag;
      stackUse[top, k] := on;
    }

    method PushCOne(vd: Nibble, mod1: Nibble, k: LaneId, ghost l: Lane)
      requires Shaped() && Holds(k, l) && -1 <= top < STACK_DEPTH
      requires top + 1 == |l.stack| + (if mod1 == 0 && vd < 12 && |l.stack| < STACK_DEPTH then 1 else 0)
      modifies laneFlags, stackFlags, stackUse
      ensures Holds(k, PushCLane(vd, mod1, l)) && OthersKept(k)
    {
      assert laneFlags[k] == l.flag && useLaneFlags[k] == l.on && |l.stack| <= STACK_DEPTH;
      assert top >= 0 && |l.stack| == top + 1 ==> stackFlags[top, k] == l.stack[top].flag;
      hide BooleanOp, Holds;
      if vd >= 12 { return; }
      Tops(l.stack, top);
      if mod1 == 0 {
        Save(k, laneFlags[k], useLaneFlags[k], l);
      } else if top >= 0 {
        if mod1 <= 12 {
          Save(k, BooleanOp(mod1, stackFlags[top, k], laneFlags[k]), useLaneFlags[k], l);
        } else if mod1 == 13 {
          Invert(k, l);
          Save(k, laneFlags[k], useLaneFlags[k], l.(flag := !l.flag));
        } else {
          Save(k, mod1 == 14, true, l);
        }
      }
    }

    method PushC(vd: Nibble, mod1: Nibble)
      requires Valid()
      modifies this`lanes, this`top, laneFlags, stackFlags, stackUse
      ensures Valid() && lanes == Stepped(Insn.PushC(vd, mod1), old(lanes))
    {
      hide BooleanOp, Holds;
      ghost var was := lanes;
      if mod1 == 0 && vd < 12 && top < STACK_DEPTH - 1 {
        top := top + 1;
      }
      for k := 0 to LANES
        modifies laneFlags, stackFlags, stackUse
        invariant forall j: LaneId :: Holds(j, if j < k then PushCLane(vd, mod1, was[j]) else was[j])
      {
        PushCOne(vd, mod1, k, was[k]);
      }
      lanes := Stepped(Insn.PushC(vd, mod1), was);
    }

    method PopCOne(vd: Nibble, mod1: Nibble, k: LaneId, ghost l: Lane)
      requires Shaped() && Holds(k, l) && -1 <= top < STACK_DEPTH && top + 1 == |l.stack|
      modifies laneFlags, useLaneFlags
      ensures Holds(k, PopCLane(vd, mod1, l)) && OthersKept(k)
    {
      hide BooleanOp;
      if vd >= 12 { return; }
      var topUse, topFlags := false, false;
      if top >= 0 {
        topUse, topFlags := stackUse[top, k], stackFlags[top, k];
      }
      if mod1 == 0 {
        useLaneFlags[k] := topUse;
        laneFlags[k] := topFlags;
      } else if mod1 <= 12 {
        useLaneFlags[k] := topUse;
        laneFlags[k] := BooleanOp(mod1, laneFlags[k], topFlags);
      } else if mod1 == 13 {
        laneFlags[k] := !laneFlags[k];
      } else {
        useLaneFlags[k] := true;
        laneFlags[k] := mod1 == 14;
      }
    }

    method PopC(vd: Nibble, mod1: Nibble)
      requires Valid()
      modifies this`lanes, this`top, laneFlags, useLaneFlags
      ensures Valid() && lanes == Stepped(Insn.PopC(vd, mod1), old(lanes))
    {
      hide BooleanOp, Holds;
      ghost var was := lanes;
      for k := 0 to LANES
        modifies laneFlags, useLaneFlags
        invariant forall j: LaneId :: Holds(j, if j < k then PopCLane(vd, mod1, was[j]) else was[j])
      {
        PopCOne(vd, mod1, k, was[k]);
      }
      if mod1 == 0 && top >= 0 {
        top := top - 1;
      }
      lanes := Stepped(Insn.PopC(vd, mod1), was);
    }

    method CompCOne(vd: Nibble, k: LaneId, ghost l: Lane)
      requires Shaped() && Holds(k, l) && -1 <= top < STACK_DEPTH && top + 1 == |l.stack|
      modifies laneFlags
      ensures Holds(k, CompCLane(vd, l)) && OthersKept(k)
    {
      if vd >= 12 { return; }
      var topUse, topFlags := true, true;
      if top >= 0 {
        topUse, topFlags := stackUse[top, k], stackFlags[top, k];
      }
      if topUse && useLaneFlags[k] {
        laneFlags[k] := topFlags && !laneFlags[k];
      } else {
        laneFlags[k] := false;
      }
    }

    method CompC(vd: Nibble)
      requires Valid()
      modifies this`lanes, laneFlags
      ensures Valid() && top == old(top) && lanes == Stepped(Insn.CompC(vd), old(lanes))
    {
      hide Holds;
      ghost var was := lanes;
      for k := 0 to LANES
        modifies laneFlags
        invariant forall j: LaneId :: Holds(j, if j < k then CompCLane(vd, was[j]) else was[j])
      {
        CompCOne(vd, k, was[k]);
      }
      lanes := Stepped(Insn.CompC(vd), was);
    }

    method Execute(i: Insn)
      requires Valid()
      modifies this`lanes, this`top, lreg, prng, laneFlags, useLaneFlags, stackFlags, stackUse
      ensures Valid() && lanes == Stepped(i, old(lanes))
    {
      match i {
        case Compute(op) => Compute(op);
        case SetCc(c) => SetCc(c);
        case PushC(vd, mod1) => PushC(vd, mod1);
        case PopC(vd, mod1) => PopC(vd, mod1);
        case CompC(vd) => CompC(vd);
      }
    }

    /** Instructions one after the other do to every lane what they do to it alone. */
    method Run(code: seq<Insn>)
      requires Valid()
      modifies this`lanes, this`top, lreg, prng, laneFlags, useLaneFlags, stackFlags, stackUse
      ensures Valid() && forall k: LaneId :: lanes[k] == LaneRun(code, old(lanes)[k])
    {
      hide LaneStep, Holds;
      ghost var was := lanes;
      for i := 0 to |code|
        invariant Valid() && forall k: LaneId :: LaneRun(code[i..], lanes[k]) == LaneRun(code, was[k])
      {
        assert code[i..][0] == code[i] && code[i..][1..] == code[i + 1..];
        Execute(code[i]);
      }
    }

    /** A structured program on the whole unit: every enabled lane takes its own branches,
        the others keep everything, and flags and stack are restored. */
    method RunStructured(p: Prog)
      requires Valid() && Structured(p) && top + 1 + Depth(p) <= STACK_DEPTH
      requires forall k: LaneId :: lanes[k].on
      modifies this`lanes, this`top, lreg, prng, laneFlags, useLaneFlags, stackFlags, stackUse
      ensures Valid() && top == old(top)
      ensures forall k: LaneId ::
                var l := old(lanes)[k];
                lanes[k] == if l.flag then l.(data := Scalar(p, l.data)) else l
    {
      hide Holds;
      forall k: LaneId { RunsAsScalar(p, lanes[k]); }
      Run(Code(p));
      assert |lanes[0].stack| == top + 1;
    }
  }
}
