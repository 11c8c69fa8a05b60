/** The macro-operation expander: nine configuration words become a sequence of instructions,
    generated one at a time. */
module Mop {
  import opened Powers
  import opened Words
  import opened Encoding

  type Insn = Word

  type Config = cfg: seq<Insn> | |cfg| == 9 witness seq(9, _ => 0)

  predicate IsNop(insn: Insn) { Opcode(insn) == 0x02 }

  /** The fields of a MOP instruction. */
  predicate FirstTemplate(param: Insn) { param / 0x80_0000 % 2 == 0 }

  function CountOf(param: Insn): nat { param / 0x1_0000 % 128 + 1 }

  function MaskOf(param: Insn, zmaskHi: nat): nat { zmaskHi % 0x1_0000 * 0x1_0000 + param % 0x1_0000 }

  /** A MOP whose template bit, count and mask fields hold given values. */
  function MopParam(second: bool, count: nat, mask: nat): Insn
    requires 1 <= count <= 128 && mask < 0x1_0000
  {
    (if second then 0x80_0000 else 0) + (count - 1) * 0x1_0000 + mask
  }

  /** The fields are read back from it; the upper half of the mask comes from MOP_CFG. */
  lemma MopFields(second: bool, count: nat, mask: nat, zmaskHi: nat)
    requires 1 <= count <= 128 && mask < 0x1_0000 && zmaskHi < 0x1_0000
    ensures var param := MopParam(second, count, mask);
            && FirstTemplate(param) == !second && CountOf(param) == count
            && MaskOf(param, zmaskHi) / 0x1_0000 == zmaskHi && MaskOf(param, zmaskHi) % 0x1_0000 == mask
  {
    var param := MopParam(second, count, mask);
    assert param / 0x80_0000 == if second then 1 else 0;
    assert param / 0x1_0000 == (if second then 128 else 0) + (count - 1);
    assert param % 0x1_0000 == mask;
  }

  // ------------------------------------------------ template 1: two nested loops

  datatype Phase = Start | Inner | End0 | End1

  datatype T1 = T1(j: nat, i: nat, outer: nat, inner: nat, phase: Phase, loopOp: Insn, flip: Insn)

  function Unless(insn: Insn): seq<Insn> { if IsNop(insn) then [] else [insn] }

  /** The last inner operation of an outer round is cfg[8], in the last round cfg[7]. */
  function LastOp(cfg: Config, j: nat, outer: nat): Insn {
    if j + 1 != outer then cfg[8] else cfg[7]
  }

  /** One pass through the generator's switch: the new state and what it emits. */
  function Advance(cfg: Config, st: T1): (r: (T1, seq<Insn>))
    ensures |r.1| <= 1
    ensures r.0.outer == st.outer && r.0.inner == st.inner && r.0.flip == st.flip
    ensures r.0.j == st.j + 1 || (r.0.j == st.j && PhasesLeft(r.0.phase) < PhasesLeft(st.phase))
            || (r.0.j == st.j && r.0.phase == st.phase && st.i < r.0.i <= st.inner)
  {
    match st.phase
    case Start => (st.(phase := Inner, i := 0), Unless(cfg[2]))
    case Inner =>
      if st.i < st.inner then
        (st.(i := st.i + 1, loopOp := Xor(st.loopOp, st.flip)),
         [if st.i + 1 != st.inner then st.loopOp else LastOp(cfg, st.j, st.outer)])
      else (st.(phase := End0), [])
    case End0 => (st.(phase := End1), Unless(cfg[3]))
    case End1 => (st.(j := st.j + 1, phase := Start), Unless(cfg[4]))
  }

  function PhasesLeft(phase: Phase): nat {
    match phase case Start => 3 case Inner => 2 case End0 => 1 case End1 => 0
  }

  /** What the generator has still to emit. */
  function Rest1(cfg: Config, st: T1): seq<Insn>
    decreases st.outer - st.j, PhasesLeft(st.phase), st.inner - st.i
  {
    if st.j >= st.outer then [] else Advance(cfg, st).1 + Rest1(cfg, Advance(cfg, st).0)
  }

  function Low7(insn: Insn): nat { insn % 128 }

  /** The number of inner operations: doubled when a second loop operation is configured. */
  function InnerCount(cfg: Config): nat { if IsNop(cfg[6]) then Low7(cfg[1]) else 2 * Low7(cfg[1]) }

  /** One outer round that would only emit its end operation becomes 129 rounds. */
  function OuterCount(cfg: Config): nat {
    if Low7(cfg[0]) == 1 && IsNop(cfg[2]) && InnerCount(cfg) == 0 && !IsNop(cfg[3]) then 129 else Low7(cfg[0])
  }

  function Begin1(cfg: Config): T1 {
    T1(0, 0, OuterCount(cfg), InnerCount(cfg), Start, cfg[5], Flip(cfg[5], cfg[6], IsNop(cfg[6])))
  }

  /** The loops written out: every inner operation named by its position. */
  function InnerOp(cfg: Config, j: nat, k: nat): Insn {
    if k + 1 == InnerCount(cfg) then (if j + 1 == OuterCount(cfg) then cfg[7] else cfg[8])
    else if IsNop(cfg[6]) || k % 2 == 0 then cfg[5]
    else cfg[6]
  }

  function InnerLoop(cfg: Config, j: nat, k: nat): seq<Insn>
    requires k <= InnerCount(cfg)
    decreases InnerCount(cfg) - k
  {
    if k == InnerCount(cfg) then [] else [InnerOp(cfg, j, k)] + InnerLoop(cfg, j, k + 1)
  }

  function OuterLoop(cfg: Config, j: nat): seq<Insn>
    requires j <= OuterCount(cfg)
    decreases OuterCount(cfg) - j
  {
    if j == OuterCount(cfg) then []
    else Unless(cfg[2]) + (InnerLoop(cfg, j, 0) + (Unless(cfg[3]) + (Unless(cfg[4]) + OuterLoop(cfg, j + 1))))
  }

  /** The loop operation alternates; it is back at cfg[5] after every inner loop, because
      the number of flips is even. */
  function LoopOpAt(cfg: Config, k: nat): Insn { Alternate(cfg[5], cfg[6], IsNop(cfg[6]), k) }

  function Alternate(a: Insn, b: Insn, same: bool, k: nat): Insn {
    if same || k % 2 == 0 then a else b
  }

  function Flip(a: Insn, b: Insn, same: bool): Insn { if same then 0 else Xor(a, b) }

  lemma FlipsBack(a: Insn, b: Insn, same: bool, k: nat)
    ensures Xor(Alternate(a, b, same, k), Flip(a, b, same)) == Alternate(a, b, same, k + 1)
  {
    XorBack(a, b);
    if k % 2 == 0 {
      assert (k + 1) % 2 == 1;
    } else {
      assert (k + 1) % 2 == 0;
    }
  }

  function Inside(cfg: Config, j: nat, k: nat): T1 {
    Begin1(cfg).(j := j, i := k, phase := Inner, loopOp := LoopOpAt(cfg, k))
  }

  lemma InnerOpIs(cfg: Config, j: nat, k: nat)
    ensures InnerOp(cfg, j, k) == if k + 1 != InnerCount(cfg) then LoopOpAt(cfg, k) else LastOp(cfg, j, OuterCount(cfg))
  {}

  lemma {:induction false} InnerRest(cfg: Config, j: nat, k: nat)
    requires j < OuterCount(cfg) && k <= InnerCount(cfg)
    ensures Rest1(cfg, Inside(cfg, j, k))
            == InnerLoop(cfg, j, k) + Rest1(cfg, Inside(cfg, j, InnerCount(cfg)).(phase := End0))
    decreases InnerCount(cfg) - k
  {
    hide IsNop, Xor, Alternate, Flip, Low7, OuterCount, InnerCount;
    if k < InnerCount(cfg) {
      FlipsBack(cfg[5], cfg[6], IsNop(cfg[6]), k);
      InnerRest(cfg, j, k + 1);
      InnerOpIs(cfg, j, k);
      assert Inside(cfg, j, k).(i := k + 1, loopOp := Xor(LoopOpAt(cfg, k), Begin1(cfg).flip))
             == Inside(cfg, j, k + 1);
    }
  }

  function Between(cfg: Config, j: nat, i: nat): T1 {
    Begin1(cfg).(j := j, i := i)
  }

  /** Each phase of an outer round, once. */
  lemma RestSteps(cfg: Config, st: T1)
    requires st.j < st.outer
    ensures st.phase == Start ==> Rest1(cfg, st) == Unless(cfg[2]) + Rest1(cfg, st.(phase := Inner, i := 0))
    ensures st.phase == End0 ==> Rest1(cfg, st) == Unless(cfg[3]) + Rest1(cfg, st.(phase := End1))
    ensures st.phase == End1 ==> Rest1(cfg, st) == Unless(cfg[4]) + Rest1(cfg, st.(j := st.j + 1, phase := Start))
  {}

  lemma BackAtStart(cfg: Config)
    ensures LoopOpAt(cfg, InnerCount(cfg)) == cfg[5] && LoopOpAt(cfg, 0) == cfg[5]
  {}

  lemma {:induction false} OuterRest(cfg: Config, j: nat, i: nat)
    requires j <= OuterCount(cfg)
    ensures Rest1(cfg, Between(cfg, j, i)) == OuterLoop(cfg, j)
    decreases OuterCount(cfg) - j
  {
    hide Rest1, OuterLoop, Advance, IsNop, Low7, LoopOpAt, InnerCount, OuterCount, InnerLoop, Unless, Flip, Xor;
    if j == OuterCount(cfg) {
      OuterDone(cfg, j, i);
    } else {
      var n := InnerCount(cfg);
      var st := Inside(cfg, j, n).(phase := End0);
      BackAtStart(cfg);
      OuterRound(cfg, j);
      RestSteps(cfg, Between(cfg, j, i));
      InnerRest(cfg, j, 0);
      RestSteps(cfg, st);
      RestSteps(cfg, st.(phase := End1));
      assert st.(phase := End1).(j := j + 1, phase := Start) == Between(cfg, j + 1, n);
      OuterRest(cfg, j + 1, n);
    }
  }

  lemma OuterDone(cfg: Config, j: nat, i: nat)
    requires j == OuterCount(cfg)
    ensures Rest1(cfg, Between(cfg, j, i)) == [] == OuterLoop(cfg, j)
  {}

  lemma OuterRound(cfg: Config, j: nat)
    requires j < OuterCount(cfg)
    ensures OuterLoop(cfg, j) ==
            Unless(cfg[2]) + (InnerLoop(cfg, j, 0) + (Unless(cfg[3]) + (Unless(cfg[4]) + OuterLoop(cfg, j + 1))))
  {}

  /** The lazy generator emits exactly the nested loops. */
  lemma LazyIsEager1(cfg: Config)
    ensures Rest1(cfg, Begin1(cfg)) == OuterLoop(cfg, 0)
  {
    OuterRest(cfg, 0, 0);
    assert Between(cfg, 0, 0) == Begin1(cfg);
  }

  /** For instance two outer rounds of one pair of loop operations, everything configured. */
  lemma TwoRounds(cfg: Config)
    requires cfg[0] == 2 && cfg[1] == 1
    requires forall k :: 2 <= k <= 6 ==> cfg[k] / 0x100_0000 != 0x02
    ensures OuterLoop(cfg, 0) ==
            [cfg[2], cfg[5], cfg[8], cfg[3], cfg[4]] + [cfg[2], cfg[5], cfg[7], cfg[3], cfg[4]]
  {
    assert OuterCount(cfg) == 2 && InnerCount(cfg) == 2;
    PairLoop(cfg, 0);
    PairLoop(cfg, 1);
    OuterRound(cfg, 0);
    OuterRound(cfg, 1);
    assert OuterLoop(cfg, 2) == [];
    hide OuterLoop, InnerLoop, OuterCount, InnerCount;
    assert OuterLoop(cfg, 1) == [cfg[2], cfg[5], cfg[7], cfg[3], cfg[4]];
  }

  lemma PairLoop(cfg: Config, j: nat)
    requires InnerCount(cfg) == 2
    ensures InnerLoop(cfg, j, 0) == [cfg[5], if j + 1 == OuterCount(cfg) then cfg[7] else cfg[8]]
  {
    hide OuterCount;
    assert InnerLoop(cfg, j, 2) == [];
    assert InnerLoop(cfg, j, 1) == [InnerOp(cfg, j, 1)];
  }

  lemma {:induction false} EndsOnly(cfg: Config, j: nat)
    requires j <= OuterCount(cfg) && InnerCount(cfg) == 0 && IsNop(cfg[2]) && !IsNop(cfg[3]) && IsNop(cfg[4])
    ensures OuterLoop(cfg, j) == seq(OuterCount(cfg) - j, _ => cfg[3])
    decreases OuterCount(cfg) - j
  {
    hide OuterLoop, OuterCount, InnerCount, IsNop;
    if j == OuterCount(cfg) {
      OuterDone(cfg, j, 0);
    } else {
      OuterRound(cfg, j);
      EndsOnly(cfg, j + 1);
    }
  }

  /** And one outer round that would only emit its end operation emits it 129 times. */
  lemma OneBecomesMany(cfg: Config)
    requires cfg[0] == 1 && cfg[1] == 0
    requires cfg[2] / 0x100_0000 == 0x02 && cfg[3] / 0x100_0000 != 0x02 && cfg[4] / 0x100_0000 == 0x02
    ensures OuterLoop(cfg, 0) == seq(129, _ => cfg[3])
  {
    EndsOnly(cfg, 0);
  }

  // ------------------------------------------------ template 0: chosen by a mask

  /** `subs` holds what is left of the current round. */
  datatype T0 = T0(mask: nat, i: nat, count: nat, subs: seq<Insn>)

  predicate HasB(flags: Insn) { flags % 2 == 1 }

  predicate HasA123(flags: Insn) { flags / 2 % 2 == 1 }

  /** A round whose mask bit is clear emits the A and B instructions, the others the skip
      instructions. */
  function Round0(cfg: Config, skip: bool): (s: seq<Insn>)
    ensures s != []
  {
    if skip then (if HasB(cfg[1]) then [cfg[7], cfg[8]] else [cfg[7]])
    else
      (if HasA123(cfg[1]) then [cfg[3], cfg[4], cfg[5], cfg[6]] else [cfg[3]])
      + if HasB(cfg[1]) then [cfg[2]] else []
  }

  function Rest0(cfg: Config, st: T0): seq<Insn>
    decreases st.count - st.i
  {
    st.subs +
    if st.i >= st.count then []
    else Rest0(cfg, st.(mask := st.mask / 2, i := st.i + 1, subs := Round0(cfg, st.mask % 2 == 1)))
  }

  lemma TakeOne(cfg: Config, st: T0, insn: Insn, subs: seq<Insn>)
    requires st.subs == [insn] + subs
    ensures Rest0(cfg, st) == [insn] + Rest0(cfg, st.(subs := subs))
  {}

  lemma NextRound(cfg: Config, st: T0)
    requires st.subs == [] && st.i < st.count
    ensures Rest0(cfg, st) == Rest0(cfg, T0(st.mask / 2, st.i + 1, st.count, Round0(cfg, st.mask % 2 == 1)))
  {}

  /** The mask after `k` shifts; its low bit is bit `k`. */
  function Shifted(mask: nat, k: nat): nat {
    if k == 0 then mask else Shifted(mask / 2, k - 1)
  }

  predicate MaskBit(mask: nat, k: nat) { Shifted(mask, k) % 2 == 1 }

  /** The same by the two flag bits. */
  function ByFlags(cfg: Config, masked: bool): seq<Insn> {
    match (masked, cfg[1] % 4)
    case (true, 0) => [cfg[7]]
    case (true, 1) => [cfg[7], cfg[8]]
    case (true, 2) => [cfg[7]]
    case (true, _) => [cfg[7], cfg[8]]
    case (false, 0) => [cfg[3]]
    case (false, 1) => [cfg[3], cfg[2]]
    case (false, 2) => [cfg[3], cfg[4], cfg[5], cfg[6]]
    case (false, _) => [cfg[3], cfg[4], cfg[5], cfg[6], cfg[2]]
  }

  lemma RoundByFlags(cfg: Config, masked: bool)
    ensures Round0(cfg, masked) == ByFlags(cfg, masked)
  {
    FlagBits(cfg[1]);
    hide HasB, HasA123;
  }

  lemma FlagBits(flags: Insn)
    ensures HasB(flags) <==> flags % 4 == 1 || flags % 4 == 3
    ensures HasA123(flags) <==> flags % 4 == 2 || flags % 4 == 3
  {
    var q, r := flags / 4, flags % 4;
    assert flags == 4 * q + r;
    assert flags / 2 == 2 * q + r / 2;
  }

  function Rounds0(cfg: Config, mask: nat, i: nat, count: nat): seq<Insn>
    decreases count - i
  {
    if i >= count then [] else ByFlags(cfg, MaskBit(mask, i)) + Rounds0(cfg, mask, i + 1, count)
  }

  lemma {:induction false} ShiftOnce(mask: nat, k: nat)
    ensures Shifted(mask, k) / 2 == Shifted(mask, k + 1)
  {
    if k > 0 { ShiftOnce(mask / 2, k - 1); }
  }

  lemma {:induction false} MaskRest(cfg: Config, mask: nat, i: nat, count: nat, subs: seq<Insn>)
    ensures Rest0(cfg, T0(Shifted(mask, i), i, count, subs)) == subs + Rounds0(cfg, mask, i, count)
    decreases count - i
  {
    hide Round0, ByFlags;
    if i < count {
      ShiftOnce(mask, i);
      RoundByFlags(cfg, MaskBit(mask, i));
      MaskRest(cfg, mask, i + 1, count, Round0(cfg, MaskBit(mask, i)));
    }
  }

  /** The lazy generator emits one round per mask bit. */
  lemma LazyIsEager0(cfg: Config, mask: nat, count: nat)
    ensures Rest0(cfg, T0(mask, 0, count, [])) == Rounds0(cfg, mask, 0, count)
  {
    MaskRest(cfg, mask, 0, count, []);
  }
}
