/** The expander and the thread that runs what it generates: fields updated in place, one
    instruction at a time, across blocked and retried calls. */
module MopUnit {
  import opened Words
  import opened Mop

  lemma NothingLeft(cfg: Config, st: T0)
    requires st.subs == [] && st.i >= st.count
    ensures Rest0(cfg, st) == []
  {}

  class Expander {
    const cfg: array<Insn>
    const subInsns: array<Insn>
    var zmaskHi: nat
    var active: bool
    var template: nat
    var mask: nat
    var round: nat
    var count: nat
    var sub: nat
    var numSub: nat
    var j: nat
    var i: nat
    var outer: nat
    var inner: nat
    var phase: Phase
    var loopOp: Insn
    var flip: Insn

    ghost predicate Valid()
      reads this
    {
      cfg.Length == 9 && subInsns.Length == 5 && cfg != subInsns && sub <= numSub <= 5
    }

    ghost function View0(): T0
      requires Valid()
      reads this, subInsns
    {
      T0(mask, round, count, subInsns[sub..numSub])
    }

    ghost function View1(): T1
      reads this
    {
      T1(j, i, outer, inner, phase, loopOp, flip)
    }

    /** What is still to come. */
    ghost function Rest(): seq<Insn>
      requires Valid()
      reads this, cfg, subInsns
    {
      if !active then [] else if template == 0 then Rest0(cfg[..], View0()) else Rest1(cfg[..], View1())
    }

    constructor ()
      ensures Valid() && !active && fresh(cfg) && fresh(subInsns)
    {
      cfg := new Insn[9](k => 0);
      subInsns := new Insn[5](k => 0);
      zmaskHi, active, template, mask, round, count, sub, numSub := 0, false, 0, 0, 0, 0, 0, 0;
      j, i, outer, inner, phase, loopOp, flip := 0, 0, 0, 0, Start, 0, 0;
    }

    /** Template 0: the instructions of one round are buffered and emitted in turn. */
    method FillRound(skip: bool)
      requires Valid()
      modifies this`sub, this`numSub, subInsns
      ensures Valid() && sub == 0 && subInsns[..numSub] == Round0(cfg[..], skip)
    {
      hide HasB, HasA123;
      sub, numSub := 0, 0;
      if !skip {
        subInsns[0] := cfg[3];
        numSub := 1;
        if HasA123(cfg[1]) {
          subInsns[1], subInsns[2], subInsns[3] := cfg[4], cfg[5], cfg[6];
          numSub := 4;
          assert subInsns[..4] == [cfg[3], cfg[4], cfg[5], cfg[6]];
        }
        ghost var a := subInsns[..numSub];
        if HasB(cfg[1]) {
          subInsns[numSub] := cfg[2];
          numSub := numSub + 1;
          assert subInsns[..numSub] == a + [cfg[2]];
        }
      } else {
        subInsns[0] := cfg[7];
        numSub := 1;
        if HasB(cfg[1]) {
          subInsns[1] := cfg[8];
          numSub := 2;
        }
      }
    }

    method Take() returns (insn: Insn)
      requires Valid() && sub < numSub
      modifies this`sub
      ensures Valid() && [insn] + subInsns[sub..numSub] == old(subInsns[sub..numSub])
    {
      insn := subInsns[sub];
      sub := sub + 1;
    }

    method Next0() returns (ok: bool, insn: Insn)
      requires Valid() && active && template == 0
      modifies this, subInsns
      ensures Valid() && ok == (old(Rest()) != [])
      ensures ok ==> [insn] + Rest() == old(Rest()) && active && template == 0
      ensures !ok ==> !active
      ensures template == old(template)
    {
      hide Round0, Rest0;
      ghost var st := View0();
      if sub >= numSub {
        if round >= count {
          NothingLeft(cfg[..], st);
          active := false;
          return false, 0;
        }
        NextRound(cfg[..], st);
        FillRound(mask % 2 == 1);
        mask, round := mask / 2, round + 1;
        assert subInsns[0..numSub] == subInsns[..numSub];
        st := View0();
      }
      insn := Take();
      TakeOne(cfg[..], st, insn, subInsns[sub..numSub]);
      return true, insn;
    }

    /** Template 1: one pass through the switch. */
    method Pass() returns (emits: bool, insn: Insn)
      requires Valid()
      modifies this`j, this`i, this`phase, this`loopOp
      ensures Advance(cfg[..], old(View1())) == (View1(), if emits then [insn] else [])
    {
      hide IsNop, Xor;
      match phase {
        case Start =>
          phase, i := Inner, 0;
          return !IsNop(cfg[2]), cfg[2];
        case Inner =>
          if i < inner {
            insn := if i + 1 != inner then loopOp else if j + 1 != outer then cfg[8] else cfg[7];
            loopOp, i := Xor(loopOp, flip), i + 1;
            return true, insn;
          }
          phase := End0;
          return false, 0;
        case End0 =>
          phase := End1;
          return !IsNop(cfg[3]), cfg[3];
        case End1 =>
          j, phase := j + 1, Start;
          return !IsNop(cfg[4]), cfg[4];
      }
    }

    /** The loop runs past the passes that emit nothing. */
    method Next1() returns (ok: bool, insn: Insn)
      requires Valid() && active && template == 1
      modifies this
      ensures Valid() && ok == (old(Rest()) != [])
      ensures ok ==> [insn] + Rest() == old(Rest()) && active && template == 1
      ensures !ok ==> !active
      ensures template == old(template)
    {
      hide Advance, PhasesLeft;
      while true
        invariant Valid() && template == old(template) && active && template == 1
                  && Rest1(cfg[..], View1()) == old(Rest())
        decreases outer - j, PhasesLeft(phase), inner - i
      {
        if j >= outer {
          active := false;
          return false, 0;
        }
        ok, insn := Pass();
        if ok { return; }
      }
    }

    /** One instruction of the expansion, or the end of it. */
    method Next() returns (ok: bool, insn: Insn)
      requires Valid() && template < 2
      modifies this, subInsns
      ensures Valid() && template < 2 && ok == (old(Rest()) != [])
      ensures ok ==> [insn] + Rest() == old(Rest())
      ensures !ok ==> !active
      ensures template == old(template)
    {
      if !active { return false, 0; }
      if template == 0 {
        ok, insn := Next0();
      } else {
        ok, insn := Next1();
      }
    }

    method Begin0(param: Insn)
      requires Valid() && sub == numSub == 0 && active && template == 0
      modifies this`mask, this`round, this`count
      ensures Rest() == Rounds0(cfg[..], MaskOf(param, zmaskHi), 0, CountOf(param))
    {
      hide Rest0, Rest1, Rounds0, MaskOf, CountOf;
      mask, round, count := MaskOf(param, zmaskHi), 0, CountOf(param);
      LazyIsEager0(cfg[..], mask, count);
    }

    method BeginLoops()
      requires Valid() && active && template == 1
      modifies this`j, this`i, this`outer, this`inner, this`phase, this`loopOp, this`flip
      ensures Rest() == OuterLoop(cfg[..], 0)
    {
      hide Rest0, Rest1, OuterLoop, IsNop, Low7, Xor;
      outer, inner := Low7(cfg[0]), Low7(cfg[1]);
      if IsNop(cfg[6]) {
        flip := 0;
      } else {
        flip := Xor(cfg[5], cfg[6]);
        inner := 2 * inner;
      }
      if outer == 1 && IsNop(cfg[2]) && inner == 0 && !IsNop(cfg[3]) {
        outer := outer + 128;
      }
      j, i, phase, loopOp := 0, 0, Start, cfg[5];
      assert View1() == Begin1(cfg[..]);
      LazyIsEager1(cfg[..]);
    }

    /** Starting a MOP: from here on the calls of Next emit exactly the rounds of the mask,
        or exactly the nested loops. */
    method Expand(param: Insn)
      requires Valid()
      modifies this
      ensures Valid() && active && template < 2 && zmaskHi == old(zmaskHi)
      ensures Rest() ==
              if FirstTemplate(param) then Rounds0(cfg[..], MaskOf(param, zmaskHi), 0, CountOf(param))
              else OuterLoop(cfg[..], 0)
    {
      active, sub, numSub := true, 0, 0;
      template := if FirstTemplate(param) then 0 else 1;
      hide *;
      if template == 0 {
        Begin0(param);
      } else {
        BeginLoops();
      }
    }
  }
}
