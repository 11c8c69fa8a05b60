/** The bank fields of the coprocessor and the instructions that change them in place. */
module BankUnit {
  import opened Banks

  class SourceBanks {
    const srca: array<int>
    const srcb: array<int>
    const srcaDvalid: array<bool>
    const srcbDvalid: array<bool>
    const srcbZeroed: array<bool>
    var unpSrcaBank: Bank
    var unpSrcbBank: Bank
    var mathSrcaBank: Bank
    var mathSrcbBank: Bank

    ghost predicate Valid() {
      && srca.Length == 2 && srcb.Length == 2 && srca != srcb
      && srcaDvalid.Length == 2 && srcbDvalid.Length == 2 && srcbZeroed.Length == 2
      && srcaDvalid != srcbDvalid && srcaDvalid != srcbZeroed && srcbDvalid != srcbZeroed
    }

    ghost function View(): (p: Pair)
      requires Valid()
      reads this, srca, srcb, srcaDvalid, srcbDvalid, srcbZeroed
      ensures WellFormed(p)
    {
      Pair(Src([srcaDvalid[0], srcaDvalid[1]], [Slot(srca[0], false), Slot(srca[1], false)], unpSrcaBank, mathSrcaBank),
           Src([srcbDvalid[0], srcbDvalid[1]], [Slot(srcb[0], srcbZeroed[0]), Slot(srcb[1], srcbZeroed[1])],
               unpSrcbBank, mathSrcbBank))
    }

    /** Every bank belongs to the unpackers. */
    constructor ()
      ensures Valid() && InRing(View().a, Ring([], 0)) && InRing(View().b, Ring([], 0))
    {
      srca, srcb := new int[2](k => 0), new int[2](k => 0);
      srcaDvalid := new bool[2](k => false);
      srcbDvalid := new bool[2](k => false);
      srcbZeroed := new bool[2](k => false);
      unpSrcaBank, unpSrcbBank, mathSrcaBank, mathSrcbBank := 0, 0, 0, 0;
    }

    /** What a call that returns `done` has made of the banks. */
    twostate predicate Did(act: Action, done: bool)
      requires Valid()
      reads this, srca, srcb, srcaDvalid, srcbDvalid, srcbZeroed
    {
      var o := Step(old(View()), act);
      done == o.Done? && View() == if done then o.p else old(View())
    }

    method FlipA()
      requires Valid()
      modifies this, srcaDvalid
      ensures View() == old(View()).(a := Release(old(View()).a))
    {
      srcaDvalid[mathSrcaBank] := false;
      mathSrcaBank := Other(mathSrcaBank);
    }

    method FlipB()
      requires Valid()
      modifies this, srcbDvalid
      ensures View() == old(View()).(b := Release(old(View()).b))
    {
      srcbDvalid[mathSrcbBank] := false;
      mathSrcbBank := Other(mathSrcbBank);
    }

    method HandOverBank(which: Which)
      requires Valid()
      modifies this, srcaDvalid, srcbDvalid
      ensures View() == if which.A? then old(View()).(a := HandOver(old(View()).a))
                        else old(View()).(b := HandOver(old(View()).b))
    {
      if which.A? {
        srcaDvalid[unpSrcaBank] := true;
        unpSrcaBank := Other(unpSrcaBank);
      } else {
        srcbDvalid[unpSrcbBank] := true;
        unpSrcbBank := Other(unpSrcbBank);
      }
    }

    method Unpacr(which: Which, data: int, writes: bool, setValid: bool) returns (done: bool)
      requires Valid()
      modifies this, srca, srcb, srcaDvalid, srcbDvalid, srcbZeroed
      ensures Did(Action.Unpacr(which, data, writes, setValid), done)
    {
      if which.A? && srcaDvalid[unpSrcaBank] { return false; }
      if which.B? && srcbDvalid[unpSrcbBank] { return false; }
      if writes {
        if which.A? {
          srca[unpSrcaBank] := data;
        } else {
          srcb[unpSrcbBank] := data;
          srcbZeroed[unpSrcbBank] := false;
        }
      }
      if setValid { HandOverBank(which); }
      return true;
    }

    method ZeroSrc(which: Which, fill: int, likeUnpacr: bool, both: bool, setValid: bool) returns (done: bool)
      requires Valid()
      modifies this, srca, srcb, srcaDvalid, srcbDvalid, srcbZeroed
      ensures Did(Action.ZeroSrc(which, fill, likeUnpacr, both, setValid), done)
    {
      if which.A? {
        if srcaDvalid[if likeUnpacr then unpSrcaBank else mathSrcaBank] { return false; }
      } else {
        if srcbDvalid[if likeUnpacr then unpSrcbBank else mathSrcbBank] { return false; }
      }
      ZeroBank(which, fill, both, 0);
      ZeroBank(which, fill, both, 1);
      if setValid { HandOverBank(which); }
      return true;
    }

    method ZeroBank(which: Which, fill: int, both: bool, bank: Bank)
      requires Valid()
      modifies srca, srcb, srcbZeroed
      ensures var p := old(View());
              View() ==
              if which.A? then
                (if both || bank == p.a.unp then p.(a := p.a.(slot := p.a.slot[bank := Slot(fill, false)])) else p)
              else (if both || bank == p.b.unp then p.(b := p.b.(slot := p.b.slot[bank := Slot(fill, true)])) else p)
    {
      if both || bank == (if which.A? then unpSrcaBank else unpSrcbBank) {
        if which.A? {
          srca[bank] := fill;
        } else {
          srcb[bank] := fill;
          srcbZeroed[bank] := true;
        }
      }
    }

    method Elementwise(flipA: bool, flipB: bool) returns (done: bool)
      requires Valid()
      modifies this, srcaDvalid, srcbDvalid
      ensures Did(Action.Elementwise(flipA, flipB), done)
    {
      if !srcaDvalid[mathSrcaBank] || !srcbDvalid[mathSrcbBank] { return false; }
      if flipA { FlipA(); }
      if flipB { FlipB(); }
      return true;
    }

    method Mvmul(flipA: bool, flipB: bool) returns (done: bool)
      requires Valid()
      modifies this, srcaDvalid, srcbDvalid, srcbZeroed
      ensures Did(Action.Mvmul(flipA, flipB), done)
    {
      if !srcaDvalid[mathSrcaBank] || !srcbDvalid[mathSrcbBank] { return false; }
      if srcbZeroed[mathSrcbBank] && srcbDvalid[Other(mathSrcbBank)] && !srcbZeroed[Other(mathSrcbBank)] {
        var zeroed := mathSrcbBank;
        srcbDvalid[zeroed] := false;
        srcbZeroed[zeroed] := false;
        mathSrcbBank := Other(mathSrcbBank);
      }
      assert View() == old(View()).(b := SkipZeroed(old(View()).b));
      if flipA { FlipA(); }
      if flipB { FlipB(); }
      return true;
    }

    method SetRwc(flipA: bool, flipB: bool) returns (done: bool)
      requires Valid()
      modifies this, srcaDvalid, srcbDvalid
      ensures Did(Action.SetRwc(flipA, flipB), done)
    {
      if flipA && !srcaDvalid[mathSrcaBank] { return false; }
      if flipB && !srcbDvalid[mathSrcbBank] { return false; }
      if flipA && srcaDvalid[mathSrcaBank] { FlipA(); }
      if flipB && srcbDvalid[mathSrcbBank] { FlipB(); }
      return true;
    }

    /** CLEARDVALID with its reset bit; what ZEROSRC has marked stays marked. */
    method ClearDvalid() returns (done: bool)
      requires Valid()
      modifies this, srcaDvalid, srcbDvalid
      ensures Did(Action.Reset, done)
    {
      srcaDvalid[0], srcaDvalid[1] := false, false;
      srcbDvalid[0], srcbDvalid[1] := false, false;
      unpSrcaBank, unpSrcbBank, mathSrcaBank, mathSrcbBank := 0, 0, 0, 0;
      return true;
    }
  }
}
