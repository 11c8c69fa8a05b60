/** Running a macro-operation: its instructions, and the replay windows some of them open, are
    completed one by one across any number of blocked and retried calls. */
module MopThread {
  import opened Encoding
  import opened Mop
  import opened MopUnit

  type Buffer = b: seq<Insn> | |b| == 32 witness seq(32, _ => 0)

  predicate IsReplay(insn: Insn) { Opcode(insn) == 0x04 && insn % 2 == 0 }

  /** Neither a MOP nor a REPLAY that records. */
  predicate Simple(insn: Insn) { Opcode(insn) != 0x01 && (Opcode(insn) == 0x04 ==> insn % 2 == 0) }

  function StartIndex(insn: Insn): nat { insn / 0x4000 % 32 }

  function ReplayCount(insn: Insn): nat { if insn / 16 % 1024 == 0 then 64 else insn / 16 % 1024 }

  /** The instructions of a window from position `k` on; the buffer wraps around. */
  function Window(buffer: Buffer, start: nat, k: nat, count: nat): seq<Insn>
    decreases count - k
  {
    if k >= count then [] else [buffer[(start + k) % 32]] + Window(buffer, start, k + 1, count)
  }

  lemma {:induction false} WindowAt(buffer: Buffer, start: nat, k: nat, count: nat, j: nat)
    requires k + j < count
    ensures |Window(buffer, start, k, count)| == count - k
    ensures Window(buffer, start, k, count)[j] == buffer[(start + k + j) % 32]
    decreases count - k
  {
    if k + 1 < count { WindowAt(buffer, start, k + 1, count, if j == 0 then 0 else j - 1); }
  }

  /** The REPLAY instruction word that plays `n` instructions from slot `start` on. */
  function ReplayWord(start: nat, n: nat): Insn
    requires start < 32 && n < 1024
  {
    0x400_0000 + start * 0x4000 + n * 16
  }

  function Opened(buffer: Buffer, insn: Insn): seq<Insn> {
    if IsReplay(insn) then Window(buffer, StartIndex(insn), 0, ReplayCount(insn)) else []
  }

  lemma CountField(start: nat, n: nat)
    requires start < 32 && n < 1024
    ensures ReplayWord(start, n) / 16 % 1024 == n
  {
    assert ReplayWord(start, n) / 16 == 0x40_0000 + start * 0x400 + n;
  }

  lemma StartField(start: nat, n: nat)
    requires start < 32 && n < 1024
    ensures ReplayWord(start, n) / 0x4000 % 32 == start
  {
    assert ReplayWord(start, n) / 0x4000 == 0x1000 + start;
  }

  lemma OpcodeField(start: nat, n: nat)
    requires start < 32 && n < 1024
    ensures ReplayWord(start, n) / 0x100_0000 == 4 && ReplayWord(start, n) % 2 == 0
  {}

  lemma ReplayFields(start: nat, n: nat)
    requires start < 32 && n < 1024
    ensures var insn := ReplayWord(start, n);
            IsReplay(insn) && StartIndex(insn) == start && ReplayCount(insn) == if n == 0 then 64 else n
  {
    CountField(start, n);
    StartField(start, n);
    OpcodeField(start, n);
    hide ReplayWord;
  }

  /** A REPLAY opens a window of as many instructions as its count field says, 64 for zero; the
      k-th is that of the k-th slot from the start field on, wrapping around. */
  lemma ReplayOpens(buffer: Buffer, start: nat, n: nat, k: nat)
    requires start < 32 && n < 1024 && k < if n == 0 then 64 else n
    ensures var w := Opened(buffer, ReplayWord(start, n));
            |w| == (if n == 0 then 64 else n) && w[k] == buffer[(start + k) % 32]
  {
    var insn := ReplayWord(start, n);
    ReplayFields(start, n);
    hide ReplayWord, StartIndex, IsReplay, ReplayCount, Window;
    WindowAt(buffer, start, 0, ReplayCount(insn), k);
  }

  /** The buffer after a recording REPLAY has stored instructions from slot `start` on. */
  function Recorded(buffer: Buffer, start: nat, insns: seq<Insn>): Buffer
    decreases |insns|
  {
    if insns == [] then buffer else Recorded(buffer[start % 32 := insns[0]], start + 1, insns[1..])
  }

  lemma {:induction false} RecordedAt(buffer: Buffer, start: nat, insns: seq<Insn>, k: nat)
    requires k < 32 && |insns| <= 32
    ensures Recorded(buffer, start, insns)[(start + k) % 32]
            == if k < |insns| then insns[k] else buffer[(start + k) % 32]
    decreases |insns|
  {
    if insns != [] {
      var next := buffer[start % 32 := insns[0]];
      if k > 0 {
        RecordedAt(next, start + 1, insns[1..], k - 1);
        assert start + k == start + 1 + (k - 1);
        SlotsApart(start, k);
      } else {
        RecordedAt(next, start + 1, insns[1..], 31);
        assert (start + 1 + 31) % 32 == start % 32;
      }
    }
  }

  lemma SlotsApart(start: nat, k: nat)
    requires 0 < k < 32
    ensures (start + k) % 32 != start % 32
  {}

  /** Up to 32 instructions that were recorded are replayed in the order recorded. */
  lemma RecordThenReplay(buffer: Buffer, start: nat, insns: seq<Insn>)
    requires start < 32 && 0 < |insns| <= 32
    ensures Opened(Recorded(buffer, start, insns), ReplayWord(start, |insns|)) == insns
  {
    var buffer' := Recorded(buffer, start, insns);
    var w := Opened(buffer', ReplayWord(start, |insns|));
    ReplayOpens(buffer', start, |insns|, 0);
    forall k | 0 <= k < |insns| ensures w[k] == insns[k] {
      ReplayOpens(buffer', start, |insns|, k);
      RecordedAt(buffer, start, insns, k);
    }
  }

  /** Storing instructions one after the other while a REPLAY records. */
  method Record(buffer: array<Insn>, start: nat, insns: seq<Insn>)
    requires buffer.Length == 32
    modifies buffer
    ensures buffer[..] == Recorded(old(buffer[..]), start, insns)
  {
    assert insns[0..] == insns;
    for k := 0 to |insns|
      invariant Recorded(buffer[..], start + k, insns[k..]) == Recorded(old(buffer[..]), start, insns)
    {
      ghost var was := buffer[..];
      buffer[(start + k) % 32] := insns[k];
      assert buffer[..] == was[(start + k) % 32 := insns[k]];
      assert insns[k..][0] == insns[k] && insns[k..][1..] == insns[k + 1..];
    }
  }

  /** Every REPLAY followed by the window it opens. */
  function Unrolled(buffer: Buffer, insns: seq<Insn>): seq<Insn> {
    if insns == [] then [] else [insns[0]] + Opened(buffer, insns[0]) + Unrolled(buffer, insns[1..])
  }

  predicate Plain(insn: Insn) { Simple(insn) && !IsReplay(insn) }

  /** A window holds no further REPLAY. */
  predicate Tame(buffer: Buffer, insn: Insn) {
    Simple(insn) && forall w :: w in Opened(buffer, insn) ==> Plain(w)
  }

  /** The instructions a MOP stands for. */
  function Expansion(cfg: Config, param: Insn, zmaskHi: nat): seq<Insn> {
    if FirstTemplate(param) then Rounds0(cfg, MaskOf(param, zmaskHi), 0, CountOf(param)) else OuterLoop(cfg, 0)
  }

  class CopThread {
    const mop: Expander
    const buffer: array<Insn>
    var hasCurrent: bool
    var current: Insn
    var expanding: bool
    var start: nat
    var count: nat
    var index: nat
    var attempts: nat
    ghost var done: seq<Insn>

    ghost predicate Formed()
      reads this, mop
    {
      mop.Valid() && mop.template < 2 && buffer.Length == 32 && buffer != mop.cfg && buffer != mop.subInsns
    }

    ghost function Left(): seq<Insn>
      requires Formed()
      reads this, mop, mop.cfg, mop.subInsns
    {
      mop.Rest()
    }

    /** What has still to be completed: the pending instruction, the rest of an open
        window, and the rest of the expansion with its windows. */
    ghost function Pending(): seq<Insn>
      requires Formed()
      reads this, mop, mop.cfg, mop.subInsns, buffer
    {
      (if hasCurrent then [current] else [])
      + (if expanding then Window(buffer[..], start, index, count)
         else if hasCurrent then Opened(buffer[..], current) else [])
      + Unrolled(buffer[..], Left())
    }

    ghost predicate Valid()
      reads this, mop, mop.cfg, mop.subInsns, buffer
    {
      && Formed()
      && (forall insn :: insn in Left() ==> Tame(buffer[..], insn))
      && (if expanding then
            (forall w :: w in Window(buffer[..], start, index, count) ==> Plain(w)) && (hasCurrent ==> Plain(current))
          else hasCurrent ==> Tame(buffer[..], current))
    }

    constructor (mop: Expander, buffer: array<Insn>)
      requires mop.Valid() && !mop.active && mop.template < 2 && buffer.Length == 32
      requires buffer != mop.cfg && buffer != mop.subInsns
      ensures Valid() && done == [] && Pending() == [] && this.mop == mop && this.buffer == buffer
    {
      this.mop, this.buffer := mop, buffer;
      hasCurrent, current, expanding, start, count, index, attempts := false, 0, false, 0, 0, 0, 0;
      done := [];
    }

    /** One attempt at the pending instruction; `ready` is everything it may wait for. */
    method Step(ready: nat -> bool) returns (ok: bool)
      requires Formed() && hasCurrent && Simple(current) && (expanding ==> !IsReplay(current))
      modifies this
      ensures Formed() && ok == !hasCurrent && current == old(current)
      ensures done == old(done) + if ok then [current] else []
      ensures if ok && IsReplay(current)
              then expanding && index == 0 && start == StartIndex(current) && count == ReplayCount(current)
              else expanding == old(expanding) && index == old(index) && start == old(start) && count == old(count)
    {
      ok := ready(attempts);
      attempts := attempts + 1;
      if ok {
        hasCurrent := false;
        done := done + [current];
        if IsReplay(current) {
          expanding, index := true, 0;
          start, count := StartIndex(current), ReplayCount(current);
        }
      }
    }

    /** An attempt inside a window. */
    method StepInWindow(ready: nat -> bool) returns (ok: bool)
      requires Valid() && expanding && hasCurrent
      modifies this
      ensures Valid() && done + Pending() == old(done + Pending()) && |done| >= |old(done)| && ok == !hasCurrent
      ensures expanding && index == old(index) && count == old(count)
    {
      hide Window, Unrolled, Tame;
      ghost var rest := Window(buffer[..], start, index, count) + Unrolled(buffer[..], Left());
      assert Pending() == [current] + rest;
      ok := Step(ready);
      assert ok ==> Pending() == [] + rest;
    }

    method Fetch()
      requires Valid() && expanding && !hasCurrent && index < count
      modifies this`current, this`hasCurrent, this`index
      ensures Valid() && hasCurrent && index == old(index) + 1 && Pending() == old(Pending())
    {
      hide Unrolled, Tame, Plain;
      ghost var w := Window(buffer[..], start, index, count);
      assert w[0] in w;
      current, hasCurrent := buffer[(start + index) % 32], true;
      index := index + 1;
      assert w == [current] + Window(buffer[..], start, index, count);
    }

    /** drain_replay_expansion. */
    method Drain(ready: nat -> bool) returns (ok: bool)
      requires Valid() && expanding
      modifies this
      ensures Valid() && done + Pending() == old(done + Pending()) && |done| >= |old(done)|
      ensures if ok then !expanding && !hasCurrent else hasCurrent
    {
      hide Window, Unrolled, Tame, Plain;
      ghost var all := done + Pending();
      while expanding
        invariant Valid() && expanding && done + Pending() == all && |done| >= |old(done)|
        decreases count - index
      {
        if hasCurrent {
          ok := StepInWindow(ready);
          if !ok { return; }
        }
        if index >= count {
          EmptyWindow(buffer[..], start, index, count);
          expanding := false;
          return true;
        }
        Fetch();
        ok := StepInWindow(ready);
        if !ok { return; }
      }
    }

    /** An attempt at an instruction of the expansion itself; a REPLAY opens its window. */
    method StepOutside(ready: nat -> bool) returns (ok: bool)
      requires Valid() && !expanding && hasCurrent
      modifies this
      ensures Valid() && done + Pending() == old(done + Pending()) && |done| >= |old(done)| && ok == !hasCurrent
    {
      hide Window, Unrolled;
      ghost var window, rest := Opened(buffer[..], current), Unrolled(buffer[..], Left());
      assert Pending() == [current] + window + rest;
      ok := Step(ready);
      if ok {
        assert Pending() == [] + window + rest;
        assert done + Pending() == old(done) + ([current] + window + rest);
      }
    }

    /** mop_generate_next, its result made the pending instruction. */
    method Generate() returns (ok: bool)
      requires Valid() && !expanding && !hasCurrent
      modifies this`current, this`hasCurrent, mop, mop.subInsns
      ensures Valid() && !expanding && Pending() == old(Pending()) && ok == hasCurrent
      ensures if ok then |Left()| < |old(Left())| else Pending() == []
    {
      hide Window, Opened, Tame;
      ghost var left := Left();
      var insn;
      ok, insn := mop.Next();
      if ok {
        current, hasCurrent := insn, true;
        assert left[0] == insn && left[1..] == Left() && insn in left;
        assert forall x :: x in Left() ==> x in left;
      }
    }

    /** mop_continue_execution: what is completed and what is pending is always the same
        sequence, and the call returns true exactly when nothing is pending any more. */
    method Continue(ready: nat -> bool) returns (ok: bool)
      requires Valid()
      modifies this, mop, mop.subInsns
      ensures Valid() && done + Pending() == old(done + Pending()) && |done| >= |old(done)|
      ensures if ok then Pending() == [] else hasCurrent
    {
      hide Window, Opened, Unrolled, Tame, Plain;
      ghost var all := done + Pending();
      if expanding {
        ok := Drain(ready);
        if !ok { return; }
      }
      if hasCurrent {
        ok := StepOutside(ready);
        if !ok { return; }
        if expanding {
          ok := Drain(ready);
          if !ok { return; }
        }
      }
      while true
        invariant Valid() && !expanding && !hasCurrent && done + Pending() == all && |done| >= |old(done)|
        decreases |Left()|
      {
        ok := Generate();
        if !ok { return true; }
        ok := StepOutside(ready);
        if !ok { return; }
        if expanding {
          ok := Drain(ready);
          if !ok { return; }
        }
      }
    }

    /** Starting a MOP; an instruction still pending is dropped. */
    method Begin(param: Insn)
      requires Formed() && !expanding
      modifies this`hasCurrent, mop
      ensures Formed() && Pending() == Unrolled(buffer[..], Left())
      ensures Left() == Expansion(mop.cfg[..], param, mop.zmaskHi) && mop.zmaskHi == old(mop.zmaskHi) && !hasCurrent
    {
      hide Rounds0, OuterLoop, Unrolled, Opened, Window, FirstTemplate, MaskOf, CountOf;
      mop.Expand(param);
      hasCurrent := false;
    }

    /** A MOP that is called again and again while it is blocked completes each instruction
        of its expansion, and of the windows it opens, exactly once and in order. */
    method Execute(param: Insn, ready: nat -> bool, calls: nat) returns (ok: bool, ghost all: seq<Insn>)
      requires Formed() && !expanding
      requires forall insn :: insn in Expansion(mop.cfg[..], param, mop.zmaskHi) ==> Tame(buffer[..], insn)
      modifies this, mop, mop.subInsns
      ensures all == Unrolled(old(buffer[..]), Expansion(old(mop.cfg[..]), param, old(mop.zmaskHi)))
      ensures if ok then done == old(done) + all else exists k :: 0 <= k <= |all| && done == old(done) + all[..k]
    {
      hide Expansion, Rounds0, OuterLoop, Unrolled, Opened, Window, Tame, FirstTemplate, MaskOf, CountOf;
      Begin(param);
      all := Pending();
      assert buffer[..] == old(buffer[..]) && mop.cfg[..] == old(mop.cfg[..]);
      ok := false;
      for k := 0 to calls
        invariant Valid() && done + Pending() == old(done) + all && |done| >= |old(done)| && (ok ==> Pending() == [])
      {
        if !ok {
          ok := Continue(ready);
        }
      }
      Cut(old(done), all, done, Pending());
    }
  }

  lemma Cut(before: seq<Insn>, all: seq<Insn>, done: seq<Insn>, pending: seq<Insn>)
    requires done + pending == before + all && |before| <= |done|
    ensures done == before + all[..|done| - |before|]
    ensures pending == [] ==> done == before + all
  {
    assert done == (before + all)[..|done|];
  }

  lemma EmptyWindow(buffer: Buffer, start: nat, k: nat, count: nat)
    requires k >= count
    ensures Window(buffer, start, k, count) == []
  {}
}
