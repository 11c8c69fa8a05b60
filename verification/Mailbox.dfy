/** Mailboxes: sixteen small FIFOs between four cores, and the load that waits on one. */
module Mailbox {
  import opened Words

  const BASE: Word := 0xFFEC_0000
  const END: Word := 0xFFEC_3FFF
  const DEPTH: nat := 4

  type CoreIx = k: nat | k < 4

  /** FIFO from one core to another. */
  datatype Route = Route(src: CoreIx, dst: CoreIx)

  function AllRoutes(): (routes: set<Route>)
    ensures forall r: Route :: r in routes
  {
    From(0) + From(1) + From(2) + From(3)
  }

  function From(s: CoreIx): (routes: set<Route>)
    ensures forall d: CoreIx :: Route(s, d) in routes
    ensures forall r: Route :: r.src == s ==> r in routes
  {
    {Route(s, 0), Route(s, 1), Route(s, 2), Route(s, 3)}
  }

  datatype Boxes = Boxes(queue: map<Route, seq<Word>>, stall: seq<bool>)

  ghost predicate Formed(b: Boxes) {
    |b.stall| == 4 && forall r: Route :: r in b.queue && |b.queue[r]| <= DEPTH
  }

  predicate InRange(addr: Word) { BASE <= addr <= END }

  /** Cores -1 to 2 have a mailbox, others have none. */
  predicate HasMailbox(core: int) { -1 <= core <= 2 }

  function Index(core: int): CoreIx
    requires HasMailbox(core)
  {
    core + 1
  }

  function Target(addr: Word): CoreIx
    requires InRange(addr)
  {
    (addr - BASE) / 4096
  }

  /** An address with bit 2 set asks whether there is a value, the others take it. */
  predicate Queries(addr: Word) { addr / 4 % 2 == 1 }

  datatype Event = Write(core: int, addr: Word, value: Word) | Read(core: int, addr: Word) | Resume(core: int)

  /** mailbox_write: a value for a full FIFO is dropped. */
  function Wrote(b: Boxes, core: int, addr: Word, value: Word): (b': Boxes)
    requires Formed(b)
    ensures Formed(b')
  {
    if !InRange(addr) || !HasMailbox(core) then b
    else
      var r: Route := Route(Index(core), Target(addr));
      if |b.queue[r]| >= DEPTH then b else b.(queue := b.queue[r := b.queue[r] + [value]])
  }

  /** The FIFO a read goes to: from the core named by the address to the reader. */
  function ReadRoute(core: int, addr: Word): Route
    requires HasMailbox(core) && InRange(addr)
  {
    Route(Target(addr), Index(core))
  }

  predicate Takes(core: int, addr: Word) { InRange(addr) && HasMailbox(core) && !Queries(addr) }

  /** mailbox_read: on an empty FIFO it only sets the reader's stall flag. */
  function DidRead(b: Boxes, core: int, addr: Word): (b': Boxes)
    requires Formed(b)
    ensures Formed(b')
  {
    if !Takes(core, addr) then b
    else
      var r := ReadRoute(core, addr);
      if b.queue[r] == [] then b.(stall := b.stall[Index(core) := true])
      else b.(queue := b.queue[r := b.queue[r][1..]])
  }

  function ReadResult(b: Boxes, core: int, addr: Word): Word
    requires Formed(b) && InRange(addr)
  {
    if !HasMailbox(core) then 0
    else
      var q := b.queue[ReadRoute(core, addr)];
      if Queries(addr) then (if q != [] then 1 else 0) else if q == [] then 0 else q[0]
  }

  /** mailbox_process: the stall flag is noticed once and cleared. */
  function Resumed(b: Boxes, core: int): (b': Boxes)
    requires Formed(b)
    ensures Formed(b')
  {
    if HasMailbox(core) then b.(stall := b.stall[Index(core) := false]) else b
  }

  function Step(b: Boxes, e: Event): (b': Boxes)
    requires Formed(b)
    ensures Formed(b')
  {
    match e
    case Write(core, addr, value) => Wrote(b, core, addr, value)
    case Read(core, addr) => DidRead(b, core, addr)
    case Resume(core) => Resumed(b, core)
  }

  function Run(b: Boxes, events: seq<Event>): (b': Boxes)
    requires Formed(b)
    ensures Formed(b')
    decreases |events|
  {
    if events == [] then b else Run(Step(b, events[0]), events[1..])
  }

  // ------------------------------------------------ first in, first out

  /** What an event puts into a FIFO, and what it takes out of it. */
  function Accepted(b: Boxes, e: Event, r: Route): seq<Word>
    requires Formed(b)
  {
    if e.Write? && InRange(e.addr) && HasMailbox(e.core) && Route(Index(e.core), Target(e.addr)) == r
       && |b.queue[r]| < DEPTH
    then [e.value] else []
  }

  function Delivered(b: Boxes, e: Event, r: Route): seq<Word>
    requires Formed(b)
  {
    if e.Read? && Takes(e.core, e.addr) && ReadRoute(e.core, e.addr) == r && b.queue[r] != []
    then [ReadResult(b, e.core, e.addr)] else []
  }

  function AllAccepted(b: Boxes, events: seq<Event>, r: Route): seq<Word>
    requires Formed(b)
    decreases |events|
  {
    if events == [] then [] else Accepted(b, events[0], r) + AllAccepted(Step(b, events[0]), events[1..], r)
  }

  function AllDelivered(b: Boxes, events: seq<Event>, r: Route): seq<Word>
    requires Formed(b)
    decreases |events|
  {
    if events == [] then [] else Delivered(b, events[0], r) + AllDelivered(Step(b, events[0]), events[1..], r)
  }

  lemma StepConserves(b: Boxes, e: Event, r: Route)
    requires Formed(b)
    ensures Delivered(b, e, r) + Step(b, e).queue[r] == b.queue[r] + Accepted(b, e, r)
  {}

  /** In every interleaving of the cores: what has been read from a FIFO, followed by what
      is in it, is what was in it and was accepted since, in order. */
  lemma {:induction false} RunConserves(b: Boxes, events: seq<Event>, r: Route)
    requires Formed(b)
    ensures AllDelivered(b, events, r) + Run(b, events).queue[r] == b.queue[r] + AllAccepted(b, events, r)
    decreases |events|
  {
    if events != [] {
      var e := events[0];
      StepConserves(b, e, r);
      RunConserves(Step(b, e), events[1..], r);
      var d, a := AllDelivered(Step(b, e), events[1..], r), AllAccepted(Step(b, e), events[1..], r);
      var q, q' := b.queue[r], Step(b, e).queue[r];
      assert (Delivered(b, e, r) + d) + Run(b, events).queue[r] == Delivered(b, e, r) + (q' + a);
      assert (q + Accepted(b, e, r)) + a == q + (Accepted(b, e, r) + a);
    }
  }

  /** So the completed reads are a prefix of the accepted writes. */
  lemma ReadsArePrefix(b: Boxes, events: seq<Event>, r: Route)
    requires Formed(b) && b.queue[r] == []
    ensures AllDelivered(b, events, r) <= AllAccepted(b, events, r)
  {
    RunConserves(b, events, r);
    assert [] + AllAccepted(b, events, r) == AllAccepted(b, events, r);
  }

  /** The addresses of a core's mailbox: the one page after the other, from core -1 on. */
  predicate InBox(addr: Word, core: int) {
    BASE + 4096 * (core + 1) <= addr < BASE + 4096 * (core + 2)
  }

  /** What core `w` writes to the mailbox of core `r`, unless four values wait there. */
  function Sent(b: Boxes, events: seq<Event>, w: int, r: int): seq<Word>
    requires Formed(b) && HasMailbox(w) && HasMailbox(r)
    decreases |events|
  {
    if events == [] then []
    else
      var e, rest := events[0], Sent(Step(b, events[0]), events[1..], w, r);
      if e.Write? && e.core == w && InBox(e.addr, r) && |b.queue[Route(w + 1, r + 1)]| < 4
      then [e.value] + rest else rest
  }

  /** What core `r` takes from the mailbox of core `w`, where there is something. */
  function Received(b: Boxes, events: seq<Event>, w: int, r: int): seq<Word>
    requires Formed(b) && HasMailbox(w) && HasMailbox(r)
    decreases |events|
  {
    if events == [] then []
    else
      var e, rest := events[0], Received(Step(b, events[0]), events[1..], w, r);
      if e.Read? && e.core == r && InBox(e.addr, w) && e.addr / 4 % 2 == 0 && b.queue[Route(w + 1, r + 1)] != []
      then [ReadResult(b, r, e.addr)] + rest else rest
  }

  lemma BoxIsTarget(addr: Word, core: int)
    requires HasMailbox(core)
    ensures InBox(addr, core) <==> InRange(addr) && Target(addr) == core + 1
  {}

  lemma SameEvent(b: Boxes, e: Event, w: int, r: int)
    requires Formed(b) && HasMailbox(w) && HasMailbox(r)
    ensures Accepted(b, e, Route(w + 1, r + 1)) ==
            if e.Write? && e.core == w && InBox(e.addr, r) && |b.queue[Route(w + 1, r + 1)]| < 4 then [e.value] else []
    ensures Delivered(b, e, Route(w + 1, r + 1)) ==
            if e.Read? && e.core == r && InBox(e.addr, w) && e.addr / 4 % 2 == 0 && b.queue[Route(w + 1, r + 1)] != []
            then [ReadResult(b, r, e.addr)] else []
  {
    if !e.Resume? {
      BoxIsTarget(e.addr, w);
      BoxIsTarget(e.addr, r);
    }
    hide InBox, InRange, Target, ReadResult;
  }

  lemma {:induction false} SameTraffic(b: Boxes, events: seq<Event>, w: int, r: int)
    requires Formed(b) && HasMailbox(w) && HasMailbox(r)
    ensures Sent(b, events, w, r) == AllAccepted(b, events, Route(w + 1, r + 1))
    ensures Received(b, events, w, r) == AllDelivered(b, events, Route(w + 1, r + 1))
    decreases |events|
  {
    hide Accepted, Delivered, InBox, ReadResult, Step;
    if events != [] {
      SameEvent(b, events[0], w, r);
      SameTraffic(Step(b, events[0]), events[1..], w, r);
    }
  }

  /** In every interleaving, what core `r` reads at the mailbox of core `w` is what `w` wrote to
      the mailbox of `r`, in order. */
  lemma ReadsWhatWasSent(b: Boxes, events: seq<Event>, w: int, r: int)
    requires Formed(b) && HasMailbox(w) && HasMailbox(r) && b.queue[Route(w + 1, r + 1)] == []
    ensures Received(b, events, w, r) <= Sent(b, events, w, r)
  {
    SameTraffic(b, events, w, r);
    ReadsArePrefix(b, events, Route(w + 1, r + 1));
  }

  // ------------------------------------------------ the waiting load

  type Regs = x: seq<Word> | |x| == 32 witness seq(32, _ => 0)

  datatype Load = Load(rd: nat, rs1: nat, imm: Int32)

  datatype Cpu = Cpu(x: Regs, pc: Word, cycle: nat)

  predicate IsLoad(lw: Load) { lw.rd < 32 && lw.rs1 < 32 }

  function Address(lw: Load, x: Regs): Word
    requires IsLoad(lw)
  {
    U32(x[lw.rs1] + lw.imm)
  }

  /** do_lw_mailbox: the destination is written first; if the reader's stall flag is set
      afterwards, the base register is put back and the address kept. */
  function Attempt(lw: Load, core: int, cpu: Cpu, b: Boxes): (r: (Cpu, Boxes, bool))
    requires IsLoad(lw) && Formed(b) && InRange(Address(lw, cpu.x))
    ensures Formed(r.1)
  {
    var base := cpu.x[lw.rs1];
    var addr := Address(lw, cpu.x);
    var x := cpu.x[lw.rd := ReadResult(b, core, addr)];
    var b' := DidRead(b, core, addr);
    if HasMailbox(core) && b'.stall[Index(core)] then (Cpu(x[lw.rs1 := base], cpu.pc, cpu.cycle + 1), b', false)
    else (Cpu(x, U32(cpu.pc + 4), cpu.cycle + 1), b', true)
  }

  /** Attempt after attempt; in between the core's flag is cleared, it yields, and the
      others do whatever they do. */
  function Retry(lw: Load, core: int, cpu: Cpu, b: Boxes, between: seq<seq<Event>>): (r: (Cpu, Boxes, bool))
    requires IsLoad(lw) && Formed(b) && InRange(Address(lw, cpu.x))
    ensures Formed(r.1)
    decreases |between|
  {
    var a := Attempt(lw, core, cpu, b);
    if a.2 || between == [] then a
    else if InRange(Address(lw, a.0.x)) then Retry(lw, core, a.0, Run(Resumed(a.1, core), between[0]), between[1..])
    else a
  }

  /** A stalled attempt takes nothing and keeps the address of the load, its base register
      and every other register but the destination; so it is recognised again. */
  lemma StallKeeps(lw: Load, core: int, cpu: Cpu, b: Boxes)
    requires IsLoad(lw) && Formed(b) && InRange(Address(lw, cpu.x)) && HasMailbox(core) && !b.stall[Index(core)]
    ensures var (cpu', b', ok) := Attempt(lw, core, cpu, b);
            && (ok <==> !Takes(core, Address(lw, cpu.x)) || b.queue[ReadRoute(core, Address(lw, cpu.x))] != [])
            && (!ok ==> b'.queue == b.queue && cpu'.pc == cpu.pc && Address(lw, cpu'.x) == Address(lw, cpu.x)
                        && cpu'.x[lw.rd := 0] == cpu.x[lw.rd := 0])
  {}

  lemma SameButOne(x: Regs, y: Regs, rd: nat, v: Word)
    requires rd < 32 && x[rd := 0] == y[rd := 0]
    ensures x[rd := v] == y[rd := v]
  {
    assert forall k :: 0 <= k < 32 && k != rd ==> x[k] == x[rd := 0][k];
    assert forall k :: 0 <= k < 32 && k != rd ==> y[k] == y[rd := 0][k];
  }

  /** Neither other cores' events nor its own flag being cleared set the reader's flag. */
  predicate Foreign(events: seq<Event>, core: int) {
    forall j :: 0 <= j < |events| && events[j].Read? ==> events[j].core != core
  }

  lemma {:induction false} FlagStaysClear(b: Boxes, events: seq<Event>, core: int)
    requires Formed(b) && HasMailbox(core) && !b.stall[Index(core)] && Foreign(events, core)
    ensures !Run(b, events).stall[Index(core)]
    decreases |events|
  {
    if events != [] {
      assert Foreign(events[1..], core);
      FlagStaysClear(Step(b, events[0]), events[1..], core);
    }
  }

  /** The FIFOs at the moment of the last attempt, and the number of attempts. */
  function LastBoxes(lw: Load, core: int, cpu: Cpu, b: Boxes, between: seq<seq<Event>>): (r: (Boxes, nat))
    requires IsLoad(lw) && Formed(b) && InRange(Address(lw, cpu.x))
    ensures Formed(r.0)
    decreases |between|
  {
    var a := Attempt(lw, core, cpu, b);
    if a.2 || between == [] || !InRange(Address(lw, a.0.x)) then (b, 1)
    else
      var r := LastBoxes(lw, core, a.0, Run(Resumed(a.1, core), between[0]), between[1..]);
      (r.0, r.1 + 1)
  }

  /** Stall, yield and retry are one atomic blocking read at the moment of the attempt that
      succeeds: registers, address and FIFOs are as if the load had only then been run. */
  lemma {:induction false} RetryIsAtomic(lw: Load, core: int, cpu: Cpu, b: Boxes, between: seq<seq<Event>>)
    requires IsLoad(lw) && Formed(b) && InRange(Address(lw, cpu.x)) && HasMailbox(core) && !b.stall[Index(core)]
    requires forall j :: 0 <= j < |between| ==> Foreign(between[j], core)
    ensures var (cpu', b', ok) := Retry(lw, core, cpu, b, between);
            var (now, n) := LastBoxes(lw, core, cpu, b, between);
            && !now.stall[Index(core)]
            && (ok ==>
                  && b' == DidRead(now, core, Address(lw, cpu.x))
                  && cpu'.x == cpu.x[lw.rd := ReadResult(now, core, Address(lw, cpu.x))]
                  && cpu'.pc == U32(cpu.pc + 4) && cpu'.cycle == cpu.cycle + n)
    decreases |between|
  {
    hide Run;
    StallKeeps(lw, core, cpu, b);
    var a := Attempt(lw, core, cpu, b);
    if !a.2 && between != [] {
      var b1 := Resumed(a.1, core);
      FlagStaysClear(b1, between[0], core);
      RetryIsAtomic(lw, core, a.0, Run(b1, between[0]), between[1..]);
      SameButOne(a.0.x, cpu.x, lw.rd, ReadResult(LastBoxes(lw, core, cpu, b, between).0, core, Address(lw, cpu.x)));
    }
  }

  // ------------------------------------------------ the arrays

  function Ring(h: nat, k: nat): (i: nat)
    ensures i < DEPTH
  {
    (h + k) % DEPTH
  }

  lemma RingApart(h: nat, k: nat, n: nat)
    requires k < n < DEPTH
    ensures Ring(h, k) != Ring(h, n)
  {}

  lemma RingNext(h: nat, k: nat)
    ensures Ring((h + 1) % DEPTH, k) == Ring(h, k + 1) && (h < DEPTH ==> Ring(h, 0) == h)
  {}

  /** Head and count of each FIFO in its ring of four slots. */
  class MailboxUnit {
    const fifo: array3<Word>
    const head: array2<nat>
    const count: array2<nat>
    const stall: array<bool>
    ghost var queue: map<Route, seq<Word>>

    ghost predicate Shaped() {
      && fifo.Length0 == 4 && fifo.Length1 == 4 && fifo.Length2 == DEPTH && stall.Length == 4
      && head.Length0 == 4 && head.Length1 == 4 && count.Length0 == 4 && count.Length1 == 4 && head != count
    }

    ghost predicate Holds(r: Route, q: seq<Word>)
      requires Shaped()
      reads fifo, head, count
    {
      && head[r.src, r.dst] < DEPTH && count[r.src, r.dst] == |q| <= DEPTH
      && forall k :: 0 <= k < |q| ==> fifo[r.src, r.dst, Ring(head[r.src, r.dst], k)] == q[k]
    }

    ghost predicate Valid()
      reads this, fifo, head, count
    {
      Shaped() && forall r: Route :: r in queue && Holds(r, queue[r])
    }

    ghost function View(): (b: Boxes)
      requires Valid()
      reads this, fifo, head, count, stall
      ensures Formed(b)
    {
      Boxes(queue, stall[..])
    }

    constructor ()
      ensures Valid() && forall r: Route :: queue[r] == []
    {
      fifo := new Word[4, 4, DEPTH]((s, d, k) => 0);
      head := new nat[4, 4]((s, d) => 0);
      count := new nat[4, 4]((s, d) => 0);
      stall := new bool[4](k => false);
      queue := map r: Route | r in AllRoutes() :: [];
    }

    twostate predicate OthersKept(r: Route)
      requires Shaped()
      reads fifo, head, count
    {
      forall o: Route, q :: o != r && old(Holds(o, q)) ==> Holds(o, q)
    }

    method Store(src: CoreIx, dst: CoreIx, value: Word, ghost q: seq<Word>)
      requires Shaped() && Holds(Route(src, dst), q) && |q| < DEPTH
      modifies fifo, count
      ensures Holds(Route(src, dst), q + [value]) && OthersKept(Route(src, dst))
    {
      hide Ring;
      var h, n := head[src, dst], count[src, dst];
      fifo[src, dst, Ring(h, n)] := value;
      count[src, dst] := n + 1;
      forall k | 0 <= k < n ensures fifo[src, dst, Ring(h, k)] == q[k] {
        RingApart(h, k, n);
      }
    }

    method Remove(src: CoreIx, dst: CoreIx, ghost q: seq<Word>) returns (value: Word)
      requires Shaped() && Holds(Route(src, dst), q) && q != []
      modifies head, count
      ensures value == q[0] && Holds(Route(src, dst), q[1..]) && OthersKept(Route(src, dst))
    {
      hide Ring;
      var h, n := head[src, dst], count[src, dst];
      RingNext(h, 0);
      value := fifo[src, dst, h];
      head[src, dst] := (h + 1) % DEPTH;
      count[src, dst] := n - 1;
      forall k | 0 <= k < n - 1 ensures fifo[src, dst, Ring((h + 1) % DEPTH, k)] == q[1..][k] {
        RingNext(h, k);
      }
    }

    method Push(src: CoreIx, dst: CoreIx, value: Word) returns (ok: bool)
      requires Valid()
      modifies this`queue, fifo, count
      ensures Valid() && ok == (|old(queue)[Route(src, dst)]| < DEPTH)
      ensures queue == if ok then old(queue)[Route(src, dst) := old(queue)[Route(src, dst)] + [value]] else old(queue)
    {
      ghost var r: Route := Route(src, dst);
      assert Holds(r, queue[r]);
      if count[src, dst] >= DEPTH { return false; }
      hide Holds;
      Store(src, dst, value, queue[r]);
      queue := queue[r := queue[r] + [value]];
      return true;
    }

    method Pop(src: CoreIx, dst: CoreIx) returns (ok: bool, value: Word)
      requires Valid()
      modifies this`queue, head, count
      ensures Valid() && ok == (old(queue)[Route(src, dst)] != [])
      ensures if ok then
                && old(queue)[Route(src, dst)] == [value] + queue[Route(src, dst)]
                && queue == old(queue)[Route(src, dst) := queue[Route(src, dst)]]
              else queue == old(queue)
    {
      ghost var r: Route := Route(src, dst);
      assert Holds(r, queue[r]);
      if count[src, dst] == 0 { return false, 0; }
      hide Holds;
      value := Remove(src, dst, queue[r]);
      queue := queue[r := queue[r][1..]];
      return true, value;
    }

    method Write(core: int, addr: Word, value: Word) returns (mine: bool)
      requires Valid()
      modifies this`queue, fifo, count
      ensures Valid() && View() == Wrote(old(View()), core, addr, value) && mine == InRange(addr)
    {
      if !InRange(addr) { return false; }
      if !HasMailbox(core) { return true; }
      var ok := Push(Index(core), Target(addr), value);
      return true;
    }

    method Read(core: int, addr: Word) returns (mine: bool, result: Word)
      requires Valid()
      modifies this`queue, head, count, stall
      ensures Valid() && View() == DidRead(old(View()), core, addr) && mine == InRange(addr)
      ensures mine ==> result == ReadResult(old(View()), core, addr)
    {
      if !InRange(addr) { return false, 0; }
      if !HasMailbox(core) { return true, 0; }
      var src, dst := Target(addr), Index(core);
      assert Holds(Route(src, dst), queue[Route(src, dst)]);
      if Queries(addr) { return true, if count[src, dst] > 0 then 1 else 0; }
      var ok, value := Pop(src, dst);
      if !ok {
        stall[dst] := true;
        return true, 0;
      }
      return true, value;
    }

    method Process(core: int) returns (stalled: bool)
      requires Valid()
      modifies stall
      ensures Valid() && View() == Resumed(old(View()), core)
      ensures stalled == (HasMailbox(core) && old(stall[..])[core + 1])
    {
      if !HasMailbox(core) { return false; }
      stalled := stall[Index(core)];
      if stalled { stall[Index(core)] := false; }
    }
  }
}
