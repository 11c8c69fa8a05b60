/** A thread's instruction FIFO, wait gate and step function, and the semaphores, as fields
    updated in place. */
module CopUnit {
  import opened Powers
  import opened Words
  import opened Encoding
  import opened WaitGate
  import opened Semaphores

  function Place(head: nat, k: nat): (i: nat)
    ensures i < FIFO_SIZE
  {
    (head + k) % FIFO_SIZE
  }

  lemma PlacesApart(head: nat, k: nat, n: nat)
    requires k < n < FIFO_SIZE
    ensures Place(head, k) != Place(head, n)
  {}

  lemma WrapsOnce(a: nat, k: nat)
    ensures (a % FIFO_SIZE + k) % FIFO_SIZE == (a + k) % FIFO_SIZE
  {}

  lemma PlaceNext(head: nat, k: nat)
    ensures Place((head + 1) % FIFO_SIZE, k) == Place(head, k + 1)
    ensures (Place(head, k) + 1) % FIFO_SIZE == Place(head, k + 1)
    ensures head < FIFO_SIZE ==> Place(head, 0) == head
  {
    WrapsOnce(head + 1, k);
    WrapsOnce(head + k, 1);
  }

  /** Ring buffer of 32 instructions. */
  class Fifo {
    const buffer: array<Word>
    var head: nat
    var tail: nat
    var count: nat

    ghost predicate Valid()
      reads this
    {
      buffer.Length == FIFO_SIZE && count <= FIFO_SIZE && head < FIFO_SIZE && tail == Place(head, count)
    }

    ghost function Contents(): (s: seq<Word>)
      requires Valid()
      reads this, buffer
      ensures |s| == count && forall k :: 0 <= k < count ==> s[k] == buffer[Place(head, k)]
    {
      seq(count, k requires 0 <= k < count && Valid() reads this, buffer => buffer[Place(head, k)])
    }

    constructor ()
      ensures Valid() && Contents() == [] && fresh(buffer)
    {
      buffer := new Word[FIFO_SIZE](k => 0);
      head, tail, count := 0, 0, 0;
    }

    method Push(insn: Word) returns (ok: bool)
      requires Valid()
      modifies this, buffer
      ensures Valid() && ok == (|old(Contents())| < FIFO_SIZE)
      ensures Contents() == if ok then old(Contents()) + [insn] else old(Contents())
    {
      hide Place;
      if count >= FIFO_SIZE { return false; }
      ghost var was := Contents();
      PlaceNext(head, count);
      buffer[tail] := insn;
      tail := (tail + 1) % FIFO_SIZE;
      count := count + 1;
      forall k | 0 <= k < count ensures Contents()[k] == (was + [insn])[k] {
        if k < count - 1 { PlacesApart(head, k, count - 1); }
      }
      return true;
    }

    method Pop() returns (ok: bool, insn: Word)
      requires Valid()
      modifies this
      ensures Valid() && ok == (old(Contents()) != [])
      ensures ok ==> old(Contents()) == [insn] + Contents()
      ensures !ok ==> Contents() == []
    {
      hide Place;
      if count == 0 { return false, 0; }
      ghost var was := Contents();
      PlaceNext(head, count - 1);
      insn := buffer[head];
      head := (head + 1) % FIFO_SIZE;
      count := count - 1;
      forall k | 0 <= k < count ensures Contents()[k] == was[k + 1] {
        PlaceNext(old(head), k);
      }
      return true, insn;
    }
  }

  class GateThread {
    const fifo: Fifo
    var gate: Gate
    var hasCurrent: bool
    var current: Word
    var zmaskHi: nat
    var executed: nat
    ghost var met: seq<WaitGate.Check>
    ghost var log: seq<Entry>
    ghost var accepted: seq<Word>
    ghost var time: nat

    ghost predicate Valid()
      reads this, fifo
    {
      fifo.Valid()
    }

    ghost function View(): Thread
      requires Valid()
      reads this, fifo, fifo.buffer
    {
      Thread(fifo.Contents(), if hasCurrent then [current] else [], met, gate, log, accepted, time)
    }

    constructor ()
      ensures Valid() && View() == Idle && fresh(fifo) && fresh(fifo.buffer)
    {
      fifo := new Fifo();
      gate, hasCurrent, current, zmaskHi, executed := Cleared, false, 0, 0, 0;
      met, log, accepted, time := [], [], [], 0;
    }

    method Push(insn: Word) returns (ok: bool)
      requires Valid()
      modifies this`accepted, this`time, fifo, fifo.buffer
      ensures Valid() && View() == Happened(old(View()), Event.Push(insn)) && ok == (|old(View()).fifo| < FIFO_SIZE)
    {
      ok := fifo.Push(insn);
      if ok { accepted := accepted + [insn]; }
      time := time + 1;
    }

    /** wait_gate_check: the loops over the semaphores. */
    method Check(c: Core) returns (ok: bool)
      ensures ok == Satisfied(gate, c)
    {
      if gate.opcode == STALLWAIT {
        if 5 in gate.cond && c.unpA { return false; }
        if 6 in gate.cond && c.unpB { return false; }
        if 7 in gate.cond && !c.mathA { return false; }
        if 8 in gate.cond && !c.mathB { return false; }
        return true;
      }
      if gate.opcode == SEMWAIT {
        if 0 in gate.cond {
          for i := 0 to 8
            invariant forall s :: 0 <= s < i && s in gate.sems ==> c.sem[s] != 0
          {
            if i in gate.sems && c.sem[i] == 0 { return false; }
          }
        }
        if 1 in gate.cond {
          for i := 0 to 8
            invariant forall s :: 0 <= s < i && s in gate.sems ==> c.sem[s] < c.max[s]
          {
            if i in gate.sems && c.sem[i] >= c.max[i] { return false; }
          }
        }
      }
      return true;
    }

    /** The gate and the execution, with an instruction in hand. */
    method Attempt(insn: Word, c: Core, runs: bool) returns (done: bool)
      requires Valid() && !hasCurrent
      modifies this
      ensures Valid() && View() == Attempted(old(View()), insn, c, runs)
      ensures done == !hasCurrent && time == old(time)
    {
      hide Satisfied, Holds, IsWait, Latched;
      if Opcode(insn) == MOP_CFG {
        zmaskHi := Param(insn);
        executed := executed + 1;
        met, log := [], log + [Entry(insn, met)];
        return true;
      }
      if Holds(gate, insn) {
        var ok := Check(c);
        if !ok {
          current, hasCurrent := insn, true;
          return false;
        }
        met := met + [WaitGate.Check(gate, c, time)];
        gate := Cleared;
      }
      if IsWait(Opcode(insn)) {
        gate := Latched(insn);
        executed := executed + 1;
        met, log := [], log + [Entry(insn, met)];
        return true;
      }
      if !runs {
        current, hasCurrent := insn, true;
        return false;
      }
      executed := executed + 1;
      met, log := [], log + [Entry(insn, met)];
      return true;
    }

    /** tensix_cop_step; `runs` stands for the bank checks and the instruction itself. */
    method Step(c: Core, runs: bool) returns (done: bool)
      requires Valid()
      modifies this, fifo
      ensures Valid() && View() == Happened(old(View()), Event.Step(c, runs))
    {
      hide Attempted, Satisfied;
      ghost var t := View();
      if hasCurrent {
        hasCurrent := false;
        done := Attempt(current, c, runs);
      } else {
        var ok, insn := fifo.Pop();
        if !ok {
          time := time + 1;
          return false;
        }
        assert t.fifo[1..] == fifo.Contents() && t.fifo[0] == insn;
        done := Attempt(insn, c, runs);
      }
      time := time + 1;
    }
  }

  /** The eight semaphores. */
  class SemaphoreBank {
    const sem: array<nat>
    const max: array<nat>

    ghost predicate Valid() { sem.Length == 8 && max.Length == 8 && sem != max }

    constructor ()
      ensures Valid()
    {
      sem, max := new nat[8](k => 0), new nat[8](k => 0);
    }

    method Init(insn: Word)
      requires Valid()
      modifies sem, max
      ensures sem[..] == Assigned(old(sem[..]), Selected(insn), Param(insn) / 0x1_0000 % 16)
      ensures max[..] == Assigned(old(max[..]), Selected(insn), Param(insn) / 0x10_0000)
    {
      var sel := Selected(insn);
      for i := 0 to 8
        invariant forall k :: 0 <= k < 8 ==> sem[k] == if k < i && k in sel then Param(insn) / 0x1_0000 % 16
                  else old(sem[k])
        invariant forall k :: 0 <= k < 8 ==> max[k] == if k < i && k in sel then Param(insn) / 0x10_0000
                  else old(max[k])
      {
        if i in sel {
          sem[i] := Param(insn) / 0x1_0000 % 16;
          max[i] := Param(insn) / 0x10_0000;
        }
      }
    }

    method Post(insn: Word)
      requires Valid()
      modifies sem
      ensures sem[..] == Posted(old(sem[..]), Selected(insn))
    {
      var sel := Selected(insn);
      for i := 0 to 8
        invariant forall k :: 0 <= k < 8 ==> sem[k] == if k < i then Posted(old(sem[..]), sel)[k] else old(sem[k])
      {
        if i in sel && sem[i] < 15 { sem[i] := sem[i] + 1; }
      }
    }

    method Get(insn: Word)
      requires Valid()
      modifies sem
      ensures sem[..] == Got(old(sem[..]), Selected(insn))
    {
      var sel := Selected(insn);
      for i := 0 to 8
        invariant forall k :: 0 <= k < 8 ==> sem[k] == if k < i then Got(old(sem[..]), sel)[k] else old(sem[k])
      {
        if i in sel && sem[i] > 0 { sem[i] := sem[i] - 1; }
      }
    }
  }
}
