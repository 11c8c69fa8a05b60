/** The map from addresses to translated blocks: open addressing with linear probing in an
    array of 1024 slots. */
module BlockMap {
  import opened Words

  const CAPACITY: nat := 1024
  const MOST: nat := 820

  class Block {
    const pcStart: Word

    constructor (pc: Word)
      ensures pcStart == pc
    {
      pcStart := pc;
    }
  }

  /** The slot `d` places after the one the hash names; the array wraps around. */
  function Slot(h: nat, d: nat): (i: nat)
    ensures i < CAPACITY
  {
    (h + d) % CAPACITY
  }

  lemma SlotReaches(h: nat, i: nat)
    requires i < CAPACITY
    ensures exists d :: 0 <= d < CAPACITY && Slot(h, d) == i
  {
    var d := (i + CAPACITY - h % CAPACITY) % CAPACITY;
    assert Slot(h, d) == i;
  }

  ghost function Used(s: seq<Block?>): nat {
    if s == [] then 0 else Used(s[..|s| - 1]) + if s[|s| - 1] == null then 0 else 1
  }

  lemma {:induction false} UsedBound(s: seq<Block?>)
    ensures Used(s) <= |s|
    ensures Used(s) < |s| ==> exists i :: 0 <= i < |s| && s[i] == null
  {
    if s != [] {
      var front := s[..|s| - 1];
      UsedBound(front);
      if Used(front) < |front| {
        var i :| 0 <= i < |front| && front[i] == null;
        assert s[i] == null;
      } else if Used(s) < |s| {
        assert s[|s| - 1] == null;
      }
    }
  }

  lemma {:induction false} UsedUpdate(s: seq<Block?>, i: nat, b: Block)
    requires i < |s| && s[i] == null
    ensures Used(s[i := b]) == Used(s) + 1
  {
    var n := |s| - 1;
    if i == n {
      assert s[i := b][..n] == s[..n];
    } else {
      assert s[i := b][..n] == s[..n][i := b];
      UsedUpdate(s[..n], i, b);
    }
  }

  lemma {:induction false} UsedNone(s: seq<Block?>)
    requires forall i :: 0 <= i < |s| ==> s[i] == null
    ensures Used(s) == 0
  {
    if s != [] { UsedNone(s[..|s| - 1]); }
  }

  // ------------------------------------------------ which addresses are stored

  datatype Op = Execute(pc: Word, translates: bool) | Flush

  /** The stored addresses and the number of used slots after an operation. */
  function Applied(state: (set<Word>, nat), op: Op): (set<Word>, nat) {
    match op
    case Flush => ({}, 0)
    case Execute(pc, translates) =>
      var (keys, size) := state;
      if pc in keys then state
      else
        var (kept, n) := if size >= MOST then ({}, 0) else state;
        if translates then (kept + {pc}, n + 1) else (kept, n)
  }

  function Final(state: (set<Word>, nat), ops: seq<Op>): (set<Word>, nat) {
    if ops == [] then state else Applied(Final(state, ops[..|ops| - 1]), ops[|ops| - 1])
  }

  lemma Flushed(state: (set<Word>, nat))
    ensures Applied(state, Flush) == ({}, 0)
  {}

  /** Used slots and stored addresses stay equal in number, and at most 820. */
  lemma {:induction false} FinalBound(ops: seq<Op>)
    ensures var (keys, size) := Final(({}, 0), ops); |keys| == size <= MOST
  {
    if ops != [] { FinalBound(ops[..|ops| - 1]); }
  }

  class Map {
    const slots: array<Block?>
    const hash: Word -> nat
    var size: nat
    ghost var contents: map<Word, Block>
    ghost var steps: map<Word, nat>

    /** What the map holds for an address is found by probing from its hash: neither an empty
        slot nor another block of the address lies before it. */
    ghost predicate Probed(k: Word)
      requires slots.Length == CAPACITY && k in contents && k in steps
      reads this, slots
    {
      && steps[k] < CAPACITY && contents[k].pcStart == k
      && slots[Slot(hash(k), steps[k])] == contents[k]
      && forall d :: 0 <= d < steps[k] ==> slots[Slot(hash(k), d)] != null && slots[Slot(hash(k), d)].pcStart != k
    }

    ghost predicate Stored(i: nat)
      requires slots.Length == CAPACITY && i < CAPACITY
      reads this, slots
    {
      var b := slots[i];
      b != null ==> b.pcStart in contents
    }

    ghost predicate Valid()
      reads this, slots
    {
      && slots.Length == CAPACITY && size <= CAPACITY && size == Used(slots[..])
      && contents.Keys == steps.Keys
      && (forall k :: k in contents ==> Probed(k))
      && (forall i :: 0 <= i < CAPACITY ==> Stored(i))
    }

    /** No two slots hold blocks of the same address. */
    ghost predicate Distinct()
      reads this, slots
    {
      forall i, j :: 0 <= i < j < slots.Length && slots[i] != null && slots[j] != null ==>
        slots[i].pcStart != slots[j].pcStart
    }

    constructor (hash: Word -> nat)
      ensures Valid() && Distinct() && contents == map[] && size == 0 && this.hash == hash && fresh(slots)
    {
      this.hash := hash;
      slots := new Block?[CAPACITY](i => null);
      size, contents, steps := 0, map[], map[];
      new;
      UsedNone(slots[..]);
    }

    /** The empty slot that ends every search. */
    lemma Stops(h: nat)
      requires slots.Length == CAPACITY && Used(slots[..]) < CAPACITY
      ensures exists d :: 0 <= d < CAPACITY && slots[Slot(h, d)] == null
    {
      UsedBound(slots[..]);
      var i :| 0 <= i < |slots[..]| && slots[..][i] == null;
      SlotReaches(h, i);
      var d :| 0 <= d < CAPACITY && Slot(h, d) == i;
      assert slots[Slot(h, d)] == null;
    }

    /** block_find agrees with the map and comes to an end, unless a missing address is
        looked up in a full table. */
    method Find(addr: Word) returns (b: Block?)
      requires Valid() && (addr in contents || size < CAPACITY)
      ensures b == if addr in contents then contents[addr] else null
    {
      hide Slot, Used;
      var h := hash(addr);
      ghost var stop;
      if addr in contents {
        assert Probed(addr);
        stop := steps[addr];
      } else {
        Stops(h);
        stop :| 0 <= stop < CAPACITY && slots[Slot(h, stop)] == null;
      }
      var index := 0;
      while true
        invariant 0 <= index <= stop < CAPACITY
        invariant forall d :: 0 <= d < index ==> slots[Slot(h, d)] != null && slots[Slot(h, d)].pcStart != addr
        decreases stop - index
      {
        b := slots[Slot(h, index)];
        if b == null { return null; }
        assert Stored(Slot(h, index));
        if b.pcStart == addr {
          assert Probed(addr);
          return b;
        }
        index := index + 1;
      }
    }

    /** block_insert: a second block of an address takes a slot but is never found. */
    method Insert(b: Block)
      requires Valid() && size < CAPACITY
      modifies this, slots
      ensures Valid() && size == old(size) + 1
      ensures old(Distinct()) && b.pcStart !in old(contents) ==> Distinct()
      ensures contents == if b.pcStart in old(contents) then old(contents) else old(contents)[b.pcStart := b]
    {
      hide Slot, Used;
      var h := hash(b.pcStart);
      Stops(h);
      ghost var stop :| 0 <= stop < CAPACITY && slots[Slot(h, stop)] == null;
      var index := 0;
      while slots[Slot(h, index)] != null
        invariant 0 <= index <= stop
        invariant forall d :: 0 <= d < index ==> slots[Slot(h, d)] != null
        decreases stop - index
      {
        index := index + 1;
      }
      Fill(b, h, index);
    }

    method Fill(b: Block, h: nat, index: nat)
      requires Valid() && size < CAPACITY && h == hash(b.pcStart) && index < CAPACITY
      requires slots[Slot(h, index)] == null && forall d :: 0 <= d < index ==> slots[Slot(h, d)] != null
      modifies this, slots
      ensures Valid() && size == old(size) + 1
      ensures old(Distinct()) && b.pcStart !in old(contents) ==> Distinct()
      ensures contents == if b.pcStart in old(contents) then old(contents) else old(contents)[b.pcStart := b]
    {
      hide Slot, Used;
      forall d | 0 <= d < index && b.pcStart !in contents ensures slots[Slot(h, d)].pcStart != b.pcStart {
        assert Stored(Slot(h, d));
      }
      var i := Slot(h, index);
      UsedUpdate(slots[..], i, b);
      ghost var was := slots[..];
      slots[i] := b;
      assert slots[..] == was[i := b];
      size := size + 1;
      if b.pcStart !in contents {
        contents, steps := contents[b.pcStart := b], steps[b.pcStart := index];
      }
      forall k | k in contents ensures Probed(k) {
        assert k in old(contents) ==> old(Probed(k));
      }
      forall j | 0 <= j < CAPACITY
        ensures Stored(j)
        ensures b.pcStart !in old(contents) && j != i && slots[j] != null ==> slots[j].pcStart != b.pcStart
      {
        assert j != i ==> old(Stored(j));
      }
    }

    /** block_map_clear. */
    method Clear()
      requires Valid()
      modifies this, slots
      ensures Valid() && Distinct() && contents == map[] && size == 0
    {
      for i := 0 to CAPACITY
        modifies slots
        invariant forall j :: 0 <= j < i ==> slots[j] == null
      {
        slots[i] := null;
      }
      size, contents, steps := 0, map[], map[];
      UsedNone(slots[..]);
    }

    /** block_find_or_translate: a hit returns the block that is there; a miss stores the
        new translation, after clearing the map if it is four fifths full. `translates`
        says whether the block could be allocated and translated. */
    method FindOrTranslate(pc: Word, translates: bool) returns (b: Block?)
      requires Valid() && (pc in contents || size < CAPACITY)
      modifies this, slots
      ensures Valid() && (old(Distinct()) ==> Distinct()) && (old(size) <= MOST ==> size <= MOST)
      ensures (contents.Keys, size) == Applied((old(contents).Keys, old(size)), Execute(pc, translates))
      ensures pc in old(contents) ==> b == old(contents[pc]) && contents == old(contents)
      ensures pc !in old(contents) ==>
                var kept := if old(size) * 5 > CAPACITY * 4 then map[] else old(contents);
                if translates then b != null && fresh(b) && b.pcStart == pc && contents == kept[pc := b]
                else b == null && contents == kept
    {
      b := Find(pc);
      if b != null { return; }
      if size * 5 > CAPACITY * 4 {
        Clear();
        assert contents.Keys == {};
      }
      if !translates { return null; }
      b := new Block(pc);
      ghost var kept := contents;
      Insert(b);
      assert contents.Keys == kept.Keys + {pc};
    }
  }

  /** After any sequence of look-ups and clears from the empty map, each stored address has
      exactly one slot, at most 820 slots are used, and the map holds what `Final` says. */
  method Replay(hash: Word -> nat, ops: seq<Op>) returns (m: Map)
    ensures fresh(m) && m.Valid() && m.Distinct() && m.size <= MOST
    ensures (m.contents.Keys, m.size) == Final(({}, 0), ops)
  {
    hide Applied, Map.Valid, Map.Distinct;
    m := new Map(hash);
    assert m.contents.Keys == {} && ops[..0] == [];
    for k := 0 to |ops|
      invariant fresh(m) && fresh(m.slots) && m.Valid() && m.Distinct() && m.size <= MOST
      invariant (m.contents.Keys, m.size) == Final(({}, 0), ops[..k])
    {
      assert ops[..k + 1][..k] == ops[..k];
      match ops[k] {
        case Flush =>
          m.Clear();
          Flushed(Final(({}, 0), ops[..k]));
        case Execute(pc, translates) =>
          var b := m.FindOrTranslate(pc, translates);
      }
    }
    assert ops[..|ops|] == ops;
  }
}
