/** The instruction words of waits and semaphores: what their fields make the gate, the
    semaphores and the source registers do. */
module GateFields {
  import opened Powers
  import opened Words
  import opened Encoding
  import opened WaitGate
  import opened Semaphores
  import Banks

  // ------------------------------------------------ bits of a field

  lemma MulMono(a: nat, b: nat, u: nat)
    requires a <= b
    ensures a * u <= b * u
  {}

  lemma Quotient(x: nat, d: nat) returns (p: nat)
    requires d > 0
    ensures p == x / d && p * d <= x < p * d + d
  {
    p := x / d;
    assert x == p * d + x % d;
  }

  lemma Distribute(p: nat, q: nat, d: nat)
    ensures (p + q) * d == p * d + q * d
  {}

  lemma QuotientIs(x: nat, d: nat, q: nat)
    requires d > 0 && q * d <= x < q * d + d
    ensures x / d == q
  {
    var p := Quotient(x, d);
    Distribute(p, 1, d);
    Distribute(q, 1, d);
    if p < q { MulMono(p + 1, q, d); }
    if q < p { MulMono(q + 1, p, d); }
  }

  lemma DivideSum(m: nat, q: nat, d: nat)
    requires d > 0
    ensures (m + q * d) / d == m / d + q
  {
    var p := Quotient(m, d);
    Distribute(p, q, d);
    QuotientIs(m + q * d, d, p + q);
  }

  lemma EvenSum(a: nat, b: nat)
    ensures (a + 2 * b) % 2 == a % 2
  {}

  lemma Regroup(a: nat, b: nat, c: nat)
    ensures a * (b * (2 * c)) == (2 * (a * c)) * b
  {}

  lemma EvenAbove(m: nat, high: nat, d: nat, rest: nat, above: nat)
    requires d > 0 && above == (2 * (high * rest)) * d
    ensures (m + above) / d % 2 == m / d % 2
  {
    DivideSum(m, 2 * (high * rest), d);
    EvenSum(m / d, high * rest);
  }

  /** Higher fields do not show in the low bits. */
  lemma LowBits(m: nat, high: nat, n: nat, k: nat)
    requires k < n
    ensures (m + high * Pow2(n)) / Pow2(k) % 2 == m / Pow2(k) % 2
  {
    Pow2Add(k, n - k);
    Regroup(high, Pow2(k), Pow2(n - k - 1));
    EvenAbove(m, high, Pow2(k), Pow2(n - k - 1), high * Pow2(n));
  }

  lemma LowField(m: nat, high: nat, n: nat)
    ensures BitsOf(m + high * Pow2(n), n) == BitsOf(m, n)
  {
    forall k: nat | k < n ensures (m + high * Pow2(n)) / Pow2(k) % 2 == m / Pow2(k) % 2 {
      LowBits(m, high, n, k);
    }
  }

  lemma {:induction false} BitOfPower(c: nat, k: nat)
    ensures Pow2(c) / Pow2(k) % 2 == if k == c then 1 else 0
  {
    if k <= c {
      Pow2Add(k, c - k);
      PowerParity(c - k);
      hide Pow2;
      PowerOver(Pow2(c - k), Pow2(k));
    } else {
      Pow2Mono(c + 1, k);
      QuotientIs(Pow2(c), Pow2(k), 0);
    }
  }

  lemma PowerParity(n: nat)
    ensures Pow2(n) % 2 == if n == 0 then 1 else 0
  {
    if n > 0 { EvenSum(0, Pow2(n - 1)); }
  }

  lemma PowerOver(q: nat, d: nat)
    requires d > 0
    ensures (d * q) / d == q
  {
    DivideSum(0, q, d);
  }

  /** A field with one bit set. */
  lemma OneBit(c: nat, n: nat)
    requires c < n
    ensures BitsOf(Pow2(c), n) == {c}
  {
    forall k: nat | k < n ensures Pow2(c) / Pow2(k) % 2 == if k == c then 1 else 0 {
      BitOfPower(c, k);
    }
  }

  // ------------------------------------------------ which instructions a block bit holds back

  predicate Packs(op: nat) { op == 0x41 || op == 0x4a }

  predicate Unpacks(op: nat) { op == 0x42 || op == 0x43 }

  predicate MovesData(op: nat) { op == 0x40 }

  predicate IsScalar(op: nat) {
    || 0x45 <= op <= 0x46 || 0x48 <= op <= 0x49 || 0x58 <= op <= 0x5d || 0x60 <= op <= 0x64 || 0x66 <= op <= 0x68
  }

  predicate SetsCounters(op: nat) { op == 0x44 || 0x50 <= op <= 0x57 || op == 0x5e }

  predicate IsMatrix(op: nat) {
    || 0x08 <= op <= 0x0b || 0x10 <= op <= 0x13 || 0x16 <= op <= 0x18 || 0x21 <= op <= 0x29 || 0x30 <= op <= 0x38
    || op == 0x3a
  }

  /** The units by block bit: 0 stands for all that move or address tiles, then the semaphores,
      the packers, the unpackers, the mover, the scalar, the matrix, the configuration and the
      vector unit. */
  predicate InUnit(bit: nat, op: nat) {
    match bit
    case 0 => SetsCounters(op) || Packs(op) || Unpacks(op) || MovesData(op) || IsScalar(op)
    case 1 => op == 0xa0 || op == 0xa1 || op == SEMINIT || op == SEMPOST || op == SEMGET
    case 2 => Packs(op)
    case 3 => Unpacks(op)
    case 4 => MovesData(op)
    case 5 => IsScalar(op)
    case 6 => IsMatrix(op)
    case 7 => 0xb0 <= op <= 0xb8
    case 8 => 0x70 <= op <= 0x99
    case _ => false
  }

  lemma LowOpcodes(bit: nat, op: nat)
    requires bit < 9 && op < 0x44
    ensures bit in UnitBits(op) <==> InUnit(bit, op)
  {}

  lemma MiddleOpcodes(bit: nat, op: nat)
    requires bit < 9 && 0x44 <= op < 0x70
    ensures bit in UnitBits(op) <==> InUnit(bit, op)
  {}

  lemma HighOpcodes(bit: nat, op: nat)
    requires bit < 9 && 0x70 <= op
    ensures bit in UnitBits(op) <==> InUnit(bit, op)
  {}

  /** A block bit holds back its unit and every wait. */
  lemma BlockTable(bit: nat, op: nat)
    requires bit < 9
    ensures bit in BlockBits(op) <==> InUnit(bit, op) || IsWait(op)
  {
    hide UnitBits, InUnit;
    if op < 0x44 { LowOpcodes(bit, op); } else if op < 0x70 { MiddleOpcodes(bit, op); } else { HighOpcodes(bit, op); }
  }

  // ------------------------------------------------ semaphores

  /** SEMPOST or SEMGET of one semaphore. */
  function SemWord(opcode: nat, s: nat): Word
    requires opcode < 256 && s < 8
  {
    Pow2Mono(s, 7);
    opcode * 0x100_0000 + 4 * Pow2(s)
  }

  lemma SemFields(opcode: nat, s: nat)
    requires opcode < 256 && s < 8
    ensures Opcode(SemWord(opcode, s)) == opcode && Selected(SemWord(opcode, s)) == {s}
  {
    Pow2Mono(s, 7);
    assert Pow2(7) == 128;
    assert Param(SemWord(opcode, s)) == 4 * Pow2(s);
    OneBit(s, 8);
  }

  /** Such a word moves the semaphore that its field names, by one, and no other one. */
  lemma MovesNamed(core: Core, s: nat, k: nat)
    requires s < 8 && k < 8
    ensures Effect(core, SemWord(SEMPOST, s)).sem[k] == core.sem[k] + (if k == s && core.sem[s] < 15 then 1 else 0)
    ensures Effect(core, SemWord(SEMGET, s)).sem[k] == core.sem[k] - (if k == s && core.sem[s] > 0 then 1 else 0)
  {
    SemFields(SEMPOST, s);
    SemFields(SEMGET, s);
    hide SemWord, Selected;
  }

  /** SEMINIT of one semaphore. */
  function InitWord(s: nat, value: nat, max: nat): Word
    requires s < 8 && value < 16 && max < 16
  {
    Pow2Mono(s, 7);
    SEMINIT * 0x100_0000 + max * 0x10_0000 + value * 0x1_0000 + 4 * Pow2(s)
  }

  lemma InitFields(s: nat, value: nat, max: nat)
    requires s < 8 && value < 16 && max < 16
    ensures var insn := InitWord(s, value, max);
            && Opcode(insn) == SEMINIT && Selected(insn) == {s}
            && Param(insn) / 0x10_0000 == max && Param(insn) / 0x1_0000 % 16 == value
  {
    Pow2Mono(s, 7);
    assert Pow2(7) == 128 && Pow2(8) == 256;
    var param := max * 0x10_0000 + value * 0x1_0000 + 4 * Pow2(s);
    assert Param(InitWord(s, value, max)) == param;
    assert param / 0x1_0000 == max * 16 + value;
    assert param / 4 == Pow2(s) + (max * 0x400 + value * 0x40) * 0x100;
    LowField(Pow2(s), max * 0x400 + value * 0x40, 8);
    OneBit(s, 8);
  }

  /** It sets value and maximum of the semaphore that its field names, and of no other one. */
  lemma SetsNamed(core: Core, s: nat, value: nat, max: nat, k: nat)
    requires s < 8 && k < 8 && value < 16 && max < 16
    ensures var r := Effect(core, InitWord(s, value, max));
            && r.sem[k] == (if k == s then value else core.sem[k])
            && r.max[k] == (if k == s then max else core.max[k])
  {
    InitFields(s, value, max);
    hide InitWord, Selected, Param;
  }

  /** SEMWAIT of one semaphore that holds back the semaphore instructions: condition 0 waits
      for a value above zero, condition 1 for one below the maximum. */
  function SemWaitWord(s: nat, condition: nat): Word
    requires s < 8 && condition < 2
  {
    Pow2Mono(s, 7);
    SEMWAIT * 0x100_0000 + 2 * 0x8000 + 4 * Pow2(s) + Pow2(condition)
  }

  lemma SemWaitFields(s: nat, condition: nat)
    requires s < 8 && condition < 2
    ensures Opcode(SemWaitWord(s, condition)) == SEMWAIT
    ensures Latched(SemWaitWord(s, condition)) == Gate(true, SEMWAIT, {SYNC_UNIT}, {condition}, {s})
  {
    Pow2Mono(s, 7);
    assert Pow2(7) == 128 && Pow2(2) == 4 && Pow2(1) == 2 && Pow2(0) == 1;
    var param := 2 * 0x8000 + 4 * Pow2(s) + Pow2(condition);
    assert Param(SemWaitWord(s, condition)) == param;
    assert param / 0x8000 == 2 && param % 4 == Pow2(condition);
    assert param / 4 == 0x4000 + Pow2(s);
    OneBit(1, 9);
    OneBit(condition, 2);
    LowField(Pow2(condition), 0x4000 + Pow2(s), 2);
    SemField(s);
  }

  lemma SemField(s: nat)
    requires s < 8
    ensures BitsOf(0x4000 + Pow2(s), 13) == {s}
  {
    assert Pow2(13) == 0x2000;
    LowField(Pow2(s), 2, 13);
    OneBit(s, 13);
  }

  /** Waiting and posting, or waiting and getting, `n` times. */
  function Transfers(role: Role, s: nat, n: nat): seq<Word>
    requires s < 8
  {
    if n == 0 then []
    else
      [SemWaitWord(s, if role.Producer? then 1 else 0), SemWord(if role.Producer? then SEMPOST else SEMGET, s)]
      + Transfers(role, s, n - 1)
  }

  lemma {:induction false} TransfersDisciplined(role: Role, s: nat, n: nat)
    requires s < 8
    ensures Disciplined(role, Transfers(role, s, n), false, s)
  {
    if n > 0 {
      var prog, rest := Transfers(role, s, n), Transfers(role, s, n - 1);
      var wait, move := prog[0], prog[1];
      SemWaitFields(s, if role.Producer? then 1 else 0);
      SemFields(if role.Producer? then SEMPOST else SEMGET, s);
      hide SemWaitWord, SemWord, Latched, Selected, Transfers;
      assert prog[1..] == [move] + rest && prog[1..][1..] == rest;
      TransfersDisciplined(role, s, n - 1);
      assert Disciplined(role, prog[1..], true, s);
    }
  }

  /** A producer and a consumer made of these words: the count is conserved in every
      interleaving. */
  lemma ProducerConsumer(core: Core, n: nat, m: nat, turns: seq<Turn>, s: nat)
    requires s < 8 && core.sem[s] <= core.max[s] <= 15
    ensures var after := Turns(Start(core, Transfers(Producer, s, n), Transfers(Consumer, s, m)), turns, s);
            && after.core.sem[s] <= core.max[s]
            && after.core.sem[s] == core.sem[s] + after.p.moves - after.c.moves
  {
    TransfersDisciplined(Producer, s, n);
    TransfersDisciplined(Consumer, s, m);
    hide Transfers, Disciplined, Turns;
    EveryInterleaving(core, Transfers(Producer, s, n), Transfers(Consumer, s, m), turns, s);
  }

  // ------------------------------------------------ source registers

  /** What the gate sees of the source registers. */
  function Seen(p: Banks.Pair, core: Core): Core
    requires Banks.WellFormed(p)
  {
    core.(unpA := p.a.valid[p.a.unp], unpB := p.b.valid[p.b.unp],
          mathA := p.a.valid[p.a.math], mathB := p.b.valid[p.b.math])
  }

  /** STALLWAIT with one condition. */
  function StallWord(block: nat, condition: nat): Word
    requires 0 < block < 512 && condition < 15
  {
    Pow2Mono(condition, 14);
    assert Pow2(14) == 0x4000;
    STALLWAIT * 0x100_0000 + block * 0x8000 + Pow2(condition)
  }

  lemma StallFields(block: nat, condition: nat)
    requires 0 < block < 512 && condition < 15
    ensures Opcode(StallWord(block, condition)) == STALLWAIT
    ensures Latched(StallWord(block, condition)) == Gate(true, STALLWAIT, BlockOf(block * 0x8000), {condition}, {})
  {
    Pow2Mono(condition, 14);
    assert Pow2(14) == 0x4000 && Pow2(15) == 0x8000;
    var param := block * 0x8000 + Pow2(condition);
    assert Param(StallWord(block, condition)) == param;
    assert param / 0x8000 == block && param % 0x8000 == Pow2(condition);
    LowField(Pow2(condition), block, 15);
    OneBit(condition, 15);
  }

  /** Conditions 5 and 6 wait until SrcA or SrcB has a bank free for the unpackers, 7 and 8
      until it has one for the matrix unit, all others for nothing. */
  lemma StallsOnRings(block: nat, condition: nat, p: Banks.Pair, ra: Banks.Ring, rb: Banks.Ring, core: Core)
    requires 0 < block < 512 && condition < 15 && Banks.InRing(p.a, ra) && Banks.InRing(p.b, rb)
    ensures Banks.WellFormed(p)
    ensures Satisfied(Latched(StallWord(block, condition)), Seen(p, core)) <==>
            match condition
            case 5 => !Banks.Full(ra)
            case 6 => !Banks.Full(rb)
            case 7 => !Banks.Empty(ra)
            case 8 => !Banks.Empty(rb)
            case _ => true
  {
    Banks.Ownership(p.a, ra);
    Banks.Ownership(p.b, rb);
    StallFields(block, condition);
    hide Latched, StallWord, Banks.InRing;
  }
}
