/** Fixed-width C integers over unbounded ones: 32-bit words, their signed readings,
    and the operators the interpreter applies to them. */
module Words {
  import opened Powers

  const W32: int := 0x1_0000_0000
  const W64: int := 0x1_0000_0000_0000_0000

  type Word = x: int | 0 <= x < 0x1_0000_0000
  type Int32 = x: int | -0x8000_0000 <= x < 0x8000_0000

  function U32(x: int): Word { x % W32 }

  function U64(x: int): int { x % W64 }

  function S32(w: int): Int32 {
    if U32(w) < 0x8000_0000 then U32(w) else U32(w) - W32
  }

  function S64(x: int): int {
    if U64(x) < 0x8000_0000_0000_0000 then U64(x) else U64(x) - W64
  }

  /** Storing a word as int32_t and reading it back loses nothing. */
  lemma SignRoundTrip(x: int)
    ensures U32(S32(x)) == U32(x)
  {}

  // ------------------------------------------------ bit by bit

  datatype BitGate = AndGate | OrGate | XorGate

  predicate Through(g: BitGate, a: bool, b: bool) {
    match g
    case AndGate => a && b
    case OrGate => a || b
    case XorGate => a != b
  }

  predicate Odd(a: nat) { a % 2 == 1 }

  /** Bit `k` of a number. */
  predicate BitAt(a: nat, k: nat) {
    if k == 0 then Odd(a) else BitAt(a / 2, k - 1)
  }

  /** The low `n` bits of two numbers, combined bit by bit. */
  function Combined(g: BitGate, n: nat, a: nat, b: nat): (x: nat)
    ensures x < Pow2(n)
  {
    if n == 0 then 0
    else (if Through(g, Odd(a), Odd(b)) then 1 else 0) + 2 * Combined(g, n - 1, a / 2, b / 2)
  }

  function Bitwise(g: BitGate, a: Word, b: Word): Word {
    Pow2Of32();
    Combined(g, 32, a, b)
  }

  function Xor(a: Word, b: Word): Word { Bitwise(XorGate, a, b) }

  function Or(a: Word, b: Word): Word { Bitwise(OrGate, a, b) }

  function And(a: Word, b: Word): Word { Bitwise(AndGate, a, b) }

  lemma {:induction false} CombinedCommutes(g: BitGate, n: nat, a: nat, b: nat)
    ensures Combined(g, n, a, b) == Combined(g, n, b, a)
  {
    if n > 0 { CombinedCommutes(g, n - 1, a / 2, b / 2); }
  }

  lemma BitwiseCommutes(a: Word, b: Word)
    ensures Xor(a, b) == Xor(b, a) && Or(a, b) == Or(b, a) && And(a, b) == And(b, a)
  {
    CombinedCommutes(XorGate, 32, a, b);
    CombinedCommutes(OrGate, 32, a, b);
    CombinedCommutes(AndGate, 32, a, b);
  }

  lemma {:induction false} CombinedBit(g: BitGate, n: nat, a: nat, b: nat, k: nat)
    requires k < n
    ensures BitAt(Combined(g, n, a, b), k) == Through(g, BitAt(a, k), BitAt(b, k))
  {
    if k > 0 { CombinedBit(g, n - 1, a / 2, b / 2, k - 1); }
  }

  /** Each bit of the result comes from the same bits of the operands. */
  lemma BitwiseBit(a: Word, b: Word, k: nat)
    requires k < 32
    ensures BitAt(Xor(a, b), k) == (BitAt(a, k) != BitAt(b, k))
    ensures BitAt(Or(a, b), k) == (BitAt(a, k) || BitAt(b, k))
    ensures BitAt(And(a, b), k) == (BitAt(a, k) && BitAt(b, k))
  {
    CombinedBit(XorGate, 32, a, b, k);
    CombinedBit(OrGate, 32, a, b, k);
    CombinedBit(AndGate, 32, a, b, k);
  }

  lemma LowBit(a: nat, b: nat, y: nat)
    ensures var x := (if Odd(a) != Odd(b) then 1 else 0) + 2 * y;
            Odd(x) == (Odd(a) != Odd(b)) && x / 2 == y && (Odd(a) != Odd(x)) == Odd(b)
  {}

  lemma {:induction false} XorBitsBack(n: nat, a: nat, b: nat)
    requires b < Pow2(n)
    ensures Combined(XorGate, n, a, Combined(XorGate, n, a, b)) == b
  {
    if n > 0 {
      LowBit(a, b, Combined(XorGate, n - 1, a / 2, b / 2));
      XorBitsBack(n - 1, a / 2, b / 2);
    }
  }

  lemma {:induction false} XorBitsZero(n: nat, a: nat)
    requires a < Pow2(n)
    ensures Combined(XorGate, n, a, 0) == a
  {
    if n > 0 { XorBitsZero(n - 1, a / 2); }
  }

  /** Flipping a word twice by the same difference gives it back. */
  lemma XorBack(a: Word, b: Word)
    ensures Xor(a, Xor(a, b)) == b && Xor(b, Xor(a, b)) == a && Xor(a, 0) == a
  {
    Pow2Of32();
    XorBitsBack(32, a, b);
    XorBitsBack(32, b, a);
    CombinedCommutes(XorGate, 32, a, b);
    XorBitsZero(32, a);
  }

  // ------------------------------------------------ arithmetic

  /** Shift amounts are taken modulo 32. */
  function Shl(a: Word, n: Word): Word { U32(a * Pow2(n % 32)) }

  function Shr(a: Word, n: Word): int { a / Pow2(n % 32) }

  function Sar(a: Word, n: Word): int { S32(a) / Pow2(n % 32) }

  /** C division and remainder, which truncate toward zero. */
  function Quot(a: int, b: int): int
    requires b != 0
  {
    if a >= 0 then a / b else -((-a) / b)
  }

  function Rem(a: int, b: int): int
    requires b != 0
  {
    a - Quot(a, b) * b
  }

  /** The high half of a product does not depend on whether the 64-bit product is
      read as signed (and shifted arithmetically) or unsigned. */
  lemma HighHalf(x: int)
    ensures U32(S64(x) / W32) == U32(U64(x) / W32)
  {}

  /** A product taken modulo 2^64 may reduce a factor first. */
  lemma WrapFactor(a: int, b: int)
    ensures U64(U64(a) * b) == U64(a * b)
  {
    var k := a / W64;
    assert a * b == U64(a) * b + (k * b) * W64 by {
      assert a * b == (k * W64) * b + U64(a) * b;
    }
  }
}
