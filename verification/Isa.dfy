/** What the results of the instructions mean as numbers, apart from how they are computed. */
module Isa {
  import opened Powers
  import opened Words
  import opened Machine

  function Abs(x: int): nat { if x < 0 then -x else x }

  /** The two readings of a word differ by a multiple of 2^32. */
  lemma Readings(w: Word)
    ensures S32(w) == if w < 0x8000_0000 then w else w - 0x1_0000_0000
    ensures U32(S32(w)) == w
  {}

  /** A quotient that truncates toward zero and its remainder. */
  ghost predicate Truncates(a: int, b: int, q: int, r: int) {
    a == q * b + r && Abs(r) < Abs(b) && (r == 0 || (r < 0 <==> a < 0))
  }

  lemma FloorBounds(a: nat, b: int)
    requires b != 0
    ensures a == a / b * b + a % b && 0 <= a % b < Abs(b)
  {}

  lemma NegatedProduct(q: int, b: int)
    ensures (-q) * b == -(q * b)
  {}

  lemma QuotTruncates(a: int, b: int)
    requires b != 0
    ensures Truncates(a, b, Quot(a, b), Rem(a, b))
  {
    if a >= 0 {
      FloorBounds(a, b);
    } else {
      FloorBounds(-a, b);
      NegatedProduct((-a) / b, b);
    }
  }

  /** There is only one such pair. */
  lemma TruncatesOnce(a: int, b: int, q: int, r: int, q': int, r': int)
    requires b != 0 && Truncates(a, b, q, r) && Truncates(a, b, q', r')
    ensures q == q' && r == r'
  {
    assert (q - q') * b == r' - r;
    assert Abs(r' - r) < Abs(b);
    if q != q' { ProductLarge(q - q', b); }
  }

  lemma ProductLarge(k: int, b: int)
    requires k != 0
    ensures Abs(k * b) >= Abs(b)
  {
    if k > 0 { MulAtLeast(k, Abs(b)); } else { MulAtLeast(-k, Abs(b)); NegatedProduct(k, b); }
    if b < 0 { NegatedProduct(-b, k); }
  }

  lemma MulAtLeast(k: nat, u: nat)
    requires k >= 1
    ensures k * u >= u
  {}

  lemma QuotSmall(a: Int32, b: Int32)
    requires b != 0 && !(a == -0x8000_0000 && b == -1)
    ensures -0x8000_0000 <= Quot(a, b) < 0x8000_0000 && -0x8000_0000 <= Rem(a, b) < 0x8000_0000
  {
    QuotTruncates(a, b);
    var q, r := Quot(a, b), Rem(a, b);
    if Abs(b) >= 2 {
      if Abs(q) >= 0x8000_0000 { LargeQuotient(q, b); }
    } else if b == 1 {
      assert q == a;
    } else {
      assert q == -a;
    }
  }

  lemma LargeQuotient(q: int, b: int)
    requires Abs(b) >= 2 && Abs(q) >= 0x8000_0000
    ensures Abs(q * b) >= 0x1_0000_0000
  {
    AbsProduct(q, b);
    MulMono(2, Abs(b), Abs(q));
  }

  lemma AbsProduct(q: int, b: int)
    ensures Abs(q * b) == Abs(q) * Abs(b)
  {
    if q < 0 { NegatedProduct(q, b); }
    if b < 0 { NegatedProduct(b, q); NegatedProduct(b, -q); }
  }

  lemma MulMono(a: nat, b: nat, u: nat)
    requires a <= b
    ensures a * u <= b * u
  {}

  lemma S32OfSmall(x: int)
    requires -0x8000_0000 <= x < 0x8000_0000
    ensures S32(U32(x)) == x
  {}

  /** DIV and REM: a quotient truncated toward zero and a remainder with the sign of the
      dividend; -1 and the dividend for a zero divisor; the dividend and zero on overflow. */
  lemma DivRem(a: Word, b: Word)
    ensures var q, r := S32(RegResult(Div, a, b)), S32(RegResult(RemS, a, b));
            if b == 0 then q == -1 && r == S32(a)
            else if S32(a) == -0x8000_0000 && S32(b) == -1 then q == S32(a) && r == 0
            else Truncates(S32(a), S32(b), q, r)
  {
    Readings(a);
    Readings(b);
    var x, y := S32(a), S32(b);
    hide S32, U32, Quot, Rem;
    if y != 0 && !(x == -0x8000_0000 && y == -1) {
      QuotTruncates(x, y);
      QuotSmall(x, y);
      S32OfSmall(Quot(x, y));
      S32OfSmall(Rem(x, y));
    } else {
      Edges(a, b);
    }
  }

  lemma Edges(a: Word, b: Word)
    ensures S32(W32 - 1) == -1 && S32(0) == 0 && S32(U32(S32(a))) == S32(a) && (S32(b) == 0 <==> b == 0)
    ensures S32(a) == -0x8000_0000 <==> a == 0x8000_0000
  {}

  lemma DivuRemu(a: Word, b: Word)
    ensures var q, r := RegResult(Divu, a, b), RegResult(Remu, a, b);
            if b == 0 then q == 0xffff_ffff && r == a else a == q * b + r && 0 <= r < b
  {
    if b != 0 {
      FloorBounds(a, b);
      QuotientWord(a, b);
      assert U32(a / b) == a / b && U32(a % b) == a % b;
    }
  }

  lemma QuotientWord(a: Word, b: Word)
    requires b != 0
    ensures 0 <= a / b <= a
  {}

  /** A product below 2^64 in size, cut in halves. */
  lemma Halves(p: int)
    ensures p == p / W32 * W32 + p % W32 && U64(p) / W32 == (p / W32) % W32 && U64(p) % W32 == p % W32
  {
    var h, l := p / W32, p % W32;
    var k, m := h / W32, h % W32;
    assert p == k * W64 + (m * W32 + l);
    assert U64(p) == m * W32 + l;
  }

  lemma ProductBounds(a: int, b: int, m: nat, n: nat)
    requires Abs(a) <= m && Abs(b) <= n
    ensures Abs(a * b) <= m * n
  {
    AbsProduct(a, b);
    MulMono(Abs(a), m, Abs(b));
    MulMono(Abs(b), n, m);
  }

  lemma HighBounds(p: int, lo: int, hi: int)
    requires lo * W32 <= p < hi * W32
    ensures lo <= p / W32 < hi
  {}

  /** MUL, MULH, MULHU and MULHSU are the two halves of the exact product. */
  lemma MulHalves(a: Word, b: Word)
    ensures var low := RegResult(Mul, a, b);
            && S32(RegResult(Mulh, a, b)) * W32 + low == S32(a) * S32(b)
            && RegResult(Mulhu, a, b) * W32 + low == a * b
            && S32(RegResult(Mulhsu, a, b)) * W32 + low == S32(a) * b
  {
    SignedHalves(S32(a), S32(b));
    SameLow(a, b);
    UnsignedHalves(a, b);
    WrapFactor(S32(a), b);
    SignedHalves(S32(a), b);
  }

  lemma SignedHalves(x: Int32, y: int)
    requires -0x8000_0000 <= y < 0x1_0000_0000
    ensures S32(U32(U64(x * y) / W32)) * W32 + U32(U64(x * y) % W32) == x * y
  {
    var p := x * y;
    Halves(p);
    SignedProduct(x, y);
    HighBounds(p, -0x8000_0000, 0x8000_0000);
    S32OfSmall(p / W32);
    assert U32(U64(p) / W32) == U32(p / W32);
  }

  lemma SignedProduct(x: Int32, y: int)
    requires -0x8000_0000 <= y < 0x1_0000_0000
    ensures -0x8000_0000 * W32 <= x * y < 0x8000_0000 * W32
  {
    if y < 0 { ProductBounds(x, y, 0x8000_0000, 0x8000_0000); }
    else {
      MulMono(y, 0xffff_ffff, Abs(x));
      AbsProduct(x, y);
      MulMono(Abs(x), 0x8000_0000, 0xffff_ffff);
    }
  }

  lemma UnsignedHalves(a: Word, b: Word)
    ensures U32(U64(a * b) / W32) * W32 + U32(U64(a * b) % W32) == a * b
  {
    ProductBounds(a, b, 0xffff_ffff, 0xffff_ffff);
    MulMono(0, a, b);
    HalvesOf(a * b);
  }

  lemma HalvesOf(p: int)
    requires Abs(p) <= 0xffff_ffff * 0xffff_ffff && p >= 0
    ensures U32(U64(p) / W32) * W32 + U32(U64(p) % W32) == p
  {
    Halves(p);
    HighBounds(p, 0, W32);
  }

  lemma Multiples(p: int, k: int)
    ensures (p - k * W32) % W32 == p % W32
  {}

  /** Reading a factor as signed takes a multiple of 2^32 from the product. */
  lemma SignedFactor(a: Word, b: int)
    ensures (S32(a) * b) % W32 == (a * b) % W32
  {
    Readings(a);
    hide S32;
    if a >= 0x8000_0000 {
      assert S32(a) * b == a * b - b * W32;
      Multiples(a * b, b);
    }
  }

  lemma LowHalf(p: int)
    ensures U32(U64(p) % W32) == p % W32
  {
    Halves(p);
  }

  /** The low half does not depend on how the factors are read. */
  lemma SameLow(a: Word, b: Word)
    ensures U32(U64(S32(a) * S32(b)) % W32) == U32(U64(a * b) % W32) == U32(U64(S32(a) * b) % W32)
  {
    hide U32, U64, S32;
    LowHalf(S32(a) * S32(b));
    LowHalf(a * b);
    LowHalf(S32(a) * b);
    SignedFactor(a, S32(b));
    SignedFactor(b, a);
    SignedFactor(a, b);
    assert a * S32(b) == S32(b) * a && a * b == b * a;
  }

  // ------------------------------------------------ shifts, comparisons, immediates

  lemma Scaled(k: int, p: nat)
    requires p >= 1
    ensures k >= 0 ==> k * p >= k
    ensures k <= 0 ==> k * p <= k
  {
    if k >= 0 { MulMono(1, p, k); } else { MulMono(1, p, -k); NegatedProduct(-k, p); }
  }

  lemma FloorDivision(x: int, p: nat)
    requires p >= 1
    ensures x / p * p <= x < (x / p + 1) * p
  {}

  lemma ShiftShrinks(x: int, p: nat)
    requires p >= 1
    ensures x >= 0 ==> 0 <= x / p <= x
    ensures x < 0 ==> x <= x / p < 0
  {
    FloorDivision(x, p);
    Scaled(x / p, p);
    Scaled(x / p + 1, p);
  }

  /** SLL multiplies by a power of two modulo 2^32; SRL and SRA divide by it, rounding down. */
  lemma ShiftResults(a: Word, b: Word)
    ensures var p := Pow2(b % 32);
            && RegResult(Sll, a, b) == (a * p) % W32
            && RegResult(Srl, a, b) * p <= a < (RegResult(Srl, a, b) + 1) * p
            && S32(RegResult(Sra, a, b)) * p <= S32(a) < (S32(RegResult(Sra, a, b)) + 1) * p
  {
    hide Pow2, S32;
    var p := Pow2(b % 32);
    RightShift(a, p);
    RightShift(S32(a), p);
    SmallWord(a / p);
  }

  lemma RightShift(x: int, p: nat)
    requires -0x8000_0000 <= x < 0x1_0000_0000 && p >= 1
    ensures x >= 0 ==> 0 <= x / p < 0x1_0000_0000
    ensures x / p * p <= x < (x / p + 1) * p
    ensures x < 0x8000_0000 ==> S32(U32(x / p)) == x / p
  {
    FloorDivision(x, p);
    ShiftShrinks(x, p);
    if x < 0x8000_0000 { S32OfSmall(x / p); }
  }

  lemma SmallWord(x: int)
    ensures 0 <= x < 0x1_0000_0000 ==> U32(x) == x
  {}

  /** A register-immediate instruction is the register-register one with the immediate as its
      second operand. */
  function RegOf(op: ImmOp): RegOp {
    match op
    case Addi => Add
    case Slti => Slt
    case Sltiu => Sltu
    case Xori => XorR
    case Ori => OrR
    case Andi => AndR
    case Slli => Sll
    case Srli => Srl
    case Srai => Sra
  }

  lemma AddWraps(a: Word, imm: Int32)
    ensures U32(a + imm) == U32(a + U32(imm))
  {}

  lemma ImmediateIsRegister(op: ImmOp, a: Word, imm: Int32)
    ensures ImmResult(op, a, imm) == RegResult(RegOf(op), a, U32(imm))
  {
    hide Xor, Or, And, Shl, Shr, Sar, U32, S32;
    S32OfSmall(imm);
    AddWraps(a, imm);
  }

  /** The numbers behind sums, comparisons and branches. */
  lemma Compares(a: Word, b: Word)
    ensures (RegResult(Add, a, b) - a - b) % W32 == 0 && (RegResult(Sub, a, b) + b - a) % W32 == 0
    ensures RegResult(Slt, a, b) == (if S32(a) < S32(b) then 1 else 0)
    ensures RegResult(Sltu, a, b) == (if a < b then 1 else 0)
    ensures Taken(Beq, a, b) <==> a == b
    ensures Taken(Blt, a, b) <==> S32(a) < S32(b)
    ensures Taken(Bltu, a, b) <==> a < b
    ensures Taken(Bne, a, b) == !Taken(Beq, a, b)
    ensures Taken(Bge, a, b) == !Taken(Blt, a, b)
    ensures Taken(Bgeu, a, b) == !Taken(Bltu, a, b)
  {}

  /** A load keeps the low bits of what memory holds, and extends them by zero or by sign. */
  lemma LoadExtends(v: Word)
    ensures LoadResult(Lw, v) == v
    ensures 0 <= LoadResult(Lbu, v) < 0x100 && (v - LoadResult(Lbu, v)) % 0x100 == 0
    ensures 0 <= LoadResult(Lhu, v) < 0x1_0000 && (v - LoadResult(Lhu, v)) % 0x1_0000 == 0
    ensures -0x80 <= S32(LoadResult(Lb, v)) < 0x80 && (v - S32(LoadResult(Lb, v))) % 0x100 == 0
    ensures -0x8000 <= S32(LoadResult(Lh, v)) < 0x8000 && (v - S32(LoadResult(Lh, v))) % 0x1_0000 == 0
  {
    ByteExtends(v);
    HalfExtends(v);
    LowBytes(v);
    hide LoadResult, S32;
  }

  lemma LowBytes(v: Word)
    ensures LoadResult(Lw, v) == v
    ensures 0 <= LoadResult(Lbu, v) < 0x100 && (v - LoadResult(Lbu, v)) % 0x100 == 0
    ensures 0 <= LoadResult(Lhu, v) < 0x1_0000 && (v - LoadResult(Lhu, v)) % 0x1_0000 == 0
  {}

  lemma ByteExtends(v: Word)
    ensures -0x80 <= S32(LoadResult(Lb, v)) < 0x80 && (v - S32(LoadResult(Lb, v))) % 0x100 == 0
  {
    hide U32, S32;
    var low := v % 0x100;
    var x := if low < 0x80 then low else low - 0x100;
    S32OfSmall(x);
    SmallWord(low);
    assert LoadResult(Lb, v) == U32(x);
  }

  lemma HalfExtends(v: Word)
    ensures -0x8000 <= S32(LoadResult(Lh, v)) < 0x8000 && (v - S32(LoadResult(Lh, v))) % 0x1_0000 == 0
  {
    hide U32, S32;
    var low := v % 0x1_0000;
    var x := if low < 0x8000 then low else low - 0x1_0000;
    S32OfSmall(x);
    SmallWord(low);
    assert LoadResult(Lh, v) == U32(x);
  }

  /** The atomic extrema pick one of the operands, the signed or unsigned one. */
  lemma AtomicExtrema(a: Word, b: Word)
    ensures AmoResult(MinW, a, b) in {a, b} && S32(AmoResult(MinW, a, b)) <= S32(a)
    ensures AmoResult(MaxW, a, b) in {a, b} && S32(AmoResult(MaxW, a, b)) >= S32(a)
    ensures S32(AmoResult(MinW, a, b)) <= S32(b) <= S32(AmoResult(MaxW, a, b))
    ensures AmoResult(MinuW, a, b) in {a, b} && AmoResult(MinuW, a, b) <= a
    ensures AmoResult(MaxuW, a, b) in {a, b} && AmoResult(MaxuW, a, b) >= a
    ensures AmoResult(MinuW, a, b) <= b <= AmoResult(MaxuW, a, b)
  {}
}
