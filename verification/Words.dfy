/**
Machine words as bounded integers, with the C operators the simulator uses on them.
Shifts are defined the way the C standard defines them on unsigned operands (division by
and multiplication modulo a power of two); the bitwise operators work bit by bit.
The lemmas relate the two views.
 */
module Words {

  const WORD := 0x1_0000_0000

  type Word = x: int | 0 <= x < 0x1_0000_0000
  type Half = x: int | 0 <= x < 0x1_0000
  type Byte = x: int | 0 <= x < 0x100
  type Flag = x: int | 0 <= x <= 1

  datatype Option<+T> = None | Some(value: T)

  function Pow2(n: nat): (p: nat)
    ensures p > 0
  {
    if n == 0 then 1 else 2 * Pow2(n - 1)
  }

  // ----- wrap-around arithmetic -----

  function Wrap(x: int): Word {
    x % WORD
  }

  lemma WrapSum(x: int, y: int)
    ensures Wrap(Wrap(x) + y) == Wrap(x + y)
  {
  }

  lemma WrapWord(x: Word)
    ensures Wrap(x) == x
  {
  }

  lemma WrapMoves(x: int, d: int)
    requires -WORD < d < WORD
    ensures Wrap(x + d) == Wrap(x) <==> d == 0
  {
  }

  function Signed(x: Word): int {
    if x < 0x8000_0000 then x else x - WORD
  }

  // ----- single bits -----

  /** Bit `i` of `x`, peeled off from the low end. */
  function Bit(x: nat, i: nat): Flag {
    if i == 0 then x % 2 else Bit(x / 2, i - 1)
  }

  // ----- C operators on 32-bit operands -----

  function Shl(x: Word, n: nat): Word {
    Wrap(x * Pow2(n))
  }

  function Shr(x: Word, n: nat): (r: Word)
    ensures r <= x
  {
    DivMod(x, Pow2(n));
    x / Pow2(n)
  }

  function Not(x: Word): Word {
    WORD - 1 - x
  }

  function And(x: nat, y: nat): (r: nat)
    ensures r <= x && r <= y
  {
    if x == 0 || y == 0 then 0 else
    (if x % 2 == 1 && y % 2 == 1 then 1 else 0) + 2 * And(x / 2, y / 2)
  }

  function Or(x: nat, y: nat): (r: nat)
    ensures r <= x + y
  {
    if x == 0 then y else if y == 0 then x else
    (if x % 2 == 1 || y % 2 == 1 then 1 else 0) + 2 * Or(x / 2, y / 2)
  }

  function Xor(x: nat, y: nat): (r: nat)
    ensures r <= x + y
  {
    if x == 0 then y else if y == 0 then x else
    (if x % 2 != y % 2 then 1 else 0) + 2 * Xor(x / 2, y / 2)
  }

  // ----- powers of two and division -----

  lemma MulMono(a: nat, x: int, y: int)
    requires x <= y
    ensures a * x <= a * y
  {
  }

  /** Quotient and remainder are unique. */
  lemma EuclidUnique(d: int, q: int, r: int, q': int, r': int)
    requires 0 <= r < d && 0 <= r' < d
    requires d * q + r == d * q' + r'
    ensures q == q' && r == r'
  {
    if q < q' {
      MulMono(d, q + 1, q');
    } else if q' < q {
      MulMono(d, q' + 1, q);
    }
  }

  lemma DivUnique(x: int, d: int, q: int, r: int)
    requires x == d * q + r && 0 <= r < d
    ensures x / d == q && x % d == r
  {
    EuclidUnique(d, q, r, x / d, x % d);
  }

  lemma DivLe(x: nat, d: nat)
    requires d > 0
    ensures x / d <= x
  {
    var q := x / d;
    assert x == d * q + x % d;
    MulMono(q, 1, d);
  }

  lemma DivMod(x: nat, d: nat)
    requires d > 0
    ensures 0 <= x / d <= x && 0 <= x % d < d && x == d * (x / d) + x % d
  {
    DivLe(x, d);
  }

  lemma DivAtLeast(x: nat, d: nat, h: nat)
    requires d > 0 && d * h <= x
    ensures h <= x / d
  {
    DivMod(x, d);
    var q := x / d;
    if q + 1 <= h {
      MulMono(d, q + 1, h);
    }
  }

  lemma DoubleMod(y: nat)
    ensures (2 * (y % WORD)) % WORD == (2 * y) % WORD
  {
    var q, r := y / WORD, 2 * (y % WORD);
    if r < WORD {
      DivUnique(r, WORD, 0, r);
      DivUnique(2 * y, WORD, 2 * q, r);
    } else {
      DivUnique(r, WORD, 1, r - WORD);
      DivUnique(2 * y, WORD, 2 * q + 1, r - WORD);
    }
  }

  lemma DoubleProduct(x: int, y: int)
    ensures 2 * (x * y) == (2 * x) * y == x * (2 * y)
  {
  }

  lemma Pow2Add(a: nat, b: nat)
    ensures Pow2(a + b) == Pow2(a) * Pow2(b)
  {
    if a > 0 {
      Pow2Add(a - 1, b);
      DoubleProduct(Pow2(a - 1), Pow2(b));
    }
  }

  lemma Pow2Mono(a: nat, b: nat)
    requires a <= b
    ensures Pow2(a) <= Pow2(b)
  {
    if a < b {
      Pow2Mono(a, b - 1);
    }
  }

  lemma Pow2Values()
    ensures Pow2(1) == 2 && Pow2(2) == 4 && Pow2(4) == 16 && Pow2(5) == 32 && Pow2(7) == 0x80
    ensures Pow2(8) == 0x100 && Pow2(12) == 0x1000 && Pow2(16) == 0x1_0000 && Pow2(20) == 0x10_0000
    ensures Pow2(21) == 0x20_0000 && Pow2(22) == 0x40_0000 && Pow2(23) == 0x80_0000 && Pow2(24) == 0x100_0000
    ensures Pow2(25) == 0x200_0000 && Pow2(26) == 0x400_0000 && Pow2(28) == 0x1000_0000
    ensures Pow2(29) == 0x2000_0000 && Pow2(30) == 0x4000_0000
    ensures Pow2(31) == 0x8000_0000 && Pow2(32) == WORD
  {
    assert Pow2(8) == 0x100;
    Pow2Add(8, 8);
    Pow2Add(16, 8);
    Pow2Add(16, 16);
    assert Pow2(12) == 0x1000;
    assert Pow2(20) == 16 * Pow2(16);
    assert Pow2(28) == 16 * Pow2(24);
    assert Pow2(32) == 16 * Pow2(28);
  }

  lemma MulLt(a: nat, b: nat, r: nat, s: nat)
    requires r < b && s < a
    ensures a * r + s < a * b
  {
    assert a * r <= a * (b - 1);
  }

  lemma DivDiv(x: nat, a: nat, b: nat)
    requires a > 0 && b > 0
    ensures a * b > 0
    ensures x / (a * b) == (x / a) / b
  {
    var q, r := x / a, x % a;
    var q2, r2 := q / b, q % b;
    MulLt(a, b, r2, r);
    calc {
      x;
      a * q + r;
      a * (b * q2 + r2) + r;
      (a * b) * q2 + (a * r2 + r);
    }
    DivUnique(x, a * b, q2, a * r2 + r);
  }

  /** (x*a) mod (a*b) keeps the low part of x: a * (x mod b). */
  lemma MulMod(x: nat, a: nat, b: nat)
    requires a > 0 && b > 0
    ensures a * b > 0
    ensures (x * a) % (a * b) == a * (x % b)
  {
    var q, r := x / b, x % b;
    assert x * a == (a * b) * q + a * r by {
      assert x == b * q + r;
      assert x * a == a * (b * q + r) == a * (b * q) + a * r;
      assert a * (b * q) == (a * b) * q;
    }
    MulLt(a, b, r, 0);
    DivUnique(x * a, a * b, q, a * r);
  }

  lemma MulDivCancel(x: nat, a: nat, b: nat)
    requires a > 0 && b > 0
    ensures a * b > 0
    ensures (a * x) / (a * b) == x / b
  {
    var q, r := x / b, x % b;
    assert a * x == (a * b) * q + a * r by {
      assert a * (b * q + r) == a * (b * q) + a * r;
      assert a * (b * q) == (a * b) * q;
    }
    MulLt(a, b, r, 0);
    DivUnique(a * x, a * b, q, a * r);
  }

  /** The top bit of the low 2m part of x is bit m of x. */
  lemma HighOfLow(x: nat, m: nat)
    requires m > 0
    ensures (x % (2 * m)) / m == (x / m) % 2
  {
    var q, r := x / m, x % m;
    var k, b := q / 2, q % 2;
    assert x == m * (2 * k + b) + r;
    assert m * (2 * k + b) == (2 * m) * k + m * b;
    assert 0 <= m * b + r < 2 * m by {
      if b == 0 { assert m * b == 0; } else { assert m * b == m; }
    }
    DivUnique(x, 2 * m, k, m * b + r);
    DivUnique(m * b + r, m, b, r);
  }

  /** Reduction modulo k * p, the low k-part first. */
  lemma ModScale(x: nat, k: nat, p: nat)
    requires k > 0 && p > 0
    ensures k * p > 0
    ensures x % (k * p) == k * ((x / k) % p) + x % k
  {
    DivMod(x, k);
    DivMod(x / k, p);
    ModScaleParts(x, k, p, (x / k) / p, (x / k) % p, x % k);
  }

  lemma ModScaleParts(x: nat, k: nat, p: nat, q: nat, r: nat, l: nat)
    requires k > 0 && p > 0 && r < p && l < k && x == k * (p * q + r) + l
    ensures k * p > 0
    ensures x % (k * p) == k * r + l
  {
    assert k * (p * q + r) == (k * p) * q + k * r;
    MulLt(k, p, r, l);
    DivUnique(x, k * p, q, k * r + l);
  }

  lemma ModDouble(x: nat, p: nat)
    requires p > 0
    ensures x % (2 * p) == 2 * ((x / 2) % p) + x % 2
  {
    ModScale(x, 2, p);
  }

  lemma DivBound(x: nat, a: nat, b: nat)
    requires a > 0 && b > 0 && x < a * b
    ensures x / a < b
  {
    var q := x / a;
    assert x == a * q + x % a;
    if b <= q {
      MulMono(a, b, q);
    }
  }

  // ----- bits -----

  lemma {:induction false} BitIsShift(x: nat, i: nat)
    ensures Bit(x, i) == (x / Pow2(i)) % 2
  {
    if i > 0 {
      BitIsShift(x / 2, i - 1);
      DivDiv(x, 2, Pow2(i - 1));
    }
  }

  lemma {:induction false} BitAnd(x: nat, y: nat, i: nat)
    ensures Bit(And(x, y), i) == if Bit(x, i) == 1 && Bit(y, i) == 1 then 1 else 0
    decreases i
  {
    if x == 0 || y == 0 {
      BitZero(i);
    } else if i > 0 {
      BitAnd(x / 2, y / 2, i - 1);
    }
  }

  lemma {:induction false} BitOr(x: nat, y: nat, i: nat)
    ensures Bit(Or(x, y), i) == if Bit(x, i) == 1 || Bit(y, i) == 1 then 1 else 0
    decreases i
  {
    if x == 0 || y == 0 {
      BitZero(i);
    } else if i > 0 {
      BitOr(x / 2, y / 2, i - 1);
    }
  }

  lemma {:induction false} BitXor(x: nat, y: nat, i: nat)
    ensures Bit(Xor(x, y), i) == if Bit(x, i) != Bit(y, i) then 1 else 0
    decreases i
  {
    if x == 0 || y == 0 {
      BitZero(i);
    } else if i > 0 {
      BitXor(x / 2, y / 2, i - 1);
    }
  }

  lemma {:induction false} BitZero(i: nat)
    ensures Bit(0, i) == 0
  {
    if i > 0 {
      BitZero(i - 1);
    }
  }

  lemma {:induction false} BitComplement(x: nat, i: nat, n: nat)
    requires i < n && x < Pow2(n)
    ensures Bit(Pow2(n) - 1 - x, i) == 1 - Bit(x, i)
    decreases n
  {
    if i > 0 {
      BitComplement(x / 2, i - 1, n - 1);
      assert (Pow2(n) - 1 - x) / 2 == Pow2(n - 1) - 1 - x / 2;
    }
  }

  lemma BitNot(x: Word, i: nat)
    requires i < 32
    ensures Bit(Not(x), i) == 1 - Bit(x, i)
  {
    Pow2Values();
    BitComplement(x, i, 32);
  }

  lemma {:induction false} BitOfPow2(n: nat, i: nat)
    ensures Bit(Pow2(n), i) == if i == n then 1 else 0
    decreases i
  {
    if n == 0 {
      if i > 0 { BitZero(i - 1); }
    } else if i > 0 {
      BitOfPow2(n - 1, i - 1);
    }
  }

  lemma {:induction false} BitAboveWidth(x: nat, n: nat, i: nat)
    requires x < Pow2(n) && n <= i
    ensures Bit(x, i) == 0
    decreases i
  {
    if i > 0 {
      if n == 0 { BitZero(i); } else { BitAboveWidth(x / 2, n - 1, i - 1); }
    }
  }

  lemma {:induction false} BitOfMod(x: nat, n: nat, i: nat)
    requires i < n
    ensures Bit(x % Pow2(n), i) == Bit(x, i)
    decreases i
  {
    var p := Pow2(n - 1);
    ModDouble(x, p);
    if i > 0 {
      BitOfMod(x / 2, n - 1, i - 1);
      assert (x % Pow2(n)) / 2 == (x / 2) % p;
    }
  }

  /** Two n-bit numbers with the same bits are the same number. */
  lemma {:induction false} SameBits(x: nat, y: nat, n: nat)
    requires x < Pow2(n) && y < Pow2(n)
    requires forall i: nat | i < n :: Bit(x, i) == Bit(y, i)
    ensures x == y
  {
    if n > 0 {
      forall i: nat | i < n - 1 ensures Bit(x / 2, i) == Bit(y / 2, i) {
        assert Bit(x, i + 1) == Bit(y, i + 1);
      }
      SameBits(x / 2, y / 2, n - 1);
      assert Bit(x, 0) == Bit(y, 0);
    }
  }

  /** Agreeing on the low n bits is agreeing modulo 2^n. */
  lemma SameLowBits(x: nat, y: nat, n: nat)
    requires forall i: nat | i < n :: Bit(x, i) == Bit(y, i)
    ensures x % Pow2(n) == y % Pow2(n)
  {
    forall i: nat | i < n ensures Bit(x % Pow2(n), i) == Bit(y % Pow2(n), i) {
      BitOfMod(x, n, i);
      BitOfMod(y, n, i);
    }
    SameBits(x % Pow2(n), y % Pow2(n), n);
  }

  /** Words are determined by their 32 bits. */
  lemma SameWord(x: Word, y: Word)
    requires forall i: nat | i < 32 :: Bit(x, i) == Bit(y, i)
    ensures x == y
  {
    Pow2Values();
    SameBits(x, y, 32);
  }

  /** Masking with 2^k - 1 is reduction modulo 2^k. */
  lemma {:induction false} MaskIsMod(x: nat, k: nat)
    ensures And(x, Pow2(k) - 1) == x % Pow2(k)
  {
    if k == 0 {
      DivUnique(x, 1, x, 0);
    } else {
      MaskIsMod(x / 2, k - 1);
      MaskStep(x, Pow2(k - 1));
    }
  }

  lemma MaskStep(x: nat, p: nat)
    requires p > 0 && And(x / 2, p - 1) == (x / 2) % p
    ensures And(x, 2 * p - 1) == x % (2 * p)
  {
    hide And;
    AndOdd(x, p - 1);
    ModDouble(x, p);
  }

  lemma AndOdd(x: nat, m: nat)
    ensures And(x, 2 * m + 1) == x % 2 + 2 * And(x / 2, m)
  {
    assert (2 * m + 1) / 2 == m && (2 * m + 1) % 2 == 1;
  }

  lemma AndEven(x: nat, m: nat)
    ensures And(x, 2 * m) == 2 * And(x / 2, m)
  {
    assert (2 * m) / 2 == m && (2 * m) % 2 == 0;
  }

  /** A mask whose lowest four bits are clear, or all set. */
  lemma AndNibble(x: nat, m: nat)
    ensures And(x, 16 * m) == 16 * And(x / 16, m)
    ensures And(x, 16 * m + 15) == x % 16 + 16 * And(x / 16, m)
  {
    hide And;
    var x1 := x / 2;
    var x2 := x1 / 2;
    var x3 := x2 / 2;
    AndEven(x, 8 * m);
    AndEven(x1, 4 * m);
    AndEven(x2, 2 * m);
    AndEven(x3, m);
    AndOdd(x, 8 * m + 7);
    AndOdd(x1, 4 * m + 3);
    AndOdd(x2, 2 * m + 1);
    AndOdd(x3, m);
    assert x3 / 2 == x / 16;
  }

  /** The program counter mask 0xFFFFFFFD clears bit 1. */
  lemma ClearBitOne(x: Word)
    ensures And(x, 0xFFFF_FFFD) == x - 2 * Bit(x, 1)
  {
    hide And, Pow2;
    AndOdd(x, 0x7FFF_FFFE);
    AndEven(x / 2, 0x3FFF_FFFF);
    Pow2Values();
    MaskIsMod(x / 2 / 2, 30);
    assert Bit(x, 1) == (x / 2) % 2;
  }

  /** The branch target mask 0xFFFFFFFE clears bit 0. */
  lemma ClearBitZero(x: Word)
    ensures And(x, 0xFFFF_FFFE) == x - x % 2
  {
    hide And, Pow2;
    AndEven(x, 0x7FFF_FFFF);
    Pow2Values();
    MaskIsMod(x / 2, 31);
  }

  function Scale(y: nat, k: nat): nat {
    if k == 0 then y else 2 * Scale(y, k - 1)
  }

  lemma {:induction false} ScaleIsProduct(y: nat, k: nat)
    ensures Scale(y, k) == y * Pow2(k)
  {
    if k > 0 {
      ScaleIsProduct(y, k - 1);
      DoubleProduct(y, Pow2(k - 1));
    }
  }

  lemma OrEven(x: nat, z: nat)
    ensures Or(x, 2 * z) == x % 2 + 2 * Or(x / 2, z)
  {
    assert (2 * z) / 2 == z && (2 * z) % 2 == 0;
  }

  lemma {:induction false} OrScale(x: nat, y: nat, k: nat)
    requires x < Pow2(k)
    ensures Or(x, Scale(y, k)) == x + Scale(y, k)
  {
    if k > 0 {
      OrScale(x / 2, y, k - 1);
      OrEven(x, Scale(y, k - 1));
    }
  }

  /** OR-ing disjoint parts adds them. */
  lemma OrDisjoint(x: nat, y: nat, k: nat)
    requires x < Pow2(k)
    ensures 0 <= y * Pow2(k)
    ensures Or(x, y * Pow2(k)) == x + y * Pow2(k)
  {
    ScaleIsProduct(y, k);
    OrScale(x, y, k);
  }

  lemma {:induction false} OrBound(x: nat, y: nat, n: nat)
    requires x < Pow2(n) && y < Pow2(n)
    ensures Or(x, y) < Pow2(n)
  {
    if n > 0 && x > 0 && y > 0 {
      OrBound(x / 2, y / 2, n - 1);
    }
  }

  lemma {:induction false} XorBound(x: nat, y: nat, n: nat)
    requires x < Pow2(n) && y < Pow2(n)
    ensures Xor(x, y) < Pow2(n)
  {
    if n > 0 && x > 0 && y > 0 {
      XorBound(x / 2, y / 2, n - 1);
    }
  }

  function OrW(x: Word, y: Word): Word {
    Pow2Values(); OrBound(x, y, 32);
    Or(x, y)
  }

  function XorW(x: Word, y: Word): Word {
    Pow2Values(); XorBound(x, y, 32);
    Xor(x, y)
  }

  function AndW(x: Word, y: Word): Word {
    And(x, y)
  }
}
