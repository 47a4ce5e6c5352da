/**
Arithmetic on numbers of any number of 32-bit limbs: chains of ADDS / ADCS and SUBS / SBCS, as
operations on values, as programs of instructions, and as the source runs them.
 */
module MultiWord {
  import opened Words
  import opened Flags
  import opened Registers
  import opened DataProcessing

  /** 2^(32 n) */
  function Base(n: nat): (b: nat)
    ensures b > 0
  {
    if n == 0 then 1 else WORD * Base(n - 1)
  }

  /** The number spelt by 32-bit limbs, least significant first. */
  function Value(limbs: seq<Word>): nat {
    if limbs == [] then 0 else
    var n := |limbs| - 1;
    Value(limbs[..n]) + limbs[n] * Base(n)
  }

  /** The same limbs in two's complement. */
  function SignedValue(limbs: seq<Word>): int
    requires limbs != []
  {
    var n := |limbs| - 1;
    Value(limbs[..n]) + Signed(limbs[n]) * Base(n)
  }

  /** One instruction per limb, from the least significant: `first`S for the lowest, then `next`S,
      each reading the carry the one before left in the status register. */
  function Chain(first: nat, next: nat, cpsr: Word, a: seq<Word>, b: seq<Word>): (r: (seq<Word>, Word))
    requires first < 16 && next < 16 && |a| == |b|
    ensures |r.0| == |a|
  {
    if a == [] then ([], cpsr) else
    var n := |a| - 1;
    var (low, flags) := Chain(first, next, cpsr, a[..n], b[..n]);
    var out := ArmAlu(if n == 0 then first else next, a[n], b[n], 0, FlagC(flags));
    (low + [out.value], ArmWriteFlags(flags, out.value, out.c, out.v))
  }

  lemma {:induction false} ValueBound(limbs: seq<Word>)
    ensures Value(limbs) < Base(|limbs|)
  {
    if limbs != [] {
      var n := |limbs| - 1;
      ValueBound(limbs[..n]);
      LimbBound(Value(limbs[..n]), limbs[n], Base(n));
    }
  }

  lemma LimbBound(low: nat, limb: Word, base: nat)
    requires low < base
    ensures low + limb * base < WORD * base
  {
    MulMono(base, limb, WORD - 1);
  }

  /** Appending the top limb. */
  lemma ValueAppend(low: seq<Word>, top: Word)
    ensures Value(low + [top]) == Value(low) + top * Base(|low|)
    ensures SignedValue(low + [top]) == Value(low) + Signed(top) * Base(|low|)
  {
    assert (low + [top])[..|low|] == low;
  }

  /** One more limb of a sum. */
  lemma SumLimb(la: int, lb: int, lr: int, cin: int, x: int, y: int, v: int, cout: int, base: int)
    requires lr + cin * base == la + lb
    requires v + cout * WORD == x + y + cin
    ensures lr + v * base + cout * (WORD * base) == (la + x * base) + (lb + y * base)
  {
    assert (v + cout * WORD) * base == (x + y + cin) * base;
    assert (v + cout * WORD) * base == v * base + cout * (WORD * base);
    assert (x + y + cin) * base == x * base + y * base + cin * base;
  }

  lemma SumExact(x: Word, y: Word, carry: Flag)
    ensures var out := Sum(x, y, carry);
            out.c <= 1 && out.v <= 1 && out.value + out.c * WORD == x + y + carry
  {
  }

  lemma DifferenceExact(x: Word, y: Word, borrow: Flag)
    ensures var out := Difference(x, y, borrow);
            out.c <= 1 && out.v <= 1 && out.value - (1 - out.c) * WORD == x - y - borrow
  {
  }

  lemma AluArithmetic(x: Word, y: Word, c: Flag)
    ensures ArmAlu(ADD, x, y, 0, c) == Sum(x, y, 0)
    ensures ArmAlu(ADC, x, y, 0, c) == Sum(x, y, c)
    ensures ArmAlu(SUB, x, y, 0, c) == Difference(x, y, 0)
    ensures ArmAlu(SBC, x, y, 0, c) == Difference(x, y, 1 - c)
  {
  }

  /** The carry a chain of additions reads: none for the first instruction. */
  function CarryIn(n: nat, flags: Word): Flag {
    if n == 0 then 0 else FlagC(flags)
  }

  /** The last limb of a chain. */
  lemma ChainLast(first: nat, next: nat, cpsr: Word, a: seq<Word>, b: seq<Word>)
    requires first < 16 && next < 16 && |a| == |b| > 0
    ensures var n := |a| - 1;
            var (low, flags) := Chain(first, next, cpsr, a[..n], b[..n]);
            var out := ArmAlu(if n == 0 then first else next, a[n], b[n], 0, FlagC(flags));
            Chain(first, next, cpsr, a, b) == (low + [out.value], ArmWriteFlags(flags, out.value, out.c, out.v))
  {
    hide ArmAlu, ArmWriteFlags, FlagC;
  }

  lemma EmptyChain(first: nat, next: nat, cpsr: Word, a: seq<Word>, b: seq<Word>)
    requires first < 16 && next < 16 && |a| == |b| == 0
    ensures Value(Chain(first, next, cpsr, a, b).0) == Value(a) == Value(b) == 0
  {
  }

  lemma ValueLast(a: seq<Word>)
    requires a != []
    ensures var n := |a| - 1;
            && Value(a) == Value(a[..n]) + a[n] * Base(n)
            && Base(|a|) == WORD * Base(n)
  {
  }

  /** An ADDS / ADCS chain leaves exactly A + B, with C as the outgoing carry. */
  lemma {:induction false} AddChain(cpsr: Word, a: seq<Word>, b: seq<Word>)
    requires |a| == |b| > 0
    ensures var (r, flags) := Chain(ADD, ADC, cpsr, a, b);
            Value(r) + FlagC(flags) * Base(|a|) == Value(a) + Value(b)
    decreases |a|
  {
    hide ArmWriteFlags, FlagC, ArmAlu, Sum, Chain, Value, Base;
    var n := |a| - 1;
    var (low, flags) := Chain(ADD, ADC, cpsr, a[..n], b[..n]);
    var cin := CarryIn(n, flags);
    AddChainLow(cpsr, a, b);
    var out := Sum(a[n], b[n], cin);
    AluArithmetic(a[n], b[n], FlagC(flags));
    SumExact(a[n], b[n], cin);
    ChainLast(ADD, ADC, cpsr, a, b);
    WriteFlagsExact(flags, out.value, out.c, out.v);
    ValueAppend(low, out.value);
    ValueLast(a); ValueLast(b);
    SumLimb(Value(a[..n]), Value(b[..n]), Value(low), cin, a[n], b[n], out.value, out.c, Base(n));
  }

  lemma {:induction false} AddChainLow(cpsr: Word, a: seq<Word>, b: seq<Word>)
    requires |a| == |b| > 0
    ensures var n := |a| - 1;
            var (low, flags) := Chain(ADD, ADC, cpsr, a[..n], b[..n]);
            Value(low) + CarryIn(n, flags) * Base(n) == Value(a[..n]) + Value(b[..n])
    decreases |a|, 0
  {
    hide Chain, Value, Base, FlagC;
    var n := |a| - 1;
    if n > 0 { AddChain(cpsr, a[..n], b[..n]); } else { EmptyChain(ADD, ADC, cpsr, a[..n], b[..n]); }
  }

  /** V of the last limb is the signed overflow of the whole sum. */
  lemma AddChainOverflow(cpsr: Word, a: seq<Word>, b: seq<Word>)
    requires |a| == |b| > 0
    ensures var (r, flags) := Chain(ADD, ADC, cpsr, a, b);
            var half := 0x8000_0000 * Base(|a| - 1);
            FlagV(flags) == 1 <==> !(-half <= SignedValue(a) + SignedValue(b) < half)
  {
    hide ArmWriteFlags, FlagC, FlagV, ArmAlu, Chain, Value, Base;
    var n := |a| - 1;
    var (low, flags) := Chain(ADD, ADC, cpsr, a[..n], b[..n]);
    var cin := CarryIn(n, flags);
    AddChainLow(cpsr, a, b);
    AluArithmetic(a[n], b[n], FlagC(flags));
    ChainLast(ADD, ADC, cpsr, a, b);
    var out := Sum(a[n], b[n], cin);
    WriteFlagsExact(flags, out.value, out.c, out.v);
    ValueBound(low);
    TopLimb(Value(low), Signed(a[n]), Signed(b[n]), cin, Base(n));
    HalfRange(Value(low), Signed(a[n]) + Signed(b[n]) + cin, Base(n));
  }

  lemma TopLimb(low: int, x: int, y: int, c: int, base: int)
    ensures (low - c * base) + (x * base + y * base) == low + (x + y) * base - c * base
    ensures low + c * base + x * base + y * base == low + (x + y + c) * base
    ensures low - c * base + x * base - y * base == low + (x - y - c) * base
  {
  }

  /** A top limb t with low limbs below it is in range exactly when t is. */
  lemma HalfRange(low: nat, t: int, base: nat)
    requires low < base
    ensures -(0x8000_0000 * base) <= low + t * base < 0x8000_0000 * base <==> SignedFits(t)
    ensures low + t * base < 0 <==> t < 0
  {
    if t < -0x8000_0000 { MulMono(base, t, -0x8000_0001); }
    else if t < 0 { MulMono(base, -0x8000_0000, t); MulMono(base, t, -1); }
    else if t < 0x8000_0000 { MulMono(base, t, 0x7FFF_FFFF); MulMono(base, 0, t); }
    else { MulMono(base, 0x8000_0000, t); }
  }

  /** One more limb of a difference. */
  lemma DifferenceLimb(la: int, lb: int, lr: int, bin: int, x: int, y: int, v: int, bout: int, base: int)
    requires lr - bin * base == la - lb
    requires v - bout * WORD == x - y - bin
    ensures lr + v * base - bout * (WORD * base) == (la + x * base) - (lb + y * base)
  {
    assert (v - bout * WORD) * base == (x - y - bin) * base;
    assert (v - bout * WORD) * base == v * base - bout * (WORD * base);
    assert (x - y - bin) * base == x * base - y * base - bin * base;
  }

  /** The borrow a chain of subtractions takes in: NOT carry, and none for the first instruction. */
  function BorrowIn(n: nat, flags: Word): Flag {
    if n == 0 then 0 else 1 - FlagC(flags)
  }

  /** A SUBS / SBCS chain leaves A - B modulo 2^(32 n). */
  lemma {:induction false} SubChain(cpsr: Word, a: seq<Word>, b: seq<Word>)
    requires |a| == |b| > 0
    ensures var (r, flags) := Chain(SUB, SBC, cpsr, a, b);
            Value(r) - (1 - FlagC(flags)) * Base(|a|) == Value(a) - Value(b)
    decreases |a|
  {
    hide ArmWriteFlags, FlagC, ArmAlu, Difference, Chain, Value, Base;
    var n := |a| - 1;
    var (low, flags) := Chain(SUB, SBC, cpsr, a[..n], b[..n]);
    var bin := BorrowIn(n, flags);
    SubChainLow(cpsr, a, b);
    var out := Difference(a[n], b[n], bin);
    AluArithmetic(a[n], b[n], FlagC(flags));
    DifferenceExact(a[n], b[n], bin);
    ChainLast(SUB, SBC, cpsr, a, b);
    WriteFlagsExact(flags, out.value, out.c, out.v);
    ValueAppend(low, out.value);
    ValueLast(a); ValueLast(b);
    DifferenceLimb(Value(a[..n]), Value(b[..n]), Value(low), bin, a[n], b[n], out.value, 1 - out.c, Base(n));
  }

  lemma {:induction false} SubChainLow(cpsr: Word, a: seq<Word>, b: seq<Word>)
    requires |a| == |b| > 0
    ensures var n := |a| - 1;
            var (low, flags) := Chain(SUB, SBC, cpsr, a[..n], b[..n]);
            Value(low) - BorrowIn(n, flags) * Base(n) == Value(a[..n]) - Value(b[..n])
    decreases |a|, 0
  {
    hide Chain, Value, Base, FlagC;
    var n := |a| - 1;
    if n > 0 { SubChain(cpsr, a[..n], b[..n]); } else { EmptyChain(SUB, SBC, cpsr, a[..n], b[..n]); }
  }

  lemma DifferenceSign(x: Word, y: Word, borrow: Flag)
    ensures var out, d := Difference(x, y, borrow), Signed(x) - Signed(y) - borrow;
            && (out.v == 1 <==> !SignedFits(d))
            && ((Signed(out.value) < 0) != (out.v == 1) <==> d < 0)
  {
  }

  /** The true difference of the top limbs, with the borrow from below. */
  function TopDifference(cpsr: Word, a: seq<Word>, b: seq<Word>): int
    requires |a| == |b| > 0
  {
    var n := |a| - 1;
    Signed(a[n]) - Signed(b[n]) - BorrowIn(n, Chain(SUB, SBC, cpsr, a[..n], b[..n]).1)
  }

  lemma SubChainFlags(cpsr: Word, a: seq<Word>, b: seq<Word>)
    requires |a| == |b| > 0
    ensures var f, d := Chain(SUB, SBC, cpsr, a, b).1, TopDifference(cpsr, a, b);
            && (FlagV(f) == 1 <==> !SignedFits(d))
            && (FlagN(f) != FlagV(f) <==> d < 0)
  {
    hide ArmWriteFlags, FlagC, FlagV, FlagN, ArmAlu, Chain, Difference;
    var n := |a| - 1;
    var flags := Chain(SUB, SBC, cpsr, a[..n], b[..n]).1;
    var bin := BorrowIn(n, flags);
    AluArithmetic(a[n], b[n], FlagC(flags));
    ChainLast(SUB, SBC, cpsr, a, b);
    var out := Difference(a[n], b[n], bin);
    DifferenceExact(a[n], b[n], bin);
    WriteFlagsExact(flags, out.value, out.c, out.v);
    DifferenceSign(a[n], b[n], bin);
  }

  /** After the chain N differs from V exactly when A < B in two's complement, and V is the signed
      overflow of the whole difference. */
  lemma SubChainSigned(cpsr: Word, a: seq<Word>, b: seq<Word>)
    requires |a| == |b| > 0
    ensures var (r, flags) := Chain(SUB, SBC, cpsr, a, b);
            var half := 0x8000_0000 * Base(|a| - 1);
            && (FlagV(flags) == 1 <==> !(-half <= SignedValue(a) - SignedValue(b) < half))
            && (FlagN(flags) != FlagV(flags) <==> SignedValue(a) < SignedValue(b))
  {
    hide FlagC, FlagV, FlagN, Chain, Value, Base, Signed;
    var n := |a| - 1;
    var (low, flags) := Chain(SUB, SBC, cpsr, a[..n], b[..n]);
    var bin := BorrowIn(n, flags);
    SubChainLow(cpsr, a, b);
    SubChainFlags(cpsr, a, b);
    ValueBound(low);
    TopLimb(Value(low), Signed(a[n]), Signed(b[n]), bin, Base(n));
    HalfRange(Value(low), Signed(a[n]) - Signed(b[n]) - bin, Base(n));
  }

  /** ... and C says A >= B, unsigned, for any number of limbs. */
  lemma SubChainCarry(cpsr: Word, a: seq<Word>, b: seq<Word>)
    requires |a| == |b| > 0
    ensures var (r, flags) := Chain(SUB, SBC, cpsr, a, b);
            FlagC(flags) == 1 <==> Value(a) >= Value(b)
  {
    hide FlagC, Chain, Value;
    var (r, flags) := Chain(SUB, SBC, cpsr, a, b);
    SubChain(cpsr, a, b);
    ValueBound(r);
    if FlagC(flags) == 0 { assert (1 - FlagC(flags)) * Base(|a|) == Base(|a|); }
    else { assert (1 - FlagC(flags)) * Base(|a|) == 0; }
  }

  /** So a SUBS / SBCS chain over any number of limbs is a comparison: HS, LO, GE and LT then decide
      the order of the two numbers, unsigned and signed. */
  lemma MultiWordCompare(cpsr: Word, a: seq<Word>, b: seq<Word>)
    requires |a| == |b| > 0
    ensures var f := Chain(SUB, SBC, cpsr, a, b).1;
            && (ArmPasses(f, 2) <==> Value(a) >= Value(b)) && (ArmPasses(f, 3) <==> Value(a) < Value(b))
            && (ArmPasses(f, 10) <==> SignedValue(a) >= SignedValue(b))
            && (ArmPasses(f, 11) <==> SignedValue(a) < SignedValue(b))
  {
    hide Chain, Value, SignedValue, FlagN, FlagZ, FlagC, FlagV;
    SubChainCarry(cpsr, a, b);
    SubChainSigned(cpsr, a, b);
  }

  // ----- the same chains run by the source -----

  /** The source's chain on 16-bit operands: every instruction after the first reads the carry c that
      was there before the chain, since no instruction updates it. */
  function CodeChain(first: nat, next: nat, c: Flag, a: seq<Word>, b: seq<Word>): (r: seq<Word>)
    requires first < 16 && next < 16
    requires |a| == |b| && forall i :: 0 <= i < |b| ==> b[i] < 0x1_0000
    ensures |r| == |a|
  {
    if a == [] then [] else
    var n := |a| - 1;
    CodeChain(first, next, c, a[..n], b[..n]) + [CodeAlu(if n == 0 then first else next, a[n], b[n], c)]
  }

  /** The carry out of the low i limbs. */
  function TrueCarry(a: seq<Word>, b: seq<Word>, i: nat): Flag
    requires i <= |a| == |b|
  {
    if Value(a[..i]) + Value(b[..i]) >= Base(i) then 1 else 0
  }

  /** Every carry between the low n limbs is c. */
  predicate AllCarries(a: seq<Word>, b: seq<Word>, n: nat, c: Flag)
    requires n <= |a| == |b|
  {
    forall i :: 0 < i < n ==> TrueCarry(a, b, i) == c
  }

  lemma CarriesLast(a: seq<Word>, b: seq<Word>, c: Flag)
    requires |a| == |b| > 0
    ensures var n := |a| - 1;
            AllCarries(a, b, |a|, c) <==> AllCarries(a, b, n, c) && (n > 0 ==> TrueCarry(a, b, n) == c)
  {
    hide TrueCarry;
  }

  lemma ChainCarry(cpsr: Word, a: seq<Word>, b: seq<Word>)
    requires |a| == |b| > 0
    ensures FlagC(Chain(ADD, ADC, cpsr, a, b).1) == if Value(a) + Value(b) >= Base(|a|) then 1 else 0
  {
    hide FlagC, Chain, Value, Base;
    var (r, flags) := Chain(ADD, ADC, cpsr, a, b);
    AddChain(cpsr, a, b);
    ValueBound(r);
    assert FlagC(flags) * Base(|a|) == if FlagC(flags) == 0 then 0 else Base(|a|);
  }

  /** So on 16-bit limbs of b an ADD / ADC chain leaves the true sum exactly when every carry between limbs happens to
      be c. */
  lemma {:induction false} CodeChainIff(cpsr: Word, c: Flag, a: seq<Word>, b: seq<Word>)
    requires |a| == |b| && forall i :: 0 <= i < |b| ==> b[i] < 0x1_0000
    ensures CodeChain(ADD, ADC, c, a, b) == Chain(ADD, ADC, cpsr, a, b).0 <==> AllCarries(a, b, |a|, c)
    decreases |a|
  {
    if a != [] {
      hide FlagC, ArmWriteFlags, ArmAlu, CodeAlu, TrueCarry, Chain;
      var n := |a| - 1;
      var a', b' := a[..n], b[..n];
      CodeChainIff(cpsr, c, a', b');
      ChainLast(ADD, ADC, cpsr, a, b);
      var (low, flags) := Chain(ADD, ADC, cpsr, a', b');
      LastLimbIff(cpsr, c, a, b);
      PrefixCarries(a, b, n);
      var code := CodeChain(ADD, ADC, c, a', b');
      var v, w := CodeAlu(if n == 0 then ADD else ADC, a[n], b[n], c),
                  ArmAlu(if n == 0 then ADD else ADC, a[n], b[n], 0, FlagC(flags)).value;
      SameAppend(code, v, low, w);
      CarriesLast(a, b, c);
      assert AllCarries(a', b', n, c) == AllCarries(a, b, n, c);
    }
  }

  lemma SameAppend(s: seq<Word>, v: Word, t: seq<Word>, w: Word)
    requires |s| == |t|
    ensures s + [v] == t + [w] <==> s == t && v == w
  {
    if s + [v] == t + [w] {
      assert s == (s + [v])[..|s|] && t == (t + [w])[..|t|];
      assert (s + [v])[|s|] == v && (t + [w])[|t|] == w;
    }
  }

  lemma PrefixCarries(a: seq<Word>, b: seq<Word>, n: nat)
    requires n < |a| == |b|
    ensures forall i :: 0 < i < n ==> TrueCarry(a[..n], b[..n], i) == TrueCarry(a, b, i)
  {
    forall i | 0 < i < n ensures TrueCarry(a[..n], b[..n], i) == TrueCarry(a, b, i) {
      assert a[..n][..i] == a[..i] && b[..n][..i] == b[..i];
    }
  }

  lemma LastLimbIff(cpsr: Word, c: Flag, a: seq<Word>, b: seq<Word>)
    requires |a| == |b| > 0 && b[|b| - 1] < 0x1_0000
    ensures var n := |a| - 1;
            var op := if n == 0 then ADD else ADC;
            var flags := Chain(ADD, ADC, cpsr, a[..n], b[..n]).1;
            (CodeAlu(op, a[n], b[n], c) == ArmAlu(op, a[n], b[n], 0, FlagC(flags)).value
             <==> (n > 0 ==> TrueCarry(a, b, n) == c))
  {
    hide FlagC, Chain, Value, Base, Wrap;
    var n := |a| - 1;
    var flags := Chain(ADD, ADC, cpsr, a[..n], b[..n]).1;
    if n > 0 {
      ChainCarry(cpsr, a[..n], b[..n]);
      WrapMoves(a[n] + b[n] + FlagC(flags), c as int - FlagC(flags));
    }
  }

  /** A SUB / SBC chain: the source's SBC is off by 2 + c - C, where C is the carry the manual's chain
      has at that limb, which is never 0. Only a chain without an SBC is right. */
  lemma {:induction false} CodeSubChainIff(cpsr: Word, c: Flag, a: seq<Word>, b: seq<Word>)
    requires |a| == |b| && forall i :: 0 <= i < |b| ==> b[i] < 0x1_0000
    ensures CodeChain(SUB, SBC, c, a, b) == Chain(SUB, SBC, cpsr, a, b).0 <==> |a| <= 1
    decreases |a|
  {
    if a != [] {
      hide FlagC, ArmWriteFlags, ArmAlu, CodeAlu, Chain;
      var n := |a| - 1;
      var a', b' := a[..n], b[..n];
      CodeSubChainIff(cpsr, c, a', b');
      ChainLast(SUB, SBC, cpsr, a, b);
      var (low, flags) := Chain(SUB, SBC, cpsr, a', b');
      LastDifferenceIff(c, FlagC(flags), a[n], b[n]);
      var op := if n == 0 then SUB else SBC;
      SameAppend(CodeChain(SUB, SBC, c, a', b'), CodeAlu(op, a[n], b[n], c),
                 low, ArmAlu(op, a[n], b[n], 0, FlagC(flags)).value);
    }
  }

  lemma LastDifferenceIff(c: Flag, c': Flag, x: Word, y: Half)
    ensures CodeAlu(SUB, x, y, c) == ArmAlu(SUB, x, y, 0, c').value
    ensures CodeAlu(SBC, x, y, c) != ArmAlu(SBC, x, y, 0, c').value
  {
    hide Wrap;
    WrapMoves(x - y - (1 - c'), 2 + c - c');
  }

  // ----- chains of instructions -----

  /** The instructions of a program, run one after the other. */
  function ArmExecuteAll(s: State, program: seq<Word>): State {
    if program == [] then s else
    var n := |program| - 1;
    ArmDataProcessing(ArmExecuteAll(s, program[..n]), program[n])
  }

  /** S-suffixed register instructions, one for each limb, none of which overwrites what a later one
      reads or writes. */
  predicate ChainProgram(first: nat, next: nat, program: seq<Word>) {
    && (forall i :: 0 <= i < |program| ==>
          var ins := program[i];
          && OpCode(ins) == (if i == 0 then first else next)
          && SBit(ins) == 1 && IBit(ins) == 0 && (ins / 16) % 256 == 0 && Rd(ins) != 15)
    && (forall i, j :: 0 <= i < j < |program| ==>
          Rd(program[i]) != Rd(program[j]) && Rd(program[i]) != Rn(program[j]) && Rd(program[i]) != program[j] % 16)
  }

  /** The limbs that the instructions name as first and second operands, before the program. */
  function LeftLimbs(s: State, program: seq<Word>): (r: seq<Word>)
    ensures |r| == |program|
  {
    seq(|program|, i requires 0 <= i < |program| => ReadReg(s, Rn(program[i])))
  }

  function RightLimbs(s: State, program: seq<Word>): (r: seq<Word>)
    ensures |r| == |program|
  {
    seq(|program|, i requires 0 <= i < |program| => ReadReg(s, program[i] % 16))
  }

  /** The destination registers. */
  function Destinations(s: State, program: seq<Word>): (r: seq<Word>)
    ensures |r| == |program|
  {
    seq(|program|, i requires 0 <= i < |program| => s.regs[Rd(program[i])])
  }

  predicate Untouched(program: seq<Word>, r: nat) {
    forall i :: 0 <= i < |program| ==> Rd(program[i]) != r
  }

  lemma ShorterProgram(first: nat, next: nat, program: seq<Word>, s: State)
    requires ChainProgram(first, next, program) && program != []
    ensures var n := |program| - 1;
            && ChainProgram(first, next, program[..n])
            && LeftLimbs(s, program[..n]) == LeftLimbs(s, program)[..n]
            && RightLimbs(s, program[..n]) == RightLimbs(s, program)[..n]
            && Untouched(program[..n], Rn(program[n])) && Untouched(program[..n], program[n] % 16)
            && Untouched(program[..n], Rd(program[n]))
  {
    hide OpCode, SBit, IBit, Rd, Rn, ReadReg;
  }

  lemma AluIgnoresShifter(op: nat, x: Word, y: Word, shifterCarry: Flag, c: Flag)
    requires 2 <= op <= 7
    ensures ArmAlu(op, x, y, shifterCarry, c) == ArmAlu(op, x, y, 0, c)
  {
  }

  /** Running the program is the chain: its limbs end up in the destination registers, its flags in
      the status register, and nothing else changes. */
  lemma {:induction false} ProgramIsChain(s: State, first: nat, next: nat, program: seq<Word>)
    requires 2 <= first <= 7 && 2 <= next <= 7 && ChainProgram(first, next, program)
    ensures var t := ArmExecuteAll(s, program);
            && (Destinations(t, program), t.cpsr)
            == Chain(first, next, s.cpsr, LeftLimbs(s, program), RightLimbs(s, program))
            && (forall r :: 0 <= r < 16 && Untouched(program, r) ==> t.regs[r] == s.regs[r])
            && t.mem == s.mem
    decreases |program|
  {
    if program != [] {
      var n := |program| - 1;
      ShorterProgram(first, next, program, s);
      ProgramIsChain(s, first, next, program[..n]);
      LastInstruction(s, ArmExecuteAll(s, program[..n]), first, next, program);
    }
  }

  lemma LastInstruction(s: State, t: State, first: nat, next: nat, program: seq<Word>)
    requires 2 <= first <= 7 && 2 <= next <= 7 && ChainProgram(first, next, program) && program != []
    requires var front := program[..|program| - 1];
             && (Destinations(t, front), t.cpsr)
                == Chain(first, next, s.cpsr, LeftLimbs(s, front), RightLimbs(s, front))
             && (forall r :: 0 <= r < 16 && Untouched(front, r) ==> t.regs[r] == s.regs[r])
             && t.mem == s.mem
    ensures var t' := ArmDataProcessing(t, program[|program| - 1]);
            && (Destinations(t', program), t'.cpsr)
            == Chain(first, next, s.cpsr, LeftLimbs(s, program), RightLimbs(s, program))
            && (forall r :: 0 <= r < 16 && Untouched(program, r) ==> t'.regs[r] == s.regs[r])
            && t'.mem == s.mem
  {
    hide ArmAlu, ArmWriteFlags, FlagC, Chain, ArmDataProcessing, OpCode, SBit, IBit, Rd, Rn;
    var n := |program| - 1;
    var ins, front := program[n], program[..n];
    var t' := ArmDataProcessing(t, ins);
    ShorterProgram(first, next, program, s);
    RegisterInstruction(t, ins);
    SameRead(s, t, front, Rn(ins));
    SameRead(s, t, front, ins % 16);
    AluIgnoresShifter(OpCode(ins), ReadReg(t, Rn(ins)), ReadReg(t, ins % 16), FlagC(t.cpsr), FlagC(t.cpsr));
    ChainLast(first, next, s.cpsr, LeftLimbs(s, program), RightLimbs(s, program));
    assert Destinations(t', program) == Destinations(t, front) + [t'.regs[Rd(ins)]];
    forall r | 0 <= r < 16 && Untouched(program, r) ensures t'.regs[r] == s.regs[r] {
      assert Untouched(front, r);
      assert Rd(program[n]) != r;
    }
  }

  lemma SameRead(s: State, t: State, front: seq<Word>, r: nat)
    requires r < 16 && Untouched(front, r)
    requires forall q :: 0 <= q < 16 && Untouched(front, q) ==> t.regs[q] == s.regs[q]
    ensures ReadReg(t, r) == ReadReg(s, r)
  {
  }

  /** An ADDS / ADCS program leaves the sum in its destination registers and the carry in C. */
  lemma ProgramAdds(s: State, program: seq<Word>)
    requires program != [] && ChainProgram(ADD, ADC, program)
    ensures var t := ArmExecuteAll(s, program);
            (Value(Destinations(t, program)) + FlagC(t.cpsr) * Base(|program|)
             == Value(LeftLimbs(s, program)) + Value(RightLimbs(s, program)))
  {
    hide ArmExecuteAll, Chain, Value, Base, FlagC, Destinations, LeftLimbs, RightLimbs;
    ProgramIsChain(s, ADD, ADC, program);
    AddChain(s.cpsr, LeftLimbs(s, program), RightLimbs(s, program));
  }

  /** A SUBS / SBCS program leaves the difference, and HS, LO, GE and LT then order the two numbers. */
  lemma ProgramSubtracts(s: State, program: seq<Word>)
    requires program != [] && ChainProgram(SUB, SBC, program)
    ensures var t := ArmExecuteAll(s, program);
            var a, b := LeftLimbs(s, program), RightLimbs(s, program);
            && Value(Destinations(t, program)) - (1 - FlagC(t.cpsr)) * Base(|program|) == Value(a) - Value(b)
            && (ArmPasses(t.cpsr, 2) <==> Value(a) >= Value(b)) && (ArmPasses(t.cpsr, 3) <==> Value(a) < Value(b))
            && (ArmPasses(t.cpsr, 10) <==> SignedValue(a) >= SignedValue(b))
            && (ArmPasses(t.cpsr, 11) <==> SignedValue(a) < SignedValue(b))
  {
    hide ArmExecuteAll, Chain, Value, SignedValue, Base, FlagC, Destinations, LeftLimbs, RightLimbs, ArmPasses;
    ProgramIsChain(s, SUB, SBC, program);
    SubChain(s.cpsr, LeftLimbs(s, program), RightLimbs(s, program));
    MultiWordCompare(s.cpsr, LeftLimbs(s, program), RightLimbs(s, program));
  }

  // ----- the same programs run by the source -----

  function LowBytes(b: seq<Word>): (r: seq<Word>)
    ensures |r| == |b| && forall i :: 0 <= i < |b| ==> r[i] == b[i] % 0x100
  {
    seq(|b|, i requires 0 <= i < |b| => b[i] % 0x100)
  }

  predicate AllBytes(b: seq<Word>) {
    forall i :: 0 <= i < |b| ==> b[i] < 0x100
  }

  function CodeExecuteAll(s: State, program: seq<Word>, stales: seq<Stale>): State
    requires |stales| == |program|
  {
    if program == [] then s else
    var n := |program| - 1;
    DataProcess(CodeExecuteAll(s, program[..n], stales[..n]), program[n], stales[n])
  }

  /** Run by the source the same program is the source's chain on the low bytes of the second operands; no
      flag changes, so that C is still what it was before. */
  lemma {:induction false} CodeProgramIsChain(s: State, first: nat, next: nat, program: seq<Word>, stales: seq<Stale>)
    requires 2 <= first <= 7 && 2 <= next <= 7 && ChainProgram(first, next, program) && |stales| == |program|
    ensures var t := CodeExecuteAll(s, program, stales);
            && Destinations(t, program)
               == CodeChain(first, next, FlagC(s.cpsr), LeftLimbs(s, program), LowBytes(RightLimbs(s, program)))
            && t.cpsr == s.cpsr
            && (forall r :: 0 <= r < 16 && Untouched(program, r) ==> t.regs[r] == s.regs[r])
            && t.mem == s.mem
    decreases |program|
  {
    if program != [] {
      var n := |program| - 1;
      ShorterProgram(first, next, program, s);
      CodeProgramIsChain(s, first, next, program[..n], stales[..n]);
      LastCodeInstruction(s, CodeExecuteAll(s, program[..n], stales[..n]), first, next, program, stales[n]);
    }
  }

  lemma CodeChainLast(first: nat, next: nat, c: Flag, a: seq<Word>, b: seq<Word>)
    requires first < 16 && next < 16 && |a| == |b| > 0
    ensures var n := |a| - 1;
            (CodeChain(first, next, c, a, LowBytes(b))
             == CodeChain(first, next, c, a[..n], LowBytes(b[..n]))
                + [CodeAlu(if n == 0 then first else next, a[n], b[n] % 0x100, c)])
  {
    hide CodeAlu;
    assert LowBytes(b)[..|a| - 1] == LowBytes(b[..|a| - 1]);
  }

  lemma LastCodeInstruction(s: State, t: State, first: nat, next: nat, program: seq<Word>, stale: Stale)
    requires 2 <= first <= 7 && 2 <= next <= 7 && ChainProgram(first, next, program) && program != []
    requires var front := program[..|program| - 1];
             && Destinations(t, front)
                == CodeChain(first, next, FlagC(s.cpsr), LeftLimbs(s, front), LowBytes(RightLimbs(s, front)))
             && t.cpsr == s.cpsr
             && (forall r :: 0 <= r < 16 && Untouched(front, r) ==> t.regs[r] == s.regs[r])
             && t.mem == s.mem
    ensures var t' := DataProcess(t, program[|program| - 1], stale);
            && Destinations(t', program)
               == CodeChain(first, next, FlagC(s.cpsr), LeftLimbs(s, program), LowBytes(RightLimbs(s, program)))
            && t'.cpsr == s.cpsr
            && (forall r :: 0 <= r < 16 && Untouched(program, r) ==> t'.regs[r] == s.regs[r])
            && t'.mem == s.mem
  {
    hide CodeChain, CodeAlu, FlagC, DataProcess, OpCode, SBit, IBit, Rd, Rn;
    var n := |program| - 1;
    var ins, front := program[n], program[..n];
    var t' := DataProcess(t, ins, stale);
    ShorterProgram(first, next, program, s);
    CodeRegisterInstruction(t, ins, stale);
    SameRead(s, t, front, Rn(ins));
    SameRead(s, t, front, ins % 16);
    CodeChainLast(first, next, FlagC(s.cpsr), LeftLimbs(s, program), RightLimbs(s, program));
    assert Destinations(t', program) == Destinations(t, front) + [t'.regs[Rd(ins)]];
    forall r | 0 <= r < 16 && Untouched(program, r) ensures t'.regs[r] == s.regs[r] {
      assert Untouched(front, r);
      assert Rd(program[n]) != r;
    }
  }

  /** A limb whose second operand is cut to a byte. */
  lemma ByteLimbIff(c: Flag, c': Flag, x: Word, y: Word)
    ensures CodeAlu(ADD, x, y % 0x100, c) == ArmAlu(ADD, x, y, 0, c').value <==> y < 0x100
    ensures CodeAlu(SUB, x, y % 0x100, c) == ArmAlu(SUB, x, y, 0, c').value <==> y < 0x100
    ensures CodeAlu(ADC, x, y % 0x100, c) == ArmAlu(ADC, x, y, 0, c').value <==> y < 0x100 && c == c'
    ensures CodeAlu(SBC, x, y % 0x100, c) != ArmAlu(SBC, x, y, 0, c').value
  {
    hide Wrap, AndW, OrW, XorW, Not, SignedFits;
    var h, b := y / 0x100, y % 0x100;
    WrapMoves(x + y, b - y);
    WrapMoves(x - y, y - b);
    WrapMoves(x + y + c', b - y + c - c');
    WrapMoves(x - y - (1 - c'), y - b + 2 + c - c');
    assert y == 0x100 * h + b;
  }

  /** The source's ADD / ADC chain on low bytes is right exactly when the limbs are bytes and every carry
      between them is c. */
  lemma {:induction false} ByteSumIff(cpsr: Word, c: Flag, a: seq<Word>, b: seq<Word>)
    requires |a| == |b|
    ensures CodeChain(ADD, ADC, c, a, LowBytes(b)) == Chain(ADD, ADC, cpsr, a, b).0
       <==> AllBytes(b) && AllCarries(a, b, |a|, c)
    decreases |a|
  {
    if a != [] {
      hide FlagC, ArmWriteFlags, ArmAlu, CodeAlu, TrueCarry, Chain, CodeChain, AllBytes, AllCarries;
      var n := |a| - 1;
      var a', b', op := a[..n], b[..n], if n == 0 then ADD else ADC;
      CodeChainLast(ADD, ADC, c, a, b);
      ByteSumIff(cpsr, c, a', b');
      ChainLast(ADD, ADC, cpsr, a, b);
      var (low, flags) := Chain(ADD, ADC, cpsr, a', b');
      if n > 0 { LastCarry(cpsr, a, b); }
      ByteLimbIff(c, FlagC(flags), a[n], b[n]);
      SameAppend(CodeChain(ADD, ADC, c, a', LowBytes(b')), CodeAlu(op, a[n], b[n] % 0x100, c),
                 low, ArmAlu(op, a[n], b[n], 0, FlagC(flags)).value);
      SameCarries(a, b, n, c);
      CarriesLast(a, b, c);
      BytesLast(b);
    }
  }

  lemma SameCarries(a: seq<Word>, b: seq<Word>, n: nat, c: Flag)
    requires n < |a| == |b|
    ensures AllCarries(a[..n], b[..n], n, c) == AllCarries(a, b, n, c)
  {
    hide TrueCarry;
    PrefixCarries(a, b, n);
  }

  lemma NoBytes(b: seq<Word>)
    ensures b == [] ==> AllBytes(b)
  {
  }

  lemma BytesLast(b: seq<Word>)
    requires b != []
    ensures AllBytes(b) <==> AllBytes(b[..|b| - 1]) && b[|b| - 1] < 0x100
  {
  }

  lemma LastCarry(cpsr: Word, a: seq<Word>, b: seq<Word>)
    requires |a| == |b| > 1
    ensures var n := |a| - 1; FlagC(Chain(ADD, ADC, cpsr, a[..n], b[..n]).1) == TrueCarry(a, b, n)
  {
    hide FlagC, Chain, Value, Base;
    ChainCarry(cpsr, a[..|a| - 1], b[..|a| - 1]);
  }

  lemma {:induction false} ByteDifferenceIff(cpsr: Word, c: Flag, a: seq<Word>, b: seq<Word>)
    requires |a| == |b|
    ensures CodeChain(SUB, SBC, c, a, LowBytes(b)) == Chain(SUB, SBC, cpsr, a, b).0 <==> |a| <= 1 && AllBytes(b)
    decreases |a|
  {
    if a != [] {
      hide FlagC, ArmWriteFlags, ArmAlu, CodeAlu, Chain, CodeChain, AllBytes;
      var n := |a| - 1;
      var a', b', op := a[..n], b[..n], if n == 0 then SUB else SBC;
      BytesLast(b);
      NoBytes(b');
      CodeChainLast(SUB, SBC, c, a, b);
      ByteDifferenceIff(cpsr, c, a', b');
      ChainLast(SUB, SBC, cpsr, a, b);
      var (low, flags) := Chain(SUB, SBC, cpsr, a', b');
      ByteLimbIff(c, FlagC(flags), a[n], b[n]);
      SameAppend(CodeChain(SUB, SBC, c, a', LowBytes(b')), CodeAlu(op, a[n], b[n] % 0x100, c),
                 low, ArmAlu(op, a[n], b[n], 0, FlagC(flags)).value);
    }
  }

  /** So the source's ADDS / ADCS program leaves the sum exactly when every second operand is a byte and
      every carry between limbs is the C it started with, and its C is the carry out exactly when that too
      is. */
  lemma CodeProgramAddsIff(s: State, program: seq<Word>, stales: seq<Stale>)
    requires program != [] && ChainProgram(ADD, ADC, program) && |stales| == |program|
    ensures var t, t' := CodeExecuteAll(s, program, stales), ArmExecuteAll(s, program);
            var a, b := LeftLimbs(s, program), RightLimbs(s, program);
            && (Destinations(t, program) == Destinations(t', program)
                <==> AllBytes(b) && AllCarries(a, b, |program|, FlagC(s.cpsr)))
            && (FlagC(t.cpsr) == FlagC(t'.cpsr) <==> FlagC(s.cpsr) == TrueCarry(a, b, |program|))
  {
    hide CodeExecuteAll, ArmExecuteAll, CodeChain, Chain, FlagC, Destinations, LeftLimbs, RightLimbs, AllBytes,
      AllCarries, Value, Base;
    var a, b := LeftLimbs(s, program), RightLimbs(s, program);
    CodeProgramIsChain(s, ADD, ADC, program, stales);
    ProgramIsChain(s, ADD, ADC, program);
    ByteSumIff(s.cpsr, FlagC(s.cpsr), a, b);
    ChainCarry(s.cpsr, a, b);
    assert a[..|a|] == a && b[..|b|] == b;
  }

  /** And its SUBS / SBCS program the difference exactly for one limb and a byte. */
  lemma CodeProgramSubtractsIff(s: State, program: seq<Word>, stales: seq<Stale>)
    requires program != [] && ChainProgram(SUB, SBC, program) && |stales| == |program|
    ensures Destinations(CodeExecuteAll(s, program, stales), program)
         == Destinations(ArmExecuteAll(s, program), program)
       <==> |program| == 1 && AllBytes(RightLimbs(s, program))
  {
    hide CodeExecuteAll, ArmExecuteAll, CodeChain, Chain, FlagC, Destinations, LeftLimbs, RightLimbs, AllBytes;
    CodeProgramIsChain(s, SUB, SBC, program, stales);
    ProgramIsChain(s, SUB, SBC, program);
    ByteDifferenceIff(s.cpsr, FlagC(s.cpsr), LeftLimbs(s, program), RightLimbs(s, program));
  }
}
