/**
Byte-addressed memory with byte, half-word and word accesses in either byte order.
`Mem` is the value of a memory; `ReadHalf`, `WriteWord` and so on are the accesses with the
source's own shifts and its byte reversal; `Assemble` and `Layout` are the
independent description: the bytes of a number, least significant first or last.
 */
module Memory {
  import opened Words

  datatype Mem = Mem(bytes: seq<Byte>, big: bool) {
    /** The number of whole words. */
    function Size(): nat { |bytes| / 4 }
  }

  // ----- base-256 digits -----

  function Pow256(n: nat): (p: nat)
    ensures p > 0
  {
    if n == 0 then 1 else 256 * Pow256(n - 1)
  }

  lemma Pow256Values()
    ensures Pow256(0) == 1 && Pow256(1) == 0x100 && Pow256(2) == 0x1_0000
    ensures Pow256(3) == 0x100_0000 && Pow256(4) == WORD
  {
  }

  function Digits(v: nat, n: nat): (d: seq<Byte>)
    ensures |d| == n
  {
    if n == 0 then [] else [v % 256] + Digits(v / 256, n - 1)
  }

  function FromDigits(d: seq<Byte>): nat {
    if d == [] then 0 else d[0] + 256 * FromDigits(d[1..])
  }

  function Reverse<T>(s: seq<T>): (r: seq<T>)
    ensures |r| == |s|
    ensures forall i :: 0 <= i < |s| ==> r[i] == s[|s| - 1 - i]
  {
    seq(|s|, i requires 0 <= i < |s| => s[|s| - 1 - i])
  }

  lemma ReverseTwice<T>(s: seq<T>)
    ensures Reverse(Reverse(s)) == s
  {
  }

  lemma {:induction false} DigitsOfNumber(d: seq<Byte>)
    ensures Digits(FromDigits(d), |d|) == d
  {
    if d != [] {
      DigitsOfNumber(d[1..]);
      DivUnique(FromDigits(d), 256, FromDigits(d[1..]), d[0]);
      assert d == [d[0]] + d[1..];
    }
  }

  lemma {:induction false} NumberOfDigits(v: nat, n: nat)
    ensures FromDigits(Digits(v, n)) == v % Pow256(n)
  {
    if n == 0 {
      DivUnique(v, 1, v, 0);
    } else {
      NumberOfDigits(v / 256, n - 1);
      ModScale(v, 256, Pow256(n - 1));
      assert Digits(v, n)[1..] == Digits(v / 256, n - 1);
    }
  }

  lemma {:induction false} FromDigitsBound(d: seq<Byte>)
    ensures FromDigits(d) < Pow256(|d|)
  {
    if d != [] {
      FromDigitsBound(d[1..]);
      assert Pow256(|d|) == 256 * Pow256(|d| - 1);
    }
  }

  lemma {:induction false} FromDigitsAppend(d: seq<Byte>, e: seq<Byte>)
    ensures FromDigits(d + e) == FromDigits(d) + Pow256(|d|) * FromDigits(e)
  {
    if d == [] {
      assert d + e == e;
    } else {
      FromDigitsAppend(d[1..], e);
      assert (d + e)[1..] == d[1..] + e;
      Distribute(FromDigits(d[1..]), Pow256(|d| - 1), FromDigits(e));
    }
  }

  lemma Distribute(x: int, p: int, f: int)
    ensures 256 * (x + p * f) == 256 * x + (256 * p) * f
  {
  }

  lemma {:induction false} ZeroDigits(z: seq<Byte>)
    requires forall i :: 0 <= i < |z| ==> z[i] == 0
    ensures FromDigits(z) == 0
  {
    if z != [] {
      ZeroDigits(z[1..]);
    }
  }

  /** Digit k of v, straight from division. */
  lemma {:induction false} DigitAt(v: nat, n: nat, k: nat)
    requires k < n
    ensures Digits(v, n)[k] == (v / Pow256(k)) % 256
  {
    if k > 0 {
      DigitAt(v / 256, n - 1, k - 1);
      assert Pow256(k) == 256 * Pow256(k - 1);
      DivDiv(v, 256, Pow256(k - 1));
    }
  }

  // ----- byte reversal -----

  /** The number whose n base-256 digits are those of v in the opposite order. */
  function ReverseBytes(v: nat, n: nat): (r: nat)
    ensures r < Pow256(n)
  {
    FromDigitsBound(Reverse(Digits(v, n)));
    FromDigits(Reverse(Digits(v, n)))
  }

  lemma ReverseBytesDigits(v: nat, n: nat)
    ensures Digits(ReverseBytes(v, n), n) == Reverse(Digits(v, n))
  {
    DigitsOfNumber(Reverse(Digits(v, n)));
  }

  lemma ReverseBytesInvolution(v: nat, n: nat)
    ensures ReverseBytes(ReverseBytes(v, n), n) == v % Pow256(n)
  {
    ReverseBytesDigits(v, n);
    ReverseTwice(Digits(v, n));
    NumberOfDigits(v, n);
  }

  /** How many bytes `taille` selects; every value other than 8 and 16 selects four, because the
      source's validity test on `taille` holds of every value. */
  function SizeOf(taille: Byte): nat {
    if taille == 16 then 2 else if taille == 8 then 1 else 4
  }

  /** The byte copy of the source, on a little-endian host: `source` walks up the bytes of `value`,
      `destination` walks down from the end of the result. */
  method ReverseEndianess(value: Word, taille: Byte) returns (resultat: Word)
    ensures resultat == ReverseBytes(value, SizeOf(taille))
  {
    var sizeOf := SizeOf(taille);
    var value' := if taille == 8 then value % 256 else value;
    var source := Digits(value', 4);
    var bytes := new Byte[4](_ => 0);
    var s, destination := 0, sizeOf;
    while s < sizeOf
      invariant 0 <= s <= sizeOf && destination == sizeOf - s
      invariant forall k :: 0 <= k < destination || sizeOf <= k < 4 ==> bytes[k] == 0
      invariant forall k :: destination <= k < sizeOf ==> bytes[k] == source[sizeOf - 1 - k]
    {
      destination := destination - 1;
      bytes[destination] := source[s];
      s := s + 1;
    }
    Pow256Values();
    FromDigitsBound(bytes[..]);
    resultat := FromDigits(bytes[..]);
    ghost var digits := Digits(value, sizeOf);
    forall k: nat | k < sizeOf ensures source[k] == digits[k] {
      DigitAt(value', 4, k);
      DigitAt(value, sizeOf, k);
    }
    assert bytes[..] == Reverse(digits) + bytes[sizeOf..];
    FromDigitsAppend(Reverse(digits), bytes[sizeOf..]);
    ZeroDigits(bytes[sizeOf..]);
  }

  // ----- the accesses, as the source computes them -----

  /** Address and alignment test of an n-byte access. */
  predicate Accepts(m: Mem, a: Word, n: nat) {
    a / 4 < m.Size() && (n == 2 ==> a % 4 <= 2) && (n == 4 ==> a % 4 == 0)
  }

  predicate Width(n: nat) {
    n == 1 || n == 2 || n == 4
  }

  /** Every accepted access lies within one aligned word and inside the buffer. */
  lemma AcceptedStaysInWord(m: Mem, a: Word, n: nat)
    requires Width(n) && Accepts(m, a, n)
    ensures a + n <= |m.bytes|
    ensures a / 4 == (a + n - 1) / 4
  {
  }

  /** And every access that does is accepted: a half-word may start at any byte but the last of its word. */
  lemma AcceptedIff(m: Mem, a: Word, n: nat)
    requires Width(n)
    ensures Accepts(m, a, n) <==> a < 4 * (|m.bytes| / 4) && a / 4 == (a + n - 1) / 4
  {
  }

  /** The bound test of the source also lets address / 4 == size through; on the 4 * size bytes it
      allocates, the accesses it accepts are the ones inside the buffer exactly when that does
      not happen. */
  lemma SourceBoundTest(size: nat, a: Word, n: nat)
    requires Width(n)
    requires !(a / 4 > size) && (n == 2 ==> a % 4 <= 2) && (n == 4 ==> a % 4 == 0)
    ensures a + n <= 4 * size <==> a / 4 != size
  {
  }

  function ReadByte(m: Mem, a: Word): (r: Option<Byte>)
    ensures r.Some? == Accepts(m, a, 1)
  {
    if !Accepts(m, a, 1) then None else
    Pow256Values();
    Some(if m.big then m.bytes[a] else ReverseBytes(m.bytes[a], 1))
  }

  function ReadHalf(m: Mem, a: Word): (r: Option<Half>)
    ensures r.Some? == Accepts(m, a, 2)
  {
    if !Accepts(m, a, 2) then None else
    Pow256Values();
    var v := (m.bytes[a] as int) * 0x100 + m.bytes[a + 1];
    Some(if m.big then v else ReverseBytes(v, 2))
  }

  function ReadWord(m: Mem, a: Word): (r: Option<Word>)
    ensures r.Some? == Accepts(m, a, 4)
  {
    if !Accepts(m, a, 4) then None else
    Pow256Values();
    var v := (m.bytes[a] as int) * 0x100_0000 + (m.bytes[a + 1] as int) * 0x1_0000
           + (m.bytes[a + 2] as int) * 0x100 + m.bytes[a + 3];
    Some(if m.big then v else ReverseBytes(v, 4))
  }

  /** The memory after a byte write; a refused write changes nothing. */
  function WriteByte(m: Mem, a: Word, v: Byte): (m': Mem)
    ensures |m'.bytes| == |m.bytes| && m'.big == m.big
  {
    if !Accepts(m, a, 1) then m else
    Pow256Values();
    m.(bytes := m.bytes[a := if m.big then v else ReverseBytes(v, 1)])
  }

  function WriteHalf(m: Mem, a: Word, v: Half): (m': Mem)
    ensures |m'.bytes| == |m.bytes| && m'.big == m.big
  {
    if !Accepts(m, a, 2) then m else
    Pow256Values();
    var v' := if m.big then v else ReverseBytes(v, 2);
    m.(bytes := m.bytes[a := v' / 0x100][a + 1 := v' % 0x100])
  }

  function WriteWord(m: Mem, a: Word, v: Word): (m': Mem)
    ensures |m'.bytes| == |m.bytes| && m'.big == m.big
  {
    if !Accepts(m, a, 4) then m else
    Pow256Values();
    var v' := if m.big then v else ReverseBytes(v, 4);
    m.(bytes := m.bytes[a := v' / 0x100_0000][a + 1 := (v' / 0x1_0000) % 0x100]
                       [a + 2 := (v' / 0x100) % 0x100][a + 3 := v' % 0x100])
  }

  // ----- what the accesses mean -----

  /** The number that `bytes` spell in the given byte order. */
  function Assemble(big: bool, bytes: seq<Byte>): nat {
    FromDigits(if big then Reverse(bytes) else bytes)
  }

  /** The n bytes that spell the low 8n bits of v. */
  function Layout(big: bool, v: nat, n: nat): (bytes: seq<Byte>)
    ensures |bytes| == n
  {
    if big then Reverse(Digits(v, n)) else Digits(v, n)
  }

  lemma AssembleLayout(big: bool, v: nat, n: nat)
    ensures Assemble(big, Layout(big, v, n)) == v % Pow256(n)
  {
    ReverseTwice(Digits(v, n));
    NumberOfDigits(v, n);
  }

  lemma Digits1(d: seq<Byte>)
    requires |d| == 1
    ensures FromDigits(d) == d[0]
  {
    assert d[1..] == [];
  }

  lemma Digits2(d: seq<Byte>)
    requires |d| == 2
    ensures FromDigits(d) == d[0] + 0x100 * (d[1] as int)
  {
    Digits1(d[1..]);
  }

  lemma Digits4(d: seq<Byte>)
    requires |d| == 4
    ensures FromDigits(d) == d[0] + 0x100 * (d[1] as int) + 0x1_0000 * (d[2] as int) + 0x100_0000 * (d[3] as int)
  {
    Digits2(d[2..]);
    assert d[1..][1..] == d[2..];
  }

  lemma DigitsValue(v: nat, d: seq<Byte>)
    requires v == FromDigits(d)
    ensures ReverseBytes(v, |d|) == FromDigits(Reverse(d))
  {
    DigitsOfNumber(d);
  }

  lemma ReverseOfReversed(d: seq<Byte>)
    ensures ReverseBytes(FromDigits(Reverse(d)), |d|) == FromDigits(d)
  {
    DigitsValue(FromDigits(Reverse(d)), Reverse(d));
    ReverseTwice(d);
  }

  /** A read returns exactly the addressed bytes, assembled in the memory's byte order. */
  lemma ReadByteAssembles(m: Mem, a: Word)
    requires Accepts(m, a, 1)
    ensures ReadByte(m, a) == Some(Assemble(m.big, m.bytes[a..a + 1]))
  {
    var d := m.bytes[a..a + 1];
    Digits1(Reverse(d));
    ReverseOfReversed(d);
  }

  lemma ReadHalfAssembles(m: Mem, a: Word)
    requires Accepts(m, a, 2)
    ensures ReadHalf(m, a) == Some(Assemble(m.big, m.bytes[a..a + 2]))
  {
    var d := m.bytes[a..a + 2];
    Digits2(Reverse(d));
    ReverseOfReversed(d);
  }

  lemma ReadWordAssembles(m: Mem, a: Word)
    requires Accepts(m, a, 4)
    ensures ReadWord(m, a) == Some(Assemble(m.big, m.bytes[a..a + 4]))
  {
    var d := m.bytes[a..a + 4];
    Digits4(Reverse(d));
    ReverseOfReversed(d);
  }

  function Overwrite(s: seq<Byte>, a: nat, bytes: seq<Byte>): (r: seq<Byte>)
    requires a + |bytes| <= |s|
    ensures |r| == |s|
    ensures forall x :: 0 <= x < |s| ==> r[x] == if a <= x < a + |bytes| then bytes[x - a] else s[x]
  {
    s[..a] + bytes + s[a + |bytes|..]
  }

  lemma OverwriteTwice(s: seq<Byte>, a: nat, x: seq<Byte>, y: seq<Byte>)
    requires a + |x| + |y| <= |s|
    ensures Overwrite(Overwrite(s, a, x), a + |x|, y) == Overwrite(s, a, x + y)
    ensures Overwrite(Overwrite(s, a + |x|, y), a, x) == Overwrite(s, a, x + y)
  {
  }

  lemma WordDigits(v: Word)
    ensures Reverse(Digits(v, 4)) == [v / 0x100_0000, (v / 0x1_0000) % 0x100, (v / 0x100) % 0x100, v % 0x100]
  {
    Pow256Values();
    DigitAt(v, 4, 0); DigitAt(v, 4, 1); DigitAt(v, 4, 2); DigitAt(v, 4, 3);
  }

  lemma HalfDigits(v: Half)
    ensures Reverse(Digits(v, 2)) == [v / 0x100, v % 0x100]
  {
    Pow256Values();
    DigitAt(v, 2, 0); DigitAt(v, 2, 1);
  }

  /** A write replaces exactly the addressed bytes by those that spell the value. */
  lemma WriteByteLayout(m: Mem, a: Word, v: Byte)
    requires Accepts(m, a, 1)
    ensures WriteByte(m, a, v).bytes == Overwrite(m.bytes, a, Layout(m.big, v, 1))
  {
    assert Digits(v, 1) == [v];
    assert Reverse([v as Byte]) == [v];
    Digits1([v]);
    assert Layout(m.big, v, 1) == [v];
  }

  lemma WriteHalfLayout(m: Mem, a: Word, v: Half)
    requires Accepts(m, a, 2)
    ensures WriteHalf(m, a, v).bytes == Overwrite(m.bytes, a, Layout(m.big, v, 2))
  {
    Pow256Values();
    HalfDigits(v);
    HalfDigits(ReverseBytes(v, 2));
    ReverseBytesDigits(v, 2);
    ReverseTwice(Digits(v, 2));
  }

  lemma PutWord(s: seq<Byte>, a: nat, w: Word)
    requires a + 4 <= |s|
    ensures s[a := w / 0x100_0000][a + 1 := (w / 0x1_0000) % 0x100][a + 2 := (w / 0x100) % 0x100][a + 3 := w % 0x100]
         == Overwrite(s, a, Reverse(Digits(w, 4)))
  {
    WordDigits(w);
  }

  lemma WriteWordLayout(m: Mem, a: Word, v: Word)
    requires Accepts(m, a, 4)
    ensures WriteWord(m, a, v).bytes == Overwrite(m.bytes, a, Layout(m.big, v, 4))
  {
    Pow256Values();
    if m.big {
      PutWord(m.bytes, a, v);
    } else {
      PutWord(m.bytes, a, ReverseBytes(v, 4));
      ReverseBytesDigits(v, 4);
      ReverseTwice(Digits(v, 4));
    }
  }

  // ----- one name for the three widths -----

  function Read(m: Mem, a: Word, n: nat): (r: Option<Word>)
    requires Width(n)
  {
    if n == 1 then ReadByte(m, a) else if n == 2 then ReadHalf(m, a) else ReadWord(m, a)
  }

  function Write(m: Mem, a: Word, n: nat, v: Word): (m': Mem)
    requires Width(n)
    ensures |m'.bytes| == |m.bytes| && m'.big == m.big
  {
    if n == 1 then WriteByte(m, a, v % 0x100)
    else if n == 2 then WriteHalf(m, a, v % 0x1_0000)
    else WriteWord(m, a, v)
  }

  lemma ReadMeans(m: Mem, a: Word, n: nat)
    requires Width(n)
    ensures Read(m, a, n) == if Accepts(m, a, n) then Some(Assemble(m.big, m.bytes[a..a + n])) else None
  {
    if Accepts(m, a, n) {
      if n == 1 { ReadByteAssembles(m, a); }
      else if n == 2 { ReadHalfAssembles(m, a); }
      else { ReadWordAssembles(m, a); }
    }
  }

  lemma {:induction false} LowDigits(v: nat, n: nat)
    ensures Digits(v % Pow256(n), n) == Digits(v, n)
  {
    NumberOfDigits(v, n);
    DigitsOfNumber(Digits(v, n));
  }

  lemma WriteMeans(m: Mem, a: Word, n: nat, v: Word)
    requires Width(n)
    ensures Write(m, a, n, v).bytes
         == if Accepts(m, a, n) then Overwrite(m.bytes, a, Layout(m.big, v, n)) else m.bytes
  {
    if Accepts(m, a, n) {
      Pow256Values();
      LowDigits(v, n);
      if n == 1 { WriteByteLayout(m, a, v % 0x100); }
      else if n == 2 { WriteHalfLayout(m, a, v % 0x1_0000); }
      else { WriteWordLayout(m, a, v); }
    }
  }

  /** Write then read of any accepted width is the identity on the low 8n bits, in both byte orders,
      and all other bytes keep their values. */
  lemma WriteThenRead(m: Mem, a: Word, n: nat, v: Word)
    requires Width(n) && Accepts(m, a, n)
    ensures Read(Write(m, a, n, v), a, n) == Some(v % Pow256(n))
    ensures forall x :: 0 <= x < |m.bytes| && !(a <= x < a + n) ==> Write(m, a, n, v).bytes[x] == m.bytes[x]
  {
    var m' := Write(m, a, n, v);
    WriteMeans(m, a, n, v);
    ReadMeans(m', a, n);
    assert m'.bytes[a..a + n] == Layout(m.big, v, n);
    AssembleLayout(m.big, v, n);
  }

  /** Accesses to disjoint bytes do not disturb each other. */
  lemma ReadElsewhere(m: Mem, m': Mem, a: Word, n: nat)
    requires Width(n) && |m'.bytes| == |m.bytes| && m'.big == m.big
    requires Accepts(m, a, n) ==> forall x :: a <= x < a + n ==> m'.bytes[x] == m.bytes[x]
    ensures Read(m', a, n) == Read(m, a, n)
  {
    ReadMeans(m, a, n);
    ReadMeans(m', a, n);
    if Accepts(m, a, n) {
      assert forall x :: a <= x < a + n ==> m'.bytes[x] == m.bytes[x];
      assert m'.bytes[a..a + n] == m.bytes[a..a + n];
    }
  }

  // ----- agreement between widths -----

  /** Two n-byte numbers at consecutive addresses, read as one. */
  function Combine(big: bool, n: nat, first: nat, second: nat): nat {
    if big then second + Pow256(n) * first else first + Pow256(n) * second
  }

  /** Reading 2n bytes is reading n bytes twice and combining in the byte order. */
  lemma AssembleSplit(big: bool, first: seq<Byte>, second: seq<Byte>)
    requires |first| == |second|
    ensures Assemble(big, first + second) == Combine(big, |first|, Assemble(big, first), Assemble(big, second))
  {
    if big {
      assert Reverse(first + second) == Reverse(second) + Reverse(first);
      FromDigitsAppend(Reverse(second), Reverse(first));
    } else {
      FromDigitsAppend(first, second);
    }
  }

  lemma WordIsTwoHalves(m: Mem, a: Word)
    requires Accepts(m, a, 4)
    ensures ReadHalf(m, a).Some? && ReadHalf(m, a + 2).Some?
    ensures ReadWord(m, a) == Some(Combine(m.big, 2, ReadHalf(m, a).value, ReadHalf(m, a + 2).value))
  {
    hide ReadWord, ReadHalf, Assemble, Combine;
    ReadWordAssembles(m, a);
    ReadHalfAssembles(m, a);
    ReadHalfAssembles(m, a + 2);
    AssembleSplit(m.big, m.bytes[a..a + 2], m.bytes[a + 2..a + 4]);
    assert m.bytes[a..a + 4] == m.bytes[a..a + 2] + m.bytes[a + 2..a + 4];
  }

  lemma HalfIsTwoBytes(m: Mem, a: Word)
    requires Accepts(m, a, 2)
    ensures ReadByte(m, a).Some? && ReadByte(m, a + 1).Some?
    ensures ReadHalf(m, a) == Some(Combine(m.big, 1, ReadByte(m, a).value, ReadByte(m, a + 1).value))
  {
    hide ReadHalf, ReadByte, Assemble, Combine;
    ReadHalfAssembles(m, a);
    ReadByteAssembles(m, a);
    ReadByteAssembles(m, a + 1);
    AssembleSplit(m.big, m.bytes[a..a + 1], m.bytes[a + 1..a + 2]);
    assert m.bytes[a..a + 2] == m.bytes[a..a + 1] + m.bytes[a + 1..a + 2];
  }

  /** A word read is the four byte reads, combined in the byte order. */
  lemma WordIsFourBytes(m: Mem, a: Word)
    requires Accepts(m, a, 4)
    ensures ReadByte(m, a).Some? && ReadByte(m, a + 1).Some? && ReadByte(m, a + 2).Some? && ReadByte(m, a + 3).Some?
    ensures ReadWord(m, a) == Some(Combine(m.big, 2, Combine(m.big, 1, ReadByte(m, a).value, ReadByte(m, a + 1).value),
                                                     Combine(m.big, 1, ReadByte(m, a + 2).value,
                                                             ReadByte(m, a + 3).value)))
  {
    hide ReadByte, ReadHalf, ReadWord;
    WordIsTwoHalves(m, a);
    HalfIsTwoBytes(m, a);
    HalfIsTwoBytes(m, a + 2);
  }

  lemma DivPow256(v: nat, k: nat)
    requires k > 0
    ensures v / Pow256(k) == (v / 256) / Pow256(k - 1)
  {
    DivDiv(v, 256, Pow256(k - 1));
  }

  lemma {:induction false} DigitsSplit(v: nat, n: nat, k: nat, rest: nat)
    requires k <= n && rest == v / Pow256(k)
    ensures Digits(v, n) == Digits(v, k) + Digits(rest, n - k)
  {
    if k == 0 {
      DivUnique(v, 1, v, 0);
    } else {
      DivPow256(v, k);
      DigitsSplit(v / 256, n - 1, k - 1, rest);
    }
  }

  lemma LayoutHalves(big: bool, v: Word)
    ensures var (first, second) := if big then (v / 0x1_0000, v % 0x1_0000) else (v % 0x1_0000, v / 0x1_0000);
            Layout(big, v, 4) == Layout(big, first, 2) + Layout(big, second, 2)
  {
    Pow256Values();
    hide Digits;
    DigitsSplit(v, 4, 2, v / 0x1_0000);
    LowDigits(v, 2);
  }

  /** A write is determined by the bytes it leaves. */
  lemma WriteHalfIs(m: Mem, a: Word, v: Half)
    requires Accepts(m, a, 2)
    ensures WriteHalf(m, a, v) == m.(bytes := Overwrite(m.bytes, a, Layout(m.big, v, 2)))
  {
    hide WriteHalf, Overwrite, Layout;
    WriteHalfLayout(m, a, v);
  }

  /** A word write is the two half writes, in either order of writing. */
  lemma WordWriteIsTwoHalfWrites(m: Mem, a: Word, v: Word)
    requires Accepts(m, a, 4)
    ensures var (first, second) := if m.big then (v / 0x1_0000, v % 0x1_0000) else (v % 0x1_0000, v / 0x1_0000);
            && WriteWord(m, a, v) == WriteHalf(WriteHalf(m, a, first), a + 2, second)
            && WriteWord(m, a, v) == WriteHalf(WriteHalf(m, a + 2, second), a, first)
  {
    var (first, second) := if m.big then (v / 0x1_0000, v % 0x1_0000) else (v % 0x1_0000, v / 0x1_0000);
    HalvesInTurn(m, a, first, second);
    hide WriteWord, WriteHalf, Layout, Overwrite;
    WriteWordLayout(m, a, v);
    LayoutHalves(m.big, v);
  }

  lemma HalvesInTurn(m: Mem, a: Word, first: Half, second: Half)
    requires Accepts(m, a, 4)
    ensures a + 4 <= |m.bytes|
    ensures var m' := m.(bytes := Overwrite(m.bytes, a, Layout(m.big, first, 2) + Layout(m.big, second, 2)));
            && m' == WriteHalf(WriteHalf(m, a, first), a + 2, second)
            && m' == WriteHalf(WriteHalf(m, a + 2, second), a, first)
  {
    hide WriteHalf, Layout, Overwrite;
    WriteHalfIs(m, a, first);
    WriteHalfIs(WriteHalf(m, a, first), a + 2, second);
    WriteHalfIs(m, a + 2, second);
    WriteHalfIs(WriteHalf(m, a + 2, second), a, first);
    OverwriteTwice(m.bytes, a, Layout(m.big, first, 2), Layout(m.big, second, 2));
  }

  lemma LayoutBytes(big: bool, v: Half)
    ensures var (first, second) := if big then (v / 0x100, v % 0x100) else (v % 0x100, v / 0x100);
            Layout(big, v, 2) == Layout(big, first, 1) + Layout(big, second, 1)
  {
    Pow256Values();
    hide Digits;
    DigitsSplit(v, 2, 1, v / 0x100);
    LowDigits(v, 1);
  }

  /** A half write is the two byte writes. */
  lemma HalfWriteIsTwoByteWrites(m: Mem, a: Word, v: Half)
    requires Accepts(m, a, 2)
    ensures var (first, second) := if m.big then (v / 0x100, v % 0x100) else (v % 0x100, v / 0x100);
            WriteHalf(m, a, v) == WriteByte(WriteByte(m, a, first), a + 1, second)
  {
    var (first, second) := if m.big then (v / 0x100, v % 0x100) else (v % 0x100, v / 0x100);
    hide WriteHalf, WriteByte, Layout, Overwrite;
    WriteHalfLayout(m, a, v);
    WriteByteLayout(m, a, first);
    WriteByteLayout(WriteByte(m, a, first), a + 1, second);
    LayoutBytes(m.big, v);
    OverwriteTwice(m.bytes, a, Layout(m.big, first, 1), Layout(m.big, second, 1));
  }

  lemma QuarterWords(v: Word)
    ensures (v / 0x1_0000) / 0x100 == v / 0x100_0000
    ensures (v % 0x1_0000) / 0x100 == (v / 0x100) % 0x100
    ensures (v % 0x1_0000) % 0x100 == v % 0x100
  {
    var h, l := v / 0x1_0000, v % 0x1_0000;
    var m, n := l / 0x100, l % 0x100;
    assert v == 0x100 * (0x100 * h + m) + n;
  }

  /** A word write is the four byte writes of its digits. */
  lemma WordWriteIsFourByteWrites(m: Mem, a: Word, v: Word)
    requires Accepts(m, a, 4)
    ensures var (b0, b1, b2, b3) := (v % 0x100, (v / 0x100) % 0x100, (v / 0x1_0000) % 0x100, v / 0x100_0000);
            WriteWord(m, a, v) ==
            if m.big then WriteByte(WriteByte(WriteByte(WriteByte(m, a, b3), a + 1, b2), a + 2, b1), a + 3, b0)
            else WriteByte(WriteByte(WriteByte(WriteByte(m, a, b0), a + 1, b1), a + 2, b2), a + 3, b3)
  {
    hide WriteByte, WriteHalf, WriteWord;
    QuarterWords(v);
    var (first, second) := if m.big then (v / 0x1_0000, v % 0x1_0000) else (v % 0x1_0000, v / 0x1_0000);
    WordWriteIsTwoHalfWrites(m, a, v);
    HalfWriteIsTwoByteWrites(m, a, first);
    HalfWriteIsTwoByteWrites(WriteHalf(m, a, first), a + 2, second);
  }

  // ----- a whole history of writes -----

  datatype Store = Store(a: Word, n: nat, v: Word)

  predicate WellFormed(ws: seq<Store>) {
    forall i :: 0 <= i < |ws| ==> Width(ws[i].n)
  }

  function WriteAll(m: Mem, ws: seq<Store>): (m': Mem)
    requires WellFormed(ws)
    ensures |m'.bytes| == |m.bytes| && m'.big == m.big
  {
    if ws == [] then m else
    var w := ws[|ws| - 1];
    Write(WriteAll(m, ws[..|ws| - 1]), w.a, w.n, w.v)
  }

  /** The byte that write w gives address x: a base-256 digit of its value. */
  function ByteGiven(big: bool, w: Store, x: nat): Byte
    requires w.a <= x < w.a + w.n
  {
    (w.v / Pow256(if big then w.a + w.n - 1 - x else x - w.a)) % 256
  }

  /** What the last accepted write covering x gave it, or its initial byte. */
  function LastByte(m: Mem, ws: seq<Store>, x: nat): Byte
    requires x < |m.bytes|
  {
    if ws == [] then m.bytes[x] else
    var w := ws[|ws| - 1];
    if Accepts(m, w.a, w.n) && w.a <= x < w.a + w.n then ByteGiven(m.big, w, x)
    else LastByte(m, ws[..|ws| - 1], x)
  }

  function LastBytes(m: Mem, ws: seq<Store>, a: nat, n: nat): (bytes: seq<Byte>)
    requires a + n <= |m.bytes|
    ensures |bytes| == n
    ensures forall i :: 0 <= i < n ==> bytes[i] == LastByte(m, ws, a + i)
    decreases n
  {
    if n == 0 then [] else [LastByte(m, ws, a)] + LastBytes(m, ws, a + 1, n - 1)
  }

  lemma LayoutByte(big: bool, v: nat, n: nat, k: nat)
    requires k < n
    ensures Layout(big, v, n)[k] == (v / Pow256(if big then n - 1 - k else k)) % 256
  {
    DigitAt(v, n, if big then n - 1 - k else k);
  }

  lemma {:induction false} HistoryByte(m: Mem, ws: seq<Store>, x: nat)
    requires WellFormed(ws) && x < |m.bytes|
    ensures WriteAll(m, ws).bytes[x] == LastByte(m, ws, x)
    decreases |ws|
  {
    if ws != [] {
      var w := ws[|ws| - 1];
      var before := WriteAll(m, ws[..|ws| - 1]);
      HistoryByte(m, ws[..|ws| - 1], x);
      hide Write, Layout;
      WriteMeans(before, w.a, w.n, w.v);
      if Accepts(m, w.a, w.n) && w.a <= x < w.a + w.n {
        LayoutByte(m.big, w.v, w.n, x - w.a);
      }
    }
  }

  lemma HistoryBytes(m: Mem, ws: seq<Store>, a: nat, n: nat)
    requires WellFormed(ws) && a + n <= |m.bytes|
    ensures WriteAll(m, ws).bytes[a..a + n] == LastBytes(m, ws, a, n)
  {
    hide WriteAll, LastByte, LastBytes;
    var m' := WriteAll(m, ws);
    forall i | 0 <= i < n ensures m'.bytes[a..a + n][i] == LastBytes(m, ws, a, n)[i] {
      HistoryByte(m, ws, a + i);
    }
  }

  /** Memory refines a byte map: after any history of writes, a read of any width returns the bytes
      last given to each address, assembled in the byte order. */
  lemma ReadAfterHistory(m: Mem, ws: seq<Store>, a: Word, n: nat)
    requires WellFormed(ws) && Width(n) && Accepts(m, a, n)
    ensures a + n <= |m.bytes|
    ensures Read(WriteAll(m, ws), a, n)
         == Some(Assemble(m.big, LastBytes(m, ws, a, n)))
  {
    AcceptedStaysInWord(m, a, n);
    hide Read, Assemble, WriteAll, LastByte, LastBytes;
    ReadMeans(WriteAll(m, ws), a, n);
    HistoryBytes(m, ws, a, n);
  }
}
