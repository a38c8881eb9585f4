/**
 CRC-32 by the 256-entry table of section 8 of RFC 1952, each entry eight steps of the bit-at-a-time
 reflected CRC, and by the 16-entry table of the boot stub and of littlefs.
 Shifts and masks of 32-bit words are divisions and remainders by powers of two.
 */
module Crc32 {
  import opened Bytes
  import opened BitArithmetic

  const ONES: u32 := 0xFFFF_FFFF
  const POLY: u32 := 0xEDB8_8320

  // ----- Section 8 of RFC 1952 -----

  /** One bit of a reflected CRC with generator `poly`. */
  function BitStep(poly: nat, c: nat): nat {
    if Odd(c) then Xor(c / 2, poly) else c / 2
  }

  function BitSteps4(poly: nat, c: nat): nat {
    BitStep(poly, BitStep(poly, BitStep(poly, BitStep(poly, c))))
  }

  /** The table entry for `n`: eight bit steps. */
  function CrcTable(n: nat): nat {
    BitSteps4(POLY, BitSteps4(POLY, n))
  }

  /** `update_crc` without its two complements. */
  function Update(crc: nat, data: seq<byte>): nat
    decreases |data|
  {
    if data == [] then crc
    else Update(Xor(CrcTable(Xor(crc, data[0]) % 0x100), crc / 0x100), data[1..])
  }

  function Crc(data: seq<byte>): nat {
    Xor(Update(ONES, data), ONES)
  }

  // ----- Bit steps are linear -----

  lemma {:induction false} BitStepXor(poly: nat, a: nat, b: nat)
    ensures BitStep(poly, Xor(a, b)) == Xor(BitStep(poly, a), BitStep(poly, b))
  {
    XorHalf(a, b);
    XorAssoc(a / 2, b / 2, poly);
    XorSwap(a / 2, poly, b / 2);
    XorAssoc(a / 2, poly, Xor(b / 2, poly));
    XorComm(poly, Xor(b / 2, poly));
    XorCancel(b / 2, poly);
  }

  lemma {:induction false} BitSteps4Xor(poly: nat, a: nat, b: nat)
    ensures BitSteps4(poly, Xor(a, b)) == Xor(BitSteps4(poly, a), BitSteps4(poly, b))
  {
    var a1, b1 := BitStep(poly, a), BitStep(poly, b);
    var a2, b2 := BitStep(poly, a1), BitStep(poly, b1);
    BitStepXor(poly, a, b);
    BitStepXor(poly, a1, b1);
    BitStepXor(poly, a2, b2);
    BitStepXor(poly, BitStep(poly, a2), BitStep(poly, b2));
  }

  lemma {:induction false} HalfStep(poly: nat, h: nat)
    ensures BitStep(poly, 2 * h) == h
  {
  }

  lemma {:induction false} BitSteps4Shift(poly: nat, c: nat, h: nat)
    requires c == 16 * h
    ensures BitSteps4(poly, c) == h
  {
    HalfStep(poly, 8 * h);
    HalfStep(poly, 4 * h);
    HalfStep(poly, 2 * h);
    HalfStep(poly, h);
  }

  // ----- The 16-entry table -----

  const TAB: seq<u32> := [
    0x00000000, 0x1DB71064, 0x3B6E20C8, 0x26D930AC,
    0x76DC4190, 0x6B6B51F4, 0x4DB26158, 0x5005713C,
    0xEDB88320, 0xF00F9344, 0xD6D6A3E8, 0xCB61B38C,
    0x9B64C2B0, 0x86D3D2D4, 0xA00AE278, 0xBDBDF21C
  ]

  ghost predicate OddEntry(tab: seq<nat>, n: nat)
    requires |tab| == 16 && n < 8
  {
    Xor(tab[2 * n], tab[1]) == tab[2 * n + 1]
  }

  /** What makes a table the four-bit table of `poly`. */
  ghost predicate NibbleTable(tab: seq<nat>, poly: nat) {
    && |tab| == 16 && tab[0] == 0 && tab[8] == poly
    && (forall n :: 0 <= n < 8 ==> tab[2 * n] == 2 * tab[n])
    && (forall n :: 0 <= n < 8 ==> OddEntry(tab, n))
  }

  // Small numbers are parameters of the next lemmas, since recursive functions of literals are unfolded without end.

  lemma {:induction false} LowestBit(poly: nat, n: nat)
    requires n == 1
    ensures BitStep(poly, n) == poly
  {
    XorZero(poly);
  }

  /** From index 8 the set bit is shifted out and leaves `poly`; each lower index shifts that once more. */
  lemma {:induction false} SingleBit(tab: seq<nat>, poly: nat, n: nat)
    requires NibbleTable(tab, poly) && (n == 1 || n == 2 || n == 4 || n == 8)
    ensures tab[n] == BitSteps4(poly, n)
  {
    assert tab[2 * 4] == 2 * tab[4] && tab[2 * 2] == 2 * tab[2] && tab[2 * 1] == 2 * tab[1];
    HalfStep(poly, tab[4]);
    HalfStep(poly, tab[2]);
    HalfStep(poly, tab[1]);
    if n == 8 {
      HalfStep(poly, n / 2);
      HalfStep(poly, n / 4);
      HalfStep(poly, n / 8);
      LowestBit(poly, n / 8);
    } else if n == 4 {
      HalfStep(poly, n / 2);
      HalfStep(poly, n / 4);
      LowestBit(poly, n / 4);
    } else if n == 2 {
      HalfStep(poly, n / 2);
      LowestBit(poly, n / 2);
    } else {
      LowestBit(poly, n);
    }
  }

  ghost predicate Doubles(poly: nat, m: nat) {
    BitSteps4(poly, 2 * m) == 2 * BitSteps4(poly, m)
  }

  lemma {:induction false} DoublesXor(poly: nat, a: nat, b: nat, c: nat)
    requires Doubles(poly, a) && Doubles(poly, b) && c == Xor(a, b)
    ensures Doubles(poly, c)
  {
    XorDouble(a, b);
    BitSteps4Xor(poly, 2 * a, 2 * b);
    BitSteps4Xor(poly, a, b);
    XorDouble(BitSteps4(poly, a), BitSteps4(poly, b));
  }

  lemma {:induction false} SplitLow(n: nat, one: nat)
    requires Odd(n) && one == 1
    ensures Xor(n - 1, one) == n
  {
    XorDouble(n / 2, 0);
  }

  lemma {:induction false} DoublesOneBit(tab: seq<nat>, poly: nat, m: nat)
    requires NibbleTable(tab, poly) && (m == 1 || m == 2 || m == 4)
    ensures Doubles(poly, m)
  {
    SingleBit(tab, poly, m);
    SingleBit(tab, poly, 2 * m);
  }

  lemma {:induction false} DoublesSix(tab: seq<nat>, poly: nat, four: nat, two: nat)
    requires NibbleTable(tab, poly) && four == 4 && two == 2
    ensures Doubles(poly, four + two)
  {
    DoublesOneBit(tab, poly, four);
    DoublesOneBit(tab, poly, two);
    SplitLow(two + 1, two - 1);
    XorDouble(two, two - 1);
    DoublesXor(poly, four, two, four + two);
  }

  lemma {:induction false} DoublesOdd(tab: seq<nat>, poly: nat, m: nat, one: nat)
    requires NibbleTable(tab, poly) && Odd(m) && one == 1 && Doubles(poly, m - 1)
    ensures Doubles(poly, m)
  {
    DoublesOneBit(tab, poly, one);
    SplitLow(m, one);
    DoublesXor(poly, m - 1, one, m);
  }

  lemma {:induction false} BitSteps4Doubles(tab: seq<nat>, poly: nat, m: nat)
    requires NibbleTable(tab, poly) && m < 8
    ensures Doubles(poly, m)
    decreases m
  {
    if m == 1 || m == 2 || m == 4 {
      DoublesOneBit(tab, poly, m);
    } else if m == 6 {
      DoublesSix(tab, poly, m - 2, m - 4);
    } else if m != 0 {
      BitSteps4Doubles(tab, poly, m - 1);
      DoublesOdd(tab, poly, m, m % 2);
    }
  }

  lemma {:induction false} OddIndex(tab: seq<nat>, poly: nat, n: nat, one: nat)
    requires NibbleTable(tab, poly) && n < 16 && Odd(n) && one == 1
    requires tab[n - 1] == BitSteps4(poly, n - 1)
    ensures tab[n] == BitSteps4(poly, n)
  {
    hide Xor, BitStep, BitSteps4;
    SingleBit(tab, poly, one);
    SplitLow(n, one);
    BitSteps4Xor(poly, n - 1, one);
    assert OddEntry(tab, n / 2);
  }

  /** Each entry is four bit steps of its index. */
  lemma {:induction false} TableIsBitSteps(tab: seq<nat>, poly: nat, n: nat)
    requires NibbleTable(tab, poly) && n < 16
    ensures tab[n] == BitSteps4(poly, n)
    decreases n
  {
    if Odd(n) {
      TableIsBitSteps(tab, poly, n - 1);
      OddIndex(tab, poly, n, n % 2);
    } else if n != 0 {
      TableIsBitSteps(tab, poly, n / 2);
      BitSteps4Doubles(tab, poly, n / 2);
      assert tab[2 * (n / 2)] == 2 * tab[n / 2];
    }
  }

  lemma {:induction false} TabEntry3()
    ensures OddEntry(TAB, 1)
  {
    hide Xor;
    XorWord(Word(3, 0xB, 6, 0xE, 2, 0, 0xC, 8), Word(1, 0xD, 0xB, 7, 1, 0, 6, 4), Word(2, 6, 0xD, 9, 3, 0, 0xA, 0xC));
  }

  lemma {:induction false} TabEntry5()
    ensures OddEntry(TAB, 2)
  {
    hide Xor;
    XorWord(Word(7, 6, 0xD, 0xC, 4, 1, 9, 0), Word(1, 0xD, 0xB, 7, 1, 0, 6, 4), Word(6, 0xB, 6, 0xB, 5, 1, 0xF, 4));
  }

  lemma {:induction false} TabEntry7()
    ensures OddEntry(TAB, 3)
  {
    hide Xor;
    XorWord(Word(4, 0xD, 0xB, 2, 6, 1, 5, 8), Word(1, 0xD, 0xB, 7, 1, 0, 6, 4), Word(5, 0, 0, 5, 7, 1, 3, 0xC));
  }

  lemma {:induction false} TabEntry9()
    ensures OddEntry(TAB, 4)
  {
    hide Xor;
    XorWord(Word(0xE, 0xD, 0xB, 8, 8, 3, 2, 0), Word(1, 0xD, 0xB, 7, 1, 0, 6, 4), Word(0xF, 0, 0, 0xF, 9, 3, 4, 4));
  }

  lemma {:induction false} TabEntry11()
    ensures OddEntry(TAB, 5)
  {
    hide Xor;
    XorWord(Word(0xD, 6, 0xD, 6, 0xA, 3, 0xE, 8), Word(1, 0xD, 0xB, 7, 1, 0, 6, 4),
            Word(0xC, 0xB, 6, 1, 0xB, 3, 8, 0xC));
  }

  lemma {:induction false} TabEntry13()
    ensures OddEntry(TAB, 6)
  {
    hide Xor;
    XorWord(Word(9, 0xB, 6, 4, 0xC, 2, 0xB, 0), Word(1, 0xD, 0xB, 7, 1, 0, 6, 4), Word(8, 6, 0xD, 3, 0xD, 2, 0xD, 4));
  }

  lemma {:induction false} TabEntry15()
    ensures OddEntry(TAB, 7)
  {
    hide Xor;
    XorWord(Word(0xA, 0, 0, 0xA, 0xE, 2, 7, 8), Word(1, 0xD, 0xB, 7, 1, 0, 6, 4),
            Word(0xB, 0xD, 0xB, 0xD, 0xF, 2, 1, 0xC));
  }

  lemma {:induction false} TabOdd(n: nat)
    requires n < 8
    ensures OddEntry(TAB, n)
  {
    if n == 0 {
      XorZero(TAB[1]);
    } else if n == 1 {
      TabEntry3();
    } else if n == 2 {
      TabEntry5();
    } else if n == 3 {
      TabEntry7();
    } else if n == 4 {
      TabEntry9();
    } else if n == 5 {
      TabEntry11();
    } else if n == 6 {
      TabEntry13();
    } else {
      TabEntry15();
    }
  }

  lemma TabEven(n: nat)
    requires n < 8
    ensures TAB[2 * n] == 2 * TAB[n]
  {
  }

  lemma {:induction false} TabIsTable()
    ensures NibbleTable(TAB, POLY)
  {
    forall n | 0 <= n < 8
      ensures OddEntry(TAB, n)
    {
      TabOdd(n);
    }
    forall n | 0 <= n < 8
      ensures TAB[2 * n] == 2 * TAB[n]
    {
      TabEven(n);
    }
  }

  function NibbleStep(crc: nat): nat {
    Xor(crc / 16, TAB[crc % 16])
  }

  lemma {:induction false} TableStep(tab: seq<nat>, poly: nat, c: nat)
    requires NibbleTable(tab, poly)
    ensures Xor(c / 16, tab[c % 16]) == BitSteps4(poly, c)
  {
    var h, l := c / 16, c % 16;
    XorDisjoint(h, l);
    BitSteps4Xor(poly, 16 * h, l);
    BitSteps4Shift(poly, 16 * h, h);
    TableIsBitSteps(tab, poly, l);
  }

  lemma {:induction false} NibbleIsBitSteps(c: nat)
    ensures NibbleStep(c) == BitSteps4(POLY, c)
  {
    TabIsTable();
    TableStep(TAB, POLY, c);
  }

  function ByteStep(crc: nat): nat {
    NibbleStep(NibbleStep(crc))
  }

  lemma {:induction false} CrcTableIsByteStep(n: nat)
    ensures CrcTable(n) == ByteStep(n)
  {
    NibbleIsBitSteps(n);
    NibbleIsBitSteps(NibbleStep(n));
  }

  // ----- What a step does to the parts of a word -----

  lemma {:induction false} XorAbove(c: nat, y: nat)
    ensures Xor(c, 16 * y) / 16 == Xor(c / 16, y) && Xor(c, 16 * y) % 16 == c % 16
  {
    XorParts(c, 16 * y);
    XorZero(c % 16);
    AppendDigit(Xor(c / 16, y), c % 16);
  }

  lemma {:induction false} NibbleShift(c: nat, y: nat)
    ensures NibbleStep(Xor(c, 16 * y)) == Xor(NibbleStep(c), y)
  {
    XorAbove(c, y);
    XorSwap(c / 16, y, TAB[c % 16]);
  }

  /** What lies above the low byte is only shifted by a byte step. */
  lemma {:induction false} ByteShift(c: nat, y: nat)
    ensures ByteStep(Xor(c, 16 * (16 * y))) == Xor(ByteStep(c), y)
  {
    NibbleShift(c, 16 * y);
    NibbleShift(NibbleStep(c), y);
  }

  lemma {:induction false} SplitByte(h: nat, l: nat)
    requires l < 0x100
    ensures 0x100 * h + l == Xor(l, 16 * (16 * h))
  {
    XorParts(l, 16 * (16 * h));
    XorComm(l / 16, 16 * h);
    XorDisjoint(h, l / 16);
    XorZero(l % 16);
  }

  /** One byte of section 8 of RFC 1952 is two nibble steps. */
  lemma {:induction false} TableByte(c: nat, h: nat, l: nat)
    requires c == 0x100 * h + l && l < 0x100
    ensures Xor(CrcTable(l), h) == ByteStep(c)
  {
    SplitByte(h, l);
    ByteShift(l, h);
    CrcTableIsByteStep(l);
  }

  lemma {:induction false} UpdateStep(crc: nat, data: seq<byte>)
    requires data != []
    ensures Update(crc, data) == Update(ByteStep(Xor(crc, data[0])), data[1..])
  {
    var c := Xor(crc, data[0]);
    TableByte(c, c / 0x100, c % 0x100);
    HighUnchanged(crc, data[0]);
  }

  lemma {:induction false} HighUnchanged(crc: nat, b: byte)
    ensures Xor(crc, b) / 0x100 == crc / 0x100
  {
    XorShift4(crc, b);
    XorShift4(crc / 16, b / 16);
    XorZero(crc / 0x100);
  }

  /** Running the CRC over a concatenation is running it over the parts in turn. */
  lemma {:induction false} UpdateConcat(crc: nat, a: seq<byte>, b: seq<byte>)
    ensures Update(crc, a + b) == Update(Update(crc, a), b)
    decreases |a|
  {
    if a == [] {
      assert a + b == b;
    } else {
      assert (a + b)[1..] == a[1..] + b;
      UpdateStep(crc, a);
      UpdateStep(crc, a + b);
      UpdateConcat(ByteStep(Xor(crc, a[0])), a[1..], b);
    }
  }

  // ----- Steps stay within 32 bits and lose nothing -----

  /** Undo a bit step: the top bit tells whether the generator was taken in. */
  function BitUnstep(poly: nat, top: nat, c: nat): nat {
    if c >= top then 2 * Xor(c, poly) + 1 else 2 * c
  }

  lemma {:induction false} BitStepUndone(poly: nat, top: nat, c: nat)
    requires PowerOf2(top) && PowerOf2(2 * top) && top <= poly < 2 * top && c < 2 * top
    ensures BitUnstep(poly, top, BitStep(poly, c)) == c && BitStep(poly, c) < 2 * top
  {
    XorTop(c / 2, poly, top);
    XorBelow(c / 2, poly, 2 * top);
    XorCancel(c / 2, poly);
  }

  lemma {:induction false} BitSteps4Injective(poly: nat, top: nat, a: nat, b: nat)
    requires PowerOf2(top) && PowerOf2(2 * top) && top <= poly < 2 * top && a < 2 * top && b < 2 * top
    ensures BitSteps4(poly, a) < 2 * top
    ensures BitSteps4(poly, a) == BitSteps4(poly, b) ==> a == b
  {
    var a1, b1 := BitStep(poly, a), BitStep(poly, b);
    BitStepUndone(poly, top, a);
    BitStepUndone(poly, top, b);
    var a2, b2 := BitStep(poly, a1), BitStep(poly, b1);
    BitStepUndone(poly, top, a1);
    BitStepUndone(poly, top, b1);
    BitStepUndone(poly, top, a2);
    BitStepUndone(poly, top, b2);
    BitStepUndone(poly, top, BitStep(poly, a2));
    BitStepUndone(poly, top, BitStep(poly, b2));
  }

  lemma {:induction false} NibbleInjective(a: u32, b: u32)
    ensures NibbleStep(a) < TWO32
    ensures NibbleStep(a) == NibbleStep(b) ==> a == b
  {
    Powers();
    NibbleIsBitSteps(a);
    NibbleIsBitSteps(b);
    BitSteps4Injective(POLY, 0x8000_0000, a, b);
  }

  lemma {:induction false} ByteInjective(a: u32, b: u32)
    ensures ByteStep(a) < TWO32
    ensures ByteStep(a) == ByteStep(b) ==> a == b
  {
    NibbleInjective(a, b);
    NibbleInjective(b, a);
    NibbleInjective(NibbleStep(a), NibbleStep(b));
  }

  lemma {:induction false} XorWord32(a: u32, b: u32)
    ensures Xor(a, b) < TWO32
  {
    Powers();
    XorBelow(a, b, TWO32);
  }

  lemma {:induction false} UpdateBelow(crc: u32, data: seq<byte>)
    ensures Update(crc, data) < TWO32
    decreases |data|
  {
    if data != [] {
      UpdateStep(crc, data);
      XorWord32(crc, data[0]);
      ByteInjective(Xor(crc, data[0]), 0);
      UpdateBelow(ByteStep(Xor(crc, data[0])), data[1..]);
    }
  }

  lemma {:induction false} CrcBelow(data: seq<byte>)
    ensures Crc(data) < TWO32
  {
    UpdateBelow(ONES, data);
    XorWord32(Update(ONES, data), ONES);
  }

  /** The same data keeps different states different. */
  lemma {:induction false} UpdateInjective(c: u32, d: u32, data: seq<byte>)
    requires Update(c, data) == Update(d, data)
    ensures c == d
    decreases |data|
  {
    if data != [] {
      var b := data[0];
      UpdateStep(c, data);
      UpdateStep(d, data);
      XorWord32(c, b);
      XorWord32(d, b);
      ByteInjective(Xor(c, b), Xor(d, b));
      ByteInjective(Xor(d, b), Xor(c, b));
      UpdateInjective(ByteStep(Xor(c, b)), ByteStep(Xor(d, b)), data[1..]);
      XorCancel(c, b);
      XorCancel(d, b);
    }
  }

  // ----- Corruption of up to four consecutive bytes -----

  /** Undoing one byte: states that differ by a small `e` after a step differed by `e` shifted up before it. */
  lemma {:induction false} Unstep(p: u32, q: u32, e: nat)
    requires e < 0x100_0000 && ByteStep(p) == Xor(ByteStep(q), e)
    ensures p == Xor(q, 16 * (16 * e))
  {
    ByteShift(q, e);
    XorWord32(q, 16 * (16 * e));
    ByteInjective(p, Xor(q, 16 * (16 * e)));
  }

  /** Two states, each before a byte is taken in, differ by those bytes and by what is left after the step. */
  lemma {:induction false} UnstepByte(c: u32, d: u32, a: byte, b: byte, e: nat)
    requires e == Xor(ByteStep(Xor(c, a)), ByteStep(Xor(d, b))) && e < 0x100_0000
    ensures Xor(c, d) == Xor(Xor(a, b), 16 * (16 * e))
  {
    var p, q, x := Xor(c, a), Xor(d, b), 16 * (16 * e);
    XorWord32(c, a);
    XorWord32(d, b);
    XorComm(ByteStep(q), e);
    XorCancel(ByteStep(p), ByteStep(q));
    Unstep(p, q, e);
    XorCancel(c, a);
    XorSwap(Xor(d, b), x, a);
    XorComm(c, d);
    XorOut(d, b, a, x);
  }

  lemma {:induction false} XorOut(d: nat, b: nat, a: nat, x: nat)
    ensures Xor(d, Xor(Xor(Xor(d, b), a), x)) == Xor(Xor(a, b), x)
  {
    XorAssoc(d, b, a);
    XorAssoc(d, Xor(b, a), x);
    XorAssoc(d, d, Xor(Xor(b, a), x));
    XorSelf(d);
    XorZero(Xor(Xor(b, a), x));
    XorComm(a, b);
  }

  /** The number of values of `k` bytes. */
  function Values(k: nat): nat
    requires k <= 4
  {
    [1, 0x100, 0x1_0000, 0x100_0000, 0x1_0000_0000][k]
  }

  lemma ValuesArePowers(k: nat)
    requires k <= 4
    ensures PowerOf2(Values(k))
  {
    Powers();
  }

  lemma {:induction false} ByteAndHigher(a: byte, b: byte, e: nat, k: nat)
    requires 1 <= k <= 4 && e < Values(k - 1)
    ensures Xor(Xor(a, b), 16 * (16 * e)) < Values(k)
  {
    ValuesArePowers(k);
    ValuesArePowers(1);
    XorBelow(a, b, 0x100);
    XorBelow(Xor(a, b), 16 * (16 * e), Values(k));
  }

  /** States that `k` bytes bring together differ in `8 * k` low bits at most. */
  lemma {:induction false} Meet(c: u32, d: u32, x: seq<byte>, y: seq<byte>)
    requires |x| == |y| <= 4 && Update(c, x) == Update(d, y)
    ensures Xor(c, d) < Values(|x|)
    decreases |x|
  {
    if x == [] {
      XorSelf(c);
    } else {
      MeetStep(c, x);
      MeetStep(d, y);
      var c', d' := ByteStep(Xor(c, x[0])), ByteStep(Xor(d, y[0]));
      Meet(c', d', x[1..], y[1..]);
      var e := Xor(c', d');
      UnstepByte(c, d, x[0], y[0], e);
      ByteAndHigher(x[0], y[0], e, |x|);
    }
  }

  lemma {:induction false} MeetStep(c: u32, x: seq<byte>)
    requires x != []
    ensures ByteStep(Xor(c, x[0])) < TWO32
    ensures Update(c, x) == Update(ByteStep(Xor(c, x[0])), x[1..])
  {
    UpdateStep(c, x);
    XorWord32(c, x[0]);
    ByteInjective(Xor(c, x[0]), 0);
  }

  lemma {:induction false} SameByte(c: u32, a: byte, b: byte, e: nat)
    requires e == Xor(ByteStep(Xor(c, a)), ByteStep(Xor(c, b))) && e < 0x100_0000
    ensures a == b && e == 0
  {
    hide ByteStep, PowerOf2, Xor;
    UnstepByte(c, c, a, b, e);
    XorSelf(c);
    XorEqual(Xor(a, b), 16 * (16 * e));
    ValuesArePowers(1);
    XorBelow(a, b, 0x100);
    XorEqual(a, b);
  }

  /** From one state, different runs of up to four bytes lead to different states. */
  lemma {:induction false} FourBytes(c: u32, x: seq<byte>, y: seq<byte>)
    requires |x| == |y| <= 4 && Update(c, x) == Update(c, y)
    ensures x == y
    decreases |x|
  {
    if x != [] {
      MeetStep(c, x);
      MeetStep(c, y);
      var c', d' := ByteStep(Xor(c, x[0])), ByteStep(Xor(c, y[0]));
      Meet(c', d', x[1..], y[1..]);
      SameByte(c, x[0], y[0], Xor(c', d'));
      FourBytes(c', x[1..], y[1..]);
      assert x == [x[0]] + x[1..] && y == [y[0]] + y[1..];
    }
  }

  /** Buffers of one length that differ, but only within four consecutive bytes, have different CRCs. */
  lemma {:induction false} CorruptionChangesCrc(x: seq<byte>, y: seq<byte>, p: nat)
    requires |x| == |y| && x != y
    requires forall k :: 0 <= k < |x| && !(p <= k < p + 4) ==> x[k] == y[k]
    ensures Crc(x) != Crc(y)
  {
    var lo := if p <= |x| then p else |x|;
    var hi := if p + 4 <= |x| then p + 4 else |x|;
    var pre, post := x[..lo], x[hi..];
    assert pre == y[..lo] && post == y[hi..];
    assert x == pre + x[lo..hi] + post && y == pre + y[lo..hi] + post;
    if Crc(x) == Crc(y) {
      XorCancel(Update(ONES, x), ONES);
      XorCancel(Update(ONES, y), ONES);
      MiddleEqual(pre, x[lo..hi], y[lo..hi], post);
    }
  }

  lemma {:induction false} MiddleEqual(pre: seq<byte>, x: seq<byte>, y: seq<byte>, post: seq<byte>)
    requires |x| == |y| <= 4 && Update(ONES, pre + x + post) == Update(ONES, pre + y + post)
    ensures x == y
  {
    UpdateConcat(ONES, pre + x, post);
    UpdateConcat(ONES, pre + y, post);
    UpdateConcat(ONES, pre, x);
    UpdateConcat(ONES, pre, y);
    var c := Update(ONES, pre);
    UpdateBelow(ONES, pre);
    UpdateBelow(c, x);
    UpdateBelow(c, y);
    UpdateInjective(Update(c, x), Update(c, y), post);
    FourBytes(c, x, y);
  }

  // ----- The loops -----

  /** The stub's `crc32_calc` over a stretch of memory. */
  method Crc32Calc(mem: array<byte>, data: nat, len: nat) returns (r: nat)
    requires data + len <= mem.Length
    ensures r == Crc(mem[data..data + len])
  {
    var crc: nat := ONES;
    var i := 0;
    ghost var all := mem[data..data + len];
    while i < len
      invariant i <= len
      invariant Update(crc, all[i..]) == Update(ONES, all)
    {
      UpdateStep(crc, all[i..]);
      assert all[i..][1..] == all[i + 1..];
      crc := Xor(crc, mem[data + i]);
      crc := Xor(crc / 16, TAB[crc % 16]);
      crc := Xor(crc / 16, TAB[crc % 16]);
      i := i + 1;
    }
    r := Xor(crc, ONES);
  }

  // ----- A known value -----

  lemma {:induction false} FirstNibble()
    ensures Xor(0x0FFF_FFFF, 0xBDBD_F21C) == 0xB242_0DE3
  {
    hide Xor;
    XorWord(Word(0, 0xF, 0xF, 0xF, 0xF, 0xF, 0xF, 0xF), Word(0xB, 0xD, 0xB, 0xD, 0xF, 2, 1, 0xC),
            Word(0xB, 2, 4, 2, 0, 0xD, 0xE, 3));
  }

  lemma {:induction false} SecondNibble()
    ensures Xor(0x0B24_20DE, 0x26D9_30AC) == 0x2DFD_1072
  {
    hide Xor;
    XorWord(Word(0, 0xB, 2, 4, 2, 0, 0xD, 0xE), Word(2, 6, 0xD, 9, 3, 0, 0xA, 0xC), Word(2, 0xD, 0xF, 0xD, 1, 0, 7, 2));
  }

  lemma {:induction false} Complemented()
    ensures Xor(0x2DFD_1072, 0xFFFF_FFFF) == 0xD202_EF8D
  {
    hide Xor;
    XorWord(Word(2, 0xD, 0xF, 0xD, 1, 0, 7, 2), Word(0xF, 0xF, 0xF, 0xF, 0xF, 0xF, 0xF, 0xF),
            Word(0xD, 2, 0, 2, 0xE, 0xF, 8, 0xD));
  }

  /** The CRC-32 of one zero byte, and of nothing. */
  lemma {:induction false} ZeroByteCrc(zero: seq<byte>)
    requires zero == [0]
    ensures Crc(zero) == 0xD202_EF8D && Crc([]) == 0
  {
    hide Xor, CrcTable;
    UpdateStep(ONES, zero);
    XorZero(ONES);
    XorComm(ONES, 0);
    XorSelf(ONES);
    FirstNibble();
    SecondNibble();
    Complemented();
    assert zero[1..] == [];
  }

  lemma {:induction false} LfsLowNibble(crc: nat, b: nat, t: nat)
    requires t == TAB[Xor(crc, b) % 16]
    ensures NibbleStep(Xor(crc, b)) == Xor(Xor(crc / 16, t), b / 16)
  {
    XorShift4(crc, b);
    XorSwap(crc / 16, b / 16, t);
  }

  lemma {:induction false} LfsHighNibble(c: nat, b: nat)
    requires b < 0x100
    ensures NibbleStep(Xor(c, b / 16)) == Xor(c / 16, TAB[Xor(c, b / 16) % 16])
  {
    XorShift4(c, b / 16);
    XorZero(c / 16);
  }

  /** The two nibbles of `lfs_crc` take in half a byte each, to the same effect as a whole byte first. */
  lemma {:induction false} LfsByte(crc: nat, b: nat, c: nat)
    requires b < 0x100 && c == Xor(crc / 16, TAB[Xor(crc, b) % 16])
    ensures Xor(c / 16, TAB[Xor(c, b / 16) % 16]) == ByteStep(Xor(crc, b))
  {
    LfsLowNibble(crc, b, TAB[Xor(crc, b) % 16]);
    LfsHighNibble(c, b);
  }

  /** `lfs_crc`: the same CRC without the complements, so that it can be carried on. */
  method LfsCrc(crc0: nat, data: seq<byte>) returns (crc: nat)
    ensures crc == Update(crc0, data)
    ensures crc0 == ONES ==> Xor(crc, ONES) == Crc(data)
  {
    crc := crc0;
    var i := 0;
    while i < |data|
      invariant i <= |data|
      invariant Update(crc, data[i..]) == Update(crc0, data)
    {
      UpdateStep(crc, data[i..]);
      LfsByte(crc, data[i], Xor(crc / 16, TAB[Xor(crc, data[i]) % 16]));
      crc := Xor(crc / 16, TAB[Xor(crc, data[i]) % 16]);
      crc := Xor(crc / 16, TAB[Xor(crc, data[i] / 16) % 16]);
      i := i + 1;
    }
  }
}
