/** Exclusive or of natural numbers, bit by bit, and the laws that relate it to shifts and masks. */
module BitArithmetic {

  predicate Odd(a: nat) {
    a % 2 == 1
  }

  function Xor(a: nat, b: nat): nat
    decreases a + b
  {
    if a == 0 && b == 0 then 0
    else 2 * Xor(a / 2, b / 2) + (if Odd(a) == Odd(b) then 0 else 1)
  }

  lemma {:induction false} XorHalf(a: nat, b: nat)
    ensures Xor(a, b) / 2 == Xor(a / 2, b / 2)
    ensures Odd(Xor(a, b)) <==> Odd(a) != Odd(b)
  {
  }

  lemma {:induction false} XorComm(a: nat, b: nat)
    ensures Xor(a, b) == Xor(b, a)
    decreases a + b
  {
    if a != 0 || b != 0 {
      XorComm(a / 2, b / 2);
    }
  }

  lemma SameHalves(x: nat, y: nat)
    requires x / 2 == y / 2 && Odd(x) == Odd(y)
    ensures x == y
  {
  }

  lemma {:induction false} XorTwice(a: nat, b: nat, c: nat)
    ensures Xor(Xor(a, b), c) / 2 == Xor(Xor(a / 2, b / 2), c / 2)
    ensures Odd(Xor(Xor(a, b), c)) <==> (Odd(a) != Odd(b)) != Odd(c)
  {
    XorHalf(a, b);
    XorHalf(Xor(a, b), c);
  }

  lemma {:induction false} XorAssoc(a: nat, b: nat, c: nat)
    ensures Xor(Xor(a, b), c) == Xor(a, Xor(b, c))
    decreases a + b + c
  {
    XorComm(a, Xor(b, c));
    if a != 0 || b != 0 || c != 0 {
      XorAssoc(a / 2, b / 2, c / 2);
      XorComm(a / 2, Xor(b / 2, c / 2));
      XorTwice(a, b, c);
      XorTwice(b, c, a);
      SameHalves(Xor(Xor(a, b), c), Xor(Xor(b, c), a));
    }
  }

  lemma {:induction false} XorZero(a: nat)
    ensures Xor(a, 0) == a && Xor(0, a) == a
  {
    if a != 0 {
      XorZero(a / 2);
    }
  }

  lemma {:induction false} XorSelf(a: nat)
    ensures Xor(a, a) == 0
  {
    if a != 0 {
      XorSelf(a / 2);
    }
  }

  lemma {:induction false} XorCancel(a: nat, b: nat)
    ensures Xor(Xor(a, b), b) == a
  {
    XorAssoc(a, b, b);
    XorSelf(b);
    XorZero(a);
  }

  /** Exchange the two right operands. */
  lemma {:induction false} XorSwap(a: nat, b: nat, c: nat)
    ensures Xor(Xor(a, b), c) == Xor(Xor(a, c), b)
  {
    XorAssoc(a, b, c);
    XorAssoc(a, c, b);
    XorComm(b, c);
  }

  lemma {:induction false} XorEqual(a: nat, b: nat)
    requires Xor(a, b) == 0
    ensures a == b
  {
    XorCancel(a, b);
    XorZero(b);
  }

  /** Shifting down by a nibble passes through. */
  lemma {:induction false} XorShift4(a: nat, b: nat)
    ensures Xor(a, b) / 16 == Xor(a / 16, b / 16)
  {
    XorHalf(a, b);
    XorHalf(a / 2, b / 2);
    XorHalf(a / 4, b / 4);
    XorHalf(a / 8, b / 8);
    Shift4(a);
    Shift4(b);
    Shift4(Xor(a, b));
  }

  lemma Shift4(x: nat)
    ensures x / 2 / 2 == x / 4 && x / 4 / 2 == x / 8 && x / 8 / 2 == x / 16
  {
  }

  ghost predicate PowerOf2(p: nat)
  {
    p == 1 || (p > 1 && p % 2 == 0 && PowerOf2(p / 2))
  }

  lemma {:induction false} XorBelow(a: nat, b: nat, p: nat)
    requires PowerOf2(p) && a < p && b < p
    ensures Xor(a, b) < p
    decreases p
  {
    if p > 1 {
      XorBelow(a / 2, b / 2, p / 2);
    }
  }

  /** The top bit of one operand survives. */
  lemma {:induction false} XorTop(a: nat, b: nat, p: nat)
    requires PowerOf2(p) && a < p <= b < 2 * p
    ensures p <= Xor(a, b)
    decreases p
  {
    if p > 1 {
      XorTop(a / 2, b / 2, p / 2);
    }
  }

  /** Keeping the low bits passes through. */
  lemma {:induction false} XorMask(a: nat, b: nat, p: nat)
    requires PowerOf2(p)
    ensures Xor(a, b) % p == Xor(a % p, b % p)
    decreases p
  {
    if p == 1 {
      XorZero(0);
    } else {
      XorMask(a / 2, b / 2, p / 2);
      XorMaskStep(a, b, p, Xor(a, b), a % p, b % p);
    }
  }

  lemma {:induction false} XorMaskStep(a: nat, b: nat, p: nat, x: nat, c: nat, d: nat)
    requires p > 1 && p % 2 == 0 && x == Xor(a, b) && c == a % p && d == b % p
    requires Xor(a / 2, b / 2) % (p / 2) == Xor(a / 2 % (p / 2), b / 2 % (p / 2))
    ensures x % p == Xor(c, d)
  {
    ModHalf(a, p);
    ModHalf(b, p);
    ModHalf(x, p);
    XorHalf(a, b);
    XorHalf(c, d);
    SameHalves(x % p, Xor(c, d));
  }

  lemma ModHalf(x: nat, p: nat)
    requires p > 1 && p % 2 == 0
    ensures x % p / 2 == x / 2 % (p / 2) && Odd(x % p) == Odd(x)
  {
    ModDouble(x, p / 2);
  }

  lemma ModDouble(x: nat, q: nat)
    requires q > 0
    ensures x % (2 * q) == 2 * (x / 2 % q) + x % 2
  {
    var k, m := x / 2 / q, x / 2 % q;
    assert x == (2 * q) * k + (2 * m + x % 2);
    ModUnique(x, 2 * q, k, 2 * m + x % 2);
  }

  lemma {:induction false} MulGap(d: nat, k: nat, j: nat)
    requires k < j
    ensures d * k + d <= d * j
    decreases j - k
  {
    if k + 1 < j {
      MulGap(d, k + 1, j);
    }
    assert d * (k + 1) == d * k + d;
  }

  lemma ModUnique(x: nat, d: nat, k: nat, r: nat)
    requires x == d * k + r && r < d
    ensures x % d == r
  {
    var j := x / d;
    assert x == d * j + x % d;
    if j > k {
      MulGap(d, k, j);
    } else if j < k {
      MulGap(d, j, k);
    }
  }

  lemma Times2(p: nat)
    requires PowerOf2(p)
    ensures PowerOf2(2 * p)
  {
  }

  lemma Times16(p: nat)
    requires PowerOf2(p)
    ensures PowerOf2(16 * p)
  {
    hide PowerOf2;
    Times2(p);
    Times2(2 * p);
    Times2(4 * p);
    Times2(8 * p);
  }

  lemma Powers()
    ensures PowerOf2(1) && PowerOf2(0x10) && PowerOf2(0x100) && PowerOf2(0x1_0000) && PowerOf2(0x100_0000)
    ensures PowerOf2(0x8000_0000) && PowerOf2(0x1_0000_0000)
  {
    Times16(1);
    Times16(0x10);
    Times16(0x100);
    Times16(0x1000);
    Times16(0x1_0000);
    Times16(0x10_0000);
    Times16(0x100_0000);
    Times16(0x1000_0000);
  }

  lemma {:induction false} XorDouble(a: nat, b: nat)
    ensures Xor(2 * a, 2 * b) == 2 * Xor(a, b)
    ensures Xor(2 * a, 1) == 2 * a + 1
  {
    XorHalf(2 * a, 2 * b);
    XorHalf(2 * a, 1);
    XorZero(a);
    SameHalves(Xor(2 * a, 2 * b), 2 * Xor(a, b));
    SameHalves(Xor(2 * a, 1), 2 * a + 1);
  }

  /** A high part and a low nibble do not meet. */
  lemma {:induction false} XorDisjoint(h: nat, l: nat)
    requires l < 16
    ensures Xor(16 * h, l) == 16 * h + l
  {
    XorZero(h);
    XorZero(l);
    XorDigit(h, 0, 0, l);
  }

  // ----- Words by their hexadecimal digits -----

  predicate BitAgrees(a: nat, b: nat, c: nat) {
    Odd(c) <==> Odd(a) != Odd(b)
  }

  predicate NibbleAgrees(a: nat, b: nat, c: nat) {
    && a < 16 && b < 16 && c < 16
    && BitAgrees(a, b, c) && BitAgrees(a / 2, b / 2, c / 2)
    && BitAgrees(a / 4, b / 4, c / 4) && BitAgrees(a / 8, b / 8, c / 8)
  }

  lemma {:induction false} XorBit(a: nat, b: nat, c: nat)
    requires BitAgrees(a, b, c) && Xor(a / 2, b / 2) == c / 2
    ensures Xor(a, b) == c
  {
    XorHalf(a, b);
    SameHalves(Xor(a, b), c);
  }

  lemma {:induction false} XorNibble(a: nat, b: nat, c: nat)
    requires NibbleAgrees(a, b, c)
    ensures Xor(a, b) == c
  {
    XorZero(0);
    Shift4(a);
    Shift4(b);
    Shift4(c);
    XorBit(a / 8, b / 8, c / 8);
    XorBit(a / 4, b / 4, c / 4);
    XorBit(a / 2, b / 2, c / 2);
    XorBit(a, b, c);
  }

  lemma AppendDigit(x: nat, i: nat)
    requires i < 16
    ensures (16 * x + i) / 16 == x && (16 * x + i) % 16 == i
  {
  }

  lemma {:induction false} XorParts(a: nat, b: nat)
    ensures Xor(a, b) == 16 * Xor(a / 16, b / 16) + Xor(a % 16, b % 16)
  {
    XorShift4(a, b);
    Times16(1);
    XorMask(a, b, 16);
  }

  lemma {:induction false} XorDigit(x: nat, y: nat, i: nat, j: nat)
    requires i < 16 && j < 16
    ensures Xor(16 * x + i, 16 * y + j) == 16 * Xor(x, y) + Xor(i, j)
  {
    AppendDigit(x, i);
    AppendDigit(y, j);
    XorParts(16 * x + i, 16 * y + j);
  }

  /** One more digit at the end. */
  lemma {:induction false} XorAppend(h: nat, k: nat, l: nat, i: nat, j: nat, m: nat)
    requires Xor(h, k) == l && NibbleAgrees(i, j, m)
    ensures Xor(16 * h + i, 16 * k + j) == 16 * l + m
  {
    XorNibble(i, j, m);
    XorDigit(h, k, i, j);
  }

  /** A word by its eight hexadecimal digits. */
  datatype Word = Word(a: nat, b: nat, c: nat, d: nat, e: nat, f: nat, g: nat, h: nat) {
    function High(): nat {
      16 * (16 * (16 * a + b) + c) + d
    }

    function Value(): nat {
      16 * (16 * (16 * (16 * High() + e) + f) + g) + h
    }
  }

  predicate Agrees(x: Word, y: Word, z: Word) {
    && NibbleAgrees(x.a, y.a, z.a) && NibbleAgrees(x.b, y.b, z.b) && NibbleAgrees(x.c, y.c, z.c)
    && NibbleAgrees(x.d, y.d, z.d)
    && NibbleAgrees(x.e, y.e, z.e) && NibbleAgrees(x.f, y.f, z.f) && NibbleAgrees(x.g, y.g, z.g)
    && NibbleAgrees(x.h, y.h, z.h)
  }

  lemma {:induction false} XorHigh(x: Word, y: Word, z: Word)
    requires Agrees(x, y, z)
    ensures Xor(x.High(), y.High()) == z.High()
  {
    hide Xor, NibbleAgrees;
    XorNibble(x.a, y.a, z.a);
    XorAppend(x.a, y.a, z.a, x.b, y.b, z.b);
    XorAppend(16 * x.a + x.b, 16 * y.a + y.b, 16 * z.a + z.b, x.c, y.c, z.c);
    XorAppend(16 * (16 * x.a + x.b) + x.c, 16 * (16 * y.a + y.b) + y.c, 16 * (16 * z.a + z.b) + z.c, x.d, y.d, z.d);
  }

  /** An exclusive or of words, checked digit by digit. */
  lemma {:induction false} XorWord(x: Word, y: Word, z: Word)
    requires Agrees(x, y, z)
    ensures Xor(x.Value(), y.Value()) == z.Value()
  {
    hide Xor, NibbleAgrees, Word.High;
    var p, q, r := x.High(), y.High(), z.High();
    XorHigh(x, y, z);
    XorAppend(p, q, r, x.e, y.e, z.e);
    XorAppend(16 * p + x.e, 16 * q + y.e, 16 * r + z.e, x.f, y.f, z.f);
    XorAppend(16 * (16 * p + x.e) + x.f, 16 * (16 * q + y.e) + y.f, 16 * (16 * r + z.e) + z.f, x.g, y.g, z.g);
    XorAppend(16 * (16 * (16 * p + x.e) + x.f) + x.g, 16 * (16 * (16 * q + y.e) + y.f) + y.g,
              16 * (16 * (16 * r + z.e) + z.f) + z.g, x.h, y.h, z.h);
  }
}
