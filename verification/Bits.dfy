/** Bitwise operations on natural numbers, and the sums that masks and marks compute. */
module Bits {

  function And(a: nat, b: nat): nat
  {
    if a == 0 || b == 0 then 0 else 2 * And(a / 2, b / 2) + (if a % 2 == 1 && b % 2 == 1 then 1 else 0)
  }

  function Or(a: nat, b: nat): nat
  {
    if a == 0 then b else if b == 0 then a
    else 2 * Or(a / 2, b / 2) + (if a % 2 == 1 || b % 2 == 1 then 1 else 0)
  }

  /** `x << n`. */
  function Left(x: nat, n: nat): nat
  {
    if n == 0 then x else 2 * Left(x, n - 1)
  }

  /** `x >> n`. */
  function Right(x: nat, n: nat): nat
  {
    if n == 0 then x else Right(x / 2, n - 1)
  }

  lemma AndHalves(a: nat, b: nat)
    ensures And(a, b) == 2 * And(a / 2, b / 2) + (if a % 2 == 1 && b % 2 == 1 then 1 else 0)
  {
  }

  lemma OrHalves(a: nat, b: nat)
    ensures Or(a, b) == 2 * Or(a / 2, b / 2) + (if a % 2 == 1 || b % 2 == 1 then 1 else 0)
  {
  }

  lemma LeftHalves(x: nat, n: nat, r: nat)
    requires 0 < n && r < Left(1, n)
    ensures (Left(x, n) + r) / 2 == Left(x, n - 1) + r / 2 && (Left(x, n) + r) % 2 == r % 2 && r / 2 < Left(1, n - 1)
  {
  }

  /** Bits above a place and bits below it do not meet. */
  lemma {:induction false} AndSplit(x: nat, r: nat, y: nat, t: nat, n: nat)
    requires r < Left(1, n) && t < Left(1, n)
    ensures And(Left(x, n) + r, Left(y, n) + t) == Left(And(x, y), n) + And(r, t)
    decreases n
  {
    if n > 0 {
      LeftHalves(x, n, r);
      LeftHalves(y, n, t);
      AndHalves(r, t);
      AndHalves(Left(x, n) + r, Left(y, n) + t);
      AndSplit(x, r / 2, y, t / 2, n - 1);
    }
  }

  lemma {:induction false} OrSplit(x: nat, r: nat, y: nat, t: nat, n: nat)
    requires r < Left(1, n) && t < Left(1, n)
    ensures Or(Left(x, n) + r, Left(y, n) + t) == Left(Or(x, y), n) + Or(r, t)
    decreases n
  {
    if n > 0 {
      LeftHalves(x, n, r);
      LeftHalves(y, n, t);
      OrHalves(r, t);
      OrHalves(Left(x, n) + r, Left(y, n) + t);
      OrSplit(x, r / 2, y, t / 2, n - 1);
    }
  }

  lemma {:induction false} AndAllOnes(r: nat, n: nat)
    requires r < Left(1, n)
    ensures And(r, Left(1, n) - 1) == r
    decreases n
  {
    if n > 0 {
      AndHalves(r, Left(1, n) - 1);
      AndAllOnes(r / 2, n - 1);
    }
  }

  /** The shifts of the converters. */
  lemma Shifts(x: nat)
    ensures Left(x, 4) == 16 * x && Left(x, 6) == 64 * x && Left(x, 10) == 1024 * x
  {
    assert Left(x, 1) == 2 * x;
    assert Left(x, 2) == 4 * x;
    assert Left(x, 3) == 8 * x;
    assert Left(x, 4) == 16 * x;
    assert Left(x, 5) == 32 * x;
    assert Left(x, 6) == 64 * x;
    assert Left(x, 7) == 128 * x;
    assert Left(x, 8) == 256 * x;
    assert Left(x, 9) == 512 * x;
  }

  lemma RightShifts(x: nat)
    ensures Right(x, 6) == x / 64 && Right(x, 10) == x / 1024
  {
    RightThree(x);
    RightThree(x / 8);
    RightThree(x / 64);
    RightTwice(x, 3, 3);
    RightTwice(x, 6, 3);
    RightTwice(x, 9, 1);
  }

  lemma RightThree(x: nat)
    ensures Right(x, 3) == x / 8
  {
    assert Right(x, 3) == Right(x / 2, 2);
    assert Right(x / 2, 2) == Right(x / 2 / 2, 1);
    assert Right(x / 2 / 2, 1) == x / 2 / 2 / 2;
  }

  lemma {:induction false} RightTwice(x: nat, m: nat, n: nat)
    ensures Right(x, m + n) == Right(Right(x, m), n)
    decreases m
  {
    if m > 0 {
      RightTwice(x / 2, m - 1, n);
    }
  }

  /** The mark and mask of a continuation byte. */
  lemma MarkedByte(x: nat)
    ensures And(Or(x, 0x80), 0xBF) == 0x80 + x % 64
  {
    var q, r := x / 64, x % 64;
    Shifts(1);
    Shifts(2);
    Shifts(q);
    Shifts(Or(q, 2));
    OrSplit(q, r, 2, 0, 6);
    AndSplit(Or(q, 2), r, 2, 63, 6);
    AndAllOnes(r, 6);
    SecondBit(q);
  }

  lemma SecondBit(q: nat)
    ensures And(Or(q, 2), 2) == 2
  {
    OrHalves(q, 2);
    OrHalves(q / 2, 1);
    AndHalves(Or(q, 2), 2);
    AndHalves(Or(q / 2, 1), 1);
  }

  /** The mark of a lead byte, above the bits of the character. */
  lemma LeadByte(x: nat, mark: nat, n: nat)
    requires x < Left(1, n)
    ensures Or(x, Left(mark, n)) == Left(mark, n) + x
  {
    LeftZero(n);
    OrSplit(0, x, mark, 0, n);
  }

  lemma {:induction false} LeftZero(n: nat)
    ensures Left(0, n) == 0
    decreases n
  {
    if n > 0 {
      LeftZero(n - 1);
    }
  }

  /** The marks of the lead bytes of two, three and four. */
  lemma LeadBytes(x: nat)
    ensures x < 0x20 ==> Or(x, 0xC0) == 0xC0 + x
    ensures x < 0x10 ==> Or(x, 0xE0) == 0xE0 + x
    ensures x < 0x08 ==> Or(x, 0xF0) == 0xF0 + x
  {
    if x < 0x20 {
      assert Left(1, 5) == 32 && Left(6, 5) == 0xC0;
      LeadByte(x, 6, 5);
    }
    if x < 0x10 {
      Shifts(1);
      Shifts(14);
      Shifts(15);
      LeadByte(x, 14, 4);
      LeadByte(x, 15, 4);
    }
  }

  /** The mask of the low half of a pair. */
  lemma LowHalfBits(x: nat)
    ensures And(x, 0x3FF) == x % 1024
  {
    var q, r := x / 1024, x % 1024;
    Shifts(1);
    Shifts(q);
    LeftZero(10);
    AndSplit(q, r, 0, 0x3FF, 10);
    AndAllOnes(r, 10);
  }
}
