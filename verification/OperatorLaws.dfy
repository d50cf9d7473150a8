/** What the arithmetic operators mean, in terms of each other and of the integers. */
module OperatorLaws {
  import opened Numerals
  import opened Arithmetic

  lemma {:induction false} PowPositive(n: nat)
    ensures Pow(2, n) >= 1
  {
    if n > 0 {
      PowPositive(n - 1);
    }
  }

  lemma {:induction false} PowSum(m: nat, n: nat)
    ensures Pow(2, m + n) == Pow(2, m) * Pow(2, n)
  {
    if m > 0 {
      PowSum(m - 1, n);
      MulAssociates(2, Pow(2, m - 1), Pow(2, n));
    }
  }

  lemma TwoTo64()
    ensures Pow(2, 64) == MODULUS
  {
    assert Pow(2, 4) == 16;
    PowSum(4, 4);
    PowSum(8, 8);
    PowSum(16, 16);
    PowSum(32, 32);
  }

  /** A left shift multiplies by a power of two, of which the operators' own wrapping power is
      enough; only the low six bits of the count matter. */
  lemma ShiftLeftMultiplies(x: i64, count: i64)
    ensures BinaryValue(Power, 2, count % 64).Number?
    ensures BinaryValue(ShiftLeft, x, count) == BinaryValue(Multiply, x, BinaryValue(Power, 2, count % 64).value)
  {
    hide Pow, Wrap64, FloorShift, Bitwise;
    var power := Pow(2, count % 64);
    WrapMul(power, x);
    Commutes(Wrap64(power), x);
    Commutes(power, x);
  }

  lemma Commutes(x: int, y: int)
    ensures x * y == y * x
  {
  }

  lemma {:induction false} FloorShiftIsFloor(x: int, n: nat)
    ensures FloorShift(x, n) * Pow(2, n) <= x < (FloorShift(x, n) + 1) * Pow(2, n)
  {
    if n > 0 {
      FloorShiftIsFloor(x, n - 1);
      var q, p := FloorShift(x, n - 1), Pow(2, n - 1);
      PowPositive(n - 1);
      HalfFloor(x, q, p);
    }
  }

  lemma HalfFloor(x: int, q: int, p: nat)
    requires q * p <= x < (q + 1) * p
    ensures (q / 2) * (2 * p) <= x < (q / 2 + 1) * (2 * p)
  {
    var h, b := q / 2, q % 2;
    assert q == 2 * h + b;
    assert q * p == h * (2 * p) + b * p;
    assert (q + 1) * p == q * p + p;
    assert (h + 1) * (2 * p) == h * (2 * p) + 2 * p;
    assert b == 0 || b == 1;
  }

  lemma {:induction false} FloorShiftShrinks(x: int, n: nat)
    ensures x >= 0 ==> 0 <= FloorShift(x, n) <= x
    ensures x < 0 ==> x <= FloorShift(x, n) < 0
  {
    if n > 0 {
      FloorShiftShrinks(x, n - 1);
    }
  }

  /** A right shift is division by a power of two, rounded down. */
  lemma ShiftRightFloors(x: i64, count: i64, q: i64)
    requires BinaryValue(ShiftRight, x, count) == Number(q)
    ensures q * Pow(2, count % 64) <= x < (q + 1) * Pow(2, count % 64)
  {
    hide Pow, FloorShift, Bitwise;
    FloorShiftShrinks(x, count % 64);
    FloorShiftIsFloor(x, count % 64);
  }

  // ----- Bits -----

  predicate BitAt(x: nat, i: nat)
    decreases i
  {
    if i == 0 then x % 2 == 1 else BitAt(x / 2, i - 1)
  }

  lemma {:induction false} BitsAt(op: BinaryOperator, x: nat, y: nat, n: nat, i: nat)
    requires i < n
    ensures BitAt(Bits(op, x, y, n), i) == CombineBits(op, BitAt(x, i), BitAt(y, i))
    decreases n
  {
    var b := if CombineBits(op, x % 2 == 1, y % 2 == 1) then 1 else 0;
    var rest := Bits(op, x / 2, y / 2, n - 1);
    assert (b + 2 * rest) % 2 == b && (b + 2 * rest) / 2 == rest;
    if i > 0 {
      BitsAt(op, x / 2, y / 2, n - 1, i - 1);
    }
  }

  lemma {:induction false} BitsBounded(op: BinaryOperator, x: nat, y: nat, n: nat)
    ensures Bits(op, x, y, n) < Pow(2, n)
  {
    if n > 0 {
      BitsBounded(op, x / 2, y / 2, n - 1);
    }
  }

  lemma BitsUnfold(op: BinaryOperator, x: nat, y: nat, n: nat)
    requires n > 0
    ensures var b, rest := if CombineBits(op, x % 2 == 1, y % 2 == 1) then 1 else 0, Bits(op, x / 2, y / 2, n - 1);
            && Bits(op, x, y, n) == b + 2 * rest
            && Bits(op, x, y, n) % 2 == b && Bits(op, x, y, n) / 2 == rest
  {
  }

  lemma {:induction false} XorTwice(x: nat, y: nat, n: nat)
    requires x < Pow(2, n)
    ensures Bits(BitwiseXor, Bits(BitwiseXor, x, y, n), y, n) == x
  {
    if n > 0 {
      hide Bits;
      XorTwice(x / 2, y / 2, n - 1);
      BitsUnfold(BitwiseXor, x, y, n);
      BitsUnfold(BitwiseXor, Bits(BitwiseXor, x, y, n), y, n);
    }
  }

  lemma {:induction false} DeMorganBits(x: nat, y: nat, n: nat)
    requires x < Pow(2, n) && y < Pow(2, n)
    ensures Pow(2, n) - 1 - Bits(BitwiseAnd, x, y, n) == Bits(BitwiseOr, Pow(2, n) - 1 - x, Pow(2, n) - 1 - y, n)
  {
    if n > 0 {
      DeMorganBits(x / 2, y / 2, n - 1);
      Complement(Pow(2, n - 1), x);
      Complement(Pow(2, n - 1), y);
    }
  }

  lemma Complement(half: nat, x: nat)
    requires x < 2 * half
    ensures (2 * half - 1 - x) % 2 == 1 - x % 2
    ensures (2 * half - 1 - x) / 2 == half - 1 - x / 2
  {
  }

  /** The two's complement form of a result of a bitwise operator is bit by bit what the operator
      makes of the operands' forms. */
  lemma BitwiseBits(op: BinaryOperator, x: i64, y: i64, i: nat)
    requires i < 64
    ensures Bitwise(op, x, y) % MODULUS == Bits(op, x % MODULUS, y % MODULUS, 64)
    ensures BitAt(Bitwise(op, x, y) % MODULUS, i) == CombineBits(op, BitAt(x % MODULUS, i), BitAt(y % MODULUS, i))
  {
    var bits := Bits(op, x % MODULUS, y % MODULUS, 64);
    BitsBounded(op, x % MODULUS, y % MODULUS, 64);
    TwoTo64();
    UnsignedForm(bits);
    BitsAt(op, x % MODULUS, y % MODULUS, 64, i);
  }

  lemma UnsignedForm(n: nat)
    requires n < MODULUS
    ensures Wrap64(n) % MODULUS == n
  {
  }

  lemma SignedForm(x: i64)
    ensures Wrap64(x % MODULUS) == x
  {
  }

  /** Exclusive or with the same operand twice gives back the first. */
  lemma XorCancels(x: i64, y: i64)
    ensures Bitwise(BitwiseXor, Bitwise(BitwiseXor, x, y), y) == x
  {
    hide Bits, Wrap64;
    TwoTo64();
    BitwiseBits(BitwiseXor, x, y, 0);
    XorTwice(x % MODULUS, y % MODULUS, 64);
    SignedForm(x);
  }

  /** The complement of a conjunction is the disjunction of the complements. */
  lemma DeMorgan(x: i64, y: i64)
    ensures UnaryValue(BitwiseNot, Bitwise(BitwiseAnd, x, y))
            == Bitwise(BitwiseOr, UnaryValue(BitwiseNot, x), UnaryValue(BitwiseNot, y))
  {
    hide Bits;
    var conjunction := Bitwise(BitwiseAnd, x, y);
    var disjunction := Bitwise(BitwiseOr, UnaryValue(BitwiseNot, x), UnaryValue(BitwiseNot, y));
    TwoTo64();
    BitwiseBits(BitwiseAnd, x, y, 0);
    BitwiseBits(BitwiseOr, UnaryValue(BitwiseNot, x), UnaryValue(BitwiseNot, y), 0);
    DeMorganBits(x % MODULUS, y % MODULUS, 64);
    NotForm(x);
    NotForm(y);
    NotForm(conjunction);
    SignedForm(disjunction);
    SignedForm(UnaryValue(BitwiseNot, conjunction));
  }

  lemma NotForm(x: i64)
    ensures UnaryValue(BitwiseNot, x) % MODULUS == MODULUS - 1 - x % MODULUS
  {
  }
}
