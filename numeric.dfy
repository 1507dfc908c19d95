/**
 * The integer numeric kinds of the matrix kit and the per-cell dispatch:
 * Kotlin `Int` (32-bit two's complement) and `Long` (64-bit two's complement),
 * with wrapping `+`, `-`, `*` and truncating `/`.
 */
module Numeric {
  import opened Wrappers
  import opened Errors

  /** Half of the number of 32-bit values: the Int range is [-INT_HALF, INT_HALF). */
  const INT_HALF: int := 0x8000_0000
  /** Half of the number of 64-bit values: the Long range is [-LONG_HALF, LONG_HALF). */
  const LONG_HALF: int := 0x8000_0000_0000_0000

  newtype Int32 = x: int | -0x8000_0000 <= x < 0x8000_0000
  newtype Int64 = x: int | -0x8000_0000_0000_0000 <= x < 0x8000_0000_0000_0000

  /** A number together with its runtime kind. */
  datatype Value = IntVal(i: Int32) | LongVal(l: Int64)
  {
    function AsInt(): int {
      match this
      case IntVal(i) => i as int
      case LongVal(l) => l as int
    }

    /** Half the modulus of this value's kind. */
    function Half(): int {
      if IntVal? then INT_HALF else LONG_HALF
    }

    predicate SameKind(other: Value) {
      IntVal? == other.IntVal?
    }
  }

  /** A matrix cell: empty (`null` in the source) or holding a number. */
  type Cell = Option<Value>

  datatype Operation = Plus | Minus | Multiply | Divide

  function Abs(x: int): nat {
    if x < 0 then -x else x
  }

  /** `d` is a multiple of `m`. */
  predicate Divides(m: int, d: int)
    requires m > 0
  {
    d % m == 0
  }

  /** A product `c * m` strictly between `-m` and `m` has `c == 0`. */
  lemma SmallMultipleIsZero(c: int, m: int)
    requires m > 0 && -m < c * m < m
    ensures c == 0
  {
    if c > 0 {
      MulAtLeast(c, m);
    } else if c < 0 {
      MulAtLeast(-c, m);
    }
  }

  lemma MulAtLeast(c: int, m: int)
    requires c >= 1 && m > 0
    ensures c * m >= m
  {
    assert c * m == (c - 1) * m + m;
    MulNonneg(c - 1, m);
  }

  lemma MulNonneg(c: int, m: int)
    requires c >= 0 && m >= 0
    ensures c * m >= 0
  {
  }

  lemma MultipleIsDivisible(k: int, m: int)
    requires m > 0
    ensures Divides(m, k * m)
  {
    var q, r := (k * m) / m, (k * m) % m;
    assert k * m == q * m + r;
    assert r == (k - q) * m;
    SmallMultipleIsZero(k - q, m);
  }

  lemma DivisibleIsMultiple(d: int, m: int)
    requires m > 0 && Divides(m, d)
    ensures d == (d / m) * m
  {
  }

  lemma ModOfSmall(a: int, m: int)
    requires 0 <= a < m
    ensures a % m == a
  {
    var q, r := a / m, a % m;
    assert a == q * m + r;
    assert (q * m) == a - r;
    SmallMultipleIsZero(q, m);
  }

  /** Adding `half` and reducing modulo `2 * half` moves `x` by a multiple of the modulus. */
  lemma ShiftedModCongruent(x: int, half: int)
    requires half > 0
    ensures Divides(2 * half, ((x + half) % (2 * half) - half) - x)
  {
    var m := 2 * half;
    var k, rem := (x + half) / m, (x + half) % m;
    assert x + half == k * m + rem;
    assert (rem - half) - x == (-k) * m;
    MultipleIsDivisible(-k, m);
  }

  /**
   * Two's complement wrap-around: the representative of `x` modulo `2 * half`
   * in the signed range [-half, half).
   */
  function Wrap(x: int, half: int): (r: int)
    requires half > 0
    ensures -half <= r < half
    ensures Divides(2 * half, r - x)
    ensures -half <= x < half ==> r == x
  {
    ShiftedModCongruent(x, half);
    if -half <= x < half then ModOfSmall(x + half, 2 * half); (x + half) % (2 * half) - half
    else (x + half) % (2 * half) - half
  }

  /** The wrapped value is the only one in the signed range congruent to `x`. */
  lemma WrapUnique(x: int, y: int, half: int)
    requires half > 0
    requires -half <= y < half && Divides(2 * half, y - x)
    ensures y == Wrap(x, half)
  {
    var m, r := 2 * half, Wrap(x, half);
    DivisibleIsMultiple(y - x, m);
    DivisibleIsMultiple(r - x, m);
    var p, q := (y - x) / m, (r - x) / m;
    assert y - r == p * m - q * m == (p - q) * m;
    SmallMultipleIsZero(p - q, m);
  }

  /** Integer division rounding toward zero, as the JVM's `idiv` and `ldiv` do. */
  function TruncDiv(a: int, b: int): int
    requires b != 0
  {
    if (a >= 0) == (b > 0) then Abs(a) / Abs(b) else -(Abs(a) / Abs(b))
  }

  /**
   * Truncating division leaves a remainder smaller than the divisor that is
   * zero or has the sign of the dividend, and never rounds away from zero.
   */
  lemma TruncDivIsTruncating(a: int, b: int)
    requires b != 0
    ensures Abs(a - TruncDiv(a, b) * b) < Abs(b)
    ensures a - TruncDiv(a, b) * b == 0 || (a - TruncDiv(a, b) * b > 0 <==> a > 0)
    ensures Abs(TruncDiv(a, b) * b) <= Abs(a)
  {
    var tb := TruncDiv(a, b) * b;
    QuotientTimesDivisor(a, b);
    FlooredMagnitudes(Abs(a), Abs(b));
    RemainderOfMagnitudes(a, Abs(b), tb, (Abs(a) / Abs(b)) * Abs(b), Abs(a) % Abs(b));
  }

  lemma FlooredMagnitudes(x: nat, y: nat)
    requires y > 0
    ensures x == (x / y) * y + x % y && 0 <= x % y < y && (x / y) * y >= 0
  {
    MulNonneg(x / y, y);
  }

  /** The linear core of TruncDivIsTruncating: `|a| = p + m` with `0 <= m < B` and `tb = ±p` by the sign of `a`. */
  lemma RemainderOfMagnitudes(a: int, bigB: int, tb: int, p: int, m: int)
    requires 0 <= m < bigB && p >= 0 && Abs(a) == p + m
    requires a >= 0 ==> tb == p
    requires a < 0 ==> tb == -p
    ensures Abs(a - tb) < bigB
    ensures a - tb == 0 || (a - tb > 0 <==> a > 0)
    ensures Abs(tb) <= Abs(a)
  {
  }

  /** The truncated quotient times the divisor has the dividend's sign and the magnitude of the floored magnitudes. */
  lemma QuotientTimesDivisor(a: int, b: int)
    requires b != 0
    ensures a >= 0 ==> TruncDiv(a, b) * b == (Abs(a) / Abs(b)) * Abs(b)
    ensures a < 0 ==> TruncDiv(a, b) * b == -((Abs(a) / Abs(b)) * Abs(b))
  {
    var q := Abs(a) / Abs(b);
    if b > 0 {
      assert Abs(b) == b;
    } else {
      assert Abs(b) == -b;
      assert (-q) * b == q * Abs(b);
    }
  }

  /** The mathematical (unbounded) result of an operation; DIVIDE truncates. */
  function Exact(op: Operation, a: int, b: int): int
    requires op == Divide ==> b != 0
  {
    match op
    case Plus => a + b
    case Minus => a - b
    case Multiply => a * b
    case Divide => TruncDiv(a, b)
  }

  /**
   * calculateByOperation: dispatch on the runtime kind of `first`, cast
   * `second` to that kind and apply the kind's native operator.
   */
  function CalculateByOperation(first: Cell, second: Cell, op: Operation): (r: Result<Value, Error>)
    ensures r.Success? <==>
      first.Some? && second.Some? && first.value.SameKind(second.value)
      && !(op == Divide && second.value.AsInt() == 0)
    ensures first.None? ==> r == Failure(NotANumberType)
    ensures first.Some? && (second.None? || !first.value.SameKind(second.value)) ==> r == Failure(CastFailure)
    ensures (first.Some? && second.Some? && first.value.SameKind(second.value)
             && op == Divide && second.value.AsInt() == 0) ==> r == Failure(DivisionByZero)
    ensures r.Success? ==> r.value.SameKind(first.value)
    ensures r.Failure? ==> IsCellError(r.error)
  {
    match first
    case None => Failure(NotANumberType)
    case Some(IntVal(a)) =>
      if second.Some? && second.value.IntVal? then
        var b := second.value.i;
        if op == Divide && b == 0 then Failure(DivisionByZero)
        else Success(IntVal(Wrap(Exact(op, a as int, b as int), INT_HALF) as Int32))
      else Failure(CastFailure)
    case Some(LongVal(a)) =>
      if second.Some? && second.value.LongVal? then
        var b := second.value.l;
        if op == Divide && b == 0 then Failure(DivisionByZero)
        else Success(LongVal(Wrap(Exact(op, a as int, b as int), LONG_HALF) as Int64))
      else Failure(CastFailure)
  }

  /**
   * A successful dispatch computes the exact result reduced modulo 2^32 (Int)
   * or 2^64 (Long) into the signed range: it equals the exact result when
   * that fits, and it is congruent to it always.
   */
  lemma CalculateArithmetic(first: Value, second: Value, op: Operation)
    requires CalculateByOperation(Some(first), Some(second), op).Success?
    ensures second.SameKind(first) && (op == Divide ==> second.AsInt() != 0)
    ensures Divides(2 * first.Half(),
      CalculateByOperation(Some(first), Some(second), op).value.AsInt() - Exact(op, first.AsInt(), second.AsInt()))
    ensures -first.Half() <= Exact(op, first.AsInt(), second.AsInt()) < first.Half() ==>
      CalculateByOperation(Some(first), Some(second), op).value.AsInt() == Exact(op, first.AsInt(), second.AsInt())
  {
  }

  /** The result of a successful dispatch is the one value of the operand's kind congruent to the exact result. */
  lemma CalculateIsWrappedExact(first: Value, second: Value, op: Operation, y: Value)
    requires CalculateByOperation(Some(first), Some(second), op).Success?
    requires y.SameKind(first)
    requires Divides(2 * first.Half(), y.AsInt() - Exact(op, first.AsInt(), second.AsInt()))
    ensures CalculateByOperation(Some(first), Some(second), op) == Success(y)
  {
    var e := Exact(op, first.AsInt(), second.AsInt());
    var r := CalculateByOperation(Some(first), Some(second), op).value;
    CalculateArithmetic(first, second, op);
    WrapUnique(e, y.AsInt(), first.Half());
    WrapUnique(e, r.AsInt(), first.Half());
  }

  /** PLUS and MULTIPLY are commutative cell by cell, including which pairs they reject. */
  lemma CalculateCommutes(a: Cell, b: Cell, op: Operation)
    requires op == Plus || op == Multiply
    ensures CalculateByOperation(a, b, op).Success? <==> CalculateByOperation(b, a, op).Success?
    ensures CalculateByOperation(a, b, op).Success? ==> CalculateByOperation(b, a, op) == CalculateByOperation(a, b, op)
  {
  }

  /**
   * Concrete wrap-around cases: Int.MAX_VALUE + 1 is Int.MIN_VALUE,
   * Int.MIN_VALUE / -1 is Int.MIN_VALUE, -7 / 2 truncates to -3,
   * Long.MAX_VALUE + 1 is Long.MIN_VALUE and Long.MIN_VALUE * -1 is
   * Long.MIN_VALUE.
   */
  lemma WrapAroundExamples()
    ensures CalculateByOperation(Some(IntVal(0x7fff_ffff)), Some(IntVal(1)), Plus) == Success(IntVal(-0x8000_0000))
    ensures CalculateByOperation(Some(IntVal(-0x8000_0000)), Some(IntVal(-1)), Divide) == Success(IntVal(-0x8000_0000))
    ensures CalculateByOperation(Some(IntVal(-7)), Some(IntVal(2)), Divide) == Success(IntVal(-3))
    ensures CalculateByOperation(Some(LongVal(0x7fff_ffff_ffff_ffff)), Some(LongVal(1)), Plus)
      == Success(LongVal(-0x8000_0000_0000_0000))
    ensures CalculateByOperation(Some(LongVal(-0x8000_0000_0000_0000)), Some(LongVal(-1)), Multiply)
      == Success(LongVal(-0x8000_0000_0000_0000))
  {
    CalculateIsWrappedExact(IntVal(0x7fff_ffff), IntVal(1), Plus, IntVal(-0x8000_0000));
    CalculateIsWrappedExact(IntVal(-0x8000_0000), IntVal(-1), Divide, IntVal(-0x8000_0000));
    CalculateIsWrappedExact(LongVal(0x7fff_ffff_ffff_ffff), LongVal(1), Plus, LongVal(-0x8000_0000_0000_0000));
    CalculateIsWrappedExact(LongVal(-0x8000_0000_0000_0000), LongVal(-1), Multiply, LongVal(-0x8000_0000_0000_0000));
  }
}
