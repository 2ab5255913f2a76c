/**
 * integer-division/src/main.rs: `divide(a, b)` on 32-bit signed integers
 * without the division operator. Both operands are made non-positive, so
 * `i32::MIN` needs no negation. Then the divisor is subtracted until the
 * dividend no longer reaches it. All locals are `I32`, so every intermediate
 * value is proved to stay within 32 bits.
 */
module Division {

  /** Rust's `i32`. */
  newtype I32 = x: int | -0x8000_0000 <= x < 0x8000_0000

  const IntMin: I32 := -0x8000_0000
  const IntMax: I32 := 0x7FFF_FFFF
  /** `INT_MAX >> 1`. */
  const HalfIntMax: I32 := 0x3FFF_FFFF

  function Abs(x: int): nat
  {
    if x < 0 then -x else x
  }

  /** Division truncating toward zero, as Rust's `/` on integers: the quotient of the magnitudes,
      negated when the signs differ. */
  function TruncDiv(a: int, b: int): int
    requires b != 0
  {
    if (a < 0) == (b < 0) then Abs(a) / Abs(b) else -(Abs(a) / Abs(b))
  }

  /** `TruncDiv` is truncating division: the remainder `a - q * b` is smaller than `b` in magnitude
      and never has the opposite sign of `a`. */
  lemma TruncDivIsTruncating(a: int, b: int)
    requires b != 0
    ensures var r := a - TruncDiv(a, b) * b;
      && Abs(r) < Abs(b)
      && (r == 0 || (r < 0 <==> a < 0))
  {
    var q0 := Abs(a) / Abs(b);
    var m := Abs(a) % Abs(b);
    assert Abs(a) == q0 * Abs(b) + m && 0 <= m < Abs(b);
    var p := TruncDiv(a, b) * b;
    if (a < 0) == (b < 0) {
      if b < 0 {
        MulNeg(q0, Abs(b));
        assert p == -(q0 * Abs(b));
      }
    } else {
      MulNeg(q0, Abs(b));
      if b < 0 {
        assert p == q0 * Abs(b);
      } else {
        assert p == -(q0 * Abs(b));
      }
    }
    assert a - p == (if a < 0 then -m else m);
  }

  lemma MulNeg(x: int, y: int)
    ensures -x * -y == x * y && -x * y == -(x * y) && x * -y == -(x * y)
  {
  }

  /** The quotient is positive only when both operands are non-zero with the same sign. */
  lemma TruncDivSign(a: int, b: int)
    requires b != 0
    ensures TruncDiv(a, b) > 0 ==> (a > 0 && b > 0) || (a < 0 && b < 0)
    ensures TruncDiv(a, b) > 0 <==> Abs(a) >= Abs(b) && ((a > 0 && b > 0) || (a < 0 && b < 0))
  {
    var q := Abs(a) / Abs(b);
    if Abs(a) < Abs(b) {
      DivBelow(Abs(a), Abs(b));
    } else {
      DivAtLeastOne(Abs(a), Abs(b));
    }
    assert q > 0 <==> Abs(a) >= Abs(b);
    assert TruncDiv(a, b) == if (a < 0) == (b < 0) then q else -q;
  }

  lemma DivAtLeastOne(x: nat, y: nat)
    requires 0 < y <= x
    ensures x / y >= 1
  {
  }

  lemma DivBelow(x: nat, y: nat)
    requires x < y
    ensures x / y == 0
  {
  }

  /** The quotient of `q * y <= x < (q + 1) * y` is `x / y`. */
  lemma QuotientUnique(x: nat, y: nat, q: nat)
    requires y > 0 && q * y <= x < (q + 1) * y
    ensures q == x / y
  {
    var d := x / y;
    assert d * y <= x < (d + 1) * y;
    MulLtCancel(q, d + 1, y);
    MulLtCancel(d, q + 1, y);
  }

  lemma MulLtCancel(a: int, b: int, c: nat)
    requires c > 0 && a * c < b * c
    ensures a < b
  {
  }

  /** Another divisor still fits in the dividend, so the count stays below `i32::MAX`. */
  lemma CountFits(ans: nat, x: nat, y: nat)
    requires 0 < y && (ans + 1) * y <= x <= 0x8000_0000
    requires y == 1 ==> x < 0x8000_0000
    ensures ans + 1 <= 0x7FFF_FFFF
  {
    if y >= 2 {
      assert (ans + 1) * 2 <= (ans + 1) * y;
    }
  }

  /** `divide(a, b)`: `b == 1` and the overflowing `i32::MIN / -1` are special-cased; otherwise the result
      is the truncated quotient. With `b == 0` the source loops forever, hence the precondition. */
  method Divide(a: I32, b: I32) returns (r: I32)
    requires b != 0
    ensures b == 1 ==> r == a
    ensures a == IntMin && b == -1 ==> r == IntMax
    ensures b != 1 && !(a == IntMin && b == -1) ==> r as int == TruncDiv(a as int, b as int)
  {
    if b == 1 {
      return a;
    }
    if a == IntMin && b == -1 {
      return IntMax;
    }
    var sign := (a > 0 && b > 0) || (a < 0 && b < 0);
    var na: I32 := if a > 0 then -a else a;
    var nb: I32 := if b > 0 then -b else b;
    ghost var magA := Abs(a as int);
    ghost var magB := Abs(b as int);
    var ans: I32 := 0;
    while na <= nb
      invariant nb as int == -(magB as int) && magB > 0
      invariant ans >= 0 && na <= 0
      invariant na as int == ans as int * magB - magA
      decreases -(na as int)
    {
      var x: I32 := nb;
      var cnt: I32 := 1;
      // The doubling loop `while x >= (INT_MAX >> 1) && ...` never runs: `x` is negative.
      assert !(x >= HalfIntMax);
      assert (ans as int + 1) * magB == ans as int * magB + magB;
      CountFits(ans as int, magA, magB);
      ans := ans + cnt;
      na := na - x;
    }
    assert ans as int * magB <= magA < (ans as int + 1) * magB;
    QuotientUnique(magA, magB, ans as int);
    if sign {
      r := ans;
    } else {
      r := -ans;
    }
  }

  /** `divide(10, 3) == 3`, the example of `main`. */
  method TenByThree() returns (r: I32)
    ensures r == 3
  {
    r := Divide(10, 3);
  }
}
