/**
 * A calculator holding one integer, `number`, that each operation replaces
 * by the result of applying it to the operand.
 */
module Calculator {
  import opened Wrappers

  const DivideByZeroMessage: string := "0으로 나눌 수 없습니다."

  /** The calculator raises one kind of exception only: IllegalArgumentException with a message */
  datatype CalculatorError = IllegalArgument(message: string)

  function Abs(x: int): nat {
    if x < 0 then -x else x
  }

  /**
   * Integer division as Kotlin's `/` performs it: rounded toward zero, so the
   * remainder a - b * q is smaller than b in magnitude and never has the
   * opposite sign of a.
   */
  function TruncatedQuotient(a: int, b: int): (q: int)
    requires b != 0
    ensures Abs(a - b * q) < Abs(b)
    ensures a >= 0 ==> a - b * q >= 0
    ensures a <= 0 ==> a - b * q <= 0
  {
    TruncatedRemainder(a, b);
    TowardZero(a, b)
  }

  /** The quotient of the magnitudes, negated when exactly one operand is negative */
  function TowardZero(a: int, b: int): int
    requires b != 0
  {
    if b > 0 then
      (if a >= 0 then a / b else -((-a) / b))
    else
      (if a >= 0 then -(a / (-b)) else (-a) / (-b))
  }

  /** The remainder left by TowardZero is the magnitudes' remainder, carrying the sign of a */
  lemma TruncatedRemainder(a: int, b: int)
    requires b != 0
    ensures a - b * TowardZero(a, b) == if a >= 0 then Abs(a) % Abs(b) else -(Abs(a) % Abs(b))
  {
    var n, d := Abs(a), Abs(b);
    var m: int, r: int := n / d, n % d;
    assert n == d * m + r;
    if b > 0 && a >= 0 {
      assert a - b * m == r;
    } else if b > 0 {
      assert a - b * (-m) == a + d * m;
    } else if a >= 0 {
      assert b * (-m) == d * m;
    } else {
      assert b * m == -(d * m);
    }
  }

  /** A nonzero multiple of b is at least as large as b */
  lemma MultipleBound(b: int, d: int)
    requires b != 0 && d != 0
    ensures Abs(b * d) >= Abs(b)
  {
    var x: int, y: int := Abs(b), Abs(d);
    assert x * y == x * (y - 1) + x;
    assert x * (y - 1) >= 0;
    if (b < 0) == (d < 0) {
      assert b * d == x * y;
    } else {
      assert b * d == -(x * y);
    }
  }

  /** Truncated division is the only quotient whose remainder is small and follows the sign of a */
  lemma TruncatedQuotientUnique(a: int, b: int, q: int)
    requires b != 0
    requires Abs(a - b * q) < Abs(b)
    requires a >= 0 ==> a - b * q >= 0
    requires a <= 0 ==> a - b * q <= 0
    ensures q == TruncatedQuotient(a, b)
  {
    var t := TruncatedQuotient(a, b);
    if q != t {
      assert (a - b * q) - (a - b * t) == b * (t - q);
      MultipleBound(b, t - q);
    }
  }

  /** On non-negative operands Kotlin's `/` agrees with Dafny's Euclidean division; not on negative ones */
  lemma TruncatedQuotientOnNonNegative(a: int, b: int)
    requires a >= 0 && b > 0
    ensures TruncatedQuotient(a, b) == a / b
    ensures TruncatedQuotient(-5, 2) == -2 != -5 / 2
  {
  }

  class Calculator {
    var number: int

    constructor (number: int)
      ensures this.number == number
    {
      this.number := number;
    }

    method Add(operand: int)
      modifies this
      ensures number == old(number) + operand
    {
      number := number + operand;
    }

    method Minus(operand: int)
      modifies this
      ensures number == old(number) - operand
    {
      number := number - operand;
    }

    method Multifly(operand: int)
      modifies this
      ensures number == old(number) * operand
    {
      number := number * operand;
    }

    /** Divides `number` by the operand; dividing by zero raises and leaves `number` as it was */
    method Divide(operand: int) returns (error: Option<CalculatorError>)
      modifies this
      ensures operand == 0 ==> error == Some(IllegalArgument(DivideByZeroMessage)) && number == old(number)
      ensures operand != 0 ==> error == None && number == TruncatedQuotient(old(number), operand)
    {
      if operand == 0 {
        return Some(IllegalArgument(DivideByZeroMessage));
      }
      number := TruncatedQuotient(number, operand);
      error := None;
    }
  }

  method AddScenario() returns (result: int)
    ensures result == 8
  {
    var calculator := new Calculator(5);
    calculator.Add(3);
    result := calculator.number;
  }

  method MinusScenario() returns (result: int)
    ensures result == 2
  {
    var calculator := new Calculator(5);
    calculator.Minus(3);
    result := calculator.number;
  }

  method MultiflyScenario() returns (result: int)
    ensures result == 15
  {
    var calculator := new Calculator(5);
    calculator.Multifly(3);
    result := calculator.number;
  }

  method DivideScenario() returns (result: int)
    ensures result == 2
  {
    var calculator := new Calculator(5);
    var error := calculator.Divide(2);
    result := calculator.number;
  }

  /** Dividing by zero raises IllegalArgumentException with its message, and no other exception */
  method DivideByZeroScenario() returns (error: Option<CalculatorError>)
    ensures error == Some(IllegalArgument("0으로 나눌 수 없습니다."))
  {
    var calculator := new Calculator(5);
    error := calculator.Divide(0);
  }
}
