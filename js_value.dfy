/**
 * The JavaScript values that a parsed CSV row can hold in a cell, and the few
 * language operations the data-cleaning functions apply to them: truthiness,
 * the `||` operator, and `parseFloat(x.toFixed(2))`.
 */
module JsValue {

  /** A cell: absent (`undefined`), `null`, a string, or a finite number. */
  datatype Value = Undefined | Null | Str(s: string) | Num(n: real)

  /** JavaScript's ToBoolean on these values. */
  predicate Truthy(v: Value) {
    match v
    case Undefined => false
    case Null => false
    case Str(s) => s != ""
    case Num(n) => n != 0.0
  }

  /** `v === null || v === undefined`. */
  predicate IsNullish(v: Value) {
    v.Undefined? || v.Null?
  }

  /**
   * JavaScript's `a || b`: a when a is truthy, otherwise b. The source's chains
   * `a || b || c` associate to the left: `Or(Or(a, b), c)`.
   */
  function Or(a: Value, b: Value): (r: Value)
    ensures Truthy(r) <==> Truthy(a) || Truthy(b)
    ensures !Truthy(a) ==> r == b
    ensures Truthy(a) ==> r == a
  {
    if Truthy(a) then a else b
  }

  /** JavaScript's `a ?? b`: a unless it is null or undefined. */
  function Coalesce(a: Value, b: Value): (r: Value)
    ensures IsNullish(r) <==> IsNullish(a) && IsNullish(b)
    ensures !IsNullish(a) ==> r == a
    ensures IsNullish(a) ==> r == b
  {
    if IsNullish(a) then b else a
  }

  /** An exact number rounded half away from zero to hundredths. */
  function RoundHalfAwayToHundredths(x: real): real {
    if x < 0.0 then -((-x * 100.0 + 0.5).Floor as real) / 100.0
    else (x * 100.0 + 0.5).Floor as real / 100.0
  }

  /**
   * `parseFloat(x.toFixed(2))` on an exact number: `toFixed` picks the
   * hundredth nearest to |x| (the larger one on a tie) and keeps the sign;
   * from 10^21 on it prints the number itself, which parses back unchanged.
   */
  function ToFixed2(x: real): (r: real)
    ensures -1e21 < x < 1e21 ==> -0.005 <= r - x <= 0.005
    ensures x >= 0.0 ==> r >= 0.0
    ensures x <= 0.0 ==> r <= 0.0
  {
    if x <= -1e21 || 1e21 <= x then x else RoundHalfAwayToHundredths(x)
  }

  /** Rounding to hundredths never reverses the order of two numbers. */
  lemma ToFixed2Monotonic(x: real, y: real)
    requires x <= y
    ensures ToFixed2(x) <= ToFixed2(y)
  {
    if x < 0.0 && y < 0.0 && -1e21 < x {
      assert (-y * 100.0 + 0.5).Floor <= (-x * 100.0 + 0.5).Floor;
    } else if 0.0 <= x && y < 1e21 {
      assert (x * 100.0 + 0.5).Floor <= (y * 100.0 + 0.5).Floor;
    } else if 0.0 <= x && x < 1e21 <= y {
      assert (x * 100.0 + 0.5).Floor <= 100000000000000000000000;
    } else if x <= -1e21 && y < 0.0 && -1e21 < y {
      assert (-y * 100.0 + 0.5).Floor <= 100000000000000000000000;
    }
  }

  /** A number already written with at most two decimals is left unchanged. */
  lemma ToFixed2OfHundredths(n: int)
    ensures ToFixed2(n as real / 100.0) == n as real / 100.0
  {
    var x := n as real / 100.0;
    if n < 0 {
      var m := -n;
      assert -x == m as real / 100.0;
      assert -x * 100.0 + 0.5 == m as real + 0.5;
      assert (m as real + 0.5).Floor == m;
    } else {
      assert x * 100.0 + 0.5 == n as real + 0.5;
      assert (n as real + 0.5).Floor == n;
    }
  }

  /** Rounding is idempotent. */
  lemma ToFixed2Idempotent(x: real)
    ensures ToFixed2(ToFixed2(x)) == ToFixed2(x)
  {
    if -1e21 < x < 1e21 {
      if x < 0.0 {
        ToFixed2OfHundredths(-(-x * 100.0 + 0.5).Floor);
      } else {
        ToFixed2OfHundredths((x * 100.0 + 0.5).Floor);
      }
    }
  }

}
