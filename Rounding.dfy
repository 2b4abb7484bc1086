/**
 * The two rounding rules the percentages go through, over exact rationals:
 * Python's `round` (nearest, ties to even) on the backend and JavaScript's
 * `Math.round` (nearest, ties toward +infinity) on the frontend; and the
 * JavaScript numbers the frontend's quotients produce, whose division by zero
 * gives an infinity or NaN instead of failing.
 */
module Rounding {

  /** The integer nearest to x; a tie goes to the even neighbour. */
  function RoundHalfEven(x: real): (r: int)
    ensures x - 0.5 <= r as real <= x + 0.5
    ensures r as real - x == 0.5 || x - r as real == 0.5 ==> r % 2 == 0
  {
    var f := x.Floor;
    var frac := x - f as real;
    if frac < 0.5 then f
    else if frac > 0.5 then f + 1
    else if f % 2 == 0 then f
    else f + 1
  }

  /** Python's `round(x, 1)`: x to the nearest tenth, ties to the even tenth. */
  function RoundTenths(x: real): (r: real)
    ensures x - 0.05 <= r <= x + 0.05
    ensures (r * 10.0).Floor as real == r * 10.0
    ensures r * 10.0 - x * 10.0 == 0.5 || x * 10.0 - r * 10.0 == 0.5 ==> (r * 10.0).Floor % 2 == 0
  {
    var n := RoundHalfEven(x * 10.0);
    assert n as real / 10.0 * 10.0 == n as real;
    n as real / 10.0
  }

  /** JavaScript's `Math.round(x)`: the nearest integer, a tie going up. */
  function JsRound(x: real): (r: int)
    ensures x - 0.5 < r as real <= x + 0.5
  {
    (x + 0.5).Floor
  }

  lemma JsRoundMonotone(x: real, y: real)
    requires x <= y
    ensures JsRound(x) <= JsRound(y)
  {
  }

  /** A percentage of a part no larger than its whole rounds into 0..100. */
  lemma JsRoundPercentBounds(part: int, whole: int)
    requires 0 <= part <= whole && 0 < whole
    ensures 0 <= JsRound(part as real / whole as real * 100.0) <= 100
  {
    var q := part as real / whole as real;
    assert q * whole as real == part as real;
    assert 0.0 <= q <= 1.0;
    JsRoundMonotone(0.0, q * 100.0);
    JsRoundMonotone(q * 100.0, 100.0);
  }

  /** A part of a positive whole, as a fraction: in 0..1 within the whole, at least 1 beyond it. */
  lemma RatioBounds(part: int, whole: int)
    requires 0 <= part && 0 < whole
    ensures 0.0 <= part as real / whole as real
    ensures part <= whole ==> part as real / whole as real <= 1.0
    ensures part >= whole ==> part as real / whole as real >= 1.0
  {
    var q := part as real / whole as real;
    assert q * whole as real == part as real;
  }

  /** A JavaScript number without its rounding error: a finite value, an infinity, or NaN. */
  datatype JsNumber = Finite(value: real) | PosInfinity | NegInfinity | NaN

  /** `a / b` in JavaScript, for finite operands. */
  function JsDivide(a: real, b: real): (r: JsNumber)
    ensures r.Finite? <==> b != 0.0
    ensures r.Finite? ==> r.value * b == a
    ensures r == NaN <==> a == 0.0 && b == 0.0
    ensures r == PosInfinity <==> a > 0.0 && b == 0.0
    ensures r == NegInfinity <==> a < 0.0 && b == 0.0
  {
    if b != 0.0 then Finite(a / b)
    else if a == 0.0 then NaN
    else if a > 0.0 then PosInfinity
    else NegInfinity
  }

  /** `x / k` for a number k: a zero k divides as JsDivide does, a non-finite x keeps or flips its sign. */
  function JsDivideBy(x: JsNumber, k: real): (r: JsNumber)
    ensures x.Finite? ==> r == JsDivide(x.value, k)
    ensures x == NaN ==> r == NaN
    ensures k > 0.0 ==> (r.Finite? <==> x.Finite?)
  {
    match x
    case Finite(v) => JsDivide(v, k)
    case NaN => NaN
    case PosInfinity => if k >= 0.0 then PosInfinity else NegInfinity
    case NegInfinity => if k >= 0.0 then NegInfinity else PosInfinity
  }

  /** `x * k` for a positive k. */
  function JsScale(x: JsNumber, k: real): (r: JsNumber)
    requires k > 0.0
    ensures x.Finite? <==> r.Finite?
    ensures x.Finite? ==> r.value == x.value * k
    ensures !x.Finite? ==> r == x
  {
    match x
    case Finite(v) => Finite(v * k)
    case _ => x
  }

  /** `x + y`: NaN absorbs everything, and opposite infinities make NaN. */
  function JsAdd(x: JsNumber, y: JsNumber): (r: JsNumber)
    ensures r.Finite? <==> x.Finite? && y.Finite?
    ensures r.Finite? ==> r.value == x.value + y.value
    ensures (x == NaN || y == NaN) ==> r == NaN
  {
    if x == NaN || y == NaN then NaN
    else if x.Finite? && y.Finite? then Finite(x.value + y.value)
    else if x == PosInfinity && y == NegInfinity then NaN
    else if x == NegInfinity && y == PosInfinity then NaN
    else if x.Finite? then y
    else x
  }

  /** `Math.round(x)`: finite numbers go to the nearest integer, the others stay. */
  function JsMathRound(x: JsNumber): (r: JsNumber)
    ensures r.Finite? <==> x.Finite?
    ensures r.Finite? ==> r.value == r.value.Floor as real && x.value - 0.5 < r.value <= x.value + 0.5
    ensures !x.Finite? ==> r == x
  {
    match x
    case Finite(v) => Finite(JsRound(v) as real)
    case _ => x
  }

  /** `x >= c` in JavaScript: NaN compares false, the infinities as expected. */
  predicate JsAtLeast(x: JsNumber, c: real) {
    match x
    case Finite(v) => v >= c
    case PosInfinity => true
    case NegInfinity => false
    case NaN => false
  }

  /** `Math.round(part / whole * 100)`. */
  function JsPercent(part: int, whole: int): (r: JsNumber)
    ensures whole != 0 ==> r.Finite?
    ensures whole == 0 ==> (r == NaN <==> part == 0) && (r == PosInfinity <==> part > 0) && (r == NegInfinity <==> part < 0)
    ensures r.Finite? ==>
      r.value == r.value.Floor as real
      && part as real / whole as real * 100.0 - 0.5 < r.value <= part as real / whole as real * 100.0 + 0.5
  {
    JsMathRound(JsScale(JsDivide(part as real, whole as real), 100.0))
  }

  /** A part no larger than its positive whole is a percentage in 0..100. */
  lemma JsPercentBounds(part: int, whole: int)
    requires 0 <= part <= whole && 0 < whole
    ensures JsPercent(part, whole).Finite?
    ensures 0.0 <= JsPercent(part, whole).value <= 100.0
  {
    JsRoundPercentBounds(part, whole);
  }
}
