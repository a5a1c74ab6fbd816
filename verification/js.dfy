/** JavaScript values as the chart components see them: numbers that may be
    NaN, and decoded message fields that may not be numbers at all. */
module Js {

  /** A JavaScript number: a finite value or NaN. Infinities are not modelled. */
  datatype Num = Fin(x: real) | NaN

  /** One field of a decoded message or record: a number (possibly NaN), or a
      value of another type (absent, null, a string, an object). */
  datatype Field = Number(n: Num) | NonNumber

  /** `typeof f === 'number'` */
  predicate IsNumber(f: Field) {
    f.Number?
  }

  /** `typeof f === 'number' && !isNaN(f)` */
  predicate IsFinite(f: Field) {
    f.Number? && f.n.Fin?
  }

  /** The number a field becomes when it takes part in arithmetic or a
      comparison; a non-number (undefined, an object) becomes NaN. */
  function ToNum(f: Field): Num {
    if f.Number? then f.n else NaN
  }

  /** `a + b` */
  function Add(a: Num, b: Num): Num {
    if a.Fin? && b.Fin? then Fin(a.x + b.x) else NaN
  }

  /** `a - b` */
  function Sub(a: Num, b: Num): Num {
    if a.Fin? && b.Fin? then Fin(a.x - b.x) else NaN
  }

  /** `a / d` for a non-zero constant divisor. */
  function Div(a: Num, d: real): Num
    requires d != 0.0
  {
    if a.Fin? then Fin(a.x / d) else NaN
  }

  /** `Math.max(a, b)`: NaN as soon as either argument is NaN. */
  function Max(a: Num, b: Num): Num {
    if a.Fin? && b.Fin? then Fin(if a.x >= b.x then a.x else b.x) else NaN
  }

  /** `Math.min(a, b)`: NaN as soon as either argument is NaN. */
  function Min(a: Num, b: Num): Num {
    if a.Fin? && b.Fin? then Fin(if a.x <= b.x then a.x else b.x) else NaN
  }

  /** `a <= b` on numbers: false whenever either side is NaN. */
  predicate LessEq(a: Num, b: Num) {
    a.Fin? && b.Fin? && a.x <= b.x
  }
}
