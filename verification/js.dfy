/** The few JavaScript value rules the page script leans on: absent values,
    `NaN`, the truncating `%` operator, array indexing that yields
    `undefined` out of range, and the `x || ''` idiom for strings. */
module Js {

  /** A value that may be `undefined` or `null` in the script. */
  datatype Option<+T> = None | Some(value: T)

  /** A JavaScript number as the script uses it: an integer or `NaN`.
      Every number the script computes is integral or `NaN`, so no other
      floating-point value is needed. */
  datatype JsNum = Num(n: int) | NaN

  /** `a + b` on numbers: `NaN` is absorbing. */
  function Add(a: JsNum, b: JsNum): (r: JsNum)
    ensures r.Num? <==> a.Num? && b.Num?
    ensures r.Num? ==> r.n == a.n + b.n
  {
    if a.Num? && b.Num? then Num(a.n + b.n) else NaN
  }

  /** The remainder of JavaScript's `%` on integers: it truncates toward
      zero, so the result takes the sign of the dividend. A negative zero
      is folded into 0, which is how it behaves as an array index. */
  function TruncRem(a: int, b: int): (r: int)
    requires b != 0
    ensures -(Abs(b) as int) < r < Abs(b)
    ensures a >= 0 ==> 0 <= r
    ensures a <= 0 ==> r <= 0
  {
    if a >= 0 then a % Abs(b) else -((-a) % Abs(b))
  }

  function Abs(x: int): nat
  {
    if x < 0 then -x else x
  }

  /** `x % n` on numbers: `NaN` when `x` is `NaN` or `n` is zero. */
  function Rem(x: JsNum, n: int): (r: JsNum)
    ensures r.Num? <==> x.Num? && n != 0
  {
    if x.Num? && n != 0 then Num(TruncRem(x.n, n)) else NaN
  }

  /** `a[i]`: the element when `i` is an integer index inside the array,
      `undefined` for a negative or too large index and for `NaN`. */
  function At<T>(a: seq<T>, i: JsNum): (r: Option<T>)
    ensures r.Some? <==> i.Num? && 0 <= i.n < |a|
    ensures r.Some? ==> r.value == a[i.n]
  {
    if i.Num? && 0 <= i.n < |a| then Some(a[i.n]) else None
  }

  /** `s || ''` where `s` is an optional string: an absent value and the
      empty string both give the empty string. */
  function OrEmpty(s: Option<string>): (r: string)
    ensures s.None? ==> r == ""
    ensures s.Some? ==> r == s.value
  {
    if s.Some? then s.value else ""
  }

  /** The string `setAttribute` stores for a boolean argument. */
  function BoolText(b: bool): string
  {
    if b then "true" else "false"
  }
}
