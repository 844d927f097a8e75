/** The pieces of the Python runtime the evaluator relies on: `None`, the three exceptions
    the evaluator can raise, and the floating-point library routines whose results the
    model takes as given. */
module Runtime {

  datatype Option<+T> = None | Some(value: T)

  /** The exceptions that can escape `evaluate_simple_expression` or the rewrite loops:
      `ZeroDivisionError`, `ValueError("math domain error")` from `math.sqrt`, and the
      `TypeError` raised by arithmetic on `None`. */
  datatype Fault = ZeroDivision | MathDomain | TypeError

  /** The outcome of a computation that may raise or that may loop forever.
      `Diverged` means a rewrite loop was still running when its pass budget ran out. */
  datatype Outcome<+T> = Done(value: T) | Raised(fault: Fault) | Diverged

  /** The floating-point library: `math.sqrt` (only ever applied to non-negative values),
      `float.__pow__` (only ever applied to non-negative operands), `str` of a float (the
      text the rewrite loops splice back into the expression), and the renderings
      `"{:.8f}".format` and `"{:.8e}".format` of a result. */
  datatype MathLib = MathLib(
    sqrt: real -> real,
    pow: (real, real) -> real,
    str: real -> string,
    fixed: real -> string,
    scientific: real -> string)

  function Abs(x: real): (r: real)
    ensures r >= 0.0 && (r == x || r == -x)
  {
    if x < 0.0 then -x else x
  }
}
