/** A value that may be absent, and decimal numerals. */
module Common {

  datatype Option<+T> = None | Some(value: T)

  /** The decimal numeral of n, as fmt prints it. */
  function Digits(n: nat): string {
    if n < 10 then ["0123456789"[n]] else Digits(n / 10) + ["0123456789"[n % 10]]
  }

  type byte = x: int | 0 <= x < 256
}
