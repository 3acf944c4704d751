/** Small pieces shared by all the modules: optional values, C bytes, and the
    sequence of allocation outcomes that every allocating operation consumes. */
module Base {

  datatype Option<+T> = None | Some(value: T)

  type byte = x: int | 0 <= x < 256

  const INT_MAX: int := 0x7FFF_FFFF

  /** The character that ends a C string. */
  const NUL := '\0'

  /** An oracle decides, in order, which of the coming allocations fail.  Quantifying
      over oracles is quantifying over every pattern of allocation failures; once
      the oracle is used up, allocations succeed. */
  type Oracle = seq<bool>

  predicate Fails(o: Oracle) {
    |o| > 0 && o[0]
  }

  function After(o: Oracle): Oracle {
    if |o| > 0 then o[1..] else o
  }
}
