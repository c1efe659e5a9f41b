/**
 * `LimitedInputRange<MIN, MAX>`: a `usize` that can only be built through
 * `try_from`, which accepts it when it lies in the closed range [MIN, MAX].
 * The const generics MIN and MAX of the Rust type are the parameters `min` and `max`.
 */
module LimitedRange {
  import opened Primitives

  datatype RangeError = UnderRange | OverRange

  /** The wrapped value; the Rust tuple field is private, so `TryFrom` is the only way to build one. */
  datatype LimitedInputRange = LimitedInputRange(value: usize)

  /** What every `LimitedInputRange<min, max>` built by `TryFrom` satisfies. */
  predicate Within(min: usize, max: usize, x: LimitedInputRange) {
    min <= x.value <= max
  }

  /** `Deref::deref`: the wrapped `usize`. */
  function Deref(x: LimitedInputRange): (v: usize)
    ensures LimitedInputRange(v) == x
  {
    x.value
  }

  /**
   * `TryFrom<usize>::try_from`. The `UnderRange` guard comes first, so it wins
   * whenever it applies, including when `max < min`.
   */
  function TryFrom(min: usize, max: usize, value: usize): (r: Result<LimitedInputRange, RangeError>)
    ensures r.Ok? <==> min <= value <= max
    ensures value < min ==> r == Err(UnderRange)
    ensures min <= value && max < value ==> r == Err(OverRange)
    ensures r.Ok? ==> Within(min, max, r.value) && Deref(r.value) == value
  {
    if value < min then Err(UnderRange)
    else if value > max then Err(OverRange)
    else Ok(LimitedInputRange(value))
  }

  /** An empty range (`MIN > MAX`) admits no value at all. */
  lemma EmptyRangeRejectsAll(min: usize, max: usize, value: usize)
    requires max < min
    ensures TryFrom(min, max, value).Err?
  {
  }

  /**
   * The other half of the round trip: rebuilding from the dereferenced value
   * gives back the same wrapper, for any wrapper that keeps the invariant.
   */
  lemma TryFromDeref(min: usize, max: usize, x: LimitedInputRange)
    requires Within(min, max, x)
    ensures TryFrom(min, max, Deref(x)) == Ok(x)
  {
  }
}
