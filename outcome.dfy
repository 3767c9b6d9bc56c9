/** Failures the engine can raise. Each one mirrors a `ValueError` that the
    Python standard library raises inside one of the genetic operators. */
module Outcome {

  datatype Error =
    /** `random.sample(pool, k)` with `k` negative or larger than the pool. */
    | SampleOutOfRange
    /** `min(aspirants, ...)` over an empty tournament (`k == 0`). */
    | MinOfEmpty
    /** `random.randint(1, size - 2)` on an individual of fewer than three genes. */
    | EmptyCutRange

  datatype Result<+T> = Ok(value: T) | Err(error: Error)
}
