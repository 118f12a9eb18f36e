/** The two result shapes the queue uses: an optional value (what `front`
    hands back) and a value-or-fault (for the source's `assert`s, which the
    model turns into an explicit error path instead of a precondition). */
module Outcomes {

  datatype Option<+T> = None | Some(value: T)

  datatype Result<+T, +E> = Success(value: T) | Failure(error: E)
}
