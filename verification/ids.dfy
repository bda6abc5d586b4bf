/** Entity identifiers. `UserId` and `TaskId` wrap a random UUID; the model
    keeps only their identity, as an opaque number handed in by the caller. */
module Ids {

  datatype UserId = UserId(value: nat)

  datatype TaskId = TaskId(value: nat)
}
