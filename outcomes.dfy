/** Optional values and run outcomes, used where a step of the pipeline can fail. */
module Outcomes {

  datatype Option<+T> = None | Some(value: T)

  /** How far a run got: to the end, or stopped by a raised exception. */
  datatype Status = Completed | Aborted

}
