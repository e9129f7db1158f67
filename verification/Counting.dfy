/** For invariants that count posts, waits and turns. */
module Counting {
  /** 1 if b holds, otherwise 0. */
  function Flag(b: bool): nat {
    if b then 1 else 0
  }
}
