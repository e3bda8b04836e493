/** Optional values, and what the world outside the program answers. */
module World {
  datatype Option<+T> = None | Some(value: T)

  /** Anything at all: the result of a command, a clock, a choice of somebody else's. */
  method Answer<T(0)>() returns (answer: T) {
    answer := *;
  }
}
