/** An optional value, and what may become of a statement; shared by all other modules. */
module Options {
  datatype Maybe<+T> = Nothing | Just(value: T)

  /** None or one. */
  function Listed<T>(m: Maybe<T>): (r: seq<T>) {
    if m.Just? then [m.value] else []
  }

  /** A statement works, throws, or is never reached because the process is gone. */
  datatype Fate = Works | Fails | Cut
}
