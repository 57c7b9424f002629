/** Properties the game reads that may be missing (`undefined` in the original
    program), and the `x || fallback` idiom it uses to default them. */
module Optional {

  datatype Option<+T> = None | Some(value: T) {

    /** `x || fallback` for a value that is either present or missing. */
    function Or(fallback: T): T {
      if Some? then value else fallback
    }
  }
}
