/** The errors the rule compiler throws, as values. */
module RuleErrors {

  datatype Error =
    | NothingToCombine       // `and()` / `or()` with no argument
    | TooManyConditions      // a 17th `add_condition` on one reaction
    | TileTypeOutOfRange     // `add_reaction` with a tile type of 32 or more
    | TooManyReactions       // a 9th `add_reaction` for one tile type
    | ReactionOutOfBounds    // the reaction block would fall outside the table
    | RangeOutOfBounds       // `setArray2DRange`: the block does not fit in the target
    | LengthMismatch         // `setArray2DRange`: a buffer length differs from width * height

  /** The outcome of an operation that either completes or throws. */
  datatype Outcome = Pass | Fail(error: Error)

  /** The value of an operation that either returns or throws. */
  datatype Result<+T> = Ok(value: T) | Err(error: Error)
}
