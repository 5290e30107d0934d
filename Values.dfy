/**
 * The values a DMap stores. In JavaScript they are arbitrary
 * values; the two that matter to the map itself are `undefined` and `null`
 * (the `set` guard talks about both, and `get` answers `null` for a missing
 * key), so every other value is an opaque payload of type T.
 */
module Values {

  datatype Js<+T> = Undefined | Null | Value(payload: T)

  /** The failures the map can surface to its caller. */
  datatype Error =
    | ConfigError      // the constructor was given no database name
    | ValueInvalid     // `set` was given null or undefined
    | ConstraintError  // a fragment ID to add is already stored: the transaction aborts
    | FragmentMissing  // the manifest references a fragment that is not stored
}
