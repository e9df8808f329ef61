/** The library calls the engine makes, as functions nothing is assumed about. */
module Library {
  import opened Wrappers

  /** get: the string form of the JSON value at a path, if there is one.
      show: the printed form of that value.
      greater, less: numeric comparison of two texts, None unless both parse as numbers. */
  datatype Lib = Lib(
    get: (string, string) -> Option<string>,
    show: (string, string) -> Option<string>,
    greater: (string, string) -> Option<bool>,
    less: (string, string) -> Option<bool>)
}
