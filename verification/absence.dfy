/** JavaScript's missing values — an option field left `undefined`, the
    `null` placeholder the formatter pushes and later filters out, a search
    that finds nothing — as one datatype. */
module Absence {

  /** A value that may be missing. */
  datatype Maybe<+T> = Missing | Given(value: T)
}
