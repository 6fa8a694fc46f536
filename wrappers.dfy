/** Stand-ins for the nullable references of the modelled C# code. */
module Wrappers {

  /** A nullable value: `Null` plays the part of C#'s `null`. */
  datatype Nullable<+T> = Null | Val(value: T)
}
