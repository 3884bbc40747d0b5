/** Small helper datatypes shared by the other modules. */
module Wrappers {

  /** A value that may be absent: Kotlin's nullable `T?`. */
  datatype Option<+T> = None | Some(value: T)

  /** The unchecked JVM exceptions that the inbox screen can raise. */
  datatype Exception =
    | IndexOutOfBounds  // ArrayList.get/set/removeAt with a position outside 0..size-1
    | NullPointer       // Kotlin's `!!` applied to null

  /** How a Kotlin call that returns `Unit` ended: normally, or by throwing. */
  datatype Outcome = Normal | Threw(error: Exception)
}
