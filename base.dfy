/** Value types shared by every part of the model. */
module Base {

  /** An unsigned octet. The JVM's signed `Byte` is read as its unsigned value (b & 0xFF) throughout. */
  newtype byte = b: int | 0 <= b < 256

  /** The Kotlin nullable `T?`. */
  datatype Option<+T> = None | Some(value: T)

  /** The outcome of a call that may throw: the value, or the message of the exception. */
  datatype Result<+T> = Success(value: T) | Failure(message: string)
}
