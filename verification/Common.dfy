/** Small value types shared by every module of the model. */
module Common {

  /** A byte of an MQTT payload (a Node.js Buffer element). */
  newtype byte = x: int | 0 <= x < 256

  datatype Option<+T> = None | Some(value: T) {
    function GetOr(default: T): T {
      match this
      case Some(v) => v
      case None => default
    }
  }

  datatype Result<+R, +E> = Success(value: R) | Failure(error: E)

  /** A JavaScript exception, reduced to its constructor name and message. */
  datatype Exception = Exception(name: string, message: string)
}
