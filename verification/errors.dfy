/** The exceptions the library throws, and the carriers that replace them. */
module Errors {

  datatype Option<+T> = None | Some(value: T)

  /** The exceptions raised along the modelled paths, one variant per Java exception kind. */
  datatype Error =
    /** InvalidConfigurationException: fewer than three layers. */
    | TooFewLayers
    /** InvalidConfigurationException: the input layer does not use FIdentity. */
    | InputLayerNotIdentity
    /** InvalidConfigurationException: layer count differs (units.length, layers.length). */
    | LayerCountMismatch(units: int, layers: int)
    /** InvalidConfigurationException: row count differs (units[i].size, layers[i].length). */
    | UnitCountMismatch(correct: int, size: int)
    /** InvalidStateException: the input vector has the wrong length. */
    | InvalidInputLength
    /** NegativeArraySizeException raised by an array allocation. */
    | NegativeArraySize(size: int)
    /** NullPointerException: no stream to read, or readLine() returned null at the end of the file. */
    | NullPointer
    /** IOException: the stream was read after it was closed. */
    | StreamClosed
    /** NumberFormatException: the token is not a number. */
    | NumberFormat(token: string)
    /** ArrayIndexOutOfBoundsException. */
    | IndexOutOfBounds(index: int, length: int)
    /** new RuntimeException(cause). */
    | Wrapped(cause: Error)

  /** A value, or the exception that was thrown instead. */
  datatype Outcome<+T> = Ok(value: T) | Fail(error: Error)
}
