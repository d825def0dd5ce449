/** Values as the Python store handles them: optional results, the dynamically
    typed cells of a fetched row, bytes, and the exceptions the model tells apart. */
module Values {

  /** Python's `None` or a present value. */
  datatype Option<+T> = None | Some(value: T)

  /** One octet. */
  newtype byte = x: int | 0 <= x < 256

  /** A Python value found in a fetched row or in a record dictionary:
      an `int`, a `str` or `None`. */
  datatype Value = Int(i: int) | Text(s: string) | Null

  /** The exceptions the model distinguishes. */
  datatype Error =
    | AttributeError                 // a method called on a value that lacks it
    | IndexError                     // a row shorter than the column index read
    | OperationalError(errno: int)   // mysql.connector.errors.OperationalError
    | DatabaseError(errno: int)      // any other error raised by the connector

  /** What a Python call did: returned a value or raised an exception. */
  datatype Outcome<+T> = Returned(value: T) | Raised(error: Error)
}
