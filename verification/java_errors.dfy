/** The exception kinds the driver core throws, and the outcomes of calls into
    the cluster driver, which the model receives as inputs. */
module JavaErrors {
  import opened Wrappers

  /** A thrown exception, by Java class, with the message it carries. */
  datatype Failure =
    | IllegalArgument(message: string)              // java.lang.IllegalArgumentException
    | NumberFormat(input: string)                   // java.lang.NumberFormatException for `input`
    | SqlException(message: string)                 // java.sql.SQLException
    | SqlSyntaxError(message: string)               // java.sql.SQLSyntaxErrorException
    | FeatureNotSupported(detail: Option<string>)   // java.sql.SQLFeatureNotSupportedException
    | UnsupportedOperation(message: string)         // java.lang.UnsupportedOperationException

  /** What the cluster driver may throw: its `SyntaxError`, or anything else. */
  datatype Thrown = SyntaxError(message: string) | OtherError(message: string) {
    /** `Throwable.getMessage()` of the thrown object. */
    function Message(): string {
      match this
      case SyntaxError(m) => m
      case OtherError(m) => m
    }
  }

  /** The outcome of one opaque call into the cluster driver. */
  datatype EngineOutcome<+T> = Done(value: T) | Threw(thrown: Thrown)
}
