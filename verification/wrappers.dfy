/** Failure-carrying datatypes used across the model.

    Python code in this system signals failure in two ways: by raising an
    exception (modelled as `Err` of a `Result`, tagged with the exception
    class that would be raised) and by returning `None` (modelled as `Option`).
 */
module Wrappers {

  /** A value that may be missing: Python's `None`, or pandas' NaN in a cell. */
  datatype Option<+T> = None | Some(value: T) {

    predicate IsFailure() {
      None?
    }

    function PropagateFailure<U>(): Option<U>
      requires None?
    {
      None
    }

    function Extract(): T
      requires Some?
    {
      value
    }

    /** Returns the value held in Some, or `default` for None. */
    function GetOr(default: T): T {
      match this
      case Some(v) => v
      case None => default
    }
  }

  /** The Python exception classes the modelled code can raise. */
  datatype PyError =
    | ValueError          // a two-way unpack of a split that did not give two parts
    | IndexError          // `parts[1]` on a one-part split, `values[0]` on an empty column
    | KeyError            // a missing dictionary key or DataFrame column
    | AttributeError      // an attribute read on `None`
    | TypeError           // `raise None`
    | UnboundLocalError   // a local read before any assignment reached it
    | HttpError           // a non-success status raised by `raise_for_status`
    | RequestError        // the request itself failed (connection, timeout)
    | DatabaseError       // an SQL query on a table the database does not hold
    | ValidationError     // a pydantic model built without one of its required fields

  /** The outcome of a Python call that either returns a value or raises. */
  datatype Result<+T> = Ok(value: T) | Err(error: PyError) {

    predicate IsFailure() {
      Err?
    }

    function PropagateFailure<U>(): Result<U>
      requires Err?
    {
      Err(error)
    }

    function Extract(): T
      requires Ok?
    {
      value
    }

    /** Python's `try: ... except Exception: return None`. */
    function ToOption(): Option<T> {
      match this
      case Ok(v) => Some(v)
      case Err(_) => None
    }
  }
}
