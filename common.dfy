/** Values shared by every part of the model: optional values, the exceptions the
    client can raise, and the record the polling layer publishes to the entities. */
module Common {

  /** A byte read from or written to the socket. */
  type byte = x: int | 0 <= x < 0x100

  /** Python's `None` or a value. */
  datatype Option<T> = None | Some(value: T)

  /** The exceptions that can leave a call of the core. */
  datatype Error =
    | ConnectionError     // asyncio.open_connection failed
    | EncodeError         // str.encode("ascii") met a non-ASCII character
    | WriteError          // write/drain on the socket failed
    | ReadError           // a read on the socket raised something other than a timeout
    | IndexError          // cmd.split()[0] on a command without a token
    | ValueError          // int() on a token that is not an integer
    | KeyError            // outputs[output_id] on a map without that key
    | ZeroDivisionError   // current % len(sources) with no sources

  /** A value, or the exception raised instead. */
  datatype Result<T> = Success(value: T) | Failure(error: Error) {
    /** Applies `f` to a value and passes an exception through unchanged. */
    function Map<U>(f: T -> U): (r: Result<U>)
      ensures r.Success? <==> Success?
      ensures r.Success? ==> r.value == f(value)
      ensures r.Failure? ==> r.error == error
    {
      match this
      case Success(v) => Success(f(v))
      case Failure(e) => Failure(e)
    }
  }

  /** The result of a call that returns nothing but may raise. */
  datatype Outcome = Pass | Fail(error: Error)

  /** output id -> input id, as get_output_sources builds it; either side may be None. */
  type RoutingMap = map<Option<int>, Option<int>>

  /** port id -> connected, as get_in_links / get_out_links build it. */
  type LinkMap = map<Option<int>, bool>

  /** The dictionary the polling layer hands to the entities: the power state
      and the routing map (None when that poll's parse failed). */
  datatype CoordinatorData = CoordinatorData(power: bool, outputs: Option<RoutingMap>)

  /** `not outputs` in Python: the routing map is missing or empty. */
  predicate NoOutputs(data: CoordinatorData) {
    data.outputs.None? || data.outputs.value == map[]
  }
}
