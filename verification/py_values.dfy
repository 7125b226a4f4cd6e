/**
 The few Python run-time notions the urest code leans on: an optional value,
 the exceptions it raises, the scalar values a resource's state can hold, and
 Python's `==` against the integer `0`.
 */
module PyValues {

  datatype Option<+T> = None | Some(value: T)

  /** The exceptions the modelled code raises (or would raise) itself. */
  datatype PyError = ValueError | TypeError | KeyError | AttributeError | NameError

  /** The outcome of a Python constructor: the new object, or the exception it raised. */
  datatype Result<+T> = Ok(value: T) | Raised(error: PyError)

  /**
   The outcome of a Python method on an object: the object's state once the
   call is over, and the exception the call raised, if any.
   */
  datatype Step<+S> = Step(after: S, raised: Option<PyError>)

  /**
   What a sequence of `writer.write` calls leaves on the stream, and the
   exception that stopped the sequence, if any.
   */
  datatype Emission<+T> = Emission(out: seq<T>, raised: Option<PyError>)

  /** A scalar held in a resource's state mapping (decoded JSON, or a flag). */
  datatype Value = IntV(i: int) | StrV(s: string) | BoolV(b: bool) | NoneV

  /** A resource state or request body: a Python `dict` of string keys. */
  type Dict = map<string, Value>

  /**
   The argument a client's request hands to `set_state` or `update_state`:
   a `dict`, or anything else (`None`, a list, a number or a string).
   */
  datatype Arg = DictArg(d: Dict) | NotDict

  /**
   Python's `v == 0`: true for the integer zero and for `False` (a `bool` is an
   `int` in Python); false for every string and for `None`.
   */
  predicate IsZero(v: Value)
  {
    match v
    case IntV(i) => i == 0
    case BoolV(b) => !b
    case StrV(_) => false
    case NoneV => false
  }

  /** A GPIO pin level or a state flag that only ever holds `0` or `1`. */
  type Bit = b: int | 0 <= b <= 1

  /** The bit Python code stores after testing `v == 0`: `0` for zero, `1` otherwise. */
  function ZeroTestBit(v: Value): (b: Bit)
    ensures b == 0 <==> IsZero(v)
  {
    if IsZero(v) then 0 else 1
  }
}
