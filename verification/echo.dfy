/**
 The `EchoServer` noun of urest/examples/echo.py: a flag standing for an
 output, next to the `"echo"` entry of its state dict. `get_state` reports
 the flag as a boolean, not the stored entry.
 */
module EchoServer {
  import opened PyValues

  /** The `_state` flag and the value stored under `"echo"`. */
  datatype Echo = Echo(on: bool, echo: Value)

  /** The class invariant: the flag is set exactly when the stored value is not `== 0`. */
  predicate Consistent(s: Echo)
  {
    s.on <==> !IsZero(s.echo)
  }

  /** The constructor: flag clear and `{"echo": 0}`. */
  function Init(): (s: Echo)
    ensures Consistent(s) && !s.on
  {
    Echo(false, IntV(0))
  }

  /**
   `set_state(a)`: a dict with `"echo"` stores that value and sets the flag
   to whether it differs from `0`; a dict without it resets the object; an
   argument that is not a dict raises `TypeError` and changes nothing.
   */
  function SetState(s: Echo, a: Arg): (r: Step<Echo>)
    ensures a.NotDict? <==> r.raised.Some?
    ensures r.raised.Some? ==> r == Step(s, Some(TypeError))
    ensures a.DictArg? && "echo" in a.d ==> r.after.echo == a.d["echo"]
    ensures a.DictArg? && "echo" !in a.d ==> r.after == Init()
    ensures r.raised.None? ==> Consistent(r.after)
  {
    match a
    case NotDict => Step(s, Some(TypeError))
    case DictArg(d) =>
      if "echo" in d then Step(Echo(!IsZero(d["echo"]), d["echo"]), None)
      else Step(Echo(false, IntV(0)), None)
  }

  /** `get_state()`: the flag, as a boolean, under `"echo"`. */
  function GetState(s: Echo): (m: Dict)
    ensures m.Keys == {"echo"} && m["echo"].BoolV?
    ensures Consistent(s) ==> (m["echo"] == BoolV(false) <==> IsZero(s.echo))
  {
    map["echo" := BoolV(s.on)]
  }

  /** `delete_state()`: flag clear and `0` stored, whatever came before. */
  function DeleteState(s: Echo): (r: Echo)
    ensures r == Init()
  {
    Echo(false, IntV(0))
  }

  /** `update_state(a)`: the argument is ignored; a zero value becomes `1`, any other value `0`. */
  function UpdateState(s: Echo, a: Arg): (r: Echo)
    ensures Consistent(r)
    ensures IsZero(s.echo) ==> r == Echo(true, IntV(1))
    ensures !IsZero(s.echo) ==> r == Echo(false, IntV(0))
  {
    if IsZero(s.echo) then Echo(true, IntV(1)) else Echo(false, IntV(0))
  }

  /** Every operation keeps the flag in step with the stored value. */
  lemma InvariantPreserved(s: Echo, a: Arg)
    requires Consistent(s)
    ensures Consistent(SetState(s, a).after)
    ensures Consistent(DeleteState(s)) && Consistent(UpdateState(s, a))
  {
  }

  /** Two updates bring a consistent object back to where it was, as `get_state` sees it. */
  lemma UpdateTwice(s: Echo, a: Arg, b: Arg)
    requires Consistent(s)
    ensures GetState(UpdateState(UpdateState(s, a), b)) == GetState(s)
  {
  }

  /** Setting `{"echo": v}` reads back `True` exactly when `v` is not zero. */
  lemma SetReadsBack(s: Echo, v: Value)
    ensures GetState(SetState(s, DictArg(map["echo" := v])).after) == map["echo" := BoolV(!IsZero(v))]
  {
  }

  /** Repeating a set changes nothing more. */
  lemma SetIdempotent(s: Echo, a: Arg)
    ensures SetState(SetState(s, a).after, a) == SetState(s, a)
  {
  }
}
