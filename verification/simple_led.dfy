/**
 The `SimpleLED` noun of examples/simpleled.py: an LED on a GPIO pin whose
 level is abstracted as a bit, next to the `"led"` entry of its state dict.
 `get_state` reports the pin, not the stored entry.
 */
module SimpleLed {
  import opened PyValues

  /** The pin level and the value stored under `"led"`. */
  datatype Led = Led(pin: Bit, led: Value)

  /** The class invariant: the pin is on exactly when the stored value is not `== 0`. */
  predicate Consistent(s: Led)
  {
    s.pin == 1 <==> !IsZero(s.led)
  }

  /** The constructor: pin off and `{"led": 0}`. */
  function Init(): (s: Led)
    ensures Consistent(s) && s.pin == 0
  {
    Led(0, IntV(0))
  }

  /**
   `set_state(a)`: a dict with `"led"` stores that value and drives the pin
   by testing it against `0`; a dict without it is a `KeyError` that the
   method catches by switching the pin off and storing `0`. Indexing
   anything that is not a dict by a string raises `TypeError`, which the
   method does not catch, and the state is left as it was.
   */
  function SetState(s: Led, a: Arg): (r: Step<Led>)
    ensures a.NotDict? <==> r.raised.Some?
    ensures r.raised.Some? ==> r == Step(s, Some(TypeError))
    ensures a.DictArg? && "led" in a.d ==> r.after.led == a.d["led"]
    ensures a.DictArg? && "led" !in a.d ==> r.after == Init()
    ensures r.raised.None? ==> Consistent(r.after)
  {
    match a
    case NotDict => Step(s, Some(TypeError))
    case DictArg(d) =>
      if "led" in d then Step(Led(ZeroTestBit(d["led"]), d["led"]), None)
      else Step(Led(0, IntV(0)), None)
  }

  /** `get_state()`: the pin level under `"led"`. */
  function GetState(s: Led): (m: Dict)
    ensures m.Keys == {"led"} && m["led"] == IntV(s.pin)
    ensures Consistent(s) ==> (m["led"] == IntV(0) <==> IsZero(s.led))
  {
    map["led" := IntV(s.pin)]
  }

  /** `delete_state()`: pin off and `0` stored, whatever came before. */
  function DeleteState(s: Led): (r: Led)
    ensures r == Init()
  {
    Led(0, IntV(0))
  }

  /** `update_state(a)`: the argument is ignored and the LED toggled. */
  function UpdateState(s: Led, a: Arg): (r: Led)
    ensures Consistent(r)
    ensures IsZero(s.led) ==> r == Led(1, IntV(1))
    ensures !IsZero(s.led) ==> r == Led(0, IntV(0))
  {
    if IsZero(s.led) then Led(1, IntV(1)) else Led(0, IntV(0))
  }

  /** Every operation keeps the pin in step with the stored value. */
  lemma InvariantPreserved(s: Led, a: Arg)
    requires Consistent(s)
    ensures Consistent(SetState(s, a).after)
    ensures Consistent(DeleteState(s)) && Consistent(UpdateState(s, a))
  {
  }

  /** Two updates bring a consistent LED back to where it was, as `get_state` sees it. */
  lemma UpdateTwice(s: Led, a: Arg, b: Arg)
    requires Consistent(s)
    ensures GetState(UpdateState(UpdateState(s, a), b)) == GetState(s)
  {
  }

  /** DELETE then POST reads `{"led": 1}`. */
  lemma DeleteThenPost(s: Led, a: Arg)
    ensures GetState(UpdateState(DeleteState(s), a)) == map["led" := IntV(1)]
  {
  }

  /** PUT `{"led": 1}` then DELETE reads `{"led": 0}`. */
  lemma PutThenDelete(s: Led)
    ensures GetState(DeleteState(SetState(s, DictArg(map["led" := IntV(1)])).after)) == map["led" := IntV(0)]
  {
  }

  /** Repeating a PUT changes nothing more. */
  lemma PutIdempotent(s: Led, a: Arg)
    ensures SetState(SetState(s, a).after, a) == SetState(s, a)
  {
  }

  /** PUT `{"led": 1}` reads back `{"led": 1}`; any value that is not zero turns the pin on. */
  lemma PutReadsBack(s: Led, v: Value)
    ensures GetState(SetState(s, DictArg(map["led" := v])).after) == map["led" := IntV(if IsZero(v) then 0 else 1)]
  {
  }
}
