/**
 The synchronous bookkeeping of the `PWMLED` noun in
 urest/examples/pwmled.py. Its state dict always holds `desired`, the level
 the LED is commanded to, and `current`, the level it is leaving; a
 commanded change starts a slow fade as a separate task, which is not part
 of this model, so right after a command the two disagree.
 */
module PwmLed {
  import opened PyValues

  /** The PWM duty value the object records, and its `desired` and `current` entries. */
  datatype Pwm = Pwm(duty: int, desired: Value, current: Bit)

  /** The constructor: duty `0` and `{"desired": 0, "current": 0}`. */
  function Init(): (s: Pwm)
    ensures s.duty == 0 && IsZero(s.desired) && s.current == 0
  {
    Pwm(0, IntV(0), 0)
  }

  /**
   `set_state(a)`: a dict with `"desired"` stores that value and marks the
   output as coming from the opposite level, `current` being `1` when the
   value is `== 0` and `0` otherwise, the duty left to the fade; a dict
   without it is the caught `KeyError` that zeroes duty, `desired` and
   `current`; an argument that is not a dict raises `TypeError` and changes
   nothing.
   */
  function SetState(s: Pwm, a: Arg): (r: Step<Pwm>)
    ensures a.NotDict? <==> r.raised.Some?
    ensures r.raised.Some? ==> r == Step(s, Some(TypeError))
    ensures a.DictArg? && "desired" in a.d ==>
      r.after.desired == a.d["desired"] && r.after.duty == s.duty
      && (r.after.current == 1 <==> IsZero(a.d["desired"]))
    ensures a.DictArg? && "desired" !in a.d ==> r.after == Init()
  {
    match a
    case NotDict => Step(s, Some(TypeError))
    case DictArg(d) =>
      if "desired" in d then
        Step(Pwm(s.duty, d["desired"], if IsZero(d["desired"]) then 1 else 0), None)
      else Step(Pwm(0, IntV(0), 0), None)
  }

  /** `get_state()`: the state dict, which has exactly the two keys. */
  function GetState(s: Pwm): (m: Dict)
    ensures m.Keys == {"desired", "current"}
    ensures m["desired"] == s.desired && m["current"] == IntV(s.current)
  {
    map["desired" := s.desired, "current" := IntV(s.current)]
  }

  /** `delete_state()`: duty, `desired` and `current` all `0`, whatever came before. */
  function DeleteState(s: Pwm): (r: Pwm)
    ensures r == Init()
  {
    Pwm(0, IntV(0), 0)
  }

  /**
   `update_state(a)`: the argument is ignored; a zero `desired` becomes `1`
   with `current` `0`, anything else becomes `0` with `current` `1`.
   */
  function UpdateState(s: Pwm, a: Arg): (r: Pwm)
    ensures r.duty == s.duty
    ensures IsZero(s.desired) ==> r.desired == IntV(1) && r.current == 0
    ensures !IsZero(s.desired) ==> r.desired == IntV(0) && r.current == 1
  {
    if IsZero(s.desired) then Pwm(s.duty, IntV(1), 0) else Pwm(s.duty, IntV(0), 1)
  }

  /** The two levels `0` and `1`, as `desired` may hold them. */
  predicate IsLevel(v: Value)
  {
    v == IntV(0) || v == IntV(1)
  }

  /** A fade in progress: `desired` is a level and `current` is the other one. */
  predicate InTransition(s: Pwm)
  {
    IsLevel(s.desired) && s.desired != IntV(s.current)
  }

  /**
   Right after a `set_state` of a level, or after any `update_state`, the
   object is in the commanded rows of the state table: `current` differs
   from `desired`.
   */
  lemma CommandStartsTransition(s: Pwm, a: Arg, v: Value)
    requires IsLevel(v)
    ensures InTransition(SetState(s, DictArg(map["desired" := v])).after)
    ensures InTransition(UpdateState(s, a))
  {
  }

  /** Whatever the operations, `get_state` reports exactly the keys `desired` and `current`. */
  lemma KeysAlwaysTheSame(s: Pwm, a: Arg)
    ensures GetState(SetState(s, a).after).Keys == {"desired", "current"}
    ensures GetState(UpdateState(s, a)).Keys == GetState(DeleteState(s)).Keys == GetState(s).Keys
  {
  }

  /** DELETE reads `{"current": 0, "desired": 0}`; so does a PUT of a dict without `desired`. */
  lemma ResetReads(s: Pwm)
    ensures GetState(DeleteState(s)) == map["desired" := IntV(0), "current" := IntV(0)]
    ensures GetState(SetState(s, DictArg(map["led" := IntV(1)])).after) == GetState(DeleteState(s))
  {
  }

  /** Two updates with no fade completing in between bring `get_state` back for a level. */
  lemma UpdateTwice(s: Pwm, a: Arg, b: Arg)
    requires InTransition(s)
    ensures GetState(UpdateState(UpdateState(s, a), b)) == GetState(s)
  {
  }
}
