/**
 The resource-state contract of `APIBase` in urest/api/base.py, the base
 class of every noun the server exposes. The state is the empty list `[]`
 that the constructor and `delete_state` store, or the dict a client last
 set; `update_state` merges a dict into it key by key.
 */
module ApiBase {
  import opened PyValues

  /** The `_state_attributes` attribute: the empty list `[]`, or a dict. */
  datatype State = EmptyList | Dict(m: Dict)

  /** The state of a freshly constructed `APIBase`. */
  function Init(): (s: State)
    ensures !s.Dict?
  {
    EmptyList
  }

  /** `get_state()`: the stored state, returned as it is. */
  function GetState(s: State): (r: State)
    ensures r == s
  {
    s
  }

  /** `set_state(a)`: a dict becomes the whole state, anything else resets it to `[]`. */
  function SetState(s: State, a: Arg): (r: State)
    ensures a.DictArg? ==> r == Dict(a.d)
    ensures a.NotDict? ==> r == EmptyList
  {
    match a
    case DictArg(d) => Dict(d)
    case NotDict => EmptyList
  }

  /** `delete_state()`: back to the state of a fresh object. */
  function DeleteState(s: State): (r: State)
    ensures r == Init()
  {
    EmptyList
  }

  /**
   The item assignment `self._state_attributes[key] = value`. On a dict it
   adds or overwrites the key; on the list `[]` a string index is a
   `TypeError`. It never raises `KeyError`.
   */
  function Assign(s: State, key: string, v: Value): (r: Step<State>)
    ensures r.raised.Some? <==> s.EmptyList?
    ensures r.raised.Some? ==> r.raised == Some(TypeError) && r.after == s
    ensures r.raised != Some(KeyError)
    ensures s.Dict? ==> r.after == Dict(s.m[key := v])
  {
    match s
    case EmptyList => Step(s, Some(TypeError))
    case Dict(m) => Step(Dict(m[key := v]), None)
  }

  /**
   What `update_state(a)` amounts to: a dict is merged into a dict state,
   its values winning; on the `[]` state a non-empty dict raises `TypeError`
   at the first key, before anything is stored, while an empty one changes
   nothing; any other argument resets the state to `[]`.
   */
  function Merged(s: State, a: Arg): Step<State>
  {
    match a
    case NotDict => Step(EmptyList, None)
    case DictArg(d) =>
      match s
      case EmptyList => if d == map[] then Step(s, None) else Step(s, Some(TypeError))
      case Dict(m) => Step(Dict(m + d), None)
  }

  /**
   `update_state(a)`, one key of `a` after the other as the `for` loop takes
   them (the order of a map's keys is left open: the result does not depend
   on it). The `except KeyError` branch is never taken, since `Assign` never
   raises `KeyError`.
   */
  method UpdateState(s: State, a: Arg) returns (r: Step<State>)
    ensures r == Merged(s, a)
    ensures r.raised.Some? ==> r.raised == Some(TypeError) && r.after == s
    ensures a.DictArg? && s.Dict? ==> r.after.Dict? && r.after.m.Keys == s.m.Keys + a.d.Keys
    ensures a.DictArg? && s.Dict? ==> forall k :: k in a.d ==> r.after.m[k] == a.d[k]
    ensures a.DictArg? && s.Dict? ==> forall k :: k in s.m && k !in a.d ==> r.after.m[k] == s.m[k]
  {
    if a.NotDict? {
      return Step(EmptyList, None);
    }
    var d := a.d;
    var state := s;
    var todo := d.Keys;
    while todo != {}
      invariant todo <= d.Keys
      invariant s.EmptyList? ==> state == s && todo == d.Keys
      invariant s.Dict? ==> state.Dict? && state.m.Keys == s.m.Keys + (d.Keys - todo)
      invariant s.Dict? ==> forall k :: k in d && k !in todo ==> state.m[k] == d[k]
      invariant s.Dict? ==> forall k :: k in s.m && (k !in d || k in todo) ==> state.m[k] == s.m[k]
      decreases todo
    {
      var key :| key in todo;
      var step := Assign(state, key, d[key]);
      if step.raised.Some? {
        assert d != map[] by { assert key in d; }
        return step;
      }
      state := step.after;
      todo := todo - {key};
    }
    if s.Dict? {
      assert state.m == s.m + d;
    } else {
      assert d == map[] by { assert d.Keys == {}; }
    }
    return Step(state, None);
  }

  /** After `set_state(d)` with a dict, `get_state()` returns exactly `d`. */
  lemma SetThenGet(s: State, d: Dict)
    ensures GetState(SetState(s, DictArg(d))) == Dict(d)
  {
  }

  /** Setting the same argument twice is setting it once. */
  lemma SetStateIdempotent(s: State, a: Arg)
    ensures SetState(SetState(s, a), a) == SetState(s, a)
  {
  }

  /** `delete_state` puts back the constructor's state and a second delete changes nothing. */
  lemma DeleteStateIdempotent(s: State)
    ensures DeleteState(s) == Init()
    ensures DeleteState(DeleteState(s)) == DeleteState(s)
  {
  }

  /** Merging the same dict twice is merging it once; the second merge never raises. */
  lemma UpdateIdempotent(s: State, d: Dict)
    ensures Merged(Merged(s, DictArg(d)).after, DictArg(d)) == Merged(s, DictArg(d))
  {
    if s.Dict? {
      var m := s.m;
      assert (m + d) + d == m + d;
    }
  }

  /**
   On a fresh object `update_state` with a non-empty dict raises `TypeError`,
   so a noun must `set_state` a dict before it can be updated.
   */
  lemma UpdateOnFreshFails(d: Dict)
    requires d != map[]
    ensures Merged(Init(), DictArg(d)) == Step(Init(), Some(TypeError))
  {
  }

  /** Once the state is a dict, `update_state` with a dict never raises and `set_state(d)` then `update_state(d)` equals `set_state(d)`. */
  lemma SetThenUpdate(s: State, d: Dict)
    ensures Merged(SetState(s, DictArg(d)), DictArg(d)) == Step(Dict(d), None)
  {
    assert d + d == d;
  }
}
