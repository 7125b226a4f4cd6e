/**
 The earlier draft of the base class, api/base.py. Its constructor binds
 `_state_attributes` as a local variable, so a fresh object has no state
 attribute at all until `set_state` stores one; `set_state` replaces the
 state and ignores its `selector`; `get_state` is declared without `self`.

 The class derives from `ABC` with `get_state` and `set_state` abstract, so
 it is never instantiated itself: what follows is the base behaviour a
 subclass reaches through `super().__init__()`, `super().set_state(...)` and
 `super().get_state()`.
 */
module DraftApiBase {
  import opened PyValues
  import ApiBase

  /** A draft `APIBase` object: its `_state_attributes` attribute, if it has one. */
  datatype Instance = Instance(attrs: Option<ApiBase.State>)

  /** The draft constructor: the assignment only binds a local name, so no attribute is set. */
  function Init(): (i: Instance)
    ensures i.attrs.None?
  {
    Instance(None)
  }

  /**
   `set_state(a, selector)`: a dict becomes the whole state, anything else
   (`None` included) stores `[]`; the selector plays no part.
   */
  function SetState(i: Instance, a: Arg, selector: Arg): (r: Instance)
    ensures r.attrs.Some?
    ensures a.DictArg? ==> r.attrs.value == ApiBase.Dict(a.d)
    ensures a.NotDict? ==> r.attrs.value == ApiBase.EmptyList
    ensures r.attrs.value == ApiBase.SetState(ApiBase.Init(), a)
  {
    match a
    case DictArg(d) => Instance(Some(ApiBase.Dict(d)))
    case NotDict => Instance(Some(ApiBase.EmptyList))
  }

  /**
   `obj.get_state()`: the method is declared as `get_state(selector=[])`, so
   the object itself is bound to `selector` and the body's `self` is an
   unbound name.
   */
  function GetState(i: Instance): (r: Result<ApiBase.State>)
    ensures r == Raised(NameError)
  {
    Raised(NameError)
  }

  /** The selector never matters, and the draft agrees with the final `set_state` whatever the prior state. */
  lemma SelectorIgnored(i: Instance, a: Arg, sel1: Arg, sel2: Arg)
    ensures SetState(i, a, sel1) == SetState(i, a, sel2)
    ensures forall s :: SetState(i, a, sel1).attrs.value == ApiBase.SetState(s, a)
  {
  }
}
