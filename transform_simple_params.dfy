/**
  The controller of a transformation's simple-parameter form
  (`TransformSimpleParamsCtrl`). On creation it walks the parameter list
  twice, in place: the first pass adapts the initial value and settles
  `value` from `value` or `default`, the second derives each input type.
  The converter service is given as two functions: `adaptValue(type, v)` and
  `toInputType(type)`; their behaviour is not part of this model.
 */
module TransformSimpleParams {
  import opened Wrappers

  /** One parameter record; `None` is `undefined`. */
  datatype Param<V> = Param(
    name: string,
    paramType: string,
    initialValue: Option<V>,
    value: Option<V>,
    default: Option<V>,
    inputType: Option<string>)

  /** What the first pass makes of one parameter. */
  function AdaptValues<V>(p: Param<V>, adaptValue: (string, V) -> V): (r: Param<V>)
    ensures r.name == p.name && r.paramType == p.paramType && r.inputType == p.inputType
    ensures p.initialValue.None? ==> r.initialValue.None?
    ensures p.initialValue.Some? ==> r.initialValue == Some(adaptValue(p.paramType, p.initialValue.value))
    ensures p.value.Some? ==> r.value == Some(adaptValue(p.paramType, p.value.value)) && r.default == p.default
    ensures p.value.None? && p.default.Some? ==>
      r.default == Some(adaptValue(p.paramType, p.default.value)) && r.value == r.default
    ensures p.value.None? && p.default.None? ==> r.value.None? && r.default.None?
    ensures r.value.Some? <==> p.value.Some? || p.default.Some?
  {
    var initialValue := if p.initialValue.Some? then Some(adaptValue(p.paramType, p.initialValue.value)) else None;
    if p.value.Some? then
      p.(initialValue := initialValue, value := Some(adaptValue(p.paramType, p.value.value)))
    else if p.default.Some? then
      var d := Some(adaptValue(p.paramType, p.default.value));
      p.(initialValue := initialValue, default := d, value := d)
    else
      p.(initialValue := initialValue)
  }

  /** What the second pass makes of one parameter. */
  function WithInputType<V>(p: Param<V>, toInputType: string -> string): (r: Param<V>)
    ensures r.inputType == Some(toInputType(p.paramType))
    ensures r.(inputType := p.inputType) == p
  {
    p.(inputType := Some(toInputType(p.paramType)))
  }

  /** The two passes touch disjoint fields, so running the value pass first
      does not affect the input types, and the other order would give the
      same parameters. */
  lemma PassesCommute<V>(p: Param<V>, adaptValue: (string, V) -> V, toInputType: string -> string)
    ensures WithInputType(AdaptValues(p, adaptValue), toInputType) ==
      AdaptValues(WithInputType(p, toInputType), adaptValue)
    ensures WithInputType(AdaptValues(p, adaptValue), toInputType).inputType == Some(toInputType(p.paramType))
  {
  }

  /** When the converter is idempotent on every type, a second initialisation
      of the same records (a form opened again) changes nothing. */
  lemma ReinitializeStable<V>(p: Param<V>, adaptValue: (string, V) -> V, toInputType: string -> string)
    requires forall t, v :: adaptValue(t, adaptValue(t, v)) == adaptValue(t, v)
    ensures
      var once := WithInputType(AdaptValues(p, adaptValue), toInputType);
      WithInputType(AdaptValues(once, adaptValue), toInputType) == once
  {
  }

  class TransformSimpleParamsCtrl<V> {
    const parameters: array<Param<V>>
    const adaptValue: (string, V) -> V
    const toInputType: string -> string

    /** The controller runs `initParamsValues` and then `initInputTypes` on the
        bound parameter list. */
    constructor (parameters: array<Param<V>>, adaptValue: (string, V) -> V, toInputType: string -> string)
      modifies parameters
      ensures this.parameters == parameters
      ensures this.adaptValue == adaptValue && this.toInputType == toInputType
      ensures forall i :: 0 <= i < parameters.Length ==>
        parameters[i] == WithInputType(AdaptValues(old(parameters[i]), adaptValue), toInputType)
    {
      this.parameters := parameters;
      this.adaptValue := adaptValue;
      this.toInputType := toInputType;
      new;
      InitParamsValues();
      InitInputTypes();
    }

    /** First pass: adapt `initialValue`; adapt `value` if defined, or else
        adapt `default` and copy it into `value`. */
    method InitParamsValues()
      modifies parameters
      ensures forall i :: 0 <= i < parameters.Length ==>
        parameters[i] == AdaptValues(old(parameters[i]), adaptValue)
    {
      for i := 0 to parameters.Length
        invariant forall j :: 0 <= j < i ==> parameters[j] == AdaptValues(old(parameters[j]), adaptValue)
        invariant forall j :: i <= j < parameters.Length ==> parameters[j] == old(parameters[j])
      {
        var param := parameters[i];
        if param.initialValue.Some? {
          param := param.(initialValue := Some(adaptValue(param.paramType, param.initialValue.value)));
        }
        if param.value.Some? {
          param := param.(value := Some(adaptValue(param.paramType, param.value.value)));
        } else if param.default.Some? {
          param := param.(default := Some(adaptValue(param.paramType, param.default.value)));
          param := param.(value := param.default);
        }
        parameters[i] := param;
      }
    }

    /** Second pass: every parameter gets the input type of its type. */
    method InitInputTypes()
      modifies parameters
      ensures forall i :: 0 <= i < parameters.Length ==>
        parameters[i] == WithInputType(old(parameters[i]), toInputType)
    {
      for i := 0 to parameters.Length
        invariant forall j :: 0 <= j < i ==> parameters[j] == WithInputType(old(parameters[j]), toInputType)
        invariant forall j :: i <= j < parameters.Length ==> parameters[j] == old(parameters[j])
      {
        var param := parameters[i];
        parameters[i] := param.(inputType := Some(toInputType(param.paramType)));
      }
    }
  }
}
