/** The writable request wrapper of the portal: it copies the wrapped request's parameters into
    a map of its own when it is built, and from then on lets the portal add, replace and delete
    parameters and parameter values without touching the wrapped request. */
module PortalRequest {
  import opened Wrappers
  import opened ParameterMaps

  /** The exception `Validate` throws before any state changes. */
  datatype Error = IllegalArgument(message: string)

  /** A Java `String[]` whose elements may be `null` (`None`) is free of nulls. */
  predicate NoNullElements(values: seq<Option<string>>): (r: bool)
    ensures r <==> None !in values
  {
    forall i :: 0 <= i < |values| ==> values[i].Some?
  }

  /** The strings of a null-free Java `String[]`, element for element. */
  function Unwrapped(values: seq<Option<string>>): (r: seq<string>)
    requires NoNullElements(values)
    ensures |r| == |values|
    ensures forall i :: 0 <= i < |r| ==> values[i] == Some(r[i])
  {
    if values == [] then [] else [values[0].value] + Unwrapped(values[1..])
  }

  class PortalHttpServletRequest {
    /** The request parameters: name to values in order. */
    var params: ParameterMap

    /** Seeds the parameters with exactly the wrapped request's entries. In the model the map
        is a value, so later changes to either side are not seen by the other. */
    constructor (requestParameters: ParameterMap)
      ensures params == requestParameters
    {
      params := requestParameters;
    }

    /** Appends `value` to the values of `name`; reports whether `name` was bound before. */
    method AddParameterValue(name: string, value: string) returns (existed: bool)
      modifies this
      ensures existed == (name in old(params))
      ensures params == Appended(old(params), name, value)
    {
      var currentValues := if name in params then Some(params[name]) else None;
      var newValues;
      if currentValues.None? {
        newValues := [value];
      } else {
        newValues := currentValues.value + [value];
      }
      params := params[name := newValues];
      existed := currentValues.Some?;
    }

    /** Binds `name` to the single value `value`; reports whether `name` was bound before. */
    method SetParameterValue(name: string, value: string) returns (existed: bool)
      modifies this
      ensures existed == (name in old(params))
      ensures params == Replaced(old(params), name, [value])
    {
      existed := name in params;
      params := params[name := [value]];
    }

    /** Binds `name` to `values` as given; reports whether `name` was bound before. An array
        with a null element is refused before anything changes. */
    method SetParameterValues(name: string, values: seq<Option<string>>) returns (r: Result<bool, Error>)
      modifies this
      ensures !NoNullElements(values) ==>
                r == Failure(IllegalArgument("values can not contain null elements")) && params == old(params)
      ensures NoNullElements(values) ==>
                r == Success(name in old(params)) && params == Replaced(old(params), name, Unwrapped(values))
    {
      if !NoNullElements(values) {
        return Failure(IllegalArgument("values can not contain null elements"));
      }
      var existed := name in params;
      params := params[name := Unwrapped(values)];
      r := Success(existed);
    }

    /** Unbinds `name`; reports whether it was bound before. */
    method DeleteParameter(name: string) returns (existed: bool)
      modifies this
      ensures existed == (name in old(params))
      ensures params == Removed(old(params), name)
    {
      existed := name in params;
      params := params - {name};
    }

    /** Drops every occurrence of `value` from the values of `name`, keeping `name` bound even
        when no value is left; reports whether anything was dropped. An unbound `name` is left
        alone and reported as unchanged. */
    method DeleteParameterValue(name: string, value: string) returns (removed: bool)
      modifies this
      ensures removed <==> name in old(params) && value in old(params)[name]
      ensures params == ValueRemoved(old(params), name, value)
    {
      if name !in params {
        return false;
      }
      var currentValues := params[name];
      var newValues: seq<string> := [];
      var i := 0;
      while i < |currentValues|
        invariant 0 <= i <= |currentValues|
        invariant newValues == Without(currentValues[..i], value)
        invariant params == old(params)
      {
        var currentValue := currentValues[i];
        if currentValue != value {
          newValues := newValues + [currentValue];
        }
        assert currentValues[..i + 1] == currentValues[..i] + [currentValue];
        WithoutDistributes(currentValues[..i], [currentValue], value);
        i := i + 1;
      }
      assert currentValues[..i] == currentValues;
      params := params[name := newValues];
      WithoutShrinks(currentValues, value);
      removed := |currentValues| != |newValues|;
    }

    /** The first value of `name`; none when `name` is unbound or bound to no value. */
    function GetParameter(name: string): (r: Option<string>)
      reads this
      ensures r.Some? <==> name in params && |params[name]| > 0
      ensures r.Some? ==> r.value == params[name][0]
    {
      var values := GetParameterValues(name);
      if values.Some? && |values.value| > 0 then Some(values.value[0]) else None
    }

    /** All values of `name` in order; none when `name` is unbound. */
    function GetParameterValues(name: string): (r: Option<seq<string>>)
      reads this
      ensures r.Some? <==> name in params
      ensures r.Some? ==> r.value == params[name]
    {
      if name in params then Some(params[name]) else None
    }

    /** The bound names: exactly those that have values to look up. */
    function GetParameterNames(): (names: set<string>)
      reads this
      ensures forall n :: n in names <==> GetParameterValues(n).Some?
    {
      params.Keys
    }

    /** The whole map, consistent with the single-name lookups. */
    function GetParameterMap(): (m: ParameterMap)
      reads this
      ensures m.Keys == GetParameterNames()
      ensures forall n :: n in m ==> GetParameterValues(n) == Some(m[n])
    {
      params
    }
  }
}
