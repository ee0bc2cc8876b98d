/** The request-parameter map of a portal request, as a value: every parameter name is bound
    to the ordered sequence of its values. The functions here specify the five mutators of
    PortalRequest.PortalHttpServletRequest; the lemmas state what those mutators promise,
    alone and in sequence. */
module ParameterMaps {

  type ParameterMap = map<string, seq<string>>

  /** `m` and `m'` bind every name other than `name` identically (or leave it unbound in both). */
  ghost predicate AgreeOutside(m: ParameterMap, m': ParameterMap, name: string)
  {
    forall k :: k != name ==> (k in m <==> k in m') && (k in m ==> m[k] == m'[k])
  }

  /** The values bound to `name`, the empty sequence when it is unbound. */
  function ValuesOf(m: ParameterMap, name: string): seq<string>
  {
    if name in m then m[name] else []
  }

  // ---------------------------------------------------------------------------------------
  // Filtering one value out of a value sequence (the loop of deleteParameterValue)
  // ---------------------------------------------------------------------------------------

  /** `s` with every element equal to `v` dropped, the survivors kept in their order:
      exactly the elements different from `v` survive. */
  function Without(s: seq<string>, v: string): (r: seq<string>)
    ensures forall x :: x in r <==> x in s && x != v
  {
    if s == [] then []
    else
      assert s == [s[0]] + s[1..];
      (if s[0] == v then [] else [s[0]]) + Without(s[1..], v)
  }

  /** Filtering works piecewise, so the survivors keep their relative order. */
  lemma {:induction false} WithoutDistributes(a: seq<string>, b: seq<string>, v: string)
    ensures Without(a + b, v) == Without(a, v) + Without(b, v)
  {
    if a == [] {
      assert a + b == b;
    } else {
      assert (a + b)[1..] == a[1..] + b;
      WithoutDistributes(a[1..], b, v);
    }
  }

  /** Every occurrence of `v` is removed and every other value keeps its multiplicity. */
  lemma {:induction false} WithoutMultiset(s: seq<string>, v: string)
    ensures multiset(Without(s, v)) == multiset(s)[v := 0]
  {
    if s != [] {
      WithoutMultiset(s[1..], v);
      assert s == [s[0]] + s[1..];
      assert multiset(s) == multiset{s[0]} + multiset(s[1..]);
    }
  }

  /** Filtering never lengthens, and it keeps the length exactly when `v` does not occur. */
  lemma {:induction false} WithoutShrinks(s: seq<string>, v: string)
    ensures |Without(s, v)| <= |s|
    ensures |Without(s, v)| == |s| <==> v !in s
  {
    if s != [] {
      WithoutShrinks(s[1..], v);
      assert s == [s[0]] + s[1..];
    }
  }

  /** Filtering out a value that does not occur changes nothing. */
  lemma {:induction false} WithoutAbsent(s: seq<string>, v: string)
    requires v !in s
    ensures Without(s, v) == s
  {
    if s != [] {
      assert s == [s[0]] + s[1..];
      WithoutAbsent(s[1..], v);
    }
  }

  /** Filtering the same value twice is filtering it once. */
  lemma WithoutIdempotent(s: seq<string>, v: string)
    ensures Without(Without(s, v), v) == Without(s, v)
  {
    WithoutAbsent(Without(s, v), v);
  }

  // ---------------------------------------------------------------------------------------
  // The five mutations of the parameter map
  // ---------------------------------------------------------------------------------------

  /** addParameterValue: `value` becomes the last value of `name`; a name not bound before
      gets the one-element sequence. */
  function Appended(m: ParameterMap, name: string, value: string): (r: ParameterMap)
    ensures r.Keys == m.Keys + {name}
    ensures |r[name]| == |ValuesOf(m, name)| + 1
    ensures r[name][..|r[name]| - 1] == ValuesOf(m, name) && r[name][|r[name]| - 1] == value
    ensures AgreeOutside(m, r, name)
  {
    m[name := ValuesOf(m, name) + [value]]
  }

  /** setParameterValue and setParameterValues: `name` is bound to `values`, whatever it
      held before. */
  function Replaced(m: ParameterMap, name: string, values: seq<string>): (r: ParameterMap)
    ensures r.Keys == m.Keys + {name}
    ensures r[name] == values
    ensures AgreeOutside(m, r, name)
  {
    m[name := values]
  }

  /** deleteParameter: `name` is unbound. */
  function Removed(m: ParameterMap, name: string): (r: ParameterMap)
    ensures r.Keys == m.Keys - {name}
    ensures AgreeOutside(m, r, name)
  {
    m - {name}
  }

  /** deleteParameterValue: every occurrence of `value` leaves the values of a bound `name`;
      the name stays bound even when no value is left; an unbound name changes nothing. */
  function ValueRemoved(m: ParameterMap, name: string, value: string): (r: ParameterMap)
    ensures r.Keys == m.Keys
    ensures name in m ==> value !in r[name] && |r[name]| <= |m[name]|
    ensures name in m ==> forall x :: x != value ==> (x in r[name] <==> x in m[name])
    ensures name in m ==> multiset(r[name]) == multiset(m[name])[value := 0]
    ensures name !in m ==> r == m
    ensures AgreeOutside(m, r, name)
  {
    if name !in m then m
    else
      WithoutShrinks(m[name], value);
      WithoutMultiset(m[name], value);
      m[name := Without(m[name], value)]
  }

  // ---------------------------------------------------------------------------------------
  // What the mutations promise in sequence
  // ---------------------------------------------------------------------------------------

  /** setParameterValue twice with the same arguments leaves the same map, and the second
      call finds the name bound. */
  lemma SetValueTwice(m: ParameterMap, name: string, value: string)
    ensures Replaced(Replaced(m, name, [value]), name, [value]) == Replaced(m, name, [value])
    ensures name in Replaced(m, name, [value])
  {
  }

  /** Setting replaces what was added before: the last write wins. */
  lemma ReplacedOverridesAppended(m: ParameterMap, name: string, value: string, values: seq<string>)
    ensures Replaced(Appended(m, name, value), name, values) == Replaced(m, name, values)
  {
  }

  /** setParameterValue is deleteParameter followed by addParameterValue. */
  lemma SetValueIsDeleteThenAdd(m: ParameterMap, name: string, value: string)
    ensures Replaced(m, name, [value]) == Appended(Removed(m, name), name, value)
  {
  }

  /** Putting back the values a name held before a set restores the map. */
  lemma ReplacedRestores(m: ParameterMap, name: string, values: seq<string>)
    requires name in m
    ensures Replaced(Replaced(m, name, values), name, m[name]) == m
  {
  }

  /** Deleting a name added by addParameterValue, or set by setParameterValue(s), restores a
      map where it was unbound. */
  lemma RemovedUndoesNewName(m: ParameterMap, name: string, value: string, values: seq<string>)
    requires name !in m
    ensures Removed(Appended(m, name, value), name) == m
    ensures Removed(Replaced(m, name, values), name) == m
  {
  }

  /** deleteParameter twice: the second call finds nothing and changes nothing. */
  lemma DeleteTwice(m: ParameterMap, name: string)
    ensures name !in Removed(m, name)
    ensures Removed(Removed(m, name), name) == Removed(m, name)
  {
  }

  /** deleteParameterValue twice: the second call changes nothing (and, as `ValueRemoved`
      leaves no occurrence of `value`, reports that nothing was removed). */
  lemma DeleteValueTwice(m: ParameterMap, name: string, value: string)
    ensures ValueRemoved(ValueRemoved(m, name, value), name, value) == ValueRemoved(m, name, value)
  {
    if name in m {
      WithoutIdempotent(m[name], value);
    }
  }

  /** deleteParameterValue undoes addParameterValue of the same value on a bound name. */
  lemma DeleteValueUndoesAdd(m: ParameterMap, name: string, value: string)
    requires name in m
    ensures ValueRemoved(Appended(m, name, value), name, value) == ValueRemoved(m, name, value)
  {
    var appended := Appended(m, name, value);
    assert appended == m[name := m[name] + [value]];
    WithoutDistributes(m[name], [value], value);
    assert [value][1..] == [];
    assert Without([value], value) == [];
    assert Without(m[name] + [value], value) == Without(m[name], value);
    assert ValueRemoved(appended, name, value) == appended[name := Without(m[name], value)];
    assert appended[name := Without(m[name], value)] == m[name := Without(m[name], value)];
  }

  /** Removing the only value of a name leaves the name bound to the empty sequence. */
  lemma DeleteLastValueKeepsName(m: ParameterMap, name: string, value: string)
    requires name in m && m[name] == [value]
    ensures name in ValueRemoved(m, name, value) && ValueRemoved(m, name, value)[name] == []
  {
    assert Without([value], value) == [] + Without([], value);
  }
}
