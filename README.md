# uPortal writable request parameters, in Dafny

This project models the writable request wrapper of uPortal, `PortalHttpServletRequest`.
When it is built, the wrapper copies the wrapped servlet request's parameters into a map of
its own, from parameter name to the ordered array of that parameter's values. The portal can
then change that map through five operations, each of which returns a boolean:

- add a value to a parameter;
- set a parameter to one value;
- set a parameter to an array of values;
- delete a parameter;
- delete every occurrence of one value from a parameter.

The usual servlet getters read the map.

- `wrappers.dfy` (`Wrappers`): `Option`, which stands for a Java `null`, and `Result`, which
  stands for an exception thrown before any state changes.
- `parameter_maps.dfy` (`ParameterMaps`): the parameter map as a value
  (`map<string, seq<string>>`). It holds one specification function per kind of change (`Replaced` serves both set operations) and the
  filtering function `Without`, which the loop of `deleteParameterValue` computes. Its lemmas
  state what the mutators promise, alone and in sequence: idempotence, last write wins,
  round trips, and what a repeated call returns.
- `portal_request.dfy` (`PortalRequest`): the class `PortalHttpServletRequest`. Its field
  `params` is the parameter map. Each mutator is a method whose postconditions give the new
  map as a specification function of the old one, and the boolean it returns in terms of the
  old map. The getters are functions over `params`. The filtering loop of
  `deleteParameterValue` is kept as a loop and proved against `Without`.

Java's `String[]` becomes `seq<string>`. Every mutator changes only the entry of the name it
is given. This is the `AgreeOutside` postcondition of each specification function.

## Model

| member | source | states |
|---|---|---|
| `ParameterMaps.Without` | uportal-impl/src/main/java/org/jasig/portal/url/PortalHttpServletRequest.java:96-101 | the values the copying loop keeps, in order: a string survives exactly when it was among the values and differs from the removed value; the other properties of this definition are the `Without*` lemmas |
| `ParameterMaps.WithoutDistributes` | uportal-impl/src/main/java/org/jasig/portal/url/PortalHttpServletRequest.java:96-101 | filtering a concatenation is the concatenation of the filtered parts, so the survivors keep their original order |
| `ParameterMaps.WithoutMultiset` | uportal-impl/src/main/java/org/jasig/portal/url/PortalHttpServletRequest.java:96-101 | every occurrence of the removed value goes, and every other value keeps its number of occurrences |
| `ParameterMaps.WithoutShrinks` | uportal-impl/src/main/java/org/jasig/portal/url/PortalHttpServletRequest.java:96-105 | filtering never lengthens the values, and the length stays the same exactly when the removed value does not occur; this is why the returned `length != size` means "something was removed" |
| `ParameterMaps.WithoutAbsent` | uportal-impl/src/main/java/org/jasig/portal/url/PortalHttpServletRequest.java:96-101 | filtering out a value that does not occur gives back the same values |
| `ParameterMaps.WithoutIdempotent` | uportal-impl/src/main/java/org/jasig/portal/url/PortalHttpServletRequest.java:96-101 | filtering the same value twice is filtering it once |
| `ParameterMaps.Appended` | uportal-impl/src/main/java/org/jasig/portal/url/PortalHttpServletRequest.java:52-62 | after an add, the name is bound; its values are the old ones (none for a new name) followed by the added value; every other name is untouched |
| `ParameterMaps.Replaced` | uportal-impl/src/main/java/org/jasig/portal/url/PortalHttpServletRequest.java:66-79 | after a set, the name is bound to exactly the given values; every other name is untouched |
| `ParameterMaps.Removed` | uportal-impl/src/main/java/org/jasig/portal/url/PortalHttpServletRequest.java:81-85 | after a delete, the key set loses exactly that name; every other name is untouched |
| `ParameterMaps.ValueRemoved` | uportal-impl/src/main/java/org/jasig/portal/url/PortalHttpServletRequest.java:87-103 | an unbound name leaves the map as it was; for a bound name the key set is unchanged (the name stays even with no values left), the value no longer occurs, so a repeated call removes nothing, every other value keeps its number of occurrences, and other names are untouched |
| `ParameterMaps.SetValueTwice` | uportal-impl/src/main/java/org/jasig/portal/url/PortalHttpServletRequest.java:66-71 | setting the same single value twice gives the same map as setting it once, and the second call finds the name bound (returns true) |
| `ParameterMaps.ReplacedOverridesAppended` | uportal-impl/src/main/java/org/jasig/portal/url/PortalHttpServletRequest.java:48-79 | a set after an add discards the added value: the last write wins |
| `ParameterMaps.SetValueIsDeleteThenAdd` | uportal-impl/src/main/java/org/jasig/portal/url/PortalHttpServletRequest.java:48-85 | setting one value is the same as deleting the parameter and then adding that value |
| `ParameterMaps.ReplacedRestores` | uportal-impl/src/main/java/org/jasig/portal/url/PortalHttpServletRequest.java:73-79 | setting a bound name's old values back after a set restores the map |
| `ParameterMaps.RemovedUndoesNewName` | uportal-impl/src/main/java/org/jasig/portal/url/PortalHttpServletRequest.java:48-85 | deleting a name that was unbound before an add or a set restores the map |
| `ParameterMaps.DeleteTwice` | uportal-impl/src/main/java/org/jasig/portal/url/PortalHttpServletRequest.java:81-85 | after a delete the name is unbound, so a second delete returns false and changes nothing |
| `ParameterMaps.DeleteValueTwice` | uportal-impl/src/main/java/org/jasig/portal/url/PortalHttpServletRequest.java:87-106 | deleting the same value twice gives the same map as deleting it once |
| `ParameterMaps.DeleteValueUndoesAdd` | uportal-impl/src/main/java/org/jasig/portal/url/PortalHttpServletRequest.java:48-106 | on a bound name, deleting a value right after adding it gives the same map as deleting it without the add |
| `ParameterMaps.DeleteLastValueKeepsName` | uportal-impl/src/main/java/org/jasig/portal/url/PortalHttpServletRequest.java:96-103 | deleting the only value of a name leaves the name bound to no values; the key is not removed |
| `PortalRequest.NoNullElements` | uportal-impl/src/main/java/org/jasig/portal/url/PortalHttpServletRequest.java:76 | an array passes the null-element check exactly when no element is null |
| `PortalRequest.Unwrapped` | uportal-impl/src/main/java/org/jasig/portal/url/PortalHttpServletRequest.java:76-78 | a null-free array is stored element for element, with the same length |
| `PortalRequest.PortalHttpServletRequest.constructor` | uportal-impl/src/main/java/org/jasig/portal/url/PortalHttpServletRequest.java:38-46 | the parameters are exactly the wrapped request's parameters, no more and no fewer |
| `PortalRequest.PortalHttpServletRequest.AddParameterValue` | uportal-impl/src/main/java/org/jasig/portal/url/PortalHttpServletRequest.java:48-64 | the new map is `Appended` of the old one; the result is true exactly when the name was bound before |
| `PortalRequest.PortalHttpServletRequest.SetParameterValue` | uportal-impl/src/main/java/org/jasig/portal/url/PortalHttpServletRequest.java:66-71 | the new map is the old one with the name bound to the single value; the result is true exactly when the name was bound before |
| `PortalRequest.PortalHttpServletRequest.SetParameterValues` | uportal-impl/src/main/java/org/jasig/portal/url/PortalHttpServletRequest.java:73-79 | an array with a null element is refused with an illegal-argument error, and the map is unchanged; otherwise the name is bound to the array's strings as given, and the result is true exactly when the name was bound before |
| `PortalRequest.PortalHttpServletRequest.DeleteParameter` | uportal-impl/src/main/java/org/jasig/portal/url/PortalHttpServletRequest.java:81-85 | the new map is the old one without the name; the result is true exactly when the name was bound before |
| `PortalRequest.PortalHttpServletRequest.DeleteParameterValue` | uportal-impl/src/main/java/org/jasig/portal/url/PortalHttpServletRequest.java:87-106 | the copying loop leaves the map equal to `ValueRemoved` of the old one; the result is true exactly when the name was bound and the value occurred among its values |
| `PortalRequest.PortalHttpServletRequest.GetParameter` | uportal-impl/src/main/java/org/jasig/portal/url/PortalHttpServletRequest.java:108-119 | there is a result exactly when the name is bound to at least one value, and it is the first value; otherwise null |
| `PortalRequest.PortalHttpServletRequest.GetParameterValues` | uportal-impl/src/main/java/org/jasig/portal/url/PortalHttpServletRequest.java:131-134 | there is a result exactly when the name is bound, and it is that name's values; otherwise null |
| `PortalRequest.PortalHttpServletRequest.GetParameterNames` | uportal-impl/src/main/java/org/jasig/portal/url/PortalHttpServletRequest.java:126-129 | the names are exactly those whose values can be looked up |
| `PortalRequest.PortalHttpServletRequest.GetParameterMap` | uportal-impl/src/main/java/org/jasig/portal/url/PortalHttpServletRequest.java:121-124 | the map's keys are the parameter names, and each entry agrees with the single-name lookup |

## Left out

- `getUserPrincipal` and `getRemoteUser` (PortalHttpServletRequest.java:139-160) are not modelled. They only ask the `IPersonManager` collaborator for the person and test `isGuest()`. That code is not part of this model.
- Java reference aliasing is not modelled. Values are immutable sequences. The model does not capture four effects: the constructor's `putAll` sharing the wrapped request's `String[]` arrays with the wrapper, `getParameterMap` returning the live map, `getParameterValues` returning the stored array, and `setParameterValues` storing the caller's array. `GetParameterMap` returns a snapshot.
- The constructor's argument is a map of non-null names to non-null value sequences without null elements. A servlet container does not produce anything else. A Java seed map holding a null `String[]` or a null element would behave in ways this model cannot show. For example, `getParameter` could return a null first element, and `getParameterNames` could list a name whose `getParameterValues` is null. For a name bound to a null array, `addParameterValue`, `setParameterValue`, `setParameterValues` and `deleteParameter` would return false although the name is listed, and `deleteParameterValue` would return false without replacing the entry. The constructor also drops the `personManager` argument and its `Validate.notNull` check, since that collaborator serves only the left-out principal lookup.
- The `Validate.notNull` checks on `name`, `value` and the `values` array itself are left out. Dafny strings and sequences cannot be null, so these checks cannot fail here. The one null check that can fail on a well-typed argument is modelled: a null element of the array given to `setParameterValues`. Its exception becomes a `Failure` result.
- `deleteParameterValue` compares by identity first and then with `equals`. On immutable strings, identity implies equality, so the model compares by value only.
- The enumeration order of `getParameterNames` is not modelled. It follows `HashMap` iteration order, which is unspecified. The model gives the set of names.
- The servlet wrapper base class `AbstractHttpServletRequestWrapper`, the wrapped request and the servlet container are not part of this model. The wrapped request's parameter map is the constructor's argument.
- The portal-cookie store (`IPortletCookieDao` and its JPA implementation `JpaPortletCookieDaoImpl`) is not modelled. It is a separate persistence component that the request wrapper does not use; `JpaPortletCookieDaoImpl` is not part of this model, and its test `JpaPortletCookieDaoImplTest` is disabled with `@Ignore`.
- `PermissionOwnerPortalDataType` is not modelled. It holds only constant metadata for XML import registration and has no behaviour.
