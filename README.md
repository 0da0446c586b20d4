# gwt-charts option enums in Dafny

This project models the option enums of the gwt-charts bindings: `StackedType`,
`AxisScaleType` and `MaterialBarsOrientation`. Each enum pairs a fixed set of
constants with the option-name string that the charting library expects.
`getName()` maps a constant to its name. The static `findByName(name)` method
goes through `values()` in declaration order. It returns the first constant
for which `getName().equals(name)` holds, or `null` once the loop finishes.

How the model is laid out:

- `JavaLang` (java_lang.dfy) holds the Java semantics the enums use. A
  `String` reference is `JString = Option<string>`, where `None` stands for
  `null`. A call either `Returned` a value or `ThrewNullPointer`.
  `String.equals` throws on a `null` receiver and returns false for a `null`
  argument. `Objects.equals` is null-safe.
- `EnumLookup` (enum_lookup.dfy) holds the lookup loop that all three enums
  share. `FindByName` is the for-each loop with early return. `FirstMatch` is
  the function that specifies it. The lemmas describe the function completely:
  - when the loop throws;
  - that a returned constant is the first match;
  - when the loop returns `null`;
  - the round trip.
- `StackedTypeEnum`, `AxisScaleTypeEnum` and `MaterialBarsOrientationEnum`
  have one module per source file. Each has:
  - a datatype of the constants;
  - `Values`, the constants in declaration order;
  - `GetName`;
  - `Lookup`, which says what `findByName` returns;
  - the `FindByName` method, proved equal to `Lookup`.

## Model

| member | source | states |
|---|---|---|
| `JavaLang.StringEquals` | gwt-charts/src/main/java/com/googlecode/gwt/charts/client/options/StackedType.java:42 | `getName().equals(name)` throws exactly when the receiver name is null; otherwise it is true exactly when the argument is the same string, so `equals(null)` is false |
| `JavaLang.ObjectsEquals` | gwt-charts/src/main/java/com/googlecode/gwt/charts/client/options/AxisScaleType.java:40 | the null-safe comparison used by the corrected AxisScaleType lookup never throws and is true exactly when both references are equal (two nulls included) |
| `EnumLookup.Compare` | gwt-charts/src/main/java/com/googlecode/gwt/charts/client/options/MaterialBarsOrientation.java:36 | the loop's condition throws exactly when the receiver-side `equals` meets a null constant name; otherwise it holds exactly when the constant's name equals the argument |
| `EnumLookup.FirstMatch` | gwt-charts/src/main/java/com/googlecode/gwt/charts/client/options/StackedType.java:40-47 | a constant the lookup returns is one of `values()` and its name equals the requested name |
| `EnumLookup.FindByName` | gwt-charts/src/main/java/com/googlecode/gwt/charts/client/options/StackedType.java:41-46 | the for-each loop with early return computes exactly `FirstMatch` (return, throw or final `null`) |
| `EnumLookup.NoThrowWithoutNullNames` | gwt-charts/src/main/java/com/googlecode/gwt/charts/client/options/MaterialBarsOrientation.java:35-40 | the loop cannot throw when every constant has a non-null name, or when the comparison is null-safe |
| `EnumLookup.ThrowsIffNullNameReachedFirst` | gwt-charts/src/main/java/com/googlecode/gwt/charts/client/options/AxisScaleType.java:39-41 | with `getName().equals(name)`, the loop throws if and only if some constant with a null name comes before every constant whose name matches |
| `EnumLookup.ReturnsFirstMatch` | gwt-charts/src/main/java/com/googlecode/gwt/charts/client/options/StackedType.java:41-44 | a returned constant is the first one in declaration order whose name equals the argument |
| `EnumLookup.MissIffAbsent` | gwt-charts/src/main/java/com/googlecode/gwt/charts/client/options/StackedType.java:41-46 | the loop returns `null` if and only if it cannot throw (every name non-null, or the null-safe comparison) and no constant carries the requested name |
| `EnumLookup.RoundTrip` | gwt-charts/src/main/java/com/googlecode/gwt/charts/client/options/MaterialBarsOrientation.java:34-41 | with distinct names and no throw, looking up a constant's own name returns that constant |
| `StackedTypeEnum.GetName` | gwt-charts/src/main/java/com/googlecode/gwt/charts/client/options/StackedType.java:23-32 | every StackedType's name, fixed at construction, is non-null |
| `StackedTypeEnum.NamesDistinct` | gwt-charts/src/main/java/com/googlecode/gwt/charts/client/options/StackedType.java:23-32 | "percent", "relative" and "absolute" are pairwise distinct, so `getName` is injective |
| `StackedTypeEnum.ValuesWellFormed` | gwt-charts/src/main/java/com/googlecode/gwt/charts/client/options/StackedType.java:41 | `values()` lists every constant, all names are non-null and no two positions share a name |
| `StackedTypeEnum.Lookup` | gwt-charts/src/main/java/com/googlecode/gwt/charts/client/options/StackedType.java:34-47 | `findByName` never throws, and it returns `t` exactly when the argument is `t`'s name; any other string or null gives null |
| `StackedTypeEnum.FindByName` | gwt-charts/src/main/java/com/googlecode/gwt/charts/client/options/StackedType.java:40-47 | the method's result is `Lookup(name)`: no throw, and `t` is returned exactly when the argument is `t`'s name |
| `StackedTypeEnum.RoundTrip` | gwt-charts/src/main/java/com/googlecode/gwt/charts/client/options/StackedType.java:40-47 | `findByName(getName(t)) == t` for every constant |
| `StackedTypeEnum.NonNamesMiss` | gwt-charts/src/main/java/com/googlecode/gwt/charts/client/options/StackedType.java:41-46 | the identifier spelling "PERCENT", an unknown string and null all give null |
| `MaterialBarsOrientationEnum.GetName` | gwt-charts/src/main/java/com/googlecode/gwt/charts/client/options/MaterialBarsOrientation.java:22-26 | both constants' names, fixed at construction, are non-null |
| `MaterialBarsOrientationEnum.NamesDistinct` | gwt-charts/src/main/java/com/googlecode/gwt/charts/client/options/MaterialBarsOrientation.java:22-26 | "vertical" and "horizontal" differ, so `getName` is injective |
| `MaterialBarsOrientationEnum.ValuesWellFormed` | gwt-charts/src/main/java/com/googlecode/gwt/charts/client/options/MaterialBarsOrientation.java:35 | `values()` lists both constants, with non-null and distinct names |
| `MaterialBarsOrientationEnum.Lookup` | gwt-charts/src/main/java/com/googlecode/gwt/charts/client/options/MaterialBarsOrientation.java:28-41 | `findByName` never throws, and it returns `o` exactly when the argument is `o`'s name; otherwise it returns null |
| `MaterialBarsOrientationEnum.FindByName` | gwt-charts/src/main/java/com/googlecode/gwt/charts/client/options/MaterialBarsOrientation.java:34-41 | the method's result is `Lookup(name)`: no throw, and `o` is returned exactly when the argument is `o`'s name |
| `MaterialBarsOrientationEnum.RoundTrip` | gwt-charts/src/main/java/com/googlecode/gwt/charts/client/options/MaterialBarsOrientation.java:34-41 | `findByName(getName(o)) == o` for both constants |
| `MaterialBarsOrientationEnum.CaseSensitive` | gwt-charts/src/main/java/com/googlecode/gwt/charts/client/options/MaterialBarsOrientation.java:36 | the comparison is exact: "VERTICAL", "Horizontal" and null give null |
| `AxisScaleTypeEnum.GetName` | gwt-charts/src/main/java/com/googlecode/gwt/charts/client/options/AxisScaleType.java:22-30 | a constant's name is null exactly for `NULL` ("log" and "mirrorLog" otherwise) |
| `AxisScaleTypeEnum.NamesDistinct` | gwt-charts/src/main/java/com/googlecode/gwt/charts/client/options/AxisScaleType.java:22-30 | null, "log" and "mirrorLog" are pairwise distinct |
| `AxisScaleTypeEnum.ValuesWellFormed` | gwt-charts/src/main/java/com/googlecode/gwt/charts/client/options/AxisScaleType.java:39 | `values()` lists every constant, with `NULL` (null name) visited first and distinct names |
| `AxisScaleTypeEnum.Lookup` | gwt-charts/src/main/java/com/googlecode/gwt/charts/client/options/AxisScaleType.java:38-45 | as written, `findByName` throws a NullPointerException for every argument, so the final `return null` is unreachable |
| `AxisScaleTypeEnum.FindByName` | gwt-charts/src/main/java/com/googlecode/gwt/charts/client/options/AxisScaleType.java:38-45 | the method's result is `Lookup(name)`, which is always the null-pointer throw |
| `AxisScaleTypeEnum.DocumentedPromiseFails` | gwt-charts/src/main/java/com/googlecode/gwt/charts/client/options/AxisScaleType.java:32-37 | the doc-comment's "an AxisScaleType corresponding to the provided name" fails for every constant, "log" included |
| `AxisScaleTypeEnum.LookupNullSafe` | gwt-charts/src/main/java/com/googlecode/gwt/charts/client/options/AxisScaleType.java:32-45 | the corrected lookup never throws, and it returns `t` exactly when the argument is `t`'s name, so null finds `NULL` |
| `AxisScaleTypeEnum.FindByNameNullSafe` | gwt-charts/src/main/java/com/googlecode/gwt/charts/client/options/AxisScaleType.java:38-45 | the corrected loop computes `LookupNullSafe`: no throw, and `t` is returned exactly when the argument is `t`'s name |
| `AxisScaleTypeEnum.NullSafeRoundTrip` | gwt-charts/src/main/java/com/googlecode/gwt/charts/client/options/AxisScaleType.java:32-37 | for the corrected lookup, `findByName(getName(t)) == t` for all three constants |
| `AxisScaleTypeEnum.NullSafeNonNamesMiss` | gwt-charts/src/main/java/com/googlecode/gwt/charts/client/options/AxisScaleType.java:40 | the corrected lookup still compares exactly: "LOG" and "mirrorlog" give null |

## Findings

| source | as written | input that shows it | evidently intended | confidence | as-written member | corrected member |
|---|---|---|---|---|---|---|
| gwt-charts/src/main/java/com/googlecode/gwt/charts/client/options/AxisScaleType.java:38-45 | `axisScaleType.getName().equals(name)` is called first on `NULL`, whose name is null, so it throws | `findByName("log")` (any argument at all) | return the constant whose name matches, comparing null-safely as `Objects.equals(getName(), name)` does, so `"log"` gives `LOG` and `null` gives `NULL` | high; not executed | `AxisScaleTypeEnum.DocumentedPromiseFails` | `AxisScaleTypeEnum.LookupNullSafe` |

The corrected lookup maps a `null` argument to `NULL`, because that constant's
name is `null`. Another possible fix is to skip the null-named constant. With
that fix, `null` would give `null` and all other results would stay the same.

## Left out

- `ChartWrapperWidget` only forwards to a native chart object, which is not part of this model. That covers option get/set with dotted keys, event handlers, drawing, serialisation and cloning. It also creates DOM elements and assigns their ids. The nested, dotted-key option store itself belongs to the external charting library, so no source defines its behaviour.
- `ScatterChartSeries` makes four JSNI property assignments on a JavaScript object. These are foreign calls with no logic of their own.
- `ColumnFunction` is an interface with one abstract method and no body.
- The enums' compiler-generated members (`valueOf`, `ordinal`, `name()`) are not modelled. Only `values()` is used, as the `Values` sequence in declaration order.
- Java strings are modelled as `seq<char>` with equality by content. UTF-16 encoding details play no part in `equals`.
