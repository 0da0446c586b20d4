/**
 * The scale type of a chart axis: `NULL` (the default, whose name is
 * `null`), `LOG` and `MIRROR_LOG`.
 */
module AxisScaleTypeEnum {
  import opened JavaLang
  import EnumLookup

  datatype AxisScaleType = NULL | LOG | MIRROR_LOG

  /** `AxisScaleType.values()`: every constant once, in declaration order; `NULL` comes first. */
  const Values: seq<AxisScaleType> := [NULL, LOG, MIRROR_LOG]

  /** The option-name string each constant was constructed with; only `NULL`'s is `null`. */
  function GetName(t: AxisScaleType): (r: JString)
    ensures r.None? <==> t == NULL
  {
    match t
    case NULL => None
    case LOG => Some("log")
    case MIRROR_LOG => Some("mirrorLog")
  }

  /** The three names, `null` included, are pairwise distinct. */
  lemma NamesDistinct(a: AxisScaleType, b: AxisScaleType)
    ensures GetName(a) == GetName(b) <==> a == b
  {
  }

  lemma ValuesWellFormed()
    ensures forall t :: t in Values
    ensures EnumLookup.DistinctNames(Values, GetName)
    ensures Values[0] == NULL && GetName(Values[0]).None?
  {
    forall t ensures t in Values {
      match t
      case NULL => assert Values[0] == t;
      case LOG => assert Values[1] == t;
      case MIRROR_LOG => assert Values[2] == t;
    }
  }

  /**
   * What `findByName(name)` does as written: the first constant visited is
   * `NULL`, calling `equals` on its `null` name throws, so every call throws
   * and neither a constant nor the final `null` is ever returned.
   */
  function Lookup(name: JString): (r: Outcome<Option<AxisScaleType>>)
    ensures r == ThrewNullPointer
  {
    ValuesWellFormed();
    EnumLookup.ThrowsIffNullNameReachedFirst(Values, GetName, EnumLookup.ReceiverEquals, name);
    EnumLookup.FirstMatch(Values, GetName, EnumLookup.ReceiverEquals, name)
  }

  /** `AxisScaleType.findByName` as written: the loop comparing with `getName().equals(name)`. */
  method FindByName(name: JString) returns (r: Outcome<Option<AxisScaleType>>)
    ensures r == Lookup(name)
    ensures r == ThrewNullPointer
  {
    r := EnumLookup.FindByName(Values, GetName, EnumLookup.ReceiverEquals, name);
  }

  /**
   * The documented promise, "an AxisScaleType corresponding to the provided
   * name", fails for every constant: no name finds its constant, so even
   * `findByName("log")` does not return `LOG`.
   */
  lemma DocumentedPromiseFails(t: AxisScaleType)
    ensures Lookup(GetName(t)) != Returned(Some(t))
  {
  }

  /**
   * The corrected lookup, comparing with `Objects.equals(getName(), name)`:
   * it never throws and returns a constant `t` exactly when `name` is `t`'s
   * name, so `null` finds `NULL` and unknown strings yield `null`.
   */
  function LookupNullSafe(name: JString): (r: Outcome<Option<AxisScaleType>>)
    ensures r.Returned?
    ensures forall t :: r.value == Some(t) <==> name == GetName(t)
  {
    ValuesWellFormed();
    EnumLookup.NoThrowWithoutNullNames(Values, GetName, EnumLookup.NullSafeEquals, name);
    EnumLookup.MissIffAbsent(Values, GetName, EnumLookup.NullSafeEquals, name);
    EnumLookup.FirstMatch(Values, GetName, EnumLookup.NullSafeEquals, name)
  }

  /** The corrected `findByName`: the same loop with the null-safe comparison. */
  method FindByNameNullSafe(name: JString) returns (r: Outcome<Option<AxisScaleType>>)
    ensures r == LookupNullSafe(name)
    ensures r.Returned? && forall t :: r.value == Some(t) <==> name == GetName(t)
  {
    r := EnumLookup.FindByName(Values, GetName, EnumLookup.NullSafeEquals, name);
  }

  /** Round trip for the corrected lookup, `NULL` included. */
  lemma NullSafeRoundTrip(t: AxisScaleType)
    ensures LookupNullSafe(GetName(t)) == Returned(Some(t))
  {
  }

  /** The corrected lookup is case-sensitive: an identifier spelling is not a name. */
  lemma NullSafeNonNamesMiss()
    ensures LookupNullSafe(Some("LOG")) == Returned(None)
    ensures LookupNullSafe(Some("mirrorlog")) == Returned(None)
  {
  }
}
