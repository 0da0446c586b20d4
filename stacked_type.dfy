/** The stacked type of a chart: `PERCENT`, `RELATIVE` or `ABSOLUTE`. */
module StackedTypeEnum {
  import opened JavaLang
  import EnumLookup

  datatype StackedType = PERCENT | RELATIVE | ABSOLUTE

  /** `StackedType.values()`: every constant once, in declaration order. */
  const Values: seq<StackedType> := [PERCENT, RELATIVE, ABSOLUTE]

  /** The option-name string each constant was constructed with; never `null`. */
  function GetName(t: StackedType): (r: JString)
    ensures r.Some?
  {
    match t
    case PERCENT => Some("percent")
    case RELATIVE => Some("relative")
    case ABSOLUTE => Some("absolute")
  }

  /** `getName` is injective: distinct constants carry distinct names. */
  lemma NamesDistinct(a: StackedType, b: StackedType)
    ensures GetName(a) == GetName(b) <==> a == b
  {
  }

  lemma ValuesWellFormed()
    ensures forall t :: t in Values
    ensures EnumLookup.AllNamed(Values, GetName)
    ensures EnumLookup.DistinctNames(Values, GetName)
  {
    forall t ensures t in Values {
      match t
      case PERCENT => assert Values[0] == t;
      case RELATIVE => assert Values[1] == t;
      case ABSOLUTE => assert Values[2] == t;
    }
  }

  /**
   * What `findByName(name)` does: it never throws, and it returns a constant
   * `t` exactly when `name` is `t`'s name, so `null`, unknown names and the
   * identifier spellings yield `null`.
   */
  function Lookup(name: JString): (r: Outcome<Option<StackedType>>)
    ensures r.Returned?
    ensures forall t :: r.value == Some(t) <==> name == GetName(t)
  {
    ValuesWellFormed();
    EnumLookup.NoThrowWithoutNullNames(Values, GetName, EnumLookup.ReceiverEquals, name);
    EnumLookup.MissIffAbsent(Values, GetName, EnumLookup.ReceiverEquals, name);
    EnumLookup.FirstMatch(Values, GetName, EnumLookup.ReceiverEquals, name)
  }

  /** `StackedType.findByName`: the loop over `values()` comparing with `getName().equals(name)`. */
  method FindByName(name: JString) returns (r: Outcome<Option<StackedType>>)
    ensures r == Lookup(name)
    ensures r.Returned? && forall t :: r.value == Some(t) <==> name == GetName(t)
  {
    r := EnumLookup.FindByName(Values, GetName, EnumLookup.ReceiverEquals, name);
  }

  /** Round trip: looking up a constant's name gives back that constant. */
  lemma RoundTrip(t: StackedType)
    ensures Lookup(GetName(t)) == Returned(Some(t))
  {
  }

  /** Identifier spellings, other strings and `null` are not names. */
  lemma NonNamesMiss()
    ensures Lookup(Some("PERCENT")) == Returned(None)
    ensures Lookup(Some("stacked")) == Returned(None)
    ensures Lookup(None) == Returned(None)
  {
  }
}
