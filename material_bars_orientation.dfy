/** The orientation of material design bars: `VERTICAL` or `HORIZONTAL`. */
module MaterialBarsOrientationEnum {
  import opened JavaLang
  import EnumLookup

  datatype MaterialBarsOrientation = VERTICAL | HORIZONTAL

  /** `MaterialBarsOrientation.values()`: every constant once, in declaration order. */
  const Values: seq<MaterialBarsOrientation> := [VERTICAL, HORIZONTAL]

  /** The option-name string each constant was constructed with; never `null`. */
  function GetName(o: MaterialBarsOrientation): (r: JString)
    ensures r.Some?
  {
    match o
    case VERTICAL => Some("vertical")
    case HORIZONTAL => Some("horizontal")
  }

  /** `getName` is injective: the two constants carry different names. */
  lemma NamesDistinct(a: MaterialBarsOrientation, b: MaterialBarsOrientation)
    ensures GetName(a) == GetName(b) <==> a == b
  {
  }

  lemma ValuesWellFormed()
    ensures forall o :: o in Values
    ensures EnumLookup.AllNamed(Values, GetName)
    ensures EnumLookup.DistinctNames(Values, GetName)
  {
    forall o ensures o in Values {
      match o
      case VERTICAL => assert Values[0] == o;
      case HORIZONTAL => assert Values[1] == o;
    }
  }

  /**
   * What `findByName(name)` does: it never throws, and it returns a constant
   * `o` exactly when `name` is `o`'s name; `null` and every other string
   * yield `null`.
   */
  function Lookup(name: JString): (r: Outcome<Option<MaterialBarsOrientation>>)
    ensures r.Returned?
    ensures forall o :: r.value == Some(o) <==> name == GetName(o)
  {
    ValuesWellFormed();
    EnumLookup.NoThrowWithoutNullNames(Values, GetName, EnumLookup.ReceiverEquals, name);
    EnumLookup.MissIffAbsent(Values, GetName, EnumLookup.ReceiverEquals, name);
    EnumLookup.FirstMatch(Values, GetName, EnumLookup.ReceiverEquals, name)
  }

  /** `MaterialBarsOrientation.findByName`: the loop over `values()` comparing with `getName().equals(name)`. */
  method FindByName(name: JString) returns (r: Outcome<Option<MaterialBarsOrientation>>)
    ensures r == Lookup(name)
    ensures r.Returned? && forall o :: r.value == Some(o) <==> name == GetName(o)
  {
    r := EnumLookup.FindByName(Values, GetName, EnumLookup.ReceiverEquals, name);
  }

  /** Round trip: looking up a constant's name gives back that constant. */
  lemma RoundTrip(o: MaterialBarsOrientation)
    ensures Lookup(GetName(o)) == Returned(Some(o))
  {
  }

  /** The comparison is exact and case-sensitive; `null` is no name. */
  lemma CaseSensitive()
    ensures Lookup(Some("VERTICAL")) == Returned(None)
    ensures Lookup(Some("Horizontal")) == Returned(None)
    ensures Lookup(None) == Returned(None)
  {
  }
}
