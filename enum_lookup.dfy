/**
 * The reverse lookup shared by the option enums: walk `values()` in
 * declaration order and return the first constant whose `getName()` equals
 * the requested name, or `null` once every constant has been visited.
 *
 * The comparison is a parameter: the enums as written call
 * `constant.getName().equals(name)`, which throws when the constant's own
 * name is `null`; the null-safe `Objects.equals` variant is the corrected form.
 */
module EnumLookup {
  import opened JavaLang

  /** How a constant's name is compared with the requested name. */
  datatype Equality = ReceiverEquals | NullSafeEquals

  function Compare(eq: Equality, candidate: JString, name: JString): (r: Outcome<bool>)
    ensures r.ThrewNullPointer? <==> eq == ReceiverEquals && candidate.None?
    ensures r.Returned? ==> (r.value <==> candidate == name)
  {
    match eq
    case ReceiverEquals => StringEquals(candidate, name)
    case NullSafeEquals => ObjectsEquals(candidate, name)
  }

  /** Every constant has a non-null name. */
  ghost predicate AllNamed<E>(values: seq<E>, getName: E -> JString)
  {
    forall i :: 0 <= i < |values| ==> getName(values[i]).Some?
  }

  /** No two constants share a name. */
  ghost predicate DistinctNames<E>(values: seq<E>, getName: E -> JString)
  {
    forall i, j :: 0 <= i < |values| && 0 <= j < |values| && getName(values[i]) == getName(values[j]) ==> i == j
  }

  /**
   * The outcome of the lookup loop over `values`. A constant it returns is
   * one of `values` and carries the requested name.
   */
  function FirstMatch<E>(values: seq<E>, getName: E -> JString, eq: Equality, name: JString): (r: Outcome<Option<E>>)
    ensures r.Returned? && r.value.Some? ==> r.value.value in values && getName(r.value.value) == name
    decreases |values|
  {
    if values == [] then Returned(None)
    else
      match Compare(eq, getName(values[0]), name)
      case ThrewNullPointer => ThrewNullPointer
      case Returned(true) => Returned(Some(values[0]))
      case Returned(false) => FirstMatch(values[1..], getName, eq, name)
  }

  /** The for-each loop with early return, as the enums write it. */
  method FindByName<E>(values: seq<E>, getName: E -> JString, eq: Equality, name: JString)
    returns (r: Outcome<Option<E>>)
    ensures r == FirstMatch(values, getName, eq, name)
  {
    for i := 0 to |values|
      invariant FirstMatch(values[i..], getName, eq, name) == FirstMatch(values, getName, eq, name)
    {
      assert values[i..][1..] == values[i + 1..];
      var same := Compare(eq, getName(values[i]), name);
      match same
      case ThrewNullPointer =>
        return ThrewNullPointer;
      case Returned(true) =>
        return Returned(Some(values[i]));
      case Returned(false) =>
    }
    assert values[|values|..] == [];
    r := Returned(None);
  }

  /** Without a `null` name in the way (or with the null-safe comparison) the loop never throws. */
  lemma {:induction false} NoThrowWithoutNullNames<E>(values: seq<E>, getName: E -> JString, eq: Equality, name: JString)
    requires eq == NullSafeEquals || AllNamed(values, getName)
    ensures FirstMatch(values, getName, eq, name).Returned?
    decreases |values|
  {
    if values != [] {
      NoThrowWithoutNullNames(values[1..], getName, eq, name);
    }
  }

  /**
   * With the receiver-side `equals`, the loop throws exactly when it reaches
   * a constant with a `null` name before any constant whose name matches.
   */
  lemma {:induction false} ThrowsIffNullNameReachedFirst<E>(values: seq<E>, getName: E -> JString, eq: Equality, name: JString)
    ensures FirstMatch(values, getName, eq, name).ThrewNullPointer? <==>
      eq == ReceiverEquals &&
      exists i :: 0 <= i < |values| && getName(values[i]).None? &&
        forall j :: 0 <= j < i ==> getName(values[j]) != name
    decreases |values|
  {
    if values == [] {
    } else {
      var rest := values[1..];
      ThrowsIffNullNameReachedFirst(rest, getName, eq, name);
      var head := getName(values[0]);
      if eq == ReceiverEquals && head.None? {
        assert getName(values[0]).None?;
      } else if head == name {
        assert Compare(eq, head, name) == Returned(true);
        if eq == ReceiverEquals {
          forall i | 0 <= i < |values| && getName(values[i]).None?
            ensures !(forall j :: 0 <= j < i ==> getName(values[j]) != name)
          {
            assert i != 0;
            assert getName(values[0]) == name;
          }
        }
      } else if eq == ReceiverEquals {
        assert Compare(eq, head, name) == Returned(false);
        if FirstMatch(rest, getName, eq, name).ThrewNullPointer? {
          var k :| 0 <= k < |rest| && getName(rest[k]).None? && forall j :: 0 <= j < k ==> getName(rest[j]) != name;
          assert getName(values[k + 1]).None?;
          forall j | 0 <= j < k + 1 ensures getName(values[j]) != name {
            if j > 0 { assert values[j] == rest[j - 1]; }
          }
        }
        if exists i :: 0 <= i < |values| && getName(values[i]).None? && forall j :: 0 <= j < i ==> getName(values[j]) != name {
          var i :| 0 <= i < |values| && getName(values[i]).None? && forall j :: 0 <= j < i ==> getName(values[j]) != name;
          assert i != 0;
          assert getName(rest[i - 1]).None?;
          forall j | 0 <= j < i - 1 ensures getName(rest[j]) != name {
            assert rest[j] == values[j + 1];
          }
        }
      }
    }
  }

  /** A returned constant is the first one, in declaration order, whose name matches. */
  lemma {:induction false} ReturnsFirstMatch<E>(values: seq<E>, getName: E -> JString, eq: Equality, name: JString, e: E)
    requires FirstMatch(values, getName, eq, name) == Returned(Some(e))
    ensures exists i :: 0 <= i < |values| && values[i] == e && forall j :: 0 <= j < i ==> getName(values[j]) != name
    decreases |values|
  {
    if Compare(eq, getName(values[0]), name) == Returned(true) {
      assert values[0] == e;
    } else {
      var rest := values[1..];
      ReturnsFirstMatch(rest, getName, eq, name, e);
      var k :| 0 <= k < |rest| && rest[k] == e && forall j :: 0 <= j < k ==> getName(rest[j]) != name;
      assert values[k + 1] == e;
      forall j | 0 <= j < k + 1 ensures getName(values[j]) != name {
        if j > 0 { assert values[j] == rest[j - 1]; }
      }
    }
  }

  /**
   * The loop returns `null` exactly when it cannot throw (no `null` name, or
   * the null-safe comparison) and no constant carries the requested name.
   */
  lemma {:induction false} MissIffAbsent<E>(values: seq<E>, getName: E -> JString, eq: Equality, name: JString)
    ensures FirstMatch(values, getName, eq, name) == Returned(None) <==>
      (eq == NullSafeEquals || AllNamed(values, getName)) &&
      forall i :: 0 <= i < |values| ==> getName(values[i]) != name
    decreases |values|
  {
    if values != [] {
      var rest := values[1..];
      var head := getName(values[0]);
      MissIffAbsent(rest, getName, eq, name);
      forall i | 0 <= i < |rest| ensures getName(rest[i]) == getName(values[i + 1]) { }
      if eq == ReceiverEquals && head.None? {
        assert !AllNamed(values, getName);
      } else if head != name {
        assert Compare(eq, head, name) == Returned(false);
        assert (forall i :: 0 <= i < |values| ==> getName(values[i]) != name) <==>
               (forall i :: 0 <= i < |rest| ==> getName(rest[i]) != name);
        if eq == ReceiverEquals {
          assert AllNamed(values, getName) <==> AllNamed(rest, getName);
        }
      }
    }
  }

  /**
   * Round trip: when the loop cannot throw and names are distinct, looking
   * up a constant's own name yields that constant.
   */
  lemma RoundTrip<E>(values: seq<E>, getName: E -> JString, eq: Equality, k: nat)
    requires k < |values|
    requires eq == NullSafeEquals || AllNamed(values, getName)
    requires DistinctNames(values, getName)
    ensures FirstMatch(values, getName, eq, getName(values[k])) == Returned(Some(values[k]))
  {
    var name := getName(values[k]);
    NoThrowWithoutNullNames(values, getName, eq, name);
    MissIffAbsent(values, getName, eq, name);
    var e := FirstMatch(values, getName, eq, name).value.value;
    ReturnsFirstMatch(values, getName, eq, name, e);
    var i :| 0 <= i < |values| && values[i] == e && forall j :: 0 <= j < i ==> getName(values[j]) != name;
    assert i == k;
  }
}
