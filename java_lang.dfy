/**
 * The few pieces of Java semantics the option enums rely on: a `String`
 * reference that may be `null`, a call that either returns or throws a
 * `NullPointerException`, and the two ways of comparing strings for equality.
 */
module JavaLang {

  /** `None` stands for Java's `null`. */
  datatype Option<+T> = None | Some(value: T)

  /** A Java `String` reference: either `null` or a sequence of characters (Unicode scalar values). */
  type JString = Option<string>

  /** What a Java call does: return a value, or throw a `NullPointerException`. */
  datatype Outcome<+T> = Returned(value: T) | ThrewNullPointer

  /**
   * `receiver.equals(arg)`: dereferencing a `null` receiver throws; otherwise
   * the result is true exactly when `arg` is a string with the same
   * characters, so `equals(null)` is false.
   */
  function StringEquals(receiver: JString, arg: JString): (r: Outcome<bool>)
    ensures r.ThrewNullPointer? <==> receiver.None?
    ensures r.Returned? ==> (r.value <==> arg == receiver)
  {
    match receiver
    case None => ThrewNullPointer
    case Some(s) => Returned(arg.Some? && arg.value == s)
  }

  /**
   * `java.util.Objects.equals(a, b)`: never throws; two `null`s are equal,
   * `null` differs from every string, and two strings are compared by content.
   */
  function ObjectsEquals(a: JString, b: JString): (r: Outcome<bool>)
    ensures r.Returned?
    ensures r.value <==> a == b
  {
    match (a, b)
    case (None, None) => Returned(true)
    case (Some(x), Some(y)) => Returned(x == y)
    case _ => Returned(false)
  }
}
