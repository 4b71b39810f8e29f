/** The change operations of an observable array: one value per mutation,
    with a payload transform, a payload accessor and structural equality. */
module Operations {

  datatype Option<+T> = None | Some(value: T)

  /** One mutation of a reactive array. Indices are signed, as Swift's `Int`
      is; whether an index is in range is decided when the operation is
      applied, not when it is built.

      `Update` is not among the cases declared next to `map` and `==`; the
      array type builds and applies it, so it is modelled here as a fourth
      case. Its `Map`, `Value` and equality are an extrapolation: it is given
      the same treatment as `Insert`. */
  datatype Operation<T> =
    | Append(value: T)
    | Insert(value: T, atIndex: int)
    | Update(value: T, atIndex: int)
    | RemoveElement(atIndex: int)
  {
    /** Transforms the payload; the case and the index are kept. */
    function Map<U>(f: T -> U): (r: Operation<U>)
      ensures r.Append? == Append? && r.Insert? == Insert?
      ensures r.Update? == Update? && r.RemoveElement? == RemoveElement?
      ensures !Append? ==> r.atIndex == atIndex
      ensures !RemoveElement? ==> r.value == f(value)
    {
      match this
      case Append(v) => Append(f(v))
      case Insert(v, i) => Insert(f(v), i)
      case Update(v, i) => Update(f(v), i)
      case RemoveElement(i) => RemoveElement(i)
    }

    /** The payload, or None for a remove, which carries none. */
    function Value(): (r: Option<T>)
      ensures r.None? <==> RemoveElement?
      ensures r.Some? ==> !RemoveElement? && r.value == value
    {
      match this
      case Append(v) => Some(v)
      case Insert(v, _) => Some(v)
      case Update(v, _) => Some(v)
      case RemoveElement(_) => None
    }
  }

  /** Operation `==`: the same case and equal fields, case by case. */
  function Equals<T(==)>(lhs: Operation<T>, rhs: Operation<T>): (r: bool)
    ensures r <==> lhs == rhs
  {
    match (lhs, rhs)
    case (Append(lv), Append(rv)) => lv == rv
    case (Insert(lv, li), Insert(rv, ri)) => li == ri && lv == rv
    case (Update(lv, li), Update(rv, ri)) => li == ri && lv == rv
    case (RemoveElement(li), RemoveElement(ri)) => li == ri
    case _ => false
  }

  /** Operation `!=`, defined as the negation of `==`. */
  function NotEquals<T(==)>(lhs: Operation<T>, rhs: Operation<T>): (r: bool)
    ensures r <==> lhs != rhs
    ensures r <==> !Equals(lhs, rhs)
  {
    !Equals(lhs, rhs)
  }

  /** Equal length and equal operations position by position. */
  predicate PointwiseEqual<T(==)>(lhs: seq<Operation<T>>, rhs: seq<Operation<T>>)
    ensures PointwiseEqual(lhs, rhs) <==> lhs == rhs
  {
    |lhs| == |rhs| && forall i :: 0 <= i < |lhs| ==> Equals(lhs[i], rhs[i])
  }

  /** `==` on arrays of operations: the lengths are compared first, so the
      loop only reads `rhs[i]` when both arrays have the same length. */
  method ArrayEquals<T(==)>(lhs: seq<Operation<T>>, rhs: seq<Operation<T>>) returns (r: bool)
    ensures r <==> PointwiseEqual(lhs, rhs)
    ensures r <==> lhs == rhs
  {
    if |lhs| != |rhs| {
      return false;
    }
    var i := 0;
    while i < |lhs|
      invariant 0 <= i <= |lhs|
      invariant forall k :: 0 <= k < i ==> lhs[k] == rhs[k]
    {
      if NotEquals(lhs[i], rhs[i]) {
        return false;
      }
      i := i + 1;
    }
    return true;
  }

  /** Different cases are never equal, whatever their fields. */
  lemma DifferentCasesNeverEqual<T>(lhs: Operation<T>, rhs: Operation<T>)
    requires lhs.Append? != rhs.Append? || lhs.Insert? != rhs.Insert? || lhs.Update? != rhs.Update?
    ensures !Equals(lhs, rhs) && NotEquals(lhs, rhs)
  {
  }

  /** `Map` case by case: the payload is transformed, the index never. */
  lemma MapCases<T, U>(f: T -> U, v: T, i: int)
    ensures Append(v).Map(f) == Append(f(v))
    ensures Insert(v, i).Map(f) == Insert(f(v), i)
    ensures Update(v, i).Map(f) == Update(f(v), i)
    ensures RemoveElement(i).Map(f) == RemoveElement(i)
  {
  }

  lemma MapIdentity<T>(op: Operation<T>)
    ensures op.Map(x => x) == op
  {
  }

  lemma MapComposition<T, U, V>(op: Operation<T>, g: T -> U, h: U -> V)
    ensures op.Map(g).Map(h) == op.Map(x => h(g(x)))
  {
  }

  /** `Map` applied to every operation of a stream. */
  function MapOps<T, U>(f: T -> U, ops: seq<Operation<T>>): (r: seq<Operation<U>>)
    ensures |r| == |ops|
    ensures forall i :: 0 <= i < |ops| ==> r[i] == ops[i].Map(f)
  {
    seq(|ops|, i requires 0 <= i < |ops| => ops[i].Map(f))
  }

  /** Mapping a stream maps each operation in place and keeps the order. */
  lemma MapOpsConcat<T, U>(f: T -> U, a: seq<Operation<T>>, b: seq<Operation<T>>)
    ensures MapOps(f, a + b) == MapOps(f, a) + MapOps(f, b)
  {
  }

  lemma MapOpsIdentity<T>(ops: seq<Operation<T>>)
    ensures MapOps(x => x, ops) == ops
  {
  }

  lemma MapOpsComposition<T, U, V>(ops: seq<Operation<T>>, g: T -> U, h: U -> V)
    ensures MapOps(h, MapOps(g, ops)) == MapOps(x => h(g(x)), ops)
  {
  }
}
