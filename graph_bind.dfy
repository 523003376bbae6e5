/**
 * The element loops of graph-tool's Python binding for `std::vector` property
 * values: the equality comparators exported as `__eq__`/`__ne__`, and the
 * Boost.Python converter that turns a Python list into a vector.
 */
module GraphBind {
  import opened Wrappers

  /** Two vectors hold the same elements at the same positions. */
  ghost predicate ElementwiseEqual<T>(v1: seq<T>, v2: seq<T>)
  {
    |v1| == |v2| && forall i :: 0 <= i < |v1| ==> v1[i] == v2[i]
  }

  /**
   * `vector_equal_compare(v1, v2)`: false as soon as the sizes differ, otherwise
   * compare position by position and return false at the first mismatch.
   */
  method VectorEqualCompare<T(==)>(v1: seq<T>, v2: seq<T>) returns (eq: bool)
    ensures |v1| != |v2| ==> !eq
    ensures eq <==> ElementwiseEqual(v1, v2)
  {
    if |v1| != |v2| {
      return false;
    }
    var i := 0;
    while i < |v1|
      invariant 0 <= i <= |v1|
      invariant forall j :: 0 <= j < i ==> v1[j] == v2[j]
    {
      if v1[i] != v2[i] {
        return false;
      }
      i := i + 1;
    }
    return true;
  }

  /** `vector_nequal_compare(v1, v2)`: the negation of `vector_equal_compare`. */
  method VectorNotEqualCompare<T(==)>(v1: seq<T>, v2: seq<T>) returns (neq: bool)
    ensures neq <==> !ElementwiseEqual(v1, v2)
  {
    var eq := VectorEqualCompare(v1, v2);
    neq := !eq;
  }

  /** Elementwise equality is the equality of the vectors as values. */
  lemma ElementwiseEqualIsEquality<T>(v1: seq<T>, v2: seq<T>)
    ensures ElementwiseEqual(v1, v2) <==> v1 == v2
  {
    if ElementwiseEqual(v1, v2) {
      assert v1 == v2;
    }
  }

  /** Elementwise equality is an equivalence: reflexive, symmetric and transitive. */
  lemma ElementwiseEqualIsEquivalence<T>(v1: seq<T>, v2: seq<T>, v3: seq<T>)
    ensures ElementwiseEqual(v1, v1)
    ensures ElementwiseEqual(v1, v2) ==> ElementwiseEqual(v2, v1)
    ensures ElementwiseEqual(v1, v2) && ElementwiseEqual(v2, v3) ==> ElementwiseEqual(v1, v3)
  {
  }

  /**
   * Every item of the Python list `o` passes `extract<T>(o[i]).check()`. The
   * extraction is given as `extract`: `Some(x)` when the item converts to `x`,
   * `None` when the check fails.
   */
  ghost predicate AllExtractable<O, T>(o: seq<O>, extract: O -> Option<T>)
  {
    forall i :: 0 <= i < |o| ==> extract(o[i]).Some?
  }

  /** `value` is the list `o` converted item by item, in list order. */
  ghost predicate IsConversionOf<O, T>(value: seq<T>, o: seq<O>, extract: O -> Option<T>)
  {
    |value| == |o| && forall i :: 0 <= i < |o| ==> extract(o[i]) == Some(value[i])
  }

  /**
   * `vector_from_list<T>::convertible`: scan the list and refuse (return null) at the
   * first item whose extraction check fails; accept (return the object) otherwise.
   */
  method Convertible<O, T>(o: seq<O>, extract: O -> Option<T>) returns (accepted: bool)
    ensures accepted <==> AllExtractable(o, extract)
  {
    var n := |o|;
    var i := 0;
    while i < n
      invariant 0 <= i <= n
      invariant forall j :: 0 <= j < i ==> extract(o[j]).Some?
    {
      if extract(o[i]).None? {
        return false;
      }
      i := i + 1;
    }
    return true;
  }

  /**
   * `vector_from_list<T>::construct`: called only after `convertible` accepted the
   * list, push the extraction of every item onto a new vector.
   */
  method Construct<O, T>(o: seq<O>, extract: O -> Option<T>) returns (value: seq<T>)
    requires AllExtractable(o, extract)
    ensures IsConversionOf(value, o, extract)
  {
    value := [];
    var n := |o|;
    var i := 0;
    while i < n
      invariant 0 <= i <= n
      invariant IsConversionOf(value, o[..i], extract)
    {
      value := value + [extract(o[i]).value];
      i := i + 1;
    }
  }

  /**
   * The conversion is determined by the list: a vector handed to Python as the list
   * of its wrapped elements converts back to itself, whenever extraction undoes the
   * wrapping.
   */
  lemma {:induction false} ConversionOfWrapped<O, T>(xs: seq<T>, wrap: T -> O, extract: O -> Option<T>, value: seq<T>)
    requires forall x :: extract(wrap(x)) == Some(x)
    requires IsConversionOf(value, seq(|xs|, i requires 0 <= i < |xs| => wrap(xs[i])), extract)
    ensures AllExtractable(seq(|xs|, i requires 0 <= i < |xs| => wrap(xs[i])), extract)
    ensures value == xs
  {
    var o := seq(|xs|, i requires 0 <= i < |xs| => wrap(xs[i]));
    forall i | 0 <= i < |xs| ensures value[i] == xs[i] {
      assert extract(o[i]) == Some(value[i]);
      assert extract(wrap(xs[i])) == Some(xs[i]);
    }
  }
}
