/** The two numpy reductions the topology wrappers rely on: `ndarray.max()` and `ndarray.argmax()`. */
module NumPy {

  /** numpy raises ValueError when either reduction is applied to a zero-size array. */
  datatype Error = ZeroSizeReduction

  /** `k` is where `argmax` lands: a maximum of `s`, and the first one. */
  ghost predicate IsFirstMax(s: seq<int>, k: int)
  {
    0 <= k < |s| &&
    (forall i :: 0 <= i < |s| ==> s[i] <= s[k]) &&
    (forall i :: 0 <= i < k ==> s[i] < s[k])
  }

  /** `ndarray.max()` of a non-empty array. */
  function Max(s: seq<int>): (m: int)
    requires |s| > 0
    ensures forall i :: 0 <= i < |s| ==> s[i] <= m
    ensures exists i :: 0 <= i < |s| && s[i] == m
  {
    if |s| == 1 then s[0]
    else
      var m' := Max(s[..|s| - 1]);
      if s[|s| - 1] > m' then s[|s| - 1] else m'
  }

  /**
   * The range of `np.int_`, numpy's default integer type: C `long`, 64 bits wide on
   * LP64 platforms. numpy 1.x computes a numpy integer scalar plus a Python `int` in
   * this type for every integer scalar of at most 64 bits.
   */
  const IntMin: int := -0x8000_0000_0000_0000
  const IntMax: int := 0x7fff_ffff_ffff_ffff

  /**
   * `x + 1` computed in a fixed-width integer type that holds `lo .. hi`: the result
   * is `x + 1` modulo the size of the range, so the largest value wraps around to the
   * smallest. Scalar `+ 1` in numpy 1.x is this with `lo .. hi` = `IntMin .. IntMax`.
   */
  function ScalarIncrement(x: int, lo: int, hi: int): (r: int)
    requires lo <= x <= hi
    ensures lo <= r <= hi
    ensures (r - lo) % (hi - lo + 1) == (x + 1 - lo) % (hi - lo + 1)
  {
    if x == hi then lo else x + 1
  }

  /** `ndarray.argmax()` of a non-empty array: the index of the first maximum. */
  function ArgMax(s: seq<int>): (k: nat)
    requires |s| > 0
    ensures IsFirstMax(s, k)
  {
    if |s| == 1 then 0
    else
      var k' := ArgMax(s[..|s| - 1]);
      if s[|s| - 1] > s[k'] then |s| - 1 else k'
  }

  /** There is only one first maximum, so `argmax` is determined by `IsFirstMax`. */
  lemma FirstMaxUnique(s: seq<int>, a: int, b: int)
    requires IsFirstMax(s, a) && IsFirstMax(s, b)
    ensures a == b
  {
    assert s[a] <= s[b] && s[b] <= s[a];
  }

  /** The element `argmax` points at is the array's `max()`. */
  lemma ArgMaxIsMax(s: seq<int>)
    requires |s| > 0
    ensures s[ArgMax(s)] == Max(s)
  {
    var k := ArgMax(s);
    var i :| 0 <= i < |s| && s[i] == Max(s);
    assert s[i] <= s[k] <= Max(s);
  }
}
