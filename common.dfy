/** Small shared vocabulary: optional values, results, JavaScript-style indexing
    and the first-occurrence search that Node's `Buffer.indexOf` performs. */
module Common {

  datatype Option<+T> = None | Some(value: T) {
    function GetOr(default: T): T {
      match this
      case Some(v) => v
      case None => default
    }
  }

  datatype Result<+T, +E> = Ok(value: T) | Err(error: E)

  /** Indexing as JavaScript does it on arrays and typed arrays: a position
      outside the sequence reads as `undefined`, modelled as `None`, and
      `None` equals only `None`. */
  function At<T>(s: seq<T>, i: int): Option<T>
  {
    if 0 <= i < |s| then Some(s[i]) else None
  }

  /** `v` occurs in `s` starting at position `i`. */
  predicate OccursAt<T(==)>(s: seq<T>, v: seq<T>, i: int)
  {
    0 <= i && i + |v| <= |s| && s[i..i + |v|] == v
  }

  /** The first position at or after `from` where `v` occurs in `s`, or -1. */
  function IndexOfFrom<T(==)>(s: seq<T>, v: seq<T>, from: nat): (r: int)
    ensures r == -1 || (from <= r && OccursAt(s, v, r))
    ensures forall q :: from <= q && (r == -1 || q < r) ==> !OccursAt(s, v, q)
    decreases |s| + 1 - from
  {
    if from + |v| > |s| then -1
    else if s[from..from + |v|] == v then from
    else IndexOfFrom(s, v, from + 1)
  }

  /** Node's `Buffer.indexOf(value)` (and `String.indexOf` for strings):
      the least position where `v` occurs in `s`, or -1 when it does not
      occur. An empty `v` is found at position 0. */
  function IndexOf<T(==)>(s: seq<T>, v: seq<T>): (r: int)
    ensures r == -1 || OccursAt(s, v, r)
    ensures forall q :: 0 <= q && (r == -1 || q < r) ==> !OccursAt(s, v, q)
  {
    IndexOfFrom(s, v, 0)
  }

  /** When the first element of `v` does not occur in `a`, the first
      occurrence of `v` in `a + v + b` is right after `a`. */
  lemma {:induction false} IndexOfAfter<T>(a: seq<T>, v: seq<T>, b: seq<T>)
    requires |v| > 0
    requires forall k :: 0 <= k < |a| ==> a[k] != v[0]
    ensures IndexOf(a + v + b, v) == |a|
  {
    var s := a + v + b;
    assert OccursAt(s, v, |a|);
    forall q | 0 <= q < |a| ensures !OccursAt(s, v, q) {
      assert s[q] == a[q];
    }
  }
}
