/** `KapStream` of src/stream.ts: a read position over a fixed byte array,
    with single-byte reads, a look-ahead, a bounded search for a byte
    pattern, a read up to that pattern and a clamped relative seek. */
module Kap {
  import opened Common

  function Min(a: int, b: int): int
  {
    if a <= b then a else b
  }

  /** `contents[q + i] === values[i]` for every `i`: a position outside the
      array reads as `undefined` and matches no byte. */
  predicate MatchesAt(contents: seq<bv8>, values: seq<bv8>, q: int)
  {
    forall i :: 0 <= i < |values| ==> At(contents, q + i) == Some(values[i])
  }

  /** Where a pattern matching at `q` lies inside the array. */
  lemma {:induction false} MatchesAtInside(contents: seq<bv8>, values: seq<bv8>, q: int)
    requires |values| > 0 && MatchesAt(contents, values, q)
    ensures OccursAt(contents, values, q)
  {
    assert At(contents, q) == Some(values[0]);
    assert At(contents, q + |values| - 1) == Some(values[|values| - 1]);
    forall i | 0 <= i < |values| ensures contents[q + i] == values[i] {
      assert At(contents, q + i) == Some(values[i]);
    }
    assert contents[q..q + |values|] == values;
  }

  /** One differing byte rules a position out. */
  lemma {:induction false} Mismatch(contents: seq<bv8>, values: seq<bv8>, q: int, i: int)
    requires 0 <= i < |values| && At(contents, q + i) != Some(values[i])
    ensures !MatchesAt(contents, values, q)
  {
  }

  /** An occurrence inside the array is a match. */
  lemma {:induction false} OccursMatches(contents: seq<bv8>, values: seq<bv8>, q: int)
    requires OccursAt(contents, values, q)
    ensures MatchesAt(contents, values, q)
  {
    forall k | 0 <= k < |values| ensures At(contents, q + k) == Some(values[k]) {
      assert contents[q..q + |values|][k] == contents[q + k];
    }
  }

  /** `indexOf` as written: the first match at or after `from`, trying only
      the positions below `|contents| - |values|`. */
  function FirstMatch(contents: seq<bv8>, values: seq<bv8>, from: int): Option<int>
    decreases |contents| - |values| - from
  {
    if from >= |contents| - |values| then None
    else if MatchesAt(contents, values, from) then Some(from)
    else FirstMatch(contents, values, from + 1)
  }

  /** What `FirstMatch` finds is the least match in the positions it tries,
      and when it finds nothing there is no match among them. */
  lemma {:induction false} FirstMatchLeast(contents: seq<bv8>, values: seq<bv8>, from: int)
    ensures var r := FirstMatch(contents, values, from);
      && (r.Some? ==> from <= r.value < |contents| - |values| && MatchesAt(contents, values, r.value))
      && (forall q :: from <= q < |contents| - |values| && (r.None? || q < r.value) ==> !MatchesAt(contents, values, q))
    decreases |contents| - |values| - from
  {
    if from < |contents| - |values| && !MatchesAt(contents, values, from) {
      FirstMatchLeast(contents, values, from + 1);
    }
  }

  /** The search never looks at the last `|values|` start positions'
      final one: a match that ends at the array's last byte is not found. */
  lemma {:induction false} FirstMatchMissesFinalMatch()
    ensures var s: seq<bv8> := [1, 2]; OccursAt(s, [2], 1) && FirstMatch(s, [2], 0) == None
    ensures var s: seq<bv8> := [1, 2]; FirstMatchCorrected(s, [2], 0) == Some(1)
  {
    var s: seq<bv8> := [1, 2];
    Mismatch(s, [2], 0, 0);
    assert s[1..2] == [2];
    OccursMatches(s, [2], 1);
  }

  /** The search `indexOf` evidently intends: every start position where
      the pattern still fits. */
  function FirstMatchCorrected(contents: seq<bv8>, values: seq<bv8>, from: int): Option<int>
    decreases |contents| - |values| - from + 1
  {
    if from > |contents| - |values| then None
    else if MatchesAt(contents, values, from) then Some(from)
    else FirstMatchCorrected(contents, values, from + 1)
  }

  /** From any position in the array, the corrected search finds exactly
      the first occurrence of a non-empty pattern. */
  lemma {:induction false} FirstMatchCorrectedIsIndexOf(contents: seq<bv8>, values: seq<bv8>, from: nat)
    requires |values| > 0
    ensures var i := IndexOfFrom(contents, values, from);
      FirstMatchCorrected(contents, values, from) == if i < 0 then None else Some(i)
    decreases |contents| - |values| - from + 1
  {
    var i := IndexOfFrom(contents, values, from);
    if from > |contents| - |values| {
    } else if MatchesAt(contents, values, from) {
      MatchesAtInside(contents, values, from);
      assert !(from < i) && !(i < 0);
    } else {
      FirstMatchCorrectedIsIndexOf(contents, values, from + 1);
      var j := IndexOfFrom(contents, values, from + 1);
      if OccursAt(contents, values, from) {
        OccursMatches(contents, values, from);
        assert false;
      }
      if j >= 0 {
        assert OccursAt(contents, values, j);
      }
      if i >= 0 {
        assert OccursAt(contents, values, i);
        assert i != from;
      }
      assert i == j;
    }
  }

  /** `slice(start, end)` of a typed array: negative bounds count from the
      end, both are clamped to the array, and `end <= start` gives nothing. */
  function Clamp(n: int, x: int): (r: nat)
    requires n >= 0
    ensures r <= n
  {
    if x < 0 then (if n + x < 0 then 0 else n + x) else if x > n then n else x
  }

  function JsSlice(s: seq<bv8>, start: int, end: int): (r: seq<bv8>)
    ensures 0 <= start <= end <= |s| ==> r == s[start..end]
    ensures 0 <= start <= |s| <= end ==> r == s[start..]
    ensures (0 <= end <= start || |s| <= start) ==> r == []
    ensures -|s| <= start < 0 && |s| <= end ==> r == s[|s| + start..]
    ensures 0 <= start && -|s| <= end < 0 ==> r == if start < |s| + end then s[start..|s| + end] else []
    ensures -|s| <= start < 0 && 0 <= end <= |s| ==> r == if |s| + start < end then s[|s| + start..end] else []
    ensures -|s| <= start < 0 && -|s| <= end < 0 ==> r == if start < end then s[|s| + start..|s| + end] else []
    ensures end < -|s| ==> r == []
    ensures start < -|s| && 0 <= end <= |s| ==> r == s[..end]
    ensures start < -|s| && |s| <= end ==> r == s
    ensures start < -|s| && -|s| <= end < 0 ==> r == s[..|s| + end]
    ensures |r| <= |s|
  {
    var b := Clamp(|s|, start);
    var e := Clamp(|s|, end);
    if b < e then s[b..e] else []
  }

  /** `readUntil` as written, from position `p`: the result and the new
      position. The slice is taken as if its second argument were a
      length, and the seek is relative. */
  function ReadUntilAsWritten(contents: seq<bv8>, p: int, values: seq<bv8>, consumeValues: bool): (Option<seq<bv8>>, int)
  {
    match FirstMatch(contents, values, p)
    case None => (None, p)
    case Some(q) =>
      (Some(JsSlice(contents, p, q - p)), if consumeValues then Min(p + (q + |values|), |contents|) else p)
  }

  /** From the start of the array the slip cancels out: the bytes before
      the match, and a position just past it. */
  lemma {:induction false} ReadUntilFromStart(contents: seq<bv8>, values: seq<bv8>, consumeValues: bool)
    ensures var (r, p') := ReadUntilAsWritten(contents, 0, values, consumeValues);
      match FirstMatch(contents, values, 0)
      case None => r == None && p' == 0
      case Some(q) => 0 <= q && q + |values| <= |contents| && r == Some(contents[..q]) && contents[..q] + values == contents[..q + |values|]
                      && p' == if consumeValues then q + |values| else 0
  {
    FirstMatchLeast(contents, values, 0);
    var m := FirstMatch(contents, values, 0);
    if m.Some? {
      var q := m.value;
      forall i | 0 <= i < |values| ensures contents[q + i] == values[i] {
        assert At(contents, q + i) == Some(values[i]);
      }
      assert contents[..q] + values == contents[..q + |values|];
    }
  }

  /** From position 2 of `1 2 3 4 5 6`, reading until `5` gives nothing
      instead of `3 4`, and moves to 6 instead of 5. */
  lemma {:induction false} ReadUntilSlips()
    ensures ReadUntilAsWritten([1, 2, 3, 4, 5, 6], 2, [5], true) == (Some([]), 6)
    ensures ReadUntilCorrected([1, 2, 3, 4, 5, 6], 2, [5]) == Some(([3, 4], 5))
  {
    var s: seq<bv8> := [1, 2, 3, 4, 5, 6];
    Mismatch(s, [5], 2, 0);
    Mismatch(s, [5], 3, 0);
    assert s[4..5] == [5];
    OccursMatches(s, [5], 4);
    assert FirstMatch(s, [5], 2) == Some(4);
    assert FirstMatchCorrected(s, [5], 2) == Some(4);
    assert s[2..4] == [3, 4];
  }

  /** The read `readUntil` evidently intends from position `p`: the bytes
      from `p` up to the match, and the position just past the match. */
  function ReadUntilCorrected(contents: seq<bv8>, p: nat, values: seq<bv8>): Option<(seq<bv8>, nat)>
  {
    match FirstMatchCorrected(contents, values, p)
    case None => None
    case Some(q) => if p <= q <= |contents| - |values| then Some((contents[p..q], q + |values|)) else None
  }

  /** The corrected read splits the rest of the array into the bytes read,
      the pattern and what follows the new position, and finds the first
      occurrence of the pattern. */
  lemma {:induction false} ReadUntilCorrectedSplits(contents: seq<bv8>, p: nat, values: seq<bv8>)
    requires |values| > 0 && p <= |contents|
    ensures var i := IndexOfFrom(contents, values, p);
      match ReadUntilCorrected(contents, p, values)
      case None => i < 0
      case Some((bytes, p')) =>
        && i >= 0 && p' == i + |values| <= |contents|
        && bytes + values + contents[p'..] == contents[p..]
  {
    FirstMatchCorrectedIsIndexOf(contents, values, p);
    var i := IndexOfFrom(contents, values, p);
    if i >= 0 {
      assert OccursAt(contents, values, i);
      assert contents[p..i] + contents[i..i + |values|] + contents[i + |values|..] == contents[p..];
    }
  }

  /** The cursor. `index` may leave `0..|contents|` only through a
      negative `seek`. */
  class KapStream {
    const contents: seq<bv8>
    var index: int

    constructor (contents: seq<bv8>)
      ensures this.contents == contents && index == 0
    {
      this.contents := contents;
      index := 0;
    }

    /** `hasNext`. */
    function HasNext(): bool
      reads this
    {
      index < |contents|
    }

    /** `next`: the byte at the position and one step on, or nothing and no
        move. A negative position reads `undefined` but still moves. */
    method Next() returns (r: Option<bv8>)
      modifies this
      ensures old(HasNext()) ==> r == At(contents, old(index)) && index == old(index) + 1
      ensures !old(HasNext()) ==> r == None && index == old(index)
      ensures 0 <= old(index) < |contents| ==> r == Some(contents[old(index)])
    {
      if HasNext() {
        r := At(contents, index);
        index := index + 1;
      } else {
        r := None;
      }
    }

    /** `peek`: the byte `offset` past the position, read-only. */
    function Peek(offset: int): (r: Option<bv8>)
      reads this
      ensures r.Some? <==> 0 <= index + offset < |contents|
      ensures r.Some? ==> r.value == contents[index + offset]
    {
      At(contents, index + offset)
    }

    /** `indexOf`, the two nested loops as written; the position does not
        move. */
    method IndexOf(values: seq<bv8>) returns (r: Option<int>)
      ensures r == FirstMatch(contents, values, index)
    {
      var q := index;
      while q < |contents| - |values|
        invariant FirstMatch(contents, values, q) == FirstMatch(contents, values, index)
        decreases |contents| - |values| - q
      {
        var i := 0;
        while i < |values|
          invariant 0 <= i <= |values|
          invariant forall k :: 0 <= k < i ==> At(contents, q + k) == Some(values[k])
        {
          if At(contents, q + i) != Some(values[i]) {
            break;
          }
          i := i + 1;
        }
        if i == |values| {
          return Some(q);
        }
        q := q + 1;
      }
      return None;
    }

    /** `seek`: relative, clamped at the end only. */
    method Seek(position: int) returns (r: int)
      modifies this
      ensures index == Min(old(index) + position, |contents|) && r == index
      ensures position >= 0 && old(index) <= |contents| ==> old(index) <= index <= |contents|
    {
      index := Min(index + position, |contents|);
      r := index;
    }

    /** `position`. */
    function Position(): int
      reads this
    {
      index
    }

    /** `readUntil`, as written. */
    method ReadUntil(values: seq<bv8>, consumeValues: bool) returns (r: Option<seq<bv8>>)
      modifies this
      ensures (r, index) == ReadUntilAsWritten(contents, old(index), values, consumeValues)
      ensures r.None? ==> index == old(index)
      ensures !consumeValues ==> index == old(index)
    {
      var found := IndexOf(values);
      if found.None? {
        return None;
      }
      var q := found.value;
      r := Some(JsSlice(contents, index, q - index));
      if consumeValues {
        var _ := Seek(q + |values|);
      }
    }
  }
}
