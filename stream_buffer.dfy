/** The incremental byte buffer of src/streamBuffer.ts and its variant in
    src/parseStream.ts: an append-only byte store whose "try" reads consume
    a whole unit or nothing. */
module ByteBuffer {
  import opened Common

  /** Number of leading positions on which `a` and `b` agree. */
  function CommonPrefixLength(a: seq<bv8>, b: seq<bv8>): (k: nat)
    ensures k <= |a| && k <= |b|
    ensures a[..k] == b[..k]
    ensures k < |a| && k < |b| ==> a[k] != b[k]
  {
    if |a| == 0 || |b| == 0 || a[0] != b[0] then 0
    else
      var k := CommonPrefixLength(a[1..], b[1..]);
      assert a[1..][..k] == b[1..][..k];
      assert a[..k + 1] == [a[0]] + a[1..][..k];
      assert b[..k + 1] == [b[0]] + b[1..][..k];
      k + 1
  }

  /** The count `tryReadValues` returns. Its loop runs while
      `index <= buffer.length` and compares `buffer[index]` with
      `values[index]`, both possibly undefined; so it returns the common
      prefix length, except when the buffer holds exactly `values`, where the
      two out-of-range reads at `index == length` agree and the count is one
      past the token. */
  function MatchCount(buf: seq<bv8>, values: seq<bv8>): (n: nat)
    ensures n <= |values| + 1 && n <= |buf| + 1
    ensures n == |values| + 1 <==> buf == values
    ensures n <= |values| && n <= |buf| ==> buf[..n] == values[..n]
  {
    if buf == values then |values| + 1 else CommonPrefixLength(buf, values)
  }

  /** `values` is a strict prefix of `buf`. */
  predicate StrictPrefix(values: seq<bv8>, buf: seq<bv8>)
  {
    |values| < |buf| && buf[..|values|] == values
  }

  /** `tryReadValues` reports a full match (and consumes) exactly when the
      token is a strict prefix of the buffer: a buffer that holds the token
      and nothing more does not count. */
  lemma {:induction false} MatchCountFull(buf: seq<bv8>, values: seq<bv8>)
    ensures MatchCount(buf, values) == |values| <==> StrictPrefix(values, buf)
  {
    var n := MatchCount(buf, values);
    if StrictPrefix(values, buf) {
      assert buf != values;
      assert forall i :: 0 <= i < |values| ==> buf[i] == values[i] by {
        forall i | 0 <= i < |values| ensures buf[i] == values[i] {
          assert buf[..|values|][i] == values[i];
        }
      }
    }
    if n == |values| {
      assert buf[..|values|] == values;
    }
  }

  /** The count the loop evidently intends (bound `index < length`): the
      common prefix length, which reaches `|values|` exactly when the token
      is a prefix of the buffer, a buffer holding just the token included. */
  lemma {:induction false} CommonPrefixFull(buf: seq<bv8>, values: seq<bv8>)
    ensures CommonPrefixLength(buf, values) == |values| <==> |values| <= |buf| && buf[..|values|] == values
  {
  }

  /** The two counts differ only on a buffer that holds exactly the token:
      there the loop as written overshoots by one and nothing is consumed,
      where the intended count reports the full match. */
  lemma {:induction false} MatchCountExactToken(buf: seq<bv8>, values: seq<bv8>)
    ensures buf != values ==> MatchCount(buf, values) == CommonPrefixLength(buf, values)
    ensures buf == values ==> MatchCount(buf, values) == |values| + 1 && CommonPrefixLength(buf, values) == |values|
  {
    CommonPrefixFull(buf, values);
  }

  /** With a non-empty token, the count is zero exactly when the first
      byte already differs (or the buffer is empty). */
  lemma {:induction false} MatchCountZero(buf: seq<bv8>, values: seq<bv8>)
    requires |values| > 0
    ensures MatchCount(buf, values) == 0 <==> (|buf| == 0 || buf[0] != values[0])
  {
    if |buf| > 0 && buf[0] == values[0] && buf != values {
      assert CommonPrefixLength(buf, values) != 0;
    }
  }

  /** Byte `k` ends a variable-length value at the head of `buf`: it is
      the first byte with the high bit clear, and (for the 0x00-aware
      variant) no byte up to it is 0x00. */
  predicate Terminates(buf: seq<bv8>, k: nat, nullAware: bool)
  {
    && k < |buf|
    && buf[k] <= 127
    && (forall i :: 0 <= i < k ==> buf[i] > 127)
    && (nullAware ==> forall i :: 0 <= i <= k ==> buf[i] != 0)
  }

  /** The number of bytes of the variable-length value at the head of
      `buf`, when one is complete. */
  function ValueLength(buf: seq<bv8>, nullAware: bool): (r: Option<nat>)
    ensures r.Some? ==> 1 <= r.value <= |buf| && Terminates(buf, r.value - 1, nullAware)
    ensures r.None? ==> forall k :: 0 <= k < |buf| ==> !Terminates(buf, k, nullAware)
  {
    if |buf| == 0 || (nullAware && buf[0] == 0) then None
    else if buf[0] <= 127 then Some(1)
    else
      match ValueLength(buf[1..], nullAware)
      case None =>
        assert forall k :: 1 <= k < |buf| ==> !Terminates(buf, k, nullAware) by {
          forall k | 1 <= k < |buf| && Terminates(buf, k, nullAware)
            ensures false
          {
            assert Terminates(buf[1..], k - 1, nullAware);
          }
        }
        None
      case Some(n) =>
        assert Terminates(buf, n, nullAware) by {
          assert buf[n] == buf[1..][n - 1];
          forall i | 0 <= i < n ensures buf[i] > 127 {
            if i > 0 { assert buf[i] == buf[1..][i - 1]; }
          }
          if nullAware {
            forall i | 0 <= i <= n ensures buf[i] != 0 {
              if i > 0 { assert buf[i] == buf[1..][i - 1]; }
            }
          }
        }
        Some(n + 1)
  }

  /** At most one byte terminates the value at the head of a buffer. */
  lemma {:induction false} TerminatorUnique(buf: seq<bv8>, j: nat, k: nat, nullAware: bool)
    requires Terminates(buf, j, nullAware) && Terminates(buf, k, nullAware)
    ensures j == k
  {
  }

  /** Each byte with its high (continuation) bit cleared. */
  function Masked(s: seq<bv8>): (r: seq<bv8>)
    ensures |r| == |s|
    ensures forall i :: 0 <= i < |s| ==> r[i] == s[i] & 0x7F && r[i] < 128
  {
    seq(|s|, i requires 0 <= i < |s| => s[i] & 0x7F)
  }

  /** What `tryReadVariableLengthValue` returns for a buffer: the 7-bit
      groups of the complete value at its head, or nothing. */
  function VariableLengthValue(buf: seq<bv8>, nullAware: bool): Option<seq<bv8>>
  {
    match ValueLength(buf, nullAware)
    case None => None
    case Some(n) => Some(Masked(buf[..n]))
  }

  /** A successful read returns k groups of 7 bits: bytes 0..k-2 of the
      buffer carried the continuation bit, byte k-1 did not. */
  lemma {:induction false} VariableLengthValueSuccess(buf: seq<bv8>, nullAware: bool)
    requires VariableLengthValue(buf, nullAware).Some?
    ensures var v := VariableLengthValue(buf, nullAware).value;
      && 1 <= |v| <= |buf|
      && (forall i :: 0 <= i < |v| ==> v[i] < 128 && v[i] == buf[i] & 0x7F)
      && (forall i :: 0 <= i < |v| - 1 ==> buf[i] > 127)
      && buf[|v| - 1] <= 127
      && (nullAware ==> forall i :: 0 <= i < |v| ==> buf[i] != 0)
  {
    var n := ValueLength(buf, nullAware).value;
    assert Terminates(buf, n - 1, nullAware);
  }

  /** A read fails, consuming nothing, when every buffered byte has the
      high bit set (the empty buffer included). */
  lemma {:induction false} VariableLengthValueUnterminated(buf: seq<bv8>, nullAware: bool)
    requires forall i :: 0 <= i < |buf| ==> buf[i] > 127
    ensures VariableLengthValue(buf, nullAware) == None
  {
    forall k | 0 <= k < |buf| ensures !Terminates(buf, k, nullAware) {
    }
  }

  /** The 0x00-aware read also fails when a 0x00 byte comes before the byte
      that would end the value. */
  lemma {:induction false} VariableLengthValueNullBeforeEnd(buf: seq<bv8>, z: nat)
    requires z < |buf| && buf[z] == 0
    requires forall i :: 0 <= i < z ==> buf[i] > 127
    ensures VariableLengthValue(buf, true) == None
  {
    forall k | 0 <= k < |buf| ensures !Terminates(buf, k, true) {
      if k > z {
        assert !(buf[z] > 127);
      }
    }
  }

  /** The wire form of a list of 7-bit groups: every group but the last
      carries the continuation bit. */
  function Continued(groups: seq<bv8>): (r: seq<bv8>)
    ensures |r| == |groups|
  {
    seq(|groups|, i requires 0 <= i < |groups| => if i < |groups| - 1 then groups[i] | 0x80 else groups[i])
  }

  /** Reading back the wire form of a non-empty list of 7-bit groups gives
      the groups and leaves whatever follows. The 0x00-aware variant also
      needs the last group to be non-zero. */
  lemma {:induction false} ContinuedRoundTrip(groups: seq<bv8>, rest: seq<bv8>, nullAware: bool)
    requires |groups| >= 1
    requires forall i :: 0 <= i < |groups| ==> groups[i] < 128
    requires nullAware ==> groups[|groups| - 1] != 0
    ensures ValueLength(Continued(groups) + rest, nullAware) == Some(|groups|)
    ensures VariableLengthValue(Continued(groups) + rest, nullAware) == Some(groups)
  {
    var buf := Continued(groups) + rest;
    var k := |groups| - 1;
    assert Terminates(buf, k, nullAware) by {
      assert buf[k] == groups[k];
      forall i | 0 <= i < k ensures buf[i] > 127 {
        assert buf[i] == groups[i] | 0x80;
      }
      if nullAware {
        forall i | 0 <= i <= k ensures buf[i] != 0 {
          if i < k { assert buf[i] == groups[i] | 0x80; }
        }
      }
    }
    var r := ValueLength(buf, nullAware);
    assert r.Some?;
    TerminatorUnique(buf, r.value - 1, k, nullAware);
    assert buf[..|groups|] == Continued(groups);
    var m := Masked(Continued(groups));
    forall i | 0 <= i < |groups| ensures m[i] == groups[i] {
      if i < k {
        assert m[i] == (groups[i] | 0x80) & 0x7F;
      }
    }
    assert m == groups;
  }

  /** The byte store. `nullTerminatesValues` selects the src/parseStream.ts
      variant, whose variable-length read also stops at a 0x00 byte. */
  class StreamBuffer {
    const nullTerminatesValues: bool
    var buffer: seq<bv8>

    constructor (nullTerminatesValues: bool)
      ensures this.nullTerminatesValues == nullTerminatesValues
      ensures buffer == []
    {
      this.nullTerminatesValues := nullTerminatesValues;
      buffer := [];
    }

    /** `indexOf` of the src/parseStream.ts variant. */
    function IndexOf(values: seq<bv8>): (r: int)
      reads this
      ensures r == -1 || OccursAt(buffer, values, r)
      ensures forall q :: 0 <= q && (r == -1 || q < r) ==> !OccursAt(buffer, values, q)
    {
      Common.IndexOf(buffer, values)
    }

    /** The `inner` getter of the src/parseStream.ts variant. */
    function Inner(): seq<bv8>
      reads this
    {
      buffer
    }

    /** The `length` getter of the src/parseStream.ts variant. */
    function Length(): nat
      reads this
    {
      |buffer|
    }

    method Push(chunk: seq<bv8>)
      modifies this
      ensures buffer == old(buffer) + chunk
    {
      buffer := buffer + chunk;
    }

    /** Drops and returns the first `length` bytes. */
    method Read(length: nat) returns (r: seq<bv8>)
      requires length <= |buffer|
      modifies this
      ensures r == old(buffer)[..length] && buffer == old(buffer)[length..]
      ensures old(buffer) == r + buffer
    {
      r := buffer[..length];
      buffer := buffer[length..];
    }

    /** Consumes up to and including the first occurrence of `values`. The
        source always takes `index + 2` bytes, so the delimiter is assumed to
        be two bytes long or more. */
    method TryReadUntil(values: seq<bv8>) returns (r: Option<seq<bv8>>)
      requires |values| >= 2
      modifies this
      ensures var i := Common.IndexOf(old(buffer), values);
        && (i >= 0 ==> r == Some(old(buffer)[..i + 2]) && buffer == old(buffer)[i + 2..])
        && (i < 0 ==> r == None && buffer == old(buffer))
      ensures r.Some? ==> old(buffer) == r.value + buffer
    {
      var index := Common.IndexOf(buffer, values);
      if index >= 0 {
        var bytes := Read(index + 2);
        return Some(bytes);
      }
      return None;
    }

    /** Matches `values` against the head of the buffer; consumes them only
        on a full match. */
    method TryReadValues(values: seq<bv8>) returns (count: nat)
      modifies this
      ensures count == MatchCount(old(buffer), values)
      ensures buffer == if count == |values| then old(buffer)[|values|..] else old(buffer)
    {
      var buf := buffer;
      var index := 0;
      while index <= |buf| && At(buf, index) == At(values, index)
        invariant 0 <= index <= |buf| + 1
        invariant forall k :: 0 <= k < index ==> At(buf, k) == At(values, k)
        decreases |buf| + 1 - index
      {
        index := index + 1;
      }
      AgreementCount(buf, values, index);
      if index == |values| {
        MatchCountFull(buf, values);
        var _ := Read(|values|);
      }
      count := index;
    }

    /** Returns exactly `length` bytes when that many are buffered. */
    method TryReadLength(length: nat) returns (r: Option<seq<bv8>>)
      modifies this
      ensures |old(buffer)| >= length ==> r == Some(old(buffer)[..length]) && buffer == old(buffer)[length..]
      ensures |old(buffer)| < length ==> r == None && buffer == old(buffer)
    {
      if |buffer| >= length {
        var bytes := Read(length);
        return Some(bytes);
      }
      return None;
    }

    /** Collects the 7-bit groups of one variable-length value, consuming
        them only when the value is complete. */
    method TryReadVariableLengthValue() returns (r: Option<seq<bv8>>)
      modifies this
      ensures r == VariableLengthValue(old(buffer), nullTerminatesValues)
      ensures buffer == if r.Some? then old(buffer)[|r.value|..] else old(buffer)
    {
      var buf := buffer;
      var row: seq<bv8> := [];
      var position := 0;
      var current: bv8 := 0x80;
      while current > 127
        invariant buffer == buf == old(buffer)
        invariant 0 <= position <= |buf| && |row| == position
        invariant row == Masked(buf[..position])
        invariant forall i :: 0 <= i < position - 1 ==> buf[i] > 127
        invariant position == 0 ==> current > 127
        invariant position > 0 ==> current == buf[position - 1]
        invariant nullTerminatesValues ==> forall i :: 0 <= i < position ==> buf[i] != 0
        decreases |buf| - position, current
      {
        if position == |buf| || (nullTerminatesValues && buf[position] == 0) {
          NoTerminatorYet(buf, position, nullTerminatesValues);
          return None;
        }
        current := buf[position];
        MaskedSnoc(buf, position);
        position := position + 1;
        row := row + [current & 0x7F];
      }
      CompleteValue(buf, position, nullTerminatesValues);
      r := Some(row);
      var _ := Read(|row|);
    }
  }

  lemma {:induction false} MaskedSnoc(buf: seq<bv8>, position: nat)
    requires position < |buf|
    ensures Masked(buf[..position + 1]) == Masked(buf[..position]) + [buf[position] & 0x7F]
  {
    assert buf[..position + 1] == buf[..position] + [buf[position]];
  }

  /** The loop of `tryReadVariableLengthValue` stops after the byte that
      ends the value. */
  lemma {:induction false} CompleteValue(buf: seq<bv8>, position: nat, nullAware: bool)
    requires 0 < position <= |buf| && buf[position - 1] <= 127
    requires forall i :: 0 <= i < position - 1 ==> buf[i] > 127
    requires nullAware ==> forall i :: 0 <= i < position ==> buf[i] != 0
    ensures VariableLengthValue(buf, nullAware) == Some(Masked(buf[..position]))
  {
    assert Terminates(buf, position - 1, nullAware);
    var n := ValueLength(buf, nullAware);
    assert n.Some?;
    TerminatorUnique(buf, n.value - 1, position - 1, nullAware);
  }

  /** Where the loop of `tryReadValues` stops determines the count. */
  lemma {:induction false} AgreementCount(buf: seq<bv8>, values: seq<bv8>, index: nat)
    requires index <= |buf| + 1
    requires forall k :: 0 <= k < index ==> At(buf, k) == At(values, k)
    requires index <= |buf| ==> At(buf, index) != At(values, index)
    ensures index == MatchCount(buf, values)
  {
    if index == |buf| + 1 {
      assert At(buf, |buf|) == At(values, |buf|);
      if |buf| > 0 {
        assert At(buf, |buf| - 1) == At(values, |buf| - 1);
      }
      assert |values| == |buf|;
      forall k | 0 <= k < |buf| ensures buf[k] == values[k] {
        assert At(buf, k) == At(values, k);
      }
      assert buf == values;
    } else {
      assert |values| < index ==> At(buf, |values|) == At(values, |values|);
      forall k | 0 <= k < index ensures buf[k] == values[k] {
        assert At(buf, k) == At(values, k);
      }
      assert buf[..index] == values[..index];
      assert buf != values;
    }
  }

  /** The variable-length read gives up at `position` only when no byte
      terminates a value. */
  lemma {:induction false} NoTerminatorYet(buf: seq<bv8>, position: nat, nullAware: bool)
    requires position <= |buf|
    requires forall i :: 0 <= i < position ==> buf[i] > 127
    requires position == |buf| || (nullAware && buf[position] == 0)
    ensures ValueLength(buf, nullAware) == None
  {
    forall k | 0 <= k < |buf| ensures !Terminates(buf, k, nullAware) {
      if k > position {
        assert !(buf[position] > 127);
      }
    }
  }
}
