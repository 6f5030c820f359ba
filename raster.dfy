/** The raster run codec and compositor of src/raster.ts: mask tables,
    the base-128 row number, `(colorIndex, length)` run decoding by bit
    depth, row parsing, and the RGBA writer that paints rows into a
    caller's byte buffer in place. */
module Raster {
  import opened Common
  import opened Metadata

  datatype RasterRun = RasterRun(colorIndex: nat, length: nat)

  /** `rowNumber` is 1-based. */
  datatype RasterRow = RasterRow(rowNumber: nat, runs: seq<RasterRun>)

  /** Index `d`: the bits of a run's first byte that hold the colour index
      at bit depth `d`. */
  const ColorIndexMasks: seq<bv8> := [0x00, 0x40, 0x60, 0x70, 0x78, 0x7C, 0x7E, 0x7F]

  /** Index `d`: the bits of a run's first byte that start its length. */
  const RunLengthMasks: seq<bv8> := [0x7F, 0x3F, 0x1F, 0x0F, 0x07, 0x03, 0x01, 0x00]

  /** `table[bitDepth]` used as an operand of `&`: past the end of the table
      the lookup is `undefined`, and `x & undefined` is 0. */
  function MaskAt(table: seq<bv8>, bitDepth: nat): bv8
  {
    if bitDepth < |table| then table[bitDepth] else 0
  }

  /** The masks follow the formulas of their comments, split the low seven
      bits between them, and never include the continuation bit. */
  lemma {:induction false} MaskTables(d: nat)
    requires d <= 7
    ensures ColorIndexMasks[d] == (((1 as bv8) << d) - 1) << (7 - d)
    ensures RunLengthMasks[d] == ((1 as bv8) << (7 - d)) - 1
    ensures ColorIndexMasks[d] & RunLengthMasks[d] == 0
    ensures ColorIndexMasks[d] | RunLengthMasks[d] == 0x7F
  {
  }

  function Pow2(n: nat): (r: nat)
    ensures r >= 1
  {
    if n == 0 then 1 else 2 * Pow2(n - 1)
  }

  function Pow128(n: nat): (r: nat)
    ensures r >= 1
  {
    if n == 0 then 1 else 128 * Pow128(n - 1)
  }

  lemma {:induction false} Pow2Add(a: nat, b: nat)
    ensures Pow2(a + b) == Pow2(a) * Pow2(b)
  {
    if a > 0 {
      Pow2Add(a - 1, b);
    }
  }

  /** The colour bits and the length bits share the seven low bits. */
  lemma {:induction false} Pow2Split(d: nat)
    requires d <= 7
    ensures Pow2(d) * Pow2(7 - d) == 128
  {
    Pow2Add(d, 7 - d);
    assert d + (7 - d) == 7;
    assert Pow2(7) == 128;
  }

  // ---------------------------------------------------------------------
  // readRowNumber

  /** `readRowNumber`: the sum of `value[i] * 128^(|value|-1-i)`, the last
      value being the least significant. */
  function RowNumberOf(value: seq<bv8>): nat
  {
    if |value| == 0 then 0 else value[0] as nat * Pow128(|value| - 1) + RowNumberOf(value[1..])
  }

  /** The row number is big-endian base 128: appending a value shifts the
      number by one base-128 digit. */
  lemma {:induction false} RowNumberAppend(value: seq<bv8>, b: bv8)
    ensures RowNumberOf(value + [b]) == 128 * RowNumberOf(value) + b as nat
  {
    if |value| > 0 {
      var w := value + [b];
      assert w[1..] == value[1..] + [b];
      RowNumberAppend(value[1..], b);
      var v0 := value[0] as nat;
      var p := Pow128(|value| - 1);
      var rest := RowNumberOf(value[1..]);
      assert RowNumberOf(w) == v0 * Pow128(|value|) + RowNumberOf(w[1..]);
      assert RowNumberOf(w[1..]) == 128 * rest + b as nat;
      assert Pow128(|value|) == 128 * p;
      MulShift(v0, p);
      assert RowNumberOf(value) == v0 * p + rest;
    } else {
      assert [b][1..] == [];
    }
  }

  lemma {:induction false} MulShift(a: nat, p: nat)
    ensures a * (128 * p) == 128 * (a * p)
  {
  }

  /** With seven-bit values the row number has as many base-128 digits as
      there are values. */
  lemma {:induction false} RowNumberBound(value: seq<bv8>)
    requires forall k :: 0 <= k < |value| ==> value[k] < 128
    ensures RowNumberOf(value) < Pow128(|value|)
  {
    if |value| > 0 {
      var rest := value[1..];
      assert forall k :: 0 <= k < |rest| ==> rest[k] == value[k + 1];
      RowNumberBound(rest);
      LeadingDigitBound(value[0] as nat, Pow128(|value| - 1), RowNumberOf(rest));
    }
  }

  lemma {:induction false} LeadingDigitBound(d: nat, p: nat, r: nat)
    requires d < 128 && r < p
    ensures d * p + r < 128 * p
  {
    assert d * p <= 127 * p;
  }

  /** `readRowNumber`'s loop, from the last value to the first. */
  method ReadRowNumber(value: seq<bv8>) returns (number: nat)
    ensures number == RowNumberOf(value)
  {
    number := 0;
    var i := |value| - 1;
    var pow := 0;
    while i >= 0
      invariant -1 <= i < |value|
      invariant pow == |value| - 1 - i
      invariant number == RowNumberOf(value[i + 1..])
    {
      assert value[i..][1..] == value[i + 1..];
      number := number + value[i] as nat * Pow128(pow);
      i := i - 1;
      pow := pow + 1;
    }
    assert value[0..] == value;
  }

  // ---------------------------------------------------------------------
  // readRasterRun

  /** `value[0]` as an operand of `&`: `undefined` for an empty value. */
  function First(value: seq<bv8>): bv8
  {
    if |value| > 0 then value[0] else 0
  }

  /** `(x & colorIndexMasks[d]) >>> (7 - d)`. */
  function ColorBits(x: bv8, d: nat): nat
    requires d <= 7
  {
    ((x & ColorIndexMasks[d]) >> (7 - d)) as nat
  }

  /** `x & runLengthMasks[d]`. */
  function LengthBits(x: bv8, d: nat): nat
    requires d <= 7
  {
    (x & RunLengthMasks[d]) as nat
  }

  lemma {:induction false} MaskBits0(x: bv8)
    requires x < 128
    ensures ColorBits(x, 0) == x as int / 128
    ensures LengthBits(x, 0) == x as int % 128
  {
  }

  lemma {:induction false} MaskBits1(x: bv8)
    requires x < 128
    ensures ColorBits(x, 1) == x as int / 64
    ensures LengthBits(x, 1) == x as int % 64
  {
  }

  lemma {:induction false} MaskBits2(x: bv8)
    requires x < 128
    ensures ColorBits(x, 2) == x as int / 32
    ensures LengthBits(x, 2) == x as int % 32
  {
  }

  lemma {:induction false} MaskBits3(x: bv8)
    requires x < 128
    ensures ColorBits(x, 3) == x as int / 16
    ensures LengthBits(x, 3) == x as int % 16
  {
  }

  lemma {:induction false} MaskBits4(x: bv8)
    requires x < 128
    ensures ColorBits(x, 4) == x as int / 8
    ensures LengthBits(x, 4) == x as int % 8
  {
  }

  lemma {:induction false} MaskBits5(x: bv8)
    requires x < 128
    ensures ColorBits(x, 5) == x as int / 4
    ensures LengthBits(x, 5) == x as int % 4
  {
  }

  lemma {:induction false} MaskBits6(x: bv8)
    requires x < 128
    ensures ColorBits(x, 6) == x as int / 2
    ensures LengthBits(x, 6) == x as int % 2
  {
  }

  lemma {:induction false} MaskBits7(x: bv8)
    requires x < 128
    ensures ColorBits(x, 7) == x as int / 1
    ensures LengthBits(x, 7) == x as int % 1
  {
  }

  /** Neither mask includes the continuation bit. */
  lemma {:induction false} LowSeven(x: bv8, d: nat)
    requires d <= 7
    ensures (x & 0x7F) as int == x as int % 128
    ensures ColorBits(x & 0x7F, d) == ColorBits(x, d) && LengthBits(x & 0x7F, d) == LengthBits(x, d)
  {
  }

  /** The mask operations as arithmetic: the colour index is the top `d`
      of the low seven bits, the length bits are the rest. */
  lemma {:induction false} MaskBits(x: bv8, d: nat)
    requires d <= 7
    ensures ColorBits(x, d) == (x as int % 128) / Pow2(7 - d)
    ensures LengthBits(x, d) == (x as int % 128) % Pow2(7 - d)
  {
    LowSeven(x, d);
    LowBits(x & 0x7F, d);
  }

  lemma {:induction false} LowBits(x: bv8, d: nat)
    requires x < 128 && d <= 7
    ensures ColorBits(x, d) == x as int / Pow2(7 - d)
    ensures LengthBits(x, d) == x as int % Pow2(7 - d)
  {
    if d == 0 {
      MaskBits0(x);
      assert Pow2(7 - d) == 128;
    } else if d == 1 {
      MaskBits1(x);
      assert Pow2(7 - d) == 64;
    } else if d == 2 {
      MaskBits2(x);
      assert Pow2(7 - d) == 32;
    } else if d == 3 {
      MaskBits3(x);
      assert Pow2(7 - d) == 16;
    } else if d == 4 {
      MaskBits4(x);
      assert Pow2(7 - d) == 8;
    } else if d == 5 {
      MaskBits5(x);
      assert Pow2(7 - d) == 4;
    } else if d == 6 {
      MaskBits6(x);
      assert Pow2(7 - d) == 2;
    } else {
      MaskBits7(x);
      assert Pow2(7 - d) == 1;
    }
  }

  /** The colour index of a run. Past bit depth 7 both the mask and the
      result are 0. */
  function ColorIndexOf(value: seq<bv8>, bitDepth: nat): nat
  {
    if bitDepth <= 7 then ColorBits(First(value), bitDepth) else 0
  }

  /** `value` with its first element masked (`v &= lengthMask` at `i === 0`). */
  function MaskFirst(value: seq<bv8>, mask: bv8): (r: seq<bv8>)
    ensures |r| == |value|
  {
    if |value| == 0 then value else [value[0] & mask] + value[1..]
  }

  /** The run length: one more than the base-128 value of the run's bytes
      with the colour bits of the first cleared. */
  function RunLengthOf(value: seq<bv8>, bitDepth: nat): nat
  {
    1 + RowNumberOf(MaskFirst(value, MaskAt(RunLengthMasks, bitDepth)))
  }

  /** `readRasterRun`. */
  function RunOf(value: seq<bv8>, bitDepth: nat): RasterRun
  {
    RasterRun(ColorIndexOf(value, bitDepth), RunLengthOf(value, bitDepth))
  }

  /** `readRasterRun`, with its length loop from the last value to the first. */
  method ReadRasterRun(value: seq<bv8>, bitDepth: nat) returns (run: RasterRun)
    ensures run == RunOf(value, bitDepth)
  {
    var colorIndex: nat := if bitDepth <= 7 then ColorBits(First(value), bitDepth) else 0;
    var lengthMask := MaskAt(RunLengthMasks, bitDepth);
    var length: nat := 1;
    ghost var masked := MaskFirst(value, lengthMask);
    var i := |value| - 1;
    var j := 0;
    while i >= 0
      invariant -1 <= i < |value|
      invariant j == |value| - 1 - i
      invariant length == 1 + RowNumberOf(masked[i + 1..])
    {
      var v := value[i];
      if i == 0 {
        v := v & lengthMask;
      }
      MaskedStep(value, lengthMask, i);
      length := length + v as nat * Pow128(j);
      i := i - 1;
      j := j + 1;
    }
    assert masked[0..] == masked;
    run := RasterRun(colorIndex, length);
  }

  /** One step of the length loop: the value at `i`, masked if first, is
      the leading digit of the masked suffix from `i`. */
  lemma {:induction false} MaskedStep(value: seq<bv8>, mask: bv8, i: nat)
    requires i < |value|
    ensures var masked := MaskFirst(value, mask);
      RowNumberOf(masked[i..]) ==
        (if i == 0 then value[0] & mask else value[i]) as nat * Pow128(|value| - 1 - i) + RowNumberOf(masked[i + 1..])
  {
    var masked := MaskFirst(value, mask);
    assert masked[i..][1..] == masked[i + 1..];
    assert masked[i] == if i == 0 then value[0] & mask else value[i];
  }

  /** Decoded fields: the colour index fits the bit depth and is the top
      bits of the first byte; the length is at least 1 and is the
      remaining bits of the first byte followed by the other bytes in base
      128. */
  lemma {:induction false} RunFields(value: seq<bv8>, bitDepth: nat)
    requires 1 <= |value| && bitDepth <= 7
    ensures RunOf(value, bitDepth).colorIndex == (value[0] as int % 128) / Pow2(7 - bitDepth)
    ensures RunOf(value, bitDepth).colorIndex < Pow2(bitDepth)
    ensures RunOf(value, bitDepth).length ==
      1 + ((value[0] as int % 128) % Pow2(7 - bitDepth)) * Pow128(|value| - 1) + RowNumberOf(value[1..])
  {
    MaskBits(value[0], bitDepth);
    Pow2Split(bitDepth);
    DivBound(value[0] as int % 128, Pow2(7 - bitDepth), Pow2(bitDepth));
    var masked := MaskFirst(value, RunLengthMasks[bitDepth]);
    assert masked[0] as nat == LengthBits(value[0], bitDepth);
    assert masked[1..] == value[1..];
  }

  lemma {:induction false} DivBound(y: nat, p: nat, m: nat)
    requires p > 0 && y < m * p
    ensures y / p < m
  {
  }

  /** At bit depth 4 the byte 0x78 is colour 15, length 1; followed by the
      byte 0x05 its low length bits become the high digit of `length - 1`. */
  lemma {:induction false} RunExample(value: seq<bv8>, longer: seq<bv8>)
    requires value == [0x78] && longer == [0x79, 0x05]
    ensures RunOf(value, 4) == RasterRun(15, 1)
    ensures RunOf(longer, 4) == RasterRun(15, 1 + 1 * 128 + 5)
  {
    RunFields(value, 4);
    RunFields(longer, 4);
    assert Pow2(3) == 8;
    assert longer[1..] == [0x05];
    assert RowNumberOf([0x05]) == 5;
  }

  // ---------------------------------------------------------------------
  // A run encoder (not part of the decoder; used to state its round trip)

  /** How many base-128 groups follow the first byte for length-1 `n` when
      the first byte holds `lengthBits` bits of it. */
  function ExtraGroups(n: nat, lengthBits: nat): nat
    decreases n
  {
    if n < Pow2(lengthBits) then 0 else 1 + ExtraGroups(n / 128, lengthBits)
  }

  /** The `k` low base-128 digits of `n`, most significant first. */
  function Digits(n: nat, k: nat): (r: seq<bv8>)
    ensures |r| == k && forall i :: 0 <= i < k ==> r[i] < 128
  {
    ByteOfValue(n % 128);
    if k == 0 then [] else Digits(n / 128, k - 1) + [ByteOf(n % 128)]
  }

  /** What is left for the first byte fits in its length bits. */
  lemma {:induction false} HighPartFits(n: nat, lengthBits: nat)
    ensures n / Pow128(ExtraGroups(n, lengthBits)) < Pow2(lengthBits)
    decreases n
  {
    if n >= Pow2(lengthBits) {
      var e := ExtraGroups(n / 128, lengthBits);
      HighPartFits(n / 128, lengthBits);
      DivDiv(n, 128, Pow128(e));
    }
  }

  lemma {:induction false} DivDiv(n: nat, a: nat, b: nat)
    requires a > 0 && b > 0
    ensures n / (a * b) == (n / a) / b
  {
    var q := (n / a) / b;
    var r := (n / a) % b;
    assert n / a == q * b + r;
    assert n == (q * b + r) * a + n % a;
    assert n == q * (a * b) + (r * a + n % a);
    assert r * a + n % a < a * b by {
      assert r * a <= (b - 1) * a;
    }
    DivModUnique(n, a * b, q, r * a + n % a);
  }

  lemma {:induction false} MulAtLeast(d: int, p: int)
    requires d >= 1 && p > 0
    ensures d * p >= p
  {
  }

  /** Euclidean division by a positive number is unique. */
  lemma {:induction false} DivModUnique(n: int, p: int, q: int, r: int)
    requires p > 0 && 0 <= r < p && n == q * p + r
    ensures n / p == q && n % p == r
  {
    var q' := n / p;
    var r' := n % p;
    assert n == q' * p + r';
    var d := q - q';
    assert d * p == q * p - q' * p;
    assert d * p == r' - r;
    if d >= 1 {
      MulAtLeast(d, p);
    } else if d <= -1 {
      MulAtLeast(-d, p);
    }
  }

  /** The row number of the digits of `n` is `n` modulo `128^k`. */
  lemma {:induction false} DigitsValue(n: nat, k: nat)
    ensures RowNumberOf(Digits(n, k)) == n % Pow128(k)
  {
    if k > 0 {
      var low := n % 128;
      DigitsValue(n / 128, k - 1);
      RowNumberAppend(Digits(n / 128, k - 1), ByteOf(low));
      ByteOfValue(low);
      ModStep(n, Pow128(k - 1));
    }
  }

  /** `n mod 128p` from `(n div 128) mod p` and `n mod 128`. */
  lemma {:induction false} ModStep(n: nat, p: nat)
    requires p > 0
    ensures n % (128 * p) == 128 * ((n / 128) % p) + n % 128
  {
    var q := (n / 128) / p;
    var m := (n / 128) % p;
    var low := n % 128;
    DivModIdentity(n / 128, p);
    DivModIdentity(n, 128);
    assert n == 128 * (q * p + m) + low;
    assert n == q * (128 * p) + (128 * m + low);
    DivModUnique(n, 128 * p, q, 128 * m + low);
  }

  lemma {:induction false} DivModIdentity(x: int, p: int)
    requires p > 0
    ensures x == (x / p) * p + x % p && 0 <= x % p < p
  {
  }

  lemma {:induction false} SmallMod(x: int, m: int)
    requires 0 <= x < m
    ensures x % m == x
  {
  }

  /** The byte of value `m`, counted up from zero. */
  function ByteOf(m: nat): bv8
    requires m < 256
  {
    if m == 0 then 0 else ByteOf(m - 1) + 1
  }

  lemma {:induction false} ByteOfValue(m: nat)
    requires m < 256
    ensures ByteOf(m) as nat == m
    ensures m < 128 ==> ByteOf(m) < 128
  {
    if m > 0 {
      ByteOfValue(m - 1);
      ByteSucc(ByteOf(m - 1));
    }
    ByteBelow(ByteOf(m));
  }

  lemma {:induction false} ByteSucc(x: bv8)
    requires x as int < 255
    ensures (x + 1) as int == x as int + 1
  {
  }

  lemma {:induction false} ByteBelow(x: bv8)
    ensures x as int < 128 ==> x < 128
  {
  }

  /** The part of `n` that goes into the first byte. */
  function HighPart(n: nat, lengthBits: nat): nat
  {
    var p := Pow128(ExtraGroups(n, lengthBits));
    DivNat(n, p);
    n / p
  }

  lemma {:induction false} DivNat(n: nat, p: nat)
    requires p > 0
    ensures n / p >= 0
  {
  }

  /** The colour bits and the high part fit in the seven low bits. */
  lemma {:induction false} FirstFits(colorIndex: nat, n: nat, bitDepth: nat)
    requires bitDepth <= 7 && colorIndex < Pow2(bitDepth)
    ensures colorIndex * Pow2(7 - bitDepth) + HighPart(n, 7 - bitDepth) < 128
  {
    HighPartFits(n, 7 - bitDepth);
    Pow2Split(bitDepth);
    FirstByteFits(colorIndex, HighPart(n, 7 - bitDepth), Pow2(bitDepth), Pow2(7 - bitDepth));
  }

  /** The shortest encoding of the run `(colorIndex, length)` at the bit
      depth: colour bits and the high length bits in the first byte, the
      rest of `length - 1` in base-128 digits after it. */
  function EncodeRun(colorIndex: nat, length: nat, bitDepth: nat): (value: seq<bv8>)
    requires bitDepth <= 7 && colorIndex < Pow2(bitDepth) && length >= 1
    ensures |value| >= 1 && forall k :: 0 <= k < |value| ==> value[k] < 128
  {
    var n := length - 1;
    FirstFits(colorIndex, n, bitDepth);
    var first := colorIndex * Pow2(7 - bitDepth) + HighPart(n, 7 - bitDepth);
    ByteOfValue(first);
    var digits := Digits(n, ExtraGroups(n, 7 - bitDepth));
    var value := [ByteOf(first)] + digits;
    assert forall k :: 1 <= k < |value| ==> value[k] == digits[k - 1];
    value
  }

  lemma {:induction false} FirstByteFits(c: nat, h: nat, a: nat, p: nat)
    requires c < a && h < p
    ensures c * p + h < a * p
  {
    assert c * p <= (a - 1) * p;
  }

  /** The two parts of an encoded run. */
  lemma {:induction false} EncodeRunParts(colorIndex: nat, length: nat, bitDepth: nat)
    requires bitDepth <= 7 && colorIndex < Pow2(bitDepth) && length >= 1
    ensures colorIndex * Pow2(7 - bitDepth) + HighPart(length - 1, 7 - bitDepth) < 128
    ensures EncodeRun(colorIndex, length, bitDepth) ==
      [ByteOf(colorIndex * Pow2(7 - bitDepth) + HighPart(length - 1, 7 - bitDepth))] +
      Digits(length - 1, ExtraGroups(length - 1, 7 - bitDepth))
  {
    FirstFits(colorIndex, length - 1, bitDepth);
  }

  /** Decoding an encoded run gives the run back. */
  lemma {:induction false} EncodeRunRoundTrip(colorIndex: nat, length: nat, bitDepth: nat)
    requires bitDepth <= 7 && colorIndex < Pow2(bitDepth) && length >= 1
    ensures RunOf(EncodeRun(colorIndex, length, bitDepth), bitDepth) == RasterRun(colorIndex, length)
  {
    EncodeRunParts(colorIndex, length, bitDepth);
    DecodeEncoded(colorIndex, length, bitDepth);
  }

  /** The decoder applied to the two parts of an encoded run. */
  lemma {:induction false} DecodeEncoded(colorIndex: nat, length: nat, bitDepth: nat)
    requires bitDepth <= 7 && length >= 1
    requires colorIndex * Pow2(7 - bitDepth) + HighPart(length - 1, 7 - bitDepth) < 128
    ensures RunOf([ByteOf(colorIndex * Pow2(7 - bitDepth) + HighPart(length - 1, 7 - bitDepth))] +
      Digits(length - 1, ExtraGroups(length - 1, 7 - bitDepth)), bitDepth) == RasterRun(colorIndex, length)
  {
    var n := length - 1;
    var p := Pow2(7 - bitDepth);
    var e := ExtraGroups(n, 7 - bitDepth);
    var first := colorIndex * p + HighPart(n, 7 - bitDepth);
    var rest := Digits(n, e);
    HighPartFits(n, 7 - bitDepth);
    DigitsValue(n, e);
    var m := Pow128(e);
    assert |rest| == e;
    RoundTripArith(first, colorIndex, p, n, m);
    DecodeParts(first, rest, bitDepth, colorIndex, length);
  }

  /** The arithmetic of the round trip: the colour is the quotient, and the
      remainder with the low digits rebuilds `n`. */
  lemma {:induction false} RoundTripArith(first: int, c: nat, p: nat, n: nat, m: nat)
    requires p > 0 && m > 0 && n / m < p && first == c * p + n / m
    ensures first / p == c
    ensures 1 + (first % p) * m + n % m == 1 + n
  {
    DivModUnique(first, p, c, n / m);
    DivModIdentity(n, m);
  }

  /** A run whose first byte has value `first` (below 128) followed by
      `rest` decodes to the quotient and remainder of `first` by the
      length-bit range. */
  lemma {:induction false} DecodeParts(first: nat, rest: seq<bv8>, bitDepth: nat, c: nat, length: nat)
    requires first < 128 && bitDepth <= 7
    requires first / Pow2(7 - bitDepth) == c
    requires 1 + (first % Pow2(7 - bitDepth)) * Pow128(|rest|) + RowNumberOf(rest) == length
    ensures RunOf([ByteOf(first)] + rest, bitDepth) == RasterRun(c, length)
  {
    var value := [ByteOf(first)] + rest;
    ByteOfValue(first);
    RunFields(value, bitDepth);
    assert value[0] == ByteOf(first);
    assert value[0] as int == first;
    SmallMod(first, 128);
    assert |value| - 1 == |rest|;
    assert value[1..] == rest;
  }

  // ---------------------------------------------------------------------
  // parseRasterRow

  /** `parseRasterRow` as a value: the row number from the first value
      list, one run per following list; an empty row throws (`Array(-1)`). */
  function RasterRowOf(row: seq<seq<bv8>>, bitDepth: nat): Option<RasterRow>
  {
    if |row| == 0 then None
    else Some(RasterRow(RowNumberOf(row[0]), seq(|row| - 1, i requires 0 <= i < |row| - 1 => RunOf(row[i + 1], bitDepth))))
  }

  /** `parseRasterRow`, filling a preallocated array of runs. */
  method ParseRasterRow(row: seq<seq<bv8>>, bitDepth: nat) returns (r: Option<RasterRow>)
    ensures r == RasterRowOf(row, bitDepth)
    ensures r.Some? <==> |row| >= 1
    ensures r.Some? ==> r.value.rowNumber == RowNumberOf(row[0]) && |r.value.runs| == |row| - 1
    ensures r.Some? ==> forall i :: 0 <= i < |row| - 1 ==> r.value.runs[i] == RunOf(row[i + 1], bitDepth)
  {
    if |row| == 0 {
      return None;
    }
    var runs := new RasterRun[|row| - 1];
    var i := 0;
    while i < runs.Length
      invariant 0 <= i <= runs.Length
      invariant forall k :: 0 <= k < i ==> runs[k] == RunOf(row[k + 1], bitDepth)
    {
      runs[i] := ReadRasterRun(row[i + 1], bitDepth);
      i := i + 1;
    }
    var rowNumber := ReadRowNumber(row[0]);
    assert runs[..] == seq(|row| - 1, i requires 0 <= i < |row| - 1 => RunOf(row[i + 1], bitDepth));
    r := Some(RasterRow(rowNumber, runs[..]));
  }

  // ---------------------------------------------------------------------
  // writeRasterSegment

  /** A number stored into a `Uint8Array` element: taken modulo 256. */
  function ToUint8(n: nat): bv8
  {
    (n % 256) as bv8
  }

  /** A store into a typed array: ignored outside the array. */
  function Stored(buf: seq<bv8>, index: int, value: bv8): (r: seq<bv8>)
    ensures |r| == |buf|
    ensures forall j :: 0 <= j < |buf| ==> r[j] == if j == index then value else buf[j]
  {
    if 0 <= index < |buf| then buf[index := value] else buf
  }

  /** `buffer[index] = value` on a Node `Buffer`. */
  method Store(buffer: array<bv8>, index: int, value: bv8)
    modifies buffer
    ensures buffer[..] == Stored(old(buffer[..]), index, value)
  {
    if 0 <= index < buffer.Length {
      buffer[index] := value;
    }
  }

  /** The four stores of `writeRasterSegment`'s inner loop. */
  method StorePixel(buffer: array<bv8>, index: int, px: seq<bv8>)
    requires |px| == 4
    modifies buffer
    ensures buffer[..] == PutPixel(old(buffer[..]), index, px)
  {
    Store(buffer, index, px[0]);
    Store(buffer, index + 1, px[1]);
    Store(buffer, index + 2, px[2]);
    Store(buffer, index + 3, px[3]);
  }

  /** The colour a pixel of colour index `colorIndex` gets: the palette's,
      or transparent black when the palette has no such index. */
  function PixelColor(palette: Palette, colorIndex: nat): Color
  {
    if colorIndex in palette then palette[colorIndex] else Color(0, 0, 0, Some(0))
  }

  /** The four RGBA bytes written for a pixel; a colour without alpha is
      opaque. */
  function PixelBytes(palette: Palette, colorIndex: nat): (px: seq<bv8>)
    ensures |px| == 4
    ensures colorIndex !in palette ==> px == [0, 0, 0, 0]
    ensures colorIndex in palette ==>
      var c := palette[colorIndex];
      px == [ToUint8(c.r), ToUint8(c.g), ToUint8(c.b), if c.a.Some? then ToUint8(c.a.value) else 0xFF]
  {
    var rgba := PixelColor(palette, colorIndex);
    [ToUint8(rgba.r), ToUint8(rgba.g), ToUint8(rgba.b), ToUint8(rgba.a.GetOr(0xFF))]
  }

  function Repeat(c: nat, n: nat): (r: seq<nat>)
    ensures |r| == n && forall k :: 0 <= k < n ==> r[k] == c
  {
    if n == 0 then [] else Repeat(c, n - 1) + [c]
  }

  /** The colour index of each pixel the runs describe, left to right. */
  function Lay(runs: seq<RasterRun>): seq<nat>
  {
    if |runs| == 0 then [] else Lay(runs[..|runs| - 1]) + Repeat(runs[|runs| - 1].colorIndex, runs[|runs| - 1].length)
  }

  function Take<T>(s: seq<T>, n: nat): (r: seq<T>)
    ensures |r| == if |s| <= n then |s| else n
    ensures r == s[..|r|]
  {
    if |s| <= n then s else s[..n]
  }

  /** The pixels a row writes: its runs laid out, cut at the width. */
  function RowPixels(runs: seq<RasterRun>, width: nat): seq<nat>
  {
    Take(Lay(runs), width)
  }

  /** The bytes after pixels `colors` are written from x = 0 on line `y`:
      pixel x occupies bytes `(y * width + x) * 4` to `+ 3`. */
  function PaintRow(buf: seq<bv8>, y: int, colors: seq<nat>, palette: Palette, width: nat): (r: seq<bv8>)
    ensures |r| == |buf|
  {
    seq(|buf|, j requires 0 <= j < |buf| =>
      var start := y * width * 4;
      if start <= j < start + 4 * |colors| then PixelBytes(palette, colors[(j - start) / 4])[(j - start) % 4]
      else buf[j])
  }

  /** The bytes after all rows are written in order. */
  function Composite(buf: seq<bv8>, rows: seq<RasterRow>, palette: Palette, width: nat): (r: seq<bv8>)
    ensures |r| == |buf|
  {
    if |rows| == 0 then buf
    else
      var row := rows[|rows| - 1];
      PaintRow(Composite(buf, rows[..|rows| - 1], palette, width), row.rowNumber - 1, RowPixels(row.runs, width), palette, width)
  }

  /** Writing one more row paints it over the rows before. */
  lemma {:induction false} CompositeStep(buf: seq<bv8>, rows: seq<RasterRow>, r: nat, palette: Palette, width: nat)
    requires r < |rows|
    ensures Composite(buf, rows[..r + 1], palette, width) ==
      PaintRow(Composite(buf, rows[..r], palette, width), rows[r].rowNumber - 1, RowPixels(rows[r].runs, width), palette, width)
  {
    assert rows[..r + 1][..r] == rows[..r];
  }

  /** Four stores of one pixel's bytes. */
  function PutPixel(buf: seq<bv8>, index: int, px: seq<bv8>): seq<bv8>
    requires |px| == 4
  {
    Stored(Stored(Stored(Stored(buf, index, px[0]), index + 1, px[1]), index + 2, px[2]), index + 3, px[3])
  }

  /** Writing one more pixel extends the painted row by that pixel. */
  lemma {:induction false} PaintPixel(start: seq<bv8>, y: int, colors: seq<nat>, c: nat, palette: Palette, width: nat)
    ensures PaintRow(start, y, colors + [c], palette, width) ==
      PutPixel(PaintRow(start, y, colors, palette, width), y * width * 4 + |colors| * 4, PixelBytes(palette, c))
  {
    var a := PaintRow(start, y, colors + [c], palette, width);
    var b := PutPixel(PaintRow(start, y, colors, palette, width), y * width * 4 + |colors| * 4, PixelBytes(palette, c));
    forall j | 0 <= j < |start| ensures a[j] == b[j] {
      var s := y * width * 4;
      if s <= j < s + 4 * |colors| {
        assert (colors + [c])[(j - s) / 4] == colors[(j - s) / 4];
      }
    }
  }

  /** One more pixel of colour `c`, while the row is not full: the row
      grows by that pixel, whose four bytes are stored from `x * 4` on
      line `y`. */
  lemma {:induction false} PixelStep(start: seq<bv8>, before: seq<bv8>, y: int, laid: seq<nat>, c: nat, i: nat, palette: Palette, width: nat, index: int)
    requires |Take(laid + Repeat(c, i), width)| < width
    requires before == PaintRow(start, y, Take(laid + Repeat(c, i), width), palette, width)
    requires index == y * width * 4 + |Take(laid + Repeat(c, i), width)| * 4
    ensures |Take(laid + Repeat(c, i + 1), width)| == |Take(laid + Repeat(c, i), width)| + 1
    ensures PutPixel(before, index, PixelBytes(palette, c)) ==
      PaintRow(start, y, Take(laid + Repeat(c, i + 1), width), palette, width)
  {
    var painted := laid + Repeat(c, i);
    assert laid + Repeat(c, i + 1) == painted + [c];
    assert Take(painted + [c], width) == Take(painted, width) + [c];
    PaintPixel(start, y, Take(painted, width), c, palette, width);
  }

  /** When the run loop stops, because the run is done or the row is full,
      the pixels so far are those of the whole run, cut at the width. */
  lemma {:induction false} RunDone(laid: seq<nat>, c: nat, i: nat, length: nat, width: nat)
    requires i <= length
    requires i == length || |Take(laid + Repeat(c, i), width)| >= width
    ensures Take(laid + Repeat(c, i), width) == Take(laid + Repeat(c, length), width)
  {
    RepeatPrefix(c, i, length);
    if i < length {
      var s := laid + Repeat(c, i);
      var t := laid + Repeat(c, length);
      assert s == t[..|s|];
      TakeFull(s, t, width);
    }
  }

  /** The pixels of the first `k + 1` runs of a row. */
  lemma {:induction false} LayNext(runs: seq<RasterRun>, k: nat, width: nat)
    requires k < |runs|
    ensures RowPixels(runs[..k + 1], width) == Take(Lay(runs[..k]) + Repeat(runs[k].colorIndex, runs[k].length), width)
  {
    assert runs[..k + 1][..k] == runs[..k];
  }

  lemma {:induction false} RepeatPrefix(c: nat, i: nat, n: nat)
    requires i <= n
    ensures Repeat(c, i) == Repeat(c, n)[..i]
  {
  }

  /** A row whose pixels already fill the width is not extended by more. */
  lemma {:induction false} TakeFull<T>(s: seq<T>, t: seq<T>, n: nat)
    requires |s| <= |t| && s == t[..|s|] && |Take(s, n)| >= n
    ensures Take(s, n) == Take(t, n)
  {
  }

  /** `writeRasterSegment`: for each row in order, x restarts at 0 on line
      `rowNumber - 1`, and each run paints its colour until its length or
      the buffer width is reached. The buffer ends up exactly as
      `Composite` describes. The loop over a row's runs is `WriteRow` and
      the loop over a run's pixels is `WriteRun`. */
  method WriteRasterSegment(rasterSegment: seq<RasterRow>, palette: Palette, buffer: array<bv8>, bufferWidth: nat)
    modifies buffer
    ensures buffer[..] == Composite(old(buffer[..]), rasterSegment, palette, bufferWidth)
  {
    for r := 0 to |rasterSegment|
      invariant buffer[..] == Composite(old(buffer[..]), rasterSegment[..r], palette, bufferWidth)
    {
      WriteRow(rasterSegment[r], palette, buffer, bufferWidth);
      CompositeStep(old(buffer[..]), rasterSegment, r, palette, bufferWidth);
    }
    assert rasterSegment[..|rasterSegment|] == rasterSegment;
  }

  /** The body of `writeRasterSegment` for one row: the row's pixels cut
      at the width are painted on line `rowNumber - 1`. */
  method WriteRow(row: RasterRow, palette: Palette, buffer: array<bv8>, bufferWidth: nat)
    modifies buffer
    ensures buffer[..] == PaintRow(old(buffer[..]), row.rowNumber - 1, RowPixels(row.runs, bufferWidth), palette, bufferWidth)
  {
    var x := 0;
    var y := row.rowNumber - 1;
    ghost var start := buffer[..];
    for k := 0 to |row.runs|
      invariant x == |RowPixels(row.runs[..k], bufferWidth)|
      invariant buffer[..] == PaintRow(start, y, RowPixels(row.runs[..k], bufferWidth), palette, bufferWidth)
    {
      x := WriteRun(row.runs[k], palette, buffer, bufferWidth, y, x, start, Lay(row.runs[..k]));
      LayNext(row.runs, k, bufferWidth);
    }
    assert row.runs[..|row.runs|] == row.runs;
  }

  /** The body of `writeRasterSegment` for one run, from column `x0` on
      line `y`: the run's pixels are added to the row, up to the width. */
  method WriteRun(run: RasterRun, palette: Palette, buffer: array<bv8>, bufferWidth: nat, y: int, x0: nat,
                  ghost start: seq<bv8>, ghost laid: seq<nat>) returns (x: nat)
    requires x0 == |Take(laid, bufferWidth)|
    requires buffer[..] == PaintRow(start, y, Take(laid, bufferWidth), palette, bufferWidth)
    modifies buffer
    ensures x == |Take(laid + Repeat(run.colorIndex, run.length), bufferWidth)|
    ensures buffer[..] == PaintRow(start, y, Take(laid + Repeat(run.colorIndex, run.length), bufferWidth), palette, bufferWidth)
  {
    x := x0;
    var rgba := PixelBytes(palette, run.colorIndex);
    assert laid + Repeat(run.colorIndex, 0) == laid;
    var i := 0;
    while i < run.length && x < bufferWidth
      invariant 0 <= i <= run.length
      invariant x == |Take(laid + Repeat(run.colorIndex, i), bufferWidth)|
      invariant buffer[..] == PaintRow(start, y, Take(laid + Repeat(run.colorIndex, i), bufferWidth), palette, bufferWidth)
    {
      var index := (y * bufferWidth * 4) + (x * 4);
      ghost var before := buffer[..];
      StorePixel(buffer, index, rgba);
      PixelStep(start, before, y, laid, run.colorIndex, i, palette, bufferWidth, index);
      i := i + 1;
      x := x + 1;
    }
    RunDone(laid, run.colorIndex, i, run.length, bufferWidth);
  }
}
