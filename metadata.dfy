/** Metadata extraction of src/metadata.ts: the chart size from `RA=w,h`
    in `BSB` entries and palette colours from `i,r,g,b` in `RGB` entries,
    folded over the text entries in order. */
module Metadata {
  import opened Common
  import opened Text

  /** A palette colour; `a` is absent for every colour parsed from text. */
  datatype Color = Color(r: nat, g: nat, b: nat, a: Option<nat>)

  /** Palette index (as written in the `RGB` entry) to colour. */
  type Palette = map<nat, Color>

  datatype Size = Size(height: nat, width: nat)

  /** `{}` is `BsbMetadata(None, None)`; the spread `{...m, k: v}` is an
      update of one field. */
  datatype BsbMetadata = BsbMetadata(palette: Option<Palette>, size: Option<Size>)

  const EmptyMetadata := BsbMetadata(None, None)

  // ---------------------------------------------------------------------
  // Digit runs and parseInt

  predicate IsDigit(c: char)
  {
    '0' <= c <= '9'
  }

  /** `s[i..e]` is a maximal run of digits: nothing but digits inside, and
      no digit right after it. */
  predicate DigitRun(s: string, i: int, e: int)
  {
    0 <= i <= e <= |s| && (forall k :: i <= k < e ==> IsDigit(s[k])) && (e < |s| ==> !IsDigit(s[e]))
  }

  /** The end of the run of digits that starts at `i` (greedy `\d*`). */
  function DigitsEnd(s: string, i: nat): (e: nat)
    requires i <= |s|
    ensures i <= e <= |s|
    decreases |s| - i
  {
    if i < |s| && IsDigit(s[i]) then DigitsEnd(s, i + 1) else i
  }

  /** What `DigitsEnd` finds is a maximal run of digits. */
  lemma {:induction false} DigitsEndRun(s: string, i: nat)
    requires i <= |s|
    ensures DigitRun(s, i, DigitsEnd(s, i))
    decreases |s| - i
  {
    if i < |s| && IsDigit(s[i]) {
      DigitsEndRun(s, i + 1);
    }
  }

  /** A maximal run of digits is the one `DigitsEnd` finds. */
  lemma {:induction false} DigitsEndUnique(s: string, i: nat, e: nat)
    requires i <= |s|
    requires DigitRun(s, i, e)
    ensures DigitsEnd(s, i) == e
    decreases |s| - i
  {
    if i < e {
      DigitsEndUnique(s, i + 1, e);
    }
  }

  function DigitValue(c: char): nat
  {
    if IsDigit(c) then (c as int) - ('0' as int) else 0
  }

  /** `parseInt(ds, 10)` of a string of decimal digits. */
  function DecimalValue(ds: string): nat
  {
    if |ds| == 0 then 0 else 10 * DecimalValue(ds[..|ds| - 1]) + DigitValue(ds[|ds| - 1])
  }

  /** The digits of `n`, most significant first (model-only, for examples
      and round trips). */
  function DecimalDigits(n: nat): (ds: string)
    ensures |ds| >= 1 && forall k :: 0 <= k < |ds| ==> IsDigit(ds[k])
    ensures DecimalValue(ds) == n
  {
    var last := ['0' + (n % 10) as char];
    if n < 10 then last
    else
      var ds := DecimalDigits(n / 10) + last;
      assert ds[..|ds| - 1] == DecimalDigits(n / 10);
      ds
  }

  // ---------------------------------------------------------------------
  // The size pattern `RA=(\d+),(\d+)`

  const SizeKey: string := "RA="

  /** `RA=<d1>,<d2>` occurs at `p`, the second run being maximal as the
      greedy `\d+` takes it. */
  predicate SizeMatchAt(line: string, p: nat, d1: string, d2: string)
  {
    var q := p + |SizeKey| + |d1| + 1;
    && |d1| > 0 && |d2| > 0
    && q + |d2| <= |line|
    && line[p..q + |d2|] == SizeKey + d1 + "," + d2
    && DigitRun(line, p + |SizeKey|, p + |SizeKey| + |d1|)
    && DigitRun(line, q, q + |d2|)
  }

  /** The numbers of `RA=<digits>,<digits>` when the pattern matches at `p`. */
  function SizeAt(line: string, p: nat): Option<(nat, nat)>
  {
    if p + |SizeKey| <= |line| && line[p..p + |SizeKey|] == SizeKey then
      var e1 := DigitsEnd(line, p + |SizeKey|);
      if e1 > p + |SizeKey| && e1 < |line| && line[e1] == ',' then
        var e2 := DigitsEnd(line, e1 + 1);
        if e2 > e1 + 1 then Some((DecimalValue(line[p + |SizeKey|..e1]), DecimalValue(line[e1 + 1..e2])))
        else None
      else None
    else None
  }

  /** Soundness of the scanner: a match found is a match of the pattern. */
  lemma {:induction false} SizeAtSound(line: string, p: nat)
    requires SizeAt(line, p).Some?
    ensures exists d1, d2 :: SizeMatchAt(line, p, d1, d2) && SizeAt(line, p) == Some((DecimalValue(d1), DecimalValue(d2)))
  {
    var e1 := DigitsEnd(line, p + |SizeKey|);
    var e2 := DigitsEnd(line, e1 + 1);
    DigitsEndRun(line, p + |SizeKey|);
    DigitsEndRun(line, e1 + 1);
    var d1 := line[p + |SizeKey|..e1];
    var d2 := line[e1 + 1..e2];
    assert line[p..e2] == line[p..p + |SizeKey|] + d1 + "," + d2;
    assert SizeMatchAt(line, p, d1, d2);
  }

  /** The pieces of a match, read off the line. */
  lemma {:induction false} SizeMatchParts(line: string, p: nat, d1: string, d2: string)
    requires SizeMatchAt(line, p, d1, d2)
    ensures line[p..p + |SizeKey|] == SizeKey
    ensures line[p + |SizeKey| + |d1|] == ','
    ensures line[p + |SizeKey|..p + |SizeKey| + |d1|] == d1
    ensures line[p + |SizeKey| + |d1| + 1..p + |SizeKey| + |d1| + 1 + |d2|] == d2
  {
    var q := p + |SizeKey| + |d1| + 1;
    var w := line[p..q + |d2|];
    assert w == SizeKey + d1 + "," + d2;
    assert line[p..p + |SizeKey|] == w[..|SizeKey|];
    assert line[q - 1] == w[|SizeKey| + |d1|];
    assert w[|SizeKey|..|SizeKey| + |d1|] == d1;
    forall k | 0 <= k < |d1| ensures line[p + |SizeKey| + k] == d1[k] {
      assert line[p + |SizeKey| + k] == w[|SizeKey| + k];
    }
    assert line[q..q + |d2|] == w[|SizeKey| + |d1| + 1..];
  }

  /** Completeness of the scanner: every occurrence of the pattern is found,
      with its numbers. */
  lemma {:induction false} SizeAtComplete(line: string, p: nat, d1: string, d2: string)
    requires SizeMatchAt(line, p, d1, d2)
    ensures SizeAt(line, p) == Some((DecimalValue(d1), DecimalValue(d2)))
  {
    SizeMatchParts(line, p, d1, d2);
    DigitsEndUnique(line, p + |SizeKey|, p + |SizeKey| + |d1|);
    DigitsEndUnique(line, p + |SizeKey| + |d1| + 1, p + |SizeKey| + |d1| + 1 + |d2|);
  }

  /** The leftmost match at or after `p` (the unanchored `exec`). */
  function SizeFrom(line: string, p: nat): (r: Option<(nat, nat)>)
    ensures r.Some? ==> exists q :: p <= q <= |line| && SizeAt(line, q) == r && forall q' :: p <= q' < q ==> SizeAt(line, q').None?
    ensures r.None? ==> forall q :: p <= q ==> SizeAt(line, q).None?
    decreases |line| + 1 - p
  {
    if p > |line| then
      assert forall q :: p <= q ==> SizeAt(line, q).None? by {
        forall q | p <= q ensures SizeAt(line, q).None? {
        }
      }
      None
    else if SizeAt(line, p).Some? then SizeAt(line, p)
    else SizeFrom(line, p + 1)
  }

  /** `/RA=(\d+),(\d+)/.exec(line)`: (width, height) of the leftmost match. */
  function SizeIn(line: string): Option<(nat, nat)>
  {
    SizeFrom(line, 0)
  }

  /** `parseSize`'s loop: the match in the first line that has one. */
  function SizeInLines(lines: seq<string>): (r: Option<(nat, nat)>)
    ensures r.Some? ==> exists i :: 0 <= i < |lines| && SizeIn(lines[i]) == r && forall j :: 0 <= j < i ==> SizeIn(lines[j]).None?
    ensures r.None? ==> forall i :: 0 <= i < |lines| ==> SizeIn(lines[i]).None?
  {
    if |lines| == 0 then None
    else if SizeIn(lines[0]).Some? then SizeIn(lines[0])
    else
      var r := SizeInLines(lines[1..]);
      assert forall i :: 1 <= i < |lines| ==> lines[i] == lines[1..][i - 1];
      r
  }

  /** `parseSize`: the first matching line sets the size, width first in the
      text; nothing else changes, and without a match nothing changes. */
  function ParseSize(entry: TextEntry, metadata: BsbMetadata): (r: BsbMetadata)
    ensures r.palette == metadata.palette
    ensures SizeInLines(entry.lines).None? ==> r == metadata
    ensures SizeInLines(entry.lines).Some? ==>
      r.size == Some(Size(SizeInLines(entry.lines).value.1, SizeInLines(entry.lines).value.0))
  {
    match SizeInLines(entry.lines)
    case None => metadata
    case Some((width, height)) => metadata.(size := Some(Size(height, width)))
  }

  // ---------------------------------------------------------------------
  // The palette pattern `^(\d+),(\d+),(\d+),(\d+)$`

  /** A non-empty run of digits (`\d+`). */
  predicate DigitField(f: string)
  {
    |f| > 0 && forall k :: 0 <= k < |f| ==> IsDigit(f[k])
  }

  /** `line` is exactly four non-empty digit fields separated by commas. */
  predicate PaletteLine(line: string, fields: seq<string>)
  {
    && |fields| == 4
    && (forall i :: 0 <= i < |fields| ==> DigitField(fields[i]))
    && line == Join(fields, ",")
  }

  /** `count` comma-separated digit fields from position `i` to the end of
      the line, scanned left to right as the anchored pattern matches. */
  function FieldsFrom(line: string, i: nat, count: nat): Option<seq<string>>
    requires i <= |line|
    decreases count
  {
    var e := DigitsEnd(line, i);
    if e == i || count == 0 then None
    else if count == 1 then (if e == |line| then Some([line[i..e]]) else None)
    else if e < |line| && line[e] == ',' then
      match FieldsFrom(line, e + 1, count - 1)
      case None => None
      case Some(rest) => Some([line[i..e]] + rest)
    else None
  }

  /** The four digit fields of a palette line. */
  function PaletteFields(line: string): Option<seq<string>>
  {
    FieldsFrom(line, 0, 4)
  }

  /** A field list from the scanner really spells the line. */
  lemma {:induction false} PaletteFieldsSound(line: string)
    requires PaletteFields(line).Some?
    ensures PaletteLine(line, PaletteFields(line).value)
  {
    FieldsFromSound(line, 0, 4);
    assert line[0..] == line;
  }

  /** A line of four digit fields is recognised, with those fields. */
  lemma {:induction false} PaletteFieldsComplete(line: string, fields: seq<string>)
    requires PaletteLine(line, fields)
    ensures PaletteFields(line) == Some(fields)
  {
    assert line[0..] == line;
    FieldsFromComplete(line, 0, fields);
  }

  lemma {:induction false} FieldsFromSound(line: string, i: nat, count: nat)
    requires i <= |line| && FieldsFrom(line, i, count).Some?
    ensures var fs := FieldsFrom(line, i, count).value;
      && |fs| == count
      && (forall k :: 0 <= k < |fs| ==> DigitField(fs[k]))
      && line[i..] == Join(fs, ",")
    decreases count
  {
    var e := DigitsEnd(line, i);
    DigitsEndRun(line, i);
    var f := line[i..e];
    assert DigitField(f) by {
      forall k | 0 <= k < |f| ensures IsDigit(f[k]) {
        assert f[k] == line[i + k];
      }
    }
    if count == 1 {
      assert line[i..] == f;
    } else {
      FieldsFromSound(line, e + 1, count - 1);
      var rest := FieldsFrom(line, e + 1, count - 1).value;
      var fs := [f] + rest;
      assert fs[1..] == rest;
      assert line[i..] == f + "," + line[e + 1..] by {
        assert line[i..] == line[i..e] + [line[e]] + line[e + 1..];
      }
      forall k | 0 <= k < |fs| ensures DigitField(fs[k]) {
        if k > 0 {
          assert fs[k] == rest[k - 1];
        }
      }
    }
  }

  lemma {:induction false} FieldsFromComplete(line: string, i: nat, fields: seq<string>)
    requires i <= |line| && |fields| >= 1
    requires forall k :: 0 <= k < |fields| ==> DigitField(fields[k])
    requires line[i..] == Join(fields, ",")
    ensures FieldsFrom(line, i, |fields|) == Some(fields)
    decreases |fields|
  {
    var f := fields[0];
    assert DigitField(f);
    if |fields| == 1 {
      LastField(line, i, f);
      assert fields == [f];
    } else {
      var rest := fields[1..];
      JoinCons(fields, ",");
      FirstField(line, i, f, Join(rest, ","));
      forall k | 0 <= k < |rest| ensures DigitField(rest[k]) {
        assert rest[k] == fields[k + 1];
      }
      var j := i + |f| + 1;
      FieldsFromComplete(line, j, rest);
      FieldsFromStep(line, i, fields, j, rest);
    }
  }

  /** The first part, the separator and the join of the others. */
  lemma {:induction false} JoinCons(parts: seq<string>, sep: string)
    requires |parts| >= 2
    ensures Join(parts, sep) == parts[0] + sep + Join(parts[1..], sep)
  {
  }

  /** The last field runs to the end of the line. */
  lemma {:induction false} LastField(line: string, i: nat, f: string)
    requires i <= |line| && DigitField(f) && line[i..] == f
    ensures FieldsFrom(line, i, 1) == Some([f])
  {
    assert line[i..i + |f|] == f;
    FieldRun(line, i, f);
    assert line[i..i + |f|] == f;
  }

  /** A field followed by a comma and the rest of the line. */
  lemma {:induction false} FirstField(line: string, i: nat, f: string, tail: string)
    requires i <= |line| && DigitField(f) && line[i..] == f + "," + tail
    ensures i + |f| < |line| && line[i..i + |f|] == f && line[i + |f|] == ','
    ensures line[i + |f| + 1..] == tail
    ensures DigitsEnd(line, i) == i + |f|
  {
    var e := i + |f|;
    assert line[i..e] == line[i..][..|f|];
    assert line[e] == line[i..][|f|];
    assert line[e + 1..] == line[i..][|f| + 1..];
    FieldRun(line, i, f);
  }

  /** One scanner step: a field, a comma, and the fields after it. */
  lemma {:induction false} FieldsFromStep(line: string, i: nat, fields: seq<string>, j: nat, rest: seq<string>)
    requires |fields| >= 2 && rest == fields[1..] && j == i + |fields[0]| + 1 && j <= |line| && |fields[0]| > 0
    requires DigitsEnd(line, i) == j - 1 && line[i..j - 1] == fields[0] && line[j - 1] == ','
    requires FieldsFrom(line, j, |rest|) == Some(rest)
    ensures FieldsFrom(line, i, |fields|) == Some(fields)
  {
    var e := DigitsEnd(line, i);
    var count := |fields|;
    assert e != i && count != 0 && count != 1 && e < |line| && line[e] == ',';
    assert count - 1 == |rest|;
    assert FieldsFrom(line, e + 1, count - 1) == Some(rest);
    assert [line[i..e]] + rest == fields;
  }

  /** A digit field at `i` followed by a comma or the end of the line is
      the run the scanner finds. */
  lemma {:induction false} FieldRun(line: string, i: nat, f: string)
    requires i + |f| <= |line| && line[i..i + |f|] == f && DigitField(f)
    requires i + |f| == |line| || line[i + |f|] == ','
    ensures DigitsEnd(line, i) == i + |f|
  {
    forall k | i <= k < i + |f| ensures IsDigit(line[k]) {
      assert line[k] == f[k - i];
    }
    DigitsEndUnique(line, i, i + |f|);
  }

  /** The index and colour a palette line defines, or `None`. */
  function PaletteEntry(line: string): Option<(nat, Color)>
  {
    match PaletteFields(line)
    case None => None
    case Some(fs) =>
      Some((DecimalValue(fs[0]), Color(DecimalValue(fs[1]), DecimalValue(fs[2]), DecimalValue(fs[3]), None)))
  }

  /** `parsePalette`: only the entry's first line counts (an entry without
      lines tests the text "undefined", which never matches). A match sets
      one palette index, creating the palette if absent. */
  function ParsePalette(entry: TextEntry, metadata: BsbMetadata): (r: BsbMetadata)
    ensures r.size == metadata.size
    ensures (|entry.lines| == 0 || PaletteEntry(entry.lines[0]).None?) ==> r == metadata
    ensures |entry.lines| > 0 && PaletteEntry(entry.lines[0]).Some? ==>
      var (index, color) := PaletteEntry(entry.lines[0]).value;
      && r.palette.Some?
      && r.palette.value == metadata.palette.GetOr(map[])[index := color]
  {
    if |entry.lines| == 0 then metadata
    else
      match PaletteEntry(entry.lines[0])
      case None => metadata
      case Some((index, color)) => metadata.(palette := Some(metadata.palette.GetOr(map[])[index := color]))
  }

  // ---------------------------------------------------------------------
  // parseMetadata

  const SizeEntryType: string := "BSB"
  const PaletteEntryType: string := "RGB"

  /** `typeParsers[entry.entryType]` applied when present. */
  function ApplyEntry(metadata: BsbMetadata, entry: TextEntry): BsbMetadata
  {
    if entry.entryType == SizeEntryType then ParseSize(entry, metadata)
    else if entry.entryType == PaletteEntryType then ParsePalette(entry, metadata)
    else metadata
  }

  /** `parseMetadata`: the left fold of `ApplyEntry` from `{}`. */
  function MetadataOf(entries: seq<TextEntry>): BsbMetadata
  {
    if |entries| == 0 then EmptyMetadata
    else ApplyEntry(MetadataOf(entries[..|entries| - 1]), entries[|entries| - 1])
  }

  /** `parseMetadata`, the loop over the entries in order. */
  method ParseMetadata(textSegment: seq<TextEntry>) returns (metadata: BsbMetadata)
    ensures metadata == MetadataOf(textSegment)
  {
    metadata := EmptyMetadata;
    var i := 0;
    while i < |textSegment|
      invariant 0 <= i <= |textSegment|
      invariant metadata == MetadataOf(textSegment[..i])
    {
      assert textSegment[..i + 1][..i] == textSegment[..i];
      metadata := ApplyEntry(metadata, textSegment[i]);
      i := i + 1;
    }
    assert textSegment[..i] == textSegment;
  }

  predicate Recognised(entry: TextEntry)
  {
    entry.entryType == SizeEntryType || entry.entryType == PaletteEntryType
  }

  /** Entries of any other type leave the metadata as it was. */
  lemma {:induction false} OtherEntriesIgnored(entries: seq<TextEntry>, others: seq<TextEntry>)
    requires forall e :: e in others ==> !Recognised(e)
    ensures MetadataOf(entries + others) == MetadataOf(entries)
  {
    if |others| > 0 {
      var init := others[..|others| - 1];
      assert (entries + others)[..|entries + others| - 1] == entries + init;
      assert others[|others| - 1] in others;
      OtherEntriesIgnored(entries, init);
    } else {
      assert entries + others == entries;
    }
  }

  /** The colour index `index` gets from the last `RGB` entry that sets it:
      a reference definition read from the end. */
  function LastColor(entries: seq<TextEntry>, index: nat): Option<Color>
  {
    if |entries| == 0 then None
    else
      var e := entries[|entries| - 1];
      if e.entryType == PaletteEntryType && |e.lines| > 0 && PaletteEntry(e.lines[0]).Some? && PaletteEntry(e.lines[0]).value.0 == index
      then Some(PaletteEntry(e.lines[0]).value.1)
      else LastColor(entries[..|entries| - 1], index)
  }

  /** The palette holds exactly the colour of the last `RGB` entry for each
      index that any `RGB` entry sets: later entries overwrite earlier ones,
      and indices nobody sets are absent. */
  lemma {:induction false} PaletteIsLastWriter(entries: seq<TextEntry>, index: nat)
    ensures var palette := MetadataOf(entries).palette.GetOr(map[]);
      (index in palette <==> LastColor(entries, index).Some?) &&
      (index in palette ==> palette[index] == LastColor(entries, index).value)
  {
    if |entries| > 0 {
      PaletteIsLastWriter(entries[..|entries| - 1], index);
    }
  }

  /** The size set by the last `BSB` entry that has a match. */
  function LastSize(entries: seq<TextEntry>): Option<Size>
  {
    if |entries| == 0 then None
    else
      var e := entries[|entries| - 1];
      if e.entryType == SizeEntryType && SizeInLines(e.lines).Some?
      then Some(Size(SizeInLines(e.lines).value.1, SizeInLines(e.lines).value.0))
      else LastSize(entries[..|entries| - 1])
  }

  /** The size comes from the last `BSB` entry with a match, and is absent
      when there is none. */
  lemma {:induction false} SizeIsLastWriter(entries: seq<TextEntry>)
    ensures MetadataOf(entries).size == LastSize(entries)
  {
    if |entries| > 0 {
      SizeIsLastWriter(entries[..|entries| - 1]);
    }
  }

  /** The text of a palette line for index `index` and colour `(r, g, b)`. */
  function PaletteText(index: nat, r: nat, g: nat, b: nat): string
  {
    Join([DecimalDigits(index), DecimalDigits(r), DecimalDigits(g), DecimalDigits(b)], ",")
  }

  /** Every palette line written in decimal is read back as the same
      index and colour, without alpha. */
  lemma {:induction false} PaletteRoundTrip(index: nat, r: nat, g: nat, b: nat)
    ensures PaletteEntry(PaletteText(index, r, g, b)) == Some((index, Color(r, g, b, None)))
  {
    var fs := [DecimalDigits(index), DecimalDigits(r), DecimalDigits(g), DecimalDigits(b)];
    forall k | 0 <= k < |fs| ensures DigitField(fs[k]) {
    }
    PaletteFieldsComplete(PaletteText(index, r, g, b), fs);
  }

  /** A size field written in decimal, followed by anything that does not
      start with a digit, is read back as the same width and height. */
  lemma {:induction false} SizeRoundTrip(width: nat, height: nat, rest: string)
    requires |rest| == 0 || !IsDigit(rest[0])
    ensures SizeIn(SizeKey + DecimalDigits(width) + "," + DecimalDigits(height) + rest) == Some((width, height))
  {
    var d1 := DecimalDigits(width);
    var d2 := DecimalDigits(height);
    var line := SizeKey + d1 + "," + d2 + rest;
    var q := |SizeKey| + |d1| + 1;
    assert line[0..q + |d2|] == SizeKey + d1 + "," + d2;
    forall k | |SizeKey| <= k < |SizeKey| + |d1| ensures IsDigit(line[k]) {
      assert line[k] == d1[k - |SizeKey|];
    }
    assert line[|SizeKey| + |d1|] == ',';
    forall k | q <= k < q + |d2| ensures IsDigit(line[k]) {
      assert line[k] == d2[k - q];
    }
    if |rest| > 0 {
      assert line[q + |d2|] == rest[0];
    }
    assert SizeMatchAt(line, 0, d1, d2);
    SizeAtComplete(line, 0, d1, d2);
  }
}
