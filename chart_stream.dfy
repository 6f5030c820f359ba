/** The chunk-driven decoding machine of src/chartStream.ts. The closures
    inside `parseChart` (src/index.ts) and the `ParseStream` class
    (src/parseStream.ts) are copies of it that differ in three small ways,
    so one machine parameterised by a `Variant` models all three. */
module ChartStream {
  import opened Common
  import opened ByteBuffer
  import Raster

  /** Which copy of the machine. */
  datatype Variant = ChartStreamVariant | ParseChartVariant | ParseStreamVariant

  /** Text records lose their CRLF (`text.length - textEntryEndToken.length`);
      `ParseStream` pushes the raw line with its CRLF. */
  predicate StripsLineEnd(v: Variant)
  {
    !v.ParseStreamVariant?
  }

  /** Only `ChartStream` emits a record for the bit depth; the others keep
      it in a variable. */
  predicate EmitsBitDepth(v: Variant)
  {
    v.ChartStreamVariant?
  }

  /** Only `parseChart` decodes each row (`parseRasterRow`) as it ends. */
  predicate DecodesRows(v: Variant)
  {
    v.ParseChartVariant?
  }

  /** Only the buffer of src/parseStream.ts stops a value at a 0x00 byte. */
  predicate NullAware(v: Variant)
  {
    v.ParseStreamVariant?
  }

  const TextEntryEndToken: seq<bv8> := [0x0D, 0x0A]
  const TextSegmentEndToken: seq<bv8> := [0x1A, 0x00]
  /** A single 0x00: the first byte of the index that follows the raster in
      BSB 3.07 files, which omit the 4-byte null token. */
  const RasterEndToken: seq<bv8> := [0x00]

  /** What the machine emits, in order. */
  datatype Record =
    | TextRecord(text: seq<bv8>)
    | BitDepthRecord(bitDepth: bv8)
    | RowRecord(row: seq<seq<bv8>>)
    | DecodedRowRecord(decoded: Raster.RasterRow)

  /** The processor currently installed; `Ended` follows the raster end
      token (`end()` / `completeParse()`), `Failed` follows a row that
      `parseRasterRow` rejects by throwing. */
  datatype Phase = InText | InBitDepth | InRasterSegment | InRasterRow | Ended | Failed

  /** The whole state: phase, buffered bytes, the value lists of the row
      being read, the bit depth once read, and the records emitted. */
  datatype Machine = Machine(phase: Phase, buf: seq<bv8>, row: seq<seq<bv8>>, bitDepth: Option<bv8>, records: seq<Record>)

  const Initial := Machine(InText, [], [], None, [])

  predicate Terminal(m: Machine)
  {
    m.phase == Ended || m.phase == Failed
  }

  /** The payload of a text record, from the bytes `tryReadUntil` returned. */
  function TextPayload(v: Variant, line: seq<bv8>): (r: seq<bv8>)
    requires |line| >= 2
    ensures StripsLineEnd(v) ==> line == r + line[|line| - 2..]
    ensures !StripsLineEnd(v) ==> r == line
  {
    if StripsLineEnd(v) then line[..|line| - 2] else line
  }

  /** The bit depth `parseRasterRow` receives. Before one is read the
      variable is `undefined`, which indexes the mask tables out of range
      as a depth above 7 does; the machine never decodes a row then. */
  function BitDepthOf(m: Machine): nat
  {
    if m.bitDepth.Some? then m.bitDepth.value as nat else 8
  }

  /** `processText`. */
  function NextText(v: Variant, m: Machine): (bool, Machine)
  {
    var count := MatchCount(m.buf, TextSegmentEndToken);
    MatchCountFull(m.buf, TextSegmentEndToken);
    if count == |TextSegmentEndToken| then (true, m.(phase := InBitDepth, buf := m.buf[|TextSegmentEndToken|..]))
    else if count > 0 then (false, m)
    else
      var i := IndexOf(m.buf, TextEntryEndToken);
      if i >= 0 then
        (true, m.(buf := m.buf[i + 2..], records := m.records + [TextRecord(TextPayload(v, m.buf[..i + 2]))]))
      else (false, m)
  }

  /** `processBitDepth`. */
  function NextBitDepth(v: Variant, m: Machine): (bool, Machine)
  {
    if |m.buf| >= 1 then
      var d := m.buf[0];
      (true, m.(phase := InRasterSegment, buf := m.buf[1..], bitDepth := Some(d),
                records := m.records + if EmitsBitDepth(v) then [BitDepthRecord(d)] else []))
    else (false, m)
  }

  /** `processRasterSegment`: a full end-token match ends the stream and
      stops the loop; a partial one waits; otherwise a row starts. */
  function NextRasterSegment(m: Machine): (bool, Machine)
  {
    var count := MatchCount(m.buf, RasterEndToken);
    MatchCountFull(m.buf, RasterEndToken);
    if count == |RasterEndToken| then (false, m.(phase := Ended, buf := m.buf[|RasterEndToken|..]))
    else if count > 0 then (false, m)
    else (true, m.(phase := InRasterRow))
  }

  /** `processRasterRow`: a full end-token match emits the row and clears
      it; a partial one waits; otherwise one variable-length value is
      added when it is complete. */
  function NextRasterRow(v: Variant, m: Machine): (bool, Machine)
  {
    var count := MatchCount(m.buf, RasterEndToken);
    MatchCountFull(m.buf, RasterEndToken);
    if count == |RasterEndToken| then
      var rest := m.buf[|RasterEndToken|..];
      if DecodesRows(v) then
        match Raster.RasterRowOf(m.row, BitDepthOf(m))
        case None => (false, m.(phase := Failed, buf := rest))
        case Some(decoded) =>
          (true, m.(phase := InRasterSegment, buf := rest, row := [], records := m.records + [DecodedRowRecord(decoded)]))
      else
        (true, m.(phase := InRasterSegment, buf := rest, row := [], records := m.records + [RowRecord(m.row)]))
    else if count > 0 then (false, m)
    else
      match VariableLengthValue(m.buf, NullAware(v))
      case None => (false, m)
      case Some(value) =>
        VariableLengthValueSuccess(m.buf, NullAware(v));
        (true, m.(buf := m.buf[|value|..], row := m.row + [value]))
  }

  /** One call of the installed processor: whether it made progress, and
      the new state. */
  function Next(v: Variant, m: Machine): (bool, Machine)
  {
    match m.phase
    case InText => NextText(v, m)
    case InBitDepth => NextBitDepth(v, m)
    case InRasterSegment => NextRasterSegment(m)
    case InRasterRow => NextRasterRow(v, m)
    case Ended => (false, m)
    case Failed => (false, m)
  }

  /** Two units per buffered byte, one more while a row may start: every
      step that reports progress lowers it. */
  function Weight(m: Machine): nat
  {
    2 * |m.buf| + if m.phase == InRasterSegment then 1 else 0
  }

  lemma {:induction false} NextProgress(v: Variant, m: Machine)
    ensures Next(v, m).0 ==> Weight(Next(v, m).1) < Weight(m)
  {
    if m.phase == InText && Next(v, m).0 {
      var i := IndexOf(m.buf, TextEntryEndToken);
      MatchCountFull(m.buf, TextSegmentEndToken);
      if MatchCount(m.buf, TextSegmentEndToken) != |TextSegmentEndToken| {
        assert OccursAt(m.buf, TextEntryEndToken, i);
      }
    }
  }

  /** `processChunks`: call the processor until it reports no progress. */
  function Drain(v: Variant, m: Machine): Machine
    decreases Weight(m)
  {
    var (progress, m') := Next(v, m);
    if progress then NextProgress(v, m); Drain(v, m') else m'
  }

  /** `_transform` (and the `data` listener): append the chunk, then run the
      processors. After the end no more data is delivered. */
  function Feed(v: Variant, m: Machine, chunk: seq<bv8>): Machine
  {
    if Terminal(m) then m else Drain(v, m.(buf := m.buf + chunk))
  }

  /** Chunks delivered one after another. */
  function FeedAll(v: Variant, m: Machine, chunks: seq<seq<bv8>>): Machine
    decreases |chunks|
  {
    if |chunks| == 0 then m else FeedAll(v, Feed(v, m, chunks[0]), chunks[1..])
  }

  /** `_flush` of the two `Transform` classes: the loop once more when the
      writable side finishes. `end()` leaves `processRasterSegment`
      installed, so after the raster end token the bytes behind it are
      read as raster again. */
  function Flushed(v: Variant, m: Machine): Machine
  {
    if m.phase == Ended then Drain(v, m.(phase := InRasterSegment)) else Drain(v, m)
  }

  /** The record a well-formed header line produces. */
  function LineRecord(v: Variant, line: seq<bv8>): Record
  {
    TextRecord(if StripsLineEnd(v) then line else line + TextEntryEndToken)
  }

  /** A header line the text processor reads back as one record: no CR
      inside, and not starting with the segment end's first byte. */
  predicate GoodLine(line: seq<bv8>)
  {
    (forall k :: 0 <= k < |line| ==> line[k] != 0x0D) && (|line| == 0 || line[0] != 0x1A)
  }

  // ---------------------------------------------------------------------
  // One step of each processor

  /** `processText` on a full `1A 00` match: on to the bit depth, nothing
      emitted, exactly the token consumed. */
  lemma {:induction false} TextSegmentEnd(v: Variant, m: Machine)
    requires m.phase == InText && StrictPrefix(TextSegmentEndToken, m.buf)
    ensures Next(v, m) == (true, m.(phase := InBitDepth, buf := m.buf[2..]))
  {
    MatchCountFull(m.buf, TextSegmentEndToken);
  }

  /** `processText` on a partial match (including the exact-token buffer):
      no progress and nothing consumed. */
  lemma {:induction false} TextPartialMatch(v: Variant, m: Machine)
    requires m.phase == InText
    requires 0 < MatchCount(m.buf, TextSegmentEndToken) != |TextSegmentEndToken|
    ensures Next(v, m) == (false, m)
  {
  }

  /** `processText` on a line: the bytes up to the first CRLF become a text
      record (CRLF removed except in `ParseStream`), the machine stays in
      the text segment. */
  lemma {:induction false} TextLine(v: Variant, m: Machine, line: seq<bv8>, rest: seq<bv8>)
    requires m.phase == InText && GoodLine(line)
    requires m.buf == line + TextEntryEndToken + rest
    ensures Next(v, m) == (true, m.(buf := rest, records := m.records + [LineRecord(v, line)]))
  {
    MatchCountZero(m.buf, TextSegmentEndToken);
    IndexOfAfter(line, TextEntryEndToken, rest);
    var i := |line|;
    assert m.buf[..i + 2] == line + TextEntryEndToken;
    assert m.buf[i + 2..] == rest;
  }

  /** `processBitDepth`: exactly one byte, on to the raster segment. */
  lemma {:induction false} BitDepthStep(v: Variant, m: Machine)
    requires m.phase == InBitDepth && |m.buf| >= 1
    ensures var (progress, m') := Next(v, m);
      && progress && m'.phase == InRasterSegment && m'.buf == m.buf[1..] && m'.bitDepth == Some(m.buf[0])
      && m'.records == m.records + (if EmitsBitDepth(v) then [BitDepthRecord(m.buf[0])] else [])
      && m'.row == m.row
  {
  }

  /** `processBitDepth` on an empty buffer: no progress. */
  lemma {:induction false} BitDepthWaits(v: Variant, m: Machine)
    requires m.phase == InBitDepth && |m.buf| == 0
    ensures Next(v, m) == (false, m)
  {
  }

  /** `processRasterSegment` on a `00` followed by more bytes: the stream
      ends and the loop stops. */
  lemma {:induction false} RasterSegmentEnd(v: Variant, m: Machine)
    requires m.phase == InRasterSegment && |m.buf| >= 2 && m.buf[0] == 0x00
    ensures Next(v, m) == (false, m.(phase := Ended, buf := m.buf[1..]))
  {
    MatchCountFull(m.buf, RasterEndToken);
  }

  /** `processRasterSegment` when the buffer does not start with `00`,
      including an empty buffer: a row starts and nothing is consumed. */
  lemma {:induction false} RasterSegmentToRow(v: Variant, m: Machine)
    requires m.phase == InRasterSegment && (|m.buf| == 0 || m.buf[0] != 0x00)
    ensures Next(v, m) == (true, m.(phase := InRasterRow))
  {
    MatchCountZero(m.buf, RasterEndToken);
  }

  /** The row record `processRasterRow` emits for the values read. */
  function RowRecordOf(v: Variant, row: seq<seq<bv8>>, bitDepth: nat): Record
    requires |row| >= 1
  {
    if DecodesRows(v) then DecodedRowRecord(Raster.RasterRowOf(row, bitDepth).value) else RowRecord(row)
  }

  /** `processRasterRow` on a `00` followed by more bytes: the row is
      emitted (decoded by `parseChart`) and cleared. */
  lemma {:induction false} RasterRowEnd(v: Variant, m: Machine)
    requires m.phase == InRasterRow && |m.buf| >= 2 && m.buf[0] == 0x00 && |m.row| >= 1
    ensures Next(v, m) == (true, m.(phase := InRasterSegment, buf := m.buf[1..], row := [],
                                    records := m.records + [RowRecordOf(v, m.row, BitDepthOf(m))]))
  {
    MatchCountFull(m.buf, RasterEndToken);
  }

  /** `processRasterRow` on a `00` that ends an empty row: the other
      copies emit the empty row, `parseChart` throws. */
  lemma {:induction false} RasterRowEndEmpty(v: Variant, m: Machine)
    requires m.phase == InRasterRow && |m.buf| >= 2 && m.buf[0] == 0x00 && m.row == []
    ensures DecodesRows(v) ==> Next(v, m) == (false, m.(phase := Failed, buf := m.buf[1..]))
    ensures !DecodesRows(v) ==> Next(v, m) == (true, m.(phase := InRasterSegment, buf := m.buf[1..],
                                                          records := m.records + [RowRecord([])]))
  {
    MatchCountFull(m.buf, RasterEndToken);
  }

  /** A value the raster processor reads back whole: at least one 7-bit
      group, its first byte not `00`, and for the null-aware buffer a last
      group that is not `00`. */
  predicate GoodValue(v: Variant, groups: seq<bv8>)
  {
    && |groups| >= 1
    && (forall i :: 0 <= i < |groups| ==> groups[i] < 128)
    && (|groups| > 1 || groups[0] != 0)
    && (NullAware(v) ==> groups[|groups| - 1] != 0)
  }

  /** `processRasterRow` on an encoded value: its groups are appended to
      the row and exactly its bytes consumed. */
  lemma {:induction false} RasterRowValue(v: Variant, m: Machine, groups: seq<bv8>, rest: seq<bv8>)
    requires m.phase == InRasterRow && GoodValue(v, groups)
    requires m.buf == Continued(groups) + rest
    ensures Next(v, m) == (true, m.(buf := rest, row := m.row + [groups]))
  {
    ContinuedRoundTrip(groups, rest, NullAware(v));
    ContinuedHead(groups);
    MatchCountZero(m.buf, RasterEndToken);
    assert m.buf[|groups|..] == rest;
  }

  /** The first encoded byte of a good value is not `00`. */
  lemma {:induction false} ContinuedHead(groups: seq<bv8>)
    requires |groups| >= 1 && (|groups| > 1 || groups[0] != 0)
    ensures Continued(groups)[0] != 0x00
  {
    if |groups| > 1 {
      assert Continued(groups)[0] == groups[0] | 0x80;
      assert (groups[0] | 0x80) & 0x80 == 0x80;
    }
  }

  /** The `<=` bound of `tryReadValues`: a buffer holding exactly `00`
      yields a count of 2, so the raster processors wait instead of ending
      the row or the stream. */
  lemma {:induction false} ExactRasterEndStalls(v: Variant, m: Machine)
    requires (m.phase == InRasterSegment || m.phase == InRasterRow) && m.buf == RasterEndToken
    ensures Next(v, m) == (false, m)
    ensures Drain(v, m) == m
  {
    assert MatchCount(m.buf, RasterEndToken) == 2;
  }

  // ---------------------------------------------------------------------
  // The drive loop

  /** A step that made progress is followed by more steps. */
  lemma {:induction false} DrainStep(v: Variant, m: Machine)
    requires Next(v, m).0
    ensures Drain(v, m) == Drain(v, Next(v, m).1)
  {
  }

  /** A step without progress ends the loop with that step's state. */
  lemma {:induction false} DrainStop(v: Variant, m: Machine)
    requires !Next(v, m).0
    ensures Drain(v, m) == Next(v, m).1
  {
  }

  /** A step without progress leaves a state where the next step makes no
      progress and changes nothing. */
  lemma {:induction false} StopIsStable(v: Variant, m: Machine)
    requires !Next(v, m).0
    ensures Next(v, Next(v, m).1) == (false, Next(v, m).1)
  {
    var m' := Next(v, m).1;
    assert m' == m || Terminal(m') by {
      match m.phase
      case InText =>
      case InBitDepth =>
      case InRasterSegment =>
      case InRasterRow =>
      case Ended =>
      case Failed =>
    }
  }

  /** `processChunks` returns only when the installed processor reports no
      progress: a second drive changes nothing. */
  lemma {:induction false} DrainQuiescent(v: Variant, m: Machine)
    ensures Next(v, Drain(v, m)) == (false, Drain(v, m))
    ensures Drain(v, Drain(v, m)) == Drain(v, m)
    decreases Weight(m)
  {
    if Next(v, m).0 {
      NextProgress(v, m);
      DrainQuiescent(v, Next(v, m).1);
    } else {
      StopIsStable(v, m);
    }
  }

  /** Once ended or failed, the machine ignores further chunks and no step
      reports progress. */
  lemma {:induction false} TerminalIsFinal(v: Variant, m: Machine, chunk: seq<bv8>)
    requires Terminal(m)
    ensures Next(v, m) == (false, m) && Drain(v, m) == m && Feed(v, m, chunk) == m
  {
  }

  // ---------------------------------------------------------------------
  // What every run keeps

  /** Records come in three bands: text, then the bit depth, then rows. */
  function Rank(r: Record): nat
  {
    match r
    case TextRecord(_) => 0
    case BitDepthRecord(_) => 1
    case RowRecord(_) => 2
    case DecodedRowRecord(_) => 2
  }

  /** The band of the records the installed processor may still emit. */
  function PhaseRank(p: Phase): nat
  {
    match p
    case InText => 0
    case InBitDepth => 1
    case _ => 2
  }

  /** The kinds of record each copy emits. */
  predicate RecordFits(v: Variant, r: Record)
  {
    match r
    case TextRecord(_) => true
    case BitDepthRecord(_) => EmitsBitDepth(v)
    case RowRecord(_) => !DecodesRows(v)
    case DecodedRowRecord(_) => DecodesRows(v)
  }

  /** The invariant of every reachable state: records in band order, none
      from a later band than the phase, only this copy's kinds; the bit
      depth is known exactly in the raster phases and any bit-depth record
      is the only one and carries it; no row is pending outside a row. */
  predicate Inv(v: Variant, m: Machine)
  {
    && (forall i, j :: 0 <= i < j < |m.records| ==> Rank(m.records[i]) <= Rank(m.records[j]))
    && (forall i :: 0 <= i < |m.records| ==> Rank(m.records[i]) <= PhaseRank(m.phase))
    && (forall i :: 0 <= i < |m.records| ==> RecordFits(v, m.records[i]))
    && (m.bitDepth.Some? <==> PhaseRank(m.phase) == 2)
    && (forall i :: 0 <= i < |m.records| && m.records[i].BitDepthRecord? ==>
          m.bitDepth == Some(m.records[i].bitDepth) && (forall j :: 0 <= j < |m.records| && j != i ==> !m.records[j].BitDepthRecord?))
    && (m.phase == InText || m.phase == InBitDepth || m.phase == InRasterSegment || m.phase == Ended ==> m.row == [])
  }

  lemma {:induction false} InitialInv(v: Variant)
    ensures Inv(v, Initial)
  {
  }

  /** Appending one record of the current band keeps the record clauses. */
  lemma {:induction false} AppendKeepsOrder(v: Variant, m: Machine, r: Record, p: Phase)
    requires Inv(v, m) && RecordFits(v, r) && !r.BitDepthRecord?
    requires PhaseRank(m.phase) <= Rank(r) <= PhaseRank(p)
    ensures var rs := m.records + [r];
      && (forall i, j :: 0 <= i < j < |rs| ==> Rank(rs[i]) <= Rank(rs[j]))
      && (forall i :: 0 <= i < |rs| ==> Rank(rs[i]) <= PhaseRank(p))
      && (forall i :: 0 <= i < |rs| ==> RecordFits(v, rs[i]))
      && (forall i :: 0 <= i < |rs| && rs[i].BitDepthRecord? ==>
            m.bitDepth == Some(rs[i].bitDepth) && (forall j :: 0 <= j < |rs| && j != i ==> !rs[j].BitDepthRecord?))
  {
  }

  lemma {:induction false} NextTextInv(v: Variant, m: Machine)
    requires Inv(v, m) && m.phase == InText
    ensures Inv(v, Next(v, m).1)
  {
    var (_, m') := Next(v, m);
    if m'.records != m.records {
      var i := IndexOf(m.buf, TextEntryEndToken);
      AppendKeepsOrder(v, m, TextRecord(TextPayload(v, m.buf[..i + 2])), InText);
    }
  }

  lemma {:induction false} NextBitDepthInv(v: Variant, m: Machine)
    requires Inv(v, m) && m.phase == InBitDepth
    ensures Inv(v, Next(v, m).1)
  {
    if |m.buf| >= 1 {
      var (_, m') := Next(v, m);
      var d := m.buf[0];
      assert forall i :: 0 <= i < |m.records| ==> m.records[i].TextRecord?;
      if EmitsBitDepth(v) {
        assert m'.records == m.records + [BitDepthRecord(d)];
      }
    }
  }

  lemma {:induction false} NextRasterInv(v: Variant, m: Machine)
    requires Inv(v, m) && (m.phase == InRasterSegment || m.phase == InRasterRow)
    ensures Inv(v, Next(v, m).1)
  {
    var (_, m') := Next(v, m);
    if m.phase == InRasterRow && m'.records != m.records {
      MatchCountFull(m.buf, RasterEndToken);
      var r := m'.records[|m'.records| - 1];
      assert m'.records == m.records + [r];
      AppendKeepsOrder(v, m, r, InRasterSegment);
    }
  }

  /** Every step keeps the invariant. */
  lemma {:induction false} NextInv(v: Variant, m: Machine)
    requires Inv(v, m)
    ensures Inv(v, Next(v, m).1)
  {
    match m.phase
    case InText => NextTextInv(v, m);
    case InBitDepth => NextBitDepthInv(v, m);
    case InRasterSegment => NextRasterInv(v, m);
    case InRasterRow => NextRasterInv(v, m);
    case Ended =>
    case Failed =>
  }

  lemma {:induction false} DrainInv(v: Variant, m: Machine)
    requires Inv(v, m)
    ensures Inv(v, Drain(v, m))
    decreases Weight(m)
  {
    NextInv(v, m);
    if Next(v, m).0 {
      NextProgress(v, m);
      DrainInv(v, Next(v, m).1);
    }
  }

  /** Whatever the chunking, the state reached from the start satisfies
      the invariant: text records, then at most one bit depth, then rows. */
  lemma {:induction false} FeedAllInv(v: Variant, m: Machine, chunks: seq<seq<bv8>>)
    requires Inv(v, m)
    ensures Inv(v, FeedAll(v, m, chunks))
    decreases |chunks|
  {
    if |chunks| > 0 {
      if !Terminal(m) {
        DrainInv(v, m.(buf := m.buf + chunks[0]));
      }
      FeedAllInv(v, Feed(v, m, chunks[0]), chunks[1..]);
    }
  }

  /** What a step leaves behind extends what it had: records are only
      appended and bytes only taken from the front. */
  predicate Extends(m: Machine, m': Machine)
  {
    && |m.records| <= |m'.records| && m'.records[..|m.records|] == m.records
    && |m'.buf| <= |m.buf| && m.buf[|m.buf| - |m'.buf|..] == m'.buf
  }

  /** A state whose buffer drops `k` bytes from the front and whose
      records gain `extra` at the end extends the old one. */
  lemma {:induction false} ExtendsBy(m: Machine, m': Machine, k: nat, extra: seq<Record>)
    requires k <= |m.buf| && m'.buf == m.buf[k..] && m'.records == m.records + extra
    ensures Extends(m, m')
  {
    assert m'.records[..|m.records|] == m.records;
  }

  lemma {:induction false} NextTextExtends(v: Variant, m: Machine)
    requires m.phase == InText
    ensures Extends(m, Next(v, m).1)
  {
    var (_, m') := Next(v, m);
    MatchCountFull(m.buf, TextSegmentEndToken);
    if MatchCount(m.buf, TextSegmentEndToken) == 2 {
      ExtendsBy(m, m', 2, []);
    } else if MatchCount(m.buf, TextSegmentEndToken) > 0 || IndexOf(m.buf, TextEntryEndToken) < 0 {
      ExtendsBy(m, m', 0, []);
    } else {
      var i := IndexOf(m.buf, TextEntryEndToken);
      ExtendsBy(m, m', i + 2, [TextRecord(TextPayload(v, m.buf[..i + 2]))]);
    }
  }

  lemma {:induction false} NextRasterRowExtends(v: Variant, m: Machine)
    requires m.phase == InRasterRow
    ensures Extends(m, Next(v, m).1)
  {
    var (_, m') := Next(v, m);
    MatchCountFull(m.buf, RasterEndToken);
    var count := MatchCount(m.buf, RasterEndToken);
    if count == 1 {
      ExtendsBy(m, m', 1, m'.records[|m.records|..]);
    } else if count > 0 || VariableLengthValue(m.buf, NullAware(v)).None? {
      ExtendsBy(m, m', 0, []);
    } else {
      VariableLengthValueSuccess(m.buf, NullAware(v));
      ExtendsBy(m, m', |VariableLengthValue(m.buf, NullAware(v)).value|, []);
    }
  }

  lemma {:induction false} NextExtends(v: Variant, m: Machine)
    ensures Extends(m, Next(v, m).1)
  {
    var (_, m') := Next(v, m);
    match m.phase
    case InText => NextTextExtends(v, m);
    case InBitDepth =>
      if |m.buf| >= 1 {
        ExtendsBy(m, m', 1, m'.records[|m.records|..]);
      } else {
        ExtendsBy(m, m', 0, []);
      }
    case InRasterSegment =>
      MatchCountFull(m.buf, RasterEndToken);
      ExtendsBy(m, m', |m.buf| - |m'.buf|, []);
    case InRasterRow => NextRasterRowExtends(v, m);
    case Ended => ExtendsBy(m, m', 0, []);
    case Failed => ExtendsBy(m, m', 0, []);
  }

  lemma {:induction false} ExtendsTrans(a: Machine, b: Machine, c: Machine)
    requires Extends(a, b) && Extends(b, c)
    ensures Extends(a, c)
  {
    assert c.records[..|a.records|] == b.records[..|b.records|][..|a.records|];
    assert a.buf[|a.buf| - |c.buf|..] == a.buf[|a.buf| - |b.buf|..][|b.buf| - |c.buf|..];
  }

  lemma {:induction false} DrainExtends(v: Variant, m: Machine)
    ensures Extends(m, Drain(v, m))
    decreases Weight(m)
  {
    NextExtends(v, m);
    if Next(v, m).0 {
      NextProgress(v, m);
      DrainExtends(v, Next(v, m).1);
      ExtendsTrans(m, Next(v, m).1, Drain(v, Next(v, m).1));
    }
  }

  /** A chunk only adds records and leaves a suffix of the bytes held plus
      the chunk buffered. */
  lemma {:induction false} FeedExtends(v: Variant, m: Machine, chunk: seq<bv8>)
    ensures var m' := Feed(v, m, chunk);
      && |m.records| <= |m'.records| && m'.records[..|m.records|] == m.records
      && (Terminal(m) ==> m' == m)
      && (!Terminal(m) ==> Extends(m.(buf := m.buf + chunk), m'))
  {
    if !Terminal(m) {
      DrainExtends(v, m.(buf := m.buf + chunk));
    }
  }

  // ---------------------------------------------------------------------
  // A well-formed chart read in one chunk

  /** Header lines, each followed by CRLF. */
  function HeaderBytes(lines: seq<seq<bv8>>): seq<bv8>
  {
    if |lines| == 0 then [] else lines[0] + TextEntryEndToken + HeaderBytes(lines[1..])
  }

  function LineRecords(v: Variant, lines: seq<seq<bv8>>): seq<Record>
  {
    if |lines| == 0 then [] else [LineRecord(v, lines[0])] + LineRecords(v, lines[1..])
  }

  /** The values of one row, each as its continued 7-bit groups. */
  function ValuesBytes(values: seq<seq<bv8>>): seq<bv8>
  {
    if |values| == 0 then [] else Continued(values[0]) + ValuesBytes(values[1..])
  }

  /** Rows, each followed by its `00` terminator. */
  function RasterBytes(rows: seq<seq<seq<bv8>>>): seq<bv8>
  {
    if |rows| == 0 then [] else ValuesBytes(rows[0]) + RasterEndToken + RasterBytes(rows[1..])
  }

  /** A chart file: header, `1A 00`, the bit depth, the raster, the `00`
      that ends it and whatever follows (the index). */
  function ChartBytes(lines: seq<seq<bv8>>, bitDepth: bv8, rows: seq<seq<seq<bv8>>>, tail: seq<bv8>): seq<bv8>
  {
    HeaderBytes(lines) + (TextSegmentEndToken + ([bitDepth] + (RasterBytes(rows) + (RasterEndToken + tail))))
  }

  /** One header line read inside the drive loop. */
  lemma {:induction false} DrainLine(v: Variant, m: Machine, line: seq<bv8>, after: seq<bv8>)
    requires m.phase == InText && GoodLine(line)
    requires m.buf == line + TextEntryEndToken + after
    ensures Drain(v, m) == Drain(v, m.(buf := after, records := m.records + [LineRecord(v, line)]))
  {
    TextLine(v, m, line, after);
    DrainStep(v, m);
  }

  predicate GoodLines(lines: seq<seq<bv8>>)
  {
    forall i :: 0 <= i < |lines| ==> GoodLine(lines[i])
  }

  /** The bytes of the first line and of the others. */
  lemma {:induction false} HeaderBytesCons(lines: seq<seq<bv8>>, rest: seq<bv8>)
    requires |lines| >= 1
    ensures HeaderBytes(lines) + rest == lines[0] + TextEntryEndToken + (HeaderBytes(lines[1..]) + rest)
  {
  }

  /** The records of the first line and of the others. */
  lemma {:induction false} LineRecordsCons(v: Variant, lines: seq<seq<bv8>>, records: seq<Record>)
    requires |lines| >= 1
    ensures records + [LineRecord(v, lines[0])] + LineRecords(v, lines[1..]) == records + LineRecords(v, lines)
  {
  }

  lemma {:induction false} DrainLines(v: Variant, m: Machine, lines: seq<seq<bv8>>, rest: seq<bv8>)
    requires m.phase == InText && GoodLines(lines)
    requires m.buf == HeaderBytes(lines) + rest
    ensures Drain(v, m) == Drain(v, m.(buf := rest, records := m.records + LineRecords(v, lines)))
    decreases |lines|
  {
    if |lines| == 0 {
      assert m.buf == rest;
      assert m.records + LineRecords(v, lines) == m.records;
    } else {
      var after := HeaderBytes(lines[1..]) + rest;
      HeaderBytesCons(lines, rest);
      LineRecordsCons(v, lines, m.records);
      assert GoodLine(lines[0]) && GoodLines(lines[1..]);
      DrainLine(v, m, lines[0], after);
      DrainLines(v, m.(buf := after, records := m.records + [LineRecord(v, lines[0])]), lines[1..], rest);
    }
  }

  predicate GoodValues(v: Variant, values: seq<seq<bv8>>)
  {
    forall i :: 0 <= i < |values| ==> GoodValue(v, values[i])
  }

  lemma {:induction false} ValuesBytesCons(values: seq<seq<bv8>>, rest: seq<bv8>)
    requires |values| >= 1
    ensures ValuesBytes(values) + rest == Continued(values[0]) + (ValuesBytes(values[1..]) + rest)
  {
  }

  /** One value read inside the drive loop. */
  lemma {:induction false} DrainValue(v: Variant, m: Machine, groups: seq<bv8>, after: seq<bv8>)
    requires m.phase == InRasterRow && GoodValue(v, groups)
    requires m.buf == Continued(groups) + after
    ensures Drain(v, m) == Drain(v, m.(buf := after, row := m.row + [groups]))
  {
    RasterRowValue(v, m, groups, after);
    DrainStep(v, m);
  }

  lemma {:induction false} DrainValues(v: Variant, m: Machine, values: seq<seq<bv8>>, rest: seq<bv8>)
    requires m.phase == InRasterRow && GoodValues(v, values)
    requires m.buf == ValuesBytes(values) + rest
    ensures Drain(v, m) == Drain(v, m.(buf := rest, row := m.row + values))
    decreases |values|
  {
    if |values| == 0 {
      assert m.buf == rest;
      assert m.row + values == m.row;
    } else {
      var after := ValuesBytes(values[1..]) + rest;
      ValuesBytesCons(values, rest);
      assert GoodValue(v, values[0]) && GoodValues(v, values[1..]);
      DrainValue(v, m, values[0], after);
      assert m.row + [values[0]] + values[1..] == m.row + values;
      DrainValues(v, m.(buf := after, row := m.row + [values[0]]), values[1..], rest);
    }
  }

  /** The first byte of a good row's bytes is not `00`. */
  lemma {:induction false} RowHead(v: Variant, row: seq<seq<bv8>>, rest: seq<bv8>)
    requires |row| >= 1 && GoodValue(v, row[0])
    ensures |ValuesBytes(row) + rest| >= 1 && (ValuesBytes(row) + rest)[0] != 0x00
  {
    ContinuedHead(row[0]);
    assert (ValuesBytes(row) + rest)[0] == Continued(row[0])[0];
  }

  predicate GoodRow(v: Variant, row: seq<seq<bv8>>)
  {
    |row| >= 1 && GoodValues(v, row)
  }

  predicate GoodRows(v: Variant, rows: seq<seq<seq<bv8>>>)
  {
    forall i :: 0 <= i < |rows| ==> GoodRow(v, rows[i])
  }

  function RowRecords(v: Variant, rows: seq<seq<seq<bv8>>>, bitDepth: nat): seq<Record>
    requires GoodRows(v, rows)
  {
    if |rows| == 0 then [] else [RowRecordOf(v, rows[0], bitDepth)] + RowRecords(v, rows[1..], bitDepth)
  }

  lemma {:induction false} RasterBytesCons(rows: seq<seq<seq<bv8>>>, rest: seq<bv8>)
    requires |rows| >= 1
    ensures RasterBytes(rows) + rest == ValuesBytes(rows[0]) + (RasterEndToken + (RasterBytes(rows[1..]) + rest))
  {
  }

  lemma {:induction false} RowRecordsCons(v: Variant, rows: seq<seq<seq<bv8>>>, bitDepth: nat, records: seq<Record>)
    requires |rows| >= 1 && GoodRows(v, rows)
    ensures GoodRow(v, rows[0]) && GoodRows(v, rows[1..])
    ensures records + [RowRecordOf(v, rows[0], bitDepth)] + RowRecords(v, rows[1..], bitDepth) == records + RowRecords(v, rows, bitDepth)
  {
    assert GoodRow(v, rows[0]);
    assert GoodRows(v, rows[1..]) by {
      forall i | 0 <= i < |rows| - 1 ensures GoodRow(v, rows[1..][i]) {
        assert rows[1..][i] == rows[i + 1];
      }
    }
  }

  /** One row read inside the drive loop: a row starts, its values are
      read, its terminator emits it. */
  lemma {:induction false} DrainRow(v: Variant, m: Machine, row: seq<seq<bv8>>, after: seq<bv8>)
    requires m.phase == InRasterSegment && m.row == [] && |after| >= 1 && GoodRow(v, row)
    requires m.buf == ValuesBytes(row) + (RasterEndToken + after)
    ensures Drain(v, m) == Drain(v, m.(buf := after, records := m.records + [RowRecordOf(v, row, BitDepthOf(m))]))
  {
    var tokenAndAfter := RasterEndToken + after;
    RowHead(v, row, tokenAndAfter);
    RasterSegmentToRow(v, m);
    DrainStep(v, m);
    var m1 := m.(phase := InRasterRow);
    DrainValues(v, m1, row, tokenAndAfter);
    assert [] + row == row;
    var m2 := m1.(buf := tokenAndAfter, row := row);
    RasterRowEnd(v, m2);
    DrainStep(v, m2);
    assert m2.buf[1..] == after;
  }

  lemma {:induction false} DrainRows(v: Variant, m: Machine, rows: seq<seq<seq<bv8>>>, rest: seq<bv8>)
    requires m.phase == InRasterSegment && m.row == [] && |rest| >= 1 && GoodRows(v, rows)
    requires m.buf == RasterBytes(rows) + rest
    ensures Drain(v, m) == Drain(v, m.(buf := rest, records := m.records + RowRecords(v, rows, BitDepthOf(m))))
    decreases |rows|
  {
    if |rows| == 0 {
      assert m.buf == rest;
      assert m.records + RowRecords(v, rows, BitDepthOf(m)) == m.records;
    } else {
      var after := RasterBytes(rows[1..]) + rest;
      RasterBytesCons(rows, rest);
      RowRecordsCons(v, rows, BitDepthOf(m), m.records);
      DrainRow(v, m, rows[0], after);
      DrainRows(v, m.(buf := after, records := m.records + [RowRecordOf(v, rows[0], BitDepthOf(m))]), rows[1..], rest);
    }
  }

  /** The segment end token and the bit depth read inside the drive loop. */
  lemma {:induction false} DrainBitDepth(v: Variant, m: Machine, bitDepth: bv8, raster: seq<bv8>)
    requires m.phase == InText && m.row == [] && m.bitDepth == None
    requires m.buf == TextSegmentEndToken + ([bitDepth] + raster)
    ensures Drain(v, m) == Drain(v, Machine(InRasterSegment, raster, [], Some(bitDepth),
                                            m.records + if EmitsBitDepth(v) then [BitDepthRecord(bitDepth)] else []))
  {
    TextSegmentEnd(v, m);
    DrainStep(v, m);
    assert m.buf[2..] == [bitDepth] + raster;
    var m1 := m.(phase := InBitDepth, buf := [bitDepth] + raster);
    BitDepthStep(v, m1);
    DrainStep(v, m1);
  }

  /** The raster end token followed by more bytes ends the drive loop. */
  lemma {:induction false} DrainRasterEnd(v: Variant, m: Machine, tail: seq<bv8>)
    requires m.phase == InRasterSegment && m.buf == RasterEndToken + tail && |tail| >= 1
    ensures Drain(v, m) == m.(phase := Ended, buf := tail)
  {
    RasterSegmentEnd(v, m);
    DrainStop(v, m);
    assert m.buf[1..] == tail;
  }

  /** The raster segment from the bit depth on, read inside the drive loop. */
  lemma {:induction false} DrainRaster(v: Variant, texts: seq<Record>, bitDepth: bv8, rows: seq<seq<seq<bv8>>>, tail: seq<bv8>)
    requires GoodRows(v, rows) && |tail| >= 1
    ensures var bits := if EmitsBitDepth(v) then [BitDepthRecord(bitDepth)] else [];
      Drain(v, Machine(InRasterSegment, RasterBytes(rows) + (RasterEndToken + tail), [], Some(bitDepth), texts + bits))
      == Machine(Ended, tail, [], Some(bitDepth), texts + bits + RowRecords(v, rows, bitDepth as nat))
  {
    var bits := if EmitsBitDepth(v) then [BitDepthRecord(bitDepth)] else [];
    var m3 := Machine(InRasterSegment, RasterBytes(rows) + (RasterEndToken + tail), [], Some(bitDepth), texts + bits);
    DrainRows(v, m3, rows, RasterEndToken + tail);
    DrainRasterEnd(v, m3.(buf := RasterEndToken + tail, records := texts + bits + RowRecords(v, rows, bitDepth as nat)), tail);
  }

  /** A well-formed chart delivered in one chunk: every header line becomes
      a text record, the bit depth is read (and emitted by `ChartStream`),
      every row is emitted (decoded with that bit depth by `parseChart`),
      and the machine ends with the bytes after the raster end token left
      unread. */
  lemma {:induction false} WellFormedChart(v: Variant, lines: seq<seq<bv8>>, bitDepth: bv8, rows: seq<seq<seq<bv8>>>, tail: seq<bv8>)
    requires GoodLines(lines) && GoodRows(v, rows) && |tail| >= 1
    ensures Feed(v, Initial, ChartBytes(lines, bitDepth, rows, tail))
         == Machine(Ended, tail, [], Some(bitDepth),
                    LineRecords(v, lines) + (if EmitsBitDepth(v) then [BitDepthRecord(bitDepth)] else []) + RowRecords(v, rows, bitDepth as nat))
  {
    var raster := RasterBytes(rows) + (RasterEndToken + tail);
    var rest0 := TextSegmentEndToken + ([bitDepth] + raster);
    assert Initial.buf + ChartBytes(lines, bitDepth, rows, tail) == HeaderBytes(lines) + rest0;
    var m0 := Initial.(buf := HeaderBytes(lines) + rest0);
    DrainLines(v, m0, lines, rest0);
    var texts := LineRecords(v, lines);
    assert [] + texts == texts;
    DrainBitDepth(v, m0.(buf := rest0, records := texts), bitDepth, raster);
    DrainRaster(v, texts, bitDepth, rows, tail);
  }

  // ---------------------------------------------------------------------
  // Where the chunk boundaries fall matters

  /** `processRasterRow` with nothing buffered: no progress. */
  lemma {:induction false} RowWaits(v: Variant, m: Machine)
    requires m.phase == InRasterRow && m.buf == []
    ensures Next(v, m) == (false, m)
  {
    MatchCountZero(m.buf, RasterEndToken);
    VariableLengthValueUnterminated(m.buf, NullAware(v));
  }

  /** The header end, the bit depth and an empty buffer: the raster
      segment processor sees no `00`, so a row is started before the next
      chunk arrives. */
  lemma {:induction false} ChunkEndsAfterBitDepth(v: Variant, bitDepth: bv8)
    ensures Feed(v, Initial, TextSegmentEndToken + [bitDepth])
         == Machine(InRasterRow, [], [], Some(bitDepth), if EmitsBitDepth(v) then [BitDepthRecord(bitDepth)] else [])
  {
    var bits := if EmitsBitDepth(v) then [BitDepthRecord(bitDepth)] else [];
    var m0 := Initial.(buf := [] + (TextSegmentEndToken + [bitDepth]));
    assert m0.buf == TextSegmentEndToken + ([bitDepth] + []);
    assert [] + bits == bits;
    DrainBitDepth(v, m0, bitDepth, []);
    var m1 := Machine(InRasterSegment, [], [], Some(bitDepth), bits);
    RasterSegmentToRow(v, m1);
    DrainStep(v, m1);
    var m2 := m1.(phase := InRasterRow);
    RowWaits(v, m2);
    DrainStop(v, m2);
  }

  /** After the emptied row, the byte `x` starts and fills the next row. */
  lemma {:induction false} RowAfterEmptyRow(v: Variant, bitDepth: bv8, x: bv8, records: seq<Record>)
    requires 0 < x < 128
    ensures Drain(v, Machine(InRasterSegment, [x], [], Some(bitDepth), records))
         == Machine(InRasterRow, [], [[x]], Some(bitDepth), records)
  {
    var m4 := Machine(InRasterSegment, [x], [], Some(bitDepth), records);
    RasterSegmentToRow(v, m4);
    DrainStep(v, m4);
    var m5 := m4.(phase := InRasterRow);
    assert Continued([x]) + [] == [x];
    RasterRowValue(v, m5, [x], []);
    DrainStep(v, m5);
    var m6 := m5.(buf := [], row := [[x]]);
    RowWaits(v, m6);
    DrainStop(v, m6);
  }

  /** After the split, the `00 x` chunk ends the empty row that was
      started. */
  lemma {:induction false} SecondChunk(v: Variant, bitDepth: bv8, x: bv8, bits: seq<Record>)
    requires 0 < x < 128
    ensures var m := Machine(InRasterRow, [], [], Some(bitDepth), bits);
      && (!DecodesRows(v) ==> Feed(v, m, RasterEndToken + [x]) == Machine(InRasterRow, [], [[x]], Some(bitDepth), bits + [RowRecord([])]))
      && (DecodesRows(v) ==> Feed(v, m, RasterEndToken + [x]).phase == Failed)
  {
    var m2 := Machine(InRasterRow, [], [], Some(bitDepth), bits);
    var m3 := m2.(buf := [] + (RasterEndToken + [x]));
    assert m3.buf == [0x00, x];
    RasterRowEndEmpty(v, m3);
    if DecodesRows(v) {
      DrainStop(v, m3);
    } else {
      DrainStep(v, m3);
      RowAfterEmptyRow(v, bitDepth, x, bits + [RowRecord([])]);
    }
  }

  /** The five bytes `1A 00 d 00 x` in one chunk: the `00` ends the raster
      with no row. */
  lemma {:induction false} OneChunk(v: Variant, bitDepth: bv8, x: bv8)
    ensures Feed(v, Initial, TextSegmentEndToken + [bitDepth] + RasterEndToken + [x])
         == Machine(Ended, [x], [], Some(bitDepth), if EmitsBitDepth(v) then [BitDepthRecord(bitDepth)] else [])
  {
    WellFormedChart(v, [], bitDepth, [], [x]);
    EmptyChart(v, bitDepth, x);
  }

  /** A chart with no header line and no row. */
  lemma {:induction false} EmptyChart(v: Variant, bitDepth: bv8, x: bv8)
    ensures ChartBytes([], bitDepth, [], [x]) == TextSegmentEndToken + [bitDepth] + RasterEndToken + [x]
    ensures var bits := if EmitsBitDepth(v) then [BitDepthRecord(bitDepth)] else [];
      LineRecords(v, []) + bits + RowRecords(v, [], bitDepth as nat) == bits
  {
    var bits := if EmitsBitDepth(v) then [BitDepthRecord(bitDepth)] else [];
    assert [] + bits + [] == bits;
  }

  /** The same five bytes split after the bit depth: the `00` ends an
      empty row instead, which `ChartStream` and `ParseStream` emit and on
      which `parseChart` throws. */
  lemma {:induction false} ChunkingMatters(v: Variant, bitDepth: bv8, x: bv8)
    requires 0 < x < 128
    ensures var bits := if EmitsBitDepth(v) then [BitDepthRecord(bitDepth)] else [];
      && Feed(v, Initial, TextSegmentEndToken + [bitDepth] + RasterEndToken + [x]) == Machine(Ended, [x], [], Some(bitDepth), bits)
      && (!DecodesRows(v) ==>
            FeedAll(v, Initial, [TextSegmentEndToken + [bitDepth], RasterEndToken + [x]])
            == Machine(InRasterRow, [], [[x]], Some(bitDepth), bits + [RowRecord([])]))
      && (DecodesRows(v) ==> FeedAll(v, Initial, [TextSegmentEndToken + [bitDepth], RasterEndToken + [x]]).phase == Failed)
  {
    var bits := if EmitsBitDepth(v) then [BitDepthRecord(bitDepth)] else [];
    OneChunk(v, bitDepth, x);
    var c1 := TextSegmentEndToken + [bitDepth];
    var c2 := RasterEndToken + [x];
    var chunks := [c1, c2];
    assert chunks[1..] == [c2] && [c2][1..] == [];
    ChunkEndsAfterBitDepth(v, bitDepth);
    var m2 := Machine(InRasterRow, [], [], Some(bitDepth), bits);
    assert FeedAll(v, Initial, chunks) == FeedAll(v, m2, [c2]);
    assert FeedAll(v, m2, [c2]) == Feed(v, m2, c2);
    SecondChunk(v, bitDepth, x, bits);
  }

  /** The exact-token quirk at the end of the input: a last row whose `00`
      terminator is the last byte delivered is never emitted; the machine
      waits with the row pending. */
  lemma {:induction false} LastRowPendingAtEnd(v: Variant, bitDepth: bv8, groups: seq<bv8>)
    requires GoodValue(v, groups)
    ensures var bits := if EmitsBitDepth(v) then [BitDepthRecord(bitDepth)] else [];
      Feed(v, Initial, TextSegmentEndToken + [bitDepth] + Continued(groups) + RasterEndToken)
      == Machine(InRasterRow, RasterEndToken, [groups], Some(bitDepth), bits)
  {
    var bits := if EmitsBitDepth(v) then [BitDepthRecord(bitDepth)] else [];
    var raster := Continued(groups) + RasterEndToken;
    var m0 := Initial.(buf := [] + (TextSegmentEndToken + [bitDepth] + Continued(groups) + RasterEndToken));
    assert m0.buf == TextSegmentEndToken + ([bitDepth] + raster);
    assert [] + bits == bits;
    DrainBitDepth(v, m0, bitDepth, raster);
    var m1 := Machine(InRasterSegment, raster, [], Some(bitDepth), bits);
    ContinuedHead(groups);
    RasterSegmentToRow(v, m1);
    DrainStep(v, m1);
    var m2 := m1.(phase := InRasterRow);
    RasterRowValue(v, m2, groups, RasterEndToken);
    DrainStep(v, m2);
    var m3 := m2.(buf := RasterEndToken, row := [] + [groups]);
    assert [] + [groups] == [groups];
    ExactRasterEndStalls(v, m3);
  }

  // ---------------------------------------------------------------------
  // The objects themselves

  /** Before the end token, `_flush` finds nothing to do: the loop has
      already stopped. */
  lemma {:induction false} FlushAfterDrain(v: Variant, m: Machine)
    requires Drain(v, m).phase != Ended
    ensures Flushed(v, Drain(v, m)) == Drain(v, m)
  {
    DrainQuiescent(v, m);
  }

  /** After the end token, `_flush` goes on reading raster: a 7-bit byte
      and a `00` behind the token come out as one more row. */
  lemma {:induction false} FlushAfterEnd(v: Variant, m: Machine, x: bv8, rest: seq<bv8>)
    requires m.phase == Ended && m.row == [] && 0 < x < 128 && |rest| >= 1
    requires m.buf == [x, 0x00] + rest
    ensures Flushed(v, m) ==
      Drain(v, Machine(InRasterSegment, rest, [], m.bitDepth, m.records + [RowRecordOf(v, [[x]], BitDepthOf(m))]))
  {
    var m1 := m.(phase := InRasterSegment);
    RasterSegmentToRow(v, m1);
    DrainStep(v, m1);
    OneByteRow(v, m1.(phase := InRasterRow), x, rest);
  }

  /** A row of one 7-bit byte, ended by `00`, is emitted and cleared. */
  lemma {:induction false} OneByteRow(v: Variant, m: Machine, x: bv8, rest: seq<bv8>)
    requires m.phase == InRasterRow && m.row == [] && 0 < x < 128 && |rest| >= 1
    requires m.buf == [x, 0x00] + rest
    ensures Drain(v, m) ==
      Drain(v, Machine(InRasterSegment, rest, [], m.bitDepth, m.records + [RowRecordOf(v, [[x]], BitDepthOf(m))]))
  {
    var m3 := m.(buf := [0x00] + rest, row := [[x]]);
    assert Continued([x]) == [x];
    assert m.buf == Continued([x]) + ([0x00] + rest);
    DrainValue(v, m, [x], [0x00] + rest);
    assert m.row + [[x]] == [[x]];
    RasterRowEnd(v, m3);
    assert m3.buf[1..] == rest;
    DrainStep(v, m3);
  }

  /** A last chunk that is the lone byte `00`, arriving while a row is
      being read, is never consumed: the row stays pending. */
  lemma {:induction false} LoneEndChunkStalls(v: Variant, m: Machine)
    requires m.phase == InRasterRow && m.buf == []
    ensures Feed(v, m, RasterEndToken) == m.(buf := RasterEndToken)
  {
    assert m.buf + RasterEndToken == RasterEndToken;
    ExactRasterEndStalls(v, m.(buf := RasterEndToken));
  }

  /** A `ChartStream`, a `ParseStream` or the closures of one `parseChart`
      call: the buffer, the installed processor, the pending row, the bit
      depth and what has been pushed downstream so far. */
  class ChartDecoder {
    const variant: Variant
    const buffer: StreamBuffer
    var phase: Phase
    var row: seq<seq<bv8>>
    var bitDepth: Option<bv8>
    var records: seq<Record>

    /** The buffer is the one this copy of the machine uses. */
    predicate Valid()
    {
      buffer.nullTerminatesValues == NullAware(variant)
    }

    function State(): Machine
      reads this, buffer
    {
      Machine(phase, buffer.buffer, row, bitDepth, records)
    }

    constructor (variant: Variant)
      ensures this.variant == variant && Valid() && State() == Initial && fresh(buffer)
    {
      this.variant := variant;
      buffer := new StreamBuffer(NullAware(variant));
      phase := InText;
      row := [];
      bitDepth := None;
      records := [];
    }

    method ProcessText() returns (progress: bool)
      requires Valid() && phase == InText
      modifies this, buffer
      ensures (progress, State()) == NextText(variant, old(State()))
    {
      var count := buffer.TryReadValues(TextSegmentEndToken);
      if count == |TextSegmentEndToken| {
        phase := InBitDepth;
        return true;
      } else if count > 0 {
        return false;
      }
      var text := buffer.TryReadUntil(TextEntryEndToken);
      if text.Some? {
        records := records + [TextRecord(TextPayload(variant, text.value))];
        return true;
      }
      return false;
    }

    method ProcessBitDepth() returns (progress: bool)
      requires Valid() && phase == InBitDepth
      modifies this, buffer
      ensures (progress, State()) == NextBitDepth(variant, old(State()))
    {
      var bitDepthBuffer := buffer.TryReadLength(1);
      if bitDepthBuffer.Some? {
        var d := bitDepthBuffer.value[0];
        bitDepth := Some(d);
        if EmitsBitDepth(variant) {
          records := records + [BitDepthRecord(d)];
        } else {
          assert records + [] == records;
        }
        phase := InRasterSegment;
        return true;
      }
      return false;
    }

    method ProcessRasterSegment() returns (progress: bool)
      requires Valid() && phase == InRasterSegment
      modifies this, buffer
      ensures (progress, State()) == NextRasterSegment(old(State()))
    {
      var count := buffer.TryReadValues(RasterEndToken);
      if count == |RasterEndToken| {
        phase := Ended;
        return false;
      } else if count > 0 {
        return false;
      }
      phase := InRasterRow;
      return true;
    }

    method ProcessRasterRow() returns (progress: bool)
      requires Valid() && phase == InRasterRow
      modifies this, buffer
      ensures (progress, State()) == NextRasterRow(variant, old(State()))
    {
      var count := buffer.TryReadValues(RasterEndToken);
      if count == |RasterEndToken| {
        if DecodesRows(variant) {
          var decoded := Raster.ParseRasterRow(row, BitDepthOf(State()));
          if decoded.None? {
            phase := Failed;
            return false;
          }
          records := records + [DecodedRowRecord(decoded.value)];
        } else {
          records := records + [RowRecord(row)];
        }
        row := [];
        phase := InRasterSegment;
        return true;
      } else if count > 0 {
        return false;
      }
      var value := buffer.TryReadVariableLengthValue();
      if value.Some? {
        row := row + [value.value];
        return true;
      }
      return false;
    }

    /** Call the installed processor once. */
    method Step() returns (progress: bool)
      requires Valid()
      modifies this, buffer
      ensures (progress, State()) == Next(variant, old(State()))
    {
      match phase
      case InText => progress := ProcessText();
      case InBitDepth => progress := ProcessBitDepth();
      case InRasterSegment => progress := ProcessRasterSegment();
      case InRasterRow => progress := ProcessRasterRow();
      case Ended => progress := false;
      case Failed => progress := false;
    }

    /** `processChunks`: the do-while loop over the installed processor. */
    method ProcessChunks()
      requires Valid()
      modifies this, buffer
      ensures State() == Drain(variant, old(State()))
    {
      ghost var before := State();
      var processed := Step();
      if processed {
        DrainStep(variant, before);
        NextProgress(variant, before);
      } else {
        DrainStop(variant, before);
      }
      while processed
        invariant processed ==> Drain(variant, State()) == Drain(variant, old(State()))
        invariant !processed ==> State() == Drain(variant, old(State()))
        decreases if processed then Weight(State()) + 1 else 0
      {
        before := State();
        processed := Step();
        if processed {
          DrainStep(variant, before);
          NextProgress(variant, before);
        } else {
          DrainStop(variant, before);
        }
      }
    }

      /** `_flush`: run the installed processor's loop once more. */
    method Flush()
      requires Valid()
      modifies this, buffer
      ensures State() == Flushed(variant, old(State()))
    {
      if phase == Ended {
        phase := InRasterSegment;
      }
      ProcessChunks();
    }

    /** `_transform` (the `data` listener in `parseChart`): buffer the chunk
        and run the processors, unless the stream has already ended. */
    method Transform(chunk: seq<bv8>)
      requires Valid()
      modifies this, buffer
      ensures State() == Feed(variant, old(State()), chunk)
    {
      if phase == Ended || phase == Failed {
        return;
      }
      buffer.Push(chunk);
      ProcessChunks();
    }
  }
}
