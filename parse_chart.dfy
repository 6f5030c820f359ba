/** `parseChart` of src/index.ts: the machine of module ChartStream in
    its `parseChart` configuration, and `completeParse`, which turns the
    text lines and decoded rows gathered so far into a chart. */
module ParseChart {
  import opened Common
  import opened ChartStream
  import Raster
  import Text

  /** `BsbChart`: the decoded rows and the text entries. */
  datatype BsbChart = BsbChart(rasterSegment: seq<Raster.RasterRow>, textSegment: seq<Text.TextEntry>)

  /** `toString('ascii')`: every byte with its high bit cleared, as a
      character. */
  function Ascii(bytes: seq<bv8>): (s: string)
    ensures |s| == |bytes|
    ensures forall i :: 0 <= i < |bytes| ==> s[i] as int == (bytes[i] & 0x7F) as int && s[i] as int < 128
  {
    seq(|bytes|, i requires 0 <= i < |bytes| => ((bytes[i] & 0x7F) as int) as char)
  }

  /** `textEntries`: the text records, decoded, in order. */
  function TextLines(records: seq<Record>): seq<string>
  {
    if |records| == 0 then []
    else (if records[0].TextRecord? then [Ascii(records[0].text)] else []) + TextLines(records[1..])
  }

  /** `rows`: the decoded rows, in order. */
  function DecodedRows(records: seq<Record>): seq<Raster.RasterRow>
  {
    if |records| == 0 then []
    else (if records[0].DecodedRowRecord? then [records[0].decoded] else []) + DecodedRows(records[1..])
  }

  /** `completeParse`: the text entries of the lines read and the rows
      decoded so far. A continuation line before any entry makes
      `parseTextSegmentEntries` throw; that is the error. */
  function Chart(m: Machine): Result<BsbChart, Text.TextError>
  {
    match Text.EntriesOf(TextLines(m.records))
    case Ok(entries) => Ok(BsbChart(DecodedRows(m.records), entries))
    case Err(e) => Err(e)
  }

  lemma {:induction false} TextLinesAppend(a: seq<Record>, b: seq<Record>)
    ensures TextLines(a + b) == TextLines(a) + TextLines(b)
    decreases |a|
  {
    if |a| == 0 {
      assert a + b == b;
    } else {
      var h := if a[0].TextRecord? then [Ascii(a[0].text)] else [];
      assert (a + b)[0] == a[0];
      assert (a + b)[1..] == a[1..] + b;
      assert TextLines(a + b) == h + TextLines(a[1..] + b);
      TextLinesAppend(a[1..], b);
    }
  }

  lemma {:induction false} DecodedRowsAppend(a: seq<Record>, b: seq<Record>)
    ensures DecodedRows(a + b) == DecodedRows(a) + DecodedRows(b)
    decreases |a|
  {
    if |a| == 0 {
      assert a + b == b;
    } else {
      assert (a + b)[1..] == a[1..] + b;
      DecodedRowsAppend(a[1..], b);
    }
  }

  /** The decoded form of each header line. */
  function AsciiLines(lines: seq<seq<bv8>>): (r: seq<string>)
    ensures |r| == |lines|
    ensures forall i :: 0 <= i < |lines| ==> r[i] == Ascii(lines[i])
  {
    seq(|lines|, i requires 0 <= i < |lines| => Ascii(lines[i]))
  }

  /** The rows of a well-formed raster, decoded. */
  function RowsOf(rows: seq<seq<seq<bv8>>>, bitDepth: nat): (r: seq<Raster.RasterRow>)
    requires GoodRows(ParseChartVariant, rows)
    ensures |r| == |rows|
    ensures forall i :: 0 <= i < |rows| ==> Raster.RasterRowOf(rows[i], bitDepth) == Some(r[i])
  {
    seq(|rows|, i requires 0 <= i < |rows| => Raster.RasterRowOf(rows[i], bitDepth).value)
  }

  /** `parseChart` keeps the header lines without their CRLF, decoded. */
  lemma {:induction false} TextLinesOfHeader(lines: seq<seq<bv8>>)
    ensures TextLines(LineRecords(ParseChartVariant, lines)) == AsciiLines(lines)
    ensures DecodedRows(LineRecords(ParseChartVariant, lines)) == []
    decreases |lines|
  {
    if |lines| > 0 {
      TextLinesOfHeader(lines[1..]);
      assert LineRecords(ParseChartVariant, lines)[1..] == LineRecords(ParseChartVariant, lines[1..]);
      assert AsciiLines(lines) == [Ascii(lines[0])] + AsciiLines(lines[1..]);
    }
  }

  /** `parseChart` decodes every row as its terminator is read. */
  lemma {:induction false} DecodedRowsOfRaster(rows: seq<seq<seq<bv8>>>, bitDepth: nat)
    requires GoodRows(ParseChartVariant, rows)
    ensures DecodedRows(RowRecords(ParseChartVariant, rows, bitDepth)) == RowsOf(rows, bitDepth)
    ensures TextLines(RowRecords(ParseChartVariant, rows, bitDepth)) == []
    decreases |rows|
  {
    if |rows| > 0 {
      RowRecordsCons(ParseChartVariant, rows, bitDepth, []);
      DecodedRowsOfRaster(rows[1..], bitDepth);
      assert RowRecords(ParseChartVariant, rows, bitDepth)[1..] == RowRecords(ParseChartVariant, rows[1..], bitDepth);
      assert RowsOf(rows, bitDepth) == [RowsOf(rows, bitDepth)[0]] + RowsOf(rows[1..], bitDepth);
    }
  }

  /** The records of a well-formed chart give back its lines and rows. */
  lemma {:induction false} RecordsOfChart(lines: seq<seq<bv8>>, rows: seq<seq<seq<bv8>>>, bitDepth: nat)
    requires GoodRows(ParseChartVariant, rows)
    ensures var records := LineRecords(ParseChartVariant, lines) + [] + RowRecords(ParseChartVariant, rows, bitDepth);
      TextLines(records) == AsciiLines(lines) && DecodedRows(records) == RowsOf(rows, bitDepth)
  {
    var texts := LineRecords(ParseChartVariant, lines);
    var decoded := RowRecords(ParseChartVariant, rows, bitDepth);
    assert texts + [] + decoded == texts + decoded;
    TextLinesAppend(texts, decoded);
    DecodedRowsAppend(texts, decoded);
    TextLinesOfHeader(lines);
    DecodedRowsOfRaster(rows, bitDepth);
  }

  /** A well-formed chart in one chunk: parsing completes at the raster
      end token with the header lines as the text segment's lines and
      every row decoded with the chart's bit depth. */
  lemma {:induction false} WellFormedParse(lines: seq<seq<bv8>>, bitDepth: bv8, rows: seq<seq<seq<bv8>>>, tail: seq<bv8>)
    requires GoodLines(lines) && GoodRows(ParseChartVariant, rows) && |tail| >= 1
    ensures var m := Feed(ParseChartVariant, Initial, ChartBytes(lines, bitDepth, rows, tail));
      && m.phase == Ended
      && Chart(m) == match Text.EntriesOf(AsciiLines(lines))
                     case Ok(entries) => Ok(BsbChart(RowsOf(rows, bitDepth as nat), entries))
                     case Err(e) => Err(e)
  {
    WellFormedChart(ParseChartVariant, lines, bitDepth, rows, tail);
    RecordsOfChart(lines, rows, bitDepth as nat);
  }

  /** The promise `parseChart` returns, and the closures behind it. */
  class ChartParser {
    const decoder: ChartDecoder
    /** `None` while the promise is pending; `Some(Ok(_))` once it is
        resolved; `Some(Err(_))` once `completeParse` has thrown, which
        escapes the listener and leaves the promise pending for good. */
    var outcome: Option<Result<BsbChart, Text.TextError>>

    predicate Valid()
    {
      decoder.Valid() && decoder.variant == ParseChartVariant
    }

    constructor ()
      ensures Valid() && decoder.State() == Initial && outcome == None
      ensures fresh(decoder) && fresh(decoder.buffer)
    {
      decoder := new ChartDecoder(ParseChartVariant);
      outcome := None;
    }

    /** `completeParse`. */
    method CompleteParse() returns (r: Result<BsbChart, Text.TextError>)
      ensures r == Chart(decoder.State())
    {
      var lines := TextLines(decoder.records);
      var entries := Text.ParseTextSegmentEntries(lines);
      match entries
      case Ok(textSegment) => r := Ok(BsbChart(DecodedRows(decoder.records), textSegment));
      case Err(e) => r := Err(e);
    }

    /** The `data` listener: feed the chunk; reaching the raster end token
        completes the parse (and removes the listeners). */
    method OnData(chunk: seq<bv8>)
      requires Valid()
      modifies this, decoder, decoder.buffer
      ensures decoder.State() == Feed(ParseChartVariant, old(decoder.State()), chunk)
      ensures outcome == if old(decoder.phase) != Ended && decoder.phase == Ended && old(outcome).None?
                         then Some(Chart(decoder.State())) else old(outcome)
    {
      var ended := decoder.phase == Ended;
      decoder.Transform(chunk);
      if !ended && decoder.phase == Ended && outcome.None? {
        var r := CompleteParse();
        outcome := Some(r);
      }
    }

    /** The `end` listener, present until the raster end token is read:
        complete with whatever has been read. After a row that
        `parseRasterRow` rejected the listener's exception has already
        escaped and nothing more happens. */
    method OnEnd()
      requires Valid()
      modifies this
      ensures decoder.State() == old(decoder.State())
      ensures outcome == if decoder.phase != Ended && decoder.phase != Failed && old(outcome).None?
                         then Some(Chart(decoder.State())) else old(outcome)
    {
      if decoder.phase != Ended && decoder.phase != Failed && outcome.None? {
        var r := CompleteParse();
        outcome := Some(r);
      }
    }
  }
}
