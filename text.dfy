/** The text-entry tokenizer of src/text.ts: groups the lines of a chart's
    text segment into typed, multi-line entries. */
module Text {
  import opened Common

  datatype TextEntry = TextEntry(entryType: string, lines: seq<string>)

  /** `currentEntry!.lines.push(...)` on a continuation line that comes
      before any entry dereferences `undefined` and throws. */
  datatype TextError = ContinuationBeforeEntry(lineIndex: nat)

  const LineSeparator: string := "\r\n"
  const ContinuationToken: string := "    "
  const BangType: string := "!"
  const UnknownType: string := "<unknown>"

  /** The parts joined back with the separator. */
  function Join(parts: seq<string>, sep: string): string
  {
    if |parts| == 0 then ""
    else if |parts| == 1 then parts[0]
    else parts[0] + sep + Join(parts[1..], sep)
  }

  /** An occurrence inside a prefix is an occurrence in the whole string. */
  lemma {:induction false} OccursInPrefix(s: string, i: nat, v: string, q: int)
    requires i <= |s|
    requires OccursAt(s[..i], v, q)
    ensures OccursAt(s, v, q)
  {
    assert s[q..q + |v|] == s[..i][q..q + |v|];
  }

  /** `String.prototype.split` with a non-empty string separator: the
      pieces between successive leftmost occurrences. */
  function Split(s: string, sep: string): (parts: seq<string>)
    requires |sep| > 0
    ensures |parts| >= 1
    decreases |s|
  {
    var i := IndexOf(s, sep);
    if i < 0 then [s]
    else [s[..i]] + Split(s[i + |sep|..], sep)
  }

  /** Splitting loses nothing: the pieces joined with the separator give
      the text back, and no piece holds the separator. */
  lemma {:induction false} SplitJoin(s: string, sep: string)
    requires |sep| > 0
    ensures Join(Split(s, sep), sep) == s
    ensures forall k :: 0 <= k < |Split(s, sep)| ==> IndexOf(Split(s, sep)[k], sep) == -1
    decreases |s|
  {
    var i := IndexOf(s, sep);
    if i >= 0 {
      var head := s[..i];
      var rest := s[i + |sep|..];
      SplitJoin(rest, sep);
      var h := IndexOf(head, sep);
      if h >= 0 {
        OccursInPrefix(s, i, sep, h);
      }
      assert s == head + sep + rest;
      assert Split(s, sep) == [head] + Split(rest, sep);
      assert forall k :: 1 <= k < |Split(s, sep)| ==> Split(s, sep)[k] == Split(rest, sep)[k - 1];
    }
  }

  /** How one header line is treated, in the order the source tests it. */
  datatype LineKind =
    | Blank
    | Bang(text: string)
    | Continuation(text: string)
    | Typed(entryType: string, text: string)
    | Unknown(text: string)

  /** The entry type of a line per the pattern `^([^/]+)/`: the non-empty
      text before the first `/`. */
  function EntryTypeOf(line: string): (r: Option<string>)
    ensures r.Some? ==> (0 < |r.value| < |line| && line[|r.value|] == '/'
      && forall k :: 0 <= k < |r.value| ==> r.value[k] == line[k] && line[k] != '/')
    ensures r.None? ==> |line| == 0 || line[0] == '/' || forall k :: 0 <= k < |line| ==> line[k] != '/'
  {
    var slash := IndexOf(line, "/");
    if slash > 0 then
      assert forall k :: 0 <= k < slash ==> line[k] != '/' by {
        forall k | 0 <= k < slash ensures line[k] != '/' {
          assert !OccursAt(line, "/", k);
        }
      }
      assert line[slash..slash + 1] == "/";
      Some(line[..slash])
    else
      assert slash == 0 ==> line[0..1] == "/";
      assert slash < 0 ==> forall k :: 0 <= k < |line| ==> line[k] != '/' by {
        if slash < 0 {
          forall k | 0 <= k < |line| ensures line[k] != '/' {
            assert !OccursAt(line, "/", k);
            assert line[k..k + 1] == [line[k]];
          }
        }
      }
      None
  }

  function Classify(line: string): LineKind
  {
    if |line| == 0 then Blank
    else if line[0] == '!' then Bang(line[1..])
    else if |line| >= |ContinuationToken| && line[..|ContinuationToken|] == ContinuationToken then
      Continuation(line[|ContinuationToken|..])
    else
      match EntryTypeOf(line)
      case Some(t) => Typed(t, line[|t| + 1..])
      case None => Unknown(line)
  }

  /** The line starts a new entry. */
  predicate StartsEntry(line: string)
  {
    Classify(line).Bang? || Classify(line).Typed? || Classify(line).Unknown?
  }

  /** The entry a starting line opens. */
  function EntryFor(line: string): TextEntry
    requires StartsEntry(line)
  {
    match Classify(line)
    case Bang(t) => TextEntry(BangType, [t])
    case Typed(ty, t) => TextEntry(ty, [t])
    case Unknown(t) => TextEntry(UnknownType, [t])
  }

  /** The effect of one line on the entries built so far. */
  function AddLine(entries: seq<TextEntry>, line: string, lineIndex: nat): Result<seq<TextEntry>, TextError>
  {
    match Classify(line)
    case Blank => Ok(entries)
    case Continuation(t) =>
      if |entries| == 0 then Err(ContinuationBeforeEntry(lineIndex))
      else
        var current := entries[|entries| - 1];
        Ok(entries[..|entries| - 1] + [current.(lines := current.lines + [t])])
    case _ => Ok(entries + [EntryFor(line)])
  }

  /** What `parseTextSegmentEntries` returns for the given lines. */
  function EntriesOf(lines: seq<string>): Result<seq<TextEntry>, TextError>
  {
    if |lines| == 0 then Ok([])
    else
      match EntriesOf(lines[..|lines| - 1])
      case Err(e) => Err(e)
      case Ok(entries) => AddLine(entries, lines[|lines| - 1], |lines| - 1)
  }

  /** `parseTextSegmentEntries`: one pass over the lines, pushing a new
      entry for each starting line and appending continuation text to the
      entry most recently started (`currentEntry`, which is always the last
      entry pushed). */
  method ParseTextSegmentEntries(lines: seq<string>) returns (r: Result<seq<TextEntry>, TextError>)
    ensures r == EntriesOf(lines)
  {
    var entries: seq<TextEntry> := [];
    for i := 0 to |lines|
      invariant EntriesOf(lines[..i]) == Ok(entries)
    {
      var line := lines[i];
      assert lines[..i + 1][..i] == lines[..i];
      if |line| == 0 {
        continue;
      } else if line[0] == '!' {
        entries := entries + [TextEntry(BangType, [line[1..]])];
      } else if |line| >= |ContinuationToken| && line[..|ContinuationToken|] == ContinuationToken {
        if |entries| == 0 {
          ErrorPersists(lines, i + 1);
          return Err(ContinuationBeforeEntry(i));
        }
        var current := entries[|entries| - 1];
        entries := entries[..|entries| - 1] + [current.(lines := current.lines + [line[|ContinuationToken|..]])];
      } else {
        var entryType := EntryTypeOf(line);
        if entryType.Some? {
          entries := entries + [TextEntry(entryType.value, [line[|entryType.value| + 1..]])];
        } else {
          entries := entries + [TextEntry(UnknownType, [line])];
        }
      }
    }
    assert lines[..|lines|] == lines;
    r := Ok(entries);
  }

  /** Once a prefix of the lines fails, the whole input fails the same way. */
  lemma {:induction false} ErrorPersists(lines: seq<string>, i: nat)
    requires i <= |lines|
    requires EntriesOf(lines[..i]).Err?
    ensures EntriesOf(lines) == EntriesOf(lines[..i])
    decreases |lines| - i
  {
    if i < |lines| {
      assert lines[..i + 1][..i] == lines[..i];
      ErrorPersists(lines, i + 1);
    } else {
      assert lines[..i] == lines;
    }
  }

  /** `parseTextSegment`: splits on CRLF and tokenizes the pieces. */
  method ParseTextSegment(textSegment: string) returns (r: Result<seq<TextEntry>, TextError>)
    ensures r == EntriesOf(Split(textSegment, LineSeparator))
  {
    var lines := Split(textSegment, LineSeparator);
    r := ParseTextSegmentEntries(lines);
  }

  // ---------------------------------------------------------------------
  // Properties of the tokenizer

  /** Number of lines that start an entry. */
  function CountStarts(lines: seq<string>): nat
  {
    if |lines| == 0 then 0
    else CountStarts(lines[..|lines| - 1]) + (if StartsEntry(lines[|lines| - 1]) then 1 else 0)
  }

  /** The text a line contributes to its entry; nothing for a blank line. */
  function TextOf(line: string): seq<string>
  {
    match Classify(line)
    case Blank => []
    case Bang(t) => [t]
    case Continuation(t) => [t]
    case Typed(_, t) => [t]
    case Unknown(t) => [t]
  }

  /** The text each non-blank line contributes to some entry, in order. */
  function LineTexts(lines: seq<string>): seq<string>
  {
    if |lines| == 0 then [] else LineTexts(lines[..|lines| - 1]) + TextOf(lines[|lines| - 1])
  }

  /** All lines of all entries, in entry order. */
  function AllLines(entries: seq<TextEntry>): seq<string>
  {
    if |entries| == 0 then [] else AllLines(entries[..|entries| - 1]) + entries[|entries| - 1].lines
  }

  lemma {:induction false} AllLinesAppend(entries: seq<TextEntry>, e: TextEntry)
    ensures AllLines(entries + [e]) == AllLines(entries) + e.lines
  {
    assert (entries + [e])[..|entries|] == entries;
  }

  /** A continuation line comes before any line that starts an entry. */
  predicate OrphanContinuation(lines: seq<string>)
  {
    exists i :: 0 <= i < |lines| && Classify(lines[i]).Continuation? && forall j :: 0 <= j < i ==> !StartsEntry(lines[j])
  }

  /** Tokenizing fails exactly when a continuation line precedes every
      entry. */
  lemma {:induction false} EntriesFailure(lines: seq<string>)
    ensures EntriesOf(lines).Err? <==> OrphanContinuation(lines)
  {
    if |lines| > 0 {
      var init := lines[..|lines| - 1];
      var last := lines[|lines| - 1];
      EntriesFailure(init);
      if EntriesOf(init).Ok? {
        EntriesEmptyIffNoStart(init);
      }
      if OrphanContinuation(init) {
        var i :| 0 <= i < |init| && Classify(init[i]).Continuation? && forall j :: 0 <= j < i ==> !StartsEntry(init[j]);
        assert lines[i] == init[i];
        assert forall j :: 0 <= j < i ==> lines[j] == init[j];
      }
      if OrphanContinuation(lines) {
        var i :| 0 <= i < |lines| && Classify(lines[i]).Continuation? && forall j :: 0 <= j < i ==> !StartsEntry(lines[j]);
        if i < |init| {
          assert init[i] == lines[i];
          assert forall j :: 0 <= j < i ==> init[j] == lines[j];
        } else {
          assert forall j :: 0 <= j < |init| ==> !StartsEntry(init[j]) by {
            forall j | 0 <= j < |init| ensures !StartsEntry(init[j]) {
              assert init[j] == lines[j];
            }
          }
        }
      }
      if EntriesOf(init).Ok? && Classify(last).Continuation? && |EntriesOf(init).value| == 0 {
        assert forall j :: 0 <= j < |init| ==> !StartsEntry(lines[j]) by {
          forall j | 0 <= j < |init| ensures !StartsEntry(lines[j]) {
            assert init[j] == lines[j];
          }
        }
        assert OrphanContinuation(lines) by {
          assert Classify(lines[|init|]).Continuation?;
        }
      }
    }
  }

  /** Without an error, the entries so far are empty exactly when no line
      has started one. */
  lemma {:induction false} EntriesEmptyIffNoStart(lines: seq<string>)
    requires EntriesOf(lines).Ok?
    ensures |EntriesOf(lines).value| == 0 <==> forall j :: 0 <= j < |lines| ==> !StartsEntry(lines[j])
  {
    if |lines| > 0 {
      var init := lines[..|lines| - 1];
      EntriesEmptyIffNoStart(init);
      forall j | 0 <= j < |init| ensures init[j] == lines[j] { }
    }
  }

  /** Every entry holds at least one line; there is one entry per starting
      line; and the entries, read line by line, give back the text of every
      non-blank line in order: nothing is lost or reordered. */
  lemma {:induction false} EntriesShape(lines: seq<string>)
    requires EntriesOf(lines).Ok?
    ensures var entries := EntriesOf(lines).value;
      && |entries| == CountStarts(lines)
      && (forall k :: 0 <= k < |entries| ==> |entries[k].lines| >= 1)
      && AllLines(entries) == LineTexts(lines)
  {
    if |lines| > 0 {
      var init := lines[..|lines| - 1];
      EntriesShape(init);
      ShapeStep(EntriesOf(init).value, lines[|lines| - 1], |lines| - 1);
    }
  }

  /** One line keeps the shape of `EntriesShape`. */
  lemma {:induction false} ShapeStep(before: seq<TextEntry>, line: string, lineIndex: nat)
    requires AddLine(before, line, lineIndex).Ok?
    requires forall k :: 0 <= k < |before| ==> |before[k].lines| >= 1
    ensures var after := AddLine(before, line, lineIndex).value;
      && |after| == |before| + (if StartsEntry(line) then 1 else 0)
      && (forall k :: 0 <= k < |after| ==> |after[k].lines| >= 1)
      && AllLines(after) == AllLines(before) + TextOf(line)
  {
    if Classify(line).Continuation? {
      ContinuationStep(before, line, lineIndex);
    } else if StartsEntry(line) {
      var e := EntryFor(line);
      assert AddLine(before, line, lineIndex).value == before + [e];
      AllLinesAppend(before, e);
      assert e.lines == TextOf(line);
    }
  }

  lemma {:induction false} ContinuationStep(before: seq<TextEntry>, line: string, lineIndex: nat)
    requires Classify(line).Continuation?
    requires AddLine(before, line, lineIndex).Ok?
    requires forall k :: 0 <= k < |before| ==> |before[k].lines| >= 1
    ensures var after := AddLine(before, line, lineIndex).value;
      && |after| == |before|
      && (forall k :: 0 <= k < |after| ==> |after[k].lines| >= 1)
      && AllLines(after) == AllLines(before) + TextOf(line)
  {
    var t := Classify(line).text;
    var front := before[..|before| - 1];
    var current := before[|before| - 1];
    var updated := current.(lines := current.lines + [t]);
    assert AddLine(before, line, lineIndex).value == front + [updated];
    assert before == front + [current];
    AllLinesAppend(front, current);
    AllLinesAppend(front, updated);
  }

  /** Entry types are `!`, `<unknown>`, or a non-empty name without `/`. */
  lemma {:induction false} EntryTypes(lines: seq<string>)
    requires EntriesOf(lines).Ok?
    ensures forall e :: e in EntriesOf(lines).value ==>
      e.entryType == BangType || e.entryType == UnknownType ||
      (|e.entryType| > 0 && forall k :: 0 <= k < |e.entryType| ==> e.entryType[k] != '/')
  {
    if |lines| > 0 {
      EntryTypes(lines[..|lines| - 1]);
    }
  }

  /** A line free of carriage returns, then CRLF: the line is the first piece. */
  lemma {:induction false} SplitLine(line: string, rest: string)
    requires forall k :: 0 <= k < |line| ==> line[k] != '\r'
    ensures Split(line + LineSeparator + rest, LineSeparator) == [line] + Split(rest, LineSeparator)
  {
    var s := line + LineSeparator + rest;
    IndexOfAfter(line, LineSeparator, rest);
    assert s[..|line|] == line;
    assert s[|line| + |LineSeparator|..] == rest;
  }

  /** A line `TYPE/text` whose type is a plain name opens a typed entry. */
  lemma {:induction false} TypedLine(entryType: string, text: string)
    requires |entryType| > 0 && entryType[0] != '!' && entryType[0] != ' '
    requires forall k :: 0 <= k < |entryType| ==> entryType[k] != '/'
    ensures Classify(entryType + "/" + text) == Typed(entryType, text)
  {
    var line := entryType + "/" + text;
    IndexOfAfter(entryType, "/", text);
    assert line[0] == entryType[0];
    assert |line| >= |ContinuationToken| ==> line[..|ContinuationToken|][0] != ContinuationToken[0];
    assert line[|entryType| + 1..] == text;
  }

  /** Three lines, two typed and one blank, make two entries. */
  lemma {:induction false} TwoTypedLines(lines: seq<string>, t1: string, x1: string, t2: string, x2: string)
    requires |lines| == 3 && lines[2] == ""
    requires Classify(lines[0]) == Typed(t1, x1) && Classify(lines[1]) == Typed(t2, x2)
    ensures EntriesOf(lines) == Ok([TextEntry(t1, [x1]), TextEntry(t2, [x2])])
  {
    var e1 := TextEntry(t1, [x1]);
    var e2 := TextEntry(t2, [x2]);
    assert EntryFor(lines[0]) == e1;
    assert EntryFor(lines[1]) == e2;
    assert lines[..1][..0] == [];
    assert EntriesOf(lines[..1][..0]) == Ok([]);
    var empty: seq<TextEntry> := [];
    assert StartsEntry(lines[0]);
    assert empty + [EntryFor(lines[0])] == [e1];
    assert AddLine(empty, lines[0], 0) == Ok([e1]);
    assert EntriesOf(lines[..1]) == Ok([e1]);
    assert lines[..2][..1] == lines[..1];
    assert [e1] + [EntryFor(lines[1])] == [e1, e2];
    assert AddLine([e1], lines[1], 1) == Ok([e1, e2]);
    assert EntriesOf(lines[..2]) == Ok([e1, e2]);
    assert lines[..3][..2] == lines[..2];
    assert lines[..3] == lines;
  }

  lemma {:induction false} SplitEmpty()
    ensures Split("", LineSeparator) == [""]
  {
    assert !OccursAt("", LineSeparator, 0);
  }

  /** No carriage return in the text: it cannot hold a line separator. */
  predicate NoReturn(s: string)
  {
    forall k :: 0 <= k < |s| ==> s[k] != '\r'
  }

  /** A typed line built from return-free parts is return-free. */
  lemma {:induction false} TypedLineNoReturn(entryType: string, text: string)
    requires NoReturn(entryType) && NoReturn(text)
    ensures NoReturn(entryType + "/" + text)
  {
    var line := entryType + "/" + text;
    forall k | 0 <= k < |line| ensures line[k] != '\r' {
      if k < |entryType| { assert line[k] == entryType[k]; }
      else if k > |entryType| { assert line[k] == text[k - |entryType| - 1]; }
    }
  }

  /** Two return-free lines, each ended by CRLF, split into the two lines
      and a final empty piece. */
  lemma {:induction false} SplitTwoLines(l1: string, l2: string)
    requires NoReturn(l1) && NoReturn(l2)
    ensures Split(l1 + LineSeparator + l2 + LineSeparator, LineSeparator) == [l1, l2, ""]
  {
    SplitLine(l2, "");
    assert l2 + LineSeparator == l2 + LineSeparator + "";
    SplitLine(l1, l2 + LineSeparator);
    assert l1 + LineSeparator + l2 + LineSeparator == l1 + LineSeparator + (l2 + LineSeparator);
    SplitEmpty();
  }

  /** Two typed lines, each ended by CRLF, make two entries; the empty
      piece after the last CRLF is ignored. */
  lemma {:induction false} TwoLineEntries(l1: string, l2: string, t1: string, x1: string, t2: string, x2: string)
    requires NoReturn(l1) && NoReturn(l2)
    requires Classify(l1) == Typed(t1, x1) && Classify(l2) == Typed(t2, x2)
    ensures EntriesOf(Split(l1 + LineSeparator + l2 + LineSeparator, LineSeparator)) ==
      Ok([TextEntry(t1, [x1]), TextEntry(t2, [x2])])
  {
    SplitTwoLines(l1, l2);
    TwoTypedLines([l1, l2, ""], t1, x1, t2, x2);
  }

  /** The header line `TYPE/text`. */
  function TypedText(entryType: string, text: string): string
  {
    entryType + "/" + text
  }

  /** The same for lines written `TYPE/text` with a plain type name. */
  lemma {:induction false} TwoLineHeader(t1: string, x1: string, t2: string, x2: string)
    requires |t1| > 0 && t1[0] != '!' && t1[0] != ' ' && NoReturn(t1) && NoReturn(x1)
    requires |t2| > 0 && t2[0] != '!' && t2[0] != ' ' && NoReturn(t2) && NoReturn(x2)
    requires forall k :: 0 <= k < |t1| ==> t1[k] != '/'
    requires forall k :: 0 <= k < |t2| ==> t2[k] != '/'
    ensures EntriesOf(Split(TypedText(t1, x1) + LineSeparator + TypedText(t2, x2) + LineSeparator, LineSeparator)) ==
      Ok([TextEntry(t1, [x1]), TextEntry(t2, [x2])])
  {
    TypedLineNoReturn(t1, x1);
    TypedLineNoReturn(t2, x2);
    TypedLine(t1, x1);
    TypedLine(t2, x2);
    TwoLineEntries(TypedText(t1, x1), TypedText(t2, x2), t1, x1, t2, x2);
  }
}
