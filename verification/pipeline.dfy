/** The output-file path of `plotEventStream` up to the drawing: the lines
    `extractData` yields are read back as comma-separated rows of seven
    columns, and the rows are aggregated into the per-key activity lists. */
module Pipeline {
  import opened Wrappers
  import opened Text
  import opened Extract
  import opened Activity

  /** The line without its final newline, as the reader sees it. */
  function Chomp(text: string): (r: string)
    ensures EndsWithNewline(text) ==> r + "\n" == text
    ensures !EndsWithNewline(text) ==> r == text
  {
    if EndsWithNewline(text) then text[..|text| - 1] else text
  }

  /** The seven columns of a record as text: the five string columns and the
      two timestamps. */
  function Columns(rec: Record): (cs: seq<string>)
    ensures |cs| == 7
  {
    [rec.inputType, rec.user, rec.value, rec.lastUpdate, rec.confidence,
     TimestampText(rec.start), TimestampText(rec.end)]
  }

  /** The record seven column texts describe, if the last two are numbers. */
  function RecordOf(ps: seq<string>): (r: Option<Record>)
    requires |ps| == 7
    ensures r.Some? ==> Columns(r.value) == ps
    ensures r.None? <==> ParseTimestamp(ps[5]).None? || ParseTimestamp(ps[6]).None?
  {
    match (ParseTimestamp(ps[5]), ParseTimestamp(ps[6]))
    case (Some(s), Some(e)) => Some(Record(ps[0], ps[1], ps[2], ps[3], ps[4], s, e))
    case _ => None
  }

  /** One line of the reader: seven comma-separated columns, the last two
      numeric. Anything else is a row the reader rejects. */
  function ReadRow(text: string): (r: Option<Record>)
    ensures r.Some? ==> Join(Columns(r.value), ",") == Chomp(text)
  {
    var ps := Split(Chomp(text), {','});
    JoinSplit(Chomp(text), ',');
    if |ps| != 7 then None else RecordOf(ps)
  }

  lemma TimestampTextNoComma(t: int)
    ensures NoneIn(TimestampText(t), {','})
  {
    var n := if t < 0 then NatText(-t) else NatText(t);
    assert forall i | 0 <= i < |n| :: IsDigit(n[i]);
  }

  /** The comma-separated columns of a rendered row: its fields, then the two
      timestamps. */
  lemma RowTextColumns(row: Row)
    requires forall i | 0 <= i < |row.fields| :: IsToken(row.fields[i])
    ensures Split(Chomp(RowText(row)), {','}) == row.fields + [TimestampText(row.start), TimestampText(row.end)]
  {
    var cs := row.fields + [TimestampText(row.start), TimestampText(row.end)];
    forall k | 0 <= k < |cs|
      ensures NoneIn(cs[k], {','})
    {
      if k < |row.fields| {
        assert IsToken(cs[k]);
      } else {
        TimestampTextNoComma(if k == |row.fields| then row.start else row.end);
      }
    }
    assert Chomp(RowText(row)) == Join(cs, ",");
    SplitJoin(cs, ',');
  }

  /** A processed line yields one line of at most seven comma-separated
      columns, and of exactly seven when the log line has at least seven
      tokens. */
  lemma ExtractedColumns(line: string)
    requires ExtractText(line).Success? && ExtractText(line).value.Some?
    ensures |Split(Chomp(ExtractText(line).value.value), {','})| <= 7
    ensures |Split(Chomp(ExtractText(line).value.value), {','})| == 7 <==> |Tokens(line)| >= 7
  {
    var row := ExtractLine(line).value.value;
    assert ExtractText(line).value.value == RowText(row);
    ExtractLineRow(line);
    RowTextColumns(row);
  }

  /** Reading back an extracted line gives the record it was written from:
      its five fields and its two timestamps. A line with fewer than five
      fields has fewer than seven columns and is rejected. */
  lemma ReadRowOfRowText(row: Row)
    requires forall i | 0 <= i < |row.fields| :: IsToken(row.fields[i])
    ensures |row.fields| == 5 ==>
              ReadRow(RowText(row)) == Some(Record(row.fields[0], row.fields[1], row.fields[2],
                                                   row.fields[3], row.fields[4], row.start, row.end))
    ensures |row.fields| != 5 ==> ReadRow(RowText(row)) == None
  {
    RowTextColumns(row);
    TimestampTextRoundTrip(row.start);
    TimestampTextRoundTrip(row.end);
  }

  /** The record a processed log line with at least seven tokens stands for:
      tokens 1, 2, 3, 5 and 6 (type, user, value, last update, confidence)
      and the two timestamps extracted from its date tuples. */
  function LineRecord(line: string): Record
    requires ExtractLine(line).Success? && ExtractLine(line).value.Some?
    requires |Tokens(line)| >= 7
  {
    var t := Tokens(line);
    var row := ExtractLine(line).value.value;
    Record(t[1], t[2], t[3], t[5], t[6], row.start, row.end)
  }

  /** Reading back what a processed line was extracted to: a record exactly
      when the line has seven tokens or more, and then the record the line
      stands for. */
  lemma ReadExtracted(line: string)
    requires ExtractLine(line).Success? && ExtractLine(line).value.Some?
    ensures ReadRow(RowText(ExtractLine(line).value.value)).Some? <==> |Tokens(line)| >= 7
    ensures |Tokens(line)| >= 7 ==> ReadRow(RowText(ExtractLine(line).value.value)) == Some(LineRecord(line))
  {
    var row := ExtractLine(line).value.value;
    assert row.fields == Fields(Tokens(line)) && forall i | 0 <= i < |row.fields| :: IsToken(row.fields[i]) by {
      ExtractLineRow(line);
    }
    ReadFields(row, Tokens(line));
  }

  /** A row whose fields were kept from `tokens` reads back as a record
      exactly when there were seven tokens or more. */
  lemma ReadFields(row: Row, tokens: seq<string>)
    requires row.fields == Fields(tokens)
    requires forall i | 0 <= i < |row.fields| :: IsToken(row.fields[i])
    ensures ReadRow(RowText(row)).Some? <==> |tokens| >= 7
    ensures |tokens| >= 7 ==>
              ReadRow(RowText(row)) == Some(Record(tokens[1], tokens[2], tokens[3], tokens[5], tokens[6], row.start, row.end))
  {
    ReadRowOfRowText(row);
  }

  /** All rows if every line was read, else the position of the first line
      that was not. */
  function AllRead(rs: seq<Option<Record>>): (r: Result<seq<Record>, nat>)
    ensures r.Success? ==> |r.value| == |rs|
    ensures r.Success? ==> forall i | 0 <= i < |rs| :: rs[i] == Some(r.value[i])
    ensures r.Failure? ==> r.error < |rs| && rs[r.error].None?
    ensures r.Failure? ==> forall i | 0 <= i < r.error :: rs[i].Some?
    decreases |rs|
  {
    if |rs| == 0 then Success([])
    else
      match rs[0]
      case None => Failure(0)
      case Some(rec) =>
        var tail := rs[1..];
        assert forall i | 1 <= i < |rs| :: rs[i] == tail[i - 1];
        match AllRead(tail)
        case Failure(k) => Failure(k + 1)
        case Success(rest) =>
          assert forall i | 1 <= i < |rs| :: ([rec] + rest)[i] == rest[i - 1];
          Success([rec] + rest)
  }

  /** The reader over all lines: every line must be a row; the error is the
      position of the first line that is not. */
  function ReadRows(texts: seq<string>): (r: Result<seq<Record>, nat>)
    ensures r.Success? ==> |r.value| == |texts|
    ensures r.Success? ==> forall i | 0 <= i < |texts| :: ReadRow(texts[i]) == Some(r.value[i])
    ensures r.Failure? ==> r.error < |texts| && ReadRow(texts[r.error]).None?
    ensures r.Failure? ==> forall i | 0 <= i < r.error :: ReadRow(texts[i]).Some?
  {
    var rs := seq(|texts|, i requires 0 <= i < |texts| => ReadRow(texts[i]));
    assert forall i | 0 <= i < |texts| :: rs[i] == ReadRow(texts[i]);
    AllRead(rs)
  }

  /** The reader succeeds with exactly the records the lines read as. */
  lemma ReadRowsOf(texts: seq<string>, records: seq<Record>)
    requires |records| == |texts|
    requires forall k | 0 <= k < |texts| :: ReadRow(texts[k]) == Some(records[k])
    ensures ReadRows(texts) == Success(records)
  {
    var r := ReadRows(texts);
    assert r.Success?;
    var rs := r.value;
    assert |rs| == |records|;
    forall k | 0 <= k < |texts|
      ensures rs[k] == records[k]
    {
      assert ReadRow(texts[k]) == Some(rs[k]);
    }
    assert rs == records;
  }

  /** Why no plot is drawn. */
  datatype PlotError =
    | ExtractFailed(cause: ParseError)
    | ColumnMismatch(line: nat)
    | NoActivity

  /** From the extracted texts to the activities: every text must read as a
      record, and some record must be of type `hla`. */
  function Plot(texts: seq<string>): (r: Result<Activities, PlotError>)
    ensures r.Failure? ==> r.error.ColumnMismatch? || r.error.NoActivity?
    ensures r.Failure? && r.error.ColumnMismatch? <==> exists k | 0 <= k < |texts| :: ReadRow(texts[k]).None?
    ensures ReadRows(texts).Success? ==>
              (r.Success? <==> Aggregate(ReadRows(texts).value).Success?)
              && (r.Success? ==> r.value == Aggregate(ReadRows(texts).value).value)
    ensures r.Success? ==> |texts| > 0
  {
    match ReadRows(texts)
    case Failure(k) => Failure(ColumnMismatch(k))
    case Success(records) =>
      match Aggregate(records)
      case Failure(_) => Failure(NoActivity)
      case Success(a) =>
        assert |records| > 0;
        Success(a)
  }

  /** From the log lines to the activities the plot is drawn from. */
  function HighLevel(lines: seq<string>): (r: Result<Activities, PlotError>)
    ensures r.Success? ==> ExtractData(lines).Success?
    ensures ExtractData(lines).Failure? ==> r == Failure(ExtractFailed(ExtractData(lines).error))
    ensures ExtractData(lines).Success? ==> r == Plot(ExtractData(lines).value)
    ensures r.Success? ==> exists i | 0 <= i < |lines| :: !IsSkipped(lines[i])
  {
    match ExtractData(lines)
    case Failure(e) => Failure(ExtractFailed(e))
    case Success(texts) =>
      var r := Plot(texts);
      if r.Success? then NoneProcessed(lines); r else r
  }

  /** Without a processed line nothing is extracted. */
  lemma {:induction false} NoneProcessed(lines: seq<string>)
    ensures CountProcessed(lines) == 0 <==> forall i | 0 <= i < |lines| :: IsSkipped(lines[i])
    decreases |lines|
  {
    if |lines| > 0 {
      NoneProcessed(lines[1..]);
      assert forall i | 1 <= i < |lines| :: lines[i] == lines[1..][i - 1];
    }
  }

  /** The extracted texts read back one by one: text `k` comes from the
      processed line at `idx[k]`, and reads as a record exactly when that
      line has seven tokens or more. */
  lemma ReadEach(lines: seq<string>) returns (idx: seq<nat>)
    requires ExtractData(lines).Success?
    ensures |idx| == |ExtractData(lines).value|
    ensures forall k | 0 <= k < |idx| ::
              && idx[k] < |lines|
              && ExtractLine(lines[idx[k]]).Success? && ExtractLine(lines[idx[k]]).value.Some?
              && (ReadRow(ExtractData(lines).value[k]).Some? <==> |Tokens(lines[idx[k]])| >= 7)
              && (|Tokens(lines[idx[k]])| >= 7 ==>
                    ReadRow(ExtractData(lines).value[k]) == Some(LineRecord(lines[idx[k]])))
    ensures forall k, l | 0 <= k < l < |idx| :: idx[k] < idx[l]
    ensures forall i: nat | i < |lines| && ProcessedAt(lines, i) :: i in idx
  {
    idx := ExtractDataOrder(lines);
    forall k | 0 <= k < |idx|
      ensures (ReadRow(ExtractData(lines).value[k]).Some? <==> |Tokens(lines[idx[k]])| >= 7)
      ensures |Tokens(lines[idx[k]])| >= 7 ==>
                ReadRow(ExtractData(lines).value[k]) == Some(LineRecord(lines[idx[k]]))
    {
      ReadExtracted(lines[idx[k]]);
    }
  }

  /** The reader rejects the extracted file exactly when some processed line
      has fewer than seven tokens. */
  lemma HighLevelColumnMismatch(lines: seq<string>)
    requires ExtractData(lines).Success?
    ensures HighLevel(lines).Failure? && HighLevel(lines).error.ColumnMismatch?
        <==> exists i: nat | i < |lines| && ProcessedAt(lines, i) :: |Tokens(lines[i])| < 7
  {
    var texts := ExtractData(lines).value;
    var idx := ReadEach(lines);
    if k :| 0 <= k < |texts| && ReadRow(texts[k]).None? {
      assert !IsSkipped(lines[idx[k]]);
      assert ProcessedAt(lines, idx[k]) && |Tokens(lines[idx[k]])| < 7;
    }
    if i: nat :| i < |lines| && ProcessedAt(lines, i) && |Tokens(lines[i])| < 7 {
      var k :| 0 <= k < |idx| && idx[k] == i;
      assert ReadRow(texts[k]).None?;
    }
  }

  /** With every processed line long enough, the extracted file reads back as
      the records the processed lines stand for, in file order, and the
      activities are those of the records. */
  lemma HighLevelRecords(lines: seq<string>) returns (idx: seq<nat>, records: seq<Record>)
    requires ExtractData(lines).Success?
    requires forall i: nat | i < |lines| && ProcessedAt(lines, i) :: |Tokens(lines[i])| >= 7
    ensures |records| == |idx|
    ensures forall k | 0 <= k < |idx| ::
              && idx[k] < |lines|
              && ExtractLine(lines[idx[k]]).Success? && ExtractLine(lines[idx[k]]).value.Some?
              && |Tokens(lines[idx[k]])| >= 7
              && records[k] == LineRecord(lines[idx[k]])
    ensures forall k, l | 0 <= k < l < |idx| :: idx[k] < idx[l]
    ensures forall i: nat | i < |lines| && ProcessedAt(lines, i) :: i in idx
    ensures HighLevel(lines).Success? <==> Aggregate(records).Success?
    ensures HighLevel(lines).Success? ==> HighLevel(lines).value == Aggregate(records).value
    ensures HighLevel(lines).Failure? ==> HighLevel(lines) == Failure(NoActivity)
  {
    var texts := ExtractData(lines).value;
    idx := ReadEach(lines);
    forall k | 0 <= k < |idx|
      ensures |Tokens(lines[idx[k]])| >= 7
    {
      assert !IsSkipped(lines[idx[k]]);
      assert ProcessedAt(lines, idx[k]);
    }
    records := seq(|idx|, k requires 0 <= k < |idx| => LineRecord(lines[idx[k]]));
    ReadRowsOf(texts, records);
  }

  /** With every processed line long enough, nothing is plotted for want of
      activity exactly when no processed line is of type `hla`. */
  lemma HighLevelNoActivity(lines: seq<string>)
    requires ExtractData(lines).Success?
    requires forall i: nat | i < |lines| && ProcessedAt(lines, i) :: |Tokens(lines[i])| >= 7
    ensures HighLevel(lines) == Failure(NoActivity)
        <==> forall i: nat | i < |lines| && ProcessedAt(lines, i) :: Tokens(lines[i])[1] != Hla
  {
    var idx, records := HighLevelRecords(lines);
    if i: nat :| i < |lines| && ProcessedAt(lines, i) && Tokens(lines[i])[1] == Hla {
      var k :| 0 <= k < |idx| && idx[k] == i;
      assert records[k].inputType == Hla;
    }
    if k :| 0 <= k < |records| && records[k].inputType == Hla {
      assert !IsSkipped(lines[idx[k]]);
      assert ProcessedAt(lines, idx[k]) && Tokens(lines[idx[k]])[1] == Hla;
    }
  }
}
