/**
 * The streaming transcoder of one object: `ReadCsvStreaming` and the body of
 * the per-record loop in `TransformCsvToJson`
 * (src/LambdaFunction/Function.cs lines 91-108 and 112-144).
 *
 * The object's content is already decoded and split into lines; the storage
 * read is a parameter that yields either those lines or a failure. The JSON
 * serialiser is a parameter too: the transcoder only fixes which records are
 * serialised and in which order.
 */
module Transcode {
  import opened Wrappers
  import opened Fields
  import opened Records

  /**
   * What reading an object from storage gives: all of its lines, or the lines
   * delivered before the read threw (none when opening the object failed)
   * and the failure.
   */
  datatype Fetched = Lines(lines: seq<string>) | Unreadable(lines: seq<string>, reason: string)

  /**
   * Why transcoding an object stopped: the storage read threw; the object had
   * no first line, so `headerLine!.Split` dereferenced null; or a row was
   * shorter than the header, so `values[i]` was out of range.
   */
  datatype Error = ReadFailed(reason: string) | MissingHeader | RowTooShort

  /**
   * The records the generator yielded, in order, and the exception that ended
   * it early, if any. Records yielded before the exception were already
   * written to the scratch file.
   */
  datatype Stream = Stream(records: seq<Record>, failure: Option<Error>)

  /** The data lines the loop does not skip, in order. */
  function NonEmpty(rows: seq<string>): (kept: seq<string>)
    ensures forall k :: 0 <= k < |kept| ==> kept[k] != "" && kept[k] in rows
  {
    if |rows| == 0 then []
    else if rows[0] == "" then NonEmpty(rows[1..])
    else [rows[0]] + NonEmpty(rows[1..])
  }

  /** A row the record builder rejects: fewer fields than the header. */
  predicate TooShort(headers: seq<string>, row: string)
  {
    |Split(row, Comma)| < |headers|
  }

  /**
   * The `while (!reader.EndOfStream)` loop over the data lines: empty lines
   * are skipped, every other line becomes a record, and the first short row
   * ends the stream with an error.
   */
  function ReadRows(headers: seq<string>, rows: seq<string>): Stream
  {
    if |rows| == 0 then Stream([], None)
    else if rows[0] == "" then ReadRows(headers, rows[1..])
    else
      match BuildRecord(headers, Split(rows[0], Comma))
      case None => Stream([], Some(RowTooShort))
      case Some(rec) =>
        var rest := ReadRows(headers, rows[1..]);
        Stream([rec] + rest.records, rest.failure)
  }

  /**
   * The loop's output in terms of the non-empty rows: the records of a prefix
   * of them, in order; all of them when nothing failed, and otherwise the
   * stream stopped with `RowTooShort` right at the first row that was short.
   */
  lemma ReadRowsYieldsPrefix(headers: seq<string>, rows: seq<string>)
    ensures var s := ReadRows(headers, rows);
      && (s.failure.None? || s.failure == Some(RowTooShort))
      && |s.records| <= |NonEmpty(rows)|
      && (forall k :: 0 <= k < |s.records| ==>
            BuildRecord(headers, Split(NonEmpty(rows)[k], Comma)) == Some(s.records[k]))
      && (s.failure.None? ==> |s.records| == |NonEmpty(rows)|)
      && (s.failure.Some? ==> |s.records| < |NonEmpty(rows)| && TooShort(headers, NonEmpty(rows)[|s.records|]))
  {
    ReadRowsStops(headers, rows);
    ReadRowsRecords(headers, rows);
  }

  /** Where the loop stops: at the end, or with `RowTooShort` at the first short non-empty row. */
  lemma {:induction false} ReadRowsStops(headers: seq<string>, rows: seq<string>)
    ensures var s := ReadRows(headers, rows);
      && (s.failure.None? || s.failure == Some(RowTooShort))
      && (s.failure.None? ==> |s.records| == |NonEmpty(rows)|)
      && (s.failure.Some? ==> |s.records| < |NonEmpty(rows)| && TooShort(headers, NonEmpty(rows)[|s.records|]))
  {
    if |rows| > 0 {
      ReadRowsStops(headers, rows[1..]);
      if rows[0] != "" {
        BuildRecordFails(headers, Split(rows[0], Comma));
        var ne := NonEmpty(rows);
        assert ne == [rows[0]] + NonEmpty(rows[1..]);
        if TooShort(headers, rows[0]) {
          assert ReadRows(headers, rows) == Stream([], Some(RowTooShort));
        } else {
          var rest := ReadRows(headers, rows[1..]);
          assert |ReadRows(headers, rows).records| == 1 + |rest.records|;
        }
      }
    }
  }

  /** Each yielded record is the record built from the non-empty row at the same position. */
  lemma {:induction false} ReadRowsRecords(headers: seq<string>, rows: seq<string>)
    ensures var s := ReadRows(headers, rows);
      && |s.records| <= |NonEmpty(rows)|
      && forall k :: 0 <= k < |s.records| ==>
           BuildRecord(headers, Split(NonEmpty(rows)[k], Comma)) == Some(s.records[k])
  {
    if |rows| > 0 {
      ReadRowsRecords(headers, rows[1..]);
      if rows[0] != "" && BuildRecord(headers, Split(rows[0], Comma)).Some? {
        var ne := NonEmpty(rows);
        assert ne == [rows[0]] + NonEmpty(rows[1..]);
        var rest := ReadRows(headers, rows[1..]);
        var s := ReadRows(headers, rows);
        assert s.records == [BuildRecord(headers, Split(rows[0], Comma)).value] + rest.records;
        forall k | 0 <= k < |s.records|
          ensures BuildRecord(headers, Split(ne[k], Comma)) == Some(s.records[k])
        {
          if k > 0 {
            assert s.records[k] == rest.records[k - 1];
            assert ne[k] == NonEmpty(rows[1..])[k - 1];
          }
        }
      }
    }
  }

  /** The loop fails exactly when some non-empty data line is shorter than the header. */
  lemma {:induction false} ReadRowsFailsIff(headers: seq<string>, rows: seq<string>)
    ensures ReadRows(headers, rows).failure.None? <==>
              forall i :: 0 <= i < |rows| && rows[i] != "" ==> !TooShort(headers, rows[i])
  {
    if |rows| > 0 {
      ReadRowsFailsIff(headers, rows[1..]);
      assert forall i :: 1 <= i < |rows| ==> rows[i] == rows[1..][i - 1];
      if rows[0] != "" {
        BuildRecordFails(headers, Split(rows[0], Comma));
      }
    }
  }

  /**
   * `ReadCsvStreaming`: open the object, take the first line as the header,
   * then stream the remaining lines. A read that throws ends the stream after
   * the lines it delivered, unless one of those already ended it.
   */
  function ReadCsvStreaming(source: Fetched): Stream
  {
    var lines := source.lines;
    if |lines| == 0 then
      Stream([], Some(if source.Unreadable? then ReadFailed(source.reason) else MissingHeader))
    else
      var s := ReadRows(Split(lines[0], Comma), lines[1..]);
      if source.Unreadable? && s.failure.None? then Stream(s.records, Some(ReadFailed(source.reason)))
      else s
  }

  /**
   * A read that throws partway keeps every record of the lines delivered
   * before it, exactly as if those lines were the whole object, and then
   * fails: with `RowTooShort` if one of those lines was short, and otherwise
   * with the read failure.
   */
  lemma ReadFailureKeepsEarlierRecords(lines: seq<string>, reason: string)
    ensures var s := ReadCsvStreaming(Unreadable(lines, reason));
      var whole := ReadCsvStreaming(Lines(lines));
      && s.records == whole.records
      && s.failure.Some?
      && (s.failure == Some(RowTooShort) <==> whole.failure == Some(RowTooShort))
      && (s.failure != Some(RowTooShort) ==> s.failure == Some(ReadFailed(reason)))
  {
    if |lines| > 0 {
      ReadRowsStops(Split(lines[0], Comma), lines[1..]);
    }
  }

  /**
   * One object's transform: the lines written to the scratch file (one
   * serialised record per line, newline-delimited JSON) and the captured
   * error, if any.
   */
  datatype Transformed = Transformed(staged: seq<string>, error: Option<Error>)

  /** The `try` block of `TransformCsvToJson` with its `catch`. */
  function TransformObject(source: Fetched, serialize: Record -> string): (t: Transformed)
  {
    var s := ReadCsvStreaming(source);
    Transformed(seq(|s.records|, k requires 0 <= k < |s.records| => serialize(s.records[k])), s.failure)
  }

  /**
   * An object's transform fails exactly when the read throws, the object has
   * no first line, or a non-empty data line has fewer fields than the header.
   */
  lemma TransformFailsIff(source: Fetched, serialize: Record -> string)
    ensures TransformObject(source, serialize).error.Some? <==>
              || source.Unreadable?
              || |source.lines| == 0
              || exists i :: 1 <= i < |source.lines| && source.lines[i] != "" &&
                   TooShort(Split(source.lines[0], Comma), source.lines[i])
  {
    if |source.lines| > 0 {
      var lines := source.lines;
      ReadRowsFailsIff(Split(lines[0], Comma), lines[1..]);
      assert forall i :: 1 <= i < |lines| ==> lines[i] == lines[1..][i - 1];
      assert forall i :: 0 <= i < |lines| - 1 ==> lines[1..][i] == lines[i + 1];
    }
  }

  /**
   * The scratch file holds one serialised record per non-empty data line
   * delivered, in input order: every such line unless one is short, and
   * otherwise those before the first short line (nothing after it is
   * written). Only a short line or a failed read makes an error. An object
   * with no line at all writes nothing and fails.
   */
  lemma TransformOutput(source: Fetched, serialize: Record -> string)
    ensures var t := TransformObject(source, serialize);
      && (|source.lines| == 0 ==> t.staged == [] && t.error.Some?)
      && (|source.lines| > 0 ==>
            var headers := Split(source.lines[0], Comma);
            var rows := NonEmpty(source.lines[1..]);
            && |t.staged| <= |rows|
            && (t.error.Some? ==> t.error == Some(RowTooShort) || source.Unreadable?)
            && (t.error != Some(RowTooShort) ==> |t.staged| == |rows|)
            && (t.error == Some(RowTooShort) ==> |t.staged| < |rows| && TooShort(headers, rows[|t.staged|]))
            && forall k :: 0 <= k < |t.staged| ==>
                 exists rec :: BuildRecord(headers, Split(rows[k], Comma)) == Some(rec) && t.staged[k] == serialize(rec))
  {
    if |source.lines| > 0 {
      var headers := Split(source.lines[0], Comma);
      var s := ReadRows(headers, source.lines[1..]);
      ReadRowsYieldsPrefix(headers, source.lines[1..]);
      var t := TransformObject(source, serialize);
      forall k | 0 <= k < |t.staged|
        ensures exists rec :: BuildRecord(headers, Split(NonEmpty(source.lines[1..])[k], Comma)) == Some(rec) &&
                  t.staged[k] == serialize(rec)
      {
        assert t.staged[k] == serialize(s.records[k]);
      }
    }
  }

  /** Comma-free fields, as a CSV writer without quoting would produce them. */
  predicate Plain(fields: seq<string>)
  {
    forall i :: 0 <= i < |fields| ==> Comma !in fields[i]
  }

  /**
   * A header of distinct, comma-free names and two rows of matching width,
   * with an empty line between them, give exactly two records in input order
   * and no error. (Header `a,b,c` with rows `1,2,3` and `4,5,6` is one case.)
   */
  lemma TranscodeTwoRows(headers: seq<string>, row1: seq<string>, row2: seq<string>)
    requires |headers| > 0 && |row1| == |headers| && |row2| == |headers|
    requires Plain(headers) && Plain(row1) && Plain(row2)
    requires forall i, j :: 0 <= i < j < |headers| ==> headers[i] != headers[j]
    requires Join(row1, Comma) != "" && Join(row2, Comma) != ""
    ensures ReadCsvStreaming(Lines([Join(headers, Comma), Join(row1, Comma), "", Join(row2, Comma)])) ==
              Stream([Pairs(headers, row1), Pairs(headers, row2)], None)
  {
    var line1, line2 := Join(row1, Comma), Join(row2, Comma);
    SplitJoin(headers, Comma);
    SplitJoin(row1, Comma);
    SplitJoin(row2, Comma);
    BuildRecordDistinct(headers, row1);
    BuildRecordDistinct(headers, row2);
    var lines := [Join(headers, Comma), line1, "", line2];
    assert lines[1..] == [line1] + ([""] + ([line2] + []));
    ReadRowsRow(headers, line1, [""] + ([line2] + []));
    ReadRowsRow(headers, line2, []);
  }

  /** One step of the loop over a non-empty line whose record builds. */
  lemma ReadRowsRow(headers: seq<string>, line: string, rest: seq<string>)
    requires line != "" && BuildRecord(headers, Split(line, Comma)).Some?
    ensures ReadRows(headers, [line] + rest) ==
              Stream([BuildRecord(headers, Split(line, Comma)).value] + ReadRows(headers, rest).records,
                     ReadRows(headers, rest).failure)
    ensures ReadRows(headers, [""] + rest) == ReadRows(headers, rest)
  {
    assert ([line] + rest)[1..] == rest;
    assert ([""] + rest)[1..] == rest;
  }

  /**
   * A short row ends the stream: the record before it was already yielded,
   * the one after it never is.
   */
  lemma ShortRowStops(headers: seq<string>, row1: seq<string>, short: seq<string>, row3: string)
    requires |headers| > 0 && |row1| == |headers| && 0 < |short| < |headers|
    requires Plain(headers) && Plain(row1) && Plain(short)
    requires forall i, j :: 0 <= i < j < |headers| ==> headers[i] != headers[j]
    requires Join(row1, Comma) != "" && Join(short, Comma) != ""
    ensures ReadCsvStreaming(Lines([Join(headers, Comma), Join(row1, Comma), Join(short, Comma), row3])) ==
              Stream([Pairs(headers, row1)], Some(RowTooShort))
  {
    var line1, line2 := Join(row1, Comma), Join(short, Comma);
    var lines := [Join(headers, Comma), line1, line2, row3];
    SplitJoin(headers, Comma);
    SplitJoin(row1, Comma);
    SplitJoin(short, Comma);
    BuildRecordDistinct(headers, row1);
    BuildRecordContract(headers, short);
    var rows := [line1, line2, row3];
    assert lines[1..] == rows;
    assert ReadCsvStreaming(Lines(lines)) == ReadRows(headers, rows);
    assert rows[1..] == [line2, row3];
    assert ReadRows(headers, rows[1..]) == Stream([], Some(RowTooShort));
  }
}
