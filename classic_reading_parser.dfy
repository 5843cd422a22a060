/**
 * `SejongClassicReadingParser`: the five record boxes of the classic-reading
 * status page. Each box is read row by row, in document order; a row that
 * does not have enough cells is dropped without an error.
 */
module ClassicReadingParser {
  import opened Wrappers
  import opened AuthErrors
  import opened CommonUtil
  import opened HtmlDocument
  import opened Model

  /** `getColumnValue`: the trimmed cell at `index`, or `""` for any index outside the list. */
  function GetColumnValue(cols: seq<string>, index: int): (v: string)
    ensures TrimmedText(v)
    ensures !(0 <= index < |cols|) ==> v == ""
    ensures 0 <= index < |cols| ==> v == TrimToEmpty(Some(cols[index]))
  {
    if index < 0 || index >= |cols| then "" else TrimToEmpty(Some(cols[index]))
  }

  /** `row.select("th").text()`, trimmed: the area of a certification row. */
  function Area(row: Row): string {
    TrimToEmpty(Some(Text(row.headers)))
  }

  /**
   * One row of the area-certification box. The `td` elements are counted
   * as they are, empty ones included, and the first two give the counts.
   */
  function CertificationOf(row: Row): Option<ClassicCertification> {
    var area := Area(row);
    if HasText(Some(area)) && |row.cells| >= 2 then
      Some(ClassicCertification(area, TrimToEmpty(Some(row.cells[0])), TrimToEmpty(Some(row.cells[1]))))
    else None
  }

  /** One row of the certification-exam box, read from the `td` texts that are not empty. */
  function ExamRecordOf(row: Row): Option<ClassicExamRecord> {
    var cols := EachText(row.cells);
    if |cols| >= 6 then
      Some(ClassicExamRecord(GetColumnValue(cols, 0), GetColumnValue(cols, 1), GetColumnValue(cols, 2),
                             GetColumnValue(cols, 3), GetColumnValue(cols, 4), GetColumnValue(cols, 5)))
    else None
  }

  /** One row of the subject-substitution box or of the curriculum box: both read five columns alike. */
  function SubjectRecordOf(row: Row): Option<ClassicSubjectRecord> {
    var cols := EachText(row.cells);
    if |cols| >= 5 then
      Some(ClassicSubjectRecord(GetColumnValue(cols, 0), GetColumnValue(cols, 1), GetColumnValue(cols, 2),
                                GetColumnValue(cols, 3), GetColumnValue(cols, 4)))
    else None
  }

  /** One row of the contest box. */
  function ContestRecordOf(row: Row): Option<ClassicContestRecord> {
    var cols := EachText(row.cells);
    if |cols| >= 4 then
      Some(ClassicContestRecord(GetColumnValue(cols, 0), GetColumnValue(cols, 1), GetColumnValue(cols, 2),
                                GetColumnValue(cols, 3)))
    else None
  }

  /** The list a `parseX` loop builds: the record of every row that yields one, in row order. */
  function Records<T>(rows: seq<Row>, f: Row -> Option<T>): seq<T>
    decreases |rows|
  {
    if rows == [] then []
    else
      var init := Records(rows[..|rows| - 1], f);
      match f(rows[|rows| - 1])
      case None => init
      case Some(x) => init + [x]
  }

  /** The loop shared by the five `parseX` methods: an `ArrayList` appended to under the row's guard. */
  method CollectRecords<T>(rows: seq<Row>, f: Row -> Option<T>) returns (list: seq<T>)
    ensures list == Records(rows, f)
  {
    list := [];
    for i := 0 to |rows|
      invariant list == Records(rows[..i], f)
    {
      assert rows[..i + 1][..i] == rows[..i];
      match f(rows[i]) {
        case Some(x) => list := list + [x];
        case None =>
      }
    }
    assert rows[..|rows|] == rows;
  }

  /** `parse`: a page the parser cannot read is PARSE_ERROR; an absent box is an empty list. */
  function Parse(dom: Dom): Result<ClassicReading> {
    if dom.Unparseable? then Fail(ParseError)
    else
      Ok(ClassicReading(
        Records(Select(dom, AreaCertification), CertificationOf),
        Records(Select(dom, CertificationExam), ExamRecordOf),
        Records(Select(dom, SubjectSubstitute), SubjectRecordOf),
        Records(Select(dom, Contest), ContestRecordOf),
        Records(Select(dom, Curriculum), SubjectRecordOf)))
  }

  /** `parse` as the source runs it: the five loops one after the other. */
  method ParseReading(dom: Dom) returns (r: Result<ClassicReading>)
    ensures r == Parse(dom)
  {
    if dom.Unparseable? {
      return Fail(ParseError);
    }
    var certifications := CollectRecords(Select(dom, AreaCertification), CertificationOf);
    var examRecords := CollectRecords(Select(dom, CertificationExam), ExamRecordOf);
    var subjectSubstitutions := CollectRecords(Select(dom, SubjectSubstitute), SubjectRecordOf);
    var contestRecords := CollectRecords(Select(dom, Contest), ContestRecordOf);
    var curriculumRecords := CollectRecords(Select(dom, Curriculum), SubjectRecordOf);
    return Ok(ClassicReading(certifications, examRecords, subjectSubstitutions, contestRecords, curriculumRecords));
  }

  // ---------------------------------------------------------------------
  // The lists

  /** Rows are read in document order: the list for two runs of rows is the two lists joined. */
  lemma {:induction false} RecordsAppend<T>(a: seq<Row>, b: seq<Row>, f: Row -> Option<T>)
    ensures Records(a + b, f) == Records(a, f) + Records(b, f)
    decreases |b|
  {
    if b == [] {
      assert a + b == a;
    } else {
      var b' := b[..|b| - 1];
      assert (a + b)[..|a + b| - 1] == a + b';
      assert (a + b)[|a + b| - 1] == b[|b| - 1];
      RecordsAppend(a, b', f);
    }
  }

  /**
   * A record is in the list exactly when some row yields it, the list is never
   * longer than the box, and it is as long as the box exactly when no row is dropped.
   */
  lemma {:induction false} RecordsContents<T>(rows: seq<Row>, f: Row -> Option<T>)
    ensures |Records(rows, f)| <= |rows|
    ensures forall x :: x in Records(rows, f) <==> exists i | 0 <= i < |rows| :: f(rows[i]) == Some(x)
    ensures |Records(rows, f)| == |rows| <==> forall i | 0 <= i < |rows| :: f(rows[i]).Some?
    decreases |rows|
  {
    if rows != [] {
      var init := rows[..|rows| - 1];
      RecordsContents(init, f);
      assert forall i | 0 <= i < |init| :: init[i] == rows[i];
      var last := rows[|rows| - 1];
      forall x ensures x in Records(rows, f) <==> exists i | 0 <= i < |rows| :: f(rows[i]) == Some(x) {
        if x in Records(rows, f) && x !in Records(init, f) {
          assert f(rows[|rows| - 1]) == Some(x);
        }
        if exists i | 0 <= i < |rows| :: f(rows[i]) == Some(x) {
          var i :| 0 <= i < |rows| && f(rows[i]) == Some(x);
          if i < |init| {
            assert f(init[i]) == Some(x);
          }
        }
      }
    }
  }

  /** When every row yields a record, the list is the records of the rows, one for one. */
  lemma {:induction false} RecordsAllKept<T>(rows: seq<Row>, f: Row -> Option<T>)
    requires forall i | 0 <= i < |rows| :: f(rows[i]).Some?
    ensures |Records(rows, f)| == |rows|
    ensures forall i | 0 <= i < |rows| :: Records(rows, f)[i] == f(rows[i]).value
    decreases |rows|
  {
    if rows != [] {
      var init := rows[..|rows| - 1];
      assert forall i | 0 <= i < |init| :: init[i] == rows[i];
      RecordsAllKept(init, f);
    }
  }

  /** A box whose rows are all short gives an empty list, not an error. */
  lemma {:induction false} RecordsNoneKept<T>(rows: seq<Row>, f: Row -> Option<T>)
    requires forall i | 0 <= i < |rows| :: f(rows[i]).None?
    ensures Records(rows, f) == []
    decreases |rows|
  {
    if rows != [] {
      var init := rows[..|rows| - 1];
      assert forall i | 0 <= i < |init| :: init[i] == rows[i];
      RecordsNoneKept(init, f);
    }
  }

  /**
   * Parsing fails only on a page that cannot be read, and then with
   * PARSE_ERROR; a box missing from a readable page is an empty list.
   */
  lemma ParseFailure(dom: Dom)
    ensures Parse(dom).Fail? <==> dom.Unparseable?
    ensures Parse(dom).Fail? ==> Parse(dom).code == ParseError
    ensures dom.Document? && AreaCertification !in dom.sections ==> Parse(dom).value.certifications == []
    ensures dom.Document? && CertificationExam !in dom.sections ==> Parse(dom).value.examRecords == []
    ensures dom.Document? && SubjectSubstitute !in dom.sections ==> Parse(dom).value.subjectSubstitutions == []
    ensures dom.Document? && Contest !in dom.sections ==> Parse(dom).value.contestRecords == []
    ensures dom.Document? && Curriculum !in dom.sections ==> Parse(dom).value.curriculumRecords == []
  {
  }

  /** No list is longer than its box. */
  lemma ParseBounds(dom: Dom)
    requires dom.Document?
    ensures var reading := Parse(dom).value;
      && |reading.certifications| <= |Select(dom, AreaCertification)|
      && |reading.examRecords| <= |Select(dom, CertificationExam)|
      && |reading.subjectSubstitutions| <= |Select(dom, SubjectSubstitute)|
      && |reading.contestRecords| <= |Select(dom, Contest)|
      && |reading.curriculumRecords| <= |Select(dom, Curriculum)|
  {
    RecordsContents(Select(dom, AreaCertification), CertificationOf);
    RecordsContents(Select(dom, CertificationExam), ExamRecordOf);
    RecordsContents(Select(dom, SubjectSubstitute), SubjectRecordOf);
    RecordsContents(Select(dom, Contest), ContestRecordOf);
    RecordsContents(Select(dom, Curriculum), SubjectRecordOf);
  }

  // ---------------------------------------------------------------------
  // The rows

  /**
   * A certification row is kept exactly when its trimmed header has text and
   * it has at least two `td` cells; the area is that header and the counts
   * are the first two cells, trimmed.
   */
  lemma CertificationKept(row: Row)
    ensures CertificationOf(row).Some? <==> HasText(Some(Area(row))) && |row.cells| >= 2
    ensures CertificationOf(row).Some? ==>
      var c := CertificationOf(row).value;
      && c.area == Area(row) && TrimmedText(c.area) && c.area != ""
      && c.requiredCount == TrimToEmpty(Some(row.cells[0]))
      && c.certifiedCount == TrimToEmpty(Some(row.cells[1]))
  {
  }

  /** An exam row is kept exactly when it has six non-empty cells; they fill the six fields in order, trimmed. */
  lemma ExamRecordKept(row: Row)
    ensures ExamRecordOf(row).Some? <==> |EachText(row.cells)| >= 6
    ensures ExamRecordOf(row).Some? ==>
      var r, cols := ExamRecordOf(row).value, EachText(row.cells);
      && r.semester == TrimToEmpty(Some(cols[0])) && r.area == TrimToEmpty(Some(cols[1]))
      && r.bookTitle == TrimToEmpty(Some(cols[2])) && r.examDate == TrimToEmpty(Some(cols[3]))
      && r.score == TrimToEmpty(Some(cols[4])) && r.passStatus == TrimToEmpty(Some(cols[5]))
  {
  }

  /** A subject or curriculum row is kept exactly when it has five non-empty cells; they fill the five fields in order, trimmed. */
  lemma SubjectRecordKept(row: Row)
    ensures SubjectRecordOf(row).Some? <==> |EachText(row.cells)| >= 5
    ensures SubjectRecordOf(row).Some? ==>
      var r, cols := SubjectRecordOf(row).value, EachText(row.cells);
      && r.semester == TrimToEmpty(Some(cols[0])) && r.subjectName == TrimToEmpty(Some(cols[1]))
      && r.area == TrimToEmpty(Some(cols[2])) && r.bookTitle == TrimToEmpty(Some(cols[3]))
      && r.completion == TrimToEmpty(Some(cols[4]))
  {
  }

  /** A contest row is kept exactly when it has four non-empty cells; they fill the four fields in order, trimmed. */
  lemma ContestRecordKept(row: Row)
    ensures ContestRecordOf(row).Some? <==> |EachText(row.cells)| >= 4
    ensures ContestRecordOf(row).Some? ==>
      var r, cols := ContestRecordOf(row).value, EachText(row.cells);
      && r.semester == TrimToEmpty(Some(cols[0])) && r.contestName == TrimToEmpty(Some(cols[1]))
      && r.area == TrimToEmpty(Some(cols[2])) && r.bookTitle == TrimToEmpty(Some(cols[3]))
  {
  }

  /** Cells after the ones a record reads change nothing. */
  lemma ExtraCellsIgnored(row: Row, extra: seq<string>)
    ensures |EachText(row.cells)| >= 6 ==> ExamRecordOf(Row(row.headers, row.cells + extra)) == ExamRecordOf(row)
    ensures |EachText(row.cells)| >= 5 ==> SubjectRecordOf(Row(row.headers, row.cells + extra)) == SubjectRecordOf(row)
    ensures |EachText(row.cells)| >= 4 ==> ContestRecordOf(Row(row.headers, row.cells + extra)) == ContestRecordOf(row)
    ensures |row.cells| >= 2 ==> CertificationOf(Row(row.headers, row.cells + extra)) == CertificationOf(row)
  {
    if |EachText(row.cells)| >= 6 { ExamExtraCells(row, extra); }
    if |EachText(row.cells)| >= 5 { SubjectExtraCells(row, extra); }
    if |EachText(row.cells)| >= 4 { ContestExtraCells(row, extra); }
    if |row.cells| >= 2 {
      assert (row.cells + extra)[0] == row.cells[0] && (row.cells + extra)[1] == row.cells[1];
    }
  }

  /** The exam-record part of `ExtraCellsIgnored`; the two below do the same for their boxes. */
  lemma ExamExtraCells(row: Row, extra: seq<string>)
    requires |EachText(row.cells)| >= 6
    ensures ExamRecordOf(Row(row.headers, row.cells + extra)) == ExamRecordOf(row)
  {
    EachTextAppend(row.cells, extra);
    ColumnsOfPrefix(EachText(row.cells), EachText(extra));
  }

  lemma SubjectExtraCells(row: Row, extra: seq<string>)
    requires |EachText(row.cells)| >= 5
    ensures SubjectRecordOf(Row(row.headers, row.cells + extra)) == SubjectRecordOf(row)
  {
    EachTextAppend(row.cells, extra);
    ColumnsOfPrefix(EachText(row.cells), EachText(extra));
  }

  lemma ContestExtraCells(row: Row, extra: seq<string>)
    requires |EachText(row.cells)| >= 4
    ensures ContestRecordOf(Row(row.headers, row.cells + extra)) == ContestRecordOf(row)
  {
    EachTextAppend(row.cells, extra);
    ColumnsOfPrefix(EachText(row.cells), EachText(extra));
  }

  /** Reading a column that exists gives the same value however many columns follow. */
  lemma ColumnsOfPrefix(cols: seq<string>, more: seq<string>)
    ensures forall i | 0 <= i < |cols| :: GetColumnValue(cols + more, i) == GetColumnValue(cols, i)
  {
    forall i | 0 <= i < |cols| ensures GetColumnValue(cols + more, i) == GetColumnValue(cols, i) {
      assert (cols + more)[i] == cols[i];
    }
  }

  /**
   * An empty cell is skipped before the columns are counted, so the cells
   * after it move one column to the left: a contest row whose second cell is
   * empty and which has four other cells takes its contest name from the third.
   */
  lemma EmptyCellShiftsColumns(semester: string, contest: string, area: string, book: string)
    requires semester != "" && contest != "" && area != "" && book != ""
    ensures var row := Row([], [semester, "", contest, area, book]);
      ContestRecordOf(row) == Some(ClassicContestRecord(
        TrimToEmpty(Some(semester)), TrimToEmpty(Some(contest)), TrimToEmpty(Some(area)), TrimToEmpty(Some(book))))
  {
    var cells := [semester, "", contest, area, book];
    ShiftedColumns(cells);
    var cols := EachText(cells);
    assert cols[0] == semester && cols[1] == contest && cols[2] == area && cols[3] == book;
  }

  /** The column list of a row whose second cell alone is empty: that cell is gone. */
  lemma ShiftedColumns(cells: seq<string>)
    requires |cells| >= 2 && cells[0] != "" && cells[1] == ""
    requires forall i | 2 <= i < |cells| :: cells[i] != ""
    ensures EachText(cells) == [cells[0]] + cells[2..]
  {
    assert cells == [cells[0]] + [""] + cells[2..];
    EachTextSkipsEmpty([cells[0]], cells[2..]);
    EachTextKeepsNonEmpty([cells[0]]);
    EachTextKeepsNonEmpty(cells[2..]);
  }
}
