/**
 * `SejongStudentInfoParser`: the user-info table of the classic-reading
 * status page becomes a label-to-value map, from which five fields are read.
 */
module StudentInfoParser {
  import opened Wrappers
  import opened AuthErrors
  import opened CommonUtil
  import opened HtmlDocument
  import opened Model

  const MAJOR_LABEL := "학과명"
  const STUDENT_ID_LABEL := "학번"
  const NAME_LABEL := "이름"
  const GRADE_LABEL := "학년"
  const STATUS_LABEL := "사용자 상태"

  /** The row's label: its `th` text, trimmed. */
  function Label(row: Row): (text: string)
    ensures TrimmedText(text)
  {
    TrimToEmpty(Some(Text(row.headers)))
  }

  /** The row's value: its `td` text, trimmed. */
  function Value(row: Row): (text: string)
    ensures TrimmedText(text)
  {
    TrimToEmpty(Some(Text(row.cells)))
  }

  /** A row as `extractTableData` reads it: its label and its value. */
  function EntryOf(row: Row): (string, string) {
    (Label(row), Value(row))
  }

  /** `xs` with `f` applied to each element, in order. */
  function MapSeq<A, B>(xs: seq<A>, f: A -> B): (ys: seq<B>)
    ensures |ys| == |xs|
    ensures forall i | 0 <= i < |xs| :: ys[i] == f(xs[i])
  {
    seq(|xs|, i requires 0 <= i < |xs| => f(xs[i]))
  }

  lemma MapSnoc<A, B>(xs: seq<A>, f: A -> B, i: nat)
    requires i < |xs|
    ensures MapSeq(xs[..i + 1], f) == MapSeq(xs[..i], f) + [f(xs[i])]
  {
    assert xs[..i + 1] == xs[..i] + [xs[i]];
  }

  lemma MapAppend<A, B>(a: seq<A>, b: seq<A>, f: A -> B)
    ensures MapSeq(a + b, f) == MapSeq(a, f) + MapSeq(b, f)
  {
  }

  lemma MapPush<A, B>(xs: seq<A>, x: A, f: A -> B)
    ensures MapSeq(xs + [x], f) == MapSeq(xs, f) + [f(x)]
  {
  }

  lemma MapInsert<A, B>(a: seq<A>, x: A, b: seq<A>, f: A -> B)
    ensures MapSeq(a + [x] + b, f) == MapSeq(a, f) + [f(x)] + MapSeq(b, f)
  {
  }

  /** The selected rows, each read as an entry. */
  function Entries(rows: seq<Row>): (es: seq<(string, string)>)
    ensures |es| == |rows|
    ensures forall i | 0 <= i < |rows| :: es[i] == EntryOf(rows[i])
  {
    MapSeq(rows, EntryOf)
  }

  /** The map built from the entries visited so far: a non-blank label is (re)bound to its value. */
  function Build(es: seq<(string, string)>): map<string, string>
    decreases |es|
  {
    if es == [] then map[]
    else
      var data := Build(es[..|es| - 1]);
      var (key, value) := es[|es| - 1];
      if HasText(Some(key)) then data[key := value] else data
  }

  /** The map `extractTableData` returns. */
  function TableData(rows: seq<Row>): map<string, string> {
    Build(Entries(rows))
  }

  /** `extractTableData`: one pass over the rows, in document order. */
  method ExtractTableData(rows: seq<Row>) returns (data: map<string, string>)
    ensures data == TableData(rows)
  {
    data := map[];
    for i := 0 to |rows|
      invariant data == Build(Entries(rows[..i]))
    {
      EntriesSnoc(rows, i);
      var key := Label(rows[i]);
      var value := Value(rows[i]);
      BuildSnoc(Entries(rows[..i]), (key, value));
      if HasText(Some(key)) {
        data := data[key := value];
      }
    }
    assert rows[..|rows|] == rows;
  }

  lemma EntriesSnoc(rows: seq<Row>, i: nat)
    requires i < |rows|
    ensures Entries(rows[..i + 1]) == Entries(rows[..i]) + [EntryOf(rows[i])]
  {
    MapSnoc(rows, EntryOf, i);
  }

  lemma BuildSnoc(es: seq<(string, string)>, e: (string, string))
    ensures Build(es + [e]) == if HasText(Some(e.0)) then Build(es)[e.0 := e.1] else Build(es)
  {
    assert (es + [e])[..|es|] == es;
  }

  /** Reference reading of a label: the value of the last entry carrying it, if any. */
  function LastValue(es: seq<(string, string)>, key: string): Option<string>
    decreases |es|
  {
    if es == [] then None
    else if es[|es| - 1].0 == key then Some(es[|es| - 1].1)
    else LastValue(es[..|es| - 1], key)
  }

  /**
   * The map holds exactly the non-blank labels, each with the value of the
   * last entry that carries it; a blank label is never stored.
   */
  lemma {:induction false} BuildLookup(es: seq<(string, string)>, key: string)
    ensures HasText(Some(key)) ==>
              (key in Build(es) <==> LastValue(es, key).Some?)
              && (key in Build(es) ==> Build(es)[key] == LastValue(es, key).value)
    ensures !HasText(Some(key)) ==> key !in Build(es)
    decreases |es|
  {
    if es != [] {
      BuildLookup(es[..|es| - 1], key);
    }
  }

  /** Every stored label is non-blank, and each stored label and value is one some entry carried. */
  lemma {:induction false} BuildFromEntries(es: seq<(string, string)>)
    ensures forall k | k in Build(es) :: HasText(Some(k)) && (k, Build(es)[k]) in es
    decreases |es|
  {
    if es != [] {
      var init, last := es[..|es| - 1], es[|es| - 1];
      BuildFromEntries(init);
      assert es == init + [last];
      forall k | k in Build(es) ensures HasText(Some(k)) && (k, Build(es)[k]) in es {
        if k == last.0 && HasText(Some(last.0)) {
          assert Build(es)[k] == last.1;
        } else {
          assert k in Build(init) && Build(es)[k] == Build(init)[k];
        }
      }
    }
  }

  /** Labels and values are stored trimmed. */
  lemma TableDataTrimmed(rows: seq<Row>)
    ensures forall k | k in TableData(rows) :: HasText(Some(k)) && TrimmedText(k) && TrimmedText(TableData(rows)[k])
  {
    var es := Entries(rows);
    BuildFromEntries(es);
    forall k | k in Build(es) ensures TrimmedText(k) && TrimmedText(Build(es)[k]) {
      var i :| 0 <= i < |es| && es[i] == (k, Build(es)[k]);
      assert es[i] == EntryOf(rows[i]);
    }
  }

  /** The map is empty exactly when no entry has a non-blank label. */
  lemma {:induction false} BuildEmpty(es: seq<(string, string)>)
    ensures |Build(es)| == 0 <==> forall i | 0 <= i < |es| :: !HasText(Some(es[i].0))
    decreases |es|
  {
    if es != [] {
      var init := es[..|es| - 1];
      BuildEmpty(init);
      assert forall i | 0 <= i < |init| :: init[i] == es[i];
      if HasText(Some(es[|es| - 1].0)) {
        assert es[|es| - 1].0 in Build(es);
      }
    }
  }

  /** `defaultIfBlank(data.get(key), "")`. */
  function Field(data: map<string, string>, key: string): string {
    var found: JString := if key in data then Some(data[key]) else None;
    DefaultIfBlank(found, Some("")).value
  }

  /** `parse` once each selected row is read as an entry. */
  function ParseEntries(es: seq<(string, string)>): Result<StudentInfo> {
    var data := Build(es);
    if |data| == 0 then Fail(ParseError)
    else
      Ok(StudentInfo(
        Field(data, MAJOR_LABEL),
        Field(data, STUDENT_ID_LABEL),
        Field(data, NAME_LABEL),
        Field(data, GRADE_LABEL),
        Field(data, STATUS_LABEL)))
  }

  /** `parse`: a page the parser cannot read is PARSE_ERROR. */
  function Parse(dom: Dom): Result<StudentInfo> {
    if dom.Unparseable? then Fail(ParseError) else ParseEntries(Entries(Select(dom, UserInfo)))
  }

  /** Reference reading of one field: the last labelled entry's value, `""` when absent or blank. */
  function FieldValue(es: seq<(string, string)>, key: string): string {
    match LastValue(es, key)
    case None => ""
    case Some(v) => if HasText(Some(v)) then v else ""
  }

  lemma FieldOfBuild(es: seq<(string, string)>, key: string)
    requires HasText(Some(key))
    ensures Field(Build(es), key) == FieldValue(es, key)
  {
    BuildLookup(es, key);
  }

  /**
   * Parsing fails, always with PARSE_ERROR, exactly when the page cannot be
   * read or no row of the user-info table has a non-blank label; an absent
   * table is one with no rows.
   */
  lemma ParseFailure(dom: Dom)
    ensures Parse(dom).Fail? ==> Parse(dom).code == ParseError
    ensures Parse(dom).Fail? <==>
              dom.Unparseable? ||
              forall i | 0 <= i < |Select(dom, UserInfo)| :: !HasText(Some(Label(Select(dom, UserInfo)[i])))
  {
    if dom.Document? {
      var rows := Select(dom, UserInfo);
      BuildEmpty(Entries(rows));
    }
  }

  /**
   * Each field is the value of the last row with its exact label, or `""`
   * when no row has that label or its value is blank.
   */
  lemma ParseFields(es: seq<(string, string)>)
    requires ParseEntries(es).Ok?
    ensures var info := ParseEntries(es).value;
      && info.major == FieldValue(es, MAJOR_LABEL)
      && info.studentId == FieldValue(es, STUDENT_ID_LABEL)
      && info.name == FieldValue(es, NAME_LABEL)
      && info.grade == FieldValue(es, GRADE_LABEL)
      && info.status == FieldValue(es, STATUS_LABEL)
  {
    assert !IsTrimmed(MAJOR_LABEL[0]) && !IsTrimmed(STUDENT_ID_LABEL[0]) && !IsTrimmed(NAME_LABEL[0]);
    assert !IsTrimmed(GRADE_LABEL[0]) && !IsTrimmed(STATUS_LABEL[0]);
    FieldOfBuild(es, MAJOR_LABEL);
    FieldOfBuild(es, STUDENT_ID_LABEL);
    FieldOfBuild(es, NAME_LABEL);
    FieldOfBuild(es, GRADE_LABEL);
    FieldOfBuild(es, STATUS_LABEL);
  }

  /** Every field of a parsed page is trimmed. */
  lemma ParsedFieldsTrimmed(dom: Dom)
    requires Parse(dom).Ok?
    ensures var info := Parse(dom).value;
      && TrimmedText(info.major) && TrimmedText(info.studentId) && TrimmedText(info.name)
      && TrimmedText(info.grade) && TrimmedText(info.status)
  {
    TableDataTrimmed(Select(dom, UserInfo));
  }

  lemma {:induction false} LastValueSkips(a: seq<(string, string)>, e: (string, string), b: seq<(string, string)>, key: string)
    requires e.0 != key
    ensures LastValue(a + [e] + b, key) == LastValue(a + b, key)
    decreases |b|
  {
    if b == [] {
      assert (a + [e] + b)[..|a + [e] + b| - 1] == a;
      assert a + b == a;
    } else {
      var b' := b[..|b| - 1];
      assert (a + [e] + b)[..|a + [e] + b| - 1] == a + [e] + b';
      assert (a + b)[..|a + b| - 1] == a + b';
      LastValueSkips(a, e, b', key);
    }
  }

  lemma {:induction false} LastValueKept(a: seq<(string, string)>, e: (string, string), b: seq<(string, string)>, key: string)
    requires LastValue(a + b, key).Some?
    ensures LastValue(a + [e] + b, key).Some?
    decreases |b|
  {
    if b == [] {
      assert (a + [e] + b)[..|a + [e] + b| - 1] == a;
      assert a + b == a;
    } else {
      var b' := b[..|b| - 1];
      assert (a + [e] + b)[..|a + [e] + b| - 1] == a + [e] + b';
      assert (a + b)[..|a + b| - 1] == a + b';
      if b[|b| - 1].0 != key {
        LastValueKept(a, e, b', key);
      }
    }
  }

  lemma EntriesAppend(a: seq<Row>, b: seq<Row>)
    ensures Entries(a + b) == Entries(a) + Entries(b)
  {
    MapAppend(a, b, EntryOf);
  }

  /** An extra entry never empties the map. */
  lemma BuildNonEmptyKept(ea: seq<(string, string)>, e: (string, string), eb: seq<(string, string)>)
    requires |Build(ea + eb)| != 0
    ensures |Build(ea + [e] + eb)| != 0
  {
    var k :| k in Build(ea + eb);
    BuildFromEntries(ea + eb);
    BuildLookup(ea + eb, k);
    LastValueKept(ea, e, eb, k);
    BuildLookup(ea + [e] + eb, k);
  }

  lemma OtherEntryIgnored(ea: seq<(string, string)>, e: (string, string), eb: seq<(string, string)>)
    requires e.0 !in {MAJOR_LABEL, STUDENT_ID_LABEL, NAME_LABEL, GRADE_LABEL, STATUS_LABEL}
    requires ParseEntries(ea + eb).Ok?
    ensures ParseEntries(ea + [e] + eb) == ParseEntries(ea + eb)
  {
    BuildNonEmptyKept(ea, e, eb);
    LastValueSkips(ea, e, eb, MAJOR_LABEL);
    LastValueSkips(ea, e, eb, STUDENT_ID_LABEL);
    LastValueSkips(ea, e, eb, NAME_LABEL);
    LastValueSkips(ea, e, eb, GRADE_LABEL);
    LastValueSkips(ea, e, eb, STATUS_LABEL);
    ParseFields(ea + eb);
    ParseFields(ea + [e] + eb);
  }

  /** A row whose label is none of the five field labels changes nothing, wherever it appears. */
  lemma OtherLabelsIgnored(a: seq<Row>, row: Row, b: seq<Row>)
    requires Label(row) !in {MAJOR_LABEL, STUDENT_ID_LABEL, NAME_LABEL, GRADE_LABEL, STATUS_LABEL}
    requires ParseEntries(Entries(a + b)).Ok?
    ensures ParseEntries(Entries(a + [row] + b)) == ParseEntries(Entries(a + b))
  {
    EntriesAppend(a, b);
    MapInsert(a, row, b, EntryOf);
    OtherEntryIgnored(Entries(a), EntryOf(row), Entries(b));
  }

  /**
   * When two rows carry the same non-blank label, the later one's value is
   * the one stored, whatever lies between them, as long as no row after the
   * later one carries that label again.
   */
  lemma LaterRowWins(rows: seq<Row>, first: Row, mid: seq<Row>, second: Row, tail: seq<Row>)
    requires Label(first) == Label(second) && HasText(Some(Label(second)))
    requires forall i | 0 <= i < |tail| :: Label(tail[i]) != Label(second)
    ensures Label(second) in TableData(rows + [first] + mid + [second] + tail)
    ensures TableData(rows + [first] + mid + [second] + tail)[Label(second)] == Value(second)
  {
    var before := rows + [first] + mid;
    MapInsert(before, second, tail, EntryOf);
    var et := Entries(tail);
    assert forall i | 0 <= i < |et| :: et[i].0 != Label(second);
    LastValueAfter(Entries(before), EntryOf(second), et, Label(second));
    BuildLookup(Entries(before + [second] + tail), Label(second));
  }

  /** The last entry carrying a label gives its value, whatever follows under other labels. */
  lemma {:induction false} LastValueAfter(a: seq<(string, string)>, e: (string, string), b: seq<(string, string)>, key: string)
    requires e.0 == key
    requires forall i | 0 <= i < |b| :: b[i].0 != key
    ensures LastValue(a + [e] + b, key) == Some(e.1)
    decreases |b|
  {
    var es := a + [e] + b;
    if b == [] {
      assert es[|es| - 1] == e;
    } else {
      assert es[|es| - 1] == b[|b| - 1];
      assert es[..|es| - 1] == a + [e] + b[..|b| - 1];
      LastValueAfter(a, e, b[..|b| - 1], key);
    }
  }
}
