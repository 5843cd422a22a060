/**
 * The part of a Jsoup document the two HTML parsers look at. Each parser
 * selects the body rows of the board table under one `h4` heading; a row is
 * the texts of its `th` cells and the texts of its `td` cells, each already
 * as Jsoup's `Element.text()` gives it.
 */
module HtmlDocument {

  /** The boxes of the classic-reading status page, by their heading. */
  datatype Section =
    | UserInfo           // 사용자 정보
    | AreaCertification  // 영역별 인증현황
    | CertificationExam  // 인증 시험 현황
    | SubjectSubstitute  // 과목 대체 인증 현황
    | Contest            // 대회 인증 현황
    | Curriculum         // 교과연계 인증 현황
  {
    /** The heading text the section's selector looks for. */
    function Heading(): string {
      match this
      case UserInfo => "사용자 정보"
      case AreaCertification => "영역별 인증현황"
      case CertificationExam => "인증 시험 현황"
      case SubjectSubstitute => "과목 대체 인증 현황"
      case Contest => "대회 인증 현황"
      case Curriculum => "교과연계 인증 현황"
    }
  }

  datatype Row = Row(headers: seq<string>, cells: seq<string>)

  /**
   * A parsed page, or `Unparseable` for a page the parser throws on. The
   * rows of a section are those of every box with that heading, in document order.
   */
  datatype Dom = Unparseable | Document(sections: map<Section, seq<Row>>)

  /** `doc.select(selector)` for a section's rows: nothing when the box is absent. */
  function Select(dom: Dom, s: Section): seq<Row>
    requires dom.Document?
  {
    if s in dom.sections then dom.sections[s] else []
  }

  /**
   * `Elements.text()`: the element texts in order, a space put before each
   * one once something has been written.
   */
  function Text(texts: seq<string>): (r: string)
    ensures texts == [] ==> r == ""
    ensures |texts| == 1 ==> r == texts[0]
  {
    if texts == [] then ""
    else
      var init := Text(texts[..|texts| - 1]);
      (if init == "" then "" else init + " ") + texts[|texts| - 1]
  }

  /** `Elements.eachText()`: the texts of the elements that have any, in order. */
  function EachText(texts: seq<string>): (r: seq<string>)
    ensures |r| <= |texts|
    ensures forall i | 0 <= i < |r| :: r[i] != "" && r[i] in texts
  {
    if texts == [] then []
    else (if texts[0] == "" then [] else [texts[0]]) + EachText(texts[1..])
  }

  lemma {:induction false} EachTextAppend(a: seq<string>, b: seq<string>)
    ensures EachText(a + b) == EachText(a) + EachText(b)
  {
    if a == [] {
      assert a + b == b;
    } else {
      assert (a + b)[1..] == a[1..] + b;
      EachTextAppend(a[1..], b);
    }
  }

  /** An empty cell contributes nothing: the texts on either side of it close up. */
  lemma EachTextSkipsEmpty(a: seq<string>, b: seq<string>)
    ensures EachText(a + [""] + b) == EachText(a) + EachText(b)
  {
    var c := [""] + b;
    assert c[1..] == b;
    assert a + [""] + b == a + c;
    EachTextAppend(a, c);
  }

  /** Cells with text keep their order; an empty cell is dropped and the later ones move up. */
  lemma {:induction false} EachTextKeepsNonEmpty(texts: seq<string>)
    requires forall i | 0 <= i < |texts| :: texts[i] != ""
    ensures EachText(texts) == texts
  {
    if texts != [] {
      EachTextKeepsNonEmpty(texts[1..]);
    }
  }
}
