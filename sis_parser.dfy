/**
 * `SejongSisParser`: fields of the `initUserInfo.do` JSON answer, read from
 * the namespaces `dm_UserInfo`, `dm_UserInfoGam` and `dm_UserInfoSch` with
 * ordered fallbacks, and the phone number joined from three segments.
 */
module SisParser {
  import opened Wrappers
  import opened AuthErrors
  import opened CommonUtil
  import opened Model

  /**
   * A Jackson node. A scalar carries the text `asText` renders for it (a
   * string's own characters, a number's or a boolean's literal).
   */
  datatype JsonValue =
    | JsonNull
    | JsonScalar(text: string)
    | JsonArray(items: seq<JsonValue>)
    | JsonObject(fields: map<string, JsonValue>)

  /**
   * What `ObjectMapper.readTree` gives: `Unparseable` when it throws, else
   * the root node, `None` being Jackson's missing node (read from empty content).
   */
  datatype JsonTree = Unparseable | Parsed(root: Option<JsonValue>)

  const DM_USER_INFO := "dm_UserInfo"
  const DM_USER_INFO_GAM := "dm_UserInfoGam"
  const DM_USER_INFO_SCH := "dm_UserInfoSch"

  const INTG_USR_NO := "INTG_USR_NO"
  const INTG_USR_NM := "INTG_USR_NM"
  const INTG_ENG_NM := "INTG_ENG_NM"
  const DEPT_NM := "DEPT_NM"
  const USER_EMAIL := "USER_EMAIL"
  const NM_ENG := "NM_ENG"
  const USER_PHONE_NO1 := "USER_PHONE_NO1"
  const USER_PHONE_NO2 := "USER_PHONE_NO2"
  const USER_PHONE_NO3 := "USER_PHONE_NO3"

  /** `node.path(name)`: the member of an object node, missing (`None`) for anything else. */
  function Path(node: Option<JsonValue>, name: string): (child: Option<JsonValue>)
    ensures child.Some? <==> node.Some? && node.value.JsonObject? && name in node.value.fields
  {
    if node.Some? && node.value.JsonObject? && name in node.value.fields then Some(node.value.fields[name]) else None
  }

  /** `root.path(namespace)` on a parsed tree. */
  function Namespace(tree: JsonTree, name: string): Option<JsonValue>
    requires tree.Parsed?
  {
    Path(tree.root, name)
  }

  /**
   * `getTextValue`: a missing node, a missing field or a JSON null reads as
   * `""`; a scalar reads as its text, and a container as `""`.
   */
  function GetTextValue(node: Option<JsonValue>, fieldName: string): (v: string)
    ensures Path(node, fieldName).Some? && Path(node, fieldName).value.JsonScalar? ==>
              v == Path(node, fieldName).value.text
    ensures !(Path(node, fieldName).Some? && Path(node, fieldName).value.JsonScalar?) ==> v == ""
  {
    if node.None? then ""
    else
      match Path(node, fieldName)
      case None => ""
      case Some(JsonNull) => ""
      case Some(JsonScalar(text)) => text
      case Some(_) => ""
  }

  /** `defaultIfBlank(s, "")`. */
  function OrEmpty(s: string): (r: string)
    ensures HasText(Some(s)) ==> r == s
    ensures !HasText(Some(s)) ==> r == ""
  {
    DefaultIfBlank(Some(s), Some("")).value
  }

  /** The primary value unless it is blank, then the fallback. */
  function Fallback(primary: string, secondary: string): string {
    if IsBlank(Some(primary)) then secondary else primary
  }

  /** `parseStudentInfo`: PARSE_ERROR without `dm_UserInfo`; grade and status are never provided. */
  function ParseStudentInfo(tree: JsonTree): Result<StudentInfo> {
    if tree.Unparseable? then Fail(ParseError)
    else
      var userInfo := Namespace(tree, DM_USER_INFO);
      if userInfo.None? then Fail(ParseError)
      else
        var gam := Namespace(tree, DM_USER_INFO_GAM);
        var sch := Namespace(tree, DM_USER_INFO_SCH);
        var major := Fallback(GetTextValue(gam, DEPT_NM), GetTextValue(sch, DEPT_NM));
        Ok(StudentInfo(
          OrEmpty(major),
          OrEmpty(GetTextValue(userInfo, INTG_USR_NO)),
          OrEmpty(GetTextValue(userInfo, INTG_USR_NM)),
          "",
          ""))
  }

  /** `parseEmail`. */
  function ParseEmail(tree: JsonTree): Result<string> {
    if tree.Unparseable? then Fail(ParseError)
    else Ok(OrEmpty(GetTextValue(Namespace(tree, DM_USER_INFO_GAM), USER_EMAIL)))
  }

  /** `parseEnglishName`: `dm_UserInfo.INTG_ENG_NM`, else `dm_UserInfoSch.NM_ENG`. */
  function ParseEnglishName(tree: JsonTree): Result<string> {
    if tree.Unparseable? then Fail(ParseError)
    else
      var englishName := Fallback(GetTextValue(Namespace(tree, DM_USER_INFO), INTG_ENG_NM),
                                  GetTextValue(Namespace(tree, DM_USER_INFO_SCH), NM_ENG));
      Ok(OrEmpty(englishName))
  }

  // ---------------------------------------------------------------------
  // The phone number

  /** The segments that have text, in order. */
  function Segments(no1: string, no2: string, no3: string): (parts: seq<string>)
    ensures forall i | 0 <= i < |parts| :: HasText(Some(parts[i])) && parts[i] != ""
  {
    (if HasText(Some(no1)) then [no1] else [])
      + (if HasText(Some(no2)) then [no2] else [])
      + (if HasText(Some(no3)) then [no3] else [])
  }

  /** The parts with a single `-` between neighbours. */
  function JoinDash(parts: seq<string>): string
    decreases |parts|
  {
    if parts == [] then ""
    else if |parts| == 1 then parts[0]
    else JoinDash(parts[..|parts| - 1]) + "-" + parts[|parts| - 1]
  }

  /** The phone number `buildPhoneNumber` assembles from `dm_UserInfoGam`. */
  function PhoneNumberOf(gam: Option<JsonValue>): string {
    if gam.None? then ""
    else JoinDash(Segments(GetTextValue(gam, USER_PHONE_NO1), GetTextValue(gam, USER_PHONE_NO2),
                           GetTextValue(gam, USER_PHONE_NO3)))
  }

  lemma JoinDashSnoc(parts: seq<string>, p: string)
    ensures JoinDash(parts + [p]) == if parts == [] then p else JoinDash(parts) + "-" + p
  {
    assert (parts + [p])[..|parts|] == parts;
  }

  lemma {:induction false} JoinDashEmpty(parts: seq<string>)
    requires forall i | 0 <= i < |parts| :: parts[i] != ""
    ensures JoinDash(parts) == "" <==> parts == []
    decreases |parts|
  {
    if |parts| > 1 {
      JoinDashEmpty(parts[..|parts| - 1]);
    }
  }

  /** `buildPhoneNumber`: appends the segments with text to a buffer, a `-` before each but the first. */
  method BuildPhoneNumber(gam: Option<JsonValue>) returns (phone: string)
    ensures phone == PhoneNumberOf(gam)
  {
    if gam.None? {
      return "";
    }
    var no1 := GetTextValue(gam, USER_PHONE_NO1);
    var no2 := GetTextValue(gam, USER_PHONE_NO2);
    var no3 := GetTextValue(gam, USER_PHONE_NO3);
    if IsBlank(Some(no1)) && IsBlank(Some(no2)) && IsBlank(Some(no3)) {
      return "";
    }
    ghost var p1: seq<string> := if HasText(Some(no1)) then [no1] else [];
    ghost var p2: seq<string> := if HasText(Some(no2)) then [no2] else [];
    ghost var p3: seq<string> := if HasText(Some(no3)) then [no3] else [];
    var sb := "";
    if HasText(Some(no1)) {
      sb := sb + no1;
    }
    assert sb == JoinDash(p1);
    JoinDashEmpty(p1);
    if HasText(Some(no2)) {
      if |sb| > 0 {
        sb := sb + "-";
      }
      sb := sb + no2;
      JoinDashSnoc(p1, no2);
    }
    assert p1 + p2 == if HasText(Some(no2)) then p1 + [no2] else p1;
    assert sb == JoinDash(p1 + p2);
    JoinDashEmpty(p1 + p2);
    if HasText(Some(no3)) {
      if |sb| > 0 {
        sb := sb + "-";
      }
      sb := sb + no3;
      JoinDashSnoc(p1 + p2, no3);
    }
    assert p1 + p2 + p3 == if HasText(Some(no3)) then p1 + p2 + [no3] else p1 + p2;
    return sb;
  }

  /** `parsePhoneNumber`. */
  function ParsePhoneNumber(tree: JsonTree): Result<string> {
    if tree.Unparseable? then Fail(ParseError)
    else Ok(OrEmpty(PhoneNumberOf(Namespace(tree, DM_USER_INFO_GAM))))
  }

  /**
   * `parseContactInfo`, which the engine calls but `SejongSisParser` does not
   * define: taken here as email, phone number and English name read together.
   */
  function ParseContactInfo(tree: JsonTree): Result<ContactInfo> {
    var email :- ParseEmail(tree);
    var phoneNumber :- ParsePhoneNumber(tree);
    var englishName :- ParseEnglishName(tree);
    Ok(ContactInfo(email, phoneNumber, englishName))
  }

  // ---------------------------------------------------------------------
  // Properties

  /** A well-formed phone number: no `-` at either end and never two in a row. */
  predicate WellSeparated(s: string) {
    s == [] || (s[0] != '-' && s[|s| - 1] != '-' && forall i | 0 <= i < |s| - 1 :: !(s[i] == '-' && s[i + 1] == '-'))
  }

  /** Joining parts that are non-empty and free of `-` gives a well-separated string. */
  lemma {:induction false} JoinDashSeparated(parts: seq<string>)
    requires forall i | 0 <= i < |parts| :: parts[i] != "" && '-' !in parts[i]
    ensures WellSeparated(JoinDash(parts))
    decreases |parts|
  {
    if |parts| > 1 {
      var init := parts[..|parts| - 1];
      var last := parts[|parts| - 1];
      JoinDashSeparated(init);
      JoinDashEmpty(init);
      var j := JoinDash(init);
      var s := j + "-" + last;
      assert j[0] != '-' && last[0] != '-' && '-' !in j[..0];
      forall i | 0 <= i < |s| - 1 ensures !(s[i] == '-' && s[i + 1] == '-') {
        if i < |j| - 1 {
          assert s[i] == j[i] && s[i + 1] == j[i + 1];
        } else if i == |j| - 1 {
          assert s[i] == j[|j| - 1];
        } else if i == |j| {
          assert s[i + 1] == last[0];
        } else {
          assert s[i] == last[i - |j| - 1];
        }
      }
      assert s[|s| - 1] == last[|last| - 1];
    } else if |parts| == 1 {
      assert parts[0][0] in parts[0] && parts[0][|parts[0]| - 1] in parts[0];
    }
  }

  /** Segments drawn from three strings none of which holds a `-`. */
  lemma SegmentsWithoutDash(no1: string, no2: string, no3: string)
    requires '-' !in no1 && '-' !in no2 && '-' !in no3
    ensures forall i | 0 <= i < |Segments(no1, no2, no3)| :: '-' !in Segments(no1, no2, no3)[i]
  {
    var parts := Segments(no1, no2, no3);
    forall i | 0 <= i < |parts| ensures '-' !in parts[i] {
      assert parts[i] in [no1, no2, no3];
    }
  }

  /**
   * The phone number is `""` exactly when `dm_UserInfoGam` is missing or all
   * three segments are blank; otherwise it is the segments with text, in
   * order, joined by `-`, and well separated when no segment holds a `-`.
   */
  lemma PhoneNumberShape(gam: Option<JsonValue>)
    ensures var no1, no2, no3 := GetTextValue(gam, USER_PHONE_NO1), GetTextValue(gam, USER_PHONE_NO2),
                                 GetTextValue(gam, USER_PHONE_NO3);
      && (PhoneNumberOf(gam) == "" <==>
            gam.None? || (IsBlank(Some(no1)) && IsBlank(Some(no2)) && IsBlank(Some(no3))))
      && (gam.Some? ==> PhoneNumberOf(gam) == JoinDash(Segments(no1, no2, no3)))
      && ('-' !in no1 && '-' !in no2 && '-' !in no3 ==> WellSeparated(PhoneNumberOf(gam)))
  {
    var no1, no2, no3 := GetTextValue(gam, USER_PHONE_NO1), GetTextValue(gam, USER_PHONE_NO2),
                         GetTextValue(gam, USER_PHONE_NO3);
    var parts := Segments(no1, no2, no3);
    JoinDashEmpty(parts);
    if '-' !in no1 && '-' !in no2 && '-' !in no3 {
      SegmentsWithoutDash(no1, no2, no3);
      JoinDashSeparated(parts);
    }
  }

  /** `"010"`, `"1234"`, `"5678"` give `"010-1234-5678"`. */
  lemma PhoneOfThreeSegments()
    ensures PhoneNumberOf(Some(JsonObject(map[USER_PHONE_NO1 := JsonScalar("010"),
                                               USER_PHONE_NO2 := JsonScalar("1234"),
                                               USER_PHONE_NO3 := JsonScalar("5678")])))
         == "010-1234-5678"
  {
    var gam := Some(JsonObject(map[USER_PHONE_NO1 := JsonScalar("010"),
                                   USER_PHONE_NO2 := JsonScalar("1234"),
                                   USER_PHONE_NO3 := JsonScalar("5678")]));
    assert GetTextValue(gam, USER_PHONE_NO1) == "010";
    assert GetTextValue(gam, USER_PHONE_NO2) == "1234";
    assert GetTextValue(gam, USER_PHONE_NO3) == "5678";
    assert !IsTrimmed("010"[0]) && !IsTrimmed("1234"[0]) && !IsTrimmed("5678"[0]);
    assert Segments("010", "1234", "5678") == ["010", "1234", "5678"];
    assert JoinDash(["010", "1234", "5678"][..2]) == "010-1234";
  }

  /** `"010"` alone gives `"010"`, without a separator. */
  lemma PhoneOfFirstSegmentOnly()
    ensures PhoneNumberOf(Some(JsonObject(map[USER_PHONE_NO1 := JsonScalar("010")])))  == "010"
  {
    var gam := Some(JsonObject(map[USER_PHONE_NO1 := JsonScalar("010")]));
    assert GetTextValue(gam, USER_PHONE_NO1) == "010";
    assert GetTextValue(gam, USER_PHONE_NO2) == "";
    assert GetTextValue(gam, USER_PHONE_NO3) == "";
    assert !IsTrimmed("010"[0]);
    assert Segments("010", "", "") == ["010"];
  }

  /**
   * `major` is `dm_UserInfoGam.DEPT_NM` when it has text, else
   * `dm_UserInfoSch.DEPT_NM` when that has text, else `""`; the other fields
   * are the raw texts of `dm_UserInfo` or `""`, and grade and status are always `""`.
   */
  lemma StudentInfoFields(tree: JsonTree)
    requires ParseStudentInfo(tree).Ok?
    ensures var info := ParseStudentInfo(tree).value;
      var gamDept := GetTextValue(Namespace(tree, DM_USER_INFO_GAM), DEPT_NM);
      var schDept := GetTextValue(Namespace(tree, DM_USER_INFO_SCH), DEPT_NM);
      var id := GetTextValue(Namespace(tree, DM_USER_INFO), INTG_USR_NO);
      var name := GetTextValue(Namespace(tree, DM_USER_INFO), INTG_USR_NM);
      && info.major == (if HasText(Some(gamDept)) then gamDept else if HasText(Some(schDept)) then schDept else "")
      && info.studentId == (if HasText(Some(id)) then id else "")
      && info.name == (if HasText(Some(name)) then name else "")
      && info.grade == "" && info.status == ""
  {
  }

  /**
   * `parseStudentInfo` fails, always with PARSE_ERROR, exactly when the JSON
   * cannot be read or its root has no `dm_UserInfo`; `{}` is such a root.
   */
  lemma StudentInfoFailure(tree: JsonTree)
    ensures ParseStudentInfo(tree).Fail? ==> ParseStudentInfo(tree).code == ParseError
    ensures ParseStudentInfo(tree).Fail? <==> tree.Unparseable? || Namespace(tree, DM_USER_INFO).None?
    ensures tree == Parsed(Some(JsonObject(map[]))) ==> ParseStudentInfo(tree) == Fail(ParseError)
  {
  }

  /** A present but empty `dm_UserInfo` is no error: the identity fields are `""`. */
  lemma EmptyUserInfo(fields: map<string, JsonValue>)
    ensures var tree := Parsed(Some(JsonObject(fields[DM_USER_INFO := JsonObject(map[])])));
      && ParseStudentInfo(tree).Ok?
      && ParseStudentInfo(tree).value.studentId == ""
      && ParseStudentInfo(tree).value.name == ""
  {
  }

  /** The English name is `dm_UserInfo.INTG_ENG_NM` when it has text, else `dm_UserInfoSch.NM_ENG` or `""`. */
  lemma EnglishNameFallback(tree: JsonTree)
    requires tree.Parsed?
    ensures var primary := GetTextValue(Namespace(tree, DM_USER_INFO), INTG_ENG_NM);
      var backup := GetTextValue(Namespace(tree, DM_USER_INFO_SCH), NM_ENG);
      ParseEnglishName(tree) ==
        Ok(if HasText(Some(primary)) then primary else if HasText(Some(backup)) then backup else "")
  {
  }

  /** JSON that cannot be read makes every parse fail with PARSE_ERROR. */
  lemma UnparseableFailsEverywhere()
    ensures ParseStudentInfo(Unparseable) == Fail(ParseError)
    ensures ParseEmail(Unparseable) == Fail(ParseError)
    ensures ParsePhoneNumber(Unparseable) == Fail(ParseError)
    ensures ParseEnglishName(Unparseable) == Fail(ParseError)
    ensures ParseContactInfo(Unparseable) == Fail(ParseError)
  {
  }

  /** Readable JSON never makes the contact fields fail; missing or empty namespaces give `""`. */
  lemma ContactFieldsTotal(tree: JsonTree)
    requires tree.Parsed?
    ensures ParseEmail(tree).Ok? && ParsePhoneNumber(tree).Ok? && ParseEnglishName(tree).Ok?
    ensures ParseContactInfo(tree) ==
      Ok(ContactInfo(ParseEmail(tree).value, ParsePhoneNumber(tree).value, ParseEnglishName(tree).value))
    ensures var empty := Some(JsonObject(map[]));
      (Namespace(tree, DM_USER_INFO) in {None, empty} && Namespace(tree, DM_USER_INFO_GAM) in {None, empty}
        && Namespace(tree, DM_USER_INFO_SCH) in {None, empty}) ==>
      ParseContactInfo(tree) == Ok(ContactInfo("", "", ""))
  {
    PhoneNumberShape(Namespace(tree, DM_USER_INFO_GAM));
  }

  /** The phone number any readable JSON yields is what `buildPhoneNumber` assembles. */
  lemma PhoneNumberIsBuilt(tree: JsonTree)
    requires tree.Parsed?
    ensures ParsePhoneNumber(tree) == Ok(PhoneNumberOf(Namespace(tree, DM_USER_INFO_GAM)))
  {
    var gam := Namespace(tree, DM_USER_INFO_GAM);
    var phone := PhoneNumberOf(gam);
    PhoneNumberShape(gam);
    if phone != "" {
      var parts := Segments(GetTextValue(gam, USER_PHONE_NO1), GetTextValue(gam, USER_PHONE_NO2),
                            GetTextValue(gam, USER_PHONE_NO3));
      JoinDashHasText(parts);
    }
  }

  /** Joining parts with text gives text. */
  lemma {:induction false} JoinDashHasText(parts: seq<string>)
    requires parts != []
    requires forall i | 0 <= i < |parts| :: HasText(Some(parts[i]))
    ensures HasText(Some(JoinDash(parts)))
    decreases |parts|
  {
    var last := parts[|parts| - 1];
    assert HasText(Some(last));
    var k :| 0 <= k < |last| && !IsTrimmed(last[k]);
    if |parts| > 1 {
      var s := JoinDash(parts[..|parts| - 1]) + "-" + last;
      assert s[|s| - |last| + k] == last[k];
    }
  }
}
