/**
 * The value records the library returns (package `model`). Java `null` is
 * `None` where the fields may really be null; every other field is a
 * non-null `String`.
 */
module Model {
  import opened Wrappers

  datatype StudentInfo = StudentInfo(
    major: string,
    studentId: string,
    name: string,
    grade: string,
    status: string)

  datatype ContactInfo = ContactInfo(
    email: string,
    phoneNumber: string,
    englishName: string)

  datatype ClassicCertification = ClassicCertification(
    area: string,
    requiredCount: string,
    certifiedCount: string)

  datatype ClassicExamRecord = ClassicExamRecord(
    semester: string,
    area: string,
    bookTitle: string,
    examDate: string,
    score: string,
    passStatus: string)

  /** Used both for subject-substitution and for curriculum-linked rows. */
  datatype ClassicSubjectRecord = ClassicSubjectRecord(
    semester: string,
    subjectName: string,
    area: string,
    bookTitle: string,
    completion: string)

  datatype ClassicContestRecord = ClassicContestRecord(
    semester: string,
    contestName: string,
    area: string,
    bookTitle: string)

  datatype ClassicReading = ClassicReading(
    certifications: seq<ClassicCertification>,
    examRecords: seq<ClassicExamRecord>,
    subjectSubstitutions: seq<ClassicSubjectRecord>,
    contestRecords: seq<ClassicContestRecord>,
    curriculumRecords: seq<ClassicSubjectRecord>)

  /** `LocalDateTime.now()` is taken as an opaque instant supplied by the caller. */
  type Instant = int

  /**
   * The merged result. The Java class declares no `contactInfo` field although
   * the engine's builder sets one; the model gives the field its evident type.
   */
  datatype SejongAuthResult = SejongAuthResult(
    success: bool,
    studentInfo: StudentInfo,
    classicReading: ClassicReading,
    contactInfo: Option<ContactInfo>,
    authenticatedAt: Instant,
    rawHtml: Option<string>)

  datatype SejongDhcAuthResult = SejongDhcAuthResult(
    success: bool,
    studentInfo: StudentInfo,
    classicReading: ClassicReading,
    authenticatedAt: Instant,
    rawHtml: Option<string>)

  datatype SejongSisAuthResult = SejongSisAuthResult(
    success: bool,
    studentInfo: StudentInfo,
    contactInfo: ContactInfo,
    authenticatedAt: Instant,
    rawJson: Option<string>)
}
