# Sejong University authentication library, modelled in Dafny

The library logs a student into the Sejong University portal with a student
id and a password. It then reads the student's records from two hosts:

- **DHC** (the classic-reading site). A login post, an SSO redirect and a
  status-page request return an HTML page. Two Jsoup parsers read it: one for
  the user-information table (major, student id, name, grade, status) and one
  for the five classic-reading boxes (area certifications, certification
  exams, subject substitutions, contests, curriculum records).
- **SIS** (the academic system). A login post, an SSO page and the
  `initUserInfo.do` JSON API return a JSON document. A Jackson parser reads
  the student information and the contact details (e-mail, phone number,
  English name) out of it.

`SuhSejongAuthEngine` validates the credentials and runs one side, the other,
or both. In `authenticate` the DHC side is required and the SIS side is
optional: a SIS failure only leaves the contact information unset.
`SejongAuthService` is the earlier DHC-only service. `CommonUtil` holds the
null-safe string helpers that all of the above use.

The model is written as values and functions. Every Java class in the core
keeps only final fields. What changes step by step is local to one call: the
`tryCount` loop of `executeWithRetry`, the `HashMap` of `extractTableData`,
the `ArrayList` of each `parseX` loop and the `StringBuilder` of
`buildPhoneNumber`. Each of those loops is a Dafny `method` with a loop,
proved equal to a specification function. The properties are then proved
about that function.

The outside world is modelled as inputs:

- **Network.** Each network step is an `Attempt` value: a response with a
  status and an optional body, a timeout, or another I/O error. The retried
  login post gets one answer per try, as a function `nat -> Attempt`.
- **Build failure.** A failure to build the OkHttp client is a boolean.
- **Traces.** Every client run returns its outcome together with the requests
  it sent, in order. The engine returns its outcome together with the clients
  it called. This makes "never requested" and "called before" provable.
- **Parsing and the clock.** Jsoup and Jackson are functions from text to a
  document tree, so a page that cannot be read is a tree value of its own.
  `LocalDateTime.now()` is an instant passed in.
- **Strings.** Java strings are `seq<char>`, where a `char` is a Unicode
  scalar value (see "## Left out" for unpaired surrogates); a nullable string is
  `Option<string>`. `String.trim` strips every character up to U+0020 from
  both ends.
- **Errors.** Each `SejongAuthErrorCode` is a constructor, and an operation
  returns `Ok(value)` or `Fail(code)`.

`addParam` of the user-info call chains three encodings: `URLEncoder`, UTF-8
and Base64. Each of them is modelled exactly on strings of Unicode scalar
values, and each has a decoder, so the
parameter is proved to carry its JSON without loss.

Where this model departs from how one might read the library's documentation:

- `SejongSisParser` has no `parseContactInfo` method, although the engine
  calls one. The model takes it to be `parseEmail`, `parsePhoneNumber` and
  `parseEnglishName` on the same JSON, combined into one `ContactInfo`.
- `SejongAuthResult` declares no `contactInfo` field, although the engine's
  builder sets one. The model gives the result an optional `contactInfo`.
- The auto-configuration builds `SejongAuthService` with five arguments,
  while the class declares three fields. The model follows the class and its
  three fields.
- `SejongStudentInfoParser.parse` raises PARSE_ERROR whenever no row has a
  non-blank label. This happens not only when the table is absent, but also
  when every label in it is blank.
- The classic-reading parser fails only on a page that cannot be read, and
  the user-information parser rejects such a page too. So in the DHC flow the
  classic-reading parse never decides the outcome, and `authenticateBasic`
  succeeds exactly when `authenticate` does.

## Model

| member | source | states |
|---|---|---|
| AuthErrors.CodesAreDistinct | src/main/java/kr/suhsaechan/sejong/auth/exception/SejongAuthErrorCode.java:14-28 | the nine error constants carry nine distinct code strings `SEJONG_AUTH_001`–`009`, as listed |
| CommonUtil.Trim | src/main/java/kr/suhsaechan/sejong/auth/util/CommonUtil.java:83-85 | `String.trim`: the result is a contiguous slice of the input, everything cut off at either end is ≤ U+0020, the result neither starts nor ends with such a character, and it is empty exactly when the whole input is |
| CommonUtil.TrimIdempotent | src/main/java/kr/suhsaechan/sejong/auth/util/CommonUtil.java:83-85 | trimming twice is trimming once |
| CommonUtil.IsEmpty | src/main/java/kr/suhsaechan/sejong/auth/util/CommonUtil.java:19-21 | `isEmpty` (null or length 0) implies `isBlank` |
| CommonUtil.BlankIffTrimsToEmpty | src/main/java/kr/suhsaechan/sejong/auth/util/CommonUtil.java:29-31 | `isBlank` holds exactly for null and for strings whose trim is empty |
| CommonUtil.HasText | src/main/java/kr/suhsaechan/sejong/auth/util/CommonUtil.java:39-41 | `hasText` is exactly the negation of `isBlank` |
| CommonUtil.HasTextIffTrimsToText | src/main/java/kr/suhsaechan/sejong/auth/util/CommonUtil.java:39-41 | `hasText` holds exactly for non-null strings whose trim is non-empty |
| CommonUtil.SpaceIsBlankNotEmpty | src/main/java/kr/suhsaechan/sejong/auth/util/CommonUtil.java:19-41 | `" "` is blank but not empty, so the two predicates differ |
| CommonUtil.DefaultIfNull | src/main/java/kr/suhsaechan/sejong/auth/util/CommonUtil.java:51-53 | a non-null value is returned unchanged, a null one is replaced by the default |
| CommonUtil.DefaultIfEmpty | src/main/java/kr/suhsaechan/sejong/auth/util/CommonUtil.java:62-64 | an empty or null string gives the default, any other string itself |
| CommonUtil.DefaultIfBlank | src/main/java/kr/suhsaechan/sejong/auth/util/CommonUtil.java:73-75 | a blank or null string gives the default, any other string itself, which then has text |
| CommonUtil.TrimSafely | src/main/java/kr/suhsaechan/sejong/auth/util/CommonUtil.java:83-85 | null stays null, anything else is trimmed |
| CommonUtil.TrimToEmpty | src/main/java/kr/suhsaechan/sejong/auth/util/CommonUtil.java:93-95 | null gives `""`; any other input gives exactly its `String.trim`, which never starts or ends with a character ≤ U+0020 and is no longer than the input |
| CommonUtil.TrimToEmptyIdempotent | src/main/java/kr/suhsaechan/sejong/auth/util/CommonUtil.java:93-95 | applying `trimToEmpty` to its own result changes nothing |
| CommonUtil.TrimToNull | src/main/java/kr/suhsaechan/sejong/auth/util/CommonUtil.java:103-109 | null exactly for blank input; otherwise the trimmed, non-empty text |
| CommonUtil.PaddedTrim | src/main/java/kr/suhsaechan/sejong/auth/util/CommonUtil.java:83-85 | a text with no blank character at its ends survives any blank padding on both sides |
| CommonUtil.DecimalValueOfDecimal | src/main/java/kr/suhsaechan/sejong/auth/util/CommonUtil.java:118-127 | the decimal rendering of every integer reads back as that integer |
| CommonUtil.ParseIntSafely | src/main/java/kr/suhsaechan/sejong/auth/util/CommonUtil.java:118-127 | blank or null input gives the default |
| CommonUtil.ParseIntRoundTrip | src/main/java/kr/suhsaechan/sejong/auth/util/CommonUtil.java:118-127 | every 32-bit value, rendered in decimal and padded with blanks, parses back to itself |
| CommonUtil.ParseIntOutOfRange | src/main/java/kr/suhsaechan/sejong/auth/util/CommonUtil.java:118-127 | a decimal outside the 32-bit range gives the default (the `NumberFormatException` path) |
| CommonUtil.ParseIntNotDecimal | src/main/java/kr/suhsaechan/sejong/auth/util/CommonUtil.java:118-127 | a trimmed text that is no decimal gives the default |
| CommonUtil.ParseIntCases | src/main/java/kr/suhsaechan/sejong/auth/util/CommonUtil.java:118-127 | the result is either the default or the value of the trimmed text read as a decimal |
| CommonUtil.ParseLongSafely | src/main/java/kr/suhsaechan/sejong/auth/util/CommonUtil.java:136-145 | blank or null input gives the default |
| CommonUtil.ParseLongRoundTrip | src/main/java/kr/suhsaechan/sejong/auth/util/CommonUtil.java:136-145 | every 64-bit value, rendered in decimal and padded with blanks, parses back to itself |
| CommonUtil.ParseLongOutOfRange | src/main/java/kr/suhsaechan/sejong/auth/util/CommonUtil.java:136-145 | a decimal outside the 64-bit range gives the default (the `NumberFormatException` path) |
| CommonUtil.ParseLongNotDecimal | src/main/java/kr/suhsaechan/sejong/auth/util/CommonUtil.java:136-145 | a trimmed text that is no decimal, such as `12a` or `+`, gives the default |
| CommonUtil.ParseLongCases | src/main/java/kr/suhsaechan/sejong/auth/util/CommonUtil.java:136-145 | the result is either the default or the value of the trimmed text read as a decimal |
| Utf8.EncodeChar | src/main/java/kr/suhsaechan/sejong/auth/client/SejongSisClient.java:174-178 | `getBytes(UTF_8)` for one scalar value: one to four bytes, a single byte equal to the value exactly below U+0080 |
| Utf8.DecodeEncode | src/main/java/kr/suhsaechan/sejong/auth/client/SejongSisClient.java:174-178 | the strict UTF-8 decoder returns every encoded string |
| Utf8.EncodeAscii | src/main/java/kr/suhsaechan/sejong/auth/client/SejongSisClient.java:174-178 | an ASCII string encodes to its own code points, byte for byte |
| FormUrlEncoding.EncodeCharCases | src/main/java/kr/suhsaechan/sejong/auth/client/SejongSisClient.java:174-178 | `URLEncoder.encode`: letters, digits and `. - * _` are kept, a space becomes `+`; any other character becomes three characters per UTF-8 byte, starting with `%`, which percent-decode to exactly its UTF-8 bytes |
| FormUrlEncoding.DecodeEncode | src/main/java/kr/suhsaechan/sejong/auth/client/SejongSisClient.java:174-178 | percent-decoding returns the original string, for every string |
| FormUrlEncoding.EncodedAlphabet | src/main/java/kr/suhsaechan/sejong/auth/client/SejongSisClient.java:174-178 | the encoded form contains only unreserved characters, `+` and `%` |
| Base64.Encode | src/main/java/kr/suhsaechan/sejong/auth/client/SejongSisClient.java:174-178 | `Base64.getEncoder()`: four characters per started group of three bytes |
| Base64.DecodeEncode | src/main/java/kr/suhsaechan/sejong/auth/client/SejongSisClient.java:174-178 | the decoder returns every byte sequence the encoder was given |
| Base64.EncodeAlphabet | src/main/java/kr/suhsaechan/sejong/auth/client/SejongSisClient.java:174-178 | the encoding uses the standard alphabet, with `=` only in the last two places |
| Http.Catch | src/main/java/kr/suhsaechan/sejong/auth/client/SejongPortalClient.java:64-72 | the client's catch clauses: a returned value is `Ok`, a `SejongAuthException` keeps its code, a bare `IOException` becomes CONNECTION_FAILED |
| Http.ExecuteWithRetry | src/main/java/kr/suhsaechan/sejong/auth/client/SejongPortalClient.java:160-184 | the `tryCount` loop returns the outcome and the number of calls of the retry specification |
| Http.RetryContract | src/main/java/kr/suhsaechan/sejong/auth/client/SejongPortalClient.java:160-184 | at most `maxRetry` calls; success is the first 2xx response and comes right after it; a timeout or a non-2xx response is retried; a timeout on the last try is CONNECTION_TIMEOUT, a non-2xx response on it is CONNECTION_FAILED; another I/O error stops the loop and is rethrown |
| Http.FirstSuccessWins | src/main/java/kr/suhsaechan/sejong/auth/client/SejongPortalClient.java:165-170 | after k retryable failures, a 2xx response on try k+1 is returned after k+1 calls |
| Http.AllTimeouts | src/main/java/kr/suhsaechan/sejong/auth/client/SejongPortalClient.java:173-178 | when every try times out, the result is CONNECTION_TIMEOUT after exactly `maxRetry` calls |
| Http.ExhaustedOnFailure | src/main/java/kr/suhsaechan/sejong/auth/client/SejongPortalClient.java:165-183 | when every try fails and the last one got a response, the result is CONNECTION_FAILED after `maxRetry` calls |
| Http.NoAttemptAllowed | src/main/java/kr/suhsaechan/sejong/auth/client/SejongPortalClient.java:160-184 | with `maxRetry` ≤ 0 nothing is sent and the result is CONNECTION_FAILED |
| Http.OtherIoErrorStops | src/main/java/kr/suhsaechan/sejong/auth/client/SejongPortalClient.java:165-180 | an I/O error that is not a timeout ends the loop at once and propagates |
| Http.RetryFromSkips | src/main/java/kr/suhsaechan/sejong/auth/client/SejongPortalClient.java:160-184 | retryable failures before try k do not change the outcome from try k on |
| Http.SsoStep | src/main/java/kr/suhsaechan/sejong/auth/client/SejongPortalClient.java:110-123 | the SSO request succeeds exactly on a 2xx response; any other response is SESSION_ERROR; an I/O failure propagates (`accessSsoPage`, SejongSisClient.java lines 113-127, handles its response the same way) |
| Http.BodyStep | src/main/java/kr/suhsaechan/sejong/auth/client/SejongPortalClient.java:130-155 | 401 is AUTHENTICATION_FAILED; 200 with a body returns that body; every other response is DATA_FETCH_FAILED; an I/O failure propagates (`fetchInitUserInfo`, SejongSisClient.java lines 133-169, handles its response the same way) |
| PortalClient.BuildFailureSendsNothing | src/main/java/kr/suhsaechan/sejong/auth/client/SejongPortalClient.java:192-225 | a client that cannot be built gives SSL_CONFIGURATION_ERROR before any request |
| PortalClient.OnlyLoginRetried | src/main/java/kr/suhsaechan/sejong/auth/client/SejongPortalClient.java:51-105 | the run sends at most `maxRetry` identical login posts, then at most one SSO request and one status-page request, in order; the SSO request is sent exactly when the login returned, and the status page exactly when SSO succeeded too |
| PortalClient.LoginResponseIgnored | src/main/java/kr/suhsaechan/sejong/auth/client/SejongPortalClient.java:78-105 | the login response's status and body do not matter once it returned: two runs that agree on the try count, SSO and status page give the same result |
| PortalClient.SsoFailureStops | src/main/java/kr/suhsaechan/sejong/auth/client/SejongPortalClient.java:110-123 | a non-2xx SSO response ends the run with SESSION_ERROR; the SSO request is the last one sent |
| PortalClient.StatusPageDecides | src/main/java/kr/suhsaechan/sejong/auth/client/SejongPortalClient.java:130-155 | after login and SSO, the status page alone decides the outcome: 401, 200 with a body, any other response, I/O failure (CONNECTION_FAILED) |
| PortalClient.FailureCodes | src/main/java/kr/suhsaechan/sejong/auth/client/SejongPortalClient.java:51-73 | the run fails only with one of six codes; a timeout outside the retry loop is CONNECTION_FAILED |
| PortalClient.DefaultLoginTimesOut | src/main/java/kr/suhsaechan/sejong/auth/config/SejongAuthProperties.java:28-29 | with the default three tries, three timed-out logins give CONNECTION_TIMEOUT after exactly three posts |
| PortalClient.SuccessfulRun | src/main/java/kr/suhsaechan/sejong/auth/client/SejongPortalClient.java:51-73 | a successful run returns the 200 body of the status page, after a login post, the SSO request and the status-page request |
| SisClient.AddParamRoundTrip | src/main/java/kr/suhsaechan/sejong/auth/client/SejongSisClient.java:174-178 | URL-encoding, UTF-8 and Base64 applied in turn are undone by the three decoders, for every JSON text |
| SisClient.EmptyAddParamCarriesEmptyContext | src/main/java/kr/suhsaechan/sejong/auth/client/SejongSisClient.java:174-178 | the fixed `addParam` decodes to the JSON with three empty run fields |
| SisClient.AddParamShape | src/main/java/kr/suhsaechan/sejong/auth/client/SejongSisClient.java:174-178 | the form-encoded JSON holds none of `{ } " : ,`; `addParam` is 4·⌈n/3⌉ characters of the Base64 alphabet for its n characters, with `=` only in the last two places |
| SisClient.LoginRetryContract | src/main/java/kr/suhsaechan/sejong/auth/client/SejongSisClient.java:183-207 | when every login try fails, exactly `maxRetry` posts are sent; the last try decides between CONNECTION_TIMEOUT and CONNECTION_FAILED |
| SisClient.OnlyLoginRetried | src/main/java/kr/suhsaechan/sejong/auth/client/SejongSisClient.java:59-108 | the run sends at most `maxRetry` identical login posts; after them comes nothing, the SSO page alone, or the SSO page and one user-info call, according to how login and SSO ended |
| SisClient.SsoFailureStops | src/main/java/kr/suhsaechan/sejong/auth/client/SejongSisClient.java:113-127 | a non-2xx SSO response is SESSION_ERROR and the user-info API is never called |
| SisClient.UserInfoDecides | src/main/java/kr/suhsaechan/sejong/auth/client/SejongSisClient.java:133-169 | after login and SSO, the user-info response alone decides the outcome |
| SisClient.BuildFailureSendsNothing | src/main/java/kr/suhsaechan/sejong/auth/client/SejongSisClient.java:212-245 | a client that cannot be built gives SSL_CONFIGURATION_ERROR before any request |
| HtmlDocument.Text | src/main/java/kr/suhsaechan/sejong/auth/parser/SejongStudentInfoParser.java:65-66 | `Elements.text()`: no elements give `""`, one element gives its text |
| HtmlDocument.EachText | src/main/java/kr/suhsaechan/sejong/auth/parser/SejongClassicReadingParser.java:95 | `eachText()`: only non-empty texts, each one an element's text, no more of them than elements |
| HtmlDocument.EachTextAppend | src/main/java/kr/suhsaechan/sejong/auth/parser/SejongClassicReadingParser.java:95 | `eachText()` of two runs of cells is the two lists joined |
| HtmlDocument.EachTextKeepsNonEmpty | src/main/java/kr/suhsaechan/sejong/auth/parser/SejongClassicReadingParser.java:95 | cells that all have text are kept, one for one, in order |
| StudentInfoParser.Label | src/main/java/kr/suhsaechan/sejong/auth/parser/SejongStudentInfoParser.java:65 | a row's label is its trimmed `th` text |
| StudentInfoParser.Value | src/main/java/kr/suhsaechan/sejong/auth/parser/SejongStudentInfoParser.java:66 | a row's value is its trimmed `td` text |
| StudentInfoParser.Entries | src/main/java/kr/suhsaechan/sejong/auth/parser/SejongStudentInfoParser.java:64-70 | the selected rows are read one entry per row, in document order |
| StudentInfoParser.ExtractTableData | src/main/java/kr/suhsaechan/sejong/auth/parser/SejongStudentInfoParser.java:61-73 | the `forEach` over the rows builds exactly the table map |
| StudentInfoParser.BuildLookup | src/main/java/kr/suhsaechan/sejong/auth/parser/SejongStudentInfoParser.java:67-69 | a non-blank label is in the map exactly when some row carries it, bound to the value of the last such row; a blank label is never stored |
| StudentInfoParser.BuildFromEntries | src/main/java/kr/suhsaechan/sejong/auth/parser/SejongStudentInfoParser.java:61-73 | every stored label is non-blank, and every stored pair is one that some row carried |
| StudentInfoParser.TableDataTrimmed | src/main/java/kr/suhsaechan/sejong/auth/parser/SejongStudentInfoParser.java:65-69 | stored labels and values carry no blank characters at either end |
| StudentInfoParser.BuildEmpty | src/main/java/kr/suhsaechan/sejong/auth/parser/SejongStudentInfoParser.java:35-38 | the map is empty exactly when no row has a non-blank label |
| StudentInfoParser.FieldOfBuild | src/main/java/kr/suhsaechan/sejong/auth/parser/SejongStudentInfoParser.java:41-45 | `defaultIfBlank(data.get(label), "")` is the last row's value for that label, or `""` when absent or blank |
| StudentInfoParser.ParseFailure | src/main/java/kr/suhsaechan/sejong/auth/parser/SejongStudentInfoParser.java:30-56 | parsing fails, always with PARSE_ERROR, exactly when the page cannot be read or no row has a non-blank label |
| StudentInfoParser.ParseFields | src/main/java/kr/suhsaechan/sejong/auth/parser/SejongStudentInfoParser.java:40-46 | the five fields come from the rows labelled 학과명, 학번, 이름, 학년 and 사용자 상태, each the last such row's value or `""` |
| StudentInfoParser.ParsedFieldsTrimmed | src/main/java/kr/suhsaechan/sejong/auth/parser/SejongStudentInfoParser.java:40-46 | every parsed field is trimmed |
| StudentInfoParser.OtherLabelsIgnored | src/main/java/kr/suhsaechan/sejong/auth/parser/SejongStudentInfoParser.java:40-46 | when the rows already parse, a row with any other label, wherever it stands, changes nothing (without that condition an extra non-blank label could turn the PARSE_ERROR of an all-blank table into a success) |
| StudentInfoParser.LaterRowWins | src/main/java/kr/suhsaechan/sejong/auth/parser/SejongStudentInfoParser.java:67-69 | of two rows with the same non-blank label, with any rows between them and none with that label after the later one, the map binds the label to the later row's value (`HashMap.put` overwrites) |
| StudentInfoParser.LastValueSkips | src/main/java/kr/suhsaechan/sejong/auth/parser/SejongStudentInfoParser.java:67-69 | an entry under another label does not affect a label's lookup |
| StudentInfoParser.LastValueKept | src/main/java/kr/suhsaechan/sejong/auth/parser/SejongStudentInfoParser.java:67-69 | an extra entry never removes a label that was found |
| StudentInfoParser.BuildNonEmptyKept | src/main/java/kr/suhsaechan/sejong/auth/parser/SejongStudentInfoParser.java:35-38 | an extra row never empties the map |
| StudentInfoParser.OtherEntryIgnored | src/main/java/kr/suhsaechan/sejong/auth/parser/SejongStudentInfoParser.java:40-46 | an entry under none of the five labels leaves a successful parse unchanged |
| StudentInfoParser.EntriesAppend | src/main/java/kr/suhsaechan/sejong/auth/parser/SejongStudentInfoParser.java:64-70 | the entries of two runs of rows are the two lists of entries joined |
| ClassicReadingParser.GetColumnValue | src/main/java/kr/suhsaechan/sejong/auth/parser/SejongClassicReadingParser.java:190-195 | any index outside the list, negative included, gives `""`; an index inside gives the trimmed cell |
| ClassicReadingParser.CollectRecords | src/main/java/kr/suhsaechan/sejong/auth/parser/SejongClassicReadingParser.java:67-181 | each `parseX` loop appends exactly the records its rows yield, in row order |
| ClassicReadingParser.ParseReading | src/main/java/kr/suhsaechan/sejong/auth/parser/SejongClassicReadingParser.java:44-62 | the five loops run one after the other build exactly the parse result |
| ClassicReadingParser.RecordsAppend | src/main/java/kr/suhsaechan/sejong/auth/parser/SejongClassicReadingParser.java:67-181 | rows are read in document order: the list for two runs of rows is the two lists joined |
| ClassicReadingParser.RecordsContents | src/main/java/kr/suhsaechan/sejong/auth/parser/SejongClassicReadingParser.java:67-181 | a list is never longer than its box; a record is in it exactly when some row yields it; it is as long as the box exactly when every row yields a record |
| ClassicReadingParser.RecordsAllKept | src/main/java/kr/suhsaechan/sejong/auth/parser/SejongClassicReadingParser.java:67-181 | when every row yields a record, the list holds them one for one, in order |
| ClassicReadingParser.RecordsNoneKept | src/main/java/kr/suhsaechan/sejong/auth/parser/SejongClassicReadingParser.java:67-181 | a box whose rows are all too short gives an empty list, not an error |
| ClassicReadingParser.ParseFailure | src/main/java/kr/suhsaechan/sejong/auth/parser/SejongClassicReadingParser.java:44-62 | parsing fails, with PARSE_ERROR, exactly when the page cannot be read; a missing box gives an empty list |
| ClassicReadingParser.ParseBounds | src/main/java/kr/suhsaechan/sejong/auth/parser/SejongClassicReadingParser.java:44-62 | no list is longer than the rows of its box |
| ClassicReadingParser.CertificationKept | src/main/java/kr/suhsaechan/sejong/auth/parser/SejongClassicReadingParser.java:67-85 | a certification row is kept exactly when its area has text and it has at least two `td` cells; the first two cells, trimmed, are the counts |
| ClassicReadingParser.ExamRecordKept | src/main/java/kr/suhsaechan/sejong/auth/parser/SejongClassicReadingParser.java:90-110 | an exam row is kept exactly when it has six non-empty cells; they fill the six fields in order, trimmed |
| ClassicReadingParser.SubjectRecordKept | src/main/java/kr/suhsaechan/sejong/auth/parser/SejongClassicReadingParser.java:115-134 | a subject-substitution row is kept exactly when it has five non-empty cells; they fill the five fields in order, trimmed |
| ClassicReadingParser.ContestRecordKept | src/main/java/kr/suhsaechan/sejong/auth/parser/SejongClassicReadingParser.java:139-157 | a contest row is kept exactly when it has four non-empty cells; they fill the four fields in order, trimmed |
| ClassicReadingParser.ExtraCellsIgnored | src/main/java/kr/suhsaechan/sejong/auth/parser/SejongClassicReadingParser.java:67-181 | cells after the ones a record reads change nothing |
| ClassicReadingParser.EmptyCellShiftsColumns | src/main/java/kr/suhsaechan/sejong/auth/parser/SejongClassicReadingParser.java:139-157 | an empty `td` is dropped by `eachText()`, so the later cells move one column to the left |
| SisParser.Path | src/main/java/kr/suhsaechan/sejong/auth/parser/SejongSisParser.java:32-36 | `path(name)` finds a member only in an object that has it; on anything else it gives the missing node |
| SisParser.GetTextValue | src/main/java/kr/suhsaechan/sejong/auth/parser/SejongSisParser.java:142-151 | a scalar field gives its text; a missing node, a missing field, a null field or a container field gives `""` |
| SisParser.OrEmpty | src/main/java/kr/suhsaechan/sejong/auth/parser/SejongSisParser.java:63-65 | `defaultIfBlank(s, "")` keeps a text that has text and otherwise gives `""` |
| SisParser.StudentInfoFields | src/main/java/kr/suhsaechan/sejong/auth/parser/SejongSisParser.java:43-67 | id and name come from `dm_UserInfo`; the major from `dm_UserInfoGam.DEPT_NM`, or `dm_UserInfoSch.DEPT_NM` when that is blank; grade and status are always `""` |
| SisParser.StudentInfoFailure | src/main/java/kr/suhsaechan/sejong/auth/parser/SejongSisParser.java:27-78 | parsing fails, with PARSE_ERROR, exactly when the JSON cannot be read or has no `dm_UserInfo`; `{}` fails |
| SisParser.EmptyUserInfo | src/main/java/kr/suhsaechan/sejong/auth/parser/SejongSisParser.java:38-68 | a present but empty `dm_UserInfo` is no error: id, name and major are `""` |
| SisParser.EnglishNameFallback | src/main/java/kr/suhsaechan/sejong/auth/parser/SejongSisParser.java:123-137 | the English name is `dm_UserInfo.INTG_ENG_NM` when that has text, else `dm_UserInfoSch.NM_ENG`, else `""` |
| SisParser.UnparseableFailsEverywhere | src/main/java/kr/suhsaechan/sejong/auth/parser/SejongSisParser.java:87-137 | JSON that cannot be read makes every parser fail with PARSE_ERROR |
| SisParser.ContactFieldsTotal | src/main/java/kr/suhsaechan/sejong/auth/parser/SejongSisParser.java:87-137 | readable JSON never makes the e-mail, phone or English-name parse fail; missing or empty namespaces give `""` for all three |
| SisParser.Segments | src/main/java/kr/suhsaechan/sejong/auth/parser/SejongSisParser.java:171-182 | only the phone segments that have text are used, in order |
| SisParser.BuildPhoneNumber | src/main/java/kr/suhsaechan/sejong/auth/parser/SejongSisParser.java:156-185 | the `StringBuilder` appends build exactly the segments that have text, joined by `-` |
| SisParser.PhoneNumberShape | src/main/java/kr/suhsaechan/sejong/auth/parser/SejongSisParser.java:156-185 | the number is `""` exactly when `dm_UserInfoGam` is missing or all three segments are blank; it is the segments with text joined by `-`; with no `-` in the segments it never starts, ends or doubles a `-` |
| SisParser.PhoneNumberIsBuilt | src/main/java/kr/suhsaechan/sejong/auth/parser/SejongSisParser.java:105-114 | `parsePhoneNumber` on readable JSON returns exactly what `buildPhoneNumber` assembles |
| SisParser.PhoneOfThreeSegments | src/test/java/kr/suhsaechan/sejong/auth/parser/SejongSisParserTest.java:85-92 | `010`, `1234`, `5678` give `010-1234-5678` |
| SisParser.PhoneOfFirstSegmentOnly | src/test/java/kr/suhsaechan/sejong/auth/parser/SejongSisParserTest.java:166-173 | `010` alone gives `010`, with no separator |
| SisParser.JoinDashSeparated | src/main/java/kr/suhsaechan/sejong/auth/parser/SejongSisParser.java:171-182 | joining non-empty parts without `-` never puts a `-` at either end or two in a row |
| SisParser.JoinDashHasText | src/main/java/kr/suhsaechan/sejong/auth/parser/SejongSisParser.java:171-182 | joining at least one part with text gives text |
| AuthEngine.ValidateCredentials | src/main/java/kr/suhsaechan/sejong/auth/service/SuhSejongAuthEngine.java:235-242 | succeeds exactly when both the id and the password have text; otherwise INVALID_INPUT |
| AuthEngine.InvalidInputBeforeAnyCall | src/main/java/kr/suhsaechan/sejong/auth/service/SuhSejongAuthEngine.java:56-226 | every operation rejects a null or blank id or password with INVALID_INPUT before any client is called; valid credentials always reach a client, the DHC variants only the portal and the SIS variants only SIS |
| AuthEngine.PrimarySourceFatal | src/main/java/kr/suhsaechan/sejong/auth/service/SuhSejongAuthEngine.java:60-63 | in `authenticate` a failure of the portal client or of either HTML parser is the result, unchanged, and SIS is never called |
| AuthEngine.SecondarySourceTolerated | src/main/java/kr/suhsaechan/sejong/auth/service/SuhSejongAuthEngine.java:65-82 | once the DHC side succeeded, `authenticate` succeeds whatever SIS does; the contact information is the SIS result when there is one and null exactly when SIS or its parse failed |
| AuthEngine.MergedAgreesWithDhc | src/main/java/kr/suhsaechan/sejong/auth/service/SuhSejongAuthEngine.java:56-121 | `authenticate` and `authenticateWithDHC` succeed together, fail with the same code and agree on student and reading data |
| AuthEngine.SisFailuresPropagate | src/main/java/kr/suhsaechan/sejong/auth/service/SuhSejongAuthEngine.java:133-156 | the SIS variants do not swallow a SIS failure: it is their result, unchanged |
| AuthEngine.VariantsCallOneClient | src/main/java/kr/suhsaechan/sejong/auth/service/SuhSejongAuthEngine.java:98-226 | the DHC variants never call SIS and the SIS variants never call the portal |
| AuthEngine.ResultsCarry | src/main/java/kr/suhsaechan/sejong/auth/service/SuhSejongAuthEngine.java:76-82 | every returned result has `success = true` and the current instant; a raw variant carries exactly the fetched page or JSON, the others leave it null |
| AuthEngine.RawOnlyAddsText | src/main/java/kr/suhsaechan/sejong/auth/service/SuhSejongAuthEngine.java:167-226 | a raw variant differs from its plain one only in the raw field, and calls the same client |
| AuthEngine.AuthenticateFailureCodes | src/main/java/kr/suhsaechan/sejong/auth/service/SuhSejongAuthEngine.java:56-86 | `authenticate` fails only with INVALID_INPUT, PARSE_ERROR or one of the portal client's six codes |
| AuthService.ValidatesBeforeFetching | src/main/java/kr/suhsaechan/sejong/auth/service/SejongAuthService.java:127-134 | every operation rejects blank credentials with INVALID_INPUT before calling anything; otherwise it calls the portal client once and never SIS |
| AuthService.AuthenticateOutcome | src/main/java/kr/suhsaechan/sejong/auth/service/SejongAuthService.java:37-60 | `authenticate` fails exactly when the fetch or a parser fails, with that code; otherwise `success = true` with both parsed parts, no contact information and no raw page |
| AuthService.BasicSkipsClassicReading | src/main/java/kr/suhsaechan/sejong/auth/service/SejongAuthService.java:71-83 | `authenticateBasic` is the fetch and the user-information parse alone; it succeeds exactly when `authenticate` does and then returns the same student information |
| AuthService.RawHtmlIsFetchedPage | src/main/java/kr/suhsaechan/sejong/auth/service/SejongAuthService.java:94-118 | `authenticateWithRawHtml` carries exactly the fetched page and otherwise equals `authenticate` |

## Left out

- The concrete HTTP traffic is not modelled: request headers, form bodies, cookies, the cookie jar, TLS and trust-all managers, timeouts, redirects and response closing. A request is modelled as its method, URL and payload fields, and a response as its status and optional body.
- Building the OkHttp client (`buildClient`) is a boolean input saying whether it throws. The TLS set-up that could make it throw is left out.
- `timeoutSeconds` is not modelled. It only configures OkHttp.
- Jsoup's HTML parsing, CSS selectors and whitespace normalisation are not modelled; a parsed page is an input tree of sections and rows. `Elements.text()` is modelled as the texts joined by single spaces.
- Jackson's reading of a document is an input tree; `asText` of a number or boolean is its rendering, taken as given.
- Logging (`log.info`, `log.debug`, `log.warn`) is left out, since it has no effect on results.
- `LocalDateTime.now()` is a parameter: the model does not read a clock.
- `parseDoubleSafely` is left out, because it works on floating point.
- CommonUtil.ParseIntSafely: only ASCII digits are accepted, while `Integer.parseInt` also takes other Unicode decimal digits.
- CommonUtil.ParseLongSafely: only ASCII digits are accepted, while `Long.parseLong` also takes other Unicode decimal digits.
- Strings are sequences of Unicode scalar values, while a Java string is a sequence of UTF-16 code units. A Java string holding an unpaired surrogate cannot be represented. `getBytes(UTF_8)` and `URLEncoder.encode(…, UTF_8)` turn such a surrogate into `?` (`%3F`), and that case is not modelled. The UTF-8, form-encoding and `addParam` results are exact for strings of scalar values only.
- Exceptions other than unreadable input inside the parsers are left out. Null elements and runtime errors inside Jsoup are examples.
- An `IOException` while a response body is read is not modelled separately. It is one of the outcomes of the step's `Attempt`.
- A null student id or password passed straight to a client is not modelled: the engine and the service reject those first.
- Spring auto-configuration and property binding are not modelled; the default settings are a constant.
- The test class `SjptApiTest` (manual calls against the live servers) is not part of this model.
- SisClient.GenerateEmptyAddParam: the model proves what the fixed value decodes to, but does not spell out its Base64 literal.
