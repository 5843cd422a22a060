/**
 * `SejongAuthProperties`: the configuration both clients read. Only its
 * values matter here; how Spring binds them is not modelled.
 */
module AuthProperties {

  datatype SejongAuthProperties = SejongAuthProperties(
    sslVerification: bool,
    timeoutSeconds: int,
    maxRetry: int,
    portalLoginUrl: string,
    ssoRedirectUrl: string,
    classicStatusUrl: string)

  /** The values a fresh `SejongAuthProperties` carries. */
  const DEFAULTS := SejongAuthProperties(
    true,
    10,
    3,
    "https://portal.sejong.ac.kr/jsp/login/login_action.jsp",
    "http://classic.sejong.ac.kr/_custom/sejong/sso/sso-return.jsp?returnUrl=https://classic.sejong.ac.kr/classic/index.do",
    "https://classic.sejong.ac.kr/classic/reading/status.do")
}
